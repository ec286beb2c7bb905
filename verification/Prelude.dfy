/** Machine integers, the usual result types, and the growable buffer that the
    encoder and the renderer append to. */
module Prelude {

  type u8 = x: int | 0 <= x < 0x100
  type u16 = x: int | 0 <= x < 0x1_0000
  type u32 = x: int | 0 <= x < 0x1_0000_0000
  type u64 = x: int | 0 <= x < 0x1_0000_0000_0000_0000

  datatype Option<+T> = None | Some(value: T)

  datatype Result<+T, +E> = Ok(value: T) | Err(error: E)

  /** A `Vec<T>` or `String` that callees append to in place. */
  class Vec<T> {
    var items: seq<T>

    constructor ()
      ensures items == []
    {
      items := [];
    }

    method Extend(xs: seq<T>)
      modifies this
      ensures items == old(items) + xs
    {
      items := items + xs;
    }
  }

  /** Dividing twice is dividing by the product. */
  lemma DivideTwice(n: nat, a: nat, m: nat)
    requires a > 0 && m > 0
    ensures a * m > 0
    ensures n / a / m == n / (a * m)
  {
    var q, r := n / a / m, n / a % m;
    Regroup(a, m, q, r, n % a);
    QuotientUnique(n, a * m, q, a * r + n % a);
  }

  lemma Regroup(a: nat, m: nat, q: nat, r: nat, low: nat)
    requires r < m && low < a
    ensures a * (m * q + r) + low == (a * m) * q + (a * r + low)
    ensures 0 <= a * r + low < a * m
  {
    assert a * (m * q + r) == a * (m * q) + a * r;
    assert a * (m * q) == (a * m) * q;
    var room: nat := m - 1 - r;
    assert a * m == a * room + a * r + a;
  }

  lemma QuotientUnique(n: nat, m: nat, q: nat, r: nat)
    requires n == m * q + r && r < m
    ensures n / m == q
  {
    var d := n / m - q;
    assert m * d == r - n % m by {
      assert n == m * (n / m) + n % m;
    }
    NoMultipleBetween(m, d);
  }

  lemma NoMultipleBetween(m: int, d: int)
    requires m > 0 && -m < m * d < m
    ensures d == 0
  {
    assert d >= 1 ==> m * (d - 1) >= 0;
    assert d <= -1 ==> m * (-d - 1) >= 0;
  }
}
