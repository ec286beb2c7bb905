/** The command line's port specs: `name:vid` and `name:trunk:native:csv`. */
module PortSpecs {
  import opened Prelude
  import opened OrderedSets
  import opened Ports
  import opened Decimal

  datatype SpecError =
    | NoColon
    | BadVlan
    | BadTrunkShape
    | BadNative
    | BadAllowed
    | BadMode(error: PortModeError)
    | DuplicateName(name: string)

  // ---------------------------------------------------------------- the library's string operations

  /** The index of the first `c` in `s`, or the length of `s`. */
  function Find(s: string, c: char): (k: nat)
    ensures k <= |s|
    ensures c !in s[..k]
    ensures k < |s| ==> s[k] == c
  {
    if s == [] || s[0] == c then
      0
    else
      var k := Find(s[1..], c) + 1;
      assert s[..k] == [s[0]] + s[1..][..k - 1];
      k
  }

  function SplitOnce(s: string, c: char): Option<(string, string)> {
    var k := Find(s, c);
    if k == |s| then None else Some((s[..k], s[k + 1..]))
  }

  function Split(s: string, c: char): (parts: seq<string>)
    ensures parts != []
  {
    var k := Find(s, c);
    if k == |s| then [s] else [s[..k]] + Split(s[k + 1..], c)
  }

  function Join(parts: seq<string>, c: char): string {
    if parts == [] then ""
    else if |parts| == 1 then parts[0]
    else parts[0] + [c] + Join(parts[1..], c)
  }

  function StripPrefix(s: string, prefix: string): Option<string> {
    if prefix <= s then Some(s[|prefix|..]) else None
  }

  /** `str::parse::<u16>`: digits after an optional plus sign, at most 65535. */
  function ParseU16(s: string): Option<u16> {
    var digits := if |s| > 1 && s[0] == '+' then s[1..] else s;
    if digits != [] && AllDigits(digits) && Denotes(digits) < 0x1_0000 then Some(Denotes(digits)) else None
  }

  function ParseAll(fields: seq<string>): Option<seq<u16>> {
    if fields == [] then
      Some([])
    else
      match (ParseU16(fields[0]), ParseAll(fields[1..]))
      case (Some(v), Some(vs)) => Some([v] + vs)
      case _ => None
  }

  // ---------------------------------------------------------------- the parser

  function ParseNative(s: string): Result<Option<Vlan>, SpecError> {
    if s == "-" then Ok(None)
    else match ParseU16(s)
         case Some(v) => Ok(Some(v))
         case None => Err(BadNative)
  }

  function ParseAllowed(s: string): Result<seq<Vlan>, SpecError> {
    if s == "" then Ok([])
    else match ParseAll(Split(s, ','))
         case Some(vs) => Ok(vs)
         case None => Err(BadAllowed)
  }

  ghost function ParseTrunk(s: string): Result<PortMode, SpecError> {
    match SplitOnce(s, ':')
    case None => Err(BadTrunkShape)
    case Some((nativeText, allowedText)) =>
      match ParseNative(nativeText)
      case Err(e) => Err(e)
      case Ok(native) =>
        match ParseAllowed(allowedText)
        case Err(e) => Err(e)
        case Ok(allowed) =>
          match NewTrunk(native, allowed)
          case Err(e) => Err(BadMode(e))
          case Ok(mode) => Ok(mode)
  }

  function ParseAccess(s: string): Result<PortMode, SpecError> {
    match ParseU16(s)
    case None => Err(BadVlan)
    case Some(vlan) =>
      match NewAccess(vlan)
      case Err(e) => Err(BadMode(e))
      case Ok(mode) => Ok(mode)
  }

  ghost function ParseSpec(arg: string): Result<(string, PortMode), SpecError> {
    match SplitOnce(arg, ':')
    case None => Err(NoColon)
    case Some((name, rest)) =>
      var mode := match StripPrefix(rest, "trunk:")
                  case Some(trunk) => ParseTrunk(trunk)
                  case None => ParseAccess(rest);
      match mode
      case Err(e) => Err(e)
      case Ok(m) => Ok((name, m))
  }

  // ---------------------------------------------------------------- the grammar

  /** Every field of a comma-separated list is a number, and they are the numbers in `vlans`. */
  ghost predicate ListText(text: string, vlans: seq<Vlan>) {
    exists fields: seq<string> ::
      && text == Join(fields, ',')
      && |fields| == |vlans|
      && forall i | 0 <= i < |fields| :: ParseU16(fields[i]) == Some(vlans[i])
  }

  ghost predicate NativeText(text: string, native: Option<Vlan>) {
    match native
    case None => text == "-"
    case Some(v) => ParseU16(text) == Some(v)
  }

  ghost predicate ModeText(text: string, mode: PortMode) {
    match mode
    case Access(vlan) => ParseU16(text) == Some(vlan)
    case Trunk(native, allowed) =>
      exists nativeText: string, listText: string, vlans: seq<Vlan> ::
        && text == "trunk:" + (nativeText + ":" + listText)
        && NativeText(nativeText, native)
        && ListText(listText, vlans)
        && allowed == set v: Vlan | v in vlans
  }

  /** `arg` is a spec of that name and mode. */
  ghost predicate SpecText(arg: string, name: string, mode: PortMode) {
    && ':' !in name
    && mode.Valid()
    && exists text: string :: arg == name + ":" + text && ModeText(text, mode)
  }

  // ---------------------------------------------------------------- laws

  lemma {:induction false} FindUnique(a: string, b: string, c: char)
    requires c !in a
    ensures Find(a + [c] + b, c) == |a|
  {
    if a != [] {
      assert (a + [c] + b)[1..] == a[1..] + [c] + b;
      FindUnique(a[1..], b, c);
    }
  }

  lemma {:induction false} FindAbsent(s: string, c: char)
    requires c !in s
    ensures Find(s, c) == |s|
  {
    if s != [] {
      FindAbsent(s[1..], c);
    }
  }

  lemma SplitOnceUnique(a: string, b: string, c: char)
    requires c !in a
    ensures SplitOnce(a + [c] + b, c) == Some((a, b))
  {
    FindUnique(a, b, c);
    var s := a + [c] + b;
    assert s[..|a|] == a && s[|a| + 1..] == b;
  }

  lemma CutAt(s: string, k: nat)
    requires k < |s|
    ensures s == s[..k] + [s[k]] + s[k + 1..]
  {
  }

  lemma SplitOnceRejoins(s: string, c: char)
    ensures match SplitOnce(s, c)
            case Some((a, b)) => s == a + [c] + b && c !in a
            case None => c !in s
  {
    var k := Find(s, c);
    if k < |s| {
      CutAt(s, k);
    } else {
      assert s[..k] == s;
    }
  }

  lemma {:induction false} SplitJoin(parts: seq<string>, c: char)
    requires parts != [] && forall i | 0 <= i < |parts| :: c !in parts[i]
    ensures Split(Join(parts, c), c) == parts
  {
    var s := Join(parts, c);
    if |parts| == 1 {
      FindAbsent(s, c);
    } else {
      FindUnique(parts[0], Join(parts[1..], c), c);
      assert s[..|parts[0]|] == parts[0] && s[|parts[0]| + 1..] == Join(parts[1..], c);
      SplitJoin(parts[1..], c);
    }
  }

  lemma JoinCons(part: string, rest: seq<string>, c: char)
    requires rest != []
    ensures Join([part] + rest, c) == part + [c] + Join(rest, c)
  {
    assert ([part] + rest)[1..] == rest;
  }

  /** What is left of the first separator, the separator, and what is right of it. */
  lemma SplitsAt(s: string, c: char)
    requires Find(s, c) < |s|
    ensures var k := Find(s, c);
            s == s[..k] + [c] + s[k + 1..] && Split(s, c) == [s[..k]] + Split(s[k + 1..], c)
  {
    var k := Find(s, c);
    CutAt(s, k);
  }

  lemma {:induction false} JoinSplit(s: string, c: char)
    ensures Join(Split(s, c), c) == s
    decreases |s|
  {
    var k := Find(s, c);
    if k < |s| {
      var head, tail := s[..k], s[k + 1..];
      SplitsAt(s, c);
      JoinSplit(tail, c);
      JoinCons(head, Split(tail, c), c);
    }
  }

  lemma {:induction false} ParseAllFieldwise(fields: seq<string>, vs: seq<u16>)
    ensures ParseAll(fields) == Some(vs)
            <==> |fields| == |vs| && forall i | 0 <= i < |fields| :: ParseU16(fields[i]) == Some(vs[i])
  {
    if fields != [] {
      if vs != [] {
        ParseAllFieldwise(fields[1..], vs[1..]);
        assert vs == [vs[0]] + vs[1..];
        assert forall i | 0 <= i < |fields| - 1 :: fields[1..][i] == fields[i + 1];
        if |fields| == |vs| && forall i | 0 <= i < |fields| :: ParseU16(fields[i]) == Some(vs[i]) {
          assert forall i | 0 <= i < |fields| - 1 :: ParseU16(fields[1..][i]) == Some(vs[1..][i]);
        }
      }
    }
  }

  /** Numbers contain neither of the separators, and are never empty or a dash. */
  lemma NumberText(s: string)
    requires ParseU16(s).Some?
    ensures s != "" && s != "-" && ',' !in s && ':' !in s && !("trunk:" <= s)
  {
    var digits := if |s| > 1 && s[0] == '+' then s[1..] else s;
    forall i | 0 <= i < |s|
      ensures s[i] == '+' || IsDigit(s[i])
    {
      if digits != s {
        assert i > 0 ==> s[i] == digits[i - 1];
      }
    }
    assert s[0] == '+' || IsDigit(s[0]);
  }

  lemma ParseAllowedIff(text: string, vlans: seq<Vlan>)
    ensures ParseAllowed(text) == Ok(vlans) <==> ListText(text, vlans)
  {
    if ParseAllowed(text) == Ok(vlans) {
      if text == "" {
        var fields: seq<string> := [];
        assert text == Join(fields, ',');
      } else {
        var fields := Split(text, ',');
        ParseAllFieldwise(fields, vlans);
        JoinSplit(text, ',');
      }
    }
    if ListText(text, vlans) {
      var fields :| text == Join(fields, ',') && |fields| == |vlans|
                    && forall i | 0 <= i < |fields| :: ParseU16(fields[i]) == Some(vlans[i]);
      if fields != [] {
        forall i | 0 <= i < |fields|
          ensures ',' !in fields[i] && fields[i] != ""
        {
          NumberText(fields[i]);
        }
        SplitJoin(fields, ',');
        assert text != "";
        ParseAllFieldwise(fields, vlans);
      }
    }
  }

  lemma ParseNativeIff(text: string, native: Option<Vlan>)
    ensures ParseNative(text) == Ok(native) <==> NativeText(text, native)
  {
    if ParseU16(text).Some? {
      NumberText(text);
    }
  }

  lemma NativeTextHasNoColon(text: string, native: Option<Vlan>)
    requires NativeText(text, native)
    ensures ':' !in text
  {
    if native.Some? {
      NumberText(text);
    }
  }

  lemma ParseTrunkSound(s: string)
    requires ParseTrunk(s).Ok?
    ensures ParseTrunk(s).value.Trunk? && ParseTrunk(s).value.Valid()
    ensures ModeText("trunk:" + s, ParseTrunk(s).value)
  {
    SplitOnceRejoins(s, ':');
    var (nativeText, listText) := SplitOnce(s, ':').value;
    var native := ParseNative(nativeText).value;
    var vlans := ParseAllowed(listText).value;
    ParseNativeIff(nativeText, native);
    ParseAllowedIff(listText, vlans);
    ConstructorsBuildValidModes(native, vlans, 1);
    TrunkIsText(nativeText, listText, native, vlans);
  }

  lemma TrunkIsText(nativeText: string, listText: string, native: Option<Vlan>, vlans: seq<Vlan>)
    requires NativeText(nativeText, native) && ListText(listText, vlans)
    ensures ModeText("trunk:" + (nativeText + ":" + listText), Trunk(native, set v: Vlan | v in vlans))
  {
  }

  lemma ParseTrunkComplete(nativeText: string, listText: string, native: Option<Vlan>, vlans: seq<Vlan>)
    requires NativeText(nativeText, native) && ListText(listText, vlans)
    requires Trunk(native, set v: Vlan | v in vlans).Valid()
    ensures ParseTrunk(nativeText + ":" + listText) == Ok(Trunk(native, set v: Vlan | v in vlans))
  {
    NativeTextHasNoColon(nativeText, native);
    SplitOnceUnique(nativeText, listText, ':');
    ParseNativeIff(nativeText, native);
    ParseAllowedIff(listText, vlans);
    ConstructorsBuildValidModes(native, vlans, 1);
  }

  /** The parser accepts exactly the texts the grammar describes, and returns the name and mode they
      describe. */
  lemma ParseSpecIff(arg: string, name: string, mode: PortMode)
    ensures ParseSpec(arg) == Ok((name, mode)) <==> SpecText(arg, name, mode)
  {
    if ParseSpec(arg) == Ok((name, mode)) {
      SpecSound(arg, name, mode);
    }
    if SpecText(arg, name, mode) {
      var text :| arg == name + ":" + text && ModeText(text, mode);
      SpecComplete(name, text, mode);
    }
  }

  lemma SpecSound(arg: string, name: string, mode: PortMode)
    requires ParseSpec(arg) == Ok((name, mode))
    ensures SpecText(arg, name, mode)
  {
    SplitOnceRejoins(arg, ':');
    var rest := SplitOnce(arg, ':').value.1;
    match StripPrefix(rest, "trunk:")
    case Some(trunk) =>
      ParseTrunkSound(trunk);
      assert rest == "trunk:" + trunk;
    case None =>
      ConstructorsBuildValidModes(None, [], ParseU16(rest).value);
  }

  lemma AccessComplete(name: string, text: string, vlan: Vlan)
    requires ':' !in name && Access(vlan).Valid() && ParseU16(text) == Some(vlan)
    ensures ParseSpec(name + ":" + text) == Ok((name, Access(vlan)))
  {
    SplitOnceUnique(name, text, ':');
    NumberText(text);
  }

  lemma TrunkComplete(name: string, nativeText: string, listText: string, native: Option<Vlan>, vlans: seq<Vlan>)
    requires ':' !in name && NativeText(nativeText, native) && ListText(listText, vlans)
    requires Trunk(native, set v: Vlan | v in vlans).Valid()
    ensures ParseSpec(name + ":" + ("trunk:" + (nativeText + ":" + listText)))
            == Ok((name, Trunk(native, set v: Vlan | v in vlans)))
  {
    var trunk := nativeText + ":" + listText;
    var text := "trunk:" + trunk;
    SplitOnceUnique(name, text, ':');
    assert StripPrefix(text, "trunk:") == Some(trunk);
    ParseTrunkComplete(nativeText, listText, native, vlans);
  }

  lemma SpecComplete(name: string, text: string, mode: PortMode)
    requires ':' !in name && mode.Valid() && ModeText(text, mode)
    ensures ParseSpec(name + ":" + text) == Ok((name, mode))
  {
    match mode
    case Access(vlan) => AccessComplete(name, text, vlan);
    case Trunk(native, allowed) =>
      var nativeText: string, listText: string, vlans: seq<Vlan> :|
        && text == "trunk:" + (nativeText + ":" + listText)
        && NativeText(nativeText, native)
        && ListText(listText, vlans)
        && allowed == set v: Vlan | v in vlans;
      TrunkComplete(name, nativeText, listText, native, vlans);
  }

  // ---------------------------------------------------------------- canonical texts

  function NativeCanonical(native: Option<Vlan>): string {
    match native
    case None => "-"
    case Some(v) => Numeral(v)
  }

  function ListCanonical(vlans: seq<Vlan>): string {
    Join(seq(|vlans|, i requires 0 <= i < |vlans| => Numeral(vlans[i])), ',')
  }

  lemma NumeralParses(v: Vlan)
    ensures ParseU16(Numeral(v)) == Some(v)
  {
    NumeralRoundTrip(v);
    assert IsDigit(Numeral(v)[0]);
  }

  /** Printing a mode and parsing it back returns the same name and mode, whatever order the allowed
      VLANs are listed in and however often each is repeated. */
  lemma CanonicalRoundTrip(name: string, mode: PortMode, listed: seq<Vlan>)
    requires ':' !in name && mode.Valid()
    requires mode.Trunk? ==> mode.allowed == set v: Vlan | v in listed
    ensures match mode
            case Access(vlan) => ParseSpec(name + ":" + Numeral(vlan)) == Ok((name, mode))
            case Trunk(native, _) =>
              ParseSpec(name + ":" + ("trunk:" + (NativeCanonical(native) + ":" + ListCanonical(listed))))
              == Ok((name, mode))
  {
    match mode
    case Access(vlan) =>
      NumeralParses(vlan);
      AccessComplete(name, Numeral(vlan), vlan);
    case Trunk(native, _) =>
      var fields := seq(|listed|, i requires 0 <= i < |listed| => Numeral(listed[i]));
      forall i | 0 <= i < |fields|
        ensures ParseU16(fields[i]) == Some(listed[i])
      {
        NumeralParses(listed[i]);
      }
      assert ListText(ListCanonical(listed), listed);
      if native.Some? {
        NumeralParses(native.value);
      }
      assert NativeText(NativeCanonical(native), native);
      TrunkComplete(name, NativeCanonical(native), ListCanonical(listed), native, listed);
  }

  function Zeros(n: nat): string {
    seq(n, _ => '0')
  }

  lemma {:induction false} DenotesZeros(z: nat, s: string)
    requires AllDigits(s)
    ensures AllDigits(Zeros(z) + s) && Denotes(Zeros(z) + s) == Denotes(s)
  {
    var t := Zeros(z) + s;
    if s != [] {
      DenotesZeros(z, s[..|s| - 1]);
      assert t[..|t| - 1] == Zeros(z) + s[..|s| - 1];
    } else if z > 0 {
      assert t == Zeros(z) && t[..z - 1] == Zeros(z - 1) + [];
      DenotesZeros(z - 1, []);
    }
  }

  lemma {:induction false} DigitsArePaddedNumeral(s: string) returns (z: nat)
    requires s != [] && AllDigits(s)
    ensures s == Zeros(z) + Numeral(Denotes(s))
  {
    var n := |s| - 1;
    var digit := s[n] as int - '0' as int;
    assert Denotes(s) == 10 * Denotes(s[..n]) + digit;
    if n == 0 {
      z := 0;
      assert s[..0] == [];
    } else {
      z := DigitsArePaddedNumeral(s[..n]);
      assert s == s[..n] + [s[n]];
      if Denotes(s[..n]) == 0 {
        z := z + 1;
        assert Numeral(0) == "0";
      } else {
        assert Numeral(Denotes(s)) == Numeral(Denotes(s[..n])) + [s[n]];
      }
    }
  }

  /** A VLAN id may be written with leading zeros and a plus sign, and in no other way. */
  lemma ParseU16Exactly(s: string, v: u16)
    ensures ParseU16(s) == Some(v) <==>
              exists z: nat :: s == Zeros(z) + Numeral(v) || s == "+" + (Zeros(z) + Numeral(v))
  {
    var digits := if |s| > 1 && s[0] == '+' then s[1..] else s;
    if ParseU16(s) == Some(v) {
      var z := DigitsArePaddedNumeral(digits);
      assert s == digits || s == "+" + digits;
      assert s == Zeros(z) + Numeral(v) || s == "+" + (Zeros(z) + Numeral(v));
    }
    forall z: nat | s == Zeros(z) + Numeral(v) || s == "+" + (Zeros(z) + Numeral(v))
      ensures ParseU16(s) == Some(v)
    {
      NumeralRoundTrip(v);
      DenotesZeros(z, Numeral(v));
      var padded := Zeros(z) + Numeral(v);
      assert IsDigit(padded[0]);
      if s != padded {
        assert s[1..] == padded;
      }
    }
  }

  // ---------------------------------------------------------------- refusals

  /** Why a spec that is not a trunk is refused. */
  lemma AccessRefusals(name: string, rest: string)
    requires ':' !in name && !("trunk:" <= rest)
    ensures match ParseU16(rest)
            case None => ParseSpec(name + ":" + rest) == Err(BadVlan)
            case Some(v) => ParseSpec(name + ":" + rest) ==
                            if 1 <= v <= 4094 then Ok((name, Access(v))) else Err(BadMode(InvalidVlan(v)))
  {
    SplitOnceUnique(name, rest, ':');
  }

  lemma StripsTrunk(t: string)
    ensures StripPrefix("trunk:" + t, "trunk:") == Some(t)
  {
    assert ("trunk:" + t)[6..] == t;
  }

  lemma {:induction false} ParseAllRefuses(fields: seq<string>)
    ensures ParseAll(fields).None? <==> exists i :: 0 <= i < |fields| && ParseU16(fields[i]).None?
  {
    if fields != [] {
      ParseAllRefuses(fields[1..]);
      assert forall i | 0 < i < |fields| :: fields[i] == fields[1..][i - 1];
      if ParseAll(fields[1..]).None? {
        var i :| 0 <= i < |fields| - 1 && ParseU16(fields[1..][i]).None?;
        assert fields[i + 1] == fields[1..][i];
      }
    }
  }

  /** Why a trunk spec is refused, and that nothing later in the text is looked at before: the missing
      second colon, a native VLAN that is neither a dash nor a number, a list with a field that is not
      one, and only then a mode the constructor will not build. */
  lemma TrunkRefusals(name: string, native: string, fields: seq<string>)
    requires ':' !in name && ':' !in native
    requires fields != [] && forall i | 0 <= i < |fields| :: ',' !in fields[i]
    ensures ParseSpec(name + ":" + ("trunk:" + native)) == Err(BadTrunkShape)
    ensures var list := Join(fields, ',');
            var r := ParseSpec(name + ":" + ("trunk:" + (native + ":" + list)));
            && (r == Err(BadNative) <==> native != "-" && ParseU16(native).None?)
            && (r == Err(BadAllowed) <==>
                  && (native == "-" || ParseU16(native).Some?)
                  && list != ""
                  && exists i :: 0 <= i < |fields| && ParseU16(fields[i]).None?)
            && (r == Err(BadMode(EmptyTrunk)) <==> native == "-" && list == "")
            && r != Err(NoColon) && r != Err(BadVlan) && r != Err(BadTrunkShape)
  {
    var list := Join(fields, ',');
    SpecOfTrunk(name, native);
    FindAbsent(native, ':');
    SpecOfTrunk(name, native + ":" + list);
    TrunkTextRefusals(native, fields);
  }

  lemma SpecOfTrunk(name: string, t: string)
    requires ':' !in name
    ensures ParseSpec(name + ":" + ("trunk:" + t)) == match ParseTrunk(t)
                                                      case Err(e) => Err(e)
                                                      case Ok(mode) => Ok((name, mode))
  {
    SplitOnceUnique(name, "trunk:" + t, ':');
    StripsTrunk(t);
  }

  lemma TrunkTextRefusals(native: string, fields: seq<string>)
    requires ':' !in native
    requires fields != [] && forall i | 0 <= i < |fields| :: ',' !in fields[i]
    ensures var list := Join(fields, ',');
            var r := ParseTrunk(native + ":" + list);
            && (r == Err(BadNative) <==> native != "-" && ParseU16(native).None?)
            && (r == Err(BadAllowed) <==>
                  && (native == "-" || ParseU16(native).Some?)
                  && list != ""
                  && exists i :: 0 <= i < |fields| && ParseU16(fields[i]).None?)
            && (r == Err(BadMode(EmptyTrunk)) <==> native == "-" && list == "")
            && r != Err(NoColon) && r != Err(BadVlan) && r != Err(BadTrunkShape)
  {
    var list := Join(fields, ',');
    SplitOnceUnique(native, list, ':');
    SplitJoin(fields, ',');
    ParseAllRefuses(fields);
    if ParseNative(native).Ok? && ParseAllowed(list).Ok? {
      ConstructorsBuildValidModes(ParseNative(native).value, ParseAllowed(list).value, 0);
    }
  }

  /** Only an argument without any colon is refused for want of one. */
  lemma NoColonRefused(arg: string)
    ensures ParseSpec(arg) == Err(NoColon) <==> ':' !in arg
  {
    SplitOnceRejoins(arg, ':');
  }

  // ---------------------------------------------------------------- whole command lines

  ghost function ParseEach(args: seq<string>): Result<seq<(string, PortMode)>, SpecError> {
    if args == [] then
      Ok([])
    else
      match ParseSpec(args[0])
      case Err(e) => Err(e)
      case Ok(spec) =>
        match ParseEach(args[1..])
        case Err(e) => Err(e)
        case Ok(specs) => Ok([spec] + specs)
  }

  ghost predicate DistinctNames(specs: seq<(string, PortMode)>) {
    forall i, j | 0 <= i < j < |specs| :: specs[i].0 != specs[j].0
  }

  /** The first name that has already been used when it comes up. */
  function FirstRepeat(specs: seq<(string, PortMode)>): Option<string> {
    if specs == [] then
      None
    else
      var n := |specs| - 1;
      match FirstRepeat(specs[..n])
      case Some(name) => Some(name)
      case None => if exists i :: 0 <= i < n && specs[i].0 == specs[n].0 then Some(specs[n].0) else None
  }

  ghost function ParsePortSpecs(args: seq<string>): Result<seq<(string, PortMode)>, SpecError> {
    match ParseEach(args)
    case Err(e) => Err(e)
    case Ok(specs) =>
      match FirstRepeat(specs)
      case Some(name) => Err(DuplicateName(name))
      case None => Ok(specs)
  }

  method RejectDuplicateNames(specs: seq<(string, PortMode)>) returns (r: Result<(), SpecError>)
    ensures r == match FirstRepeat(specs) case Some(name) => Err(DuplicateName(name)) case None => Ok(())
    ensures r.Ok? <==> DistinctNames(specs)
  {
    FirstRepeatIff(specs);
    var seen: set<string> := {};
    for n := 0 to |specs|
      invariant forall x :: x in seen <==> exists i :: 0 <= i < n && specs[i].0 == x
      invariant FirstRepeat(specs[..n]) == None
    {
      var name := specs[n].0;
      assert specs[..n + 1][..n] == specs[..n];
      if name in seen {
        FirstRepeatStays(specs, n + 1);
        return Err(DuplicateName(name));
      }
      seen := seen + {name};
    }
    assert specs[..|specs|] == specs;
    return Ok(());
  }

  lemma {:induction false} FirstRepeatStays(specs: seq<(string, PortMode)>, n: nat)
    requires n <= |specs| && FirstRepeat(specs[..n]).Some?
    ensures FirstRepeat(specs) == FirstRepeat(specs[..n])
  {
    if n == |specs| {
      assert specs[..n] == specs;
    } else {
      var k := |specs| - 1;
      assert specs[..k][..n] == specs[..n];
      FirstRepeatStays(specs[..k], n);
    }
  }

  lemma {:induction false} FirstRepeatIff(specs: seq<(string, PortMode)>)
    ensures FirstRepeat(specs).None? <==> DistinctNames(specs)
  {
    if specs != [] {
      var n := |specs| - 1;
      FirstRepeatIff(specs[..n]);
      assert forall i | 0 <= i < n :: specs[..n][i] == specs[i];
    }
  }

  lemma {:induction false} ParseEachIff(args: seq<string>, specs: seq<(string, PortMode)>)
    ensures ParseEach(args) == Ok(specs)
            <==> |specs| == |args| && forall i | 0 <= i < |args| :: ParseSpec(args[i]) == Ok(specs[i])
  {
    if args != [] && specs != [] {
      ParseEachIff(args[1..], specs[1..]);
      assert specs == [specs[0]] + specs[1..];
      assert forall i | 0 <= i < |args| - 1 :: args[1..][i] == args[i + 1];
      if |specs| == |args| && forall i | 0 <= i < |args| :: ParseSpec(args[i]) == Ok(specs[i]) {
        assert forall i | 0 <= i < |args| - 1 :: ParseSpec(args[1..][i]) == Ok(specs[1..][i]);
      }
    }
  }

  /** A command line is accepted exactly when every argument is a spec and no name occurs twice, and
      the result lists what the arguments say, in their order. */
  lemma ParsePortSpecsIff(args: seq<string>, specs: seq<(string, PortMode)>)
    ensures ParsePortSpecs(args) == Ok(specs) <==>
              && |specs| == |args|
              && (forall i | 0 <= i < |args| :: SpecText(args[i], specs[i].0, specs[i].1))
              && DistinctNames(specs)
  {
    ParseEachIff(args, specs);
    FirstRepeatIff(specs);
    forall i | 0 <= i < |args| && |specs| == |args|
      ensures ParseSpec(args[i]) == Ok(specs[i]) <==> SpecText(args[i], specs[i].0, specs[i].1)
    {
      ParseSpecIff(args[i], specs[i].0, specs[i].1);
    }
  }

  /** The first argument that is not a spec decides the error, whatever comes after it. */
  lemma {:induction false} FirstErrorWins(args: seq<string>, i: nat)
    requires i < |args| && ParseSpec(args[i]).Err?
    requires forall k | 0 <= k < i :: ParseSpec(args[k]).Ok?
    ensures ParseEach(args) == Err(ParseSpec(args[i]).error)
    ensures ParsePortSpecs(args) == Err(ParseSpec(args[i]).error)
  {
    if i > 0 {
      assert ParseSpec(args[0]).Ok?;
      forall k | 0 <= k < i - 1
        ensures ParseSpec(args[1..][k]).Ok?
      {
        assert args[1..][k] == args[k + 1];
      }
      FirstErrorWins(args[1..], i - 1);
    }
  }

  /** The name reported is the first to come up a second time. */
  lemma {:induction false} FirstRepeatIsFirst(specs: seq<(string, PortMode)>, n: nat)
    requires n < |specs| && DistinctNames(specs[..n])
    requires exists i :: 0 <= i < n && specs[i].0 == specs[n].0
    ensures FirstRepeat(specs) == Some(specs[n].0)
  {
    FirstRepeatIff(specs[..n]);
    assert specs[..n + 1][..n] == specs[..n];
    var i :| 0 <= i < n && specs[i].0 == specs[n].0;
    assert specs[..n + 1][i] == specs[i];
    FirstRepeatStays(specs, n + 1);
  }
}
