/** Port identities and how a port takes part in VLANs. */
module Ports {
  import opened Prelude

  type Vlan = u16
  type PortId = u32

  datatype PortMode =
    | Access(vlan: Vlan)
    | Trunk(native: Option<Vlan>, allowed: set<Vlan>)
  {
    /** Whether a frame of `v` may cross this port at all. */
    predicate Carries(v: Vlan) {
      match this
      case Access(vlan) => vlan == v
      case Trunk(native, allowed) => v in allowed || native == Some(v)
    }

    /** What the two constructors below establish: only assignable VLANs, and at least one. */
    ghost predicate Valid() {
      match this
      case Access(vlan) => IsAssignable(vlan)
      case Trunk(native, allowed) =>
        && (native.Some? ==> IsAssignable(native.value))
        && (forall v | v in allowed :: IsAssignable(v))
        && (native.Some? || allowed != {})
    }
  }

  datatype PortModeError = InvalidVlan(vlan: Vlan) | EmptyTrunk

  predicate IsAssignable(v: Vlan) {
    1 <= v <= 4094
  }

  function NewAccess(vlan: Vlan): Result<PortMode, PortModeError> {
    if IsAssignable(vlan) then Ok(Access(vlan)) else Err(InvalidVlan(vlan))
  }

  /** Which unassignable member of `allowed` is reported is left open: the source takes the first
      one its hash set happens to yield. */
  ghost function NewTrunk(native: Option<Vlan>, allowed: seq<Vlan>): Result<PortMode, PortModeError> {
    var distinct := set v: Vlan | v in allowed;
    if native.Some? && !IsAssignable(native.value) then
      Err(InvalidVlan(native.value))
    else if exists v: Vlan :: v in distinct && !IsAssignable(v) then
      var v: Vlan :| v in distinct && !IsAssignable(v);
      Err(InvalidVlan(v))
    else if native.None? && distinct == {} then
      Err(EmptyTrunk)
    else
      Ok(Trunk(native, distinct))
  }

  /** The constructors build every valid mode and nothing else; an error names a VLAN that really
      is one of the arguments and out of range, or says that both arguments were empty. */
  lemma ConstructorsBuildValidModes(native: Option<Vlan>, allowed: seq<Vlan>, vlan: Vlan)
    ensures NewAccess(vlan) == (if 1 <= vlan <= 4094 then Ok(Access(vlan)) else Err(InvalidVlan(vlan)))
    ensures Access(vlan).Valid() <==> 1 <= vlan <= 4094
    ensures var mode := Trunk(native, set v: Vlan | v in allowed);
            && (NewTrunk(native, allowed) == Ok(mode) <==> mode.Valid())
            && (NewTrunk(native, allowed).Ok? <==> mode.Valid())
            && (mode.Valid() <==>
                  && (native.Some? || allowed != [])
                  && forall v | native == Some(v) || v in allowed :: 1 <= v <= 4094)
    ensures match NewTrunk(native, allowed)
            case Err(InvalidVlan(v)) =>
              && (v == 0 || v >= 4095)
              && (native == Some(v) || v in allowed)
              && (native.Some? && native.value != v ==> 1 <= native.value <= 4094)
            case Err(EmptyTrunk) => native.None? && allowed == []
            case Ok(_) => true
  {
    var distinct := set v: Vlan | v in allowed;
    if allowed != [] {
      assert allowed[0] in distinct;
    }
    assert forall v: Vlan :: v in distinct <==> v in allowed;
  }
}
