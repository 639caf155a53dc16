/** The three-state union storage of Expected_folly.hpp: a throw between giving up one member and
    building the other leaves the storage empty. */
module FollyExpected {
  import opened Lifetimes

  datatype Which = Empty | Value | Error

  /** A state of the storage: nothing, a value, or an error. */
  datatype State<+V, +E> = Nothing | Holds(sum: Sum<V, E>)

  /** `doEmplaceAssign` destroys and rebuilds when the member type is not assignable; it then loses the
      member exactly when that construction throws. */
  predicate LosesMember(assignable: bool, nothrowArg: bool, faults: nat -> bool, clock: nat) {
    !assignable && !nothrowArg && faults(clock)
  }

  /** It keeps a living member under every schedule exactly when the fallback is used with constructions
      that do not throw. */
  lemma FallbackConditionIsExact(assignable: bool, nothrowArg: bool)
    ensures (forall faults, clock :: !LosesMember(assignable, nothrowArg, faults, clock)) <==> assignable || nothrowArg
  {
    if !(assignable || nothrowArg) {
      assert LosesMember(assignable, nothrowArg, (n: nat) => true, 0);
    }
  }

  function EmplaceFate<T>(t: Traits<T>, nothrowArg: bool, faults: nat -> bool, clock: nat): Fate {
    if !nothrowArg && faults(clock) then Fate(true, 1, 0)
    else if t.assignable then Fate(!t.nothrowMoveAssign && faults(clock + 1), 2, 1)
    else Fate(false, 1, 1)
  }

  /** Gives a living member a new value: assigns a temporary to it or, failing that, rebuilds it in
      place. `used` says whether the argument was consumed, which it may be even if the call throws. */
  method DoEmplaceAssign<V, E, T>(rt: Runtime<V, E>, t: Traits<T>, s: Slot<T>, arg: T, nothrowArg: bool)
    returns (threw: bool, used: bool, s': Slot<T>)
    requires rt.Valid() && s.Alive? && s.id in rt.book.alive
    modifies rt
    ensures rt.Valid()
    ensures s'.Raw? <==> LosesMember(t.assignable, nothrowArg, rt.faults, old(rt.clock))
    ensures s'.Raw? ==> threw && !used && Settled(old(rt.book), rt.book, {s.id}, {})
    ensures s'.Alive? ==> Settled(old(rt.book), rt.book, {s.id}, {s'.id})
    ensures !threw ==> used && s'.Alive? && s'.value == arg
    ensures threw && s'.Alive? ==> s'.value == if used then t.torn(s.value, arg) else s.value
    ensures rt.Ran(threw, EmplaceFate(t, nothrowArg, rt.faults, old(rt.clock)))
    ensures used <==> nothrowArg || !rt.faults(old(rt.clock))
  {
    if t.assignable {
      var temp := rt.Construct(arg, nothrowArg);
      if temp.Gone? { return true, false, s; }
      var ok;
      ok, s' := rt.Assign(t, s, temp.value, t.nothrowMoveAssign);
      rt.Discard(temp);
      threw, used := !ok, true;
    } else {
      s' := rt.Destroy(s);
      s' := rt.ConstructAt(s', s', arg, nothrowArg);
      threw, used := s'.Raw?, s'.Alive?;
    }
  }

  /** The special members of a class, and the bases that the union storage inherits, in order. */
  datatype Special = CopyConstruct | MoveConstruct | CopyAssign | MoveAssign
  datatype Base = ExpectedUnion | CopyConstructible | MoveConstructible | CopyAssignable | MoveAssignable

  const BASES: seq<Base> := [ExpectedUnion, CopyConstructible, MoveConstructible, CopyAssignable, MoveAssignable]

  /** Whether a base's own special member forwards to `assign`; every other one is defaulted, or does
      nothing in the case of ExpectedUnion. */
  predicate Forwards(b: Base, m: Special) {
    match b
    case ExpectedUnion => false
    case CopyConstructible => m == CopyConstruct
    case MoveConstructible => m == MoveConstruct
    case CopyAssignable => m == CopyAssign
    case MoveAssignable => m == MoveAssign
  }

  /** How many of the bases from the k-th on forward. */
  function Forwarding(k: nat, m: Special): nat
    requires k <= |BASES|
    decreases |BASES| - k
  {
    if k == |BASES| then 0 else (if Forwards(BASES[k], m) then 1 else 0) + Forwarding(k + 1, m)
  }

  /** Exactly one base forwards, so `assign` runs exactly once. */
  lemma ForwardsOnce(m: Special)
    ensures Forwarding(0, m) == 1
    ensures forall k :: 0 <= k <= |BASES| ==> Forwarding(k, m) <= 1
  {
    assert Forwarding(5, m) == 0 && Forwarding(4, m) == if m == MoveAssign then 1 else 0;
    assert Forwarding(3, m) == if m == CopyAssign || m == MoveAssign then 1 else 0;
    assert Forwarding(2, m) == if m == CopyConstruct then 0 else 1;
    assert Forwarding(1, m) == 1;
  }

  /** The states that `assign` from an object in state w leaves a different object in, from state s.
      `used` tells whether a throw came after the source had been consumed. */
  function AfterAssign<V, E>(vt: Traits<V>, et: Traits<E>, s: State<V, E>, w: State<V, E>, threw: bool, used: bool)
    : State<V, E>
  {
    if !threw then w
    else match (s, w)
      case (Holds(Val(v)), Holds(Val(x))) => Holds(Val(if used then vt.torn(v, x) else v))
      case (Holds(Err(e)), Holds(Err(x))) => Holds(Err(if used then et.torn(e, x) else e))
      case _ => Nothing
  }

  function SpentState<V, E>(vt: Traits<V>, et: Traits<E>, s: State<V, E>): State<V, E> {
    match s
    case Nothing => Nothing
    case Holds(Val(v)) => Holds(Val(vt.residue(v)))
    case Holds(Err(e)) => Holds(Err(et.residue(e)))
  }

  /** Giving a member its value: within the alternative, or after a change of alternative. */
  function GiveFate<T>(same: bool, t: Traits<T>, nothrow: bool, faults: nat -> bool, clock: nat): Fate {
    if same then EmplaceFate(t, nothrow, faults, clock) else ConstructFate(nothrow, faults, clock)
  }

  /** `assign` from a different object in state w to one in state s. */
  function TakeFate<V, E>(move: bool, vt: Traits<V>, et: Traits<E>, s: State<V, E>, w: State<V, E>,
                          faults: nat -> bool, clock: nat): Fate {
    match w
    case Nothing => Fate(false, 0, 0)
    case Holds(Val(_)) => GiveFate(s.Holds? && s.sum.Val?, vt, vt.Nothrow(move), faults, clock)
    case Holds(Err(_)) => GiveFate(s.Holds? && s.sum.Err?, et, et.Nothrow(move), faults, clock)
  }

  /** Whether values of this type may be given to a living member: the destroy-and-rebuild fallback must
      not be able to throw. */
  predicate Replaceable<T>(t: Traits<T>, nothrow: bool) {
    t.assignable || nothrow
  }

  /** Whether an object in state s may be assigned from a different one in state w. Only an assignment within
      the alternative can use the fallback. */
  predicate Permits<V, E>(move: bool, vt: Traits<V>, et: Traits<E>, s: State<V, E>, w: State<V, E>) {
    match (s, w)
    case (Holds(Val(_)), Holds(Val(_))) => Replaceable(vt, vt.Nothrow(move))
    case (Holds(Err(_)), Holds(Err(_))) => Replaceable(et, et.Nothrow(move))
    case _ => true
  }

  /** Whether the special member throws from state s, which is empty under construction, and state w. */
  predicate SpecialThrows<V, E>(m: Special, vt: Traits<V>, et: Traits<E>, s: State<V, E>, w: State<V, E>,
                                faults: nat -> bool, clock: nat) {
    && (m == CopyConstruct || m == MoveConstruct ==> s == Nothing)
    && TakeFate(m == MoveConstruct || m == MoveAssign, vt, et, s, w, faults, clock).threw
  }

  /** A special member that is declared noexcept, by the conditions below, may throw all the same in one case
      only, and does so under some schedule: a copy assignment assigns a temporary to a living member, which
      is a move assignment, whereas its specification asks about copy assignments. */
  lemma NoexceptIsRightIff<V, E>(m: Special, vt: Traits<V>, et: Traits<E>, v: V, e: E)
    requires vt.assignable && et.assignable
    requires match m
             case CopyConstruct => vt.nothrowCopy && et.nothrowCopy
             case MoveConstruct => vt.nothrowMove && et.nothrowMove
             case CopyAssign => vt.nothrowCopy && vt.nothrowCopyAssign && et.nothrowCopy && et.nothrowCopyAssign
             case MoveAssign => vt.nothrowMove && vt.nothrowMoveAssign && et.nothrowMove && et.nothrowMoveAssign
    ensures (forall s, w, faults, clock :: !SpecialThrows(m, vt, et, s, w, faults, clock))
       <==> (m == CopyAssign ==> vt.nothrowMoveAssign && et.nothrowMoveAssign)
  {
    if m == CopyAssign {
      var always := (n: nat) => true;
      assert !vt.nothrowMoveAssign ==> SpecialThrows(m, vt, et, Holds(Val(v)), Holds(Val(v)), always, 0);
      assert !et.nothrowMoveAssign ==> SpecialThrows(m, vt, et, Holds(Err(e)), Holds(Err(e)), always, 0);
    }
  }

  /** In the other direction: what it takes for a special member never to throw. All but the copy assignment
      are then declared so. */
  lemma NoexceptIsComplete<V, E>(m: Special, vt: Traits<V>, et: Traits<E>, v: V, e: E)
    requires vt.assignable && et.assignable
    requires forall s, w, faults, clock :: !SpecialThrows(m, vt, et, s, w, faults, clock)
    ensures match m
            case CopyConstruct => vt.nothrowCopy && et.nothrowCopy
            case MoveConstruct => vt.nothrowMove && et.nothrowMove
            case CopyAssign => vt.nothrowCopy && vt.nothrowMoveAssign && et.nothrowCopy && et.nothrowMoveAssign
            case MoveAssign => vt.nothrowMove && vt.nothrowMoveAssign && et.nothrowMove && et.nothrowMoveAssign
  {
    var always := (n: nat) => true;
    var late := (n: nat) => n == 1;
    assert !SpecialThrows(m, vt, et, Nothing, Holds(Val(v)), always, 0);
    assert !SpecialThrows(m, vt, et, Nothing, Holds(Err(e)), always, 0);
    if m == CopyAssign || m == MoveAssign {
      assert !SpecialThrows(m, vt, et, Holds(Val(v)), Holds(Val(v)), late, 0);
      assert !SpecialThrows(m, vt, et, Holds(Err(e)), Holds(Err(e)), late, 0);
    }
  }

  class Storage<V, E> {
    const rt: Runtime<V, E>
    /** Whether a constructor of this object has finished and its destructor has not run. */
    var built: bool
    var which: Which
    var value: Slot<V>
    var error: Slot<E>
    /** How often `assign` has been entered. */
    ghost var assigns: nat

    constructor (rt: Runtime<V, E>)
      requires rt.Valid()
      ensures this.rt == rt && !built && Valid() && State() == Nothing
    {
      this.rt := rt;
      built, which, value, error := false, Empty, Raw, Raw;
      assigns := 0;
    }

    /** Exactly the member that `which` names is alive. */
    ghost predicate Tagged()
      reads this
    {
      && (which == Value <==> value.Alive?)
      && (which == Error <==> error.Alive?)
    }

    ghost function Held(): set<nat>
      reads this
    {
      match which
      case Empty => {}
      case Value => if value.Alive? then {value.id} else {}
      case Error => if error.Alive? then {error.id} else {}
    }

    ghost predicate Valid()
      reads this, rt
    {
      && rt.Valid() && Tagged()
      && (which == Value ==> value.id in rt.book.alive)
      && (which == Error ==> error.id in rt.book.alive)
    }

    function State(): State<V, E>
      requires Tagged()
      reads this
    {
      match which
      case Empty => Nothing
      case Value => Holds(Val(value.value))
      case Error => Holds(Err(error.value))
    }

    method Clear()
      requires Valid()
      modifies this`which, this`value, this`error, rt`book
      ensures Valid() && State() == Nothing && Settled(old(rt.book), rt.book, old(Held()), {})
      ensures rt.book.born == old(rt.book.born)
    {
      match which {
        case Value => value := rt.Destroy(value);
        case Error => error := rt.Destroy(error);
        case Empty =>
      }
      which := Empty;
    }

    /** `which` stops telling the truth exactly when the fallback loses the member; in all other cases the
        value has arrived, or a throw has emptied the object or left the old value or a torn one. */
    method AssignValue(v: V, nothrow: bool) returns (threw: bool, used: bool)
      requires Valid()
      modifies this`which, this`value, this`error, rt
      ensures rt.Valid() && Settled(old(rt.book), rt.book, old(Held()), Held())
      ensures Tagged()
         <==> !(old(which) == Value && LosesMember(rt.vt.assignable, nothrow, rt.faults, old(rt.clock)))
      ensures !Tagged() ==> threw && which == Value && value.Raw? && error.Raw?
      ensures Tagged() ==> Valid()
      ensures Tagged() ==> State() == AfterAssign(rt.vt, rt.et, old(State()), Holds(Val(v)), threw, used)
      ensures rt.Ran(threw, GiveFate(old(which) == Value, rt.vt, nothrow, rt.faults, old(rt.clock)))
      ensures used <==> nothrow || !rt.faults(old(rt.clock))
    {
      if which == Value {
        threw, used, value := DoEmplaceAssign(rt, rt.vt, value, v, nothrow);
      } else {
        Clear();
        value := rt.ConstructAt(value, error, v, nothrow);
        threw, used := value.Raw?, value.Alive?;
        if threw { return; }
        which := Value;
      }
    }

    method AssignError(e: E, nothrow: bool) returns (threw: bool, used: bool)
      requires Valid()
      modifies this`which, this`value, this`error, rt
      ensures rt.Valid() && Settled(old(rt.book), rt.book, old(Held()), Held())
      ensures Tagged()
         <==> !(old(which) == Error && LosesMember(rt.et.assignable, nothrow, rt.faults, old(rt.clock)))
      ensures !Tagged() ==> threw && which == Error && value.Raw? && error.Raw?
      ensures Tagged() ==> Valid()
      ensures Tagged() ==> State() == AfterAssign(rt.vt, rt.et, old(State()), Holds(Err(e)), threw, used)
      ensures rt.Ran(threw, GiveFate(old(which) == Error, rt.et, nothrow, rt.faults, old(rt.clock)))
      ensures used <==> nothrow || !rt.faults(old(rt.clock))
    {
      if which == Error {
        threw, used, error := DoEmplaceAssign(rt, rt.et, error, e, nothrow);
      } else {
        Clear();
        error := rt.ConstructAt(error, value, e, nothrow);
        threw, used := error.Raw?, error.Alive?;
        if threw { return; }
        which := Error;
      }
    }

    /** A peer is an object of the same type that shares no member object with this one. */
    ghost predicate Peer(other: Storage<V, E>)
      reads this, other, rt, other.rt
    {
      other.rt == rt && Valid() && other.Valid() && (other != this ==> Held() !! other.Held())
    }

    /** From the old state to this one, this object has been assigned from the other. */
    twostate predicate TookOver(other: Storage<V, E>, move: bool, threw: bool, used: bool)
      requires old(Tagged()) && old(other.Tagged()) && Tagged() && other.Tagged()
      reads this, other
    {
      if other == this then State() == old(State())
      else
        && State() == AfterAssign(rt.vt, rt.et, old(State()), old(other.State()), threw, used)
        && other.State() == (if move && used then SpentState(rt.vt, rt.et, old(other.State())) else old(other.State()))
        && (!threw && old(other.State()) != Nothing ==> used)
    }

    /** The type constraints under which `assign` may be used here. */
    ghost predicate MayTake(other: Storage<V, E>, move: bool)
      requires Tagged() && other.Tagged()
      reads this, other
    {
      other == this || Permits(move, rt.vt, rt.et, State(), other.State())
    }

    /** From the old state to this one, an assignment from the other ended as it must. */
    twostate predicate TookTime(other: Storage<V, E>, move: bool, threw: bool, used: bool)
      requires old(Tagged()) && old(other.Tagged())
      reads this, other, rt
    {
      && rt.Ran(threw, if other == this then Fate(false, 0, 0)
                       else TakeFate(move, rt.vt, rt.et, old(State()), old(other.State()), rt.faults, old(rt.clock)))
      && (used <==> rt.book.born > old(rt.book.born))
    }

    /** `assign`: does nothing to itself, otherwise takes on the state of the other object. */
    method Assign(other: Storage<V, E>, move: bool) returns (threw: bool, used: bool)
      requires Peer(other) && MayTake(other, move)
      modifies this`which, this`value, this`error, this`assigns, other`value, other`error, rt
      ensures Peer(other) && other.Held() == old(other.Held())
      ensures assigns == old(assigns) + 1
      ensures Settled(old(rt.book), rt.book, old(Held()), Held())
      ensures TookOver(other, move, threw, used)
      ensures TookTime(other, move, threw, used)
      ensures other == this ==> rt.book == old(rt.book)
    {
      assigns := assigns + 1;
      if other == this { return false, false; }
      match other.which {
        case Value => threw, used := TakeValue(other, move);
        case Error => threw, used := TakeError(other, move);
        case Empty =>
          Clear();
          threw, used := false, false;
      }
    }

    method TakeValue(other: Storage<V, E>, move: bool) returns (threw: bool, used: bool)
      requires Peer(other) && other != this && MayTake(other, move) && other.which == Value
      modifies this`which, this`value, this`error, other`value, rt
      ensures Peer(other) && other.Held() == old(other.Held())
      ensures Settled(old(rt.book), rt.book, old(Held()), Held())
      ensures TookOver(other, move, threw, used)
      ensures TookTime(other, move, threw, used)
    {
      threw, used := AssignValue(other.value.value, rt.vt.Nothrow(move));
      if move && used { other.value := other.value.(value := rt.vt.residue(other.value.value)); }
    }

    method TakeError(other: Storage<V, E>, move: bool) returns (threw: bool, used: bool)
      requires Peer(other) && other != this && MayTake(other, move) && other.which == Error
      modifies this`which, this`value, this`error, other`error, rt
      ensures Peer(other) && other.Held() == old(other.Held())
      ensures Settled(old(rt.book), rt.book, old(Held()), Held())
      ensures TookOver(other, move, threw, used)
      ensures TookTime(other, move, threw, used)
    {
      threw, used := AssignError(other.error.value, rt.et.Nothrow(move));
      if move && used { other.error := other.error.(value := rt.et.residue(other.error.value)); }
    }

    method ConstructEmpty()
      requires Valid() && !built && which == Empty
      modifies this
      ensures Valid() && built && State() == Nothing
    {
      which, built := Empty, true;
    }

    method ConstructValue(v: V, nothrow: bool) returns (threw: bool)
      requires Valid() && !built && which == Empty
      modifies this, rt
      ensures Valid() && built == !threw && rt.Ran(threw, ConstructFate(nothrow, rt.faults, old(rt.clock)))
      ensures State() == if threw then Nothing else Holds(Val(v))
      ensures Settled(old(rt.book), rt.book, {}, Held())
    {
      value := rt.ConstructAt(value, error, v, nothrow);
      threw := value.Raw?;
      if threw { return; }
      which, built := Value, true;
    }

    method ConstructError(e: E, nothrow: bool) returns (threw: bool)
      requires Valid() && !built && which == Empty
      modifies this, rt
      ensures Valid() && built == !threw && rt.Ran(threw, ConstructFate(nothrow, rt.faults, old(rt.clock)))
      ensures State() == if threw then Nothing else Holds(Err(e))
      ensures Settled(old(rt.book), rt.book, {}, Held())
    {
      error := rt.ConstructAt(error, value, e, nothrow);
      threw := error.Raw?;
      if threw { return; }
      which, built := Error, true;
    }

    method Destruct()
      requires Valid() && built
      modifies this, rt`book
      ensures Valid() && !built && State() == Nothing && Settled(old(rt.book), rt.book, old(Held()), {})
      ensures rt.book.born == old(rt.book.born)
    {
      Clear();
      built := false;
    }

    /** The special members of the bases from the k-th on, in order. */
    method RunBasesFrom(k: nat, m: Special, other: Storage<V, E>) returns (threw: bool, used: bool)
      requires Peer(other) && k <= |BASES| && Forwarding(k, m) <= 1
      requires Forwarding(k, m) == 0 || MayTake(other, m == MoveConstruct || m == MoveAssign)
      modifies this`which, this`value, this`error, this`assigns, other`value, other`error, rt
      ensures Peer(other) && other.Held() == old(other.Held())
      ensures assigns == old(assigns) + Forwarding(k, m)
      ensures Forwarding(k, m) == 0 ==> !threw && unchanged(this) && unchanged(other) && unchanged(rt)
      ensures Forwarding(k, m) == 1 ==> TookOver(other, m == MoveConstruct || m == MoveAssign, threw, used)
      ensures Forwarding(k, m) == 1 ==> Settled(old(rt.book), rt.book, old(Held()), Held())
      ensures Forwarding(k, m) == 1 ==> TookTime(other, m == MoveConstruct || m == MoveAssign, threw, used)
      decreases |BASES| - k
    {
      threw, used := false, false;
      if k < |BASES| {
        if Forwards(BASES[k], m) {
          threw, used := Assign(other, m == MoveConstruct || m == MoveAssign);
          if threw { return; }
          var _, _ := RunBasesFrom(k + 1, m, other);
        } else {
          threw, used := RunBasesFrom(k + 1, m, other);
        }
      }
    }

    /** A defaulted copy or move operation: each base in turn runs its own. The storage of an object
        under construction starts out empty; if a base throws, the destructor of the object never runs. */
    method RunSpecial(m: Special, other: Storage<V, E>) returns (threw: bool, used: bool)
      requires Peer(other) && other.built && MayTake(other, m == MoveConstruct || m == MoveAssign)
      requires if m == CopyConstruct || m == MoveConstruct then !built && which == Empty else built
      modifies this, other, rt
      ensures Peer(other) && other.built == (other != this || built)
      ensures other.Held() == old(other.Held()) && Settled(old(rt.book), rt.book, old(Held()), Held())
      ensures assigns == old(assigns) + 1
      ensures built <==> old(built) || !threw
      ensures TookOver(other, m == MoveConstruct || m == MoveAssign, threw, used)
      ensures TookTime(other, m == MoveConstruct || m == MoveAssign, threw, used)
    {
      ForwardsOnce(m);
      threw, used := RunBasesFrom(0, m, other);
      if threw { return; }
      built := true;
    }
  }
}
