/** The non-trivial storage of `hy::expected` (Expected_Tiny.hpp): a flag and a union of a value and an
    error, rebuilt in place by operations whose constructors may throw. */
module TinyExpected {
  import opened Lifetimes

  /** The one way `reinit_expected` can lose the old member: no operation is declared nothrow, the
      backup of the old member succeeds, the new member throws, and restoring the backup throws too. */
  predicate RestoreFails(nothrowArg: bool, nothrowNew: bool, nothrowOld: bool, faults: nat -> bool, clock: nat) {
    && !nothrowArg && !nothrowNew && !nothrowOld
    && !faults(clock) && faults(clock + 1) && faults(clock + 2)
  }

  /** `reinit_expected` keeps the strong guarantee under every schedule of throws exactly when one of
      the three operations that its callers' constraints mention is nothrow. */
  lemma ReinitConstraintIsExact(nothrowArg: bool, nothrowNew: bool, nothrowOld: bool)
    ensures (forall faults, clock :: !RestoreFails(nothrowArg, nothrowNew, nothrowOld, faults, clock))
       <==> nothrowArg || nothrowNew || nothrowOld
  {
    if !(nothrowArg || nothrowNew || nothrowOld) {
      assert RestoreFails(nothrowArg, nothrowNew, nothrowOld, (n: nat) => n > 0, 0);
    }
  }

  /** A single assignment or swap of members. */
  function ReplaceFate(nothrow: bool, faults: nat -> bool, clock: nat): Fate {
    Fate(!nothrow && faults(clock), 1, 0)
  }

  /** `reinit_expected`: in its first case nothing throws; in the second the temporary may; in the third the
      backup and the new member may, and the restored member is one more object. */
  function ReinitFate(nothrowArg: bool, nothrowNew: bool, nothrowOld: bool, faults: nat -> bool, clock: nat): Fate {
    if nothrowArg then Fate(false, 1, 1)
    else if nothrowNew then if faults(clock) then Fate(true, 1, 0) else Fate(false, 2, 2)
    else if !nothrowOld && faults(clock) then Fate(true, 1, 0)
    else if !faults(clock + 1) then Fate(false, 2, 2)
    else Fate(true, 3, if nothrowOld || !faults(clock + 2) then 2 else 1)
  }

  /** Copy or move construction from w. */
  function TransferFate<V, E>(move: bool, vt: Traits<V>, et: Traits<E>, w: Sum<V, E>,
                              faults: nat -> bool, clock: nat): Fate {
    ConstructFate(if w.Val? then vt.Nothrow(move) else et.Nothrow(move), faults, clock)
  }

  /** Copy or move assignment from w to s. */
  function AssignFate<V, E>(move: bool, vt: Traits<V>, et: Traits<E>, s: Sum<V, E>, w: Sum<V, E>,
                            faults: nat -> bool, clock: nat): Fate {
    match (s, w)
    case (Val(_), Val(_)) => ReplaceFate(vt.NothrowAssign(move), faults, clock)
    case (Err(_), Err(_)) => ReplaceFate(et.NothrowAssign(move), faults, clock)
    case (Val(_), Err(_)) => ReinitFate(et.Nothrow(move), et.nothrowMove, vt.nothrowMove, faults, clock)
    case (Err(_), Val(_)) => ReinitFate(vt.Nothrow(move), vt.nothrowMove, et.nothrowMove, faults, clock)
  }

  /** Assignment of a value or an error w to s. */
  function ConvertFate<V, E>(nothrowConstruct: bool, nothrowAssign: bool, vt: Traits<V>, et: Traits<E>,
                             s: Sum<V, E>, w: Sum<V, E>, faults: nat -> bool, clock: nat): Fate {
    if s.Val? == w.Val? then ReplaceFate(nothrowAssign, faults, clock)
    else if w.Val? then ReinitFate(nothrowConstruct, vt.nothrowMove, et.nothrowMove, faults, clock)
    else ReinitFate(nothrowConstruct, et.nothrowMove, vt.nothrowMove, faults, clock)
  }

  /** A mixed swap sets one member aside, moves the other across, and then puts the first one in its place
      or, after a throw, puts it back. */
  function AcrossFate(nothrowKept: bool, nothrowCrossed: bool, faults: nat -> bool, clock: nat): Fate {
    if !nothrowKept && faults(clock) then Fate(true, 1, 0)
    else if !nothrowCrossed && faults(clock + 1) then Fate(true, 3, 2)
    else Fate(false, 3, 3)
  }

  function SwapFate<V, E>(vt: Traits<V>, et: Traits<E>, s: Sum<V, E>, w: Sum<V, E>,
                          faults: nat -> bool, clock: nat): Fate {
    match (s, w)
    case (Val(_), Val(_)) => ReplaceFate(vt.nothrowSwap, faults, clock)
    case (Err(_), Err(_)) => ReplaceFate(et.nothrowSwap, faults, clock)
    case _ =>
      if et.nothrowMove then AcrossFate(true, vt.nothrowMove, faults, clock)
      else AcrossFate(vt.nothrowMove, false, faults, clock)
  }

  /** The way a mixed swap goes wrong: the member that is set aside may throw when moved, and its second
      move does throw. Then either it cannot be put back, or the other member has already taken its place
      and the handler would build over a living object. */
  predicate SwapBreaks(nothrowKept: bool, faults: nat -> bool, clock: nat) {
    !nothrowKept && !faults(clock) && faults(clock + 2)
  }

  /** Hence it is never broken exactly if the member set aside moves without throwing. `swap` sets such a
      one aside if there is one, which its constraint demands. */
  lemma SwapConstraintIsExact(nothrowKept: bool)
    ensures (forall faults, clock :: !SwapBreaks(nothrowKept, faults, clock)) <==> nothrowKept
  {
    if !nothrowKept {
      assert SwapBreaks(nothrowKept, (n: nat) => n == 2, 0);
    }
  }

  /** The two cases of the mixed swap, which differ in the roles of the members only: `kept`, of one
      object, is set aside, and `crossed`, of the other, moved to its place. `Here` is the object that
      had `kept`. */
  method MoveAcross<V, E, K, C>(rt: Runtime<V, E>, kt: Traits<K>, ct: Traits<C>, kept: Slot<K>, crossed: Slot<C>)
    returns (threw: bool, keptHere: Slot<K>, crossedHere: Slot<C>, keptThere: Slot<K>, crossedThere: Slot<C>)
    requires rt.Valid() && kept.Alive? && crossed.Alive? && kept.id != crossed.id
    requires kept.id in rt.book.alive && crossed.id in rt.book.alive
    modifies rt
    ensures rt.Valid()
    ensures !threw ==> keptHere.Raw? && crossedHere.Alive? && crossedHere.value == crossed.value
    ensures !threw ==> crossedThere.Raw? && keptThere.Alive? && keptThere.value == kept.value
    ensures !threw ==> keptThere.id != crossedHere.id
    ensures !threw ==> Settled(old(rt.book), rt.book, {kept.id, crossed.id}, {crossedHere.id, keptThere.id})
    ensures threw && keptHere.Raw? <==> SwapBreaks(kt.nothrowMove, rt.faults, old(rt.clock))
    ensures threw && keptHere.Alive? ==> keptHere.value == kept.value && crossedHere.Raw?
    ensures threw && keptHere.Alive? ==> crossedThere == crossed && keptThere.Raw? && keptHere.id != crossed.id
    ensures threw && keptHere.Alive?
        ==> Settled(old(rt.book), rt.book, {kept.id, crossed.id}, {keptHere.id, crossed.id})
    ensures !threw || keptHere.Alive?
        ==> rt.Ran(threw, AcrossFate(kt.nothrowMove, ct.nothrowMove, rt.faults, old(rt.clock)))
  {
    threw, keptHere, crossedHere, keptThere, crossedThere := false, kept, Raw, Raw, crossed;
    var temp := rt.Construct(kept.value, kt.nothrowMove);
    if temp.Gone? { return true, kept, Raw, Raw, crossed; }
    threw, crossedHere, keptHere := RebuildOrRestore(rt, kept.(value := kt.residue(kept.value)),
                                                     crossed.value, ct.nothrowMove, temp.value, kt.nothrowMove);
    if !threw {
      crossedThere := rt.Destroy(crossed.(value := ct.residue(crossed.value)));
      keptThere := rt.ConstructAt(keptThere, crossedThere, temp.value, kt.nothrowMove);
      threw := keptThere.Raw?;
    }
    rt.Discard(temp);
  }

  /** Replaces the living member `old` of a union by a `NewType` built from `arg`. */
  method ReinitExpected<V, E, New, Old>(rt: Runtime<V, E>, newTraits: Traits<New>, oldTraits: Traits<Old>,
                                        old_: Slot<Old>, arg: New, nothrowArg: bool)
    returns (threw: bool, made: Slot<New>, rest: Slot<Old>)
    requires rt.Valid() && old_.Alive? && old_.id in rt.book.alive
    modifies rt
    ensures rt.Valid()
    ensures !threw ==> made.Alive? && made.value == arg && rest.Raw?
    ensures threw ==> made.Raw?
    ensures !threw ==> Settled(old(rt.book), rt.book, {old_.id}, {made.id})
    ensures rt.Ran(threw, ReinitFate(nothrowArg, newTraits.nothrowMove, oldTraits.nothrowMove,
                                     rt.faults, old(rt.clock)))
    ensures threw && rest.Raw?
       <==> RestoreFails(nothrowArg, newTraits.nothrowMove, oldTraits.nothrowMove, rt.faults, old(rt.clock))
    ensures threw && rest.Alive? ==> rest.value == old_.value && Settled(old(rt.book), rt.book, {old_.id}, {rest.id})
    ensures threw && rest.Raw? ==> Settled(old(rt.book), rt.book, {old_.id}, {})
  {
    threw, made, rest := false, Raw, old_;
    if nothrowArg {
      rest := rt.Destroy(rest);
      made := rt.ConstructAt(made, rest, arg, true);
    } else if newTraits.nothrowMove {
      var temp := rt.Construct(arg, false);
      if temp.Gone? {
        threw := true;
        return;
      }
      rest := rt.Destroy(rest);
      made := rt.ConstructAt(made, rest, temp.value, true);
      rt.Discard(temp);
    } else {
      threw, made, rest := ReinitWithBackup(rt, oldTraits, old_, arg);
    }
  }

  /** The third case: the old member is moved to a backup, from which it is restored after a throw. */
  method ReinitWithBackup<V, E, New, Old>(rt: Runtime<V, E>, oldTraits: Traits<Old>, old_: Slot<Old>, arg: New)
    returns (threw: bool, made: Slot<New>, rest: Slot<Old>)
    requires rt.Valid() && old_.Alive? && old_.id in rt.book.alive
    modifies rt
    ensures rt.Valid()
    ensures !threw ==> made.Alive? && made.value == arg && rest.Raw?
    ensures threw ==> made.Raw?
    ensures !threw ==> Settled(old(rt.book), rt.book, {old_.id}, {made.id})
    ensures rt.Ran(threw, ReinitFate(false, false, oldTraits.nothrowMove, rt.faults, old(rt.clock)))
    ensures threw && rest.Raw? <==> RestoreFails(false, false, oldTraits.nothrowMove, rt.faults, old(rt.clock))
    ensures threw && rest.Alive? ==> rest.value == old_.value && Settled(old(rt.book), rt.book, {old_.id}, {rest.id})
    ensures threw && rest.Raw? ==> Settled(old(rt.book), rt.book, {old_.id}, {})
  {
    threw, made, rest := false, Raw, old_;
    var temp := rt.Construct(rest.value, oldTraits.nothrowMove);
    if temp.Gone? {
      threw := true;
      return;
    }
    rest := rest.(value := oldTraits.residue(rest.value));
    threw, made, rest := RebuildOrRestore(rt, rest, arg, false, temp.value, oldTraits.nothrowMove);
    rt.Discard(temp);
  }

  /** Destroys the old member and builds the new one or, after a throw, the old one again. */
  method RebuildOrRestore<V, E, New, Old>(rt: Runtime<V, E>, old_: Slot<Old>, arg: New, nothrowArg: bool,
                                          backup: Old, nothrowBackup: bool)
    returns (threw: bool, made: Slot<New>, rest: Slot<Old>)
    requires rt.Valid() && old_.Alive? && old_.id in rt.book.alive
    modifies rt
    ensures rt.Valid() && (threw <==> !nothrowArg && rt.faults(old(rt.clock)))
    ensures rt.clock == old(rt.clock) + (if threw then 2 else 1)
    ensures rt.book.born == old(rt.book.born) + (if threw && rest.Raw? then 0 else 1)
    ensures !threw ==> made.Alive? && made.value == arg && rest.Raw?
    ensures threw ==> made.Raw? && (rest.Alive? <==> nothrowBackup || !rt.faults(old(rt.clock) + 1))
    ensures rest.Alive? ==> rest.value == backup
    ensures Settled(old(rt.book), rt.book, {old_.id},
                    if made.Alive? then {made.id} else if rest.Alive? then {rest.id} else {})
    ensures made.Alive? ==> made.id >= old(rt.book.born)
    ensures rest.Alive? ==> rest.id >= old(rt.book.born)
  {
    threw, made, rest := false, Raw, old_;
    rest := rt.Destroy(rest);
    made := rt.ConstructAt(made, rest, arg, nothrowArg);
    if made.Raw? {
      rest := rt.ConstructAt(rest, made, backup, nothrowBackup);
      threw := true;
    }
  }

  /** What an `expected` denotes after its member was moved from. */
  function Spent<V, E>(vt: Traits<V>, et: Traits<E>, s: Sum<V, E>): Sum<V, E> {
    match s
    case Val(v) => Val(vt.residue(v))
    case Err(e) => Err(et.residue(e))
  }

  /** What an `expected` denotes after an assignment from `w` to its living member threw. */
  function Torn<V, E>(vt: Traits<V>, et: Traits<E>, s: Sum<V, E>, w: Sum<V, E>): Sum<V, E> {
    match (s, w)
    case (Val(v), Val(x)) => Val(vt.torn(v, x))
    case (Err(e), Err(x)) => Err(et.torn(e, x))
    case _ => s
  }

  class Expected<V, E> {
    const rt: Runtime<V, E>
    /** Whether a constructor of this object has finished and its destructor has not run. */
    var built: bool
    var hasVal: bool
    var val: Slot<V>
    var unex: Slot<E>

    /** Raw storage, in which no object has been constructed yet. */
    constructor (rt: Runtime<V, E>)
      requires rt.Valid()
      ensures this.rt == rt && !built && Valid()
    {
      this.rt := rt;
      built, hasVal, val, unex := false, false, Raw, Raw;
    }

    /** Exactly the member that the flag names is alive. */
    ghost predicate Tagged()
      reads this
    {
      if hasVal then val.Alive? && unex.Raw? else unex.Alive? && val.Raw?
    }

    function ActiveId(): nat
      requires Tagged()
      reads this
    {
      if hasVal then val.id else unex.id
    }

    ghost predicate Valid()
      reads this, rt
    {
      && rt.Valid()
      && (if built then Tagged() && ActiveId() in rt.book.alive else val.Raw? && unex.Raw?)
    }

    function View(): Sum<V, E>
      requires Tagged()
      reads this
    {
      if hasVal then Val(val.value) else Err(unex.value)
    }

    /** A peer is an object of the same type that shares no member object with this one. */
    ghost predicate Peer(other: Expected<V, E>)
      reads this, other, rt, other.rt
    {
      && other.rt == rt && Valid() && built && other.Valid() && other.built
      && (other != this ==> ActiveId() != other.ActiveId())
    }

    method ConstructValue(v: V, nothrow: bool) returns (threw: bool)
      requires Valid() && !built
      modifies this, rt
      ensures Valid() && built == !threw && rt.Ran(threw, ConstructFate(nothrow, rt.faults, old(rt.clock)))
      ensures !threw ==> View() == Val(v) && Settled(old(rt.book), rt.book, {}, {ActiveId()})
      ensures threw ==> rt.book == old(rt.book)
    {
      hasVal := true;
      val := rt.ConstructAt(val, unex, v, nothrow);
      threw := val.Raw?;
      built := !threw;
    }

    method ConstructError(e: E, nothrow: bool) returns (threw: bool)
      requires Valid() && !built
      modifies this, rt
      ensures Valid() && built == !threw && rt.Ran(threw, ConstructFate(nothrow, rt.faults, old(rt.clock)))
      ensures !threw ==> View() == Err(e) && Settled(old(rt.book), rt.book, {}, {ActiveId()})
      ensures threw ==> rt.book == old(rt.book)
    {
      hasVal := false;
      unex := rt.ConstructAt(unex, val, e, nothrow);
      threw := unex.Raw?;
      built := !threw;
    }

    method CopyConstruct(other: Expected<V, E>) returns (threw: bool)
      requires Valid() && !built && other.rt == rt && other.Valid() && other.built
      modifies this, rt
      ensures Valid() && other.Valid() && built == !threw
      ensures rt.Ran(threw, TransferFate(false, rt.vt, rt.et, old(other.View()), rt.faults, old(rt.clock)))
      ensures !threw ==> View() == other.View() && Settled(old(rt.book), rt.book, {}, {ActiveId()})
      ensures threw ==> rt.book == old(rt.book)
    {
      hasVal := other.hasVal;
      if hasVal {
        val := rt.ConstructAt(val, unex, other.val.value, rt.vt.nothrowCopy);
        threw := val.Raw?;
      } else {
        unex := rt.ConstructAt(unex, val, other.unex.value, rt.et.nothrowCopy);
        threw := unex.Raw?;
      }
      built := !threw;
    }

    method MoveConstruct(other: Expected<V, E>) returns (threw: bool)
      requires Valid() && !built && other.rt == rt && other.Valid() && other.built
      modifies this, other, rt
      ensures Valid() && other.Valid() && built == !threw && other.built
      ensures other.ActiveId() == old(other.ActiveId())
      ensures rt.Ran(threw, TransferFate(true, rt.vt, rt.et, old(other.View()), rt.faults, old(rt.clock)))
      ensures !threw ==> View() == old(other.View()) && Settled(old(rt.book), rt.book, {}, {ActiveId()})
      ensures other.View() == if threw then old(other.View()) else Spent(rt.vt, rt.et, old(other.View()))
      ensures threw ==> rt.book == old(rt.book)
    {
      hasVal := other.hasVal;
      if hasVal {
        val := rt.ConstructAt(val, unex, other.val.value, rt.vt.nothrowMove);
        threw := val.Raw?;
        if !threw { other.val := other.val.(value := rt.vt.residue(other.val.value)); }
      } else {
        unex := rt.ConstructAt(unex, val, other.unex.value, rt.et.nothrowMove);
        threw := unex.Raw?;
        if !threw { other.unex := other.unex.(value := rt.et.residue(other.unex.value)); }
      }
      built := !threw;
    }

    method Destruct()
      requires Valid() && built
      modifies this, rt`book
      ensures Valid() && !built && rt.book == old(rt.book).Death(old(ActiveId()))
    {
      if hasVal {
        val := rt.Destroy(val);
      } else {
        unex := rt.Destroy(unex);
      }
      built := false;
    }

    method CopyAssign(other: Expected<V, E>) returns (threw: bool)
      requires Peer(other) && (rt.vt.nothrowMove || rt.et.nothrowMove)
      modifies this, rt
      ensures Peer(other) && Settled(old(rt.book), rt.book, {old(ActiveId())}, {ActiveId()})
      ensures !threw ==> View() == old(other.View())
      ensures threw ==> View() == Torn(rt.vt, rt.et, old(View()), old(other.View()))
      ensures rt.Ran(threw, AssignFate(false, rt.vt, rt.et, old(View()), old(other.View()), rt.faults, old(rt.clock)))
    {
      var ok;
      if hasVal {
        if other.hasVal {
          ok, val := rt.Assign(rt.vt, val, other.val.value, rt.vt.nothrowCopyAssign);
          threw := !ok;
        } else {
          threw, unex, val := ReinitExpected(rt, rt.et, rt.vt, val, other.unex.value, rt.et.nothrowCopy);
        }
      } else {
        if other.hasVal {
          threw, val, unex := ReinitExpected(rt, rt.vt, rt.et, unex, other.val.value, rt.vt.nothrowCopy);
        } else {
          ok, unex := rt.Assign(rt.et, unex, other.unex.value, rt.et.nothrowCopyAssign);
          threw := !ok;
        }
      }
      if threw { return; }
      hasVal := other.hasVal;
    }

    method MoveAssign(other: Expected<V, E>) returns (threw: bool)
      requires Peer(other) && (rt.vt.nothrowMove || rt.et.nothrowMove)
      modifies this, other, rt
      ensures Peer(other) && Settled(old(rt.book), rt.book, {old(ActiveId())}, {ActiveId()})
      ensures other != this ==> other.ActiveId() == old(other.ActiveId())
      ensures !threw && other != this ==> View() == old(other.View())
      ensures !threw ==> other.View() == Spent(rt.vt, rt.et, old(other.View()))
      ensures threw ==> View() == Torn(rt.vt, rt.et, old(View()), old(other.View()))
      ensures threw && other != this ==> other.View() == old(other.View())
      ensures rt.Ran(threw, AssignFate(true, rt.vt, rt.et, old(View()), old(other.View()), rt.faults, old(rt.clock)))
    {
      if hasVal == other.hasVal {
        threw := MoveReplace(other);
      } else {
        threw := MoveSwitch(other);
      }
      if threw { return; }
      hasVal := other.hasVal;
    }

    /** Move assignment within the alternative. */
    method MoveReplace(other: Expected<V, E>) returns (threw: bool)
      requires Peer(other) && hasVal == other.hasVal
      modifies this`val, this`unex, other`val, other`unex, rt
      ensures Peer(other) && rt.book == old(rt.book) && ActiveId() == old(ActiveId())
      ensures other.ActiveId() == old(other.ActiveId())
      ensures !threw && other != this ==> View() == old(other.View())
      ensures !threw ==> other.View() == Spent(rt.vt, rt.et, old(other.View()))
      ensures threw ==> View() == Torn(rt.vt, rt.et, old(View()), old(other.View()))
      ensures threw && other != this ==> other.View() == old(other.View())
      ensures rt.Ran(threw, AssignFate(true, rt.vt, rt.et, old(View()), old(other.View()), rt.faults, old(rt.clock)))
    {
      var ok;
      if hasVal {
        ok, val := rt.Assign(rt.vt, val, other.val.value, rt.vt.nothrowMoveAssign);
        if ok { other.val := other.val.(value := rt.vt.residue(other.val.value)); }
      } else {
        ok, unex := rt.Assign(rt.et, unex, other.unex.value, rt.et.nothrowMoveAssign);
        if ok { other.unex := other.unex.(value := rt.et.residue(other.unex.value)); }
      }
      threw := !ok;
    }

    /** Move assignment from an object with the other alternative; the flag is set by the caller. */
    method MoveSwitch(other: Expected<V, E>) returns (threw: bool)
      requires Peer(other) && hasVal != other.hasVal && (rt.vt.nothrowMove || rt.et.nothrowMove)
      modifies this`val, this`unex, other`val, other`unex, rt
      ensures rt.Valid() && other.Tagged() && other.ActiveId() == old(other.ActiveId())
      ensures threw ==> Tagged() && View() == old(View()) && other.View() == old(other.View())
      ensures threw ==> Settled(old(rt.book), rt.book, {old(ActiveId())}, {ActiveId()})
      ensures !threw ==> if other.hasVal then val.Alive? && unex.Raw? else unex.Alive? && val.Raw?
      ensures !threw ==> other.View() == Spent(rt.vt, rt.et, old(other.View()))
      ensures !threw ==> old(other.View()) == if other.hasVal then Val(val.value) else Err(unex.value)
      ensures !threw ==> Settled(old(rt.book), rt.book, {old(ActiveId())}, {if other.hasVal then val.id else unex.id})
      ensures rt.Ran(threw, AssignFate(true, rt.vt, rt.et, old(View()), old(other.View()), rt.faults, old(rt.clock)))
    {
      if hasVal {
        threw, unex, val := ReinitExpected(rt, rt.et, rt.vt, val, other.unex.value, rt.et.nothrowMove);
        if !threw { other.unex := other.unex.(value := rt.et.residue(other.unex.value)); }
      } else {
        threw, val, unex := ReinitExpected(rt, rt.vt, rt.et, unex, other.val.value, rt.vt.nothrowMove);
        if !threw { other.val := other.val.(value := rt.vt.residue(other.val.value)); }
      }
    }

    /** Assignment of a value. The flag is set to true when the union switches to the value (the source
        sets it to false there). */
    method AssignValue(v: V, nothrowConstruct: bool, nothrowAssign: bool) returns (threw: bool)
      requires Valid() && built
      requires nothrowConstruct || rt.vt.nothrowMove || rt.et.nothrowMove
      modifies this, rt
      ensures Valid() && built && Settled(old(rt.book), rt.book, {old(ActiveId())}, {ActiveId()})
      ensures View() == if threw then Torn(rt.vt, rt.et, old(View()), Val(v)) else Val(v)
      ensures rt.Ran(threw, ConvertFate(nothrowConstruct, nothrowAssign, rt.vt, rt.et, old(View()), Val(v),
                                        rt.faults, old(rt.clock)))
    {
      if hasVal {
        var ok;
        ok, val := rt.Assign(rt.vt, val, v, nothrowAssign);
        threw := !ok;
      } else {
        threw, val, unex := ReinitExpected(rt, rt.vt, rt.et, unex, v, nothrowConstruct);
        if threw { return; }
        hasVal := true;
      }
    }

    /** Assignment of an `unexpected`. The error is the member that is rebuilt and the value the one
        that is given up (the source passes the two in the opposite order). */
    method AssignError(e: E, nothrowConstruct: bool, nothrowAssign: bool) returns (threw: bool)
      requires Valid() && built
      requires nothrowConstruct || rt.vt.nothrowMove || rt.et.nothrowMove
      modifies this, rt
      ensures Valid() && built && Settled(old(rt.book), rt.book, {old(ActiveId())}, {ActiveId()})
      ensures View() == if threw then Torn(rt.vt, rt.et, old(View()), Err(e)) else Err(e)
      ensures rt.Ran(threw, ConvertFate(nothrowConstruct, nothrowAssign, rt.vt, rt.et, old(View()), Err(e),
                                        rt.faults, old(rt.clock)))
    {
      if hasVal {
        threw, unex, val := ReinitExpected(rt, rt.et, rt.vt, val, e, nothrowConstruct);
        if threw { return; }
        hasVal := false;
      } else {
        var ok;
        ok, unex := rt.Assign(rt.et, unex, e, nothrowAssign);
        threw := !ok;
      }
    }

    /** Swap, by cases on the two flags. */
    method Swap(other: Expected<V, E>) returns (threw: bool)
      requires Peer(other) && (rt.vt.nothrowMove || rt.et.nothrowMove)
      modifies this, other, rt
      ensures Peer(other)
      ensures Settled(old(rt.book), rt.book, {old(ActiveId()), old(other.ActiveId())}, {ActiveId(), other.ActiveId()})
      ensures !threw ==> View() == old(other.View()) && other.View() == old(View())
      ensures threw ==> View() == Torn(rt.vt, rt.et, old(View()), old(other.View()))
      ensures threw ==> other.View() == Torn(rt.vt, rt.et, old(other.View()), old(View()))
      ensures rt.Ran(threw, SwapFate(rt.vt, rt.et, old(View()), old(other.View()), rt.faults, old(rt.clock)))
      decreases if !hasVal && other.hasVal then 1 else 0
    {
      threw := false;
      if hasVal && other.hasVal {
        var ok := rt.Attempt(rt.vt.nothrowSwap);
        var v, w := val.value, other.val.value;
        val := val.(value := if ok then w else rt.vt.torn(v, w));
        other.val := other.val.(value := if ok then v else rt.vt.torn(w, v));
        threw := !ok;
      } else if !hasVal && !other.hasVal {
        var ok := rt.Attempt(rt.et.nothrowSwap);
        var d, e := unex.value, other.unex.value;
        unex := unex.(value := if ok then e else rt.et.torn(d, e));
        other.unex := other.unex.(value := if ok then d else rt.et.torn(e, d));
        threw := !ok;
      } else if !hasVal && other.hasVal {
        threw := other.Swap(this);
      } else {
        threw := SwapMixed(other);
      }
    }

    /** The last branch of swap: this has a value and the other an error. */
    method SwapMixed(other: Expected<V, E>) returns (threw: bool)
      requires Peer(other) && hasVal && !other.hasVal && (rt.vt.nothrowMove || rt.et.nothrowMove)
      modifies this, other, rt
      ensures Peer(other)
      ensures Settled(old(rt.book), rt.book, {old(ActiveId()), old(other.ActiveId())}, {ActiveId(), other.ActiveId()})
      ensures View() == if threw then old(View()) else old(other.View())
      ensures other.View() == if threw then old(other.View()) else old(View())
      ensures rt.Ran(threw, SwapFate(rt.vt, rt.et, old(View()), old(other.View()), rt.faults, old(rt.clock)))
    {
      if rt.et.nothrowMove {
        threw, other.unex, other.val, unex, val := MoveAcross(rt, rt.et, rt.vt, other.unex, val);
      } else {
        threw, val, unex, other.val, other.unex := MoveAcross(rt, rt.vt, rt.et, val, other.unex);
      }
      if threw { return; }
      hasVal := false;
      other.hasVal := true;
    }
  }
}
