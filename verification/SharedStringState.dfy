/** `exception_shared_string::state` with its fields and member functions. Every access to the block
    demands that it is still allocated; the system of SharedString is carried along as ghost state. */
module SharedStringState {
  import opened SharedString

  /** Whoever is live or loaded keeps the block allocated. */
  lemma CountedMeansAllocated(s: System, str: seq<char>, len: nat)
    requires Inv(s, str, len) && !Complete(s)
    ensures s.block.Allocated?
  {
    assert s.live != {} ==> |s.live| > 0;
    assert s.loaded != {} ==> |s.loaded| > 0;
  }

  /** A destructor that is paused between its load and its decrement is left there by everybody else. */
  lemma {:induction false} StaysLoaded(s: System, ls: seq<Label>, h: Handle)
    requires Runs(s, ls) && h in s.loaded && forall l :: l in ls ==> l.Actor() != h
    ensures h in Final(s, ls).loaded
    decreases ls
  {
    if ls != [] {
      assert ls[0] in ls;
      StaysLoaded(Next(s, ls[0]), ls[1..], h);
    }
  }

  /** Once a destructor is committed to deletion, nobody else can take a step. */
  lemma NobodyElse(s: System, h: Handle, l: Label, str: seq<char>, len: nat)
    requires Inv(s, str, len) && h in s.doomed && Enabled(s, l)
    ensures l == Delete(h)
  {
    CountedMeansAllocated(s, str, len);
    assert |s.live| == 0 && |s.loaded| == 0 && |s.doomed| == 1;
    assert |s.doomed - {h}| == 0;
  }

  class State {
    var refs: nat
    const size: nat
    /** How many bytes `operator new` was asked for. */
    const bytes: nat
    var payload: seq<char>
    var held: bool
    ghost var sys: System
    ghost const original: seq<char>

    ghost predicate Valid()
      reads this
    {
      && Inv(sys, original, size)
      && refs == sys.refs
      && (held <==> sys.block.Allocated?)
      && (held ==> bytes == sys.block.bytes && payload == sys.block.payload)
    }

    constructor Make(str: seq<char>, len: nat, ghost first: Handle)
      requires len < |str|
      ensures Valid() && held && original == str && size == len && sys == SharedString.Make(str, len, first)
      ensures payload == str[..len + 1] && bytes == HEADER + |payload| && refs == 0
    {
      refs, size, bytes, payload, held := 0, len, ObjectSize(HEADER, len), str[..len + 1], true;
      sys, original := SharedString.Make(str, len, first), str;
      new;
      MakeEstablishesInv(str, len, first);
    }

    method FetchAdd() returns (before: nat)
      requires held
      modifies this`refs
      ensures before == old(refs) && refs == (before + 1) % WORD
    {
      before := refs;
      refs := (refs + 1) % WORD;
    }

    method FetchSub() returns (before: nat)
      requires held
      modifies this`refs
      ensures before == old(refs) && refs == (before + WORD - 1) % WORD
    {
      before := refs;
      refs := (refs + WORD - 1) % WORD;
    }

    method LoadRefs() returns (r: nat)
      requires held
      ensures r == refs
    {
      r := refs;
    }

    /** Sized deallocation demands the size of the allocation. */
    method OperatorDelete(n: nat)
      requires held && n == bytes
      modifies this`held
      ensures !held
    {
      held := false;
    }

    method What() returns (p: seq<char>)
      requires Valid() && sys.live != {}
      ensures p == original[..size + 1]
    {
      CountedMeansAllocated(sys, original, size);
      p := payload;
    }

    /** The copy constructor of a handle. */
    method Copy(ghost from: Handle, ghost made: Handle)
      requires Valid() && Enabled(sys, Label.Copy(from, made)) && sys.Counted() < WORD
      modifies this`refs, this`sys
      ensures Valid() && sys == Next(old(sys), Label.Copy(from, made))
    {
      CountedMeansAllocated(sys, original, size);
      StepKeepsInv(sys, Label.Copy(from, made), original, size);
      var _ := FetchAdd();
      sys := Next(sys, Label.Copy(from, made));
    }

    /** The first half of `ruin`. */
    method RuinLoad(ghost h: Handle) returns (zero: bool)
      requires Valid() && Enabled(sys, Load(h))
      modifies this`sys
      ensures Valid() && sys == Next(old(sys), Load(h)) && (zero <==> h in sys.doomed) && (!zero <==> h in sys.loaded)
    {
      CountedMeansAllocated(sys, original, size);
      StepKeepsInv(sys, Load(h), original, size);
      var r := LoadRefs();
      zero := r == 0;
      sys := Next(sys, Load(h));
    }

    /** The second half, taken after a load that was not zero. */
    method RuinSub(ghost h: Handle) returns (zero: bool)
      requires Valid() && Enabled(sys, Sub(h))
      modifies this`refs, this`sys
      ensures Valid() && sys == Next(old(sys), Sub(h)) && (zero <==> h in sys.doomed) && (!zero <==> h in sys.gone)
    {
      CountedMeansAllocated(sys, original, size);
      StepKeepsInv(sys, Sub(h), original, size);
      var before := FetchSub();
      zero := before == 0;
      sys := Next(sys, Sub(h));
    }

    method RuinDelete(ghost h: Handle)
      requires Valid() && Enabled(sys, Delete(h))
      modifies this`held, this`sys
      ensures Valid() && sys == Next(old(sys), Delete(h)) && h in sys.gone && Complete(sys)
    {
      CountedMeansAllocated(sys, original, size);
      StepKeepsInv(sys, Delete(h), original, size);
      OperatorDelete(ObjectSize(HEADER, size));
      sys := Next(sys, Delete(h));
      assert |sys.live| == 0 && |sys.loaded| == 0;
    }

    method RuinAfterLoad(ghost h: Handle) returns (deleted: bool)
      requires Valid() && Enabled(sys, Sub(h))
      modifies this
      ensures Valid() && h in sys.gone
      ensures (deleted <==> Complete(sys)) && (deleted <==> !held)
      ensures (deleted <==> old(sys).Counted() == 1) && old(sys).Counted() >= 1
      ensures sys.live == old(sys).live && sys.loaded == old(sys).loaded - {h}
    {
      CountedMeansAllocated(sys, original, size);
      Moved(sys.loaded, sys.gone, h);
      deleted := RuinSub(h);
      if deleted {
        RuinDelete(h);
      }
    }

    /** Any step of any handle. */
    method Step(l: Label)
      requires Valid() && Enabled(sys, l) && Next(sys, l).Counted() <= WORD
      modifies this
      ensures Valid() && sys == Next(old(sys), l)
    {
      match l
      case Copy(from, made) =>
        assert |sys.live + {made}| == |sys.live| + 1;
        Copy(from, made);
      case Load(h) => var _ := RuinLoad(h);
      case Sub(h) => var _ := RuinSub(h);
      case Delete(h) => RuinDelete(h);
      case What(h) =>
        var _ := What();
        StepKeepsInv(sys, l, original, size);
        sys := Next(sys, l);
    }

    /** Other threads take any number of steps. */
    method Interfere(ls: seq<Label>)
      requires Valid() && Runs(sys, ls) && Within(sys, ls, WORD)
      modifies this
      ensures Valid() && sys == Final(old(sys), ls)
    {
      var n := 0;
      while n < |ls|
        invariant 0 <= n <= |ls| && Valid()
        invariant Runs(sys, ls[n..]) && Within(sys, ls[n..], WORD)
        invariant Final(sys, ls[n..]) == Final(old(sys), ls)
      {
        assert ls[n..][1..] == ls[n + 1..];
        Step(ls[n]);
        n := n + 1;
      }
    }

    /** A whole destructor, with the steps `env` of other handles between its load and its decrement. The
        block is deleted here exactly when every other handle is gone by then. */
    method Ruin(h: Handle, env: seq<Label>) returns (deleted: bool)
      requires Valid() && Enabled(sys, Load(h))
      requires Runs(Next(sys, Load(h)), env) && Within(Next(sys, Load(h)), env, WORD)
      requires forall l :: l in env ==> l.Actor() != h
      modifies this
      ensures Valid() && h in sys.gone
      ensures deleted <==> Complete(sys)
      ensures deleted <==> !held
      ensures var mid := Final(Next(old(sys), Load(h)), env);
              && (deleted <==> mid.Counted() <= 1)
              && sys.live == mid.live && sys.loaded == mid.loaded - {h}
    {
      deleted := RuinLoad(h);
      if deleted {
        if env != [] {
          assert env[0] in env;
          NobodyElse(sys, h, env[0], original, size);
          assert false;
        }
        RuinDelete(h);
      } else {
        StaysLoaded(sys, env, h);
        Interfere(env);
        deleted := RuinAfterLoad(h);
      }
    }
  }
}
