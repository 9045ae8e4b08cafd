/** `Bin` of `src/lib.rs` as an object: the lock's state, the `clear` flag and the arena,
    proved against the state machine of module `BinSpec`.

    `gate` is the lock as other threads hold it between this thread's operations; each
    operation takes and drops its own guard within it. The bin's footprint is the arena's,
    `inner.Repr`; the bin's own fields lie outside it. */
module Bins {
  import opened Common
  import opened ArenaSpec
  import opened InnerArena
  import opened BinSpec

  class Bin {
    var gate: Gate
    var pending: bool
    const inner: Inner

    /** The arena is valid and the bin's own fields lie outside it. */
    ghost predicate Valid()
      reads this, inner, inner.Repr
    {
      this !in inner.Repr && inner.Valid()
    }

    /** The bin as a value. */
    ghost function Model(): State
      reads this, inner, inner.destructors
    {
      State(gate, pending, inner.Abstract())
    }

    /** `new`: the lock free, no clear pending, an empty arena. */
    constructor ()
      ensures Valid() && fresh(inner.Repr)
      ensures Model() == New
    {
      gate := Idle;
      pending := false;
      inner := new Inner();
    }

    /** `add`: store the value under a read guard, or drop it if a writer holds the lock;
        then, with the guard dropped, `try_clear`. */
    method Add(v: Value, busy: set<nat>, base: nat) returns (dropped: seq<Value>)
      requires Valid()
      modifies this, inner.Repr
      ensures Valid() && fresh(inner.Repr - old(inner.Repr))
      ensures Step(Model(), dropped) == BinSpec.Add(old(Model()), v, busy, base)
    {
      ghost var s := Model();
      dropped := Store(v, busy, base);
      ghost var stored := match TryRead(s.gate)
                          case None => Outcome(s.arena, [v])
                          case Some(_) => ArenaSpec.Add(s.arena, v, busy, base);
      assert Model() == State(s.gate, s.pending, stored.arena) && dropped == stored.dropped;
      var cleared := TryClear();
      dropped := dropped + cleared;
    }

    /** The first half of `add`: `if let Some(inner) = self.inner.try_read()`. */
    method Store(v: Value, busy: set<nat>, base: nat) returns (dropped: seq<Value>)
      requires Valid()
      modifies inner.Repr
      ensures Valid() && fresh(inner.Repr - old(inner.Repr))
      ensures Outcome(inner.Abstract(), dropped)
                == if gate.Writing? then Outcome(old(inner.Abstract()), [v])
                   else ArenaSpec.Add(old(inner.Abstract()), v, busy, base)
    {
      if TryRead(gate).Some? {
        // The read guard is held for the call and dropped right after it.
        dropped := inner.Add(v, busy, base);
      } else {
        dropped := [v];
      }
    }

    /** `clear`: set the flag, then `try_clear`. */
    method Clear() returns (dropped: seq<Value>)
      requires Valid()
      modifies this, inner.Repr
      ensures Valid() && fresh(inner.Repr - old(inner.Repr))
      ensures Step(Model(), dropped) == ClearBin(old(Model()))
    {
      pending := true;
      dropped := TryClear();
    }

    /** `try_clear`: if the flag is set and the write lock is obtained, reset the flag and
        clear the arena under the write guard. */
    method TryClear() returns (dropped: seq<Value>)
      requires Valid()
      modifies this, inner.Repr
      ensures Valid() && fresh(inner.Repr - old(inner.Repr))
      ensures Step(Model(), dropped) == BinSpec.TryClear(old(Model()))
    {
      dropped := [];
      if pending && TryWrite(gate).Some? {
        // The write guard is held for the reset and the clear, and dropped right after.
        pending := false;
        dropped := inner.Clear();
      }
    }

    /** `size`: 0 if a writer holds the lock, otherwise the arena's size. */
    method Size() returns (n: nat)
      requires Valid()
      ensures n == SizeOf(Model())
    {
      var guard := TryRead(gate);
      if guard.None? {
        return 0;
      }
      n := inner.Size();
    }

    /** `Drop`: with the bin held exclusively, clear the arena whether or not a clear is
        pending. */
    method Teardown() returns (dropped: seq<Value>)
      requires Valid() && gate.Idle?
      modifies inner.Repr
      ensures Valid() && fresh(inner.Repr - old(inner.Repr))
      ensures dropped == BinSpec.Teardown(old(Model()))
      ensures inner.Abstract().entries == []
    {
      dropped := inner.Clear();
    }

    /** Another thread takes a read guard (it is inside `add` or `size`). */
    method OtherReads()
      requires Valid() && !gate.Writing?
      modifies this
      ensures Valid()
      ensures Model() == old(Model()).(gate := TryRead(old(gate)).value)
    {
      gate := TryRead(gate).value;
    }

    /** Another thread drops its read guard. */
    method OtherReleasesRead()
      requires Valid() && gate.Reading?
      modifies this
      ensures Valid()
      ensures Model() == old(Model()).(gate := ReleaseRead(old(gate)))
    {
      gate := ReleaseRead(gate);
    }
  }

  /** The `test_clear` test: with no other lock holder, `add` keeps the value and `clear`
      runs its destructor before returning. */
  method ClearScenario(v: Value, base: nat)
    requires Size(v) + v.align <= USIZE_MAX
  {
    var bin := new Bin();
    AddThenClear(v, base);
    var dropped := bin.Add(v, {}, base);
    assert dropped == [];
    dropped := bin.Clear();
    assert dropped == [v];
  }

  /** `clear` while another thread holds a read guard: the clear is only recorded. */
  method ClearDuringRead(bin: Bin) returns (dropped: seq<Value>)
    requires bin.Valid() && bin.gate.Idle?
    modifies bin, bin.inner.Repr
    ensures bin.Valid() && fresh(bin.inner.Repr - old(bin.inner.Repr))
    ensures dropped == [] && bin.Model() == old(bin.Model()).(gate := Reading(1), pending := true)
  {
    bin.OtherReads();
    ClearDeferred(bin.Model());
    dropped := bin.Clear();
  }

  /** A `clear` while another thread is inside `add` is deferred; the next `add` after that
      thread leaves carries it out, running every destructor, the new value's included. */
  method DeferredClearScenario(bin: Bin, w: Value, base: nat) returns (dropped: seq<Value>)
    requires bin.Valid() && bin.gate.Idle?
    modifies bin, bin.inner.Repr
    ensures bin.Valid() && !bin.pending && bin.inner.Abstract().entries == []
    ensures multiset(dropped) == multiset(Values(old(bin.inner.Abstract()).entries)) + multiset{w}
  {
    dropped := ClearDuringRead(bin);
    ghost var repr := bin.inner.Repr;
    bin.OtherReleasesRead();
    assert bin.inner.Repr == repr;
    DeferredClearRunsOnAdd(bin.Model(), w, {}, base);
    dropped := bin.Add(w, {}, base);
  }
}
