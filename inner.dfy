/** The type-erased arena of `src/inner.rs` as objects: a list of segments of backing storage
    whose cells are updated in place, and a vector of registered destructors.

    Every method is proved against the value-level model of module `ArenaSpec`: `Segs` mirrors
    the segments, `Abstract()` is the arena they form with the registered entries, and each
    operation leaves `Abstract()` equal to the corresponding `ArenaSpec` function of the old
    one. A segment's `TryMutex` is the `busy` parameter (the list positions whose `try_lock`
    fails); the address a new buffer gets from the allocator is the `base` parameter. */
module InnerArena {
  import opened Common
  import opened ConcurrentLists
  import opened ConcurrentVecs
  import opened ArenaSpec

  /** A segment of backing storage: the address of its buffer, the capacity it was allocated
      with (fixed, so read without the lock), and its cells up to the used length. */
  class Storage {
    const base: nat
    const capacity: nat
    var cells: seq<Option<Byte>>

    constructor (base: nat, capacity: nat, cells: seq<Option<Byte>>)
      ensures Snapshot() == Segment(base, capacity, cells)
    {
      this.base := base;
      this.capacity := capacity;
      this.cells := cells;
    }

    /** The segment as a value. */
    function Snapshot(): (s: Segment)
      reads this
      ensures s.base == base && s.capacity == capacity && s.cells == cells
    {
      Segment(base, capacity, cells)
    }
  }

  /** A storage the search for room may reuse: its position in the list and the start index
      of the value in it. */
  datatype Found = Found(storage: Storage, position: nat, start: nat)

  class Inner {
    var destructors: ConcurrentVec<Entry>
    const data: ConcurrentList<Storage>
    /** The storages as values, in list order (most recently created first). */
    ghost var Segs: seq<Segment>
    ghost var Repr: set<object>

    /** The object structure: the registry's objects are its own, and the storages are
        distinct, outside the registry and mirrored by `Segs`. The registry's own invariant is
        kept apart, in `Valid`, so that the methods that leave the registry alone need not
        reason about it. */
    ghost predicate Shaped()
      reads this, Repr
    {
      && this in Repr && data in Repr && destructors in Repr
      && destructors in destructors.Repr && destructors.Repr <= Repr
      && this !in destructors.Repr && data !in destructors.Repr
      && data.Valid()
      && |Segs| == |data.Contents|
      && (forall i :: 0 <= i < |data.Contents| ==>
            && data.Contents[i] in Repr && data.Contents[i] !in destructors.Repr
            && data.Contents[i].Snapshot() == Segs[i])
      && (forall i, j :: 0 <= i < j < |data.Contents| ==> data.Contents[i] != data.Contents[j])
    }

    /** The arena formed by the segments and the registered entries. */
    ghost function Abstract(): Arena
      reads this, destructors
    {
      Arena(Segs, destructors.Contents())
    }

    /** The structure holds, the registry is valid, and the arena invariant of
        `ArenaSpec.Valid` holds of the arena they form. */
    ghost predicate Valid()
      reads this, Repr
    {
      Shaped() && destructors.Valid() && ArenaSpec.Valid(Abstract())
    }

    /** `new`: an empty registry and no storage. */
    constructor ()
      ensures Valid() && fresh(Repr)
      ensures Abstract() == Empty
    {
      var registry := new ConcurrentVec<Entry>();
      destructors := registry;
      data := new ConcurrentList<Storage>();
      Segs := [];
      new;
      Repr := {this, data} + registry.Repr;
    }

    /** The `find_map` over the storages in list order: skip a storage whose lock is held
        elsewhere; otherwise compute the padding after its end address and take it when the
        value fits, rejecting it when either `checked_add` overflows. */
    method FindStorage(busy: set<nat>, size: nat, align: pos) returns (r: Option<Found>)
      requires Shaped()
      ensures r.None? ==> FindFit(Segs, busy, size, align, 0).None?
      ensures r.Some? ==> FindFit(Segs, busy, size, align, 0)
                            == Some(Fit(r.value.position, r.value.start))
                          && r.value.position < |data.Contents|
                          && r.value.storage == data.Contents[r.value.position]
    {
      var storages := data.Iter();
      var i := 0;
      while i < |storages|
        invariant 0 <= i <= |storages| == |Segs|
        invariant FindFit(Segs, busy, size, align, i) == FindFit(Segs, busy, size, align, 0)
      {
        if i !in busy {
          var storage := storages[i];
          var used := |storage.cells|;
          var padding := (align - (storage.base + used) % align) % align;
          if used + padding <= USIZE_MAX && used + padding + size <= USIZE_MAX
             && used + padding + size <= storage.capacity
          {
            return Some(Found(storage, i, used + padding));
          }
        }
        i := i + 1;
      }
      return None;
    }

    /** `store`: a zero-sized value gets the dangling pointer `align` and no storage; any
        other value is written into the first storage found with room, after `set_len`, or
        else into a new storage. */
    method Store(v: Value, busy: set<nat>, base: nat) returns (loc: Option<Location>)
      requires Shaped()
      modifies Repr - destructors.Repr
      ensures Shaped() && fresh(Repr - old(Repr)) && destructors == old(destructors)
      ensures ArenaSpec.Store(old(Segs), v, busy, base)
                == if loc.Some? then Some(Stored(Segs, loc.value)) else None
      ensures loc.None? ==> Segs == old(Segs)
    {
      var size, align := |v.payload|, v.align;
      if size > 0 {
        var found := FindStorage(busy, size, align);
        if found.Some? {
          var Found(storage, p, start) := found.value;
          var count := data.Len();
          WriteAt(storage, p, start, v);
          loc := Some(Placed(count - 1 - p, start));
        } else {
          loc := AddStorage(v, base);
        }
      } else {
        loc := Some(Dangling(align));
      }
    }

    /** `set_len(start + size)` on the storage at position `p` and the write of the value at
        `start`. */
    method WriteAt(storage: Storage, p: nat, start: nat, v: Value)
      requires Shaped() && p < |data.Contents| && storage == data.Contents[p]
      requires |storage.cells| <= start
      modifies this, storage
      ensures Shaped() && Repr == old(Repr) && destructors == old(destructors)
      ensures Segs == old(Segs)[p := Place(old(Segs)[p], start, v)]
    {
      storage.cells := storage.cells + Uninit(start - |storage.cells|) + Init(v.payload);
      Segs := Segs[p := storage.Snapshot()];
      forall i | 0 <= i < |data.Contents|
        ensures data.Contents[i].Snapshot() == Segs[i]
      {
        if i != p {
          assert data.Contents[i] != storage;
        }
      }
    }

    /** `add_storage`: allocate a storage of capacity `max(size + align, 1024 or the grown
        head capacity)` at address `base`, write the value at the first aligned index and link
        the storage in as the new head; give up when `size + align` overflows. */
    method AddStorage(v: Value, base: nat) returns (loc: Option<Location>)
      requires Shaped()
      modifies this, data
      ensures Shaped() && fresh(Repr - old(Repr)) && destructors == old(destructors)
      ensures ArenaSpec.AddStorage(old(Segs), v, base)
                == if loc.Some? then Some(Stored(Segs, loc.value)) else None
      ensures loc.None? ==> Segs == old(Segs)
    {
      var size, align := |v.payload|, v.align;
      if size + align > USIZE_MAX {
        return None;
      }
      var head := data.Head();
      var capacity := Max(size + align, if head.None? then FIRST_SEGMENT
                                        else Grow(head.value.capacity));
      var start := (align - base % align) % align;
      var storage := new Storage(base, capacity, Uninit(start) + Init(v.payload));
      assert Segment(base, capacity, []).cells + Uninit(start) == Uninit(start);
      var count := data.Len();
      Link(storage);
      loc := Some(Placed(count, start));
    }

    /** `self.data.push(storage)`: link a storage created outside the structure in as the new
        head. */
    method Link(storage: Storage)
      requires Shaped() && storage !in Repr
      modifies this, data
      ensures Shaped() && Repr == old(Repr) + {storage} && destructors == old(destructors)
      ensures Segs == [storage.Snapshot()] + old(Segs)
    {
      ghost var storages0 := data.Contents;
      var _ := data.Push(storage);
      Segs := [storage.Snapshot()] + Segs;
      Repr := Repr + {storage};
      StorageLinked(storage, storages0);
    }

    /** A fresh storage linked in front of the storages keeps the structure. */
    lemma StorageLinked(s: Storage, storages0: seq<Storage>)
      requires this in Repr && data in Repr && destructors in Repr
      requires destructors in destructors.Repr && destructors.Repr <= Repr
      requires this !in destructors.Repr && data !in destructors.Repr
      requires data.Valid()
      requires data.Contents == [s] + storages0 && |Segs| == |data.Contents|
      requires s in Repr && s !in destructors.Repr && s.Snapshot() == Segs[0]
      requires forall i :: 0 <= i < |storages0| ==> storages0[i] != s
      requires forall i :: 0 <= i < |storages0| ==>
                 && storages0[i] in Repr && storages0[i] !in destructors.Repr
                 && storages0[i].Snapshot() == Segs[i + 1]
      requires forall i, j :: 0 <= i < j < |storages0| ==> storages0[i] != storages0[j]
      ensures Shaped()
    {
      forall i | 0 < i < |data.Contents|
        ensures data.Contents[i] == storages0[i - 1]
      {
      }
    }

    /** `add`: store the value and register its destructor at the returned pointer; when
        `store` fails the value has already been dropped, and is returned in `dropped`. */
    method Add(v: Value, busy: set<nat>, base: nat) returns (dropped: seq<Value>)
      requires Valid()
      modifies Repr
      ensures Valid() && fresh(Repr - old(Repr))
      ensures Outcome(Abstract(), dropped) == ArenaSpec.Add(old(Abstract()), v, busy, base)
    {
      ghost var a := Abstract();
      AddValid(a, v, busy, base);
      var loc := Store(v, busy, base);
      if loc.None? {
        return [v];
      }
      Register(Entry(loc.value, v));
      dropped := [];
    }

    /** `self.destructors.push(...)`: register a pointer and its destructor. */
    method Register(e: Entry)
      requires Shaped() && destructors.Valid()
      modifies this, destructors.Repr
      ensures Shaped() && destructors.Valid() && fresh(Repr - old(Repr))
      ensures Segs == old(Segs) && destructors == old(destructors)
      ensures destructors.Contents() == [e] + old(destructors.Contents())
    {
      var _ := destructors.Push(e);
      Repr := Repr + destructors.Repr;
    }

    /** `clear`: take the registry (`mem::take` leaves a new empty one), run each destructor
        in the order the registry yields them, then reset the used length of every storage
        to 0, keeping its buffer. */
    method Clear() returns (dropped: seq<Value>)
      requires Valid()
      modifies Repr
      ensures Valid() && fresh(Repr - old(Repr))
      ensures Outcome(Abstract(), dropped) == ArenaSpec.Clear(old(Abstract()))
    {
      ghost var a := Abstract();
      ClearValid(a);
      var entries := TakeRegistry();
      dropped := RunDestructors(entries);
      ResetStorages();
    }

    /** `mem::take(&mut self.destructors).into_iter()`: leave a new empty registry and yield
        the entries of the old one. */
    method TakeRegistry() returns (entries: seq<Entry>)
      requires Shaped() && destructors.Valid()
      modifies this
      ensures Shaped() && destructors.Valid() && fresh(Repr - old(Repr))
      ensures Segs == old(Segs) && destructors.Contents() == []
      ensures entries == old(destructors.Contents())
    {
      var taken := destructors;
      var registry := new ConcurrentVec<Entry>();
      destructors := registry;
      Repr := Repr + registry.Repr;
      entries := taken.IntoIter();
    }

    /** The loop of `clear` over `data.iter_mut()` that resets each storage's used length. */
    method ResetStorages()
      requires Shaped() && ArenaSpec.Valid(Arena(Emptied(Segs), destructors.Contents()))
      modifies Repr - destructors.Repr
      ensures Shaped() && ArenaSpec.Valid(Abstract()) && Repr == old(Repr) && destructors == old(destructors)
      ensures Segs == Emptied(old(Segs))
    {
      var storages := data.Iter();
      ghost var segs0 := Segs;
      var i := 0;
      while i < |storages|
        invariant 0 <= i <= |storages| == |Segs| == |segs0|
        invariant Shaped() && Repr == old(Repr) && destructors == old(destructors)
        invariant data.Contents == storages
        invariant forall j :: 0 <= j < i ==> Segs[j] == segs0[j].(cells := [])
        invariant forall j :: i <= j < |Segs| ==> Segs[j] == segs0[j]
      {
        ResetOne(storages[i], i);
        i := i + 1;
      }
      assert Segs == Emptied(segs0);
    }

    /** `bytes.get_mut().clear()` on the storage at position `p`. */
    method ResetOne(storage: Storage, p: nat)
      requires Shaped() && p < |data.Contents| && storage == data.Contents[p]
      modifies this, storage
      ensures Shaped() && Repr == old(Repr) && destructors == old(destructors)
      ensures Segs == old(Segs)[p := old(Segs)[p].(cells := [])]
    {
      storage.cells := [];
      Segs := Segs[p := storage.Snapshot()];
      forall i | 0 <= i < |data.Contents|
        ensures data.Contents[i].Snapshot() == Segs[i]
      {
        if i != p {
          assert data.Contents[i] != storage;
        }
      }
    }

    /** `size`: the sum of the storage capacities, in list order. */
    method Size() returns (n: nat)
      requires Valid()
      ensures n == TotalSize(Segs)
    {
      var storages := data.Iter();
      n := 0;
      var i := 0;
      while i < |storages|
        invariant 0 <= i <= |storages| == |Segs|
        invariant n + TotalSize(Segs[i..]) == TotalSize(Segs)
      {
        assert Segs[i..][1..] == Segs[i + 1..];
        n := n + storages[i].capacity;
        i := i + 1;
      }
    }
  }

  /** The first loop of `clear`: run each destructor on its pointer, in the order given. */
  method RunDestructors(entries: seq<Entry>) returns (dropped: seq<Value>)
    ensures dropped == Values(entries)
  {
    dropped := [];
    for i := 0 to |entries|
      invariant |dropped| == i
      invariant forall j :: 0 <= j < i ==> dropped[j] == entries[j].value
    {
      dropped := dropped + [entries[i].value];
    }
  }
}
