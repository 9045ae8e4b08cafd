/** The arithmetic and the bookkeeping of the type-erased arena of `src/inner.rs`, on values.

    A value handed to `add` is its identity (standing for the value and its destructor), its
    alignment and its bytes. The arena is its segments of backing storage, most recently
    created first as the list keeps them, and its registered entries (a location and the
    value whose destructor runs there), in the order `clear` runs them. Running a destructor
    is reported by handing the value back in a `dropped` sequence. */
module ArenaSpec {
  import opened Common

  type Byte = bv8

  /** The capacity of the first segment. */
  const FIRST_SEGMENT: nat := 1024

  /** A value given to `add`: `id` stands for the value and its destructor, `align` is
      `align_of::<T>()` and `payload` the bytes of the value, so that `size_of::<T>()` is
      `|payload|`. */
  datatype Value = Value(id: nat, align: pos, payload: seq<Byte>)

  function Size(v: Value): nat
  {
    |v.payload|
  }

  /** A pointer registered together with a destructor: the dangling pointer `align as *mut T`
      used for zero-sized values, or offset `offset` into the segment created `segment`-th
      (0 for the first one created). */
  datatype Location = Dangling(addr: nat) | Placed(segment: nat, offset: nat)

  /** A registered pointer and the value whose destructor runs on it. */
  datatype Entry = Entry(location: Location, value: Value)

  /** A segment of backing storage: the address of its buffer, the capacity it was created
      with, and its cells up to the used length (`Vec::len`); `None` is a byte that was never
      initialised (a `MaybeUninit<u8>` skipped as padding). */
  datatype Segment = Segment(base: nat, capacity: nat, cells: seq<Option<Byte>>)

  /** The segments, head first, and the entries, in the order `clear` runs them (most
      recently registered first). */
  datatype Arena = Arena(segments: seq<Segment>, entries: seq<Entry>)

  /** `Inner::new`: no segments and no entries. */
  const Empty: Arena := Arena([], [])

  /** The cells holding `bytes`. */
  function Init(bytes: seq<Byte>): (cells: seq<Option<Byte>>)
    ensures |cells| == |bytes|
    ensures forall i :: 0 <= i < |bytes| ==> cells[i] == Some(bytes[i])
  {
    seq(|bytes|, i requires 0 <= i < |bytes| => Some(bytes[i]))
  }

  /** `n` uninitialised cells. */
  function Uninit(n: nat): (cells: seq<Option<Byte>>)
    ensures |cells| == n
  {
    seq(n, _ => None)
  }

  // ---------------------------------------------------------------------------------------
  // Padding
  // ---------------------------------------------------------------------------------------

  lemma MulAtLeast(m: nat, d: int)
    requires d >= 1
    ensures m * d >= m
  {
    if d > 1 {
      MulAtLeast(m, d - 1);
      assert m * d == m * (d - 1) + m;
    }
  }

  /** Division with remainder is unique. */
  lemma ModUnique(y: nat, m: pos, q: int, r: nat)
    requires r < m && y == q * m + r
    ensures y % m == r
  {
    var a, s := y / m, y % m;
    assert y == a * m + s;
    var d := q - a;
    assert d * m == s - r;
    if d >= 1 {
      MulAtLeast(m, d);
      assert false;
    }
    if d <= -1 {
      MulAtLeast(m, -d);
      assert false;
    }
  }

  /** `(align - end % align) % align`: the bytes to skip after address `end` so that the next
      address is a multiple of `align`. */
  function Padding(end: nat, align: pos): (p: nat)
    ensures p < align
    ensures (end + p) % align == 0
  {
    PaddingAligns(end, align);
    (align - end % align) % align
  }

  lemma PaddingAligns(end: nat, align: pos)
    ensures (end + (align - end % align) % align) % align == 0
  {
    var q, r := end / align, end % align;
    assert end == q * align + r;
    if r == 0 {
      ModUnique(align, align, 1, 0);
    } else {
      ModUnique(align - r, align, 0, align - r);
      ModUnique(end + (align - r), align, q + 1, 0);
    }
  }

  /** The padding is the least: no shorter skip reaches a multiple of `align`. */
  lemma PaddingLeast(end: nat, align: pos, skip: nat)
    requires skip < Padding(end, align)
    ensures (end + skip) % align != 0
  {
    var q, r := end / align, end % align;
    assert end == q * align + r;
    if r == 0 {
      ModUnique(align, align, 1, 0);
      assert false;
    }
    ModUnique(align - r, align, 0, align - r);
    ModUnique(end + skip, align, q, r + skip);
  }

  // ---------------------------------------------------------------------------------------
  // Reusing a segment
  // ---------------------------------------------------------------------------------------

  /** The `find_map` closure on one segment whose lock was obtained: `Some(start)` when a value
      of `size` bytes fits at `start`, the used length plus the padding after the segment's
      end address; each `checked_add` that overflows rejects the segment. */
  function FitAt(s: Segment, size: nat, align: pos): (r: Option<nat>)
    ensures s.capacity <= USIZE_MAX ==>
              (r.Some? <==> |s.cells| + Padding(s.base + |s.cells|, align) + size <= s.capacity)
    ensures r.Some? ==> r.value == |s.cells| + Padding(s.base + |s.cells|, align)
    ensures r.Some? ==> r.value + size <= s.capacity && (s.base + r.value) % align == 0
  {
    var used := |s.cells|;
    var padding := Padding(s.base + used, align);
    if used + padding > USIZE_MAX then None
    else if used + padding + size > USIZE_MAX then None
    else if used + padding + size <= s.capacity then Some(used + padding)
    else None
  }

  /** A segment chosen for reuse: its position in the list and the start index. */
  datatype Fit = Fit(position: nat, start: nat)

  /** `self.data.iter().find_map(...)` from position `i` on: the first segment whose lock is
      free (its position is not in `busy`) and that has room. */
  function FindFit(segs: seq<Segment>, busy: set<nat>, size: nat, align: pos, i: nat)
    : (r: Option<Fit>)
    decreases |segs| - i
    ensures r.Some? ==> i <= r.value.position < |segs| && r.value.position !in busy
    ensures r.Some? ==> FitAt(segs[r.value.position], size, align) == Some(r.value.start)
    ensures r.Some? ==> forall j :: i <= j < r.value.position ==>
                          j in busy || FitAt(segs[j], size, align).None?
    ensures r.None? ==> forall j :: i <= j < |segs| ==>
                          j in busy || FitAt(segs[j], size, align).None?
  {
    if i >= |segs| then None
    else if i !in busy && FitAt(segs[i], size, align).Some? then
      Some(Fit(i, FitAt(segs[i], size, align).value))
    else FindFit(segs, busy, size, align, i + 1)
  }

  /** `set_len(start + size)` and the write of the value at `start`: the cells between the
      old used length and `start` stay uninitialised, and the earlier cells are untouched. */
  function Place(s: Segment, start: nat, v: Value): (r: Segment)
    requires |s.cells| <= start
    ensures r.base == s.base && r.capacity == s.capacity
    ensures |r.cells| == start + Size(v)
    ensures r.cells[..|s.cells|] == s.cells
    ensures forall j :: |s.cells| <= j < start ==> r.cells[j] == None
    ensures r.cells[start..] == Init(v.payload)
  {
    s.(cells := s.cells + Uninit(start - |s.cells|) + Init(v.payload))
  }

  // ---------------------------------------------------------------------------------------
  // A new segment
  // ---------------------------------------------------------------------------------------

  /** The capacity of a new segment: `max(size + align, 1024 or the grown head capacity)`, or
      `None` when `size.checked_add(align)` overflows. */
  function NewCapacity(segs: seq<Segment>, size: nat, align: pos): (r: Option<nat>)
    ensures r.None? <==> size + align > USIZE_MAX
    ensures r.Some? ==> r.value >= size + align
    ensures r.Some? && segs == [] ==> r.value >= FIRST_SEGMENT
    ensures r.Some? && segs != [] ==> r.value >= Grow(segs[0].capacity) >= segs[0].capacity
    ensures r.Some? ==> r.value == size + align
                        || r.value == (if segs == [] then FIRST_SEGMENT else Grow(segs[0].capacity))
    ensures r.Some? && (segs != [] ==> segs[0].capacity <= USIZE_MAX) ==> r.value <= USIZE_MAX
  {
    if size + align > USIZE_MAX then None
    else Some(Max(size + align, if segs == [] then FIRST_SEGMENT else Grow(segs[0].capacity)))
  }

  /** Where, when and how a value was stored. */
  datatype Stored = Stored(segments: seq<Segment>, location: Location)

  /** `add_storage`: a new segment at address `base` (the allocator's choice) holding the
      value at the first aligned index, pushed as the new head. */
  function AddStorage(segs: seq<Segment>, v: Value, base: nat): (r: Option<Stored>)
  {
    match NewCapacity(segs, Size(v), v.align)
    case None => None
    case Some(capacity) =>
      var start := Padding(base, v.align);
      var head := Place(Segment(base, capacity, []), start, v);
      assert ([head] + segs)[1..] == segs;
      Some(Stored([head] + segs, Placed(|segs|, start)))
  }

  /** `store`: a zero-sized value takes no storage and gets the dangling pointer `align`;
      any other value goes into the first free segment with room, or else a new one. */
  function Store(segs: seq<Segment>, v: Value, busy: set<nat>, base: nat): (r: Option<Stored>)
  {
    if Size(v) > 0 then
      match FindFit(segs, busy, Size(v), v.align, 0)
      case Some(f) =>
        Some(Stored(segs[f.position := Place(segs[f.position], f.start, v)],
                    Placed(|segs| - 1 - f.position, f.start)))
      case None => AddStorage(segs, v, base)
    else
      Some(Stored(segs, Dangling(v.align)))
  }

  // ---------------------------------------------------------------------------------------
  // add, clear and size
  // ---------------------------------------------------------------------------------------

  /** The arena after an operation, and the values whose destructors it ran. */
  datatype Outcome = Outcome(arena: Arena, dropped: seq<Value>)

  /** `add`: store the value and register its destructor; when `store` fails the value is
      dropped on the spot (it goes out of scope in `add_storage`). */
  function Add(a: Arena, v: Value, busy: set<nat>, base: nat): (r: Outcome)
  {
    match Store(a.segments, v, busy, base)
    case None => Outcome(a, [v])
    case Some(s) => Outcome(Arena(s.segments, [Entry(s.location, v)] + a.entries), [])
  }

  /** The values of some entries, in order. */
  function Values(entries: seq<Entry>): (vs: seq<Value>)
    ensures |vs| == |entries|
    ensures forall i :: 0 <= i < |entries| ==> vs[i] == entries[i].value
  {
    if entries == [] then [] else [entries[0].value] + Values(entries[1..])
  }

  /** Every segment with its used length reset to 0. */
  function Emptied(segs: seq<Segment>): (r: seq<Segment>)
    ensures |r| == |segs|
    ensures forall i :: 0 <= i < |segs| ==> r[i] == segs[i].(cells := [])
  {
    if segs == [] then [] else [segs[0].(cells := [])] + Emptied(segs[1..])
  }

  /** `clear`: run every destructor in registry order, leave the registry empty, reset every
      segment's used length and keep the segments. */
  function Clear(a: Arena): Outcome
  {
    Outcome(Arena(Emptied(a.segments), []), Values(a.entries))
  }

  /** `size`: the sum of the segment capacities. */
  function TotalSize(segs: seq<Segment>): (n: nat)
    ensures forall i :: 0 <= i < |segs| ==> segs[i].capacity <= n
  {
    if segs == [] then 0
    else
      assert forall i :: 0 < i < |segs| ==> segs[i] == segs[1..][i - 1];
      segs[0].capacity + TotalSize(segs[1..])
  }

  // ---------------------------------------------------------------------------------------
  // The invariant
  // ---------------------------------------------------------------------------------------

  /** Every segment respects its capacity, which fits a `usize` and is at least 1024. */
  predicate SegmentOk(s: Segment)
  {
    |s.cells| <= s.capacity <= USIZE_MAX && FIRST_SEGMENT <= s.capacity
  }

  /** The segment created `k`-th. */
  function Nth(segs: seq<Segment>, k: nat): Segment
    requires k < |segs|
  {
    segs[|segs| - 1 - k]
  }

  /** An entry's pointer is aligned for its value and the value's bytes are there, unchanged;
      a zero-sized value sits at the dangling pointer `align`. */
  predicate Resident(segs: seq<Segment>, e: Entry)
  {
    match e.location
    case Dangling(addr) => Size(e.value) == 0 && addr == e.value.align
    case Placed(k, offset) =>
      && Size(e.value) > 0 && k < |segs|
      && offset + Size(e.value) <= |Nth(segs, k).cells|
      && Nth(segs, k).cells[offset..offset + Size(e.value)] == Init(e.value.payload)
      && (Nth(segs, k).base + offset) % e.value.align == 0
  }

  /** The arena invariant: every segment is in bounds and every registered value can be read
      back where its pointer points. */
  predicate Valid(a: Arena)
  {
    && (forall i :: 0 <= i < |a.segments| ==> SegmentOk(a.segments[i]))
    && (forall i :: 0 <= i < |a.entries| ==> Resident(a.segments, a.entries[i]))
  }

  /** Writing into a segment past its used length keeps every value already there. */
  lemma PlaceKeepsResident(segs: seq<Segment>, p: nat, start: nat, v: Value, e: Entry)
    requires p < |segs| && |segs[p].cells| <= start && Resident(segs, e)
    ensures Resident(segs[p := Place(segs[p], start, v)], e)
  {
    if e.location.Placed? {
      var k, offset, n := e.location.segment, e.location.offset, Size(e.value);
      var after := segs[p := Place(segs[p], start, v)];
      if |segs| - 1 - k == p {
        var old_ := segs[p].cells;
        var new_ := after[p].cells;
        assert new_[..|old_|] == old_;
        assert new_[offset..offset + n] == old_[offset..offset + n] by {
          forall j | offset <= j < offset + n
            ensures new_[j] == old_[j]
          {
            assert new_[..|old_|][j] == old_[j];
          }
        }
      }
    }
  }

  /** Linking a new segment in front keeps every value already stored. */
  lemma ConsKeepsResident(segs: seq<Segment>, s: Segment, e: Entry)
    requires Resident(segs, e)
    ensures Resident([s] + segs, e)
  {
    if e.location.Placed? {
      assert Nth([s] + segs, e.location.segment) == Nth(segs, e.location.segment);
    }
  }

  /** Reusing segment `p` at `start` keeps the invariant and makes the new value readable. */
  lemma ReuseValid(a: Arena, v: Value, p: nat, start: nat)
    requires Valid(a) && Size(v) > 0 && p < |a.segments|
    requires FitAt(a.segments[p], Size(v), v.align) == Some(start)
    ensures Valid(Arena(a.segments[p := Place(a.segments[p], start, v)],
                        [Entry(Placed(|a.segments| - 1 - p, start), v)] + a.entries))
  {
    var segs := a.segments;
    var placed := Place(segs[p], start, v);
    var after := segs[p := placed];
    var e := Entry(Placed(|segs| - 1 - p, start), v);
    assert SegmentOk(segs[p]);
    assert Nth(after, |segs| - 1 - p) == placed;
    assert placed.cells[start..start + Size(v)] == placed.cells[start..];
    forall i | 0 <= i < |a.entries|
      ensures Resident(after, a.entries[i])
    {
      PlaceKeepsResident(segs, p, start, v, a.entries[i]);
    }
    EntriesCons(after, e, a.entries);
  }

  /** A new head segment at `base` keeps the invariant and makes the new value readable. */
  lemma FreshValid(a: Arena, v: Value, base: nat, capacity: nat)
    requires Valid(a) && Size(v) > 0
    requires NewCapacity(a.segments, Size(v), v.align) == Some(capacity)
    ensures var start := Padding(base, v.align);
            Valid(Arena([Place(Segment(base, capacity, []), start, v)] + a.segments,
                        [Entry(Placed(|a.segments|, start), v)] + a.entries))
  {
    var segs := a.segments;
    var start := Padding(base, v.align);
    var placed := Place(Segment(base, capacity, []), start, v);
    var after := [placed] + segs;
    var e := Entry(Placed(|segs|, start), v);
    assert segs != [] ==> SegmentOk(segs[0]);
    forall i | 0 <= i < |after|
      ensures SegmentOk(after[i])
    {
      if i > 0 {
        assert after[i] == segs[i - 1];
      }
    }
    forall i | 0 <= i < |a.entries|
      ensures Resident(after, a.entries[i])
    {
      ConsKeepsResident(segs, placed, a.entries[i]);
    }
    assert Nth(after, |segs|) == placed;
    assert placed.cells[start..start + Size(v)] == placed.cells[start..];
    EntriesCons(after, e, a.entries);
  }

  /** A resident entry in front of resident entries. */
  lemma EntriesCons(segs: seq<Segment>, e: Entry, entries: seq<Entry>)
    requires Resident(segs, e)
    requires forall i :: 0 <= i < |entries| ==> Resident(segs, entries[i])
    ensures forall i :: 0 <= i < |[e] + entries| ==> Resident(segs, ([e] + entries)[i])
  {
    forall i | 0 < i < |[e] + entries|
      ensures Resident(segs, ([e] + entries)[i])
    {
      assert ([e] + entries)[i] == entries[i - 1];
    }
  }

  /** `add` keeps the invariant: the segments stay in bounds, earlier values stay readable,
      and a stored value is readable at its aligned pointer. */
  lemma AddValid(a: Arena, v: Value, busy: set<nat>, base: nat)
    requires Valid(a)
    ensures Valid(Add(a, v, busy, base).arena)
  {
    if Size(v) > 0 {
      var f := FindFit(a.segments, busy, Size(v), v.align, 0);
      if f.Some? {
        ReuseValid(a, v, f.value.position, f.value.start);
      } else if Size(v) + v.align <= USIZE_MAX {
        FreshValid(a, v, base, NewCapacity(a.segments, Size(v), v.align).value);
      }
    } else {
      EntriesCons(a.segments, Entry(Dangling(v.align), v), a.entries);
    }
  }

  /** The values of an entry in front of others. */
  lemma ValuesCons(e: Entry, entries: seq<Entry>)
    ensures Values([e] + entries) == [e.value] + Values(entries)
  {
    assert ([e] + entries)[1..] == entries;
  }

  // ---------------------------------------------------------------------------------------
  // What add and clear do
  // ---------------------------------------------------------------------------------------

  /** A zero-sized value registers its destructor at the dangling pointer `align` and touches
      no segment. */
  lemma AddZeroSized(a: Arena, v: Value, busy: set<nat>, base: nat)
    requires Size(v) == 0
    ensures Add(a, v, busy, base).dropped == []
    ensures Add(a, v, busy, base).arena.segments == a.segments
    ensures Add(a, v, busy, base).arena.entries == [Entry(Dangling(v.align), v)] + a.entries
  {
  }

  /** A value goes into the first segment with a free lock and room for it, which grows by
      the padding and the value and keeps its capacity; nothing else changes. */
  lemma AddReuses(a: Arena, v: Value, busy: set<nat>, base: nat)
    requires Size(v) > 0
    requires FindFit(a.segments, busy, Size(v), v.align, 0).Some?
    ensures var f := FindFit(a.segments, busy, Size(v), v.align, 0).value;
            var s := a.segments[f.position];
            var s' := Add(a, v, busy, base).arena.segments[f.position];
            && |Add(a, v, busy, base).arena.segments| == |a.segments|
            && (forall j :: 0 <= j < |a.segments| && j != f.position ==>
                  Add(a, v, busy, base).arena.segments[j] == a.segments[j])
            && s'.base == s.base && s'.capacity == s.capacity
            && |s'.cells| == |s.cells| + Padding(s.base + |s.cells|, v.align) + Size(v)
            && Add(a, v, busy, base).arena.entries
                 == [Entry(Placed(|a.segments| - 1 - f.position, f.start), v)] + a.entries
            && Add(a, v, busy, base).dropped == []
  {
  }

  /** With no segment to reuse, a new head segment at `base` is created with capacity
      `max(size + align, 1024 or the grown head capacity)`; the value starts at the padding
      after `base`, less than `align`, and ends within the capacity. */
  lemma AddCreatesSegment(a: Arena, v: Value, busy: set<nat>, base: nat)
    requires Size(v) > 0
    requires FindFit(a.segments, busy, Size(v), v.align, 0).None?
    requires Size(v) + v.align <= USIZE_MAX
    ensures var r := Add(a, v, busy, base);
            var head := r.arena.segments[0];
            var start := Padding(base, v.align);
            && |r.arena.segments| == |a.segments| + 1 && r.arena.segments[1..] == a.segments
            && head.base == base
            && head.capacity == Max(Size(v) + v.align,
                 if a.segments == [] then FIRST_SEGMENT else Grow(a.segments[0].capacity))
            && start < v.align && start + Size(v) <= head.capacity
            && |head.cells| == start + Size(v)
            && r.arena.entries == [Entry(Placed(|a.segments|, start), v)] + a.entries
            && r.dropped == []
  {
    var r := Add(a, v, busy, base);
    assert r.arena.segments[1..] == a.segments;
  }

  /** `add` drops the value on the spot exactly when it is not zero-sized, no free segment
      has room, and `size + align` overflows; otherwise it registers exactly one destructor,
      for that value, in front of the others, and drops nothing. */
  lemma AddDropsOnlyOnOverflow(a: Arena, v: Value, busy: set<nat>, base: nat)
    ensures var r := Add(a, v, busy, base);
            (r.dropped != []) <==> (Size(v) > 0
                                    && FindFit(a.segments, busy, Size(v), v.align, 0).None?
                                    && Size(v) + v.align > USIZE_MAX)
    ensures var r := Add(a, v, busy, base);
            r.dropped != [] ==> r.dropped == [v] && r.arena == a
    ensures var r := Add(a, v, busy, base);
            r.dropped == [] ==> |r.arena.entries| == |a.entries| + 1
                                && r.arena.entries[0].value == v
                                && r.arena.entries[1..] == a.entries
  {
    var r := Add(a, v, busy, base);
    if r.dropped == [] {
      assert r.arena.entries[1..] == a.entries;
    }
  }

  /** `add` accounts for every value once: it is either registered or dropped. */
  lemma AddAccounts(a: Arena, v: Value, busy: set<nat>, base: nat)
    ensures var r := Add(a, v, busy, base);
            multiset(Values(r.arena.entries)) + multiset(r.dropped)
              == multiset(Values(a.entries)) + multiset{v}
  {
    var r := Add(a, v, busy, base);
    if r.dropped == [] {
      var e := r.arena.entries[0];
      assert r.arena.entries == [e] + a.entries;
      ValuesCons(e, a.entries);
    }
  }

  /** `clear` keeps the invariant. */
  lemma ClearValid(a: Arena)
    requires Valid(a)
    ensures Valid(Clear(a).arena)
  {
    var after := Clear(a).arena.segments;
    forall i | 0 <= i < |after|
      ensures SegmentOk(after[i])
    {
      assert SegmentOk(a.segments[i]);
    }
  }

  /** `clear` runs each registered destructor exactly once, most recently registered first,
      leaves no entry, and keeps every segment with its base and capacity but nothing used. */
  lemma ClearRunsAll(a: Arena)
    ensures var r := Clear(a);
            && multiset(r.dropped) == multiset(Values(a.entries))
            && |r.dropped| == |a.entries|
            && (forall i :: 0 <= i < |a.entries| ==> r.dropped[i] == a.entries[i].value)
            && r.arena.entries == []
            && |r.arena.segments| == |a.segments|
            && (forall i :: 0 <= i < |a.segments| ==>
                  && r.arena.segments[i].base == a.segments[i].base
                  && r.arena.segments[i].capacity == a.segments[i].capacity
                  && r.arena.segments[i].cells == [])
  {
  }

  /** A second `clear` runs nothing and changes nothing. */
  lemma ClearIdempotent(a: Arena)
    ensures Clear(Clear(a).arena) == Outcome(Clear(a).arena, [])
  {
    var segs := Clear(a).arena.segments;
    assert Emptied(segs) == segs;
  }

  /** `clear` keeps the size. */
  lemma {:induction false} ClearKeepsSize(segs: seq<Segment>)
    ensures TotalSize(Emptied(segs)) == TotalSize(segs)
  {
    if segs != [] {
      ClearKeepsSize(segs[1..]);
      assert Emptied(segs)[1..] == Emptied(segs[1..]);
    }
  }

  /** `size` grows only when `add` creates a segment, and then by that segment's capacity. */
  lemma AddSize(a: Arena, v: Value, busy: set<nat>, base: nat)
    ensures var segs := Add(a, v, busy, base).arena.segments;
            || TotalSize(segs) == TotalSize(a.segments)
            || (|segs| == |a.segments| + 1 && TotalSize(segs) == segs[0].capacity + TotalSize(a.segments))
  {
    var segs := Add(a, v, busy, base).arena.segments;
    if Size(v) > 0 {
      var f := FindFit(a.segments, busy, Size(v), v.align, 0);
      if f.Some? {
        SizeUpdate(a.segments, f.value.position, Place(a.segments[f.value.position], f.value.start, v));
      } else if segs != a.segments {
        assert segs[1..] == a.segments;
      }
    }
  }

  /** Replacing a segment by one of the same capacity keeps the size. */
  lemma {:induction false} SizeUpdate(segs: seq<Segment>, p: nat, s: Segment)
    requires p < |segs| && s.capacity == segs[p].capacity
    ensures TotalSize(segs[p := s]) == TotalSize(segs)
  {
    if p > 0 {
      SizeUpdate(segs[1..], p - 1, s);
      assert segs[p := s][1..] == segs[1..][p - 1 := s];
    }
  }

  // ---------------------------------------------------------------------------------------
  // Adds, then a clear
  // ---------------------------------------------------------------------------------------

  /** The outcome of adding `vs` in order, each with no segment lock held elsewhere and its
      possible new segment at `base`. */
  function AddAll(a: Arena, vs: seq<Value>, base: nat): Outcome
    decreases |vs|
  {
    if vs == [] then Outcome(a, [])
    else
      var first := Add(a, vs[0], {}, base);
      var rest := AddAll(first.arena, vs[1..], base);
      Outcome(rest.arena, first.dropped + rest.dropped)
  }

  /** Adding values none of which overflows `size + align` drops none of them. */
  lemma {:induction false} AddAllKeeps(a: Arena, vs: seq<Value>, base: nat)
    requires forall i :: 0 <= i < |vs| ==> Size(vs[i]) + vs[i].align <= USIZE_MAX
    ensures AddAll(a, vs, base).dropped == []
    decreases |vs|
  {
    if vs != [] {
      AddDropsOnlyOnOverflow(a, vs[0], {}, base);
      AddAllKeeps(Add(a, vs[0], {}, base).arena, vs[1..], base);
    }
  }

  /** Adding values keeps the invariant. */
  lemma {:induction false} AddAllValid(a: Arena, vs: seq<Value>, base: nat)
    requires Valid(a)
    ensures Valid(AddAll(a, vs, base).arena)
    decreases |vs|
  {
    if vs != [] {
      AddValid(a, vs[0], {}, base);
      AddAllValid(Add(a, vs[0], {}, base).arena, vs[1..], base);
    }
  }

  /** Adding values none of which overflows registers one destructor each, the last added
      in front. */
  lemma {:induction false} AddAllRegisters(a: Arena, vs: seq<Value>, base: nat)
    requires forall i :: 0 <= i < |vs| ==> Size(vs[i]) + vs[i].align <= USIZE_MAX
    ensures Values(AddAll(a, vs, base).arena.entries) == Reverse(vs) + Values(a.entries)
    decreases |vs|
  {
    if vs != [] {
      var first := Add(a, vs[0], {}, base);
      AddRegistersOne(a, vs[0], base);
      AddAllRegisters(first.arena, vs[1..], base);
      assert vs == [vs[0]] + vs[1..];
      ReverseCons(vs[0], vs[1..]);
      AppendAssoc(Reverse(vs[1..]), [vs[0]], Values(a.entries));
    }
  }

  /** One `add` that does not overflow puts its value in front of the registered ones. */
  lemma AddRegistersOne(a: Arena, v: Value, base: nat)
    requires Size(v) + v.align <= USIZE_MAX
    ensures Values(Add(a, v, {}, base).arena.entries) == [v] + Values(a.entries)
  {
    var first := Add(a, v, {}, base);
    AddDropsOnlyOnOverflow(a, v, {}, base);
    var e := first.arena.entries[0];
    assert first.arena.entries == [e] + a.entries;
    ValuesCons(e, a.entries);
  }

  lemma ReverseCons<T>(x: T, xs: seq<T>)
    ensures Reverse([x] + xs) == Reverse(xs) + [x]
  {
    assert ([x] + xs)[1..] == xs;
  }

  /** `n` adds into a new arena and then a `clear` run every destructor exactly once, none of
      them before the clear, the last added first. */
  lemma AddsThenClear(vs: seq<Value>, base: nat)
    requires forall i :: 0 <= i < |vs| ==> Size(vs[i]) + vs[i].align <= USIZE_MAX
    ensures AddAll(Empty, vs, base).dropped == []
    ensures Clear(AddAll(Empty, vs, base).arena).dropped == Reverse(vs)
    ensures multiset(Clear(AddAll(Empty, vs, base).arena).dropped) == multiset(vs)
  {
    AddAllKeeps(Empty, vs, base);
    AddAllRegisters(Empty, vs, base);
    ReversePermutes(vs);
  }

  lemma {:induction false} ReversePermutes<T>(xs: seq<T>)
    ensures multiset(Reverse(xs)) == multiset(xs)
  {
    if xs != [] {
      ReversePermutes(xs[1..]);
      assert xs == [xs[0]] + xs[1..];
    }
  }

  // ---------------------------------------------------------------------------------------
  // The unit test
  // ---------------------------------------------------------------------------------------

  /** The first two adds of the `bin` test: a closure holding one reference (8 bytes,
      aligned to 8) creates a 1024-byte segment at `base`; `253_u16` then goes into the same
      segment, right after it, and the most recent registry entry reads back its two
      little-endian bytes, 253. The second `base` is never used. */
  lemma StoreU16(c: Value, base: nat, base2: nat, id: nat)
    requires c.align == 8 && Size(c) == 8
    ensures var a1 := Add(Empty, c, {}, base);
            var v := Value(id, 2, [0xFD, 0x00]);
            var r := Add(a1.arena, v, {}, base2);
            var start := Padding(base, 8);
            && a1.dropped == [] && r.dropped == []
            && |r.arena.segments| == 1 && r.arena.segments[0].capacity == FIRST_SEGMENT
            && |r.arena.entries| == 2 && r.arena.entries[1].value == c
            && r.arena.entries[0] == Entry(Placed(0, start + 8), v)
            && r.arena.segments[0].cells[start + 8..start + 10] == [Some(0xFD), Some(0x00)]
  {
    var a1 := Add(Empty, c, {}, base);
    AddCreatesSegment(Empty, c, {}, base);
    var v := Value(id, 2, [0xFD, 0x00]);
    var start := Padding(base, 8);
    var seg := a1.arena.segments[0];
    assert |seg.cells| == start + 8 && seg.base == base && seg.capacity == FIRST_SEGMENT;
    var x := base + start + 8;
    assert x % 2 == 0 by {
      var q := (base + start) / 8;
      ModUnique(base + start, 8, q, 0);
      ModUnique(x, 2, 4 * q + 4, 0);
    }
    assert Padding(x, 2) == 0;
    assert FitAt(seg, 2, 2) == Some(start + 8);
    assert FindFit(a1.arena.segments, {}, 2, 2, 0) == Some(Fit(0, start + 8));
    AddReuses(a1.arena, v, {}, base2);
    AddValid(Empty, c, {}, base);
    AddValid(a1.arena, v, {}, base2);
    var r := Add(a1.arena, v, {}, base2);
    assert Resident(r.arena.segments, r.arena.entries[0]);
  }

  /** Zero-sized values take no storage: adding any number of them keeps the segments and
      drops none of them. */
  lemma {:induction false} ZeroSizedAddsKeepSegments(a: Arena, vs: seq<Value>, base: nat)
    requires forall i :: 0 <= i < |vs| ==> Size(vs[i]) == 0
    ensures AddAll(a, vs, base).arena.segments == a.segments
    ensures AddAll(a, vs, base).dropped == []
    decreases |vs|
  {
    if vs != [] {
      ZeroSizedAddsKeepSegments(Add(a, vs[0], {}, base).arena, vs[1..], base);
    }
  }
}
