/** The segmented append-only vector of `src/concurrent_vec.rs`: a `ConcurrentList` of
    `ConcurrentSlice`s, the most recently created slice at the head.

    `Contents` is the order `into_iter` yields: slices head to tail, and within each slice
    the most recently reserved slot first. `Parts` mirrors the contents of each slice, in
    list order, so that the vector's view is a plain function of values. */
module ConcurrentVecs {
  import opened Common
  import opened ConcurrentLists
  import opened ConcurrentSlices

  /** The capacity of the first slice. */
  const FIRST_CAPACITY: nat := 4

  /** The capacity `push` gives a new slice, from the capacity of the head slice if there
      is one. */
  function NewSliceCapacity(head: Option<nat>): (c: nat)
    ensures head.None? ==> c == FIRST_CAPACITY
    ensures head.Some? ==> c == Grow(head.value) && head.value <= c
  {
    match head
    case None => FIRST_CAPACITY
    case Some(h) => Grow(h)
  }

  /** A reference into the vector: a slice and a slot in it. */
  datatype Ref<T> = Ref(slice: ConcurrentSlice<T>, slot: nat)

  /** The values of slices with contents `parts`, most recent first. */
  function Flat<T>(parts: seq<seq<T>>): seq<T>
  {
    if parts == [] then [] else Reverse(parts[0]) + Flat(parts[1..])
  }

  /** The capacity of the slice created `k` slices after the first: 4, then grown each
      time. */
  function CapacityAt(k: nat): (c: nat)
    ensures c >= FIRST_CAPACITY
    ensures k == 0 ==> c == FIRST_CAPACITY
  {
    if k == 0 then FIRST_CAPACITY else Grow(CapacityAt(k - 1))
  }

  /** The growth rule, seen sequentially, for slices with contents `parts`: the oldest
      slice has capacity 4, each newer one the grown capacity of the one after it, every
      slice but the head is full, and the head is never empty. */
  ghost predicate Growth<T>(slices: seq<ConcurrentSlice<T>>, parts: seq<seq<T>>)
  {
    && |parts| == |slices|
    && (forall i :: 0 <= i < |slices| ==> slices[i].Capacity() == CapacityAt(|slices| - 1 - i))
    && (forall i :: 0 < i < |slices| ==> |parts[i]| == slices[i].Capacity())
    && (slices != [] ==> |parts[0]| > 0)
  }

  /** No array of cells appears twice, so no slice does either. */
  ghost predicate Distinct<T>(slices: seq<ConcurrentSlice<T>>)
  {
    forall i, j :: 0 <= i < j < |slices| ==> slices[i].data != slices[j].data
  }

  /** A fresh slice with its own cells, linked in front, keeps the slices distinct. */
  lemma DistinctCons<T>(s: ConcurrentSlice<T>, rest: seq<ConcurrentSlice<T>>)
    requires Distinct(rest)
    requires forall i :: 0 <= i < |rest| ==> rest[i] != s && rest[i].data != s.data
    ensures Distinct([s] + rest)
  {
    var all := [s] + rest;
    assert forall i :: 0 < i < |all| ==> all[i] == rest[i - 1];
  }

  /** A slice of the grown capacity holding one value, linked in front of slices whose head
      is full, keeps the growth rule. */
  lemma GrowthCons<T>(s: ConcurrentSlice<T>, v: T,
                      rest: seq<ConcurrentSlice<T>>, parts: seq<seq<T>>)
    requires Growth(rest, parts)
    requires rest == [] ==> s.Capacity() == FIRST_CAPACITY
    requires rest != [] ==> s.Capacity() == Grow(rest[0].Capacity())
                            && |parts[0]| == rest[0].Capacity()
    ensures Growth([s] + rest, [[v]] + parts)
  {
    var all, allParts := [s] + rest, [[v]] + parts;
    assert forall i :: 0 < i < |all| ==> all[i] == rest[i - 1] && allParts[i] == parts[i - 1];
  }

  /** Adding a value to a non-full head slice keeps the growth rule. */
  lemma GrowthHead<T>(slices: seq<ConcurrentSlice<T>>, parts: seq<seq<T>>, v: T)
    requires Growth(slices, parts) && slices != []
    ensures Growth(slices, parts[0 := parts[0] + [v]])
  {
  }

  /** Adding a value to the head slice puts it at the front of the flattening. */
  lemma FlatHead<T>(parts: seq<seq<T>>, v: T)
    requires parts != []
    ensures Flat(parts[0 := parts[0] + [v]]) == [v] + Flat(parts)
  {
    var rest := parts[1..];
    assert parts == [parts[0]] + rest;
    assert parts[0 := parts[0] + [v]] == [parts[0] + [v]] + rest;
    FlatCons(parts[0], rest);
    FlatCons(parts[0] + [v], rest);
    ReverseSnoc(parts[0], v);
  }

  /** Linking a slice with contents `p` in front puts its reversal in front. */
  lemma FlatCons<T>(p: seq<T>, parts: seq<seq<T>>)
    ensures Flat([p] + parts) == Reverse(p) + Flat(parts)
  {
    assert ([p] + parts)[1..] == parts;
  }

  class ConcurrentVec<T> {
    const data: ConcurrentList<ConcurrentSlice<T>>
    ghost var Parts: seq<seq<T>>
    ghost var Repr: set<object>

    ghost predicate Valid()
      reads this, Repr
    {
      && this in Repr && data in Repr
      && data.Valid()
      && |Parts| == |data.Contents|
      && (forall i :: 0 <= i < |data.Contents| ==>
            && data.Contents[i] in Repr && data.Contents[i].data in Repr
            && data.Contents[i].Valid() && data.Contents[i].Contents == Parts[i])
      && Distinct(data.Contents)
      && Growth(data.Contents, Parts)
    }

    /** The values in `into_iter` order. */
    ghost function Contents(): seq<T>
      reads this
    {
      Flat(Parts)
    }

    /** `new`: no slices. */
    constructor ()
      ensures Valid() && fresh(Repr)
      ensures Contents() == []
    {
      data := new ConcurrentList();
      Parts := [];
      new;
      Repr := {this, data};
    }

    /** `push`: put `v` into the head slice; if there is no head or it is full, first link a
        new slice of `NewSliceCapacity` in front. Always succeeds and returns a reference to
        the slot now holding `v`. */
    method Push(v: T) returns (r: Ref<T>)
      requires Valid()
      modifies Repr
      ensures Valid() && fresh(Repr - old(Repr))
      ensures Contents() == [v] + old(Contents())
      ensures r.slice in Repr && r.slot < r.slice.len <= r.slice.data.Length
      ensures r.slice.data[r.slot] == Some(v)
      ensures r.slice == data.Contents[0] && r.slot == r.slice.len - 1
      ensures old(data.Contents != [] && data.Contents[0].len < data.Contents[0].Capacity()) ==>
                data.Contents == old(data.Contents) && Parts == old(Parts)[0 := old(Parts)[0] + [v]]
      ensures old(data.Contents == [] || data.Contents[0].len == data.Contents[0].Capacity()) ==>
                && fresh(r.slice) && r.slot == 0
                && data.Contents == [r.slice] + old(data.Contents) && Parts == [[v]] + old(Parts)
    {
      var head := data.Head();
      if head.Some? {
        var attempt := head.value.Push(v);
        if attempt.Ok? {
          FlatHead(Parts, v);
          GrowthHead(data.Contents, Parts, v);
          Parts := Parts[0 := Parts[0] + [v]];
          r := Ref(head.value, attempt.value);
          return;
        }
      }
      r := PushSlice(v);
    }

    /** The slow path of `push`: with no head, or a full one, link a new slice of
        `NewSliceCapacity` in front and put `v` into it. */
    method PushSlice(v: T) returns (r: Ref<T>)
      requires Valid()
      requires data.Contents != [] ==> data.Contents[0].len == data.Contents[0].Capacity()
      modifies Repr
      ensures Valid()
      ensures fresh(Repr - old(Repr))
      ensures Contents() == [v] + old(Contents())
      ensures r.slice in Repr && r.slot < r.slice.len <= r.slice.data.Length
      ensures r.slice.data[r.slot] == Some(v)
      ensures fresh(r.slice) && r.slot == 0 && r.slice.len == 1
      ensures data.Contents == [r.slice] + old(data.Contents) && Parts == [[v]] + old(Parts)
    {
      ghost var slices0, parts0 := data.Contents, Parts;
      var head := data.Head();
      var capacity := NewSliceCapacity(if head.Some? then Some(head.value.Capacity()) else None);
      var slice := new ConcurrentSlice(capacity);
      ghost var added: set<object> := {slice, slice.data};
      assert fresh(added);
      var _ := data.Push(slice);
      var pushed := slice.Push(v);
      // The push into a fresh slice of capacity at least 4 cannot fail (`unreachable!()`).
      r := Ref(slice, pushed.value);
      Repr, Parts := Repr + added, [[v]] + Parts;
      DistinctCons(slice, slices0);
      GrowthCons(slice, v, slices0, parts0);
      assert data.Contents == [slice] + slices0 && slice.Contents == [v];
      LinkedValid(slice, slices0, parts0);
      FlatCons([v], parts0);
      ReverseSnoc([], v);
    }

    /** A new valid slice linked in front of valid slices keeps the vector valid. */
    lemma LinkedValid(s: ConcurrentSlice<T>, slices0: seq<ConcurrentSlice<T>>,
                      parts0: seq<seq<T>>)
      requires this in Repr && data in Repr && data.Valid()
      requires data.Contents == [s] + slices0 && Parts == [s.Contents] + parts0
      requires s in Repr && s.data in Repr && s.Valid()
      requires |slices0| == |parts0|
      requires forall i :: 0 <= i < |slices0| ==>
                 && slices0[i] in Repr && slices0[i].data in Repr
                 && slices0[i].Valid() && slices0[i].Contents == parts0[i]
      requires Distinct(data.Contents) && Growth(data.Contents, Parts)
      ensures Valid()
    {
      forall i | 0 < i < |data.Contents|
        ensures data.Contents[i] in Repr && data.Contents[i].data in Repr
        ensures data.Contents[i].Valid() && data.Contents[i].Contents == Parts[i]
      {
        assert data.Contents[i] == slices0[i - 1] && Parts[i] == parts0[i - 1];
      }
    }

    /** An assignment through a reference `push` returned, into the slice at position `i` of
        the list: exactly that value changes, and every other reference stays valid. */
    method Write(ghost i: nat, r: Ref<T>, v: T)
      requires Valid() && i < |data.Contents| && data.Contents[i] == r.slice
      requires r.slot < |Parts[i]|
      modifies this, r.slice, r.slice.data
      ensures Valid() && Repr == old(Repr)
      ensures data.Contents == old(data.Contents)
      ensures Parts == old(Parts)[i := old(Parts)[i][r.slot := v]]
    {
      r.slice.Write(r.slot, v);
      Parts := Parts[i := r.slice.Contents];
      forall j | 0 <= j < |data.Contents| && j != i
        ensures data.Contents[j].Valid() && data.Contents[j].Contents == Parts[j]
      {
        assert data.Contents[j].data != r.slice.data by {
          if j < i {
            assert data.Contents[j].data != data.Contents[i].data;
          } else {
            assert data.Contents[i].data != data.Contents[j].data;
          }
        }
      }
    }

    /** `len`: the sum of the slice lengths. */
    method Len() returns (n: nat)
      requires Valid()
      ensures n == |Contents()|
    {
      var slices := data.Iter();
      n := 0;
      var i := 0;
      while i < |slices|
        invariant 0 <= i <= |slices|
        invariant n + |Flat(Parts[i..])| == |Contents()|
      {
        assert Parts[i..][1..] == Parts[i + 1..];
        n := n + slices[i].Len();
        i := i + 1;
      }
    }

    /** `is_empty`: no slice exists; since the head slice is never empty this is exactly
        "no values". */
    function IsEmpty(): (b: bool)
      reads this, Repr
      requires Valid()
      ensures b <==> Contents() == []
      ensures b <==> data.Contents == []
    {
      data.IsEmpty()
    }

    /** `into_iter` (and `iter_mut`): the slices from the head, each one's values reversed. */
    method IntoIter() returns (s: seq<T>)
      requires Valid()
      ensures s == Contents()
    {
      var slices := data.Iter();
      s := [];
      var i := 0;
      while i < |slices|
        invariant 0 <= i <= |slices|
        invariant s + Flat(Parts[i..]) == Contents()
      {
        assert Parts[i..][1..] == Parts[i + 1..];
        s := s + Reverse(slices[i].IntoIter());
        i := i + 1;
      }
    }
  }

  /** One step of the module's test: `push` makes `len` grow by one and the vector
      non-empty. */
  method PushAndCount(vec: ConcurrentVec<nat>, k: nat)
    requires vec.Valid() && |vec.Contents()| == k
    modifies vec.Repr
    ensures vec.Valid() && fresh(vec.Repr - old(vec.Repr))
    ensures vec.Contents() == [k] + old(vec.Contents())
  {
    var _ := vec.Push(k);
    var len := vec.Len();
    assert len == k + 1 && !vec.IsEmpty();
  }

  /** `n` pushes of 0, 1, ..., n - 1 into a new vector. */
  method PushCount(n: nat) returns (vec: ConcurrentVec<nat>)
    ensures vec.Valid() && fresh(vec.Repr)
    ensures |vec.Contents()| == n
    ensures forall i :: 0 <= i < n ==> vec.Contents()[i] == n - 1 - i
  {
    vec := new ConcurrentVec<nat>();
    var len := vec.Len();
    assert len == 0 && vec.IsEmpty();
    for k := 0 to n
      invariant vec.Valid() && fresh(vec.Repr)
      invariant vec.Contents() == Countdown(k)
    {
      ghost var before := vec.Contents();
      PushAndCount(vec, k);
      assert vec.Contents() == [k] + before == Countdown(k + 1);
    }
  }

  /** The values `k - 1` down to 0. */
  function Countdown(k: nat): (s: seq<nat>)
    ensures |s| == k
    ensures forall i :: 0 <= i < k ==> s[i] == k - 1 - i
  {
    if k == 0 then [] else [k - 1] + Countdown(k - 1)
  }

  /** A push of the module's test into a head slice with room: slot `|Parts[0]|` of it. */
  method PushFits<T>(vec: ConcurrentVec<T>, v: T) returns (r: Ref<T>)
    requires vec.Valid() && vec.data.Contents != []
    requires |vec.Parts[0]| < vec.data.Contents[0].Capacity()
    modifies vec.Repr
    ensures vec.Valid() && fresh(vec.Repr - old(vec.Repr))
    ensures vec.data.Contents == old(vec.data.Contents)
    ensures r == Ref(vec.data.Contents[0], old(|vec.Parts[0]|))
    ensures vec.Parts == old(vec.Parts)[0 := old(vec.Parts)[0] + [v]]
  {
    r := vec.Push(v);
  }

  /** A push of the module's test with no head slice or a full one: slot 0 of a new head. */
  method PushLinks<T>(vec: ConcurrentVec<T>, v: T) returns (r: Ref<T>)
    requires vec.Valid()
    requires vec.data.Contents == [] || |vec.Parts[0]| == vec.data.Contents[0].Capacity()
    modifies vec.Repr
    ensures vec.Valid() && fresh(vec.Repr - old(vec.Repr))
    ensures r.slot == 0 && vec.data.Contents == [r.slice] + old(vec.data.Contents)
    ensures vec.Parts == [[v]] + old(vec.Parts)
  {
    r := vec.Push(v);
  }

  /** The first two pushes of the module's test: a new slice, in slots 0 and 1. */
  method PushTwo<T>(a0: T, a1: T) returns (vec: ConcurrentVec<T>, r0: Ref<T>, r1: Ref<T>)
    ensures vec.Valid() && fresh(vec.Repr)
    ensures vec.data.Contents == [r0.slice] && vec.Parts == [[a0, a1]]
    ensures r0.slice.Capacity() == 4 && r1.slice == r0.slice && r0.slot == 0 && r1.slot == 1
  {
    vec := new ConcurrentVec<T>();
    r0 := PushLinks(vec, a0);
    assert fresh(vec.Repr);
    assert vec.data.Contents == [r0.slice] && vec.Parts == [[a0]] && r0.slice.Capacity() == 4;
    r1 := PushFits(vec, a1);
    assert [a0] + [a1] == [a0, a1];
    assert vec.Parts == [[a0] + [a1]];
  }

  /** The first four pushes of the module's test: they fill the first slice, in slots 0 to
      3. */
  method PushFour<T>(a0: T, a1: T, a2: T, a3: T)
    returns (vec: ConcurrentVec<T>, r0: Ref<T>, r1: Ref<T>, r2: Ref<T>, r3: Ref<T>)
    ensures vec.Valid() && fresh(vec.Repr)
    ensures vec.data.Contents == [r0.slice] && vec.Parts == [[a0, a1, a2, a3]]
    ensures r1.slice == r0.slice && r2.slice == r0.slice && r3.slice == r0.slice
    ensures r0.slot == 0 && r1.slot == 1 && r2.slot == 2 && r3.slot == 3
  {
    vec, r0, r1 := PushTwo(a0, a1);
    r2 := PushFits(vec, a2);
    assert fresh(vec.Repr);
    ghost var p2 := [a0, a1] + [a2];
    assert vec.Parts == [p2];
    r3 := PushFits(vec, a3);
    ghost var p3 := p2 + [a3];
    Snoc4(a0, a1, a2, a3);
    assert vec.Parts == [p3];
  }

  /** Four values appended one at a time. */
  lemma Snoc4<T>(a0: T, a1: T, a2: T, a3: T)
    ensures ([a0, a1] + [a2]) + [a3] == [a0, a1, a2, a3]
  {
  }

  /** The assignments of the module's test, through the five references `push` returned. */
  method WriteAll<T>(vec: ConcurrentVec<T>, r0: Ref<T>, r1: Ref<T>, r2: Ref<T>, r3: Ref<T>,
                     r4: Ref<T>, b0: T, b1: T, b2: T, b3: T, b4: T)
    requires vec.Valid() && vec.data.Contents == [r4.slice, r0.slice]
    requires |vec.Parts| == 2 && |vec.Parts[0]| == 1 && |vec.Parts[1]| == 4
    requires r1.slice == r0.slice && r2.slice == r0.slice && r3.slice == r0.slice
    requires r0.slot == 0 && r1.slot == 1 && r2.slot == 2 && r3.slot == 3 && r4.slot == 0
    modifies vec, r0.slice, r0.slice.data, r4.slice, r4.slice.data
    ensures vec.Valid() && vec.Repr == old(vec.Repr)
    ensures vec.Parts == [[b4], [b0, b1, b2, b3]]
  {
    vec.Write(1, r0, b0);
    vec.Write(1, r1, b1);
    vec.Write(1, r2, b2);
    vec.Write(1, r3, b3);
    assert vec.Parts[1] == [b0, b1, b2, b3];
    vec.Write(0, r4, b4);
    assert vec.Parts[0] == [b4];
  }

  /** The module's test, for any five values `a0` to `a4` pushed in turn and any five values
      `b0` to `b4` then assigned through the returned references (in the test, "0" to "4" and
      the same strings with "x" appended): `into_iter` yields `b4` down to `b0`, so each
      reference named the slot its own push reserved. The fifth push links a second slice,
      so the first four references point into the older one. */
  method PushScenario<T>(a0: T, a1: T, a2: T, a3: T, a4: T, b0: T, b1: T, b2: T, b3: T, b4: T)
  {
    var vec, r0, r1, r2, r3 := PushFour(a0, a1, a2, a3);
    var r4 := PushLinks(vec, a4);
    assert vec.data.Contents == [r4.slice, r0.slice] && vec.Parts == [[a4], [a0, a1, a2, a3]];
    WriteAll(vec, r0, r1, r2, r3, r4, b0, b1, b2, b3, b4);
    FlatTwo(b4, b0, b1, b2, b3);
    var n := vec.Len();
    assert n == 5 && !vec.IsEmpty();
    var all := vec.IntoIter();
    assert all == [b4, b3, b2, b1, b0];
  }

  /** The order the module's test expects, from its two slices. */
  lemma FlatTwo<T>(b4: T, b0: T, b1: T, b2: T, b3: T)
    ensures Flat([[b4], [b0, b1, b2, b3]]) == [b4, b3, b2, b1, b0]
  {
    assert [b0, b1] == [b0] + [b1];
    assert [b0, b1, b2] == [b0, b1] + [b2];
    assert [b0, b1, b2, b3] == [b0, b1, b2] + [b3];
    ReverseSnoc([b0], b1);
    ReverseSnoc([b0, b1], b2);
    ReverseSnoc([b0, b1, b2], b3);
    assert [[b4], [b0, b1, b2, b3]] == [[b4]] + [[b0, b1, b2, b3]];
    assert [[b0, b1, b2, b3]] == [[b0, b1, b2, b3]] + [];
    FlatCons([b4], [[b0, b1, b2, b3]]);
    FlatCons([b0, b1, b2, b3], []);
  }
}
