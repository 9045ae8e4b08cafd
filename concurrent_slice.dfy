/** The fixed-capacity append-only slice of `src/concurrent_slice.rs`.

    The boxed slice of possibly-uninitialised cells is an array of `Option<T>`: `None` is an
    uninitialised cell. The conditional fetch-and-increment of `len` is one sequential step.
    A `&mut T` handed out by `push` is the slot index it refers to; `Write` is an assignment
    through such a reference. */
module ConcurrentSlices {
  import opened Common

  class ConcurrentSlice<T> {
    const data: array<Option<T>>
    var len: nat
    /** The initialised prefix `data[..len]`, in slot order. */
    ghost var Contents: seq<T>

    ghost predicate Valid()
      reads this, data
    {
      && len <= data.Length
      && |Contents| == len
      && (forall i :: 0 <= i < len ==> data[i] == Some(Contents[i]))
      && (forall i :: len <= i < data.Length ==> data[i] == None)
    }

    /** `new(capacity)`: `capacity` uninitialised cells and length 0. */
    constructor (capacity: nat)
      ensures Valid() && fresh(data)
      ensures data.Length == capacity && Contents == []
    {
      data := new Option<T>[capacity](_ => None);
      len := 0;
      Contents := [];
    }

    /** `capacity`: the number of cells, fixed for the slice's whole life. */
    function Capacity(): (c: nat)
      ensures c == data.Length
    {
      data.Length
    }

    /** `len`: the number of initialised cells, never above the capacity. */
    function Len(): (n: nat)
      reads this, data
      requires Valid()
      ensures n == |Contents| && n <= Capacity()
    {
      len
    }

    /** `push`: reserve slot `len` if it is below the capacity and write `v` there; on a full
        slice hand `v` back untouched. */
    method Push(v: T) returns (r: Result<nat, T>)
      requires Valid()
      modifies this, data
      ensures Valid()
      ensures r.Ok? <==> old(len) < data.Length
      ensures r.Ok? ==> r.value == old(len) && data[r.value] == Some(v)
                        && Contents == old(Contents) + [v]
      ensures r.Err? ==> r.error == v && len == old(len) && Contents == old(Contents)
                         && data[..] == old(data[..])
    {
      if len == data.Length {
        return Err(v);
      }
      var oldLen := len;
      len := len + 1;
      data[oldLen] := Some(v);
      Contents := Contents + [v];
      r := Ok(oldLen);
    }

    /** An assignment through the reference `push` returned for `slot`. */
    method Write(slot: nat, v: T)
      requires Valid() && slot < len
      modifies this, data
      ensures Valid()
      ensures len == old(len) && Contents == old(Contents)[slot := v]
    {
      data[slot] := Some(v);
      Contents := Contents[slot := v];
    }

    /** `into_iter` (and `iter_mut`): the first `len` cells, in slot order, with every
        assignment made through a reference. */
    function IntoIter(): (s: seq<T>)
      reads this, data
      requires Valid()
      ensures s == Contents
    {
      Unwrap(data[..len])
    }

    /** `drain`: set the length to 0 and move the values of slots `0..len` out, in slot
        order, leaving the cells uninitialised. */
    method Drain() returns (s: seq<T>)
      requires Valid()
      modifies this, data
      ensures Valid()
      ensures s == old(Contents) && Contents == [] && len == 0
    {
      var oldLen := len;
      len := 0;
      s := [];
      var i := 0;
      while i < oldLen
        invariant len == 0 && 0 <= i <= oldLen <= data.Length
        invariant s == old(Contents)[..i]
        invariant forall j :: 0 <= j < i ==> data[j] == None
        invariant forall j :: i <= j < oldLen ==> data[j] == old(data[j])
        invariant forall j :: oldLen <= j < data.Length ==> data[j] == None
      {
        s := s + [data[i].value];
        data[i] := None;
        i := i + 1;
      }
      Contents := [];
    }

    /** `clear` (also the slice's `Drop`): drain and drop every value, in slot order. */
    method Clear() returns (dropped: seq<T>)
      requires Valid()
      modifies this, data
      ensures Valid()
      ensures dropped == old(Contents) && Contents == []
    {
      dropped := Drain();
    }
  }

  /** The values inside a run of initialised cells. */
  function Unwrap<T>(cells: seq<Option<T>>): (s: seq<T>)
    requires forall i :: 0 <= i < |cells| ==> cells[i].Some?
    ensures |s| == |cells|
    ensures forall i :: 0 <= i < |cells| ==> cells[i] == Some(s[i])
  {
    if cells == [] then [] else [cells[0].value] + Unwrap(cells[1..])
  }

  /** The `test_empty` test: a capacity-0 slice rejects every push. */
  method EmptyScenario()
  {
    var slice := new ConcurrentSlice<int>(0);
    assert slice.Capacity() == 0 && slice.Len() == 0;
    var r := slice.Push(1);
    assert r == Err(1);
    var _ := slice.Clear();
  }

  /** Three pushes into an empty slice of capacity 3 take slots 0, 1 and 2; a fourth is
      handed back. */
  method PushThree<T>(slice: ConcurrentSlice<T>, a: T, b: T, c: T, d: T)
    returns (r1: Result<nat, T>, r2: Result<nat, T>, r3: Result<nat, T>, r4: Result<nat, T>)
    requires slice.Valid() && slice.len == 0 && slice.Capacity() == 3
    modifies slice, slice.data
    ensures slice.Valid() && slice.Contents == [a, b, c]
    ensures r1 == Ok(0) && r2 == Ok(1) && r3 == Ok(2) && r4 == Err(d)
  {
    r1 := slice.Push(a);
    r2 := slice.Push(b);
    r3 := slice.Push(c);
    r4 := slice.Push(d);
  }

  /** The `test_push` test: three pushes fill a capacity-3 slice, the fourth is handed back,
      drain gives them in order, and assignments through the references are seen by
      `into_iter`. */
  method PushScenario()
  {
    var slice := new ConcurrentSlice<string>(3);
    assert slice.Capacity() == 3;
    var _, _, _, _ := PushThree(slice, "1", "2", "3", "4");
    assert slice.IntoIter() == ["1", "2", "3"];
    var drained := slice.Drain();
    assert drained == ["1", "2", "3"];
    var v1, v2, v3, v4 := PushThree(slice, "1", "2", "3", "");
    slice.Write(v1.value, "1x");
    slice.Write(v2.value, "2y");
    slice.Write(v3.value, "3z");
    assert slice.IntoIter() == ["1x", "2y", "3z"];
  }
}
