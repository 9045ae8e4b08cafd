/** The insert-only singly-linked stack of `src/concurrent_list.rs`.

    A node is written once, before it is published as the new head, and is never changed
    afterwards, so its fields are constants here. The compare-and-swap retry loop of `push`
    is one sequential step. `Contents` is the abstract view: the values from head to tail,
    that is, most recently pushed first. */
module ConcurrentLists {
  import opened Common

  class Node<T> {
    const value: T
    const next: Node?<T>
    /** The values of this node and of every node after it. */
    ghost const Content: seq<T>

    ghost predicate Valid()
      decreases |Content|
    {
      if next == null then Content == [value]
      else Content == [value] + next.Content && next.Valid()
    }

    constructor (value: T, next: Node?<T>)
      requires next != null ==> next.Valid()
      ensures Valid()
      ensures this.value == value && this.next == next
      ensures Content == [value] + (if next == null then [] else next.Content)
    {
      this.value := value;
      this.next := next;
      this.Content := [value] + (if next == null then [] else next.Content);
    }
  }

  class ConcurrentList<T> {
    var head: Node?<T>
    ghost var Contents: seq<T>

    ghost predicate Valid()
      reads this
    {
      if head == null then Contents == []
      else head.Valid() && head.Content == Contents
    }

    /** `new`: the head pointer starts out null. */
    constructor ()
      ensures Valid() && Contents == []
    {
      head := null;
      Contents := [];
    }

    /** `head`: the most recently pushed value, if any. */
    function Head(): (r: Option<T>)
      reads this
      requires Valid()
      ensures r.None? <==> Contents == []
      ensures r.Some? ==> r.value == Contents[0]
    {
      if head == null then None else Some(head.value)
    }

    /** `iter` (and `iter_mut`): follow the `next` links from the head until null. */
    method Iter() returns (s: seq<T>)
      requires Valid()
      ensures s == Contents
    {
      var node := head;
      s := [];
      while node != null
        invariant node == null ==> s == Contents
        invariant node != null ==> node.Valid() && s + node.Content == Contents
        decreases if node == null then 0 else |node.Content|
      {
        s := s + [node.value];
        node := node.next;
      }
    }

    /** `len`: the number of values the iteration yields. */
    method Len() returns (n: nat)
      requires Valid()
      ensures n == |Contents|
    {
      var s := Iter();
      n := |s|;
    }

    /** `is_empty`: the head pointer is null. */
    function IsEmpty(): (b: bool)
      reads this
      requires Valid()
      ensures b <==> Contents == []
    {
      head == null
    }

    /** `push`: link a new node in front of the current head; the result is the value now
        at the head (for a class type, the very object pushed). */
    method Push(v: T) returns (r: T)
      requires Valid()
      modifies this
      ensures Valid()
      ensures Contents == [v] + old(Contents)
      ensures r == v && Head() == Some(r)
    {
      var node := new Node(v, head);
      head := node;
      Contents := [v] + Contents;
      r := node.value;
    }

    /** `pop`: unlink and return the head, or `None` on an empty list. */
    method Pop() returns (r: Option<T>)
      requires Valid()
      modifies this
      ensures Valid()
      ensures old(Contents) == [] ==> r == None && Contents == []
      ensures old(Contents) != [] ==> r == Some(old(Contents)[0]) && Contents == old(Contents)[1..]
    {
      if head == null {
        r := None;
      } else {
        r := Some(head.value);
        head := head.next;
        Contents := Contents[1..];
      }
    }

    /** `drain`: pop until the list is empty; the values come out most recent first. */
    method Drain() returns (s: seq<T>)
      requires Valid()
      modifies this
      ensures Valid()
      ensures s == old(Contents) && Contents == []
    {
      s := [];
      while true
        invariant Valid()
        invariant old(Contents) == s + Contents
        decreases |Contents|
      {
        var popped := Pop();
        if popped.None? {
          break;
        }
        s := s + [popped.value];
      }
    }

    /** `into_iter`: the consuming form of `drain`, with the same order. */
    method IntoIter() returns (s: seq<T>)
      requires Valid()
      modifies this
      ensures Valid()
      ensures s == old(Contents) && Contents == []
    {
      s := Drain();
    }
  }

  /** The `push` test: two pushes and the consuming iteration. */
  method PushScenario()
  {
    var list := new ConcurrentList<string>();
    var r := list.Push("Hello World");
    assert r == "Hello World" && list.Head() == Some(r);
    var all := list.Iter();
    assert all == [r];
    var r2 := list.Push("Foo");
    all := list.Iter();
    assert all == [r2, r];
    all := list.IntoIter();
    assert all == ["Foo", "Hello World"];
  }

  /** The `pop` test: three pushes pop in reverse order, then `None`; three more pushes, and
      the consuming iteration yields the last one pushed first. */
  method PopScenario()
  {
    var list := new ConcurrentList<string>();
    var n := list.Len();
    assert n == 0 && list.IsEmpty() && list.Head() == None;
    var _ := list.Push("1");
    var _ := list.Push("2");
    var _ := list.Push("3");
    var a := list.Pop();
    var b := list.Pop();
    var c := list.Pop();
    var d := list.Pop();
    assert a == Some("3") && b == Some("2") && c == Some("1") && d == None;
    var _ := list.Push("1");
    var _ := list.Push("2");
    var _ := list.Push("3");
    var iter := list.IntoIter();
    assert iter[0] == "3";
  }
}
