/** The doubly linked list and its iterator: src/collections/linked_list.c. */
module LinkedLists {
  import opened Options

  class Node<T> {
    const content: T
    var next: Node?<T>
    var prev: Node?<T>
    constructor (content: T, next: Node?<T>, prev: Node?<T>)
      ensures this.content == content && this.next == next && this.prev == prev
    {
      this.content, this.next, this.prev := content, next, prev;
    }
  }

  class LinkedList<T> {
    var size: nat
    var head: Node?<T>
    var tail: Node?<T>
    /** The nodes from head to tail. */
    ghost var nodes: seq<Node<T>>
    /** The sequence the list stands for. */
    ghost var contents: seq<T>

    /** Following `next` from head visits the nodes and ends at tail. */
    ghost predicate Linked()
      reads this, nodes
    {
      && size == |nodes| == |contents|
      && (forall i {:trigger contents[i]} {:trigger nodes[i].content} ::
            0 <= i < |nodes| ==> contents[i] == nodes[i].content)
      && head == (if nodes == [] then null else nodes[0])
      && tail == (if nodes == [] then null else nodes[|nodes| - 1])
      && (forall i {:trigger nodes[i].next} ::
            0 <= i < |nodes| ==> nodes[i].next == if i + 1 < |nodes| then nodes[i + 1] else null)
    }

    /** And no node is visited twice. */
    ghost predicate Chain()
      reads this, nodes
    {
      Linked() && forall i, j :: 0 <= i < j < |nodes| ==> nodes[i] != nodes[j]
    }

    /** Every `prev` undoes a `next`. */
    ghost predicate Valid()
      reads this, nodes
    {
      && Chain()
      && (forall i {:trigger nodes[i].prev} ::
            0 <= i < |nodes| ==> nodes[i].prev == if i == 0 then null else nodes[i - 1])
    }

    constructor ()
      ensures Valid() && contents == [] && fresh(nodes)
    {
      size, head, tail, nodes, contents := 0, null, null, [], [];
    }

    method IsEmpty() returns (r: bool)
      requires Chain()
      ensures r == (contents == [])
    {
      r := size == 0;
    }

    method PushTail(content: T)
      requires Chain()
      modifies this, nodes
      ensures Chain() && (old(Valid()) ==> Valid())
      ensures contents == old(contents) + [content]
      ensures nodes[..|nodes| - 1] == old(nodes) && fresh(nodes[|nodes| - 1])
    {
      var newTail := new Node(content, null, tail);
      if tail != null {
        tail.next := newTail;
      }
      if head == null {
        head := newTail;
      }
      tail := newTail;
      size := size + 1;
      nodes, contents := nodes + [newTail], contents + [content];
    }

    method PushHead(content: T)
      requires Chain()
      modifies this, nodes
      ensures Chain() && (old(Valid()) ==> Valid())
      ensures contents == [content] + old(contents)
      ensures nodes[1..] == old(nodes) && fresh(nodes[0])
    {
      var newHead := new Node(content, head, null);
      if head != null {
        head.prev := newHead;
      }
      if tail == null {
        tail := newHead;
      }
      head := newHead;
      size := size + 1;
      nodes, contents := [newHead] + nodes, [content] + contents;
    }

    method PopHead() returns (content: T)
      requires Chain() && contents != []
      modifies this, nodes
      ensures Chain() && (old(Valid()) ==> Valid())
      ensures [content] + contents == old(contents)
      ensures nodes == old(nodes)[1..]
    {
      var newHead := head.next;
      content := head.content;
      if newHead != null {
        newHead.prev := null;
      }
      head := newHead;
      size := size - 1;
      if size == 0 {
        tail := null;
      }
      nodes, contents := nodes[1..], contents[1..];
    }

    /** Needs the `prev` link of the tail, which a concatenation does not set. */
    method PopTail() returns (content: T)
      requires Valid() && contents != []
      modifies this, nodes
      ensures Valid()
      ensures contents + [content] == old(contents)
      ensures nodes == old(nodes)[..|old(nodes)| - 1]
    {
      var newTail := tail.prev;
      content := tail.content;
      if newTail != null {
        newTail.next := null;
      }
      tail := newTail;
      size := size - 1;
      if size == 0 {
        head := null;
      }
      nodes, contents := nodes[..|nodes| - 1], contents[..|contents| - 1];
    }
  }

  /** The nodes of two lists have nothing in common. */
  ghost predicate Disjoint<T>(a: LinkedList<T>, b: LinkedList<T>)
    reads a, b
  {
    forall i, j :: 0 <= i < |a.nodes| && 0 <= j < |b.nodes| ==> a.nodes[i] != b.nodes[j]
  }

  /** The branch of an empty first list: a copy of the other's fields. */
  method Adopt<T>(a: LinkedList<T>, b: LinkedList<T>)
    requires a != b && a.Chain() && b.Chain() && a.nodes == []
    modifies a
    ensures a.Chain() && b.Chain() && (old(b.Valid()) ==> a.Valid())
    ensures a.nodes == b.nodes == old(b.nodes) && a.contents == b.contents == old(b.contents)
  {
    a.size, a.head, a.tail, a.nodes, a.contents := b.size, b.head, b.tail, b.nodes, b.contents;
  }

  /** The branch of two non-empty lists. */
  method Join<T>(a: LinkedList<T>, b: LinkedList<T>)
    requires a != b && a.Chain() && b.Chain() && a.nodes != [] && b.nodes != [] && Disjoint(a, b)
    modifies a, a.nodes
    ensures a.Chain() && b.Chain() && b.nodes != [] && (old(b.Valid()) ==> !a.Valid())
    ensures a.nodes == old(a.nodes) + b.nodes && a.contents == old(a.contents) + b.contents
  {
    a.tail.next := b.head;
    a.size := a.size + b.size;
    a.tail := b.tail;
    ghost var seam := |a.nodes|;
    a.nodes, a.contents := a.nodes + b.nodes, a.contents + b.contents;
    assert a.nodes[seam] == b.nodes[0];
    assert old(b.Valid()) ==> a.nodes[seam].prev == null;
  }

  /** Read forward, the first sequence followed by the second. The seam has no `prev` link, so of two
      well-linked lists the result is well linked exactly when one of them is empty. */
  method Concat<T>(a: LinkedList<T>, b: LinkedList<T>)
    requires a != b && a.Chain() && b.Chain() && Disjoint(a, b)
    modifies a, a.nodes
    ensures a.Chain() && b.Chain()
    ensures a.nodes == old(a.nodes) + b.nodes && a.contents == old(a.contents) + b.contents
    ensures old(a.Valid()) && old(b.Valid()) ==> (a.Valid() <==> old(a.nodes) == [] || b.nodes == [])
  {
    if a.size == 0 {
      ghost var n, c := a.nodes + b.nodes, a.contents + b.contents;
      assert n == b.nodes && c == b.contents;
      Adopt(a, b);
    } else if b.size != 0 {
      Join(a, b);
    } else {
      assert old(a.nodes) + b.nodes == a.nodes && old(a.contents) + b.contents == a.contents;
    }
  }

  lemma Head<T>(s: seq<T>, i: nat)
    requires i < |s|
    ensures s[i..] == [s[i]] + s[i + 1..]
  {
  }

  lemma AppendMoves<T>(a: seq<T>, c: T, b: seq<T>)
    ensures a + ([c] + b) == (a + [c]) + b
  {
  }

  class ListIterator<T> {
    var consumed: bool
    var cursor: Node?<T>
    var list: LinkedList<T>
    /** The position of the cursor in the list. */
    ghost var pos: nat

    ghost predicate Valid()
      reads this, list, list.nodes
    {
      && list.Linked() && pos <= |list.nodes|
      && cursor == (if pos < |list.nodes| then list.nodes[pos] else null)
      && (consumed ==> pos < |list.nodes|)
    }

    /** What is still to be returned. */
    ghost function Pending(): seq<T>
      requires Valid()
      reads this, list, list.nodes
    {
      list.contents[if consumed then pos + 1 else pos..]
    }

    /** linked_list_it_alloc followed by linked_list_it_set_list. */
    constructor (list: LinkedList<T>)
      requires list.Linked()
      ensures this.list == list && Valid() && Pending() == list.contents
    {
      this.list := list;
      cursor := list.head;
      consumed := false;
      pos := 0;
    }

    method HasNext() returns (r: bool)
      requires Valid()
      modifies this`consumed, this`cursor, this`pos
      ensures Valid() && Pending() == old(Pending()) && r == (Pending() != [])
      ensures r ==> !consumed && cursor != null && cursor.content == list.contents[pos]
    {
      if cursor == null {
        return false;
      }
      if consumed {
        consumed := false;
        cursor := cursor.next;
        pos := pos + 1;
      }
      r := cursor != null;
    }

    method Next() returns (r: bool, content: Option<T>)
      requires Valid()
      modifies this`consumed, this`cursor, this`pos
      ensures Valid() && r == (old(Pending()) != [])
      ensures r ==> content.Some? && old(Pending()) == [content.value] + Pending()
      ensures !r ==> content == None && Pending() == []
    {
      r := HasNext();
      content := None;
      if r {
        Head(list.contents, pos);
        consumed := true;
        content := Some(cursor.content);
      }
    }

    /** Succeeds exactly when n contents were pending, and then has consumed n of them. */
    method Skip(n: int) returns (r: bool)
      requires Valid()
      modifies this`consumed, this`cursor, this`pos
      ensures Valid() && (r <==> 0 <= n <= |old(Pending())|)
      ensures Pending() == if n <= 0 then old(Pending()) else if r then old(Pending())[n..] else []
    {
      ghost var all, done := Pending(), [];
      var left := n;
      while left > 0
        invariant Valid() && all == done + Pending()
        invariant if n > 0 then left == n - |done| >= 0 else left == n && done == []
        modifies this`consumed, this`cursor, this`pos
      {
        var more := HasNext();
        if !more {
          break;
        }
        var _, content := Next();
        AppendMoves(done, content.value, Pending());
        done := done + [content.value];
        left := left - 1;
      }
      r := left == 0;
    }
  }

  method ReadRest<T>(it: ListIterator<T>) returns (read: seq<T>)
    requires it.Valid()
    modifies it`consumed, it`cursor, it`pos
    ensures read == old(it.Pending())
    decreases |it.Pending()|
  {
    read := [];
    var more := it.HasNext();
    if more {
      var _, content := it.Next();
      var rest := ReadRest(it);
      read := [content.value] + rest;
    }
  }

  /** The loop `while (has_next) next`. */
  method ReadForward<T>(list: LinkedList<T>) returns (read: seq<T>)
    requires list.Linked()
    ensures read == list.contents
  {
    var it := new ListIterator(list);
    read := ReadRest(it);
  }

  // ---------------------------------------------------------------- whole runs

  datatype Op<T> = PushAtHead(content: T) | PushAtTail(content: T) | PopAtHead | PopAtTail

  /** The same run on a sequence; popping an empty one is not allowed by the assertions of the source. */
  function RunSpec<T>(ops: seq<Op<T>>): Option<seq<T>> {
    if ops == [] then Some([])
    else match RunSpec(ops[..|ops| - 1])
      case None => None
      case Some(s) =>
        match ops[|ops| - 1]
        case PushAtHead(c) => Some([c] + s)
        case PushAtTail(c) => Some(s + [c])
        case PopAtHead => if s == [] then None else Some(s[1..])
        case PopAtTail => if s == [] then None else Some(s[..|s| - 1])
  }

  lemma {:induction false} PrefixRuns<T>(ops: seq<Op<T>>, i: nat)
    requires i <= |ops| && RunSpec(ops).Some?
    ensures RunSpec(ops[..i]).Some?
  {
    if i == |ops| {
      assert ops[..i] == ops;
    } else {
      assert ops[..|ops| - 1][..i] == ops[..i];
      PrefixRuns(ops[..|ops| - 1], i);
    }
  }

  /** Any run of pushes and pops at both ends keeps a well-formed doubly linked chain standing for the
      sequence, and reading it forward yields that sequence. */
  method Run<T>(ops: seq<Op<T>>) returns (list: LinkedList<T>, read: seq<T>)
    requires RunSpec(ops).Some?
    ensures fresh(list) && list.Valid() && list.contents == RunSpec(ops).value == read
  {
    list := new LinkedList<T>();
    for i := 0 to |ops|
      invariant fresh(list) && (forall j :: 0 <= j < |list.nodes| ==> fresh(list.nodes[j]))
      invariant list.Valid() && RunSpec(ops[..i]) == Some(list.contents)
    {
      PrefixRuns(ops, i + 1);
      assert ops[..i + 1][..i] == ops[..i];
      match ops[i] {
        case PushAtHead(c) => list.PushHead(c);
        case PushAtTail(c) => list.PushTail(c);
        case PopAtHead => var _ := list.PopHead();
        case PopAtTail => var _ := list.PopTail();
      }
    }
    assert ops[..|ops|] == ops;
    read := ReadForward(list);
  }
}
