/** The recency list of src/list.c: a doubly linked list of pages, most
    recently used first, that keeps its length in a counter. */
module RecencyList {
  import opened Pages

  /** `list_node_t`: the page a node holds is fixed when the node is made;
      the links are rewired in place. */
  class Node {
    var next: Node?
    var prev: Node?
    const page: Page

    /** `create_list_node` (zeroed by `calloc`) followed by setting its page. */
    constructor (page: Page)
      ensures this.page == page && next == null && prev == null
    {
      this.page := page;
      next, prev := null, null;
    }
  }

  /** The list with its node `i` moved to the front and every other node
      kept in order. */
  function Promote<T>(s: seq<T>, i: nat): (r: seq<T>)
    requires i < |s|
  {
    [s[i]] + s[..i] + s[i + 1..]
  }

  /** Promotion keeps the length and the elements, puts the promoted one
      first and the others in their old order around it. */
  lemma PromoteFacts<T>(s: seq<T>, i: nat)
    requires i < |s|
    ensures |Promote(s, i)| == |s|
    ensures Promote(s, i)[0] == s[i]
    ensures forall j :: 0 <= j < i ==> Promote(s, i)[j + 1] == s[j]
    ensures forall j :: i < j < |s| ==> Promote(s, i)[j] == s[j]
    ensures multiset(Promote(s, i)) == multiset(s)
  {
    calc {
      multiset(s);
      { assert s == s[..i] + [s[i]] + s[i + 1..]; }
      multiset(s[..i]) + multiset{s[i]} + multiset(s[i + 1..]);
      multiset(Promote(s, i));
    }
  }

  /** The position of the first occurrence of `x` in `s`. */
  function IndexOf<T(==)>(s: seq<T>, x: T): (i: nat)
    requires x in s
    ensures i < |s| && s[i] == x && x !in s[..i]
  {
    if s[0] == x then 0 else 1 + IndexOf(s[1..], x)
  }

  /** Promoting the head changes nothing. */
  lemma PromoteHead<T>(s: seq<T>)
    requires |s| > 0
    ensures Promote(s, 0) == s
  {
  }

  class List {
    var head: Node?
    var tail: Node?
    /** `size_t size`: the counter that `list_length` returns. */
    var size: nat

    /** The nodes from head to tail. */
    ghost var Nodes: seq<Node>
    ghost var Repr: set<object>

    /** The chain from `head` to `tail` runs through `Nodes` in order, both
        ways, with no node twice. */
    ghost predicate Linked()
      reads this, Repr
    {
      && this in Repr
      && (forall i :: 0 <= i < |Nodes| ==> Nodes[i] in Repr)
      && (Nodes == [] ==> head == null && tail == null)
      && (Nodes != [] ==> head == Nodes[0] && tail == Nodes[|Nodes| - 1])
      && (Nodes != [] ==> Nodes[0].prev == null && Nodes[|Nodes| - 1].next == null)
      && (forall i, j :: 0 <= i && j == i + 1 && j < |Nodes| ==>
            Nodes[i].next == Nodes[j] && Nodes[j].prev == Nodes[i])
      && (forall i, j :: 0 <= i < j < |Nodes| ==> Nodes[i] != Nodes[j])
    }

    /** The list invariant: a well-linked chain whose counter is its length. */
    ghost predicate Valid()
      reads this, Repr
    {
      Linked() && size == |Nodes|
    }

    /** The pages from most to least recently used. */
    ghost function Pages(): (ps: seq<Page>)
      reads this
      ensures |ps| == |Nodes|
      ensures forall i :: 0 <= i < |Nodes| ==> ps[i] == Nodes[i].page
    {
      seq(|Nodes|, i requires 0 <= i < |Nodes| reads this => Nodes[i].page)
    }

    /** `create_list`: an empty list. */
    constructor ()
      ensures Valid() && fresh(Repr)
      ensures Nodes == [] && head == null && tail == null && size == 0
    {
      head, tail, size := null, null, 0;
      Nodes := [];
      Repr := {this};
    }

    /** `list_node_get_page`: the page held by one of the list's nodes. */
    function NodeGetPage(node: Node): (p: Page)
      reads this
      requires node in Nodes
      ensures p == Pages()[IndexOf(Nodes, node)]
    {
      node.page
    }

    /** `is_list_empty`: both ends are null. */
    function IsEmpty(): (b: bool)
      reads this, Repr
      requires Valid()
      ensures b <==> Nodes == []
      ensures b <==> size == 0
    {
      head == null && tail == null
    }

    /** `list_length`: the counter. */
    function Length(): (n: nat)
      reads this, Repr
      requires Valid()
      ensures n == |Nodes|
      ensures n == 0 <==> IsEmpty()
    {
      size
    }

    /** `list_front`: the head's page, or null on an empty list. */
    function Front(): (p: Page?)
      reads this, Repr
      requires Valid()
      ensures p == null <==> Nodes == []
      ensures p != null ==> p == Pages()[0]
    {
      if !IsEmpty() then head.page else null
    }

    /** `list_back`: the tail's page, or null on an empty list. */
    function Back(): (p: Page?)
      reads this, Repr
      requires Valid()
      ensures p == null <==> Nodes == []
      ensures p != null ==> p == Pages()[|Nodes| - 1]
    {
      if !IsEmpty() then tail.page else null
    }

    /** `list_push_front`: a new node holding `page` becomes the head (and
        the tail too when the list was empty). */
    method PushFront(page: Page) returns (node: Node)
      requires Valid()
      modifies Repr
      ensures Valid() && fresh(node) && Repr == old(Repr) + {node}
      ensures Nodes == [node] + old(Nodes) && node.page == page
      ensures head == node && size == old(size) + 1
      ensures old(Nodes) == [] ==> tail == node
      ensures old(Nodes) != [] ==> tail == old(tail)
    {
      ghost var s := Nodes;
      node := new Node(page);
      node.next := head;
      if head != null {
        head.prev := node;
      } else {
        tail := node;
      }
      head := node;
      size := size + 1;
      Nodes := [node] + Nodes;
      Repr := Repr + {node};
      forall i, j | 1 <= i && j == i + 1 && j < |Nodes|
        ensures Nodes[i].next == Nodes[j] && Nodes[j].prev == Nodes[i]
      {
        assert Nodes[i] == s[i - 1] && Nodes[j] == s[i] && s[i] != s[0];
      }
    }

    /** `list_push_back`: a new node holding `page` becomes the tail (and
        the head too when the list was empty). */
    method PushBack(page: Page) returns (node: Node)
      requires Valid()
      modifies Repr
      ensures Valid() && fresh(node) && Repr == old(Repr) + {node}
      ensures Nodes == old(Nodes) + [node] && node.page == page
      ensures tail == node && size == old(size) + 1
      ensures old(Nodes) == [] ==> head == node
      ensures old(Nodes) != [] ==> head == old(head)
    {
      ghost var s := Nodes;
      node := new Node(page);
      node.prev := tail;
      if tail != null {
        tail.next := node;
      } else {
        head := node;
      }
      tail := node;
      size := size + 1;
      Nodes := Nodes + [node];
      Repr := Repr + {node};
      forall i, j | 0 <= i && j == i + 1 && j < |s|
        ensures Nodes[i].next == Nodes[j] && Nodes[j].prev == Nodes[i]
      {
        assert Nodes[i] == s[i] && Nodes[j] == s[j] && s[i] != s[|s| - 1];
      }
    }

    /** `list_pop_front`: the head node leaves the list. Callers never pop an
        empty list (the C code would dereference null). */
    method PopFront()
      requires Valid() && Nodes != []
      modifies Repr
      ensures Valid() && Repr == old(Repr) - {old(head)}
      ensures Nodes == old(Nodes)[1..] && size == old(size) - 1
      ensures Nodes == [] ==> head == null && tail == null
    {
      ghost var s := Nodes;
      var node := head;
      assert node == s[0] && (|s| == 1 ==> node.next == null);
      assert |s| > 1 ==> node.next == s[1] && s[1] in Repr;
      head := node.next;
      if head != null {
        head.prev := null;
      } else {
        tail := null;
      }
      size := size - 1;
      Nodes := Nodes[1..];
      Repr := Repr - {node};
      forall k | 0 <= k < |Nodes| ensures Nodes[k] in Repr {
        assert Nodes[k] == s[k + 1] && s[k + 1] != s[0];
      }
      forall i, j | 0 <= i && j == i + 1 && j < |Nodes|
        ensures Nodes[i].next == Nodes[j] && Nodes[j].prev == Nodes[i]
      {
        assert Nodes[i] == s[i + 1] && Nodes[j] == s[j + 1] && s[j + 1] != s[1];
      }
    }

    /** `list_pop_back`: the tail node leaves the list. */
    method PopBack()
      requires Valid() && Nodes != []
      modifies Repr
      ensures Valid() && Repr == old(Repr) - {old(tail)}
      ensures Nodes == old(Nodes)[..|old(Nodes)| - 1] && size == old(size) - 1
      ensures Nodes == [] ==> head == null && tail == null
    {
      ghost var s := Nodes;
      var node := tail;
      assert node == s[|s| - 1] && (|s| == 1 ==> node.prev == null);
      assert |s| > 1 ==> node.prev == s[|s| - 2] && s[|s| - 2] in Repr;
      tail := node.prev;
      if tail != null {
        tail.next := null;
      } else {
        head := null;
      }
      size := size - 1;
      Nodes := Nodes[..|Nodes| - 1];
      Repr := Repr - {node};
      forall k | 0 <= k < |Nodes| ensures Nodes[k] in Repr {
        assert Nodes[k] == s[k] && s[k] != s[|s| - 1];
      }
      forall i, j | 0 <= i && j == i + 1 && j < |Nodes|
        ensures Nodes[i].next == Nodes[j] && Nodes[j].prev == Nodes[i]
      {
        assert Nodes[i] == s[i] && Nodes[j] == s[j] && s[i] != s[|s| - 2];
      }
    }

    /** The first half of `list_move_upfront`: splice the node at position
        `i > 0` out of the chain, patching its predecessor's `next` and its
        successor's `prev`, or the tail when it was the tail. */
    method Unlink(node: Node, ghost i: nat)
      requires Linked() && 0 < i < |Nodes| && Nodes[i] == node
      modifies Repr
      ensures Linked() && Repr == old(Repr) && node in Repr
      ensures Nodes == old(Nodes[..i] + Nodes[i + 1..]) && node !in Nodes
      ensures head == old(head) && size == old(size)
      ensures tail == if i == |old(Nodes)| - 1 then old(Nodes[i - 1]) else old(tail)
    {
      ghost var s := Nodes;
      assert node.prev == s[i - 1] && s[i - 1] in Repr;
      assert i == |s| - 1 ==> node.next == null;
      assert i < |s| - 1 ==> node.next == s[i + 1] && s[i + 1] in Repr;
      node.prev.next := node.next;
      if node != tail {
        node.next.prev := node.prev;
      } else {
        tail := node.prev;
      }
      Nodes := s[..i] + s[i + 1..];
      forall k | 0 <= k < |Nodes|
        ensures Nodes[k] == (if k < i then s[k] else s[k + 1]) && Nodes[k] != node
      {
      }
      forall a, b | 0 <= a && b == a + 1 && b < |Nodes|
        ensures Nodes[a].next == Nodes[b] && Nodes[b].prev == Nodes[a]
      {
        if b < i {
          assert s[a] != s[i - 1] && (i < |s| - 1 ==> s[b] != s[i + 1]);
        } else if a >= i {
          assert s[a + 1] != s[i - 1] && s[b + 1] != s[i + 1];
        }
      }
    }

    /** The second half of `list_move_upfront`: link a node that is not in
        the chain in front of the head. */
    method LinkFront(node: Node)
      requires Linked() && Nodes != [] && node in Repr && node !in Nodes
      modifies Repr
      ensures Linked() && Repr == old(Repr)
      ensures Nodes == [node] + old(Nodes)
      ensures head == node && tail == old(tail) && size == old(size)
    {
      ghost var s := Nodes;
      head.prev := node;
      node.next := head;
      node.prev := null;
      head := node;
      Nodes := [node] + s;
      forall a, b | 1 <= a && b == a + 1 && b < |Nodes|
        ensures Nodes[a].next == Nodes[b] && Nodes[b].prev == Nodes[a]
      {
        assert Nodes[a] == s[a - 1] && Nodes[b] == s[a] && s[a] != s[0];
      }
    }

    /** `list_move_upfront`: unlink `node` and relink it as the head; a no-op
        when it already is the head. No node is created or destroyed. */
    method MoveUpfront(node: Node)
      requires Valid() && node in Nodes
      modifies Repr
      ensures Valid() && Repr == old(Repr)
      ensures Nodes == Promote(old(Nodes), IndexOf(old(Nodes), node))
      ensures head == node && size == old(size)
      ensures old(head) == node ==> Nodes == old(Nodes)
      ensures node == old(tail) && old(head) != node ==>
                tail == old(Nodes)[|old(Nodes)| - 2]
      ensures node != old(tail) ==> tail == old(tail)
    {
      ghost var s := Nodes;
      ghost var i := IndexOf(s, node);
      if node == head {
        PromoteHead(s);
        return;
      }
      Unlink(node, i);
      LinkFront(node);
      assert Nodes == Promote(s, i);
    }

    /** `delete_list`: pop from the back until the list is empty; there is
        one pop per node. */
    method Delete() returns (ghost pops: nat)
      requires Valid()
      modifies Repr
      ensures Valid() && Nodes == [] && head == null && tail == null
      ensures Repr <= old(Repr)
      ensures pops == old(size)
    {
      pops := 0;
      while !IsEmpty()
        invariant Valid() && Repr <= old(Repr)
        invariant pops + |Nodes| == old(size)
        decreases |Nodes|
      {
        PopBack();
        pops := pops + 1;
      }
    }
  }
}
