/** The older list of clist.c: the same doubly linked list of pages as
    src/list.c but without a counter, so its length is found by walking the
    chain, and its push operations return nothing. */
module CList {
  import opened Pages

  /** `list_node_t` of clist.c. */
  class Node {
    var next: Node?
    var prev: Node?
    const page: Page

    /** `create_list_node` (zeroed by `calloc`) followed by setting its page. */
    constructor (page: Page)
      ensures this.page == page && next == null && prev == null
    {
      this.page := page;
      next, prev := null, null;
    }
  }

  class List {
    var head: Node?
    var tail: Node?

    /** The nodes from head to tail. */
    ghost var Nodes: seq<Node>
    ghost var Repr: set<object>

    /** The chain from `head` to `tail` runs through `Nodes` in order, both
        ways, with no node twice. */
    ghost predicate Valid()
      reads this, Repr
    {
      && this in Repr
      && (forall i :: 0 <= i < |Nodes| ==> Nodes[i] in Repr)
      && (Nodes == [] ==> head == null && tail == null)
      && (Nodes != [] ==> head == Nodes[0] && tail == Nodes[|Nodes| - 1])
      && (Nodes != [] ==> Nodes[0].prev == null && Nodes[|Nodes| - 1].next == null)
      && (forall i, j :: 0 <= i && j == i + 1 && j < |Nodes| ==>
            Nodes[i].next == Nodes[j] && Nodes[j].prev == Nodes[i])
      && (forall i, j :: 0 <= i < j < |Nodes| ==> Nodes[i] != Nodes[j])
    }

    /** The pages from head to tail. */
    ghost function Pages(): (ps: seq<Page>)
      reads this
      ensures |ps| == |Nodes|
      ensures forall i :: 0 <= i < |Nodes| ==> ps[i] == Nodes[i].page
    {
      seq(|Nodes|, i requires 0 <= i < |Nodes| reads this => Nodes[i].page)
    }

    /** `create_list`: an empty list. */
    constructor ()
      ensures Valid() && fresh(Repr)
      ensures Nodes == [] && head == null && tail == null
    {
      head, tail := null, null;
      Nodes := [];
      Repr := {this};
    }

    /** `is_list_empty`: both ends are null. */
    function IsEmpty(): (b: bool)
      reads this, Repr
      requires Valid()
      ensures b <==> Nodes == []
    {
      head == null && tail == null
    }

    /** `list_length`: 0 for an empty list, otherwise count the nodes by
        following `next` from the head until it runs out. */
    method Length() returns (n: nat)
      requires Valid()
      ensures n == |Nodes|
    {
      if IsEmpty() {
        return 0;
      }
      var count := 1;
      var next := head.next;
      while next != null
        invariant 1 <= count <= |Nodes|
        invariant next == if count < |Nodes| then Nodes[count] else null
        decreases |Nodes| - count
      {
        assert Nodes[count].next == if count + 1 < |Nodes| then Nodes[count + 1] else null;
        count := count + 1;
        next := next.next;
      }
      n := count;
    }

    /** `list_front`: the head's page, or null on an empty list. */
    function Front(): (p: Page?)
      reads this, Repr
      requires Valid()
      ensures p == null <==> Nodes == []
      ensures p != null ==> p == Pages()[0]
    {
      if !IsEmpty() then head.page else null
    }

    /** `list_back`: the tail's page, or null on an empty list. */
    function Back(): (p: Page?)
      reads this, Repr
      requires Valid()
      ensures p == null <==> Nodes == []
      ensures p != null ==> p == Pages()[|Nodes| - 1]
    {
      if !IsEmpty() then tail.page else null
    }

    /** `list_push_front`: a new node holding `page` becomes the head (and
        the tail too when the list was empty). */
    method PushFront(page: Page)
      requires Valid()
      modifies Repr
      ensures Valid() && fresh(Repr - old(Repr))
      ensures Pages() == [page] + old(Pages())
      ensures old(Nodes) != [] ==> tail == old(tail)
    {
      ghost var s := Nodes;
      var node := new Node(page);
      node.next := head;
      if head != null {
        head.prev := node;
      } else {
        tail := node;
      }
      head := node;
      Nodes := [node] + Nodes;
      Repr := Repr + {node};
      forall i, j | 1 <= i && j == i + 1 && j < |Nodes|
        ensures Nodes[i].next == Nodes[j] && Nodes[j].prev == Nodes[i]
      {
        assert Nodes[i] == s[i - 1] && Nodes[j] == s[i] && s[i] != s[0];
      }
    }

    /** `list_push_back`: a new node holding `page` becomes the tail (and
        the head too when the list was empty). */
    method PushBack(page: Page)
      requires Valid()
      modifies Repr
      ensures Valid() && fresh(Repr - old(Repr))
      ensures Pages() == old(Pages()) + [page]
      ensures old(Nodes) != [] ==> head == old(head)
    {
      ghost var s := Nodes;
      var node := new Node(page);
      node.prev := tail;
      if tail != null {
        tail.next := node;
      } else {
        head := node;
      }
      tail := node;
      Nodes := Nodes + [node];
      Repr := Repr + {node};
      forall i, j | 0 <= i && j == i + 1 && j < |s|
        ensures Nodes[i].next == Nodes[j] && Nodes[j].prev == Nodes[i]
      {
        assert Nodes[i] == s[i] && Nodes[j] == s[j] && s[i] != s[|s| - 1];
      }
    }

    /** `list_pop_front`: the head node leaves the list. Callers never pop an
        empty list (the C code would dereference null). */
    method PopFront()
      requires Valid() && Nodes != []
      modifies Repr
      ensures Valid() && Repr == old(Repr) - {old(head)}
      ensures Nodes == old(Nodes)[1..] && Pages() == old(Pages())[1..]
      ensures Nodes == [] ==> head == null && tail == null
    {
      ghost var s := Nodes;
      var node := head;
      assert node == s[0] && (|s| == 1 ==> node.next == null);
      assert |s| > 1 ==> node.next == s[1] && s[1] in Repr;
      head := node.next;
      if head != null {
        head.prev := null;
      } else {
        tail := null;
      }
      Nodes := Nodes[1..];
      Repr := Repr - {node};
      forall k | 0 <= k < |Nodes| ensures Nodes[k] in Repr {
        assert Nodes[k] == s[k + 1] && s[k + 1] != s[0];
      }
      forall i, j | 0 <= i && j == i + 1 && j < |Nodes|
        ensures Nodes[i].next == Nodes[j] && Nodes[j].prev == Nodes[i]
      {
        assert Nodes[i] == s[i + 1] && Nodes[j] == s[j + 1] && s[j + 1] != s[1];
      }
    }

    /** `list_pop_back`: the tail node leaves the list. */
    method PopBack()
      requires Valid() && Nodes != []
      modifies Repr
      ensures Valid() && Repr == old(Repr) - {old(tail)}
      ensures Nodes == old(Nodes)[..|old(Nodes)| - 1]
      ensures Pages() == old(Pages())[..|old(Nodes)| - 1]
      ensures Nodes == [] ==> head == null && tail == null
    {
      ghost var s := Nodes;
      var node := tail;
      assert node == s[|s| - 1] && (|s| == 1 ==> node.prev == null);
      assert |s| > 1 ==> node.prev == s[|s| - 2] && s[|s| - 2] in Repr;
      tail := node.prev;
      if tail != null {
        tail.next := null;
      } else {
        head := null;
      }
      Nodes := Nodes[..|Nodes| - 1];
      Repr := Repr - {node};
      forall k | 0 <= k < |Nodes| ensures Nodes[k] in Repr {
        assert Nodes[k] == s[k] && s[k] != s[|s| - 1];
      }
      forall i, j | 0 <= i && j == i + 1 && j < |Nodes|
        ensures Nodes[i].next == Nodes[j] && Nodes[j].prev == Nodes[i]
      {
        assert Nodes[i] == s[i] && Nodes[j] == s[j] && s[i] != s[|s| - 2];
      }
    }

    /** `delete_list`: pop from the back until the list is empty; the loop
        runs once per node. */
    method Delete() returns (ghost pops: nat)
      requires Valid()
      modifies Repr
      ensures Valid() && Nodes == [] && head == null && tail == null
      ensures Repr <= old(Repr)
      ensures pops == |old(Nodes)|
    {
      pops := 0;
      while !IsEmpty()
        invariant Valid() && Repr <= old(Repr)
        invariant pops + |Nodes| == |old(Nodes)|
        decreases |Nodes|
      {
        PopBack();
        pops := pops + 1;
      }
    }
  }

  /** The unit test of the list (tests/test.c): a fresh list has length 0;
      after pushing page1 at the front it has length 1 and page1 is both its
      front and its back; pushing page2 at the back then makes page2 the back. */
  method PushPopScenario(page1: Page, page2: Page)
    returns (len0: nat, len1: nat, front: Page?, back: Page?, len2: nat, back2: Page?)
    ensures len0 == 0 && len1 == 1 && front == page1 && back == page1
    ensures len2 == 2 && back2 == page2
  {
    var list := new List();
    len0 := list.Length();
    list.PushFront(page1);
    len1 := list.Length();
    front := list.Front();
    back := list.Back();
    list.PushBack(page2);
    len2 := list.Length();
    back2 := list.Back();
  }
}
