/** The LRU cache of cache.c: a hash index from key to recency-list node,
    and the recency list of the resident pages, most recently used first. */
module LruCache {
  import opened Pages
  import opened RecencyList
  import HashIndex

  /** The keys of the pages of a node sequence, in order. */
  function KeysOf(nodes: seq<Node>): (ks: seq<Text>)
    ensures |ks| == |nodes|
    ensures forall i :: 0 <= i < |nodes| ==> ks[i] == nodes[i].page.key.text
  {
    seq(|nodes|, i requires 0 <= i < |nodes| => nodes[i].page.key.text)
  }

  lemma KeysOfCons(node: Node, nodes: seq<Node>)
    ensures KeysOf([node] + nodes) == [node.page.key.text] + KeysOf(nodes)
  {
  }

  lemma KeysOfPrefix(nodes: seq<Node>, j: nat)
    requires j <= |nodes|
    ensures KeysOf(nodes[..j]) == KeysOf(nodes)[..j]
  {
  }

  predicate Distinct<T(==)>(s: seq<T>)
  {
    forall i, j :: 0 <= i < j < |s| ==> s[i] != s[j]
  }

  /** The least-recently-used policy on the resident keys (or on the list
      nodes that hold them), most recent first: a resident element moves to
      the front; a new one goes to the front, after the least recently used
      one is dropped when `cap` are resident. */
  function LruStep<T(==)>(keys: seq<T>, k: T, cap: nat): (r: seq<T>)
    requires cap > 0
    ensures r != [] && r[0] == k
    ensures |r| == if k in keys || |keys| == cap then |keys| else |keys| + 1
  {
    if k in keys then Promote(keys, IndexOf(keys, k))
    else if |keys| == cap then [k] + keys[..|keys| - 1]
    else [k] + keys
  }

  /** The accessed key is the most recent one afterwards, the capacity is
      never exceeded, and no key is resident twice. */
  lemma LruStepFacts<T>(keys: seq<T>, k: T, cap: nat)
    requires cap > 0 && |keys| <= cap && Distinct(keys)
    ensures |LruStep(keys, k, cap)| <= cap
    ensures LruStep(keys, k, cap)[0] == k
    ensures Distinct(LruStep(keys, k, cap))
  {
    if k in keys {
      var i := IndexOf(keys, k);
      PromoteFacts(keys, i);
      var r := Promote(keys, i);
      forall a, b | 0 <= a < b < |r| ensures r[a] != r[b] {
        var a' := if a == 0 then i else if a <= i then a - 1 else a;
        var b' := if b == 0 then i else if b <= i then b - 1 else b;
        assert r[a] == keys[a'] && r[b] == keys[b'] && a' != b';
      }
    } else {
      var rest := if |keys| == cap then keys[..|keys| - 1] else keys;
      assert forall j :: 0 <= j < |rest| ==> rest[j] == keys[j];
      assert LruStep(keys, k, cap) == [k] + rest;
    }
  }

  /** Which keys are resident after an access: the accessed key, and every
      key resident before except the least recently used one when a miss
      found the cache full. */
  lemma LruStepMembers<T>(keys: seq<T>, k: T, cap: nat, x: T)
    requires cap > 0 && |keys| <= cap && Distinct(keys)
    ensures x in LruStep(keys, k, cap) <==>
              x == k || (x in keys && (k in keys || |keys| < cap || x != keys[|keys| - 1]))
  {
    if k in keys {
      PromoteFacts(keys, IndexOf(keys, k));
      assert x in LruStep(keys, k, cap) <==> x in multiset(keys);
    } else if |keys| == cap {
      var rest := keys[..|keys| - 1];
      assert LruStep(keys, k, cap) == [k] + rest;
      assert x in rest <==> x in keys && x != keys[|keys| - 1] by {
        if x in keys && x != keys[|keys| - 1] {
          var j :| 0 <= j < |keys| && keys[j] == x;
          assert rest[j] == x;
        }
        if x in rest {
          var j :| 0 <= j < |rest| && rest[j] == x;
          assert keys[j] == x && keys[j] != keys[|keys| - 1];
        }
      }
      assert x in [k] + rest <==> x == k || x in rest;
    }
  }

  /** With room for two, the most recent element is still resident after
      one more access, whatever it is. */
  lemma LruStepKeepsFront<T>(keys: seq<T>, k: T, cap: nat)
    requires 2 <= cap && |keys| <= cap && Distinct(keys) && keys != []
    ensures keys[0] in LruStep(keys, k, cap)
  {
    LruStepMembers(keys, k, cap, keys[0]);
  }

  /** Replaying a sequence of accesses from the resident keys `keys`: the
      resident keys at the end and the number of accesses that missed, that
      is, that called the loader. At most one loader call per access. */
  function Replay(keys: seq<Text>, accesses: seq<Text>, cap: nat): (r: (seq<Text>, nat))
    requires cap > 0
    ensures r.1 <= |accesses|
    decreases |accesses|
  {
    if accesses == [] then (keys, 0)
    else
      var rest := Replay(LruStep(keys, accesses[0], cap), accesses[1..], cap);
      (rest.0, rest.1 + if accesses[0] in keys then 0 else 1)
  }

  /** However long the run of accesses, the resident keys stay distinct
      and within capacity. */
  lemma {:induction false} ReplayKeepsBounds(keys: seq<Text>, accesses: seq<Text>, cap: nat)
    requires cap > 0 && |keys| <= cap && Distinct(keys)
    ensures |Replay(keys, accesses, cap).0| <= cap && Distinct(Replay(keys, accesses, cap).0)
    decreases |accesses|
  {
    if accesses != [] {
      LruStepFacts(keys, accesses[0], cap);
      ReplayKeepsBounds(LruStep(keys, accesses[0], cap), accesses[1..], cap);
    }
  }

  const Key0: Text := [107, 101, 121, 48]
  const Key1: Text := [107, 101, 121, 49]
  const Key2: Text := [107, 101, 121, 50]
  const Key3: Text := [107, 101, 121, 51]

  /** With room for three pages, loading key0..key3 evicts key0 after four
      loader calls; going on with key2, key1, key0 promotes key2 and key1,
      so that key0 costs the fifth and last loader call and evicts key3. */
  lemma EvictionScenario()
    ensures Replay([], [Key0, Key1, Key2, Key3], 3) == ([Key3, Key2, Key1], 4)
    ensures Replay([], [Key0, Key1, Key2, Key3, Key2, Key1, Key0], 3) == ([Key0, Key1, Key2], 5)
  {
    ScenarioFirstFour();
    ScenarioTail();
    ReplayConcat([], [Key0, Key1, Key2, Key3], [Key2, Key1, Key0], 3);
    assert [Key0, Key1, Key2, Key3] + [Key2, Key1, Key0] == [Key0, Key1, Key2, Key3, Key2, Key1, Key0];
  }

  /** Replaying two runs of accesses one after the other is replaying the
      second from where the first left off; the misses add up. */
  lemma {:induction false} ReplayConcat(keys: seq<Text>, a: seq<Text>, b: seq<Text>, cap: nat)
    requires cap > 0
    ensures Replay(keys, a + b, cap) ==
              (Replay(Replay(keys, a, cap).0, b, cap).0,
               Replay(keys, a, cap).1 + Replay(Replay(keys, a, cap).0, b, cap).1)
    decreases |a|
  {
    if a == [] {
      assert a + b == b;
    } else {
      assert (a + b)[0] == a[0] && (a + b)[1..] == a[1..] + b;
      ReplayConcat(LruStep(keys, a[0], cap), a[1..], b, cap);
    }
  }

  /** The first four accesses of the scenario miss four times. */
  lemma ScenarioFirstFour()
    ensures Replay([], [Key0, Key1, Key2, Key3], 3) == ([Key3, Key2, Key1], 4)
  {
    ScenarioFill();
    ReplayStep([Key2, Key1, Key0], Key3, [], 3);
    ReplayStep([Key1, Key0], Key2, [Key3], 3);
    ReplayStep([Key0], Key1, [Key2, Key3], 3);
    ReplayStep([], Key0, [Key1, Key2, Key3], 3);
  }

  /** From key3, key2, key1 resident, replaying key2, key1, key0 calls the
      loader once. */
  lemma ScenarioTail()
    ensures Replay([Key3, Key2, Key1], [Key2, Key1, Key0], 3) == ([Key0, Key1, Key2], 1)
  {
    ScenarioRevisit();
    ReplayStep([Key3, Key2, Key1], Key2, [Key1, Key0], 3);
    ReplayStep([Key2, Key3, Key1], Key1, [Key0], 3);
    ReplayStep([Key1, Key2, Key3], Key0, [], 3);
  }

  /** The first four accesses of the scenario all miss; the fourth finds
      the cache full and drops key0. */
  lemma ScenarioFill()
    ensures LruStep([], Key0, 3) == [Key0]
    ensures LruStep([Key0], Key1, 3) == [Key1, Key0]
    ensures LruStep([Key1, Key0], Key2, 3) == [Key2, Key1, Key0]
    ensures LruStep([Key2, Key1, Key0], Key3, 3) == [Key3, Key2, Key1]
  {
    var s3 := [Key2, Key1, Key0];
    assert Key3 !in s3 && s3[..2] == [Key2, Key1];
  }

  /** The last three accesses of the scenario: key2 and key1 hit and move
      to the front, key0 misses and drops key3. */
  lemma ScenarioRevisit()
    ensures LruStep([Key3, Key2, Key1], Key2, 3) == [Key2, Key3, Key1]
    ensures LruStep([Key2, Key3, Key1], Key1, 3) == [Key1, Key2, Key3]
    ensures LruStep([Key1, Key2, Key3], Key0, 3) == [Key0, Key1, Key2]
  {
    assert IndexOf([Key3, Key2, Key1], Key2) == 1;
    assert IndexOf([Key2, Key3, Key1], Key1) == 2;
    assert Key0 !in [Key1, Key2, Key3];
  }

  /** One access, then the rest. */
  lemma ReplayStep(keys: seq<Text>, k: Text, rest: seq<Text>, cap: nat)
    requires cap > 0
    ensures Replay(keys, [k] + rest, cap) ==
              (Replay(LruStep(keys, k, cap), rest, cap).0,
               Replay(LruStep(keys, k, cap), rest, cap).1 + if k in keys then 0 else 1)
  {
    assert ([k] + rest)[1..] == rest;
  }

  /** The hash index and the recency list describe the same pages: every
      key maps to the list node holding that key's page, and every node of
      the list is what its page's key maps to. */
  ghost predicate Indexed(m: map<Text, Node>, nodes: seq<Node>)
  {
    && (forall k :: k in m ==> m[k] in nodes && m[k].page.key.text == k)
    && (forall i :: 0 <= i < |nodes| ==>
          nodes[i].page.key.text in m && m[nodes[i].page.key.text] == nodes[i])
  }

  /** The indexed keys are exactly the keys of the list, each once. */
  lemma IndexedKeys(m: map<Text, Node>, nodes: seq<Node>)
    requires Indexed(m, nodes) && Distinct(nodes)
    ensures forall k :: k in m <==> k in KeysOf(nodes)
    ensures Distinct(KeysOf(nodes))
  {
    forall k ensures k in m <==> k in KeysOf(nodes) {
      if k in m {
        var i := IndexOf(nodes, m[k]);
        assert KeysOf(nodes)[i] == k;
      }
    }
  }

  /** A hit finds the node at the position of its key in the list. */
  lemma IndexedHit(m: map<Text, Node>, nodes: seq<Node>, k: Text)
    requires Indexed(m, nodes) && Distinct(nodes) && k in m
    ensures k in KeysOf(nodes) && IndexOf(KeysOf(nodes), k) == IndexOf(nodes, m[k])
  {
    IndexedKeys(m, nodes);
    var ks := KeysOf(nodes);
    var i := IndexOf(nodes, m[k]);
    assert ks[i] == k;
    forall j | 0 <= j < i ensures ks[j] != k {
      assert nodes[j] != m[k];
    }
  }

  /** The policy on the list nodes and the policy on the resident keys
      agree: taking the keys of the nodes after an access gives the keys
      after the access of the node's key. The node is either resident or
      holds a key that is not indexed. */
  lemma KeysOfLruStep(m: map<Text, Node>, nodes: seq<Node>, n: Node, cap: nat)
    requires cap > 0 && |nodes| <= cap && Indexed(m, nodes) && Distinct(nodes)
    requires n in nodes || n.page.key.text !in m
    ensures KeysOf(LruStep(nodes, n, cap)) == LruStep(KeysOf(nodes), n.page.key.text, cap)
  {
    if n in nodes {
      KeysOfLruHit(m, nodes, n, cap);
    } else {
      IndexedKeys(m, nodes);
      KeysOfLruMiss(nodes, n, cap);
    }
  }

  /** A resident node keeps its key resident: both steps promote the same position. */
  lemma KeysOfLruHit(m: map<Text, Node>, nodes: seq<Node>, n: Node, cap: nat)
    requires cap > 0 && Indexed(m, nodes) && Distinct(nodes) && n in nodes
    ensures KeysOf(LruStep(nodes, n, cap)) == LruStep(KeysOf(nodes), n.page.key.text, cap)
  {
    IndexedKeys(m, nodes);
    IndexedHit(m, nodes, n.page.key.text);
    KeysOfPromote(nodes, IndexOf(nodes, n));
  }

  /** A node whose key is not resident: both steps push to the front and drop the same last entry. */
  lemma KeysOfLruMiss(nodes: seq<Node>, n: Node, cap: nat)
    requires cap > 0 && |nodes| <= cap && n !in nodes && n.page.key.text !in KeysOf(nodes)
    ensures KeysOf(LruStep(nodes, n, cap)) == LruStep(KeysOf(nodes), n.page.key.text, cap)
  {
    if |nodes| == cap {
      KeysOfCons(n, nodes[..|nodes| - 1]);
      KeysOfPrefix(nodes, |nodes| - 1);
    } else {
      KeysOfCons(n, nodes);
    }
  }

  /** Moving a node to the front moves its key to the front. */
  lemma {:induction false} KeysOfPromote(nodes: seq<Node>, i: nat)
    requires i < |nodes|
    ensures KeysOf(Promote(nodes, i)) == Promote(KeysOf(nodes), i)
  {
    PromoteFacts(nodes, i);
    PromoteFacts(KeysOf(nodes), i);
  }

  /** Reordering the list does not disturb the index. */
  lemma IndexedPromote(m: map<Text, Node>, nodes: seq<Node>, i: nat)
    requires Indexed(m, nodes) && i < |nodes|
    ensures Indexed(m, Promote(nodes, i))
  {
    PromoteFacts(nodes, i);
    forall x ensures x in Promote(nodes, i) <==> x in nodes {
      assert x in Promote(nodes, i) <==> x in multiset(Promote(nodes, i));
      assert x in nodes <==> x in multiset(nodes);
    }
  }

  /** Evicting the tail node and its key keeps the index and the list in
      step. */
  lemma IndexedEvict(m: map<Text, Node>, nodes: seq<Node>)
    requires Indexed(m, nodes) && Distinct(nodes) && nodes != []
    ensures nodes[|nodes| - 1].page.key.text in m
    ensures Indexed(m - {nodes[|nodes| - 1].page.key.text}, nodes[..|nodes| - 1])
  {
    var last := nodes[|nodes| - 1];
    var rest := nodes[..|nodes| - 1];
    var m' := m - {last.page.key.text};
    forall k | k in m' ensures m'[k] in rest && m'[k].page.key.text == k {
      var i := IndexOf(nodes, m[k]);
      assert i != |nodes| - 1;
      assert rest[i] == m[k];
    }
    forall i | 0 <= i < |rest|
      ensures rest[i].page.key.text in m' && m'[rest[i].page.key.text] == rest[i]
    {
      assert rest[i] == nodes[i] != last;
    }
  }

  /** A new node at the front, indexed under its page's key, keeps the
      index and the list in step. */
  lemma IndexedPush(m: map<Text, Node>, nodes: seq<Node>, node: Node)
    requires Indexed(m, nodes) && node !in nodes && node.page.key.text !in m
    ensures Indexed(m[node.page.key.text := node], [node] + nodes)
  {
    var nodes' := [node] + nodes;
    forall i | 0 <= i < |nodes'|
      ensures nodes'[i].page.key.text in m[node.page.key.text := node]
    {
      if i > 0 {
        assert nodes'[i] == nodes[i - 1];
      }
    }
  }

  class Cache {
    /** `htable`: key to recency-list node. */
    const index: HashIndex.HashTable
    /** `list`: the resident pages, most recently used first. */
    const list: List
    /** `max_size`: the capacity, fixed at creation. */
    const maxSize: nat
    /** The number of times the loader has been called. */
    ghost var loaderCalls: nat
    /** The objects the cache owns besides itself: the index, the list and
        the list's nodes. */
    ghost var Repr: set<object>

    ghost predicate Valid()
      reads this`Repr, Repr
    {
      && this !in Repr && index in Repr && list in Repr && list.Repr <= Repr
      && index !in list.Repr
      && index.Valid() && list.Valid()
      && 0 < maxSize && list.size <= maxSize && index.nEntries == list.size
      && Indexed(index.Contents, list.Nodes)
    }

    /** The resident keys, most recently used first. */
    ghost function Keys(): seq<Text>
      reads list
    {
      KeysOf(list.Nodes)
    }

    /** The `create_cache` of a positive size: an empty index and an empty
        list. */
    constructor (size: nat)
      requires size > 0
      ensures Valid() && fresh(Repr)
      ensures maxSize == size && Keys() == [] && loaderCalls == 0
    {
      index := new HashIndex.HashTable();
      list := new List();
      maxSize := size;
      loaderCalls := 0;
      new;
      Repr := {index} + list.Repr;
    }

    /** `cache_length`: the number of resident pages, never above the
        capacity and always the number of indexed keys. */
    function Length(): (n: nat)
      reads this`Repr, Repr
      requires Valid()
      ensures n == |Keys()| && n == |index.Contents|
      ensures n <= maxSize
    {
      list.Length()
    }

    /** The eviction of a miss: when the cache is full, drop the tail page
        from the list, then its key from the index, then the page itself.
        Every other node stays where it was, under the same key. */
    method Evict()
      requires Valid()
      modifies Repr
      ensures Valid() && Repr == old(Repr) && loaderCalls == old(loaderCalls)
      ensures list.size < maxSize
      ensures Keys() == if |old(Keys())| == maxSize then old(Keys())[..|old(Keys())| - 1] else old(Keys())
      ensures list.Nodes ==
                if |old(list.Nodes)| == maxSize then old(list.Nodes)[..|old(list.Nodes)| - 1] else old(list.Nodes)
      ensures index.Contents ==
                if |old(Keys())| == maxSize then old(index.Contents) - {old(Keys())[|old(Keys())| - 1]}
                else old(index.Contents)
    {
      if list.Length() == maxSize {
        ghost var ns, m := list.Nodes, index.Contents;
        IndexedEvict(m, ns);
        KeysOfPrefix(ns, |ns| - 1);
        var delPage := list.Back();
        assert delPage.key.text == Keys()[|ns| - 1];
        list.PopBack();
        assert index !in list.Repr;
        label Popped:
        var _ := index.DeleteEntry(delPage.key);
        assert unchanged@Popped(list) && unchanged@Popped(list.Repr);
        assert list.Nodes == ns[..|ns| - 1] && index.Contents == m - {delPage.key.text};
        assert index.Valid() && list.Valid() && Indexed(index.Contents, list.Nodes);
        assert list.Repr <= Repr && index !in list.Repr;
        // delete_page(del_page): the page is not referenced any more.
      }
    }

    /** The insertion of a miss: the new page goes to the front of the list
        and its key into the index, pointing at the new node. */
    method Insert(key: CString, page: Page)
      requires Valid() && list.size < maxSize
      requires key.text !in Keys() && page.key.text == key.text
      modifies this, Repr
      ensures Valid() && loaderCalls == old(loaderCalls)
      ensures list.Nodes != [] && Repr == old(Repr) + {list.Nodes[0]} && fresh(list.Nodes[0])
      ensures Keys() == [key.text] + old(Keys())
      ensures list.Nodes == [list.Nodes[0]] + old(list.Nodes) && list.Nodes[0].page == page
      ensures index.Contents == old(index.Contents)[key.text := list.Nodes[0]]
    {
      ghost var m := index.Contents;
      ghost var ns := list.Nodes;
      IndexedKeys(m, ns);
      var newNode := list.PushFront(page);
      IndexedPush(m, ns, newNode);
      KeysOfCons(newNode, ns);
      assert index !in list.Repr;
      label Pushed:
      index.Put(key, newNode);
      assert unchanged@Pushed(list) && unchanged@Pushed(list.Repr);
      assert list.Nodes == [newNode] + ns && index.Contents == m[key.text := newNode];
      assert index.Valid() && list.Valid() && Indexed(index.Contents, list.Nodes);
      Repr := Repr + {newNode};
      assert list.Repr <= Repr && this !in Repr;
    }

    /** The promotion of a hit: its node moves to the front of the list. */
    method Touch(node: Node)
      requires Valid() && node in list.Nodes
      modifies Repr
      ensures Valid() && Repr == old(Repr) && loaderCalls == old(loaderCalls)
      ensures Keys() == Promote(old(Keys()), IndexOf(old(list.Nodes), node))
      ensures list.Nodes == Promote(old(list.Nodes), IndexOf(old(list.Nodes), node))
      ensures list.Nodes[0] == node && index.Contents == old(index.Contents)
    {
      ghost var i := IndexOf(list.Nodes, node);
      IndexedPromote(index.Contents, list.Nodes, i);
      KeysOfPromote(list.Nodes, i);
      list.MoveUpfront(node);
      PromoteFacts(old(list.Nodes), i);
    }

    /** A miss: the loader supplies the payload of a new page for `key`;
        the least recently used page is evicted if the cache is full; the
        new page goes to the front. */
    method Miss(key: CString, loader: Text -> Text) returns (page: Page)
      requires Valid() && key.text !in Keys()
      modifies this, Repr
      ensures Valid() && list.Nodes != []
      ensures Repr == old(Repr) + {list.Nodes[0]} && fresh(list.Nodes[0])
      ensures Keys() == LruStep(old(Keys()), key.text, maxSize)
      ensures list.Nodes == LruStep(old(list.Nodes), list.Nodes[0], maxSize)
      ensures index.Contents ==
                (if |old(Keys())| == maxSize then old(index.Contents) - {old(Keys())[|old(Keys())| - 1]}
                 else old(index.Contents))[key.text := list.Nodes[0]]
      ensures list.Pages()[0] == page && page.key.text == key.text
      ensures fresh(page) && page.data == loader(key.text)
      ensures loaderCalls == old(loaderCalls) + 1
    {
      ghost var ks, R := Keys(), Repr;
      page := new Page(key.text, loader(key.text));
      loaderCalls := loaderCalls + 1;
      assert Valid() && Keys() == ks && Repr == R;
      Evict();
      Insert(key, page);
      assert Keys() == [key.text] + if |ks| == maxSize then ks[..|ks| - 1] else ks;
      assert list.Nodes[0] !in old(list.Nodes);
    }

    /** A hit on `node`, the node indexed under `key`: its page is the
        result and moves to the front. */
    method Hit(key: CString, node: Node) returns (page: Page)
      requires Valid() && key.text in index.Contents && node == index.Contents[key.text]
      modifies Repr
      ensures Valid() && list.Nodes != [] && Repr == old(Repr)
      ensures Keys() == LruStep(old(Keys()), key.text, maxSize)
      ensures list.Nodes == LruStep(old(list.Nodes), node, maxSize) && index.Contents == old(index.Contents)
      ensures list.Pages()[0] == page && page == node.page && page.key.text == key.text
      ensures loaderCalls == old(loaderCalls)
    {
      IndexedHit(index.Contents, list.Nodes, key.text);
      page := list.NodeGetPage(node);
      Touch(node);
    }

    /** `cached_call`: the page for `key`. On a hit the resident page is
        returned and moved to the front without calling the loader; on a
        miss the loader supplies the page's payload, the least recently
        used page is evicted if the cache is full, and the new page goes to
        the front. Either way the resident keys follow `LruStep`. */
    method CachedCall(key: CString, loader: Text -> Text) returns (page: Page)
      requires Valid()
      modifies this, Repr
      ensures Valid() && list.Nodes != []
      ensures key.text in old(Keys()) ==> Repr == old(Repr)
      ensures key.text !in old(Keys()) ==>
                Repr == old(Repr) + {list.Nodes[0]} && fresh(list.Nodes[0])
      ensures Keys() == LruStep(old(Keys()), key.text, maxSize)
      ensures list.Nodes == LruStep(old(list.Nodes), list.Nodes[0], maxSize)
      ensures forall x :: x in old(index.Contents) && x in index.Contents ==>
                index.Contents[x] == old(index.Contents[x])
      ensures list.Pages()[0] == page && page.key.text == key.text
      ensures key.text in old(Keys()) ==>
                page == old(index.Contents[key.text].page) && loaderCalls == old(loaderCalls)
      ensures key.text !in old(Keys()) ==>
                fresh(page) && page.data == loader(key.text) &&
                loaderCalls == old(loaderCalls) + 1
    {
      IndexedKeys(index.Contents, list.Nodes);
      var node := index.Get(key);
      if node == null {
        page := Miss(key, loader);
      } else {
        page := Hit(key, node);
      }
    }

    /** `delete_cache`: release the index, then every resident page and its
        node from the tail, then the list. `released` lists the pages in
        the order they are released: least recently used first. */
    method Destroy() returns (ghost released: seq<Page>)
      requires Valid()
      modifies Repr
      ensures Valid() && Keys() == [] && index.Contents == map[]
      ensures |released| == |old(list.Nodes)|
      ensures forall i :: 0 <= i < |released| ==>
                released[i] == old(list.Nodes)[|old(list.Nodes)| - 1 - i].page
    {
      var _ := index.Destroy();
      released := ReleasePages(list);
      var _ := list.Delete();
    }
  }

  /** The loop of `delete_cache` (cache.c:28-32): take the back page,
      release it and pop its node, until the list is empty. `released` lists
      the pages in the order they are released. */
  method ReleasePages(list: List) returns (ghost released: seq<Page>)
    requires list.Valid()
    modifies list.Repr
    ensures list.Valid() && list.Nodes == [] && list.Repr <= old(list.Repr)
    ensures |released| == |old(list.Nodes)|
    ensures forall i :: 0 <= i < |released| ==>
              released[i] == old(list.Nodes)[|old(list.Nodes)| - 1 - i].page
  {
    released := [];
    ghost var all := list.Nodes;
    while !list.IsEmpty()
      invariant list.Valid() && list.Repr <= old(list.Repr)
      invariant |list.Nodes| + |released| == |all| && list.Nodes == all[..|list.Nodes|]
      invariant forall i :: 0 <= i < |released| ==> released[i] == all[|all| - 1 - i].page
      decreases list.size
    {
      ghost var last := list.Nodes[|list.Nodes| - 1];
      var page := list.Back();
      assert page == last.page && last == all[|all| - 1 - |released|];
      // delete_page(page)
      released := released + [last.page];
      list.PopBack();
    }
  }

  /** `create_cache`: no cache for a capacity of zero. */
  method CreateCache(size: nat) returns (cache: Cache?)
    ensures cache == null <==> size == 0
    ensures cache != null ==>
              fresh(cache) && fresh(cache.Repr) && cache.Valid() && cache.maxSize == size && cache.Keys() == []
  {
    if size == 0 {
      return null;
    }
    cache := new Cache(size);
  }

  /** Asking twice in a row for the same key calls the loader at most once,
      and both calls return the same page. */
  method CallTwice(cache: Cache, key: CString, loader: Text -> Text) returns (first: Page, second: Page)
    requires cache.Valid()
    modifies cache, cache.Repr
    ensures cache.Valid() && first == second
    ensures cache.loaderCalls == old(cache.loaderCalls) + if key.text in old(cache.Keys()) then 0 else 1
  {
    first := cache.CachedCall(key, loader);
    IndexedKeys(cache.index.Contents, cache.list.Nodes);
    second := cache.CachedCall(key, loader);
  }

  /** With room for two pages, a call for any key keeps the most recently
      used page resident, indexed under its key as before. */
  method CallKeepsFront(cache: Cache, key: CString, other: CString, loader: Text -> Text)
    requires cache.Valid() && cache.maxSize >= 2
    requires cache.Keys() != [] && cache.Keys()[0] == key.text
    modifies cache, cache.Repr
    ensures cache.Valid() && cache.list.Nodes != []
    ensures cache.Repr == old(cache.Repr) ||
            (cache.Repr == old(cache.Repr) + {cache.list.Nodes[0]} && fresh(cache.list.Nodes[0]))
    ensures key.text in cache.index.Contents && cache.index.Contents[key.text] == old(cache.list.Nodes[0])
    ensures cache.loaderCalls <= old(cache.loaderCalls) + 1
  {
    IndexedKeys(cache.index.Contents, cache.list.Nodes);
    LruStepKeepsFront(cache.Keys(), other.text, cache.maxSize);
    var _ := cache.CachedCall(other, loader);
    IndexedKeys(cache.index.Contents, cache.list.Nodes);
  }

  /** The most recently used page stays cached across one call for any
      other key when there is room for two pages: asking for its key again
      returns it without calling the loader. */
  method RecallAfterOther(cache: Cache, key: CString, other: CString, loader: Text -> Text)
    returns (page: Page)
    requires cache.Valid() && cache.maxSize >= 2
    requires cache.Keys() != [] && cache.Keys()[0] == key.text
    modifies cache, cache.Repr
    ensures cache.Valid()
    ensures page == old(cache.list.Nodes[0].page)
    ensures cache.loaderCalls <= old(cache.loaderCalls) + 1
  {
    CallKeepsFront(cache, key, other, loader);
    page := cache.CachedCall(key, loader);
  }

  /** A loaded page stays cached while its key stays resident: loading
      `key`, then asking for any other key, then asking for `key` again
      returns the page of the first call when there is room for two pages,
      and the third call does not call the loader. */
  method CallAroundOther(cache: Cache, key: CString, other: CString, loader: Text -> Text)
    returns (first: Page, third: Page)
    requires cache.Valid() && cache.maxSize >= 2
    modifies cache, cache.Repr
    ensures cache.Valid() && first == third
    ensures cache.loaderCalls <= old(cache.loaderCalls) + 2
  {
    first := cache.CachedCall(key, loader);
    IndexedKeys(cache.index.Contents, cache.list.Nodes);
    third := RecallAfterOther(cache, key, other, loader);
  }

  /** The texts of a sequence of keys. */
  function TextsOf(keys: seq<CString>): (ts: seq<Text>)
    ensures |ts| == |keys|
    ensures forall i :: 0 <= i < |keys| ==> ts[i] == keys[i].text
  {
    seq(|keys|, i requires 0 <= i < |keys| => keys[i].text)
  }

  /** One `cached_call` seen as one step of `Replay`: the keys follow
      `LruStep` and a miss is one loader call. */
  method Access(cache: Cache, key: CString, loader: Text -> Text)
    requires cache.Valid()
    modifies cache, cache.Repr
    ensures cache.Valid() && cache.list.Nodes != []
    ensures cache.Repr == old(cache.Repr) ||
            (cache.Repr == old(cache.Repr) + {cache.list.Nodes[0]} && fresh(cache.list.Nodes[0]))
    ensures cache.Keys() == LruStep(old(cache.Keys()), key.text, cache.maxSize)
    ensures cache.loaderCalls == old(cache.loaderCalls) + if key.text in old(cache.Keys()) then 0 else 1
  {
    var _ := cache.CachedCall(key, loader);
  }

  /** `cached_call` for each key in turn: the resident keys and the number
      of loader calls are those of `Replay` over the keys' texts. */
  method CallAll(cache: Cache, keys: seq<CString>, loader: Text -> Text)
    requires cache.Valid()
    modifies cache, cache.Repr
    ensures cache.Valid()
    ensures cache.Keys() == Replay(old(cache.Keys()), TextsOf(keys), cache.maxSize).0
    ensures cache.loaderCalls == old(cache.loaderCalls) + Replay(old(cache.Keys()), TextsOf(keys), cache.maxSize).1
    decreases |keys|
  {
    if keys != [] {
      assert TextsOf(keys)[0] == keys[0].text && TextsOf(keys)[1..] == TextsOf(keys[1..]);
      Access(cache, keys[0], loader);
      CallAll(cache, keys[1..], loader);
    }
  }

  /** The first four accesses of the eviction scenario on a cache of three
      pages: key0..key3 call the loader four times and leave key3, key2,
      key1. */
  method FillOnCache(k0: CString, k1: CString, k2: CString, k3: CString, loader: Text -> Text)
    returns (cache: Cache)
    requires k0.text == Key0 && k1.text == Key1 && k2.text == Key2 && k3.text == Key3
    ensures cache.Valid() && cache.Keys() == [Key3, Key2, Key1] && cache.loaderCalls == 4
  {
    cache := new Cache(3);
    ScenarioFirstFour();
    assert TextsOf([k0, k1, k2, k3]) == [Key0, Key1, Key2, Key3];
    CallAll(cache, [k0, k1, k2, k3], loader);
  }

  /** The whole eviction scenario on a cache of three pages: going on with
      key2, key1, key0 after key0..key3 calls the loader a fifth time and
      leaves key0, key1, key2. */
  method EvictionScenarioOnCache(k0: CString, k1: CString, k2: CString, k3: CString, loader: Text -> Text)
    returns (cache: Cache)
    requires k0.text == Key0 && k1.text == Key1 && k2.text == Key2 && k3.text == Key3
    ensures cache.Valid() && cache.Keys() == [Key0, Key1, Key2] && cache.loaderCalls == 5
  {
    cache := new Cache(3);
    EvictionScenario();
    assert TextsOf([k0, k1, k2, k3, k2, k1, k0]) == [Key0, Key1, Key2, Key3, Key2, Key1, Key0];
    CallAll(cache, [k0, k1, k2, k3, k2, k1, k0], loader);
  }
}
