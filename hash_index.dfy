/** The hash index of chashtable.c: a chained hash table from a key to a
    non-owning reference to a recency-list node.

    chashtable.c does not compile as written and several of its lines
    contradict their own comments. This module models what the code
    evidently means; each divergence is noted where it applies:
    - `create_hashtable` (chashtable.c:41-46) misspells `n_etries` and
      never returns the table it allocates;
    - `delete_hashtable` (chashtable.c:49-62) uses an undeclared `table`
      where `htable->table` is meant;
    - `hashtable_put` (chashtable.c:75-101) bumps `n_buckets` instead of
      setting it to 1, counts an overwrite as a new entry, and does not link
      a new entry in as its bucket's head;
    - `hashtable_delete_entry` (chashtable.c:104-139) tests the wrong
      condition before its chain surgery, assigns where it compares, returns
      no value on its success path, and leaves `n_buckets` stale when it
      frees the array;
    - `rehash` (chashtable.c:142-152) decides correctly but its two
      branches are empty.
    The module HashIndexAsWritten models four of these as written. */
module HashIndex {
  import opened Pages
  import RecencyList

  type Node = RecencyList.Node

  datatype Option<T> = None | Some(value: T)

  /** `hashtable_entry_t`: the key pointer it was given and the node it
      refers to. Its `next` link is the entry's position in its chain. */
  datatype Entry = Entry(key: CString, node: Node)

  /** `MAX_LOAD_FACTOR`. */
  const MAX_LOAD_FACTOR: nat := 1

  /** The bucket a key belongs in among `n` buckets: `key_hash(key) % n`. */
  function BucketOf(key: Text, n: nat): (b: nat)
    requires n > 0
    ensures b < n
  {
    Djb2(key) % n
  }

  /** The node stored with the first entry of the chain whose key is `k`. */
  function ChainLookup(c: seq<Entry>, k: Text): Option<Node>
  {
    if c == [] then None
    else if c[0].key.text == k then Some(c[0].node)
    else ChainLookup(c[1..], k)
  }

  function MapGet(m: map<Text, Node>, k: Text): Option<Node>
  {
    if k in m then Some(m[k]) else None
  }

  /** Every entry of chain `b` belongs in bucket `b`, and no key occurs
      twice in it. */
  ghost predicate ChainOk(c: seq<Entry>, b: nat, n: nat)
    requires n > 0
  {
    && (forall j :: 0 <= j < |c| ==> BucketOf(c[j].key.text, n) == b)
    && (forall i, j :: 0 <= i < j < |c| ==> c[i].key.text != c[j].key.text)
  }

  /** The buckets `t` hold exactly the mapping `m`: each key is found in its
      own bucket, with the node `m` gives it. */
  ghost predicate Represents(t: seq<seq<Entry>>, m: map<Text, Node>)
  {
    && |t| > 0
    && (forall b :: 0 <= b < |t| ==> ChainOk(t[b], b, |t|))
    && (forall k: Text :: ChainLookup(t[BucketOf(k, |t|)], k) == MapGet(m, k))
  }

  /** The resize condition of `rehash`, `load > MAX_LOAD_FACTOR` or
      `load < MAX_LOAD_FACTOR / 4` with `load = entries / buckets`, stated
      on integers: it holds exactly when the exact load is out of bounds. */
  predicate NeedsRehash(entries: nat, buckets: nat): (b: bool)
    requires buckets > 0
    ensures b <==> (entries as real / buckets as real > MAX_LOAD_FACTOR as real ||
                    entries as real / buckets as real < MAX_LOAD_FACTOR as real / 4.0)
  {
    LoadFactor(entries, buckets);
    entries > MAX_LOAD_FACTOR * buckets || 4 * entries < MAX_LOAD_FACTOR * buckets
  }

  /** The load factor compared on integers. */
  lemma LoadFactor(entries: nat, buckets: nat)
    requires buckets > 0
    ensures entries as real / buckets as real > 1.0 <==> entries > buckets
    ensures entries as real / buckets as real < 0.25 <==> 4 * entries < buckets
  {
    Quotient(entries as real, buckets as real, 1.0);
    Quotient(entries as real, buckets as real, 0.25);
  }

  /** Comparing a quotient with a bound is comparing the dividend with the
      bound times the positive divisor. */
  lemma Quotient(x: real, y: real, c: real)
    requires y > 0.0
    ensures x / y > c <==> x > c * y
    ensures x / y < c <==> x < c * y
  {
    var q := x / y;
    assert q * y == x;
    assert (q - c) * y == x - c * y;
    if q > c {
      assert (q - c) * y > 0.0;
    } else if q < c {
      assert (c - q) * y > 0.0;
    }
  }

  /** The bucket count `rehash` moves to: double it when the table is too
      full, divide it by four when it is too empty (the comments of
      chashtable.c:146-150). The count changes exactly when a resize is
      due; it grows exactly when the load is above the maximum. */
  function NewBucketCount(entries: nat, buckets: nat): (r: nat)
    requires buckets > 0
    ensures NeedsRehash(entries, buckets) <==> r != buckets
    ensures r > buckets <==> entries > MAX_LOAD_FACTOR * buckets
    ensures r < buckets <==> 4 * entries < MAX_LOAD_FACTOR * buckets
  {
    if entries > MAX_LOAD_FACTOR * buckets then 2 * buckets
    else if 4 * entries < MAX_LOAD_FACTOR * buckets then buckets / 4
    else buckets
  }

  /** One put or one delete moves the load by at most one entry, and one
      resize brings it back within [1/4, 1] with at least one bucket. */
  lemma RehashRestoresLoad(entries: nat, buckets: nat)
    requires buckets > 0 && entries > 0
    requires entries <= buckets + 1 && buckets <= 4 * entries + 4
    ensures NewBucketCount(entries, buckets) > 0
    ensures !NeedsRehash(entries, NewBucketCount(entries, buckets))
  {
  }

  /** A lookup fails exactly when no entry carries the key. */
  lemma {:induction false} LookupNone(c: seq<Entry>, k: Text)
    ensures ChainLookup(c, k) == None <==> forall j :: 0 <= j < |c| ==> c[j].key.text != k
  {
    if c != [] {
      LookupNone(c[1..], k);
      assert forall j :: 1 <= j < |c| ==> c[j] == c[1..][j - 1];
    }
  }

  /** In a chain without repeated keys, the lookup of an entry's key finds
      that entry. */
  lemma {:induction false} LookupAt(c: seq<Entry>, j: nat)
    requires j < |c|
    requires forall a, b :: 0 <= a < b < |c| ==> c[a].key.text != c[b].key.text
    ensures ChainLookup(c, c[j].key.text) == Some(c[j].node)
  {
    if j > 0 {
      LookupAt(c[1..], j - 1);
    }
  }

  /** Appending an entry to a chain only adds its key if the key was absent. */
  lemma {:induction false} LookupSnoc(c: seq<Entry>, e: Entry, k: Text)
    ensures ChainLookup(c + [e], k) ==
      if ChainLookup(c, k).Some? then ChainLookup(c, k)
      else if e.key.text == k then Some(e.node)
      else None
  {
    if c != [] {
      assert (c + [e])[1..] == c[1..] + [e];
      LookupSnoc(c[1..], e, k);
    }
  }

  /** Overwriting the node of the entry for `c[j].key` changes the lookup of
      that key only. */
  lemma {:induction false} LookupOverwrite(c: seq<Entry>, j: nat, node: Node, k: Text)
    requires j < |c|
    requires forall a, b :: 0 <= a < b < |c| ==> c[a].key.text != c[b].key.text
    ensures ChainLookup(c[j := Entry(c[j].key, node)], k) ==
      if k == c[j].key.text then Some(node) else ChainLookup(c, k)
  {
    if j > 0 {
      assert c[j := Entry(c[j].key, node)][1..] == c[1..][j - 1 := Entry(c[j].key, node)];
      LookupOverwrite(c[1..], j - 1, node, k);
    }
  }

  /** Unlinking the entry at `j` from a chain without repeated keys loses
      its key and nothing else. */
  lemma {:induction false} LookupRemove(c: seq<Entry>, j: nat, k: Text)
    requires j < |c|
    requires forall a, b :: 0 <= a < b < |c| ==> c[a].key.text != c[b].key.text
    ensures ChainLookup(c[..j] + c[j + 1..], k) ==
      if k == c[j].key.text then None else ChainLookup(c, k)
  {
    if j == 0 {
      assert c[..0] + c[1..] == c[1..];
      if k == c[0].key.text {
        LookupNone(c[1..], k);
      }
    } else {
      assert (c[..j] + c[j + 1..])[1..] == c[1..][..j - 1] + c[1..][j..];
      LookupRemove(c[1..], j - 1, k);
    }
  }

  /** `hashtable_put` of a key that is absent: a new entry at the head of
      the key's bucket adds exactly that key. */
  lemma InsertNewKey(t: seq<seq<Entry>>, m: map<Text, Node>, e: Entry)
    requires Represents(t, m) && e.key.text !in m
    ensures Represents(t[BucketOf(e.key.text, |t|) := [e] + t[BucketOf(e.key.text, |t|)]],
                       m[e.key.text := e.node])
  {
    var k := e.key.text;
    var b := BucketOf(k, |t|);
    var t' := t[b := [e] + t[b]];
    assert ChainLookup(t[b], k) == None;
    LookupNone(t[b], k);
    forall c | 0 <= c < |t'| ensures ChainOk(t'[c], c, |t'|) {
      if c == b {
        forall i, j | 0 <= i < j < |t'[c]| ensures t'[c][i].key.text != t'[c][j].key.text {
          if i > 0 {
            assert t'[c][i] == t[b][i - 1] && t'[c][j] == t[b][j - 1];
          } else {
            assert t'[c][j] == t[b][j - 1];
          }
        }
      }
    }
    forall k': Text
      ensures ChainLookup(t'[BucketOf(k', |t'|)], k') == MapGet(m[k := e.node], k')
    {
      if BucketOf(k', |t|) == b {
        assert t'[b][1..] == t[b];
      }
    }
  }

  /** `hashtable_put` of a key that is present: overwriting the node of its
      entry in place remaps exactly that key. */
  lemma OverwriteKey(t: seq<seq<Entry>>, m: map<Text, Node>, b: nat, j: nat, node: Node)
    requires Represents(t, m) && b < |t| && j < |t[b]|
    ensures t[b][j].key.text in m
    ensures var e := t[b][j];
      Represents(t[b := t[b][j := Entry(e.key, node)]], m[e.key.text := node])
  {
    var e := t[b][j];
    var t' := t[b := t[b][j := Entry(e.key, node)]];
    assert ChainOk(t[b], b, |t|);
    LookupAt(t[b], j);
    assert ChainLookup(t[BucketOf(e.key.text, |t|)], e.key.text) == MapGet(m, e.key.text);
    forall c | 0 <= c < |t'| ensures ChainOk(t'[c], c, |t'|) {
      assert c == b ==> forall i :: 0 <= i < |t[b]| ==> t'[c][i].key == t[b][i].key;
    }
    forall k': Text
      ensures ChainLookup(t'[BucketOf(k', |t'|)], k') == MapGet(m[e.key.text := node], k')
    {
      if BucketOf(k', |t|) == b {
        LookupOverwrite(t[b], j, node, k');
      } else {
        assert k' != e.key.text;
      }
    }
  }

  /** `hashtable_delete_entry` of a present key: unlinking its entry from
      its chain removes exactly that key. */
  lemma RemoveKey(t: seq<seq<Entry>>, m: map<Text, Node>, b: nat, j: nat)
    requires Represents(t, m) && b < |t| && j < |t[b]|
    ensures t[b][j].key.text in m
    ensures Represents(t[b := t[b][..j] + t[b][j + 1..]], m - {t[b][j].key.text})
  {
    var k := t[b][j].key.text;
    var c := t[b];
    var t' := t[b := c[..j] + c[j + 1..]];
    assert ChainOk(c, b, |t|);
    LookupAt(c, j);
    assert ChainLookup(t[BucketOf(k, |t|)], k) == MapGet(m, k);
    forall x | 0 <= x < |t'| ensures ChainOk(t'[x], x, |t'|) {
      if x == b {
        assert forall i :: 0 <= i < |t'[x]| ==> t'[x][i] == if i < j then c[i] else c[i + 1];
      }
    }
    forall k': Text
      ensures ChainLookup(t'[BucketOf(k', |t'|)], k') == MapGet(m - {k}, k')
    {
      if BucketOf(k', |t|) == b {
        LookupRemove(c, j, k');
      } else {
        assert k' != k;
      }
    }
  }

  /** The state of a walk over the buckets of `t` in order (the rehash, or
      the release of `delete_hashtable`) that has visited every entry of the
      buckets before `b` and the first `j` entries of bucket `b`; `moved`
      maps the keys of the visited entries to their nodes. */
  ghost predicate MovedSoFar(t: seq<seq<Entry>>, m: map<Text, Node>,
                             moved: map<Text, Node>, b: nat, j: nat)
    requires |t| > 0
  {
    forall k: Text :: MapGet(moved, k) ==
      if BucketOf(k, |t|) < b then MapGet(m, k)
      else if BucketOf(k, |t|) == b && b < |t| && j <= |t[b]| then ChainLookup(t[b][..j], k)
      else None
  }

  /** Visiting the next entry of the current bucket: its key has not been
      visited yet, and afterwards it has, with its node. */
  lemma MoveNext(t: seq<seq<Entry>>, m: map<Text, Node>, moved: map<Text, Node>, b: nat, j: nat)
    requires Represents(t, m) && b < |t| && j < |t[b]|
    requires MovedSoFar(t, m, moved, b, j)
    ensures t[b][j].key.text !in moved
    ensures MovedSoFar(t, m, moved[t[b][j].key.text := t[b][j].node], b, j + 1)
  {
    var c := t[b];
    var e := c[j];
    assert ChainOk(c, b, |t|);
    assert MapGet(moved, e.key.text) == ChainLookup(c[..j], e.key.text);
    LookupNone(c[..j], e.key.text);
    assert c[..j + 1] == c[..j] + [e];
    forall k: Text ensures MapGet(moved[e.key.text := e.node], k) ==
      if BucketOf(k, |t|) < b then MapGet(m, k)
      else if BucketOf(k, |t|) == b && b < |t| && j + 1 <= |t[b]| then ChainLookup(t[b][..j + 1], k)
      else None
    {
      LookupSnoc(c[..j], e, k);
    }
  }

  /** Once a bucket is done, the next one starts: the keys of bucket `b` are
      exactly the keys of `m` that belong there. */
  lemma NextBucket(t: seq<seq<Entry>>, m: map<Text, Node>, moved: map<Text, Node>, b: nat)
    requires Represents(t, m) && b < |t|
    requires MovedSoFar(t, m, moved, b, |t[b]|)
    ensures MovedSoFar(t, m, moved, b + 1, 0)
  {
    assert t[b][..|t[b]|] == t[b];
  }

  /** When every bucket is done, the visited entries hold the whole
      mapping. */
  lemma AllMoved(t: seq<seq<Entry>>, m: map<Text, Node>, moved: map<Text, Node>)
    requires |t| > 0 && MovedSoFar(t, m, moved, |t|, 0)
    ensures moved == m
  {
    forall k: Text ensures k in moved <==> k in m {
      assert MapGet(moved, k) == MapGet(m, k);
    }
    forall k: Text | k in m ensures moved[k] == m[k] {
      assert MapGet(moved, k) == MapGet(m, k);
    }
  }

  /** Moves every entry of bucket `b` of `src` to the head of its chain in
      `dst`, in chain order. */
  method MoveChain(src: seq<seq<Entry>>, b: nat, dst0: seq<seq<Entry>>,
                   ghost m: map<Text, Node>, ghost moved0: map<Text, Node>)
    returns (dst: seq<seq<Entry>>, ghost moved: map<Text, Node>)
    requires b < |src| && Represents(src, m) && Represents(dst0, moved0)
    requires MovedSoFar(src, m, moved0, b, 0)
    ensures |dst| == |dst0| && Represents(dst, moved)
    ensures MovedSoFar(src, m, moved, b + 1, 0)
  {
    var chain := src[b];
    dst, moved := dst0, moved0;
    var j := 0;
    while j < |chain|
      invariant 0 <= j <= |chain|
      invariant |dst| == |dst0| && Represents(dst, moved)
      invariant MovedSoFar(src, m, moved, b, j)
    {
      var e := chain[j];
      MoveNext(src, m, moved, b, j);
      InsertNewKey(dst, moved, e);
      var nb := KeyHash(e.key) % |dst|;
      dst := dst[nb := [e] + dst[nb]];
      moved := moved[e.key.text := e.node];
      j := j + 1;
    }
    NextBucket(src, m, moved, b);
  }

  /** The body of a resize: `count` new buckets holding every entry of
      `src`, each prepended to its new chain. */
  method Rebuild(src: seq<seq<Entry>>, count: nat, ghost m: map<Text, Node>)
    returns (dst: seq<seq<Entry>>)
    requires count > 0 && Represents(src, m)
    ensures |dst| == count && Represents(dst, m)
  {
    dst := seq(count, _ => []);
    ghost var moved: map<Text, Node> := map[];
    assert Represents(dst, moved);
    var b := 0;
    while b < |src|
      invariant 0 <= b <= |src|
      invariant |dst| == count && Represents(dst, moved)
      invariant MovedSoFar(src, m, moved, b, 0)
    {
      dst, moved := MoveChain(src, b, dst, m, moved);
      b := b + 1;
    }
    AllMoved(src, m, moved);
  }

  /** Two bucket arrays with the same entries in the same places, up to
      the nodes the entries refer to. */
  ghost predicate SameKeys(t: seq<seq<Entry>>, u: seq<seq<Entry>>)
  {
    && |t| == |u|
    && (forall b :: 0 <= b < |t| ==> |t[b]| == |u[b]|)
    && (forall b, j :: 0 <= b < |t| && 0 <= j < |t[b]| && j < |u[b]| ==> t[b][j].key == u[b][j].key)
  }

  class HashTable {
    /** The bucket array, one chain per bucket; empty (a null array) while
        the table holds no entry. */
    var table: seq<seq<Entry>>
    var nBuckets: nat
    var nEntries: nat

    /** The mapping from key text to node that the table stands for. */
    ghost var Contents: map<Text, Node>

    /** The bucket array and the counters agree with `Contents`. */
    ghost predicate Consistent()
      reads this
    {
      && nBuckets == |table|
      && (table == [] <==> nEntries == 0)
      && nEntries == |Contents|
      && (table != [] ==> Represents(table, Contents))
    }

    /** The table invariant: consistent, and its load factor within
        [1/4, 1] whenever it holds entries. */
    ghost predicate Valid()
      reads this
    {
      Consistent() && (nEntries > 0 ==> !NeedsRehash(nEntries, nBuckets))
    }

    /** `create_hashtable`: no buckets and no entries. */
    constructor ()
      ensures Valid()
      ensures Contents == map[] && table == [] && nBuckets == 0 && nEntries == 0
    {
      table := [];
      nBuckets := 0;
      nEntries := 0;
      Contents := map[];
    }

    /** `get_bucket`: the bucket that `key` belongs in; its chain is the
        only place the key's entry can be. */
    function GetBucket(key: CString): (b: nat)
      reads this
      requires Valid() && nEntries > 0
      ensures b < nBuckets && b == BucketOf(key.text, nBuckets)
      ensures ChainLookup(table[b], key.text) == MapGet(Contents, key.text)
    {
      KeyHash(key) % nBuckets
    }

    /** `find_entry`: nothing on an empty table (the bucket array is not
        touched); otherwise walk the key's chain until an entry's key is
        `key_equal` to it. The result is that entry's position. */
    method FindEntry(key: CString) returns (pos: Option<nat>)
      requires Valid()
      ensures pos.None? <==> key.text !in Contents
      ensures pos.Some? ==>
                nEntries > 0 && pos.value < |table[BucketOf(key.text, nBuckets)]|
      ensures pos.Some? ==>
                var e := table[BucketOf(key.text, nBuckets)][pos.value];
                e.key.text == key.text && e.node == Contents[key.text]
    {
      if nEntries == 0 {
        return None;
      }
      var chain := table[GetBucket(key)];
      var j := 0;
      while j < |chain|
        invariant 0 <= j <= |chain|
        invariant ChainLookup(chain[j..], key.text) == MapGet(Contents, key.text)
      {
        if KeyEqual(chain[j].key, key) {
          return Some(j);
        }
        assert chain[j..][1..] == chain[j + 1..];
        j := j + 1;
      }
      return None;
    }

    /** `hashtable_get`: the node stored for a key equal to `key`, or null. */
    method Get(key: CString) returns (node: RecencyList.Node?)
      requires Valid()
      ensures key.text in Contents ==> node == Contents[key.text]
      ensures key.text !in Contents ==> node == null
    {
      var pos := FindEntry(key);
      if pos.Some? {
        node := table[GetBucket(key)][pos.value].node;
      } else {
        node := null;
      }
    }

    /** `rehash`: when the load factor has left [1/4, 1], move every entry
        into a new bucket array of `NewBucketCount` buckets and release the
        old one. The mapping does not change. (chashtable.c:142-152 leaves
        both branches empty.) */
    method Rehash()
      requires Consistent() && nEntries > 0
      modifies this
      ensures Consistent()
      ensures Contents == old(Contents) && nEntries == old(nEntries)
      ensures nBuckets == NewBucketCount(old(nEntries), old(nBuckets))
      ensures !NeedsRehash(old(nEntries), old(nBuckets)) ==> table == old(table)
    {
      if !NeedsRehash(nEntries, nBuckets) {
        return;
      }
      var count := if nEntries > MAX_LOAD_FACTOR * nBuckets then 2 * nBuckets else nBuckets / 4;
      table := Rebuild(table, count, Contents);
      nBuckets := count;
    }

    /** The first entry of an empty table: one bucket holding it. */
    method PutFirst(key: CString, node: Node)
      requires Valid() && nEntries == 0
      modifies this
      ensures Valid()
      ensures Contents == map[key.text := node]
      ensures nEntries == 1 && nBuckets == 1 && table == [[Entry(key, node)]]
    {
      // chashtable.c:78 increments n_buckets; one bucket is meant.
      table := [[Entry(key, node)]];
      nBuckets := 1;
      nEntries := 1;
      Contents := map[key.text := node];
      assert forall k: Text :: BucketOf(k, 1) == 0;
    }

    /** Overwrite the node of the entry at position `j` of bucket `b`. */
    method Overwrite(b: nat, j: nat, node: Node)
      requires Valid() && nEntries > 0 && b < nBuckets && j < |table[b]|
      modifies this
      ensures Valid() && nBuckets == old(nBuckets) && nEntries == old(nEntries)
      ensures table == old(table[b := table[b][j := Entry(table[b][j].key, node)]])
      ensures Contents == old(Contents)[old(table[b][j].key.text) := node]
    {
      ghost var k := table[b][j].key.text;
      OverwriteKey(table, Contents, b, j, node);
      assert Contents[k := node].Keys == Contents.Keys;
      table := table[b := table[b][j := Entry(table[b][j].key, node)]];
      Contents := Contents[k := node];
    }

    /** Link a new entry in as the head of bucket `b`, its key's bucket. */
    method InsertAtHead(b: nat, e: Entry)
      requires Valid() && nEntries > 0 && e.key.text !in Contents
      requires b == BucketOf(e.key.text, nBuckets)
      modifies this
      ensures Consistent() && nBuckets == old(nBuckets)
      ensures table == old(table[b := [e] + table[b]])
      ensures Contents == old(Contents)[e.key.text := e.node]
      ensures nEntries == old(nEntries) + 1
    {
      InsertNewKey(table, Contents, e);
      table := table[b := [e] + table[b]];
      nEntries := nEntries + 1;
      Contents := Contents[e.key.text := e.node];
    }

    /** `hashtable_put`: map `key` to `node`. On an empty table one bucket is
        allocated for the new entry; an entry whose key is equal gets its node
        overwritten in place and no entry is added; otherwise a new entry goes
        at the head of the key's chain and the table may be resized. */
    method Put(key: CString, node: Node)
      requires Valid()
      modifies this
      ensures Valid()
      ensures Contents == old(Contents)[key.text := node]
      ensures nEntries == old(nEntries) + if key.text in old(Contents) then 0 else 1
      ensures old(nEntries) == 0 ==> nBuckets == 1 && table == [[Entry(key, node)]]
      ensures key.text in old(Contents) ==> SameKeys(table, old(table))
      ensures old(nEntries) > 0 && key.text !in old(Contents) ==>
                nBuckets == NewBucketCount(old(nEntries) + 1, old(nBuckets))
      ensures old(nEntries) > 0 && key.text !in old(Contents) &&
              !NeedsRehash(old(nEntries) + 1, old(nBuckets)) ==>
                var b := BucketOf(key.text, nBuckets);
                table == old(table[b := [Entry(key, node)] + table[b]])
    {
      if nEntries == 0 {
        PutFirst(key, node);
        return;
      }
      var pos := FindEntry(key);
      var b := GetBucket(key);
      if pos.Some? {
        // chashtable.c:99 counts an overwritten entry as a new one.
        Overwrite(b, pos.value, node);
      } else {
        // chashtable.c:94-95 never stores the new entry in the bucket.
        InsertAtHead(b, Entry(key, node));
        RehashRestoresLoad(nEntries, nBuckets);
        Rehash();
      }
    }

    /** Unlink the entry at position `j` of bucket `b` (the chain surgery of
        chashtable.c:114-128, as a removal from the chain). */
    method Unlink(b: nat, j: nat)
      requires Valid() && nEntries > 0 && b < nBuckets && j < |table[b]|
      modifies this
      ensures old(table[b][j].key.text) in old(Contents)
      ensures Contents == old(Contents) - {old(table[b][j].key.text)}
      ensures nEntries == old(nEntries) - 1 && nEntries == |Contents|
      ensures table == old(table[b := table[b][..j] + table[b][j + 1..]])
      ensures nBuckets == old(nBuckets) && Represents(table, Contents)
    {
      ghost var k := table[b][j].key.text;
      RemoveKey(table, Contents, b, j);
      var chain := table[b];
      table := table[b := chain[..j] + chain[j + 1..]];
      nEntries := nEntries - 1;
      Contents := Contents - {k};
    }

    /** `hashtable_delete_entry`: false, with nothing changed, on an empty
        table or when no entry's key is equal to `key`; otherwise unlink that
        entry from its chain and return true, releasing the bucket array when
        the table becomes empty and resizing it otherwise. */
    method DeleteEntry(key: CString) returns (removed: bool)
      requires Valid()
      modifies this
      ensures Valid()
      ensures removed <==> key.text in old(Contents)
      ensures Contents == old(Contents) - {key.text}
      ensures nEntries == old(nEntries) - if removed then 1 else 0
      ensures !removed ==> table == old(table) && nBuckets == old(nBuckets)
      ensures removed && nEntries == 0 ==> table == [] && nBuckets == 0
      ensures removed && nEntries > 0 ==>
                nBuckets == NewBucketCount(nEntries, old(nBuckets))
    {
      if nEntries == 0 {
        return false;
      }
      var pos := FindEntry(key);
      if pos.None? {
        return false;
      }
      Unlink(GetBucket(key), pos.value);
      if nEntries != 0 {
        RehashRestoresLoad(nEntries, nBuckets);
        Rehash();
      } else {
        // chashtable.c:136-137 frees the array but leaves n_buckets as it was.
        table := [];
        nBuckets := 0;
      }
      // chashtable.c:139 falls off the end without returning true.
      removed := true;
    }

    /** `delete_hashtable`: walk every chain of every bucket and release
        each entry (chashtable.c:50-58), then release the bucket array.
        `released` counts the entries released: every entry once, which
        is exactly `n_entries`. */
    method Destroy() returns (ghost released: nat)
      requires Valid()
      modifies this
      ensures Valid()
      ensures Contents == map[] && table == [] && nBuckets == 0 && nEntries == 0
      ensures released == old(nEntries)
    {
      released := 0;
      if table != [] {
        ghost var freed: map<Text, Node> := map[];
        var i := 0;
        while i < nBuckets
          invariant 0 <= i <= nBuckets
          invariant MovedSoFar(table, Contents, freed, i, 0) && released == |freed|
          modifies {}
        {
          var chain := table[i];
          var j := 0;
          while j < |chain|
            invariant 0 <= j <= |chain|
            invariant MovedSoFar(table, Contents, freed, i, j) && released == |freed|
            modifies {}
          {
            MoveNext(table, Contents, freed, i, j);
            // free(entry)
            freed := freed[chain[j].key.text := chain[j].node];
            released := released + 1;
            j := j + 1;
          }
          NextBucket(table, Contents, freed, i);
          i := i + 1;
        }
        AllMoved(table, Contents, freed);
      }
      table := [];
      nBuckets := 0;
      nEntries := 0;
      Contents := map[];
    }
  }
}
