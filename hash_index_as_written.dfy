/** Four paths of chashtable.c as they are written, on the value model of
    module HashIndex, each with a lemma that exhibits how it departs from
    what the surrounding comments and the rest of the file intend. The class
    HashIndex.HashTable models the intended behaviour and is what the cache
    uses. */
module HashIndexAsWritten {
  import opened Pages
  import opened HashIndex

  /** The chain of a non-empty bucket after the new-key branch of
      `hashtable_put` (chashtable.c:93-95), reading the statement
      `*bucket_ptr->next = NULL` as `(*bucket_ptr)->next = NULL`: the new
      entry points at the old head, but the bucket still starts at the old
      head, whose successors are cut off. An empty bucket receives the new
      entry (chashtable.c:91-92). */
  function LinkAsWritten(c: seq<Entry>, e: Entry): (r: seq<Entry>)
    ensures |r| == 1
  {
    if c == [] then [e] else [c[0]]
  }

  /** Linking into a non-empty bucket as written loses the new key and
      every key behind the old head. */
  lemma LinkAsWrittenLosesKeys(c: seq<Entry>, e: Entry, j: nat)
    requires j < |c|
    requires forall a, b :: 0 <= a < b < |c| ==> c[a].key.text != c[b].key.text
    requires ChainLookup(c, e.key.text) == None
    ensures ChainLookup(LinkAsWritten(c, e), e.key.text) == None
    ensures 0 < j ==> ChainLookup(LinkAsWritten(c, e), c[j].key.text) == None
  {
    LookupNone(c, e.key.text);
    assert c[0].key.text != e.key.text;
    assert LinkAsWritten(c, e)[1..] == [];
  }

  /** The overwrite branch (chashtable.c:84-86): the first entry of the
      chain with the key keeps its key and takes the new node. */
  function Overwritten(c: seq<Entry>, e: Entry): (r: seq<Entry>)
    ensures |r| == |c|
  {
    if c == [] then []
    else if c[0].key.text == e.key.text then [Entry(c[0].key, e.node)] + c[1..]
    else [c[0]] + Overwritten(c[1..], e)
  }

  /** `hashtable_put` as written on a table that already holds entries
      (chashtable.c:82-101), leaving out the empty `rehash`: the buckets and
      the entry count it leaves. The first put (chashtable.c:76-81) is
      `PutCountersAsWritten`'s concern. */
  function PutAsWritten(t: seq<seq<Entry>>, nEntries: nat, e: Entry): (r: (seq<seq<Entry>>, nat))
    requires |t| > 0 && nEntries > 0
    ensures |r.0| == |t|
  {
    var b := BucketOf(e.key.text, |t|);
    var c := t[b];
    var c' := if ChainLookup(c, e.key.text).Some? then Overwritten(c, e) else LinkAsWritten(c, e);
    (t[b := c'], nEntries + 1)
  }

  /** Put as written never lengthens a chain beyond one entry: an empty
      bucket receives one entry, an occupied one keeps only its head, and an
      overwrite keeps the length. */
  lemma PutAsWrittenKeepsChainsShort(t: seq<seq<Entry>>, nEntries: nat, e: Entry)
    requires |t| > 0 && nEntries > 0
    requires forall b :: 0 <= b < |t| ==> |t[b]| <= 1
    ensures forall b :: 0 <= b < |t| ==> |PutAsWritten(t, nEntries, e).0[b]| <= 1
  {
  }

  /** After an overwrite, the lookup of the key finds the new node. */
  lemma {:induction false} OverwrittenLookup(c: seq<Entry>, e: Entry)
    requires ChainLookup(c, e.key.text).Some?
    ensures ChainLookup(Overwritten(c, e), e.key.text) == Some(e.node)
  {
    if c[0].key.text != e.key.text {
      OverwrittenLookup(c[1..], e);
    }
  }

  /** Putting a key that is present: the key now maps to the new node and
      the number of keys is unchanged, but the count as written grows by
      one, so `n_entries` no longer counts the keys. */
  lemma PutAsWrittenMiscounts(t: seq<seq<Entry>>, m: map<Text, Node>, e: Entry)
    requires Represents(t, m) && e.key.text in m
    ensures ChainLookup(PutAsWritten(t, |m|, e).0[BucketOf(e.key.text, |t|)], e.key.text) == Some(e.node)
    ensures |m[e.key.text := e.node]| == |m|
    ensures PutAsWritten(t, |m|, e).1 == |m[e.key.text := e.node]| + 1
  {
    var b := BucketOf(e.key.text, |t|);
    assert ChainLookup(t[b], e.key.text) == MapGet(m, e.key.text);
    OverwrittenLookup(t[b], e);
    assert m[e.key.text := e.node].Keys == m.Keys;
  }

  /** Putting a key that is absent while its bucket is occupied leaves a
      table that does not hold the new mapping: `hashtable_get` of the key
      returns null right after the key was put. */
  lemma PutNewKeyAsWrittenIsLost(t: seq<seq<Entry>>, m: map<Text, Node>, e: Entry)
    requires Represents(t, m) && e.key.text !in m && |m| > 0
    requires t[BucketOf(e.key.text, |t|)] != []
    ensures ChainLookup(PutAsWritten(t, |m|, e).0[BucketOf(e.key.text, |t|)], e.key.text) == None
    ensures !Represents(PutAsWritten(t, |m|, e).0, m[e.key.text := e.node])
  {
    var k := e.key.text;
    var b := BucketOf(k, |t|);
    var c := t[b];
    assert ChainLookup(c, k) == MapGet(m, k) == None;
    LinkAsWrittenLosesKeys(c, e, 0);
    assert MapGet(m[k := e.node], k) == Some(e.node);
  }

  /** The outcome of `hashtable_delete_entry`'s chain surgery
      (chashtable.c:114-128) when the entry to delete sits at position `j`
      of chain `c`: `None` when it dereferences a null pointer, otherwise
      the chain it leaves.
      - It compares the head's successor, not the head, with the entry; if
        they are equal it empties the whole bucket.
      - Otherwise `if (entry = test_entry->next)` assigns: with a successor
        present, the head's successor is the one unlinked (and freed);
      - with no successor (a sole entry), the walk moves to a null entry and
        reads its `next`.
      As written every chain holds at most one entry
      (`PutAsWrittenKeepsChainsShort`), so every delete takes the last case;
      a chain of two or more arises only once the put path is corrected as
      in `HashIndex.InsertNewKey`. */
  function DeleteAsWritten(c: seq<Entry>, j: nat): (r: Option<seq<Entry>>)
    requires j < |c|
    ensures r.None? <==> |c| == 1
    ensures r.Some? ==> |r.value| < |c|
  {
    if |c| == 1 then None
    else if j == 1 then Some([])
    else Some([c[0]] + c[2..])
  }

  /** Whatever the position of the entry, deletion as written goes wrong:
      a sole entry crashes it; otherwise the head's successor is always
      lost, and either the head is lost with it (when the successor was
      the entry to delete) or the entry to delete survives. */
  lemma DeleteAsWrittenGoesWrong(c: seq<Entry>, j: nat)
    requires j < |c|
    requires forall a, b :: 0 <= a < b < |c| ==> c[a].key.text != c[b].key.text
    ensures |c| == 1 ==> DeleteAsWritten(c, j) == None
    ensures |c| > 1 ==> ChainLookup(DeleteAsWritten(c, j).value, c[1].key.text) == None
    ensures |c| > 1 && j == 1 ==> ChainLookup(DeleteAsWritten(c, j).value, c[0].key.text) == None
    ensures |c| > 1 && j != 1 ==>
              ChainLookup(DeleteAsWritten(c, j).value, c[j].key.text) == Some(c[j].node)
    ensures DeleteAsWritten(c, j) != Some(c[..j] + c[j + 1..])
  {
    if |c| > 1 && j != 1 {
      var r := [c[0]] + c[2..];
      assert forall a, b :: 0 <= a < b < |r| ==> r[a].key.text != r[b].key.text by {
        forall a, b | 0 <= a < b < |r| ensures r[a].key.text != r[b].key.text {
          var a' := if a == 0 then 0 else a + 1;
          assert r[a] == c[a'] && r[b] == c[b + 1];
        }
      }
      LookupNone(r, c[1].key.text);
      var i := if j == 0 then 0 else j - 1;
      assert r[i] == c[j];
      LookupAt(r, i);
      if j == 0 {
        assert r[0] == c[0] && (c[..j] + c[j + 1..])[0] == c[1];
      } else {
        assert r[1] == c[2] && (c[..j] + c[j + 1..])[1] == c[1];
      }
    }
  }

  /** The counters of the table as written: `slots` is the length of the
      bucket array, which the code means `n_buckets` to equal. */
  datatype Counters = Counters(slots: nat, nBuckets: nat, nEntries: nat)

  /** `hashtable_put` as written: the first put allocates one slot but
      increments `n_buckets` instead of setting it to 1 (chashtable.c:76-78);
      every put increments `n_entries` (chashtable.c:99). */
  function PutCountersAsWritten(s: Counters): (r: Counters)
    ensures r.nEntries == s.nEntries + 1
  {
    if s.nEntries == 0 then Counters(1, s.nBuckets + 1, 1)
    else s.(nEntries := s.nEntries + 1)
  }

  /** A successful `hashtable_delete_entry` as written: deleting the last
      entry frees the array but leaves `n_buckets` as it was
      (chashtable.c:131-137). */
  function DeleteCountersAsWritten(s: Counters): (r: Counters)
    requires s.nEntries > 0
    ensures r.nEntries == s.nEntries - 1
  {
    if s.nEntries == 1 then Counters(0, s.nBuckets, 0)
    else s.(nEntries := s.nEntries - 1)
  }

  /** Put a key, delete it, put a key again: the bucket array has one slot
      but `n_buckets` is 2, so the bucket of "b" (djb2 177671, odd) is slot
      1, past the end of the array. The counters alone go this way only
      once the chain surgery is corrected as in `HashIndex.RemoveKey`: as
      written, the delete of the sole entry in between dereferences null
      first, which masks the stale count. */
  lemma StaleBucketCount(e: Entry)
    ensures var s := PutCountersAsWritten(DeleteCountersAsWritten(PutCountersAsWritten(Counters(0, 0, 0))));
            s.slots == 1 && s.nBuckets == 2 && BucketOf([98], s.nBuckets) >= s.slots
    ensures DeleteAsWritten([e], 0) == None
  {
    assert [98 as byte][..0] == [];
  }
}
