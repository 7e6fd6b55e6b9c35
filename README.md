# c_cache in Dafny

A model of c_cache, a fixed-capacity least-recently-used page cache
written in C. The cache is built from four parts. Each part is one Dafny
module here.

- **Pages** (`page.c`): pages, C-string keys, the djb2 key hash and
  byte-exact key comparison.
- **RecencyList** (`src/list.c`): the doubly linked list of resident pages,
  most recently used first, with a size counter.
- **CList** (`clist.c`): the older variant of the same list. It has no
  counter, so its length walks the chain. The unit tests target it.
- **HashIndex** (`chashtable.c`): a chained hash table from a key to the
  list node that holds the key's page.
- **LruCache** (`cache.c`): `cached_call`. On a hit it moves the page to
  the front. On a miss it calls the loader, evicts the tail page when the
  cache is full, and inserts the new page at the front.
- **HashIndexAsWritten**: models several paths of `chashtable.c` as they
  are written, under the reading stated in each member's comment. See
  "## Findings".

Imperative code is modelled with classes: the lists, the hash table and
the cache. Each class has the source's fields. Ghost state gives each one
an abstract view:
- the node sequence of a list;
- the key-to-node map of the hash table;
- the resident keys of the cache, with the list nodes that hold their pages.

Every method is specified against that view. A call of the cache is
specified by the pure policy `LruCache.LruStep`, applied both to the
resident keys and to the list nodes; its properties are proved as lemmas.
Because the nodes are specified too, a key that stays resident keeps its
node and therefore its page.
The hash table's buckets are a `seq<seq<Entry>>` field. Each bucket is an
entry chain, in chain order, and `HashIndex.Represents` ties the buckets to
the abstract map. The loader is a function parameter `Text -> Text`
returning the new page's payload. A ghost counter in the cache records how
often the loader was called.

Eviction pops the tail page from the list before it deletes the page's key
from the index (cache.c:44-46). A shrinking resize divides the bucket
count by four, as the comment at chashtable.c:149 says.

## Model

| member | source | states |
|---|---|---|
| Pages.Page.constructor | page.c:6-12 | `create_page`: the page's payload is the given string, its size is the string's length, and it owns a fresh copy of its key |
| Pages.CreatePageExamples | tests/test.c:8-23 | `create_page("")` gives size 0; `create_page("Hello")` gives size 5 with data "Hello" |
| Pages.CopyPage | page.c:15-18 | `copy_page` returns a distinct page whose key, data and size equal the original's |
| Pages.Djb2 | page.c:28-36 | djb2 always fits in an `unsigned long` |
| Pages.FirstNul | page.c:32 | `strlen`: the first NUL of a terminated buffer; no NUL comes before it |
| Pages.Hash | page.c:28-36 | the loop that folds bytes until the NUL computes djb2 of exactly the bytes before the first NUL |
| Pages.FirstNulOfCString | page.c:32 | a NUL-free text with its terminator stops the walk at its own length, so `hash` of a C string is djb2 of its text |
| Pages.Djb2Examples | page.c:29 | the empty string hashes to the seed 5381; one byte folds in once |
| Pages.KeyHash | page.c:40-42 | `key_hash` is below 2^64 |
| Pages.KeyEqual | page.c:45-55 | `key_equal`: the same pointer gives true; different lengths give false; the result is true exactly when the key bytes are identical |
| Pages.KeyHashRespectsKeyEqual | page.c:40-55 | keys that compare equal hash equal, whichever pointers carry them |
| RecencyList.PromoteFacts | src/list.c:145-159 | promotion keeps the length and the multiset of nodes, puts the promoted node first and keeps every other node's relative order |
| RecencyList.IndexOf | src/list.c:145-159 | the position of a node is its first occurrence |
| RecencyList.PromoteHead | src/list.c:146-148 | promoting the head changes nothing |
| RecencyList.Node.constructor | src/list.c:51-58 | `create_list_node` zero-fills a node, so both links are null; `list_push_front` and `list_push_back` then set its page |
| RecencyList.List.constructor | src/list.c:28-38 | `create_list`: an empty list with null head and tail and size 0 |
| RecencyList.List.Pages | src/list.c:5-9 | the pages of the nodes from head to tail |
| RecencyList.List.NodeGetPage | src/list.c:19-21 | `list_node_get_page`: the page of the node at the node's position |
| RecencyList.List.IsEmpty | src/list.c:24-26 | `is_list_empty`: true exactly when the list has no nodes, which is exactly when the size is 0 |
| RecencyList.List.Length | src/list.c:162-164 | `list_length`: the counter equals the number of nodes, and is 0 exactly when the list is empty |
| RecencyList.List.Front | src/list.c:127-133 | `list_front`: the head's page, or null exactly when the list is empty |
| RecencyList.List.Back | src/list.c:136-142 | `list_back`: the tail's page, or null exactly when the list is empty |
| RecencyList.List.PushFront | src/list.c:66-79 | `list_push_front`: a fresh node holding the page becomes the head in front of the old nodes; size grows by one; it is also the tail of an empty list |
| RecencyList.List.PushBack | src/list.c:82-94 | `list_push_back`: a fresh node becomes the tail after the old nodes; size grows by one; it is also the head of an empty list |
| RecencyList.List.PopFront | src/list.c:97-109 | `list_pop_front`: exactly the head is removed and size drops by one; the last pop nulls head and tail |
| RecencyList.List.PopBack | src/list.c:112-124 | `list_pop_back`: exactly the tail is removed and size drops by one; the last pop nulls head and tail |
| RecencyList.List.Unlink | src/list.c:149-154 | the first half of `list_move_upfront`: the node is spliced out; its predecessor becomes the tail if it was the tail |
| RecencyList.List.LinkFront | src/list.c:155-158 | the second half of `list_move_upfront`: the node is linked in front of the head |
| RecencyList.List.MoveUpfront | src/list.c:145-159 | `list_move_upfront`: the node list becomes the promotion of the node; it changes nothing if the node is the head; a moved tail's predecessor becomes the tail; size is unchanged |
| RecencyList.List.Delete | src/list.c:41-48 | `delete_list`: pops from the back until empty, exactly size times |
| CList.Node.constructor | clist.c:42-44 | `create_list_node` zero-fills a node, so both links are null; the push operations then set its page |
| CList.List.constructor | clist.c:23-29 | `create_list`: an empty list |
| CList.List.Pages | clist.c:5-9 | the pages of the nodes from head to tail |
| CList.List.IsEmpty | clist.c:18-20 | `is_list_empty`: true exactly when the list has no nodes |
| CList.List.Length | clist.c:119-128 | `list_length`: walking `next` from the head counts exactly the nodes |
| CList.List.Front | clist.c:103-109 | `list_front`: the head's page, or null exactly when empty |
| CList.List.Back | clist.c:111-117 | `list_back`: the tail's page, or null exactly when empty |
| CList.List.PushFront | clist.c:52-63 | `list_push_front`: the page is prepended to the pages |
| CList.List.PushBack | clist.c:65-75 | `list_push_back`: the page is appended to the pages |
| CList.List.PopFront | clist.c:77-88 | `list_pop_front`: exactly the first node goes; the last pop nulls head and tail |
| CList.List.PopBack | clist.c:90-101 | `list_pop_back`: exactly the last node goes; the last pop nulls head and tail |
| CList.List.Delete | clist.c:32-39 | `delete_list`: the loop pops from the back exactly length times |
| CList.PushPopScenario | tests/test.c:26-57 | a new list has length 0; after pushing page1 its length is 1 and both ends are page1; after pushing page2 to the back, the back is page2 and the length is 2 |
| HashIndex.BucketOf | chashtable.c:155-157 | `get_bucket`: `key_hash(key) % n_buckets` is a valid bucket |
| HashIndex.NeedsRehash | chashtable.c:143-144 | the resize condition on integers holds exactly when the exact load `n_entries / n_buckets` is above `MAX_LOAD_FACTOR` or below a quarter of it |
| HashIndex.LoadFactor | chashtable.c:143-144 | comparing the load with 1 and with 1/4 is comparing `n_entries` with `n_buckets` and `4 * n_entries` with `n_buckets` |
| HashIndex.NewBucketCount | chashtable.c:146-150 | the bucket count changes exactly when a resize is due, grows exactly when the load is above the maximum and shrinks exactly when it is below a quarter of it |
| HashIndex.RehashRestoresLoad | chashtable.c:142-152 | the resize condition is integer arithmetic. After one put or delete, a resize leaves at least one bucket and the load no longer triggers it |
| HashIndex.LookupNone | chashtable.c:160-173 | a chain walk finds nothing exactly when no entry has the key |
| HashIndex.LookupAt | chashtable.c:160-173 | in a chain without repeated keys, the walk for an entry's key finds that entry |
| HashIndex.LookupSnoc | chashtable.c:160-173 | appending an entry to a chain adds its key only if the key was absent |
| HashIndex.LookupOverwrite | chashtable.c:84-86 | overwriting an entry's node changes the lookup of that key only |
| HashIndex.LookupRemove | chashtable.c:114-128 | unlinking an entry loses its key and nothing else |
| HashIndex.InsertNewKey | chashtable.c:87-96 | a new entry at the head of its bucket adds exactly its key and keeps the table well formed |
| HashIndex.OverwriteKey | chashtable.c:83-86 | overwriting an entry found in the table maps its key to the new node and changes nothing else |
| HashIndex.RemoveKey | chashtable.c:114-131 | unlinking an entry removes exactly its key from the mapping |
| HashIndex.MoveNext | chashtable.c:145-147 | visiting one more entry during a rehash (or the release walk of `delete_hashtable`) adds exactly that entry's mapping, whose key was not visited before |
| HashIndex.NextBucket | chashtable.c:145-147 | finishing a bucket of the walk moves on to the next |
| HashIndex.AllMoved | chashtable.c:145-147 | once every bucket is visited, the visited mapping is the whole mapping |
| HashIndex.MoveChain | chashtable.c:145-147 | re-chaining one old bucket into the new buckets keeps the new buckets well formed and adds exactly that bucket's mappings |
| HashIndex.Rebuild | chashtable.c:145-150 | re-chaining every entry into `count` new buckets gives a table with the same key-to-node mapping |
| HashIndex.HashTable.constructor | chashtable.c:41-46 | `create_hashtable`: no buckets, no entries, the empty mapping |
| HashIndex.HashTable.GetBucket | chashtable.c:155-157 | `get_bucket`: the bucket of the key, and the only bucket where the key can be |
| HashIndex.HashTable.FindEntry | chashtable.c:160-173 | `find_entry`: no entry on an empty table without touching buckets; otherwise the position in the key's bucket of the entry with an equal key, or none exactly when the key is absent |
| HashIndex.HashTable.Get | chashtable.c:65-72 | `hashtable_get`: the node the key maps to, or null exactly when the key is absent |
| HashIndex.HashTable.Rehash | chashtable.c:142-152 | `rehash`: the mapping and count are unchanged; the bucket count doubles or drops to a quarter when the load is out of bounds, and nothing changes otherwise |
| HashIndex.HashTable.PutFirst | chashtable.c:76-81 | a put on an empty table creates one bucket holding just the new entry |
| HashIndex.HashTable.Overwrite | chashtable.c:83-86 | an overwrite replaces the entry's node in place, keeps the count, and maps the key to the new node |
| HashIndex.HashTable.InsertAtHead | chashtable.c:87-96 | a new key's entry becomes the head of its bucket and the count grows by one |
| HashIndex.HashTable.Put | chashtable.c:75-101 | `hashtable_put`: the key maps to the node and every other mapping is unchanged. The count grows only for a new key. The first put gives one bucket. An overwrite keeps the entries in place. Without a resize, a new entry heads its bucket |
| HashIndex.HashTable.Unlink | chashtable.c:114-131 | the chain surgery removes exactly that entry and its key, and decrements the count |
| HashIndex.HashTable.DeleteEntry | chashtable.c:104-139 | `hashtable_delete_entry`: true exactly when the key was present. It returns false with nothing changed otherwise. Only that key leaves the mapping. Reaching 0 entries releases the buckets and resets the bucket count |
| HashIndex.HashTable.Destroy | chashtable.c:49-62 | `delete_hashtable`: the walk over every chain of every bucket releases each entry exactly once, so the number released is `n_entries`; the table is left with no buckets and the empty mapping |
| HashIndexAsWritten.LinkAsWritten | chashtable.c:89-96 | the new-key branch as written leaves a single entry in the bucket |
| HashIndexAsWritten.LinkAsWrittenLosesKeys | chashtable.c:93-95 | linking into an occupied bucket as written loses the new key and every key behind the old head |
| HashIndexAsWritten.Overwritten | chashtable.c:84-86 | the overwrite branch keeps the chain's length |
| HashIndexAsWritten.OverwrittenLookup | chashtable.c:84-86 | after the overwrite, the key finds the new node |
| HashIndexAsWritten.PutAsWritten | chashtable.c:82-101 | `hashtable_put` as written on a table that holds entries keeps the bucket count |
| HashIndexAsWritten.PutAsWrittenKeepsChainsShort | chashtable.c:82-101 | if no chain holds more than one entry, none does after a put as written, so a chain of two entries never arises as written |
| HashIndexAsWritten.PutAsWrittenMiscounts | chashtable.c:99 | an overwrite as written leaves the key count unchanged but increments `n_entries` |
| HashIndexAsWritten.PutNewKeyAsWrittenIsLost | chashtable.c:87-96 | a new key put into an occupied bucket as written is not found afterwards, so the table no longer holds the mapping |
| HashIndexAsWritten.DeleteAsWritten | chashtable.c:114-128 | the surgery as written crashes exactly on a sole entry and otherwise shortens the chain. Chains of two or more entries, and so the other cases, arise only once the put path is corrected |
| HashIndexAsWritten.DeleteAsWrittenGoesWrong | chashtable.c:114-128 | for every position, the surgery as written crashes or leaves a chain other than the one without that entry. The head's successor is always lost. Either the head goes with it or the entry to delete survives. As written only the sole-entry case is reachable |
| HashIndexAsWritten.PutCountersAsWritten | chashtable.c:76-78 | every put as written increments the entry count |
| HashIndexAsWritten.DeleteCountersAsWritten | chashtable.c:131-137 | a delete as written decrements the entry count |
| HashIndexAsWritten.StaleBucketCount | chashtable.c:78 | the counters of put, delete, put as written leave `n_buckets` at 2 over a one-slot array, and the key "b" then selects slot 1. The delete of the sole entry in between crashes as written, so this is reached only once the chain surgery is corrected |
| LruCache.KeysOf | cache.c:46 | the keys of the pages of a node sequence, position by position |
| LruCache.KeysOfCons | src/list.c:66-79 | pushing a node in front pushes its page's key in front of the keys |
| LruCache.KeysOfPrefix | src/list.c:112-124 | dropping the tail drops the last key |
| LruCache.KeysOfPromote | src/list.c:145-159 | promoting a node promotes its key |
| LruCache.LruStep | cache.c:38-57 | the policy of `cached_call`: the accessed key comes first; the length stays the same on a hit or a full miss, and grows by one on a miss with room |
| LruCache.LruStepFacts | cache.c:38-57 | after an access the accessed key is most recent. The capacity is never exceeded. No key is resident twice |
| LruCache.LruStepMembers | cache.c:38-57 | the keys resident after an access are the accessed key plus the old keys. On a miss with a full cache, the least recently used key is excluded |
| LruCache.LruStepKeepsFront | cache.c:43-50 | with room for two pages, the most recent key is still resident after any access |
| LruCache.Replay | cache.c:38-57 | replaying accesses misses, and so calls the loader, at most once per access |
| LruCache.ReplayKeepsBounds | cache.c:38-57 | however many accesses are replayed, the resident keys stay distinct and within capacity |
| LruCache.ReplayStep | cache.c:38-57 | one access, then the rest |
| LruCache.ScenarioFill | cache.c:41-50 | with capacity 3, accessing key0..key3 misses each time and the fourth access drops key0 |
| LruCache.ScenarioRevisit | cache.c:38-57 | then key2 and key1 hit and move to the front, and key0 misses and drops key3 |
| LruCache.ScenarioTail | cache.c:38-57 | those last three accesses call the loader once |
| LruCache.EvictionScenario | cache.c:38-57 | key0..key3 in a cache of 3 call the loader 4 times; going on with key2, key1, key0 calls it a fifth time and leaves key0, key1, key2 |
| LruCache.ScenarioFirstFour | cache.c:41-50 | the first four accesses of that scenario miss four times and leave key3, key2, key1 |
| LruCache.ReplayConcat | cache.c:38-57 | replaying two runs of accesses in a row is replaying the second from where the first ends, and the misses add up |
| LruCache.IndexedKeys | cache.c:39 | when the index and the list agree, a key is indexed exactly when it is resident, and no key is resident twice |
| LruCache.IndexedHit | cache.c:39-53 | the node the index gives for a key is the list node holding that key's page |
| LruCache.IndexedPromote | cache.c:53 | moving a node to the front keeps the index and the list in agreement |
| LruCache.IndexedEvict | cache.c:44-46 | dropping the tail node and its key keeps them in agreement |
| LruCache.KeysOfLruStep | cache.c:38-57 | the policy applied to the list nodes and the policy applied to the resident keys agree, for a resident node or a new node whose key is not indexed |
| LruCache.KeysOfLruHit | cache.c:51-54 | for a resident node, the node step and the key step promote the same position |
| LruCache.KeysOfLruMiss | cache.c:43-50 | for a new node with a new key, the node step and the key step push in front and drop the same last entry |
| LruCache.IndexedPush | cache.c:49-50 | pushing a new node and indexing its key keeps them in agreement |
| LruCache.Cache.constructor | cache.c:18 | an empty index and list, with the given capacity and no loader calls |
| LruCache.Cache.Length | cache.c:60-62 | `cache_length`: the number of resident keys, equal to the index's entry count and at most the capacity |
| LruCache.Cache.Evict | cache.c:43-48 | a full cache drops exactly its tail node from the list and that node's key from the index; every other node and mapping stays. A cache with room is unchanged |
| LruCache.Cache.Insert | cache.c:49-50 | a fresh node holding the new page goes in front of the old nodes, and the index gains exactly its key, mapped to it |
| LruCache.Cache.Touch | cache.c:53 | the node list becomes the promotion of the hit's node, so the keys are promoted too; the index is unchanged |
| LruCache.Cache.Miss | cache.c:41-50 | a miss calls the loader exactly once. The keys and the nodes both follow `LruStep` with a fresh node at the front; the index loses the evicted key, if any, and gains the new one |
| LruCache.Cache.Hit | cache.c:51-54 | a hit returns the indexed node's page and does not call the loader. The keys and the nodes follow `LruStep`; the index is unchanged |
| LruCache.Cache.CachedCall | cache.c:38-57 | `cached_call`: the page for the key. The keys and the list nodes follow `LruStep`, so the key is at the front and the length stays within capacity. Every key indexed before and after the call keeps its node, and so its page. A hit returns the stored page without calling the loader. A miss returns a fresh page of the loader's payload after exactly one call. The index and the list still agree |
| LruCache.Cache.Destroy | cache.c:25-35 | `delete_cache`: releases the index, then every page from the tail, least recently used first, then the list |
| LruCache.ReleasePages | cache.c:28-32 | the loop of `delete_cache` empties the list and releases each of its pages exactly once, from the tail to the head |
| LruCache.CreateCache | cache.c:14-22 | `create_cache`: null exactly for size 0, otherwise an empty valid cache of that capacity |
| LruCache.CallTwice | cache.c:38-57 | two calls with the same key return the same page and call the loader at most once |
| LruCache.CallKeepsFront | cache.c:38-57 | with room for two pages, a call for any key leaves the most recent key indexed to the same node |
| LruCache.RecallAfterOther | cache.c:38-57 | with room for two pages, asking again for the most recent key after one call for any other key returns its page |
| LruCache.CallAroundOther | cache.c:38-57 | with room for two pages, loading a key, asking for any other key, then asking for the first key again returns the first page, with at most two loader calls |
| LruCache.Access | cache.c:38-57 | one `cached_call` is one step of the policy: the resident keys follow `LruStep`, and the loader is called once exactly when the key was not resident |
| LruCache.CallAll | cache.c:38-57 | `cached_call` for a sequence of keys leaves the resident keys of `Replay` over their texts and calls the loader exactly as many times as `Replay` counts misses |
| LruCache.FillOnCache | cache.c:38-57 | on a cache of three pages, `cached_call` for key0..key3 calls the loader four times and leaves key3, key2, key1 |
| LruCache.EvictionScenarioOnCache | cache.c:38-57 | going on with key2, key1, key0 calls the loader a fifth time and leaves key0, key1, key2 |

## Left out

- Memory: allocation failures (`malloc`/`calloc` returning null) are not modelled. `free` and `delete_page` are removal from the abstract state; released objects simply stay unreferenced. The cache struct itself is never freed by `delete_cache` (cache.c:25-35), and the model does not free it either.
- The hash table's bucket array is a sequence value, and each entry's `next` link is its position in its chain. The model therefore does not capture aliasing of entries between buckets, nor the identity of an entry across a rehash.
- Keys are C strings. The table keeps the key pointer it was given; the lifetime of the memory behind that pointer is not modelled.
- `rehash` (chashtable.c:142-152) is an empty stub in the source. The model gives it the behaviour its comments describe: double the buckets when the load exceeds 1, divide them by four when the load falls below 1/4.
  - The float load factor is replaced by integer comparisons. `HashIndex.LoadFactor` proves them equal to comparing the exact quotient. They agree with the C's `float` arithmetic while the counts stay below 2^24. Beyond that the `float` quotient rounds: 16777217 / 16777216 gives 1.0f, which is not above 1.
  - The code calls `rehash` after every put (chashtable.c:100) and after every delete that leaves entries (chashtable.c:133-134).
  - The model resizes after a put of a new key into a non-empty table, and after such a delete.
  - The model does not call it after an overwrite or after the first put. There the load is unchanged or exactly 1, so the resize would change nothing.
- Behaviour of chashtable.c that the module HashIndex models as intended rather than as written:
  - `create_hashtable` does not return its table (chashtable.c:41-46).
  - `delete_hashtable` uses an undeclared `table` (chashtable.c:49-62).
  - `hashtable_delete_entry` returns no value on its success path: the body of a `bool` function ends without a `return` (chashtable.c:128-139), so a caller that reads the result has undefined behaviour. The model returns true there.
  - Four further divergences are under "## Findings".
- `size_t` and `unsigned long` counters are unbounded integers, except djb2, which wraps at 2^64 as `unsigned long` does on LP64 platforms.
- The loader is a function from the key's text to the page's payload. The cache builds the page from the requested key and that payload. The loader's own allocation is not modelled.
- In the C the loader returns a whole `page_t*`, and `cached_call` never checks its `key` (cache.c:42). Eviction later deletes `del_page->key` from the index (cache.c:46). The model assumes the loader sets the page's key to the requested key. A loader that does not would make an eviction delete the wrong key and leave an index entry that points at a freed node. The agreement `LruCache.Indexed` between index and list does not hold for such a loader.
- `list_pop_front` and `list_pop_back` on an empty list dereference a null `head` or `tail` (src/list.c:98-99, src/list.c:113-114, clist.c:78-79, clist.c:91-92). The model's `PopFront` and `PopBack` in both list modules require a non-empty list, so that crash is not modelled; `delete_list` and `delete_cache` pop only while the list is non-empty.
- `delete_cache(NULL)` (cache.c:26) and `delete_list(NULL)` (src/list.c:42, clist.c:33) do nothing in the C. The model's `Destroy` and `Delete` are methods of an existing object, so the null case is not modelled.
- Pages.CopyPage: `copy_page` (page.c:15-18) copies only the payload, because `page.h` has no key field. The model's page also carries the key of `src/page.h`, and the copy copies it too.
- `list_print` (src/list.c:167-180, clist.c:130-143) and tests/test_manual.c only print, and are not part of this model.

## Findings

| source | as written | input that shows it | evidently intended | confidence | as-written member | corrected member |
|---|---|---|---|---|---|---|
| chashtable.c:99 | `++htable->n_entries` also runs after the overwrite branch | put key "a" twice: one key, `n_entries` 2 | the count grows only for a new key | not executed | HashIndexAsWritten.PutAsWrittenMiscounts | HashIndex.HashTable.Put |
| chashtable.c:93-95 | the new entry points at the old head, but the bucket keeps the old head and the head's `next` is cut | put "a", then "b" into the single bucket: `hashtable_get("b")` returns null | the new entry becomes the bucket's head, in front of the old chain | not executed | HashIndexAsWritten.PutNewKeyAsWrittenIsLost | HashIndex.InsertNewKey |
| chashtable.c:116-118 | the head's successor is compared with the entry, and `entry = test_entry->next` assigns | delete the only entry: null dereference. As written every chain holds at most one entry (`HashIndexAsWritten.PutAsWrittenKeepsChainsShort`), so every delete reaches this. A two-entry chain arises only once the put path is corrected as in `HashIndex.InsertNewKey`; deleting its head then removes the other entry | unlink exactly the entry found | not executed | HashIndexAsWritten.DeleteAsWrittenGoesWrong | HashIndex.RemoveKey |
| chashtable.c:78 | `++htable->n_buckets` on the first put, and no reset when the last entry is deleted (136-137) | put "a", delete "a", put "a": `n_buckets` 2 over one slot; `get("b")` reads slot 1. As written the delete crashes first (previous row), so this shows only once the chain surgery is corrected | set the bucket count to 1 on the first put and to 0 when the array is freed | not executed; masked as written by the delete crash | HashIndexAsWritten.StaleBucketCount | HashIndex.HashTable.PutFirst |
