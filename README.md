# kvstore in Dafny

A Dafny model of the storage core of the `kvstore` Java project, with proofs
about it. The project has five storage components:

- **LSMTree** (`LSMTrees.LSMTree`): a sorted memTable in front of a list of
  SSTables. `put` writes to the memTable. A null value is a delete (a
  tombstone). Once the memTable holds `MAX_MEMTABLE_SIZE` (100) entries it is
  flushed into a new SSTable. `get` asks the memTable first, then the SSTables
  in creation order. `containsKey` ignores memTable tombstones. `getKeyRange`
  lists the live memTable keys of a range, then the live SSTable keys that are
  not memTable keys.
- **SSTable** (`SSTables`): an immutable table. It holds a file text of
  `key:value` lines and an in-memory copy of the sorted map. `loadFromFile`
  parses such a file with Java's `split(":")` rules.
- **LRUCache** (`LRUCaches.LRUCache`): a `LinkedHashMap` in access order
  whose `removeEldestEntry` evicts the least recently used entry once the size
  exceeds the capacity. The model keeps the map and the recency order (eldest
  first) as two fields.
- **WriteAheadLog** (`WriteAheadLogs.WriteAheadLog`): appends each operation
  as a line to a log file and keeps the operations in memory. `recoverLog`
  reads the file back line by line. `clearLog` truncates the file.
- **KeyValueStore** (`KeyValueStores.KeyValueStore`): a hash map persisted to
  a data file of `key=value` lines. The file is loaded on construction and
  rewritten after a `put` whose key and value pass validation, and after a
  `batchPut` whose pairs all pass it.

Shared definitions:

- `Order` defines `String.compareTo`: the first differing character, else
  the length difference. All orderings and key ranges are derived from it.
- `TreeMap` models a `TreeMap<String, String>` as a strictly sorted sequence
  of entries. A `None` value is Java's `null`.
- `Text` models a file as its text. It defines `BufferedReader.readLine` and
  `Files.lines`, which end a line at `\n`, `\r` or `\r\n`. It also defines the
  text written by one `write(line + "\n")` per line.

A missing file or a failing Java call becomes an error value (`Result`,
`Option`). A `HashMap` iteration, whose order Java does not fix, becomes a
loop that picks any remaining key.

## Model

| member | source | states |
|---|---|---|
| Order.CompareToZero | src/main/java/kvstore/KeyValueStore.java:36 | compareTo is 0 exactly when the two strings are equal |
| Order.CompareToFlip | src/main/java/kvstore/KeyValueStore.java:36 | compareTo is antisymmetric: swapping the arguments negates the result |
| Order.LexLtTransitive | src/main/java/kvstore/LSMTree.java:11 | the key order a TreeMap sorts by is transitive |
| Order.LexLtTrichotomy | src/main/java/kvstore/LSMTree.java:11 | any two keys are equal or strictly ordered one way, never both ways |
| Order.LexLeTransitive | src/main/java/kvstore/LSMTree.java:59 | the inclusive range bound order is transitive |
| Text.ReadLines | src/main/java/kvstore/WriteAheadLog.java:48-52 | every line returned by readLine is free of line breaks |
| Text.ReadJoinedLines | src/main/java/kvstore/WriteAheadLog.java:33-55 | lines without breaks, each written with a trailing "\n", read back as exactly those lines |
| Text.ReadLinesAppend | src/main/java/kvstore/WriteAheadLog.java:36-37 | appending to a file that ends in a line break adds the appended lines after the existing ones |
| Text.IndexOf | src/main/java/kvstore/KeyValueStore.java:66 | the first position of the separator, or the length when it is absent |
| TreeMap.Lookup | src/main/java/kvstore/SSTable.java:37 | a key is found exactly when some entry carries it |
| TreeMap.LookupAt | src/main/java/kvstore/SSTable.java:37 | in a sorted map, looking up an entry's key gives that entry's value |
| TreeMap.Insert | src/main/java/kvstore/LSMTree.java:19 | put maps the key to the new value and leaves every other key's lookup unchanged |
| TreeMap.InsertSorted | src/main/java/kvstore/LSMTree.java:19 | put keeps the map sorted with distinct keys |
| TreeMap.InsertSize | src/main/java/kvstore/LSMTree.java:19-20 | put grows the map by one exactly when the key is new |
| TreeMap.LiveIffValue | src/main/java/kvstore/LSMTree.java:61 | a key has a non-null entry exactly when get returns a non-null value |
| TreeMap.LiveKeysInRange | src/main/java/kvstore/SSTable.java:45-52 | the keys listed are exactly the in-range keys with non-null values, in strictly ascending order |
| SSTables.Read | src/main/java/kvstore/SSTable.java:36-38 | read returns the value stored for the key, and null for an absent key |
| SSTables.CreateFromMemTable | src/main/java/kvstore/SSTable.java:22-31 | the table copies the memTable, writes one key:value line per entry in key order, and reads back every key as the memTable holds it |
| SSTables.SerialisedLines | src/main/java/kvstore/SSTable.java:24-27 | reading the written file gives one line per entry |
| SSTables.GetKeyRange | src/main/java/kvstore/SSTable.java:43-55 | fails exactly when startKey is after endKey; otherwise returns the non-deleted keys in the inclusive range in ascending order |
| SSTables.JavaSplit | src/main/java/kvstore/SSTable.java:66 | no part returned by split(":") contains ':' |
| SSTables.DropTrailingEmpty | src/main/java/kvstore/SSTable.java:66 | split drops exactly the trailing empty parts and keeps the rest as a prefix |
| SSTables.ParseTable | src/main/java/kvstore/SSTable.java:63-72 | parsing yields a sorted map, and fails exactly when some line has no parts |
| SSTables.LoadFromFile | src/main/java/kvstore/SSTable.java:60-76 | the loader succeeds exactly when every line parses, and then holds the file text and the parsed map |
| SSTables.ParseWrittenLine | src/main/java/kvstore/SSTable.java:66-68 | a key:value line with colon-free parts and a non-empty value parses back to that entry |
| SSTables.RoundTrip | src/main/java/kvstore/SSTable.java:22-76 | loading the file created from a memTable of reloadable entries gives back the same map |
| SSTables.TombstoneReloadsAsNullString | src/main/java/kvstore/SSTable.java:26 | a deleted entry is written as key:null and reloads as the four-letter string "null", not as a deletion |
| SSTables.ColonValueIsLost | src/main/java/kvstore/SSTable.java:66-71 | a value containing ':' never reloads as itself |
| SSTables.InnerColonReloadsAsTombstone | src/main/java/kvstore/SSTable.java:66-70 | a value with one inner ':' splits into three parts and reloads as a deletion |
| SSTables.EmptyValueReloadsAsTombstone | src/main/java/kvstore/SSTable.java:66-70 | an empty value leaves a trailing empty part that split drops, so it reloads as a deletion |
| SSTables.ParseLineFails | src/main/java/kvstore/SSTable.java:66-70 | a line fails to parse exactly when it is non-empty and consists only of ':' characters |
| SSTables.SplitAllOnlySeparators | src/main/java/kvstore/SSTable.java:66 | all parts are empty exactly when the line holds only separators |
| SSTables.DropTrailingEmptyNone | src/main/java/kvstore/SSTable.java:66 | split returns no parts exactly when every raw part is empty |
| SSTables.LaterLineWins | src/main/java/kvstore/SSTable.java:65-71 | for a key carried by several lines of a loadable file, the value loaded is the one on the last line carrying it, wherever the earlier lines are |
| LSMTrees.FirstValue | src/main/java/kvstore/LSMTree.java:32-36 | the SSTable scan returns null exactly when every table reads null, else a value from a table with no earlier non-null read |
| LSMTrees.Visible | src/main/java/kvstore/LSMTree.java:28-37 | a memTable key answers with its memTable value, tombstone included; otherwise the first non-null SSTable value |
| LSMTrees.AfterPut | src/main/java/kvstore/LSMTree.java:18-23 | after put the memTable stays below the threshold, existing tables are kept, a flush appends a table holding the updated map, and without a flush only the key's lookup changes |
| LSMTrees.FirstValueAppend | src/main/java/kvstore/LSMTree.java:32-35 | a newly flushed table is consulted only when every older table reads null |
| LSMTrees.GetAfterPut | src/main/java/kvstore/LSMTree.java:18-37 | get after put returns the value put, unless the put flushed and an older table already holds a non-null value for the key |
| LSMTrees.OldestTableWins | src/main/java/kvstore/LSMTree.java:32-35 | with flushes after each put, the older value of an overwritten key is the one get returns |
| LSMTrees.ContainsKeyDisagreesWithGet | src/main/java/kvstore/LSMTree.java:28-52 | over a memTable tombstone, containsKey finds a flushed value while get returns null |
| LSMTrees.NewKeys | src/main/java/kvstore/LSMTree.java:68-74 | a listed key is added exactly when it is not a memTable key and the table reads it non-null |
| LSMTrees.TablesRangeKeys | src/main/java/kvstore/LSMTree.java:66-76 | every key the SSTable pass adds is in range, absent from the memTable, and read non-null from some table, so SSTable tombstones are never listed |
| LSMTrees.TablesRangeKeysComplete | src/main/java/kvstore/LSMTree.java:66-76 | every in-range key that is absent from the memTable and live in some table is added |
| LSMTrees.RangeKeysMeaning | src/main/java/kvstore/LSMTree.java:57-79 | the result starts with the live memTable keys in ascending order and holds only in-range keys; the keys after them are absent from the memTable and read non-null from some table; a memTable tombstone is never listed; every live memTable key in range, and every in-range key live in a table and absent from the memTable, is listed |
| LSMTrees.RangeKeysRepeatAcrossTables | src/main/java/kvstore/LSMTree.java:66-76 | a key live in two SSTables is listed at least twice, since duplicates are only checked against the memTable |
| LSMTrees.LSMTree.constructor | src/main/java/kvstore/LSMTree.java:11-13 | a new tree has an empty memTable and no SSTables |
| LSMTrees.LSMTree.Put | src/main/java/kvstore/LSMTree.java:18-23 | the new state is AfterPut with threshold MAX_MEMTABLE_SIZE; the tree stays valid and older tables are kept |
| LSMTrees.LSMTree.FlushMemTableToDisk | src/main/java/kvstore/LSMTree.java:85-89 | appends a snapshot of the memTable as a new table and empties the memTable |
| LSMTrees.LSMTree.Get | src/main/java/kvstore/LSMTree.java:28-37 | returns the Visible value of the key |
| LSMTrees.LSMTree.ContainsKey | src/main/java/kvstore/LSMTree.java:39-52 | true exactly when the memTable holds a non-null value or some SSTable reads non-null |
| LSMTrees.LSMTree.AddNewKeys | src/main/java/kvstore/LSMTree.java:67-75 | the inner loop appends exactly the NewKeys of one table |
| LSMTrees.LSMTree.GetKeyRange | src/main/java/kvstore/LSMTree.java:57-79 | fails exactly when startKey is after endKey; otherwise returns RangeKeys |
| LRUCaches.Without | src/main/java/kvstore/LRUCache.java:16 | removing a key from the recency order drops exactly that key, leaves an order without it unchanged, and shortens a distinct order by one when it was present |
| LRUCaches.WithoutKeepsOrder | src/main/java/kvstore/LRUCache.java:16 | in a distinct order, removing a key cuts it out at its position; the keys before and after it keep their relative order |
| LRUCaches.Touch | src/main/java/kvstore/LRUCache.java:16 | an access moves the key from its position to the most-recent end, the other keys keeping their relative order; a key not yet in the order is appended; the order stays distinct |
| LRUCaches.LRUCache.constructor | src/main/java/kvstore/LRUCache.java:14-21 | a cache with a positive capacity starts empty |
| LRUCaches.LRUCache.ContainsKey | src/main/java/kvstore/LRUCache.java:11 | true exactly when the key is cached; the recency order is untouched |
| LRUCaches.LRUCache.Get | src/main/java/kvstore/LRUCache.java:16 | returns the cached value or null; a hit makes the key most recent and changes no mapping |
| LRUCaches.LRUCache.Put | src/main/java/kvstore/LRUCache.java:16-35 | returns the previous value; an existing key is updated and made most recent; a new key is appended; at capacity the least recently used key is evicted first |
| LRUCaches.LRUCache.Refresh | src/main/java/kvstore/LRUCache.java:16 | updating a cached key keeps the size and makes the key most recent |
| LRUCaches.LRUCache.Insert | src/main/java/kvstore/LRUCache.java:28-35 | inserting a new key appends it, and evicts the eldest key when the size would exceed the capacity |
| LRUCaches.LRUCache.EvictEldest | src/main/java/kvstore/LRUCache.java:28-35 | removes the eldest entry from the map and the order |
| LRUCaches.LRUCache.Remove | src/main/java/kvstore/LRUCache.java:11 | returns the previous value and drops the key from the map and the order |
| LRUCaches.NewLRUCache | src/main/java/kvstore/LRUCache.java:14-21 | a negative capacity fails in the LinkedHashMap constructor, a zero capacity fails the positivity check, and otherwise the cache starts empty |
| LRUCaches.PutThree | src/test/java/com.kvstore/LRUCacheTest.java:24-27 | in a cache of capacity 2, a third distinct key evicts the first and keeps the other two |
| LRUCaches.EvictionScenario | src/test/java/com.kvstore/LRUCacheTest.java:24-31 | after key1, key2, key3, get(key1) is null and key2, key3 keep their values |
| LRUCaches.PutThenGet | src/test/java/com.kvstore/LRUCacheTest.java:18-20 | get right after put returns the value put and leaves the key most recent |
| WriteAheadLogs.WriteAheadLog.constructor | src/main/java/kvstore/WriteAheadLog.java:20-27 | an existing file is kept as is; a missing one is created empty; the in-memory log starts empty |
| WriteAheadLogs.WriteAheadLog.LogOperation | src/main/java/kvstore/WriteAheadLog.java:33-39 | the operation is appended to the in-memory list and, followed by "\n", to the file; the log stays valid |
| WriteAheadLogs.WriteAheadLog.RecoverLog | src/main/java/kvstore/WriteAheadLog.java:45-55 | returns the file's lines, or an error when the file is missing |
| WriteAheadLogs.WriteAheadLog.ClearLog | src/main/java/kvstore/WriteAheadLog.java:61-65 | empties the file and the in-memory list; a missing file is an error and nothing changes |
| WriteAheadLogs.RecoverLoggedOperations | src/main/java/kvstore/WriteAheadLog.java:33-55 | recovery returns the earlier file lines followed by every logged operation in order |
| WriteAheadLogs.UnterminatedContentJoinsFirstOperation | src/main/java/kvstore/WriteAheadLog.java:36-37 | appending to a file with no final line break merges the first logged operation into its last line |
| WriteAheadLogs.LogAll | src/main/java/kvstore/WriteAheadLog.java:33-39 | logging several operations appends them in order and keeps the log valid |
| WriteAheadLogs.RestartScenario | src/test/java/com.kvstore/WriteAheadLogTest.java:38-46 | a new log over the same file recovers every operation logged before, and starts with an empty in-memory list |
| WriteAheadLogs.ClearScenario | src/main/java/kvstore/WriteAheadLog.java:61-65 | after clearLog, recovery returns no operations |
| KeyValueStores.SplitAtFirstSeparator | src/main/java/kvstore/KeyValueStore.java:66-67 | a line without '=' is skipped; otherwise it is cut at its first '=' |
| KeyValueStores.ParseLines | src/main/java/kvstore/KeyValueStore.java:65-70 | no loaded key contains '=' |
| KeyValueStores.ParseEntryLines | src/main/java/kvstore/KeyValueStore.java:51-70 | parsing the saved lines gives back exactly the visited keys with their values |
| KeyValueStores.RoundTrip | src/main/java/kvstore/KeyValueStore.java:51-74 | loading the file saved for a map gives back that map when keys hold no '=' and nothing holds a line break |
| KeyValueStores.ReloadSaved | src/main/java/kvstore/KeyValueStore.java:51-74 | whatever iteration order the save used, loading the file gives back the saved map |
| KeyValueStores.KeyWithSeparatorReloadsSplit | src/main/java/kvstore/KeyValueStore.java:66-68 | a key containing '=' reloads cut at its first '=', the rest moving into the value |
| KeyValueStores.KeyValueStore.constructor | src/main/java/kvstore/KeyValueStore.java:15-18 | the store starts as the content loaded from the data file, or empty when there is no file |
| KeyValueStores.KeyValueStore.Put | src/main/java/kvstore/KeyValueStore.java:21-31 | a null or empty key, then a null value, is refused with nothing changed; otherwise get returns the new value for the key and the old answer for every other key, and the file holds the new store |
| KeyValueStores.KeyValueStore.ReadKeyRange | src/main/java/kvstore/KeyValueStore.java:34-39 | returns each stored pair whose key is within both bounds inclusive, exactly once, and nothing else |
| KeyValueStores.KeyValueStore.BatchPut | src/main/java/kvstore/KeyValueStore.java:41-48 | all pairs valid: all are stored and saved; otherwise an invalid pair is reported, the valid pairs applied before it stay in memory and the file is not rewritten; only pairs that passed validation are ever applied |
| KeyValueStores.KeyValueStore.SaveToFile | src/main/java/kvstore/KeyValueStore.java:51-60 | the file holds one key=value line per stored entry, in some iteration order |
| KeyValueStores.KeyValueStore.LoadFromFile | src/main/java/kvstore/KeyValueStore.java:63-74 | the file's entries are put over the current store; a missing file changes nothing |
| KeyValueStores.PersistenceScenario | src/main/java/kvstore/KeyValueStore.java:15-31 | a value put by one store is read by a new store over the same file |
| KeyValueStores.SentinelScenario | src/main/java/kvstore/KeyValueStore.java:29-31 | a stored value equal to the sentinel cannot be told apart from a missing key |

## Left out

- File I/O is modelled on in-memory file objects (`LogFile`, `DataFile`) and on an SSTable's text. Real paths, `IOException`s raised by the OS, and concurrent external changes to the files are not modelled.
- The random UUID file name of an SSTable is not modelled. An SSTable keeps its file text instead, and `getFile` is the `file` field of the `SSTable` datatype.
- `synchronized` and thread safety are not modelled; every operation is one atomic step.
- Console logging (`System.out` and `System.err`) is not modelled.
- `String.compareTo` compares UTF-16 code units. The model compares Dafny `char`s, which agree on text without surrogate pairs.
- `BufferedWriter.newLine` writes the platform line separator. The model writes "\n".
- `Files.lines` throws on malformed input; that is not modelled.
- Null keys outside validation. `KeyValueStore.get(null)` answers the not-found sentinel, since no null key is ever stored; the model's `Get` takes a non-null key, so that call is not modelled. In `readKeyRange`, a null start key throws `NullPointerException` once the store holds an entry, and a null end key once some stored key is at or after the start key; the model's bounds are non-null strings. The LSMTree methods throw on a null key through `TreeMap`; their keys are non-null in the model. `LRUCache` accepts a null key like any other; its key type `K` is generic, so an optional type covers that case. Only `put` and `batchPut` in KeyValueStore take optional keys and values, since they check for null.
- LinkedHashMap's initial capacity and load factor are only a sizing hint and are not modelled. Of its API the model has `get`, `put`, `remove`, `containsKey` and `size`.
- `readKeyRange`, `saveToFile` and `batchPut` visit a `HashMap` in an order Java does not fix. The model lets the loop pick any remaining key, so their results hold for every order.
- A second `WriteAheadLog` opened over the same file changes it behind the first one's back. The first one's `Valid()` then no longer holds; the model does not track two live instances.
- Node.java, the network handler and server, and the KeyValueStore unit test file are not part of this model.
- KeyValueStores.KeyValueStore.SaveToFile: states that the file holds the store in some iteration order, not in the order `HashMap` would use.
- LSMTrees.LSMTree.Put: the flush threshold is fixed at `MAX_MEMTABLE_SIZE`; `AfterPut` takes it as a parameter so that the lemmas can use a threshold of 1.
