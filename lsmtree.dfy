/**
 * LSMTree: a sorted memTable in front of an append-only list of SSTables.
 * Writes go to the memTable, which is flushed into a new SSTable once it
 * holds MAX_MEMTABLE_SIZE entries. Reads check the memTable, then the
 * SSTables in list order, which is creation order: the OLDEST table holding
 * a non-null value for a key wins.
 */
module LSMTrees {
  import opened Wrappers
  import opened Order
  import opened TreeMap
  import opened SSTables

  const MAX_MEMTABLE_SIZE: nat := 100

  /** The table a flush creates from a memTable: its file text and a copy of its entries. */
  function Snapshot(memTable: seq<Entry>): SSTable {
    SSTable(Serialise(memTable), memTable)
  }

  /** The first non-null read over the tables in list order; a null read does not stop the scan. */
  function FirstValue(tables: seq<SSTable>, k: string): (r: Option<string>)
    ensures r.None? <==> forall i :: 0 <= i < |tables| ==> Read(tables[i], k).None?
    ensures r.Some? ==> exists i :: 0 <= i < |tables| && Read(tables[i], k) == r && NoneBefore(tables, i, k)
  {
    if |tables| == 0 then None
    else if Read(tables[0], k).Some? then
      assert NoneBefore(tables, 0, k);
      Read(tables[0], k)
    else
      var r := FirstValue(tables[1..], k);
      assert forall i :: 1 <= i < |tables| ==> tables[1..][i - 1] == tables[i];
      assert r.Some? ==> exists i :: 0 <= i < |tables| && Read(tables[i], k) == r && NoneBefore(tables, i, k) by {
        if r.Some? {
          var i :| 0 <= i < |tables[1..]| && Read(tables[1..][i], k) == r && NoneBefore(tables[1..], i, k);
          assert NoneBefore(tables, i + 1, k);
        }
      }
      r
  }

  /** No table before index i reads k as non-null. */
  predicate NoneBefore(tables: seq<SSTable>, i: int, k: string)
    requires 0 <= i <= |tables|
  {
    forall j :: 0 <= j < i ==> Read(tables[j], k).None?
  }

  /** What get(k) returns. */
  function Visible(memTable: seq<Entry>, tables: seq<SSTable>, k: string): (r: Option<string>)
    ensures HasKey(memTable, k) ==> r == ValueOf(memTable, k)
    ensures !HasKey(memTable, k) ==> (r.None? <==> forall i :: 0 <= i < |tables| ==> Read(tables[i], k).None?)
    ensures !HasKey(memTable, k) && r.Some? ==>
      exists i :: 0 <= i < |tables| && Read(tables[i], k) == r && NoneBefore(tables, i, k)
  {
    if HasKey(memTable, k) then ValueOf(memTable, k) else FirstValue(tables, k)
  }

  /** What containsKey(k) returns: a memTable tombstone does not hide a value in an SSTable. */
  predicate Present(memTable: seq<Entry>, tables: seq<SSTable>, k: string) {
    ValueOf(memTable, k).Some? || exists i :: 0 <= i < |tables| && Read(tables[i], k).Some?
  }

  /** The state after put(k, v) with the given flush threshold. */
  function AfterPut(memTable: seq<Entry>, tables: seq<SSTable>, k: string, v: Option<string>, threshold: nat)
    : (r: (seq<Entry>, seq<SSTable>))
    ensures threshold > 0 ==> |r.0| < threshold
    ensures |tables| <= |r.1| <= |tables| + 1 && r.1[..|tables|] == tables
    ensures Sorted(memTable) ==> Sorted(r.0) && (|r.1| > |tables| ==> Sorted(r.1[|tables|].data))
    ensures |r.1| > |tables| ==> r.0 == [] && forall k' :: Read(r.1[|tables|], k') == ValueOf(Insert(memTable, k, v), k')
    ensures |r.1| == |tables| ==> forall k' :: Lookup(r.0, k') == if k' == k then Some(v) else Lookup(memTable, k')
  {
    var m := Insert(memTable, k, v);
    assert Sorted(memTable) ==> Sorted(m) by {
      if Sorted(memTable) {
        InsertSorted(memTable, k, v);
      }
    }
    if |m| >= threshold then ([], tables + [Snapshot(m)]) else (m, tables)
  }

  lemma {:induction false} FirstValueAppend(tables: seq<SSTable>, t: SSTable, k: string)
    ensures FirstValue(tables + [t], k) == if FirstValue(tables, k).Some? then FirstValue(tables, k) else Read(t, k)
  {
    if |tables| > 0 {
      assert (tables + [t])[1..] == tables[1..] + [t];
      FirstValueAppend(tables[1..], t, k);
    }
  }

  /**
   * get after put: the memTable answers with the written value unless the put
   * flushed; then an older SSTable holding a non-null value wins over it.
   */
  lemma GetAfterPut(memTable: seq<Entry>, tables: seq<SSTable>, k: string, v: Option<string>, threshold: nat)
    ensures var r := AfterPut(memTable, tables, k, v, threshold);
      Visible(r.0, r.1, k) ==
        if |r.1| == |tables| || FirstValue(tables, k).None? then v else FirstValue(tables, k)
  {
    var r := AfterPut(memTable, tables, k, v, threshold);
    assert Lookup(Insert(memTable, k, v), k) == Some(v);
    if |r.1| > |tables| {
      assert r.1 == tables + [r.1[|tables|]];
      FirstValueAppend(tables, r.1[|tables|], k);
    }
  }

  /** The oldest table wins: with every put flushing, write k = "1" then k = "2"; get(k) answers "1". */
  lemma OldestTableWins(k: string)
    ensures var r1 := AfterPut([], [], k, Some("1"), 1);
      var r2 := AfterPut(r1.0, r1.1, k, Some("2"), 1);
      |r2.1| == 2 && Visible(r2.0, r2.1, k) == Some("1")
  {
    var r1 := AfterPut([], [], k, Some("1"), 1);
    var r2 := AfterPut(r1.0, r1.1, k, Some("2"), 1);
    GetAfterPut(r1.0, r1.1, k, Some("2"), 1);
    assert Read(r1.1[0], k) == Some("1");
  }

  /** containsKey and get disagree when a memTable tombstone sits over an SSTable value. */
  lemma ContainsKeyDisagreesWithGet(k: string, v: string)
    ensures var memTable := [Entry(k, None)];
      var tables := [Snapshot([Entry(k, Some(v))])];
      Present(memTable, tables, k) && Visible(memTable, tables, k).None?
  {
    var memTable := [Entry(k, None)];
    var tables := [Snapshot([Entry(k, Some(v))])];
    assert HasKey(memTable, k) by { assert memTable[0].key == k; }
    assert Read(tables[0], k) == Some(v);
  }

  // ---------------------------------------------------------------- getKeyRange

  /** The keys the inner loop adds for one table: those it lists that are not memTable keys and read non-null. */
  function NewKeys(memTable: seq<Entry>, t: SSTable, keys: seq<string>): (r: seq<string>)
    ensures forall x :: x in r <==> x in keys && !HasKey(memTable, x) && Read(t, x).Some?
  {
    if |keys| == 0 then []
    else
      var n := |keys| - 1;
      var key := keys[n];
      assert keys == keys[..n] + [key];
      NewKeys(memTable, t, keys[..n]) + (if !HasKey(memTable, key) && Read(t, key).Some? then [key] else [])
  }

  /** The keys step 2 of getKeyRange appends, table by table in list order. */
  function TablesRangeKeys(memTable: seq<Entry>, tables: seq<SSTable>, start: string, end: string): (r: seq<string>)
    ensures forall x :: x in r ==> InRange(x, start, end) && !HasKey(memTable, x)
    ensures forall x :: x in r ==> exists i :: 0 <= i < |tables| && Read(tables[i], x).Some?
  {
    if |tables| == 0 then []
    else
      var n := |tables| - 1;
      var t := tables[n];
      var prefix := TablesRangeKeys(memTable, tables[..n], start, end);
      assert forall x :: x in prefix ==> exists i :: 0 <= i < |tables| && Read(tables[i], x).Some? by {
        forall x | x in prefix ensures exists i :: 0 <= i < |tables| && Read(tables[i], x).Some? {
          var i :| 0 <= i < n && Read(tables[..n][i], x).Some?;
          assert tables[..n][i] == tables[i];
        }
      }
      prefix + NewKeys(memTable, t, LiveKeysInRange(t.data, start, end))
  }

  /** A key in range, absent from the memTable and read non-null from some table is listed. */
  lemma {:induction false} TablesRangeKeysComplete(memTable: seq<Entry>, tables: seq<SSTable>, start: string, end: string, x: string, i: int)
    requires forall j :: 0 <= j < |tables| ==> Sorted(tables[j].data)
    requires InRange(x, start, end) && !HasKey(memTable, x)
    requires 0 <= i < |tables| && Read(tables[i], x).Some?
    ensures x in TablesRangeKeys(memTable, tables, start, end)
  {
    var n := |tables| - 1;
    if i < n {
      SortedPrefix(tables, n);
      TablesRangeKeysComplete(memTable, tables[..n], start, end, x, i);
    } else {
      NewestTableListed(memTable, tables[n], start, end, x);
    }
    TablesRangeKeysMember(memTable, tables, start, end, x);
  }

  lemma SortedPrefix(tables: seq<SSTable>, n: nat)
    requires n <= |tables| && forall j :: 0 <= j < |tables| ==> Sorted(tables[j].data)
    ensures forall j :: 0 <= j < n ==> tables[..n][j] == tables[j] && Sorted(tables[..n][j].data)
  {
  }

  /** A key in range, absent from the memTable and read non-null from the newest table is among the keys it adds. */
  lemma NewestTableListed(memTable: seq<Entry>, t: SSTable, start: string, end: string, x: string)
    requires Sorted(t.data)
    requires InRange(x, start, end) && !HasKey(memTable, x) && Read(t, x).Some?
    ensures x in NewKeys(memTable, t, LiveKeysInRange(t.data, start, end))
  {
    LiveIffValue(t.data, x);
  }

  /** A key listed for the older tables, or added by the newest one, is listed for all of them. */
  lemma TablesRangeKeysMember(memTable: seq<Entry>, tables: seq<SSTable>, start: string, end: string, x: string)
    requires |tables| > 0
    requires x in TablesRangeKeys(memTable, tables[..|tables| - 1], start, end)
      || x in NewKeys(memTable, tables[|tables| - 1], LiveKeysInRange(tables[|tables| - 1].data, start, end))
    ensures x in TablesRangeKeys(memTable, tables, start, end)
  {
    var n := |tables| - 1;
    assert tables[..n] + [tables[n]] == tables;
    TablesRangeKeysSnoc(memTable, tables[..n], tables[n], start, end);
  }

  /** What getKeyRange(start, end) returns when start does not sort after end. */
  function RangeKeys(memTable: seq<Entry>, tables: seq<SSTable>, start: string, end: string): seq<string> {
    LiveKeysInRange(memTable, start, end) + TablesRangeKeys(memTable, tables, start, end)
  }

  /**
   * getKeyRange's answer: every key lies in [start, end]; the memTable's
   * live keys come first, ascending; then keys no memTable entry (live or
   * tombstone) has, read non-null from some table; a key live in a table and
   * absent from the memTable is listed.
   */
  lemma RangeKeysMeaning(memTable: seq<Entry>, tables: seq<SSTable>, start: string, end: string)
    requires Sorted(memTable) && forall i :: 0 <= i < |tables| ==> Sorted(tables[i].data)
    ensures var r := RangeKeys(memTable, tables, start, end);
      var m := LiveKeysInRange(memTable, start, end);
      && r[..|m|] == m
      && (forall i, j :: 0 <= i < j < |m| ==> LexLt(r[i], r[j]))
      && (forall x :: x in r ==> InRange(x, start, end))
      && (forall x :: x in r[|m|..] ==> !HasKey(memTable, x))
      && (forall x :: x in r[|m|..] ==> exists i :: 0 <= i < |tables| && Read(tables[i], x).Some?)
      && (forall x :: HasKey(memTable, x) && ValueOf(memTable, x).None? ==> x !in r)
      && (forall x :: InRange(x, start, end) && ValueOf(memTable, x).Some? ==> x in r)
      && (forall x, i :: InRange(x, start, end) && !HasKey(memTable, x) && 0 <= i < |tables| && Read(tables[i], x).Some? ==> x in r)
  {
    var r := RangeKeys(memTable, tables, start, end);
    var m := LiveKeysInRange(memTable, start, end);
    assert r[|m|..] == TablesRangeKeys(memTable, tables, start, end);
    forall x | x in r ensures InRange(x, start, end) {
      assert x in m || x in r[|m|..];
    }
    forall x | HasKey(memTable, x) && ValueOf(memTable, x).None? ensures x !in r {
      LiveIffValue(memTable, x);
    }
    forall x | InRange(x, start, end) && ValueOf(memTable, x).Some? ensures x in r {
      LiveIffValue(memTable, x);
      assert x in m;
    }
    forall x, i | InRange(x, start, end) && !HasKey(memTable, x) && 0 <= i < |tables| && Read(tables[i], x).Some?
      ensures x in r
    {
      TablesRangeKeysComplete(memTable, tables, start, end, x, i);
      assert x in r[|m|..];
    }
  }

  /**
   * The duplicate check only consults the memTable: a key absent from the
   * memTable and live in an older table and in a newer one is listed twice.
   */
  lemma RangeKeysRepeatAcrossTables(memTable: seq<Entry>, tables: seq<SSTable>, t: SSTable, start: string, end: string, x: string, i: int)
    requires Sorted(t.data) && forall j :: 0 <= j < |tables| ==> Sorted(tables[j].data)
    requires InRange(x, start, end) && !HasKey(memTable, x)
    requires 0 <= i < |tables| && Read(tables[i], x).Some? && Read(t, x).Some?
    ensures multiset(RangeKeys(memTable, tables + [t], start, end))[x] >= 2
  {
    var older := RangeKeys(memTable, tables, start, end);
    var newer := NewKeys(memTable, t, LiveKeysInRange(t.data, start, end));
    assert x in older by {
      TablesRangeKeysComplete(memTable, tables, start, end, x, i);
    }
    assert x in newer by {
      LiveIffValue(t.data, x);
    }
    assert RangeKeys(memTable, tables + [t], start, end) == older + newer by {
      RangeKeysSnoc(memTable, tables, t, start, end);
    }
    assert multiset(older + newer) == multiset(older) + multiset(newer);
  }

  /** One more table adds its new keys at the end. */
  lemma TablesRangeKeysSnoc(memTable: seq<Entry>, tables: seq<SSTable>, t: SSTable, start: string, end: string)
    ensures TablesRangeKeys(memTable, tables + [t], start, end)
      == TablesRangeKeys(memTable, tables, start, end) + NewKeys(memTable, t, LiveKeysInRange(t.data, start, end))
  {
    assert (tables + [t])[..|tables|] == tables;
  }

  lemma RangeKeysSnoc(memTable: seq<Entry>, tables: seq<SSTable>, t: SSTable, start: string, end: string)
    ensures RangeKeys(memTable, tables + [t], start, end)
      == RangeKeys(memTable, tables, start, end) + NewKeys(memTable, t, LiveKeysInRange(t.data, start, end))
  {
    var live, older := LiveKeysInRange(memTable, start, end), TablesRangeKeys(memTable, tables, start, end);
    var newer := NewKeys(memTable, t, LiveKeysInRange(t.data, start, end));
    TablesRangeKeysSnoc(memTable, tables, t, start, end);
    assert live + (older + newer) == (live + older) + newer;
  }

  /** The same step, stated on a prefix of the table list. */
  lemma RangeKeysStep(memTable: seq<Entry>, tables: seq<SSTable>, i: nat, start: string, end: string)
    requires i < |tables|
    ensures RangeKeys(memTable, tables[..i + 1], start, end)
      == RangeKeys(memTable, tables[..i], start, end)
         + NewKeys(memTable, tables[i], LiveKeysInRange(tables[i].data, start, end))
  {
    assert tables[..i + 1][..i] == tables[..i];
  }

  /** One more listed key is added at the end when it is new. */
  lemma NewKeysStep(memTable: seq<Entry>, t: SSTable, keys: seq<string>, j: nat)
    requires j < |keys|
    ensures NewKeys(memTable, t, keys[..j + 1])
      == NewKeys(memTable, t, keys[..j]) + (if !HasKey(memTable, keys[j]) && Read(t, keys[j]).Some? then [keys[j]] else [])
  {
    assert keys[..j + 1][..j] == keys[..j];
  }

  // ---------------------------------------------------------------- the engine

  class LSMTree {
    var memTable: seq<Entry>
    var sstables: seq<SSTable>

    /** The memTable is a sorted map below the flush threshold; every SSTable holds a sorted map. */
    ghost predicate Valid()
      reads this
    {
      && Sorted(memTable)
      && |memTable| < MAX_MEMTABLE_SIZE
      && forall i :: 0 <= i < |sstables| ==> Sorted(sstables[i].data)
    }

    constructor ()
      ensures Valid() && memTable == [] && sstables == []
    {
      memTable := [];
      sstables := [];
    }

    /**
     * put(key, value), a null value being a delete: the memTable takes the
     * mapping; if that brings it to MAX_MEMTABLE_SIZE entries it is flushed.
     * Earlier tables are never removed or reordered.
     */
    method Put(key: string, value: Option<string>)
      requires Valid()
      modifies this
      ensures Valid()
      ensures (memTable, sstables) == AfterPut(old(memTable), old(sstables), key, value, MAX_MEMTABLE_SIZE)
      ensures old(sstables) <= sstables
    {
      InsertSorted(memTable, key, value);
      memTable := Insert(memTable, key, value);
      if |memTable| >= MAX_MEMTABLE_SIZE {
        FlushMemTableToDisk();
      }
    }

    /** flushMemTableToDisk: appends one new table holding a copy of the memTable, then clears the memTable. */
    method FlushMemTableToDisk()
      requires Sorted(memTable) && forall i :: 0 <= i < |sstables| ==> Sorted(sstables[i].data)
      modifies this
      ensures memTable == [] && sstables == old(sstables) + [Snapshot(old(memTable))]
      ensures forall i :: 0 <= i < |sstables| ==> Sorted(sstables[i].data)
    {
      var newTable := CreateFromMemTable(memTable);
      sstables := sstables + [newTable];
      memTable := [];
    }

    /** get(key): a memTable entry, tombstone included, shadows every table; otherwise the first non-null table read. */
    method Get(key: string) returns (r: Option<string>)
      ensures r == Visible(memTable, sstables, key)
    {
      if HasKey(memTable, key) {
        return ValueOf(memTable, key);
      }
      for i := 0 to |sstables|
        invariant NoneBefore(sstables, i, key)
      {
        var value := Read(sstables[i], key);
        if value.Some? {
          ghost var f := FirstValue(sstables, key);
          ghost var w :| 0 <= w < |sstables| && Read(sstables[w], key) == f && NoneBefore(sstables, w, key);
          assert w == i;
          return value;
        }
      }
      return None;
    }

    /** containsKey(key): a non-null memTable value, or a non-null read from any table. */
    method ContainsKey(key: string) returns (r: bool)
      ensures r == Present(memTable, sstables, key)
    {
      if HasKey(memTable, key) && ValueOf(memTable, key).Some? {
        return true;
      }
      for i := 0 to |sstables|
        invariant forall j :: 0 <= j < i ==> Read(sstables[j], key).None?
      {
        var value := Read(sstables[i], key);
        if value.Some? {
          return true;
        }
      }
      return false;
    }

    /** The inner loop of getKeyRange: appends each listed key that is not a memTable key and reads non-null. */
    method AddNewKeys(validKeys: seq<string>, sstable: SSTable, keys: seq<string>) returns (r: seq<string>)
      ensures r == validKeys + NewKeys(memTable, sstable, keys)
    {
      r := validKeys;
      for j := 0 to |keys|
        invariant r == validKeys + NewKeys(memTable, sstable, keys[..j])
      {
        NewKeysStep(memTable, sstable, keys, j);
        var key := keys[j];
        if !HasKey(memTable, key) {
          var value := Read(sstable, key);
          if value.Some? {
            r := r + [key];
          }
        }
      }
      assert keys[..|keys|] == keys;
    }

    /** getKeyRange(startKey, endKey); fails as subMap does when startKey sorts after endKey. */
    method GetKeyRange(startKey: string, endKey: string) returns (r: Result<seq<string>, RangeError>)
      ensures r.Err? <==> CompareTo(startKey, endKey) > 0
      ensures r.Ok? ==> r.value == RangeKeys(memTable, sstables, startKey, endKey)
    {
      if CompareTo(startKey, endKey) > 0 {
        return Err(FromKeyAfterToKey);
      }
      var validKeys := LiveKeysInRange(memTable, startKey, endKey);
      for i := 0 to |sstables|
        invariant validKeys == RangeKeys(memTable, sstables[..i], startKey, endKey)
      {
        RangeKeysStep(memTable, sstables, i, startKey, endKey);
        var sstable := sstables[i];
        var sstableKeys := SSTables.GetKeyRange(sstable, startKey, endKey);
        var keys := sstableKeys.value;
        validKeys := AddNewKeys(validKeys, sstable, keys);
      }
      assert sstables[..|sstables|] == sstables;
      return Ok(validKeys);
    }
  }
}
