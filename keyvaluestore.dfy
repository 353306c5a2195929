/**
 * KeyValueStore: a hash map from keys to values, with validation on writes
 * and a whole-map copy kept in a data file ("storage.txt") as one
 * "key=value" line per entry, read back at construction.
 */
module KeyValueStores {
  import opened Wrappers
  import opened Order
  import opened Text

  /** What get answers for a key that is not in the store. */
  const NOT_FOUND := "ERROR: Key not found"

  /** The two IllegalArgumentExceptions of validateKeyValue. */
  datatype KvError = KeyNullOrEmpty | ValueNull

  /** validateKeyValue: the key is checked first (null or empty), then the value (null). */
  function ValidateKeyValue(key: Option<string>, value: Option<string>): Option<KvError>
  {
    if key.None? || key.value == "" then Some(KeyNullOrEmpty)
    else if value.None? then Some(ValueNull)
    else None
  }

  // ---------------------------------------------------------------- the data file format

  function EntryLine(key: string, value: string): string {
    key + "=" + value
  }

  /** order lists every key of m exactly once: one possible iteration order of the map. */
  predicate Enumerates(order: seq<string>, m: map<string, string>) {
    && (forall i, j :: 0 <= i < j < |order| ==> order[i] != order[j])
    && (forall i :: 0 <= i < |order| ==> order[i] in m)
    && (forall k :: k in m ==> k in order)
  }

  function EntryLines(m: map<string, string>, order: seq<string>): seq<string>
    requires forall i :: 0 <= i < |order| ==> order[i] in m
  {
    seq(|order|, i requires 0 <= i < |order| => EntryLine(order[i], m[order[i]]))
  }

  /** The file saveToFile writes when it visits the keys in the given order. */
  function Serialise(m: map<string, string>, order: seq<string>): string
    requires forall i :: 0 <= i < |order| ==> order[i] in m
  {
    JoinLines(EntryLines(m, order))
  }

  /** text is what saveToFile writes for m in some iteration order. */
  ghost predicate SavedAs(text: string, m: map<string, string>) {
    exists order :: Enumerates(order, m) && text == Serialise(m, order)
  }

  /**
   * line.split("=", 2) with at least two parts: the text before the first '='
   * and everything after it; a line without '=' gives one part and is skipped.
   */
  function SplitAtFirstSeparator(line: string): (r: Option<(string, string)>)
    ensures r.None? <==> '=' !in line
    ensures r.Some? ==> '=' !in r.value.0 && line == r.value.0 + "=" + r.value.1
  {
    var i := IndexOf(line, '=');
    if i == |line| then None
    else
      assert line == line[..i] + "=" + line[i + 1..];
      Some((line[..i], line[i + 1..]))
  }

  /**
   * What loading one line does to the map: split at the first '=' and, when
   * that gives two parts, put the second under the first.
   */
  function LoadLine(m: map<string, string>, line: string): map<string, string> {
    var parts := SplitAtFirstSeparator(line);
    if parts.Some? then m[parts.value.0 := parts.value.1] else m
  }

  /** The puts loadFromFile makes for the lines, in file order, as a map. */
  function ParseLines(lines: seq<string>): (m: map<string, string>)
    ensures forall k :: k in m ==> '=' !in k
  {
    if |lines| == 0 then map[]
    else LoadLine(ParseLines(lines[..|lines| - 1]), lines[|lines| - 1])
  }

  /** Loading a line on top of earlier content is loading it and then merging. */
  lemma LoadLineOnTop(base: map<string, string>, m: map<string, string>, line: string)
    ensures base + LoadLine(m, line) == LoadLine(base + m, line)
  {
    var parts := SplitAtFirstSeparator(line);
    if parts.Some? {
      MergeUpdate(base, m, parts.value.0, parts.value.1);
    }
  }

  /** Loading one more line on top of a store. */
  lemma LoadStep(base: map<string, string>, lines: seq<string>, i: nat)
    requires i < |lines|
    ensures base + ParseLines(lines[..i + 1]) == LoadLine(base + ParseLines(lines[..i]), lines[i])
  {
    assert lines[..i + 1] == lines[..i] + [lines[i]];
    ParseLinesSnoc(lines[..i], lines[i]);
    LoadLineOnTop(base, ParseLines(lines[..i]), lines[i]);
  }

  /** A put after a merge is a put into the merged-in map. */
  lemma MergeUpdate(base: map<string, string>, m: map<string, string>, k: string, v: string)
    ensures (base + m)[k := v] == base + m[k := v]
  {
  }

  function Load(text: string): map<string, string> {
    ParseLines(ReadLines(text))
  }

  /** Entries that survive a save and a load: no '=' in a key, no line break in a key or a value. */
  predicate Persistable(m: map<string, string>) {
    forall k :: k in m ==> '=' !in k && NoBreaks(k) && NoBreaks(m[k])
  }

  lemma SplitEntryLine(key: string, value: string)
    requires '=' !in key
    ensures SplitAtFirstSeparator(EntryLine(key, value)) == Some((key, value))
  {
    var line := EntryLine(key, value);
    IndexOfAfterPrefix(key, '=', value);
    assert line[..|key|] == key;
    assert line[|key| + 1..] == value;
  }

  lemma ParseLinesSnoc(lines: seq<string>, line: string)
    ensures ParseLines(lines + [line]) == LoadLine(ParseLines(lines), line)
  {
    assert (lines + [line])[..|lines|] == lines;
  }

  lemma EntryLinesSnoc(m: map<string, string>, order: seq<string>, k: string)
    requires forall i :: 0 <= i < |order| ==> order[i] in m
    requires k in m
    ensures EntryLines(m, order + [k]) == EntryLines(m, order) + [EntryLine(k, m[k])]
  {
  }

  lemma LoadEntryLine(loaded: map<string, string>, k: string, v: string)
    requires '=' !in k
    ensures LoadLine(loaded, EntryLine(k, v)) == loaded[k := v]
  {
    SplitEntryLine(k, v);
  }

  lemma {:induction false} ParseEntryLines(m: map<string, string>, order: seq<string>)
    requires Persistable(m)
    requires forall i :: 0 <= i < |order| ==> order[i] in m
    ensures forall k :: k in ParseLines(EntryLines(m, order)) <==> k in order
    ensures forall k :: k in ParseLines(EntryLines(m, order)) ==> ParseLines(EntryLines(m, order))[k] == m[k]
  {
    if |order| > 0 {
      var n := |order| - 1;
      var k := order[n];
      assert order == order[..n] + [k];
      var prefix := EntryLines(m, order[..n]);
      ParseEntryLines(m, order[..n]);
      EntryLinesSnoc(m, order[..n], k);
      ParseLinesSnoc(prefix, EntryLine(k, m[k]));
      LoadEntryLine(ParseLines(prefix), k, m[k]);
      assert ParseLines(EntryLines(m, order)) == ParseLines(prefix)[k := m[k]];
    }
  }

  lemma EntryLinesHaveNoBreaks(m: map<string, string>, order: seq<string>)
    requires Persistable(m)
    requires forall i :: 0 <= i < |order| ==> order[i] in m
    ensures forall j :: 0 <= j < |order| ==> NoBreaks(EntryLines(m, order)[j])
  {
    forall j | 0 <= j < |order|
      ensures NoBreaks(EntryLines(m, order)[j])
    {
      var k := order[j];
      var line := EntryLine(k, m[k]);
      forall i | 0 <= i < |line|
        ensures !IsBreak(line[i])
      {
        if i < |k| {
          assert line[i] == k[i];
        } else if i > |k| {
          assert line[i] == m[k][i - |k| - 1];
        }
      }
    }
  }

  /** Reading back the file saveToFile wrote gives its lines. */
  lemma ReadSerialised(m: map<string, string>, order: seq<string>)
    requires Persistable(m)
    requires forall i :: 0 <= i < |order| ==> order[i] in m
    ensures Load(Serialise(m, order)) == ParseLines(EntryLines(m, order))
  {
    EntryLinesHaveNoBreaks(m, order);
    ReadJoinedLines(EntryLines(m, order));
  }

  lemma SameMap(a: map<string, string>, b: map<string, string>)
    requires forall k :: k in a ==> k in b && a[k] == b[k]
    requires forall k :: k in b ==> k in a
    ensures a == b
  {
  }

  /** Loading what saveToFile wrote gives back the map, whatever order it was written in. */
  lemma RoundTrip(m: map<string, string>, order: seq<string>)
    requires Persistable(m) && Enumerates(order, m)
    ensures Load(Serialise(m, order)) == m
  {
    ReadSerialised(m, order);
    ParseEntryLines(m, order);
    SameMap(ParseLines(EntryLines(m, order)), m);
  }

  lemma ReloadSaved(text: string, m: map<string, string>)
    requires SavedAs(text, m) && Persistable(m)
    ensures Load(text) == m
  {
    var order :| Enumerates(order, m) && text == Serialise(m, order);
    RoundTrip(m, order);
  }

  /** A key holding '=' comes back split at that '=': the rest of the key moves into the value. */
  lemma KeyWithSeparatorReloadsSplit(a: string, b: string, value: string)
    requires '=' !in a
    ensures SplitAtFirstSeparator(EntryLine(a + "=" + b, value)) == Some((a, b + "=" + value))
  {
    SplitEntryLine(a, b + "=" + value);
    assert EntryLine(a + "=" + b, value) == EntryLine(a, b + "=" + value);
  }

  // ---------------------------------------------------------------- the store

  /** The data file: whether it exists and, if it does, its text. */
  class DataFile {
    var present: bool
    var text: string

    constructor (present: bool, text: string)
      ensures this.present == present && this.text == text
    {
      this.present := present;
      this.text := text;
    }
  }

  class KeyValueStore {
    const file: DataFile
    var store: map<string, string>

    /** Starts empty and loads the data file; a missing file leaves the store empty. */
    constructor (file: DataFile)
      ensures this.file == file
      ensures store == if file.present then Load(file.text) else map[]
    {
      this.file := file;
      store := map[];
      new;
      LoadFromFile();
    }

    /** get: the value, or the NOT_FOUND sentinel for an absent key. */
    function Get(key: string): string
      reads this
    {
      if key in store then store[key] else NOT_FOUND
    }

    /**
     * put: on a valid key and value the key takes the value, every other key
     * keeps its mapping and the whole store is saved; otherwise nothing changes.
     */
    method Put(key: Option<string>, value: Option<string>) returns (err: Option<KvError>)
      modifies this, file
      ensures err == ValidateKeyValue(key, value)
      ensures err.Some? ==> store == old(store) && file.present == old(file.present) && file.text == old(file.text)
      ensures err.None? <==> key.Some? && key.value != "" && value.Some?
      ensures err.None? ==> store == old(store)[key.value := value.value]
      ensures err.None? ==> Get(key.value) == value.value && forall k :: k != key.value ==> Get(k) == old(Get(k))
      ensures err.None? ==> file.present && SavedAs(file.text, store)
    {
      err := ValidateKeyValue(key, value);
      if err.Some? {
        return;
      }
      store := store[key.value := value.value];
      SaveToFile();
    }

    /**
     * readKeyRange: the (key, value) pairs whose key lies between startKey
     * and endKey inclusive, each once, in the map's iteration order.
     */
    method ReadKeyRange(startKey: string, endKey: string) returns (pairs: seq<(string, string)>)
      ensures forall i, j :: 0 <= i < j < |pairs| ==> pairs[i].0 != pairs[j].0
      ensures forall i :: 0 <= i < |pairs| ==>
        pairs[i].0 in store && pairs[i].1 == store[pairs[i].0] && InRange(pairs[i].0, startKey, endKey)
      ensures forall k :: k in store && InRange(k, startKey, endKey) ==> (k, store[k]) in pairs
    {
      var remaining := store.Keys;
      pairs := [];
      while remaining != {}
        invariant remaining <= store.Keys
        invariant forall i, j :: 0 <= i < j < |pairs| ==> pairs[i].0 != pairs[j].0
        invariant forall i :: 0 <= i < |pairs| ==>
          pairs[i].0 in store && pairs[i].0 !in remaining && pairs[i].1 == store[pairs[i].0] && InRange(pairs[i].0, startKey, endKey)
        invariant forall k :: k in store && k !in remaining && InRange(k, startKey, endKey) ==> (k, store[k]) in pairs
        decreases remaining
      {
        var k :| k in remaining;
        CompareToFlip(k, startKey);
        if CompareTo(k, startKey) >= 0 && CompareTo(k, endKey) <= 0 {
          pairs := pairs + [(k, store[k])];
        }
        remaining := remaining - {k};
      }
    }

    /**
     * batchPut: validates and puts the entries one at a time in the argument
     * map's iteration order. The first invalid entry stops it: the entries
     * put before it stay in the store and the file is not saved.
     */
    method BatchPut(keyValuePairs: map<Option<string>, Option<string>>) returns (err: Option<KvError>, ghost applied: map<string, string>)
      modifies this, file
      ensures err.None? <==> forall k :: k in keyValuePairs ==> ValidateKeyValue(k, keyValuePairs[k]).None?
      ensures err.Some? ==> exists k :: k in keyValuePairs && ValidateKeyValue(k, keyValuePairs[k]) == err
      ensures store == old(store) + applied
      ensures forall k :: k in applied ==> Some(k) in keyValuePairs && keyValuePairs[Some(k)] == Some(applied[k])
      ensures forall k :: k in applied ==> ValidateKeyValue(Some(k), Some(applied[k])).None?
      ensures err.None? ==> forall k :: k in keyValuePairs ==> k.Some? && k.value in applied
      ensures err.None? ==> file.present && SavedAs(file.text, store)
      ensures err.Some? ==> file.present == old(file.present) && file.text == old(file.text)
    {
      var remaining := keyValuePairs.Keys;
      applied := map[];
      while remaining != {}
        invariant remaining <= keyValuePairs.Keys
        invariant store == old(store) + applied
        invariant forall k :: k in applied ==>
          Some(k) in keyValuePairs && Some(k) !in remaining && keyValuePairs[Some(k)] == Some(applied[k]) && k != ""
        invariant forall k :: k in keyValuePairs && k !in remaining ==>
          ValidateKeyValue(k, keyValuePairs[k]).None? && k.value in applied
        invariant file.present == old(file.present) && file.text == old(file.text)
        decreases remaining
      {
        var k :| k in remaining;
        var e := ValidateKeyValue(k, keyValuePairs[k]);
        if e.Some? {
          return e, applied;
        }
        MergeUpdate(old(store), applied, k.value, keyValuePairs[k].value);
        store := store[k.value := keyValuePairs[k].value];
        applied := applied[k.value := keyValuePairs[k].value];
        remaining := remaining - {k};
      }
      err := None;
      SaveToFile();
    }

    /** saveToFile: (re)writes the file with one "key=value" line per entry, in the map's iteration order. */
    method SaveToFile()
      modifies file
      ensures file.present && SavedAs(file.text, store)
    {
      var remaining := store.Keys;
      var text := "";
      ghost var order := [];
      while remaining != {}
        invariant remaining <= store.Keys
        invariant forall i, j :: 0 <= i < j < |order| ==> order[i] != order[j]
        invariant forall i :: 0 <= i < |order| ==> order[i] in store && order[i] !in remaining
        invariant forall k :: k in store ==> k in order || k in remaining
        invariant text == Serialise(store, order)
        decreases remaining
      {
        var k :| k in remaining;
        var line := EntryLine(k, store[k]);
        JoinLinesSnoc(EntryLines(store, order), line);
        EntryLinesSnoc(store, order, k);
        text := text + line + "\n";
        order := order + [k];
        remaining := remaining - {k};
      }
      file.present := true;
      file.text := text;
      assert Enumerates(order, store);
    }

    /** loadFromFile: puts the entry of every line holding '=', in file order; a missing file loads nothing. */
    method LoadFromFile()
      modifies this
      ensures store == if file.present then old(store) + Load(file.text) else old(store)
    {
      if !file.present {
        return;
      }
      var lines := ReadLines(file.text);
      var loaded := store;
      for i := 0 to |lines|
        invariant loaded == old(store) + ParseLines(lines[..i])
      {
        LoadStep(old(store), lines, i);
        loaded := LoadLine(loaded, lines[i]);
      }
      assert lines[..|lines|] == lines;
      store := loaded;
    }
  }

  /** A value put survives a restart: a second store over the same file reads it back. */
  method PersistenceScenario(key: string, value: string) returns (reloaded: string)
    requires key != "" && '=' !in key && NoBreaks(key) && NoBreaks(value)
    ensures reloaded == value
  {
    var file := new DataFile(false, "");
    var kv := new KeyValueStore(file);
    var _ := kv.Put(Some(key), Some(value));
    assert kv.store == map[key := value];
    ReloadSaved(file.text, kv.store);
    var restarted := new KeyValueStore(file);
    reloaded := restarted.Get(key);
  }

  /** A key put with the sentinel as its value reads the same as a key that is absent. */
  method SentinelScenario(key: string, absent: string) returns (stored: string, missing: string)
    requires key != "" && absent != key
    ensures stored == missing == NOT_FOUND
  {
    var file := new DataFile(false, "");
    var kv := new KeyValueStore(file);
    var _ := kv.Put(Some(key), Some(NOT_FOUND));
    stored := kv.Get(key);
    missing := kv.Get(absent);
  }
}
