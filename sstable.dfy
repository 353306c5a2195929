/**
 * SSTable: an immutable snapshot of a memTable, written once to its own
 * file as `key:value` lines and kept in memory for reads.
 */
module SSTables {
  import opened Wrappers
  import opened Order
  import opened Text
  import opened TreeMap

  /** The text of the table's file and the in-memory copy of its data. Neither changes after creation. */
  datatype SSTable = SSTable(file: string, data: seq<Entry>)

  /** TreeMap.subMap(start, true, end, true) throws IllegalArgumentException when start sorts after end. */
  datatype RangeError = FromKeyAfterToKey

  /** loadFromFile reads parts[0] of an empty split result: ArrayIndexOutOfBoundsException. */
  datatype LoadError = NoPartsInLine

  /** read(key): data.get(key), null when absent or deleted. */
  function Read(t: SSTable, k: string): (r: Option<string>)
    ensures Sorted(t.data) ==> forall i :: 0 <= i < |t.data| && t.data[i].key == k ==> r == t.data[i].value
    ensures !HasKey(t.data, k) ==> r.None?
  {
    forall i | 0 <= i < |t.data| && t.data[i].key == k && Sorted(t.data) {
      LookupAt(t.data, i);
    }
    ValueOf(t.data, k)
  }

  // ---------------------------------------------------------------- writing

  /** Java string concatenation renders a null value as "null". */
  function ValueText(v: Option<string>): string {
    match v
    case None => "null"
    case Some(s) => s
  }

  /** The line written for one entry, without its terminator. */
  function EntryLine(e: Entry): string {
    e.key + ":" + ValueText(e.value)
  }

  /** The lines createFromMemTable writes, one per entry in key order. */
  function EntryLines(data: seq<Entry>): seq<string> {
    seq(|data|, i requires 0 <= i < |data| => EntryLine(data[i]))
  }

  lemma EntryLinesSnoc(data: seq<Entry>)
    requires |data| > 0
    ensures EntryLines(data) == EntryLines(data[..|data| - 1]) + [EntryLine(data[|data| - 1])]
  {
  }

  /** The text createFromMemTable writes: one `key:value` line per entry, in the memTable's key order. */
  function Serialise(data: seq<Entry>): string {
    JoinLines(EntryLines(data))
  }

  /** The lines read back from a written table are its entry lines, in ascending key order. */
  lemma SerialisedLines(data: seq<Entry>)
    requires forall i :: 0 <= i < |data| ==> NoBreaks(data[i].key) && NoBreaks(ValueText(data[i].value))
    ensures ReadLines(Serialise(data)) == EntryLines(data)
  {
    var lines := EntryLines(data);
    forall j | 0 <= j < |lines| ensures NoBreaks(lines[j]) {
      var e := data[j];
      assert lines[j] == e.key + ":" + ValueText(e.value);
    }
    ReadJoinedLines(lines);
  }

  /**
   * createFromMemTable: writes the memTable's entries to a new file and keeps
   * a copy of the memTable. The table reads exactly what the memTable held
   * when it was created; later changes to the memTable cannot reach it, as
   * the table is a value.
   */
  method CreateFromMemTable(memTable: seq<Entry>) returns (t: SSTable)
    ensures t.data == memTable
    ensures t.file == Serialise(memTable)
    ensures forall k :: Read(t, k) == ValueOf(memTable, k)
  {
    var text := "";
    for i := 0 to |memTable|
      invariant text == Serialise(memTable[..i])
    {
      assert EntryLines(memTable[..i + 1]) == EntryLines(memTable[..i]) + [EntryLine(memTable[i])];
      JoinLinesSnoc(EntryLines(memTable[..i]), EntryLine(memTable[i]));
      text := text + memTable[i].key + ":" + ValueText(memTable[i].value) + "\n";
    }
    assert memTable[..|memTable|] == memTable;
    t := SSTable(text, memTable);
  }

  // ---------------------------------------------------------------- range reads

  /**
   * getKeyRange(start, end): the keys in [start, end] whose value is not null,
   * in ascending order; fails as subMap does when start sorts after end.
   */
  method GetKeyRange(t: SSTable, start: string, end: string) returns (r: Result<seq<string>, RangeError>)
    ensures r.Err? <==> CompareTo(start, end) > 0
    ensures r.Ok? ==> r.value == LiveKeysInRange(t.data, start, end)
  {
    if CompareTo(start, end) > 0 {
      return Err(FromKeyAfterToKey);
    }
    var validKeys := CollectLiveKeys(t.data, start, end);
    return Ok(validKeys);
  }

  /** The loop of getKeyRange over the sub-map: each in-range entry with a non-null value adds its key. */
  method CollectLiveKeys(data: seq<Entry>, start: string, end: string) returns (validKeys: seq<string>)
    ensures validKeys == LiveKeysInRange(data, start, end)
  {
    validKeys := [];
    for i := 0 to |data|
      invariant validKeys == LiveKeysInRange(data[..i], start, end)
    {
      LiveKeysInRangeStep(data, i, start, end);
      var entry := data[i];
      if InRange(entry.key, start, end) && entry.value.Some? {
        validKeys := validKeys + [entry.key];
      }
    }
    assert data[..|data|] == data;
  }

  // ---------------------------------------------------------------- reading

  /** The parts of s between occurrences of c, all of them kept. */
  function SplitAll(s: string, c: char): (parts: seq<string>)
    ensures |parts| >= 1
    ensures forall j :: 0 <= j < |parts| ==> c !in parts[j]
    decreases |s|
  {
    var i := IndexOf(s, c);
    if i == |s| then
      assert s[..i] == s;
      [s]
    else
      [s[..i]] + SplitAll(s[i + 1..], c)
  }

  /** Drops the trailing empty parts, as String.split with limit 0 does. */
  function DropTrailingEmpty(parts: seq<string>): (r: seq<string>)
    ensures |r| <= |parts| && r == parts[..|r|]
    ensures |r| == 0 || r[|r| - 1] != ""
    ensures forall j :: |r| <= j < |parts| ==> parts[j] == ""
  {
    if |parts| > 0 && parts[|parts| - 1] == "" then DropTrailingEmpty(parts[..|parts| - 1]) else parts
  }

  /** String.split(String.valueOf(c)): no match gives [s] itself; otherwise trailing empty parts are dropped. */
  function JavaSplit(s: string, c: char): (parts: seq<string>)
    ensures forall j :: 0 <= j < |parts| ==> c !in parts[j]
  {
    if c !in s then [s] else DropTrailingEmpty(SplitAll(s, c))
  }

  /** One line of a table file: two parts give key -> value, any other count key -> null, none fails. */
  function ParseLine(line: string): Result<Entry, LoadError> {
    var parts := JavaSplit(line, ':');
    if |parts| == 2 then Ok(Entry(parts[0], Some(parts[1])))
    else if |parts| == 0 then Err(NoPartsInLine)
    else Ok(Entry(parts[0], None))
  }

  /** The data loadFromFile builds: every line put into a TreeMap in file order, the first failing line aborting. */
  function ParseTable(lines: seq<string>): (r: Result<seq<Entry>, LoadError>)
    ensures r.Ok? ==> Sorted(r.value)
    ensures r.Err? <==> exists j :: 0 <= j < |lines| && ParseLine(lines[j]).Err?
  {
    if |lines| == 0 then Ok([])
    else
      var n := |lines| - 1;
      assert forall j :: 0 <= j < n ==> lines[..n][j] == lines[j];
      match ParseTable(lines[..n])
      case Err(e) => Err(e)
      case Ok(t) =>
        match ParseLine(lines[n])
        case Err(e) => Err(e)
        case Ok(entry) =>
          InsertSorted(t, entry.key, entry.value);
          Ok(Insert(t, entry.key, entry.value))
  }

  lemma ParseTableSnoc(lines: seq<string>, line: string)
    ensures ParseTable(lines + [line]) ==
      match ParseTable(lines)
      case Err(e) => Err(e)
      case Ok(t) =>
        match ParseLine(line)
        case Err(e) => Err(e)
        case Ok(entry) => Ok(Insert(t, entry.key, entry.value))
  {
    assert (lines + [line])[..|lines|] == lines;
  }

  /** The same step, stated on a prefix of the file's lines. */
  lemma ParseTableStep(lines: seq<string>, i: nat)
    requires i < |lines|
    ensures ParseTable(lines[..i + 1]) ==
      match ParseTable(lines[..i])
      case Err(e) => Err(e)
      case Ok(t) =>
        match ParseLine(lines[i])
        case Err(e) => Err(e)
        case Ok(entry) => Ok(Insert(t, entry.key, entry.value))
  {
    assert lines[..i + 1] == lines[..i] + [lines[i]];
    ParseTableSnoc(lines[..i], lines[i]);
  }

  /** loadFromFile: reads the file line by line into a fresh TreeMap. */
  method LoadFromFile(file: string) returns (r: Result<SSTable, LoadError>)
    ensures r.Ok? <==> ParseTable(ReadLines(file)).Ok?
    ensures r.Ok? ==> r.value == SSTable(file, ParseTable(ReadLines(file)).value)
  {
    var lines := ReadLines(file);
    var data := [];
    for i := 0 to |lines|
      invariant ParseTable(lines[..i]) == Ok(data)
    {
      var parsed := ParseLine(lines[i]);
      ParseTableStep(lines, i);
      if parsed.Err? {
        assert ParseTable(lines).Err? by {
          assert ParseLine(lines[i]).Err?;
        }
        return Err(parsed.error);
      }
      data := Insert(data, parsed.value.key, parsed.value.value);
    }
    assert lines[..|lines|] == lines;
    return Ok(SSTable(file, data));
  }

  // ---------------------------------------------------------------- what loading makes of written lines

  lemma SplitAtSeparator(k: string, c: char, rest: string)
    requires c !in k
    ensures SplitAll(k + [c] + rest, c) == [k] + SplitAll(rest, c)
  {
    var s := k + [c] + rest;
    IndexOfAfterPrefix(k, c, rest);
    assert s[..|k|] == k;
    assert s[|k| + 1..] == rest;
  }

  lemma SplitWithoutSeparator(s: string, c: char)
    requires c !in s
    ensures SplitAll(s, c) == [s]
  {
    assert s[..|s|] == s;
  }

  /** A line `key:value` whose key and value hold no ':' and whose value is not empty parses back to that entry. */
  lemma ParseWrittenLine(k: string, v: string)
    requires ':' !in k && ':' !in v && v != ""
    ensures ParseLine(k + ":" + v) == Ok(Entry(k, Some(v)))
  {
    var line := k + ":" + v;
    assert line == k + [':'] + v;
    assert line[|k|] == ':';
    SplitAtSeparator(k, ':', v);
    SplitWithoutSeparator(v, ':');
    assert JavaSplit(line, ':') == [k, v];
  }

  /** An entry that survives a write and a reload unchanged. */
  predicate Reloadable(e: Entry) {
    && ':' !in e.key && NoBreaks(e.key)
    && e.value.Some? && e.value.value != "" && ':' !in e.value.value && NoBreaks(e.value.value)
  }

  lemma {:induction false} ParseEntryLines(data: seq<Entry>)
    requires Sorted(data)
    requires forall i :: 0 <= i < |data| ==> Reloadable(data[i])
    ensures ParseTable(EntryLines(data)) == Ok(data)
  {
    if |data| > 0 {
      var n := |data| - 1;
      ReloadablePrefix(data, n);
      ParseEntryLines(data[..n]);
      ParseEntryLinesSnoc(data[..n], data[n]);
    }
  }

  lemma ReloadablePrefix(data: seq<Entry>, n: nat)
    requires n == |data| - 1 && Sorted(data) && forall i :: 0 <= i < |data| ==> Reloadable(data[i])
    ensures Sorted(data[..n]) && forall i :: 0 <= i < n ==> Reloadable(data[..n][i])
    ensures forall i :: 0 <= i < n ==> LexLt(data[..n][i].key, data[n].key)
    ensures Reloadable(data[n]) && data[..n] + [data[n]] == data
  {
    forall i | 0 <= i < n ensures data[..n][i] == data[i] && LexLt(data[i].key, data[n].key) { }
  }

  /** An entry's line, parsed after the lines of entries with smaller keys, completes the table. */
  lemma ParseEntryLinesSnoc(t: seq<Entry>, last: Entry)
    requires ParseTable(EntryLines(t)) == Ok(t) && Reloadable(last)
    requires forall i :: 0 <= i < |t| ==> LexLt(t[i].key, last.key)
    ensures ParseTable(EntryLines(t + [last])) == Ok(t + [last])
  {
    assert EntryLines(t + [last]) == EntryLines(t) + [EntryLine(last)] by {
      EntryLinesSnoc(t + [last]);
      assert (t + [last])[..|t|] == t;
    }
    ParseEntryLine(last);
    ParseAppend(EntryLines(t), EntryLine(last), t, last);
  }

  lemma ParseEntryLine(e: Entry)
    requires Reloadable(e)
    ensures ParseLine(EntryLine(e)) == Ok(e)
  {
    ParseWrittenLine(e.key, e.value.value);
  }

  /** A line whose key sorts after every key already loaded appends its entry. */
  lemma ParseAppend(lines: seq<string>, line: string, t: seq<Entry>, e: Entry)
    requires ParseTable(lines) == Ok(t) && ParseLine(line) == Ok(e)
    requires forall i :: 0 <= i < |t| ==> LexLt(t[i].key, e.key)
    ensures ParseTable(lines + [line]) == Ok(t + [e])
  {
    ParseTableSnoc(lines, line);
    InsertLast(t, e.key, e.value);
  }

  /**
   * Round trip: loading the file createFromMemTable wrote gives back the
   * memTable, when every value is non-null and non-empty and no key or value
   * holds ':' or a line break.
   */
  lemma RoundTrip(data: seq<Entry>)
    requires Sorted(data)
    requires forall i :: 0 <= i < |data| ==> Reloadable(data[i])
    ensures ParseTable(ReadLines(Serialise(data))) == Ok(data)
  {
    SerialisedLines(data);
    ParseEntryLines(data);
  }

  /** A tombstone is written as `key:null` and comes back as the four-letter string "null", not as a tombstone. */
  lemma TombstoneReloadsAsNullString(k: string)
    requires ':' !in k
    ensures EntryLine(Entry(k, None)) == k + ":null"
    ensures ParseLine(EntryLine(Entry(k, None))) == Ok(Entry(k, Some("null")))
  {
    ParseWrittenLine(k, "null");
  }

  /** A value holding ':' never comes back as itself. */
  lemma ColonValueIsLost(k: string, v: string)
    requires ':' in v
    ensures ParseLine(EntryLine(Entry(k, Some(v)))) != Ok(Entry(k, Some(v)))
  {
    var parts := JavaSplit(EntryLine(Entry(k, Some(v))), ':');
    if |parts| == 2 {
      assert ':' !in parts[1];
    }
  }

  /** A value with a ':' inside, such as "a:b", reloads as a tombstone. */
  lemma InnerColonReloadsAsTombstone(k: string, a: string, b: string)
    requires ':' !in k && ':' !in a && ':' !in b && b != ""
    ensures ParseLine(EntryLine(Entry(k, Some(a + ":" + b)))) == Ok(Entry(k, None))
  {
    var v := a + ":" + b;
    var line := EntryLine(Entry(k, Some(v)));
    assert line == k + [':'] + v;
    assert SplitAll(line, ':') == [k, a, b] by {
      assert v == a + [':'] + b;
      SplitAtSeparator(k, ':', v);
      SplitAtSeparator(a, ':', b);
      SplitWithoutSeparator(b, ':');
    }
    assert ':' in line by {
      assert line[|k|] == ':';
    }
  }

  /** An empty value reloads as a tombstone: split drops the trailing empty part. */
  lemma EmptyValueReloadsAsTombstone(k: string)
    requires ':' !in k && k != ""
    ensures ParseLine(EntryLine(Entry(k, Some("")))) == Ok(Entry(k, None))
  {
    var line := EntryLine(Entry(k, Some("")));
    assert line == k + [':'] + "";
    assert line[|k|] == ':';
    SplitAtSeparator(k, ':', "");
    SplitWithoutSeparator("", ':');
    assert DropTrailingEmpty([k, ""]) == DropTrailingEmpty([k]);
  }

  lemma {:induction false} SplitAllOnlySeparators(s: string, c: char)
    ensures (forall j :: 0 <= j < |SplitAll(s, c)| ==> SplitAll(s, c)[j] == "") <==> (forall i :: 0 <= i < |s| ==> s[i] == c)
    decreases |s|
  {
    var i := IndexOf(s, c);
    if i < |s| {
      var rest := s[i + 1..];
      SplitAllOnlySeparators(rest, c);
      var parts := SplitAll(s, c);
      assert parts == [s[..i]] + SplitAll(rest, c);
      if forall x :: 0 <= x < |s| ==> s[x] == c {
        assert i == 0;
        forall x | 0 <= x < |rest| ensures rest[x] == c {
          assert rest[x] == s[x + 1];
        }
      }
      if forall j :: 0 <= j < |parts| ==> parts[j] == "" {
        assert |parts[0]| == i == 0;
        forall j | 0 <= j < |SplitAll(rest, c)| ensures SplitAll(rest, c)[j] == "" {
          assert SplitAll(rest, c)[j] == parts[j + 1];
        }
        forall x | 0 <= x < |s| ensures s[x] == c {
          if x > 0 {
            assert s[x] == rest[x - 1];
          }
        }
      }
    } else {
      assert s[..i] == s;
      assert SplitAll(s, c) == [s];
      if |s| > 0 {
        assert s[0] in s[..i];
        assert s[0] != c;
        assert SplitAll(s, c)[0] != "";
      }
    }
  }

  lemma {:induction false} DropTrailingEmptyNone(parts: seq<string>)
    ensures DropTrailingEmpty(parts) == [] <==> forall j :: 0 <= j < |parts| ==> parts[j] == ""
  {
    if |parts| > 0 && parts[|parts| - 1] == "" {
      DropTrailingEmptyNone(parts[..|parts| - 1]);
    }
  }

  /** Loading fails on exactly the non-empty lines made only of ':' (":" is what an empty key with an empty value writes). */
  lemma ParseLineFails(line: string)
    ensures ParseLine(line).Err? <==> |line| > 0 && forall i :: 0 <= i < |line| ==> line[i] == ':'
  {
    SplitAllOnlySeparators(line, ':');
    DropTrailingEmptyNone(SplitAll(line, ':'));
    if |line| > 0 && forall i :: 0 <= i < |line| ==> line[i] == ':' {
      assert line[0] == ':';
    }
  }

  /** For a key that appears on several lines, the last line carrying it wins, wherever the earlier ones are. */
  lemma {:induction false} LaterLineWins(lines: seq<string>, j: int, k: string)
    requires ParseTable(lines).Ok?
    requires 0 <= j < |lines| && ParseLine(lines[j]).Ok? && ParseLine(lines[j]).value.key == k
    requires forall i :: j < i < |lines| ==> ParseLine(lines[i]).Ok? && ParseLine(lines[i]).value.key != k
    ensures Lookup(ParseTable(lines).value, k) == Some(ParseLine(lines[j]).value.value)
  {
    var n := |lines| - 1;
    var prefix := lines[..n];
    assert prefix + [lines[n]] == lines;
    ParseTableSnoc(prefix, lines[n]);
    if j < n {
      assert prefix[j] == lines[j];
      forall i | j < i < |prefix|
        ensures ParseLine(prefix[i]).Ok? && ParseLine(prefix[i]).value.key != k
      {
        assert prefix[i] == lines[i];
      }
      LaterLineWins(prefix, j, k);
    }
  }
}
