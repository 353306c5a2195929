/**
 * The java.util.TreeMap<String, String> that backs the memTable and every
 * SSTable, seen as its ascending entry sequence. A value of None is a Java
 * null, which the store uses as a tombstone.
 */
module TreeMap {
  import opened Wrappers
  import opened Order

  datatype Entry = Entry(key: string, value: Option<string>)

  /** Keys strictly ascend, hence are unique: the shape of a TreeMap's entrySet. */
  predicate Sorted(t: seq<Entry>) {
    forall i, j :: 0 <= i < j < |t| ==> LexLt(t[i].key, t[j].key)
  }

  /** containsKey */
  predicate HasKey(t: seq<Entry>, k: string) {
    exists i :: 0 <= i < |t| && t[i].key == k
  }

  /** k is mapped to a non-null value. */
  predicate HasLiveKey(t: seq<Entry>, k: string) {
    exists i :: 0 <= i < |t| && t[i].key == k && t[i].value.Some?
  }

  /** The mapping of k: None when absent, Some(value) otherwise, where the value may itself be null. */
  function Lookup(t: seq<Entry>, k: string): (r: Option<Option<string>>)
    ensures r.Some? <==> HasKey(t, k)
  {
    if |t| == 0 then None
    else if t[0].key == k then Some(t[0].value)
    else
      var r := Lookup(t[1..], k);
      assert HasKey(t[1..], k) ==> HasKey(t, k);
      assert HasKey(t, k) ==> HasKey(t[1..], k) by {
        if HasKey(t, k) {
          var i :| 0 <= i < |t| && t[i].key == k;
          assert t[1..][i - 1].key == k;
        }
      }
      r
  }

  /** get: the value, or null when k is absent or mapped to null. */
  function ValueOf(t: seq<Entry>, k: string): Option<string> {
    match Lookup(t, k)
    case None => None
    case Some(v) => v
  }

  /** In a sorted table every entry is the one lookup finds for its key. */
  lemma {:induction false} LookupAt(t: seq<Entry>, i: int)
    requires Sorted(t) && 0 <= i < |t|
    ensures Lookup(t, t[i].key) == Some(t[i].value)
  {
    if i > 0 {
      LexLtTrichotomy(t[0].key, t[i].key);
      assert t[1..][i - 1] == t[i];
      LookupAt(t[1..], i - 1);
    }
  }

  /** In a sorted table, get returns non-null exactly for the keys mapped to a non-null value. */
  lemma LiveIffValue(t: seq<Entry>, k: string)
    requires Sorted(t)
    ensures HasLiveKey(t, k) <==> ValueOf(t, k).Some?
  {
    if HasLiveKey(t, k) {
      var i :| 0 <= i < |t| && t[i].key == k && t[i].value.Some?;
      LookupAt(t, i);
    }
    if ValueOf(t, k).Some? {
      var i :| 0 <= i < |t| && t[i].key == k;
      LookupAt(t, i);
    }
  }

  /** put(k, v): replaces the entry for k, or inserts one at its place in key order. */
  function Insert(t: seq<Entry>, k: string, v: Option<string>): (r: seq<Entry>)
    ensures forall k' :: Lookup(r, k') == if k' == k then Some(v) else Lookup(t, k')
  {
    if |t| == 0 then [Entry(k, v)]
    else if t[0].key == k then [Entry(k, v)] + t[1..]
    else if LexLt(k, t[0].key) then [Entry(k, v)] + t
    else [t[0]] + Insert(t[1..], k, v)
  }

  /** Every key is above x. */
  predicate Above(t: seq<Entry>, x: string) {
    forall i :: 0 <= i < |t| ==> LexLt(x, t[i].key)
  }

  lemma {:induction false} InsertAbove(t: seq<Entry>, k: string, v: Option<string>, x: string)
    requires Above(t, x) && LexLt(x, k)
    ensures Above(Insert(t, k, v), x)
  {
    if |t| > 0 && t[0].key != k && !LexLt(k, t[0].key) {
      InsertAbove(t[1..], k, v, x);
    }
  }

  /** put keeps the table sorted. */
  lemma {:induction false} InsertSorted(t: seq<Entry>, k: string, v: Option<string>)
    requires Sorted(t)
    ensures Sorted(Insert(t, k, v))
  {
    if |t| == 0 {
    } else if t[0].key == k {
      var r := Insert(t, k, v);
      assert forall i :: 0 <= i < |t| ==> r[i].key == t[i].key;
    } else if LexLt(k, t[0].key) {
      forall j | 0 <= j < |t| ensures LexLt(k, t[j].key) {
        if j > 0 {
          LexLtTransitive(k, t[0].key, t[j].key);
        }
      }
    } else {
      LexLtTrichotomy(k, t[0].key);
      assert Above(t[1..], t[0].key);
      InsertAbove(t[1..], k, v, t[0].key);
      InsertSorted(t[1..], k, v);
    }
  }

  /** put grows a sorted table by one entry exactly when the key is new. */
  lemma {:induction false} InsertSize(t: seq<Entry>, k: string, v: Option<string>)
    requires Sorted(t)
    ensures |Insert(t, k, v)| == if HasKey(t, k) then |t| else |t| + 1
  {
    if |t| == 0 {
    } else if t[0].key == k {
    } else if LexLt(k, t[0].key) {
      if HasKey(t, k) {
        var i :| 0 <= i < |t| && t[i].key == k;
        LexLtTrichotomy(k, k);
        if i > 0 {
          LexLtTransitive(k, t[0].key, t[i].key);
        }
      }
    } else {
      assert Lookup(t, k) == Lookup(t[1..], k);
      InsertSize(t[1..], k, v);
    }
  }

  /** A key above every key of the table is put at the end. */
  lemma {:induction false} InsertLast(t: seq<Entry>, k: string, v: Option<string>)
    requires forall i :: 0 <= i < |t| ==> LexLt(t[i].key, k)
    ensures Insert(t, k, v) == t + [Entry(k, v)]
  {
    if |t| > 0 {
      LexLtTrichotomy(t[0].key, k);
      InsertLast(t[1..], k, v);
      assert [t[0]] + (t[1..] + [Entry(k, v)]) == t + [Entry(k, v)];
    }
  }

  /** The live keys of t are those of all but its last entry, plus the last entry's key if it is live. */
  lemma LiveKeysSnoc(t: seq<Entry>)
    requires |t| > 0
    ensures forall k :: HasLiveKey(t, k) <==> HasLiveKey(t[..|t| - 1], k) || (t[|t| - 1].key == k && t[|t| - 1].value.Some?)
  {
    var n := |t| - 1;
    forall k | HasLiveKey(t[..n], k) ensures HasLiveKey(t, k) {
      var i :| 0 <= i < n && t[..n][i].key == k && t[..n][i].value.Some?;
      assert t[i] == t[..n][i];
    }
    forall k | HasLiveKey(t, k) && k != t[n].key ensures HasLiveKey(t[..n], k) {
      var i :| 0 <= i < |t| && t[i].key == k && t[i].value.Some?;
      assert t[..n][i] == t[i];
    }
  }

  /**
   * subMap(start, true, end, true) followed by a filter on non-null values:
   * the keys in [start, end] mapped to non-null, in table order.
   */
  function LiveKeysInRange(t: seq<Entry>, start: string, end: string): (ks: seq<string>)
    ensures forall j :: 0 <= j < |ks| ==> InRange(ks[j], start, end)
    ensures forall k :: k in ks <==> InRange(k, start, end) && HasLiveKey(t, k)
    ensures Sorted(t) ==> forall i, j :: 0 <= i < j < |ks| ==> LexLt(ks[i], ks[j])
  {
    if |t| == 0 then []
    else
      var n := |t| - 1;
      var prefix := LiveKeysInRange(t[..n], start, end);
      var last := t[n];
      LiveKeysSnoc(t);
      assert Sorted(t) ==> forall j :: 0 <= j < |prefix| ==> LexLt(prefix[j], last.key) by {
        if Sorted(t) {
          forall j | 0 <= j < |prefix| ensures LexLt(prefix[j], last.key) {
            assert prefix[j] in prefix;
            var i :| 0 <= i < n && t[..n][i].key == prefix[j] && t[..n][i].value.Some?;
            assert t[i] == t[..n][i];
          }
        }
      }
      if InRange(last.key, start, end) && last.value.Some? then prefix + [last.key] else prefix
  }

  /** One more entry of a table scanned in order adds its key to the live range keys when it is live and in range. */
  lemma LiveKeysInRangeStep(t: seq<Entry>, i: nat, start: string, end: string)
    requires i < |t|
    ensures LiveKeysInRange(t[..i + 1], start, end)
      == LiveKeysInRange(t[..i], start, end) + (if InRange(t[i].key, start, end) && t[i].value.Some? then [t[i].key] else [])
  {
    assert t[..i + 1][..i] == t[..i];
  }
}
