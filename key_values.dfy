/** The pairs a map function emits, their ByKey order, and the sort the
    reduce branch applies to them (src/mr/worker.go, KeyValue and ByKey). */
module KeyValues {
  import opened GoStrings

  datatype KeyValue = KeyValue(key: GoString, value: GoString)

  /** The keys occurring in s. */
  function Keys(s: seq<KeyValue>): set<GoString> {
    set i | 0 <= i < |s| :: s[i].key
  }

  /** Non-decreasing by key under ByKey.Less: no later key is less than an earlier one. */
  predicate SortedByKey(s: seq<KeyValue>) {
    forall i, j :: 0 <= i < j < |s| ==> !Less(s[j].key, s[i].key)
  }

  /** "Not less than" is transitive, because Less is a strict total order. */
  lemma NotLessTransitive(a: GoString, b: GoString, c: GoString)
    requires !Less(b, a) && !Less(c, b)
    ensures !Less(c, a)
  {
    LessTrichotomy(a, b);
    LessTrichotomy(b, c);
    LessTrichotomy(a, c);
    if Less(a, b) && Less(b, c) {
      LessTransitive(a, b, c);
    }
  }

  /** x placed before the first element whose key is not less than its own. */
  function Insert(x: KeyValue, s: seq<KeyValue>): (r: seq<KeyValue>)
    ensures multiset(r) == multiset(s) + multiset{x}
    decreases |s|
  {
    if s == [] || !Less(s[0].key, x.key) then [x] + s
    else
      assert s == [s[0]] + s[1..];
      [s[0]] + Insert(x, s[1..])
  }

  lemma {:induction false} InsertSorted(x: KeyValue, s: seq<KeyValue>)
    requires SortedByKey(s)
    ensures SortedByKey(Insert(x, s))
    decreases |s|
  {
    if s == [] || !Less(s[0].key, x.key) {
      forall j | 0 <= j < |s|
        ensures !Less(s[j].key, x.key)
      {
        if j > 0 {
          NotLessTransitive(x.key, s[0].key, s[j].key);
        }
      }
    } else {
      InsertSorted(x, s[1..]);
      var t := Insert(x, s[1..]);
      forall j | 0 <= j < |t|
        ensures !Less(t[j].key, s[0].key)
      {
        assert t[j] in multiset(t);
        if t[j] == x {
          LessTrichotomy(s[0].key, x.key);
        } else {
          assert t[j] in multiset(s[1..]);
          var k :| 0 <= k < |s[1..]| && s[1..][k] == t[j];
          assert s[k + 1] == t[j];
        }
      }
    }
  }

  /** The sort applied to the gathered records: a sorted permutation of them. */
  function SortByKey(s: seq<KeyValue>): (r: seq<KeyValue>)
    ensures SortedByKey(r)
    ensures multiset(r) == multiset(s)
    decreases |s|
  {
    if s == [] then []
    else
      assert s == [s[0]] + s[1..];
      InsertSorted(s[0], SortByKey(s[1..]));
      Insert(s[0], SortByKey(s[1..]))
  }

  /** The values of the pairs with key k, in sequence order. */
  function ValuesFor(s: seq<KeyValue>, k: GoString): seq<GoString>
    decreases |s|
  {
    if s == [] then []
    else (if s[0].key == k then [s[0].value] else []) + ValuesFor(s[1..], k)
  }

  lemma {:induction false} ValuesForConcat(a: seq<KeyValue>, b: seq<KeyValue>, k: GoString)
    ensures ValuesFor(a + b, k) == ValuesFor(a, k) + ValuesFor(b, k)
    decreases |a|
  {
    if a == [] {
      assert a + b == b;
    } else {
      assert (a + b)[0] == a[0] && (a + b)[1..] == a[1..] + b;
      ValuesForConcat(a[1..], b, k);
    }
  }

  lemma {:induction false} InsertValues(x: KeyValue, s: seq<KeyValue>, k: GoString)
    ensures ValuesFor(Insert(x, s), k) == (if x.key == k then [x.value] else []) + ValuesFor(s, k)
    decreases |s|
  {
    if s == [] || !Less(s[0].key, x.key) {
      assert ([x] + s)[1..] == s;
    } else {
      InsertValues(x, s[1..], k);
      assert ([s[0]] + Insert(x, s[1..]))[1..] == Insert(x, s[1..]);
      if s[0].key == k {
        LessIrreflexive(k);
      }
    }
  }

  /** The sort keeps the pairs of each key in their original order, so the
      values of a key after sorting are exactly its values before. */
  lemma {:induction false} SortKeepsValuesOfKey(s: seq<KeyValue>, k: GoString)
    ensures ValuesFor(SortByKey(s), k) == ValuesFor(s, k)
    decreases |s|
  {
    if s != [] {
      SortKeepsValuesOfKey(s[1..], k);
      InsertValues(s[0], SortByKey(s[1..]), k);
    }
  }

  /** Each value of key k occurs in ValuesFor(s, k) as often as the pair (k, value) occurs in s. */
  lemma {:induction false} ValuesForCount(s: seq<KeyValue>, k: GoString, v: GoString)
    ensures multiset(ValuesFor(s, k))[v] == multiset(s)[KeyValue(k, v)]
    decreases |s|
  {
    if s != [] {
      ValuesForCount(s[1..], k, v);
      assert s == [s[0]] + s[1..];
    }
  }

  /** Permutations hold the same values for every key, possibly in another order. */
  lemma PermutationValues(a: seq<KeyValue>, b: seq<KeyValue>, k: GoString)
    requires multiset(a) == multiset(b)
    ensures multiset(ValuesFor(a, k)) == multiset(ValuesFor(b, k))
  {
    forall v ensures multiset(ValuesFor(a, k))[v] == multiset(ValuesFor(b, k))[v] {
      ValuesForCount(a, k, v);
      ValuesForCount(b, k, v);
    }
  }

  /** Permutations have the same keys. */
  lemma PermutationKeys(a: seq<KeyValue>, b: seq<KeyValue>)
    requires multiset(a) == multiset(b)
    ensures Keys(a) == Keys(b)
  {
    forall k | k in Keys(a) ensures k in Keys(b) {
      var i :| 0 <= i < |a| && a[i].key == k;
      assert a[i] in multiset(b);
      var j :| 0 <= j < |b| && b[j] == a[i];
    }
    forall k | k in Keys(b) ensures k in Keys(a) {
      var j :| 0 <= j < |b| && b[j].key == k;
      assert b[j] in multiset(a);
      var i :| 0 <= i < |a| && a[i] == b[j];
    }
  }
}
