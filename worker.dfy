/** The worker's data routing (src/mr/worker.go): partitioning a map
    task's output into reduce buckets and naming the bucket files, reading
    back, sorting and grouping the records of one reduce bucket, and the
    one-step transition from a coordinator response to the next report.
    Files are modelled as maps from names to their records (input files
    to their text); the user's map and reduce functions are parameters. */
module Worker {
  import opened GoStrings
  import opened Seqs
  import opened Protocol
  import opened KeyValues
  import opened Hashing

  // ---------------------------------------------------------------------
  // Map branch: partitioning
  // ---------------------------------------------------------------------

  /** The pairs routed to bucket r, in emission order. */
  function BucketContents(kvs: seq<KeyValue>, nReduce: int, r: int): seq<KeyValue>
    requires nReduce > 0 || kvs == []
    decreases |kvs|
  {
    if kvs == [] then []
    else
      var kv := kvs[|kvs| - 1];
      BucketContents(kvs[..|kvs| - 1], nReduce, r) + (if Bucket(kv.key, nReduce) == r then [kv] else [])
  }

  lemma BucketContentsSnoc(kvs: seq<KeyValue>, kv: KeyValue, nReduce: int, r: int)
    requires nReduce > 0
    ensures BucketContents(kvs + [kv], nReduce, r)
         == BucketContents(kvs, nReduce, r) + (if Bucket(kv.key, nReduce) == r then [kv] else [])
  {
    assert (kvs + [kv])[..|kvs|] == kvs;
  }

  lemma BucketMultisetSnoc(kvs: seq<KeyValue>, kv: KeyValue, nReduce: int, r: int)
    requires nReduce > 0
    ensures multiset(BucketContents(kvs + [kv], nReduce, r))
         == multiset(BucketContents(kvs, nReduce, r)) + (if Bucket(kv.key, nReduce) == r then multiset{kv} else multiset{})
  {
    BucketContentsSnoc(kvs, kv, nReduce, r);
  }

  /** Partitioning loses and duplicates nothing: bucket r holds every
      emitted copy of each pair whose key hashes to r, and no other pair. */
  lemma {:induction false} BucketCounts(kvs: seq<KeyValue>, nReduce: int, r: int, x: KeyValue)
    requires nReduce > 0
    ensures multiset(BucketContents(kvs, nReduce, r))[x]
         == if Bucket(x.key, nReduce) == r then multiset(kvs)[x] else 0
    decreases |kvs|
  {
    if kvs != [] {
      var init, last := kvs[..|kvs| - 1], kvs[|kvs| - 1];
      assert kvs == init + [last];
      BucketCounts(init, nReduce, r, x);
      BucketMultisetSnoc(init, last, nReduce, r);
    }
  }

  /** Only buckets 0 .. nReduce-1 receive pairs. */
  lemma BucketsInRange(kvs: seq<KeyValue>, nReduce: int, r: int)
    requires nReduce > 0 && BucketContents(kvs, nReduce, r) != []
    ensures 0 <= r < nReduce
  {
    var kv := BucketContents(kvs, nReduce, r)[0];
    BucketCounts(kvs, nReduce, r, kv);
  }

  /** Buckets holds each non-empty bucket of the pairs in kvs, under its index. */
  ghost predicate Partitioned(buckets: map<int, seq<KeyValue>>, kvs: seq<KeyValue>, nReduce: int)
    requires nReduce > 0 || kvs == []
  {
    && (forall r :: r in buckets <==> BucketContents(kvs, nReduce, r) != [])
    && (forall r :: r in buckets ==> buckets[r] == BucketContents(kvs, nReduce, r))
  }

  /** Appending one pair to the list of its bucket keeps the buckets right. */
  lemma PartitionStep(buckets: map<int, seq<KeyValue>>, kvs: seq<KeyValue>, kv: KeyValue, nReduce: int)
    requires nReduce > 0 && Partitioned(buckets, kvs, nReduce)
    ensures var idx := Bucket(kv.key, nReduce);
            var current := if idx in buckets then buckets[idx] else [];
            Partitioned(buckets[idx := current + [kv]], kvs + [kv], nReduce)
  {
    forall r ensures BucketContents(kvs + [kv], nReduce, r)
                  == BucketContents(kvs, nReduce, r) + (if Bucket(kv.key, nReduce) == r then [kv] else []) {
      BucketContentsSnoc(kvs, kv, nReduce, r);
    }
  }

  /** The `byReduceFiles` loop: append each pair to the list of its bucket. */
  method Partition(kvs: seq<KeyValue>, nReduce: int) returns (buckets: map<int, seq<KeyValue>>)
    requires nReduce > 0 || kvs == []
    ensures forall r :: r in buckets <==> BucketContents(kvs, nReduce, r) != []
    ensures forall r :: r in buckets ==> buckets[r] == BucketContents(kvs, nReduce, r)
  {
    buckets := map[];
    for i := 0 to |kvs|
      invariant Partitioned(buckets, kvs[..i], nReduce)
    {
      var kv := kvs[i];
      var idx := IHash(kv.key) % nReduce;
      PartitionStep(buckets, kvs[..i], kv, nReduce);
      var current := if idx in buckets then buckets[idx] else [];
      buckets := buckets[idx := current + [kv]];
      assert kvs[..i + 1] == kvs[..i] + [kv];
    }
    assert kvs[..|kvs|] == kvs;
  }

  // ---------------------------------------------------------------------
  // Map branch: bucket files and the report
  // ---------------------------------------------------------------------

  /** `mr-<a>-<b>`. */
  function MrName(a: GoString, b: GoString): GoString {
    Ascii("mr-") + a + Ascii("-") + b
  }

  /** `mr-<mapId>-<r>`. */
  function IntermediateName(mapId: int, r: int): GoString {
    MrName(FormatInt(mapId), FormatInt(r))
  }

  /** One map task's bucket files have distinct names. */
  lemma IntermediateNameInjective(mapId: int, r1: int, r2: int)
    requires IntermediateName(mapId, r1) == IntermediateName(mapId, r2)
    ensures r1 == r2
  {
    var p := Ascii("mr-") + FormatInt(mapId) + Ascii("-");
    assert IntermediateName(mapId, r1) == p + FormatInt(r1);
    assert IntermediateName(mapId, r2) == p + FormatInt(r2);
    assert (p + FormatInt(r1))[|p|..] == FormatInt(r1);
    assert (p + FormatInt(r2))[|p|..] == FormatInt(r2);
    FormatIntInjective(r1, r2);
  }

  /** After the "mr-" prefix comes the first part, a "-", and the second part. */
  lemma MrNameAfterPrefix(a: GoString, b: GoString)
    ensures |MrName(a, b)| >= 3
    ensures MrName(a, b)[3..] == a + [Minus] + b
  {
    assert Ascii("mr-") == [109, 114, Minus];
    assert Ascii("-") == [Minus];
    assert MrName(a, b) == [109, 114, Minus] + (a + [Minus] + b);
  }

  /** A separator that occurs in neither first part splits a string in one
      way only. */
  lemma SeparatorSplit(a: GoString, s: GoString, b: GoString, t: GoString)
    requires forall k :: 0 <= k < |a| ==> a[k] != Minus
    requires forall k :: 0 <= k < |b| ==> b[k] != Minus
    requires a + [Minus] + s == b + [Minus] + t
    ensures a == b && s == t
  {
    var x := a + [Minus] + s;
    var y := b + [Minus] + t;
    assert x[|a|] == Minus;
    assert y[|b|] == Minus;
    assert |a| == |b|;
    assert a == x[..|a|] && b == y[..|b|];
    assert s == x[|a| + 1..] && t == y[|b| + 1..];
  }

  /** Bucket files of different map tasks, or of different buckets of one
      map task, have different names: no two map tasks, and no two buckets
      of one task, share a file name. */
  lemma IntermediateNamesDistinct(m1: nat, r1: int, m2: nat, r2: int)
    requires IntermediateName(m1, r1) == IntermediateName(m2, r2)
    ensures m1 == m2 && r1 == r2
  {
    MrNameAfterPrefix(Digits(m1), FormatInt(r1));
    MrNameAfterPrefix(Digits(m2), FormatInt(r2));
    SeparatorSplit(Digits(m1), FormatInt(r1), Digits(m2), FormatInt(r2));
    DigitsRoundTrip(m1);
    DigitsRoundTrip(m2);
    FormatIntInjective(r1, r2);
  }

  /** The report's file list: bucket r's file name if it got pairs, else "". */
  function ReportFiles(mapId: int, nReduce: nat, kvs: seq<KeyValue>): (files: seq<GoString>)
    requires nReduce > 0 || kvs == []
  {
    seq(nReduce, r requires 0 <= r < nReduce =>
      if BucketContents(kvs, nReduce, r) != [] then IntermediateName(mapId, r) else [])
  }

  /** The bucket files written by map task mapId: one per non-empty bucket,
      holding that bucket's pairs, and nothing else. */
  ghost predicate WroteBuckets(mapId: int, nReduce: int, kvs: seq<KeyValue>,
                               written: map<GoString, seq<KeyValue>>)
    requires nReduce > 0 || kvs == []
  {
    && (forall r :: BucketContents(kvs, nReduce, r) != [] ==>
          IntermediateName(mapId, r) in written &&
          written[IntermediateName(mapId, r)] == BucketContents(kvs, nReduce, r))
    && (forall name :: name in written ==>
          exists r :: 0 <= r < nReduce && BucketContents(kvs, nReduce, r) != [] && name == IntermediateName(mapId, r))
  }

  /** The file names of the buckets in rs. */
  function NamesOf(mapId: int, rs: set<int>): set<GoString> {
    set r | r in rs :: IntermediateName(mapId, r)
  }

  lemma NameNotYetUsed(mapId: int, rs: set<int>, r: int)
    requires r !in rs
    ensures IntermediateName(mapId, r) !in NamesOf(mapId, rs)
  {
    if IntermediateName(mapId, r) in NamesOf(mapId, rs) {
      var r' :| r' in rs && IntermediateName(mapId, r') == IntermediateName(mapId, r);
      IntermediateNameInjective(mapId, r', r);
    }
  }

  /** The buckets in done have been written: their names are recorded at
      their indexes in files and their pairs are in their files. */
  ghost predicate WrittenSoFar(mapId: int, buckets: map<int, seq<KeyValue>>, done: set<int>,
                               files: seq<GoString>, written: map<GoString, seq<KeyValue>>)
  {
    && done <= buckets.Keys
    && (forall r :: 0 <= r < |files| ==> files[r] == if r in done then IntermediateName(mapId, r) else [])
    && written.Keys == NamesOf(mapId, done)
    && (forall r :: r in done ==>
          IntermediateName(mapId, r) in written && written[IntermediateName(mapId, r)] == buckets[r])
  }

  /** Writing one more bucket keeps the record right. */
  lemma WriteStep(mapId: int, buckets: map<int, seq<KeyValue>>, done: set<int>,
                  files: seq<GoString>, written: map<GoString, seq<KeyValue>>, r: int)
    requires WrittenSoFar(mapId, buckets, done, files, written)
    requires r in buckets && r !in done && 0 <= r < |files|
    ensures WrittenSoFar(mapId, buckets, done + {r}, files[r := IntermediateName(mapId, r)],
                         written[IntermediateName(mapId, r) := buckets[r]])
  {
    NameNotYetUsed(mapId, done, r);
  }

  /** The loop over `byReduceFiles` (in no particular order): write each
      bucket to its file and record the name at the bucket's index. */
  method WriteBuckets(mapId: int, nReduce: nat, buckets: map<int, seq<KeyValue>>)
    returns (files: seq<GoString>, written: map<GoString, seq<KeyValue>>)
    requires forall r :: r in buckets ==> 0 <= r < nReduce
    ensures |files| == nReduce
    ensures forall r :: 0 <= r < nReduce ==>
              files[r] == if r in buckets then IntermediateName(mapId, r) else []
    ensures written.Keys == NamesOf(mapId, buckets.Keys)
    ensures forall r :: r in buckets ==>
              IntermediateName(mapId, r) in written && written[IntermediateName(mapId, r)] == buckets[r]
  {
    var out := new GoString[nReduce](_ => []);
    written := map[];
    var pending := buckets.Keys;
    ghost var done: set<int> := {};
    while pending != {}
      invariant pending !! done && pending + done == buckets.Keys
      invariant WrittenSoFar(mapId, buckets, done, out[..], written)
      decreases pending
    {
      var r := Pick(pending);
      var filename := IntermediateName(mapId, r);
      ghost var before := out[..];
      WriteStep(mapId, buckets, done, before, written, r);
      written := written[filename := buckets[r]];
      out[r] := filename;
      assert out[..] == before[r := filename];
      pending := pending - {r};
      done := done + {r};
    }
    files := out[..];
  }

  /** Partition the map output and write its bucket files. */
  method WriteMapOutput(mapId: int, nReduce: nat, kvs: seq<KeyValue>)
    returns (files: seq<GoString>, written: map<GoString, seq<KeyValue>>)
    requires nReduce > 0 || kvs == []
    ensures files == ReportFiles(mapId, nReduce, kvs)
    ensures WroteBuckets(mapId, nReduce, kvs, written)
  {
    var byReduceFiles := Partition(kvs, nReduce);
    forall r | r in byReduceFiles ensures 0 <= r < nReduce {
      BucketsInRange(kvs, nReduce, r);
    }
    files, written := WriteBuckets(mapId, nReduce, byReduceFiles);
    FilesAreReport(mapId, nReduce, kvs, byReduceFiles, files);
    WrittenAreBuckets(mapId, nReduce, kvs, byReduceFiles, written);
  }

  lemma FilesAreReport(mapId: int, nReduce: nat, kvs: seq<KeyValue>, buckets: map<int, seq<KeyValue>>,
                       files: seq<GoString>)
    requires nReduce > 0 || kvs == []
    requires forall r :: r in buckets <==> BucketContents(kvs, nReduce, r) != []
    requires |files| == nReduce
    requires forall r :: 0 <= r < nReduce ==> files[r] == if r in buckets then IntermediateName(mapId, r) else []
    ensures files == ReportFiles(mapId, nReduce, kvs)
  {
  }

  lemma WrittenAreBuckets(mapId: int, nReduce: nat, kvs: seq<KeyValue>, buckets: map<int, seq<KeyValue>>,
                          written: map<GoString, seq<KeyValue>>)
    requires nReduce > 0 || kvs == []
    requires Partitioned(buckets, kvs, nReduce)
    requires forall r :: r in buckets ==> 0 <= r < nReduce
    requires written.Keys == NamesOf(mapId, buckets.Keys)
    requires forall r :: r in buckets ==>
               IntermediateName(mapId, r) in written && written[IntermediateName(mapId, r)] == buckets[r]
    ensures WroteBuckets(mapId, nReduce, kvs, written)
  {
    forall name | name in written
      ensures exists r :: 0 <= r < nReduce && BucketContents(kvs, nReduce, r) != [] && name == IntermediateName(mapId, r)
    {
      var r :| r in buckets && name == IntermediateName(mapId, r);
    }
  }

  /** The contents of an input file; an unreadable file reads as empty,
      since the source ignores the errors of opening and reading it. */
  function InputContent(inputs: map<GoString, GoString>, name: GoString): GoString {
    if name in inputs then inputs[name] else []
  }

  // ---------------------------------------------------------------------
  // Reduce branch: reading, grouping, reducing
  // ---------------------------------------------------------------------

  /** The records of the named files, concatenated in order. */
  function Concat(names: seq<GoString>, files: map<GoString, seq<KeyValue>>): seq<KeyValue>
    requires forall i :: 0 <= i < |names| ==> names[i] in files
    decreases |names|
  {
    if names == [] then [] else Concat(names[..|names| - 1], files) + files[names[|names| - 1]]
  }

  /** Reading a reduce task's files: the first one that cannot be opened stops the worker. */
  datatype ReadResult = Records(kvs: seq<KeyValue>) | Unopenable(name: GoString)

  /** The index of the first name that is not an existing file. */
  function FirstMissing(names: seq<GoString>, files: map<GoString, seq<KeyValue>>): (i: nat)
    ensures i <= |names|
    ensures i < |names| ==> names[i] !in files
    ensures forall j :: 0 <= j < i ==> names[j] in files
  {
    FirstWhere(names, (n: GoString) => n !in files)
  }

  /** The loop that decodes every file of the task into `intermediate`. */
  method ReadAll(names: seq<GoString>, files: map<GoString, seq<KeyValue>>) returns (res: ReadResult)
    ensures var i := FirstMissing(names, files);
            if i < |names| then res == Unopenable(names[i]) else res == Records(Concat(names, files))
  {
    var intermediate := [];
    for i := 0 to |names|
      invariant forall j :: 0 <= j < i ==> names[j] in files
      invariant intermediate == Concat(names[..i], files)
    {
      if names[i] !in files {
        assert FirstMissing(names, files) == i;
        return Unopenable(names[i]);
      }
      assert names[..i + 1][..i] == names[..i];
      intermediate := intermediate + files[names[i]];
    }
    assert names[..|names|] == names;
    res := Records(intermediate);
  }

  /** One call of the reduce function: a key and the values of its run. */
  datatype Group = Group(key: GoString, values: seq<GoString>)

  /** The length of the run of equal keys at the front of s. */
  function RunLength(s: seq<KeyValue>): (n: nat)
    requires s != []
    ensures 1 <= n <= |s|
    decreases |s|
  {
    if |s| == 1 || s[1].key != s[0].key then 1 else 1 + RunLength(s[1..])
  }

  /** The run at the front is maximal: its keys all equal the first key,
      and the key after it, if any, differs. */
  lemma {:induction false} RunLengthSpec(s: seq<KeyValue>)
    requires s != []
    ensures forall k :: 0 <= k < RunLength(s) ==> s[k].key == s[0].key
    ensures RunLength(s) == |s| || s[RunLength(s)].key != s[0].key
    decreases |s|
  {
    if !(|s| == 1 || s[1].key != s[0].key) {
      RunLengthSpec(s[1..]);
    }
  }

  /** The values of s, in order. */
  function ValuesOf(s: seq<KeyValue>): seq<GoString>
    decreases |s|
  {
    if s == [] then [] else [s[0].value] + ValuesOf(s[1..])
  }

  lemma {:induction false} ValuesOfConcat(a: seq<KeyValue>, b: seq<KeyValue>)
    ensures ValuesOf(a + b) == ValuesOf(a) + ValuesOf(b)
    decreases |a|
  {
    if a == [] {
      assert a + b == b;
    } else {
      assert (a + b)[1..] == a[1..] + b;
      ValuesOfConcat(a[1..], b);
    }
  }

  /** The maximal runs of equal keys, front to back. */
  function Groups(s: seq<KeyValue>): seq<Group>
    decreases |s|
  {
    if s == [] then []
    else
      var n := RunLength(s);
      [Group(s[0].key, ValuesOf(s[..n]))] + Groups(s[n..])
  }

  /** The pairs a group stands for. */
  function Pairs(g: Group): (r: seq<KeyValue>)
    ensures |r| == |g.values|
    ensures forall i :: 0 <= i < |r| ==> r[i] == KeyValue(g.key, g.values[i])
    decreases |g.values|
  {
    if g.values == [] then [] else [KeyValue(g.key, g.values[0])] + Pairs(Group(g.key, g.values[1..]))
  }

  function Flatten(gs: seq<Group>): seq<KeyValue>
    decreases |gs|
  {
    if gs == [] then [] else Pairs(gs[0]) + Flatten(gs[1..])
  }

  /** The total number of values over all groups. */
  function Size(gs: seq<Group>): nat
    decreases |gs|
  {
    if gs == [] then 0 else |gs[0].values| + Size(gs[1..])
  }

  lemma {:induction false} GroupsFlatten(s: seq<KeyValue>)
    ensures Flatten(Groups(s)) == s
    decreases |s|
  {
    if s != [] {
      var n := RunLength(s);
      var gs := Groups(s);
      calc {
        Flatten(gs);
        Pairs(gs[0]) + Flatten(gs[1..]);
        { assert gs[1..] == Groups(s[n..]); }
        Pairs(gs[0]) + Flatten(Groups(s[n..]));
        { RunPairs(s); GroupsFlatten(s[n..]); }
        s[..n] + s[n..];
        s;
      }
    }
  }

  lemma {:induction false} FlattenSize(gs: seq<Group>)
    ensures |Flatten(gs)| == Size(gs)
    decreases |gs|
  {
    if gs != [] {
      FlattenSize(gs[1..]);
    }
  }

  lemma {:induction false} GroupsNonEmpty(s: seq<KeyValue>)
    ensures forall i :: 0 <= i < |Groups(s)| ==> |Groups(s)[i].values| > 0
    decreases |s|
  {
    if s != [] {
      var n := RunLength(s);
      GroupsNonEmpty(s[n..]);
      assert forall i :: 1 <= i < |Groups(s)| ==> Groups(s)[i] == Groups(s[n..])[i - 1];
    }
  }

  /** The groups cut the input into non-empty pieces that together are the
      input, so their sizes add up to its length. */
  lemma GroupsPartitionInput(s: seq<KeyValue>)
    ensures Flatten(Groups(s)) == s
    ensures Size(Groups(s)) == |s|
    ensures forall i :: 0 <= i < |Groups(s)| ==> |Groups(s)[i].values| > 0
  {
    GroupsFlatten(s);
    FlattenSize(Groups(s));
    GroupsNonEmpty(s);
  }

  lemma {:induction false} PairsOfRun(run: seq<KeyValue>, k: GoString)
    requires forall i :: 0 <= i < |run| ==> run[i].key == k
    ensures Pairs(Group(k, ValuesOf(run))) == run
    decreases |run|
  {
    if run != [] {
      PairsOfRun(run[1..], k);
      assert ValuesOf(run)[1..] == ValuesOf(run[1..]);
      assert run == [run[0]] + run[1..];
    }
  }

  /** The first group stands for the first run. */
  lemma RunPairs(s: seq<KeyValue>)
    requires s != []
    ensures Pairs(Groups(s)[0]) == s[..RunLength(s)]
  {
    RunLengthSpec(s);
    var n := RunLength(s);
    PairsOfRun(s[..n], s[0].key);
  }

  /** The keys of the first run. */
  lemma RunKeys(s: seq<KeyValue>)
    requires s != []
    ensures Keys(s[..RunLength(s)]) == {s[0].key}
  {
    RunLengthSpec(s);
    var run := s[..RunLength(s)];
    assert run[0] == s[0];
    forall k | k in Keys(run) ensures k == s[0].key {
      var i :| 0 <= i < |run| && run[i].key == k;
      assert run[i] == s[i];
    }
  }

  /** Runs are maximal: neighbouring groups have different keys. */
  lemma {:induction false} GroupsMaximal(s: seq<KeyValue>)
    ensures forall i :: 0 <= i < |Groups(s)| - 1 ==> Groups(s)[i].key != Groups(s)[i + 1].key
    decreases |s|
  {
    if s != [] {
      var n := RunLength(s);
      RunLengthSpec(s);
      GroupsMaximal(s[n..]);
      assert Groups(s)[1..] == Groups(s[n..]);
      if n < |s| {
        assert Groups(s[n..])[0].key == s[n].key;
      }
    }
  }

  /** The group keys are the keys of the input. */
  function GroupKeys(gs: seq<Group>): set<GoString> {
    set i | 0 <= i < |gs| :: gs[i].key
  }

  lemma GroupKeysCons(g: Group, gs: seq<Group>)
    ensures GroupKeys([g] + gs) == {g.key} + GroupKeys(gs)
  {
    var all := [g] + gs;
    forall k | k in GroupKeys(all) ensures k in {g.key} + GroupKeys(gs) {
      var i :| 0 <= i < |all| && all[i].key == k;
      if i > 0 { assert all[i] == gs[i - 1]; }
    }
    forall k | k in GroupKeys(gs) ensures k in GroupKeys(all) {
      var i :| 0 <= i < |gs| && gs[i].key == k;
      assert all[i + 1] == gs[i];
    }
    assert all[0] == g;
  }

  lemma KeysConcat(a: seq<KeyValue>, b: seq<KeyValue>)
    ensures Keys(a + b) == Keys(a) + Keys(b)
  {
    var ab := a + b;
    forall k | k in Keys(ab) ensures k in Keys(a) + Keys(b) {
      var i :| 0 <= i < |ab| && ab[i].key == k;
      if i >= |a| { assert ab[i] == b[i - |a|]; }
    }
    forall k | k in Keys(b) ensures k in Keys(ab) {
      var i :| 0 <= i < |b| && b[i].key == k;
      assert ab[i + |a|] == b[i];
    }
    forall k | k in Keys(a) ensures k in Keys(ab) {
      var i :| 0 <= i < |a| && a[i].key == k;
      assert ab[i] == a[i];
    }
  }

  lemma {:induction false} GroupsKeys(s: seq<KeyValue>)
    ensures GroupKeys(Groups(s)) == Keys(s)
    decreases |s|
  {
    if s != [] {
      var n := RunLength(s);
      GroupsKeys(s[n..]);
      GroupKeysCons(Group(s[0].key, ValuesOf(s[..n])), Groups(s[n..]));
      assert s == s[..n] + s[n..];
      KeysConcat(s[..n], s[n..]);
      RunKeys(s);
    }
  }

  lemma LessNotLess(a: GoString, b: GoString, c: GoString)
    requires Less(a, b) && !Less(c, b)
    ensures Less(a, c)
  {
    LessTrichotomy(b, c);
    if b != c {
      LessTransitive(a, b, c);
    }
  }

  /** b starts the run after a's, and c comes no earlier than b: then a < c. */
  lemma KeyAfterRun(a: GoString, b: GoString, c: GoString)
    requires a != b && !Less(b, a) && !Less(c, b)
    ensures Less(a, c)
  {
    LessTrichotomy(a, b);
    LessNotLess(a, b, c);
  }

  lemma SortedPair(s: seq<KeyValue>, i: nat, j: nat)
    requires SortedByKey(s) && i <= j < |s|
    ensures !Less(s[j].key, s[i].key)
  {
    if i == j {
      LessIrreflexive(s[i].key);
    }
  }

  lemma SortedSuffix(s: seq<KeyValue>, n: nat)
    requires SortedByKey(s) && n <= |s|
    ensures SortedByKey(s[n..])
  {
    var rest := s[n..];
    forall i, j | 0 <= i < j < |rest| ensures !Less(rest[j].key, rest[i].key) {
      assert rest[i] == s[n + i] && rest[j] == s[n + j];
    }
  }

  /** In sorted input, every key after the first run is greater than the first key. */
  lemma AfterRunGreater(s: seq<KeyValue>, i: nat)
    requires SortedByKey(s) && s != [] && RunLength(s) <= i < |s|
    ensures Less(s[0].key, s[i].key)
  {
    RunLengthSpec(s);
    var n := RunLength(s);
    SortedPair(s, 0, n);
    SortedPair(s, n, i);
    KeyAfterRun(s[0].key, s[n].key, s[i].key);
  }

  /** On sorted input the first key is less than every key after its run. */
  lemma FirstKeyBelowRest(s: seq<KeyValue>, k: GoString)
    requires SortedByKey(s) && s != [] && k in Keys(s[RunLength(s)..])
    ensures Less(s[0].key, k)
  {
    var n := RunLength(s);
    var rest := s[n..];
    var m :| 0 <= m < |rest| && rest[m].key == k;
    assert s[n + m] == rest[m];
    AfterRunGreater(s, n + m);
  }

  /** On sorted input every group key is less than the keys of the groups
      after it, so the output keys are strictly ascending and no key is
      written twice. */
  lemma {:induction false} GroupsAscending(s: seq<KeyValue>)
    requires SortedByKey(s)
    ensures forall i, j :: 0 <= i < j < |Groups(s)| ==> Less(Groups(s)[i].key, Groups(s)[j].key)
    decreases |s|
  {
    if s != [] {
      var rest := s[RunLength(s)..];
      var gs := Groups(s);
      SortedSuffix(s, RunLength(s));
      GroupsAscending(rest);
      GroupsKeys(rest);
      forall i, j | 0 <= i < j < |gs| ensures Less(gs[i].key, gs[j].key) {
        if i == 0 {
          assert gs[j] == Groups(rest)[j - 1];
          assert gs[j].key in GroupKeys(Groups(rest));
          FirstKeyBelowRest(s, gs[j].key);
        } else {
          assert gs[i] == Groups(rest)[i - 1] && gs[j] == Groups(rest)[j - 1];
        }
      }
    }
  }

  /** When the first key does not recur after the first run, the first
      group holds all values of the first key. */
  lemma FirstGroupValues(s: seq<KeyValue>)
    requires s != [] && ValuesFor(s[RunLength(s)..], s[0].key) == []
    ensures Groups(s)[0].values == ValuesFor(s, s[0].key)
  {
    var n := RunLength(s);
    RunLengthSpec(s);
    ValuesForSplit(s, n, s[0].key);
    RunValues(s[..n], s[0].key);
  }

  lemma ValuesForSplit(s: seq<KeyValue>, n: nat, k: GoString)
    requires n <= |s|
    ensures ValuesFor(s, k) == ValuesFor(s[..n], k) + ValuesFor(s[n..], k)
  {
    assert s == s[..n] + s[n..];
    ValuesForConcat(s[..n], s[n..], k);
  }

  /** In sorted input, the values of any other key all lie after the first run. */
  lemma OtherKeyValues(s: seq<KeyValue>, k: GoString)
    requires s != [] && k != s[0].key
    ensures ValuesFor(s, k) == ValuesFor(s[RunLength(s)..], k)
  {
    var n := RunLength(s);
    RunLengthSpec(s);
    ValuesForSplit(s, n, k);
    RunLacksOtherKey(s[..n], s[0].key, k);
  }

  /** On sorted input each group receives exactly the values of its key, in input order. */
  lemma {:induction false} GroupsCollectValues(s: seq<KeyValue>)
    requires SortedByKey(s)
    ensures forall i :: 0 <= i < |Groups(s)| ==> Groups(s)[i].values == ValuesFor(s, Groups(s)[i].key)
    decreases |s|
  {
    if s != [] {
      var n := RunLength(s);
      var gs := Groups(s);
      var rest := s[n..];
      SortedSuffix(s, n);
      GroupsCollectValues(rest);
      GroupsAscending(s);
      LessIrreflexive(s[0].key);
      RestLacksKey(s, n);
      FirstGroupValues(s);
      assert gs[1..] == Groups(rest);
      forall i | 1 <= i < |gs| ensures gs[i].values == ValuesFor(s, gs[i].key) {
        assert Less(gs[0].key, gs[i].key);
        OtherKeyValues(s, gs[i].key);
        assert gs[i] == Groups(rest)[i - 1];
      }
    }
  }

  lemma {:induction false} RunValues(run: seq<KeyValue>, k: GoString)
    requires forall i :: 0 <= i < |run| ==> run[i].key == k
    ensures ValuesFor(run, k) == ValuesOf(run)
    decreases |run|
  {
    if run != [] {
      RunValues(run[1..], k);
    }
  }

  lemma {:induction false} RunLacksOtherKey(run: seq<KeyValue>, k: GoString, other: GoString)
    requires forall i :: 0 <= i < |run| ==> run[i].key == k
    requires other != k
    ensures ValuesFor(run, other) == []
    decreases |run|
  {
    if run != [] {
      RunLacksOtherKey(run[1..], k, other);
    }
  }

  /** In sorted input, no pair after the first run has the first run's key. */
  lemma RestLacksKey(s: seq<KeyValue>, n: nat)
    requires SortedByKey(s) && s != [] && n == RunLength(s)
    ensures ValuesFor(s[n..], s[0].key) == []
  {
    RunLengthSpec(s);
    var rest := s[n..];
    LessIrreflexive(s[0].key);
    forall m | 0 <= m < |rest| ensures rest[m].key != s[0].key {
      assert rest[m] == s[n + m];
      AfterRunGreater(s, n + m);
    }
    KeyAbsent(rest, s[0].key);
  }

  lemma {:induction false} KeyAbsent(s: seq<KeyValue>, k: GoString)
    requires forall m :: 0 <= m < |s| ==> s[m].key != k
    ensures ValuesFor(s, k) == []
    decreases |s|
  {
    if s != [] {
      KeyAbsent(s[1..], k);
    }
  }

  /** What the reduce branch writes: one line per group, the key and the
      reduce function's output for it. */
  function ReduceAll(gs: seq<Group>, reducef: (GoString, seq<GoString>) -> GoString): seq<KeyValue> {
    seq(|gs|, i requires 0 <= i < |gs| => KeyValue(gs[i].key, reducef(gs[i].key, gs[i].values)))
  }

  /** The output of a reduce task whose files hold `records`. */
  function ReduceOutput(records: seq<KeyValue>, reducef: (GoString, seq<GoString>) -> GoString): seq<KeyValue> {
    ReduceAll(Groups(SortByKey(records)), reducef)
  }

  /** The reduce output has strictly ascending keys, exactly the keys of
      the records, and for each key the reduce function applied to all of
      that key's values, in the order they were read. */
  lemma ReduceOutputCorrect(records: seq<KeyValue>, reducef: (GoString, seq<GoString>) -> GoString)
    ensures var lines := ReduceOutput(records, reducef);
      && (forall i, j :: 0 <= i < j < |lines| ==> Less(lines[i].key, lines[j].key))
      && Keys(lines) == Keys(records)
      && (forall i :: 0 <= i < |lines| ==>
            lines[i].value == reducef(lines[i].key, ValuesFor(records, lines[i].key)))
  {
    var sorted := SortByKey(records);
    var gs := Groups(sorted);
    var lines := ReduceAll(gs, reducef);
    GroupsAscending(sorted);
    GroupsKeys(sorted);
    PermutationKeys(sorted, records);
    assert Keys(lines) == GroupKeys(gs) by {
      forall k | k in Keys(lines) ensures k in GroupKeys(gs) {
        var i :| 0 <= i < |lines| && lines[i].key == k;
        assert gs[i].key == k;
      }
      forall k | k in GroupKeys(gs) ensures k in Keys(lines) {
        var i :| 0 <= i < |gs| && gs[i].key == k;
        assert lines[i].key == k;
      }
    }
    GroupsCollectValues(sorted);
    forall i | 0 <= i < |lines|
      ensures lines[i].value == reducef(lines[i].key, ValuesFor(records, lines[i].key))
    {
      SortKeepsValuesOfKey(records, gs[i].key);
    }
  }

  /** Go's sort.Sort is not stable, so the records may come out of it in
      any key-sorted order. Whatever that order, the groups have strictly
      ascending keys, exactly the keys of the records, and each group
      holds exactly the values of its key (as a multiset). */
  lemma AnySortedOrderGroups(records: seq<KeyValue>, sorted: seq<KeyValue>)
    requires SortedByKey(sorted) && multiset(sorted) == multiset(records)
    ensures var gs := Groups(sorted);
      && (forall i, j :: 0 <= i < j < |gs| ==> Less(gs[i].key, gs[j].key))
      && GroupKeys(gs) == Keys(records)
      && (forall i :: 0 <= i < |gs| ==> multiset(gs[i].values) == multiset(ValuesFor(records, gs[i].key)))
  {
    var gs := Groups(sorted);
    GroupsAscending(sorted);
    GroupsKeys(sorted);
    PermutationKeys(sorted, records);
    GroupsCollectValues(sorted);
    forall i | 0 <= i < |gs| ensures multiset(gs[i].values) == multiset(ValuesFor(records, gs[i].key)) {
      PermutationValues(sorted, records, gs[i].key);
    }
  }

  /** A run of equal keys from i up to j, where the key changes or s ends. */
  ghost predicate RunAt(s: seq<KeyValue>, i: nat, j: nat) {
    && i < j <= |s|
    && (forall k :: i <= k < j ==> s[k].key == s[i].key)
    && (j == |s| || s[j].key != s[i].key)
  }

  lemma {:induction false} RunLengthAt(s: seq<KeyValue>, i: nat, j: nat)
    requires RunAt(s, i, j)
    ensures RunLength(s[i..]) == j - i
    decreases j - i
  {
    if j > i + 1 {
      assert s[i + 1].key == s[i].key;
      RunLengthAt(s, i + 1, j);
      assert s[i..][1..] == s[i + 1..];
    }
  }

  /** The group that starts at i is the run from i to j. */
  lemma GroupsAt(s: seq<KeyValue>, i: nat, j: nat)
    requires RunAt(s, i, j)
    ensures Groups(s[i..]) == [Group(s[i].key, ValuesOf(s[i..j]))] + Groups(s[j..])
  {
    var rest := s[i..];
    RunLengthAt(s, i, j);
    assert rest[..j - i] == s[i..j] && rest[j - i..] == s[j..];
  }

  lemma ReduceAllCons(g: Group, gs: seq<Group>, reducef: (GoString, seq<GoString>) -> GoString)
    ensures ReduceAll([g] + gs, reducef) == [KeyValue(g.key, reducef(g.key, g.values))] + ReduceAll(gs, reducef)
  {
  }

  lemma ValuesOfSnoc(s: seq<KeyValue>, i: nat, k: nat)
    requires i <= k < |s|
    ensures ValuesOf(s[i..k + 1]) == ValuesOf(s[i..k]) + [s[k].value]
  {
    assert s[i..k + 1] == s[i..k] + [s[k]];
    ValuesOfConcat(s[i..k], [s[k]]);
  }

  /** The `j` loop: the end of the run of equal keys starting at i. */
  method RunEnd(s: seq<KeyValue>, i: nat) returns (j: nat)
    requires i < |s|
    ensures RunAt(s, i, j)
  {
    j := i + 1;
    while j < |s| && s[j].key == s[i].key
      invariant i < j <= |s|
      invariant forall k :: i <= k < j ==> s[k].key == s[i].key
      decreases |s| - j
    {
      j := j + 1;
    }
  }

  /** The `k` loop: the values of s[i..j], in order. */
  method CollectValues(s: seq<KeyValue>, i: nat, j: nat) returns (values: seq<GoString>)
    requires i <= j <= |s|
    ensures values == ValuesOf(s[i..j])
  {
    values := [];
    for k := i to j
      invariant values == ValuesOf(s[i..k])
    {
      ValuesOfSnoc(s, i, k);
      values := values + [s[k].value];
    }
  }

  /** The i/j loop over the sorted records: find the end of each run of
      equal keys, collect its values, call reducef once per run. */
  method ReduceRuns(intermediate: seq<KeyValue>, reducef: (GoString, seq<GoString>) -> GoString)
    returns (lines: seq<KeyValue>)
    ensures lines == ReduceAll(Groups(intermediate), reducef)
  {
    lines := [];
    var i := 0;
    while i < |intermediate|
      invariant 0 <= i <= |intermediate|
      invariant ReduceAll(Groups(intermediate), reducef) == lines + ReduceAll(Groups(intermediate[i..]), reducef)
      decreases |intermediate| - i
    {
      var j := RunEnd(intermediate, i);
      var values := CollectValues(intermediate, i, j);
      var output := reducef(intermediate[i].key, values);
      GroupsAt(intermediate, i, j);
      ReduceAllCons(Group(intermediate[i].key, values), Groups(intermediate[j..]), reducef);
      lines := lines + [KeyValue(intermediate[i].key, output)];
      i := j;
    }
  }

  // ---------------------------------------------------------------------
  // One iteration of the worker loop
  // ---------------------------------------------------------------------

  /** `mr-out-<reduceId>`. */
  function OutputName(reduceId: int): GoString {
    Ascii("mr-out-") + FormatInt(reduceId)
  }

  /** Why a worker process stops abnormally. */
  datatype Fault =
    | UnknownTaskType       // the `default:` panic
    | FilesIndexOutOfRange  // `newTask.Files[0]` on an empty list
    | DivideByZero          // `ihash(key) % 0`
    | NegativeSliceLength   // `make([]string, n)` with n < 0
    | CannotOpen(name: GoString)  // log.Fatalf in the reduce branch

  /** What one iteration leads to: the next report and the files written,
      the end of the loop, or a crash. */
  datatype Iteration =
    | Continue(report: TaskRequest, written: map<GoString, seq<KeyValue>>)
    | Stop
    | Crash(fault: Fault)

  /** The outcome of the map branch: a crash on an empty file list, on
      `% 0` with pairs to route, or on a negative bucket count; otherwise
      the report names one file per bucket and those files hold the buckets. */
  ghost predicate MapBranch(task: TaskResponse, mapf: (GoString, GoString) -> seq<KeyValue>,
                            inputs: map<GoString, GoString>, it: Iteration)
  {
    if |task.files| == 0 then it == Crash(FilesIndexOutOfRange)
    else
      var kvs := mapf(task.files[0], InputContent(inputs, task.files[0]));
      if task.nReduce == 0 && kvs != [] then it == Crash(DivideByZero)
      else if task.nReduce < 0 then it == Crash(NegativeSliceLength)
      else && it.Continue?
           && it.report == TaskRequest(Map, task.id, ReportFiles(task.id, task.nReduce, kvs))
           && WroteBuckets(task.id, task.nReduce, kvs, it.written)
  }

  /** The map branch. */
  method RunMap(task: TaskResponse, mapf: (GoString, GoString) -> seq<KeyValue>,
                inputs: map<GoString, GoString>)
    returns (it: Iteration)
    ensures MapBranch(task, mapf, inputs, it)
  {
    if |task.files| == 0 {
      return Crash(FilesIndexOutOfRange);
    }
    var f := task.files[0];
    var content := InputContent(inputs, f);
    var intermediate := mapf(f, content);
    if task.nReduce == 0 && intermediate != [] {
      return Crash(DivideByZero);
    }
    if task.nReduce < 0 {
      return Crash(NegativeSliceLength);
    }
    var files, written := WriteMapOutput(task.id, task.nReduce, intermediate);
    it := Continue(TaskRequest(Map, task.id, files), written);
  }

  /** The outcome of the reduce branch: a crash on the first file that
      cannot be opened; otherwise one output file holding the reduce
      output of every record read, and a report naming it. */
  predicate ReduceBranch(task: TaskResponse, reducef: (GoString, seq<GoString>) -> GoString,
                         files: map<GoString, seq<KeyValue>>, it: Iteration)
  {
    var i := FirstMissing(task.files, files);
    if i < |task.files| then it == Crash(CannotOpen(task.files[i]))
    else it == Continue(TaskRequest(Reduce, task.id, [OutputName(task.id)]),
                        map[OutputName(task.id) := ReduceOutput(Concat(task.files, files), reducef)])
  }

  /** The reduce branch. */
  method RunReduce(task: TaskResponse, reducef: (GoString, seq<GoString>) -> GoString,
                   files: map<GoString, seq<KeyValue>>)
    returns (it: Iteration)
    ensures ReduceBranch(task, reducef, files, it)
  {
    var read := ReadAll(task.files, files);
    if read.Unopenable? {
      return Crash(CannotOpen(read.name));
    }
    var intermediate := SortByKey(read.kvs);
    var oname := OutputName(task.id);
    var lines := ReduceRuns(intermediate, reducef);
    it := Continue(TaskRequest(Reduce, task.id, [oname]), map[oname := lines]);
  }

  /** One pass of the worker loop: act on the coordinator's response and
      produce the report for the next call. */
  method RunTask(task: TaskResponse,
                 mapf: (GoString, GoString) -> seq<KeyValue>,
                 reducef: (GoString, seq<GoString>) -> GoString,
                 inputs: map<GoString, GoString>,
                 files: map<GoString, seq<KeyValue>>)
    returns (it: Iteration)
    ensures task.kind == Map ==> MapBranch(task, mapf, inputs, it)
    ensures task.kind == Reduce ==> ReduceBranch(task, reducef, files, it)
    ensures task.kind == Sleep ==> it == Continue(TaskRequest(None, 0, []), map[])
    ensures task.kind == Exit ==> it == Stop
    ensures task.kind == None ==> it == Crash(UnknownTaskType)
  {
    match task.kind
    case Map =>
      it := RunMap(task, mapf, inputs);
    case Reduce =>
      it := RunReduce(task, reducef, files);
    case Sleep =>
      it := Continue(TaskRequest(None, 0, []), map[]);
    case Exit =>
      it := Stop;
    case None =>
      it := Crash(UnknownTaskType);
  }
}
