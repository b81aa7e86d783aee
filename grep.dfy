/** The grep application (src/mrapps/grep.go): its map function emits
    (filename, "1") for every line of the file that contains "And", and
    its reduce function counts the values of a key. */
module Grep {
  import opened GoStrings
  import opened Seqs
  import opened KeyValues
  import opened Worker

  // ---------------------------------------------------------------------
  // strings.FieldsFunc(contents, func(r) { r == '\n' })
  // ---------------------------------------------------------------------

  const Newline: byte := 10

  /** The length of the field at the front of s: the bytes up to the next
      newline or the end. (A newline byte never occurs inside a multi-byte
      UTF-8 sequence, so splitting the bytes splits the runes.) */
  function FieldLength(s: GoString): (n: nat)
    requires s != [] && s[0] != Newline
    ensures 1 <= n <= |s|
    ensures forall k :: 0 <= k < n ==> s[k] != Newline
    ensures n == |s| || s[n] == Newline
    decreases |s|
  {
    if |s| == 1 || s[1] == Newline then 1 else 1 + FieldLength(s[1..])
  }

  /** The fields of s: its maximal non-empty runs of non-newline bytes, in order. */
  function Lines(s: GoString): seq<GoString>
    decreases |s|
  {
    if s == [] then []
    else if s[0] == Newline then Lines(s[1..])
    else
      var n := FieldLength(s);
      [s[..n]] + Lines(s[n..])
  }

  /** A line as FieldsFunc yields it: non-empty and without a newline. */
  predicate IsLine(line: GoString) {
    line != [] && forall k :: 0 <= k < |line| ==> line[k] != Newline
  }

  /** Every field is non-empty and holds no newline. */
  lemma {:induction false} LinesAreLines(s: GoString)
    ensures forall i :: 0 <= i < |Lines(s)| ==> IsLine(Lines(s)[i])
    decreases |s|
  {
    if s != [] {
      if s[0] == Newline {
        LinesAreLines(s[1..]);
      } else {
        var n := FieldLength(s);
        LinesAreLines(s[n..]);
        assert forall i :: 1 <= i < |Lines(s)| ==> Lines(s)[i] == Lines(s[n..])[i - 1];
      }
    }
  }

  lemma {:induction false} FieldLengthIs(s: GoString, n: nat)
    requires 1 <= n <= |s|
    requires forall k :: 0 <= k < n ==> s[k] != Newline
    requires n == |s| || s[n] == Newline
    ensures FieldLength(s) == n
    decreases n
  {
    if n > 1 {
      FieldLengthIs(s[1..], n - 1);
    }
  }

  /** Cutting at a newline: the fields of a + "\n" + b are those of a then
      those of b. */
  lemma {:induction false} LinesSplit(a: GoString, b: GoString)
    ensures Lines(a + [Newline] + b) == Lines(a) + Lines(b)
    decreases |a|
  {
    var s := a + [Newline] + b;
    if a == [] {
      assert s[1..] == b;
    } else if a[0] == Newline {
      assert s[1..] == a[1..] + [Newline] + b;
      LinesSplit(a[1..], b);
    } else {
      var n := FieldLength(a);
      FieldLengthIs(s, n);
      assert s[..n] == a[..n];
      if n < |a| {
        assert s[n..] == a[n..] + [Newline] + b;
        LinesSplit(a[n..], b);
      } else {
        assert s[n..] == [Newline] + b;
        assert s[n..][1..] == b;
        assert a[n..] == [];
      }
    }
  }

  /** Leading, trailing and repeated newlines produce no lines. */
  lemma ExtraNewlinesIgnored(a: GoString, b: GoString)
    ensures Lines([Newline] + a) == Lines(a)
    ensures Lines(a + [Newline]) == Lines(a)
    ensures Lines(a + [Newline, Newline] + b) == Lines(a + [Newline] + b)
  {
    LinesSplit([], a);
    assert [] + [Newline] + a == [Newline] + a;
    LinesSplit(a, []);
    assert a + [Newline] + [] == a + [Newline];
    LinesSplit(a + [Newline], b);
    assert a + [Newline] + [Newline] + b == a + [Newline, Newline] + b;
    LinesSplit(a, b);
    LinesSplit(a, []);
  }

  /** The lines joined with single newlines. */
  function Join(lines: seq<GoString>): GoString
    decreases |lines|
  {
    if lines == [] then []
    else if |lines| == 1 then lines[0]
    else lines[0] + [Newline] + Join(lines[1..])
  }

  /** Splitting a text the lines were joined into gives back the lines. */
  lemma {:induction false} LinesOfJoin(lines: seq<GoString>)
    requires forall i :: 0 <= i < |lines| ==> IsLine(lines[i])
    ensures Lines(Join(lines)) == lines
    decreases |lines|
  {
    if lines != [] {
      var l := lines[0];
      FieldLengthIs(l, |l|);
      assert l[..|l|] == l && l[|l|..] == [];
      if |lines| > 1 {
        LinesOfJoin(lines[1..]);
        LinesSplit(l, Join(lines[1..]));
        assert lines == [l] + lines[1..];
      }
    }
  }

  // ---------------------------------------------------------------------
  // strings.Contains and the map function
  // ---------------------------------------------------------------------

  /** sub occurs in s at position i. */
  predicate OccursAt(s: GoString, sub: GoString, i: int) {
    0 <= i && i + |sub| <= |s| && s[i..i + |sub|] == sub
  }

  /** `strings.Contains`: whether sub occurs somewhere in s. */
  function Contains(s: GoString, sub: GoString): (b: bool)
    ensures b <==> exists i :: OccursAt(s, sub, i)
    decreases |s|
  {
    if |s| < |sub| then false
    else if s[..|sub|] == sub then
      assert OccursAt(s, sub, 0);
      true
    else
      var rest := Contains(s[1..], sub);
      if rest then
        var i :| OccursAt(s[1..], sub, i);
        assert s[1..][i..i + |sub|] == s[i + 1..i + 1 + |sub|];
        assert OccursAt(s, sub, i + 1);
        true
      else
        assert forall i :: OccursAt(s, sub, i) && i > 0 ==> OccursAt(s[1..], sub, i - 1) by {
          forall i | OccursAt(s, sub, i) && i > 0 ensures OccursAt(s[1..], sub, i - 1) {
            assert s[1..][i - 1..i - 1 + |sub|] == s[i..i + |sub|];
          }
        }
        false
  }

  /** The search string. */
  function Needle(): GoString { Ascii("And") }

  /** The value emitted for every matching line. */
  function One(): GoString { Ascii("1") }

  predicate HasNeedle(line: GoString) {
    Contains(line, Needle())
  }

  /** The pairs the map function emits for these lines, in line order. */
  function Matches(filename: GoString, lines: seq<GoString>): seq<KeyValue>
    decreases |lines|
  {
    if lines == [] then []
    else
      var last := lines[|lines| - 1];
      Matches(filename, lines[..|lines| - 1]) + (if HasNeedle(last) then [KeyValue(filename, One())] else [])
  }

  /** grep's `Map`: split the contents into lines and emit (filename, "1")
      for each line that contains "And". */
  method Map(filename: GoString, contents: GoString) returns (kva: seq<KeyValue>)
    ensures kva == Matches(filename, Lines(contents))
  {
    var lines := Lines(contents);
    kva := [];
    for i := 0 to |lines|
      invariant kva == Matches(filename, lines[..i])
    {
      assert lines[..i + 1][..i] == lines[..i];
      if Contains(lines[i], Needle()) {
        kva := kva + [KeyValue(filename, One())];
      }
    }
    assert lines[..|lines|] == lines;
  }

  /** One pair per matching line, each of them (filename, "1"). */
  lemma {:induction false} MatchesCharacterized(filename: GoString, lines: seq<GoString>)
    ensures |Matches(filename, lines)| == CountWhere(lines, HasNeedle)
    ensures forall i :: 0 <= i < |Matches(filename, lines)| ==> Matches(filename, lines)[i] == KeyValue(filename, One())
    decreases |lines|
  {
    if lines != [] {
      MatchesCharacterized(filename, lines[..|lines| - 1]);
    }
  }

  /** There are at most as many pairs as lines, and none exactly when no line contains "And". */
  lemma MatchesBounds(filename: GoString, lines: seq<GoString>)
    ensures |Matches(filename, lines)| <= |lines|
    ensures Matches(filename, lines) == [] <==> forall i :: 0 <= i < |lines| ==> !HasNeedle(lines[i])
  {
    MatchesCharacterized(filename, lines);
    CountWhereZero(lines, HasNeedle);
  }

  /** Each line is a piece of the contents. */
  lemma {:induction false} LinesOccurInContents(s: GoString, i: nat)
    requires i < |Lines(s)|
    ensures exists p :: OccursAt(s, Lines(s)[i], p)
    decreases |s|
  {
    if s[0] == Newline {
      LinesOccurInContents(s[1..], i);
      var p :| OccursAt(s[1..], Lines(s)[i], p);
      assert s[1..][p..p + |Lines(s)[i]|] == s[p + 1..p + 1 + |Lines(s)[i]|];
      assert OccursAt(s, Lines(s)[i], p + 1);
    } else {
      var n := FieldLength(s);
      if i == 0 {
        assert OccursAt(s, Lines(s)[0], 0);
      } else {
        LinesOccurInContents(s[n..], i - 1);
        var line := Lines(s[n..])[i - 1];
        assert Lines(s)[i] == line;
        var p :| OccursAt(s[n..], line, p);
        assert s[n..][p..p + |line|] == s[p + n..p + n + |line|];
        assert OccursAt(s, line, p + n);
      }
    }
  }

  /** An occurrence inside a piece of s is an occurrence in s. */
  lemma ContainsInPiece(s: GoString, piece: GoString, p: int, sub: GoString)
    requires OccursAt(s, piece, p) && Contains(piece, sub)
    ensures Contains(s, sub)
  {
    var i :| OccursAt(piece, sub, i);
    assert forall k :: 0 <= k < |sub| ==> sub[k] == piece[i + k] == s[p + i + k];
    assert s[p + i..p + i + |sub|] == sub;
    assert OccursAt(s, sub, p + i);
  }

  /** Contents in which "And" does not occur yield no pairs. */
  lemma NoNeedleNoPairs(filename: GoString, contents: GoString)
    requires !Contains(contents, Needle())
    ensures Matches(filename, Lines(contents)) == []
  {
    var lines := Lines(contents);
    forall i | 0 <= i < |lines| ensures !HasNeedle(lines[i]) {
      LinesOccurInContents(contents, i);
      var p :| OccursAt(contents, lines[i], p);
      if HasNeedle(lines[i]) {
        ContainsInPiece(contents, lines[i], p, Needle());
      }
    }
    MatchesBounds(filename, lines);
  }

  // ---------------------------------------------------------------------
  // The reduce function
  // ---------------------------------------------------------------------

  /** grep's `Reduce`: the decimal rendering of the number of values,
      whatever the key and the values are. */
  function Reduce(key: GoString, values: seq<GoString>): (r: GoString)
    ensures |r| >= 1 && forall i :: 0 <= i < |r| ==> IsDigit(r[i])
    ensures r[0] == Zero ==> |values| == 0
    ensures ParseInt(r) == |values|
  {
    FormatIntRoundTrip(|values|);
    FormatInt(|values|)
  }

  /** The output depends only on how many values there are. */
  lemma ReduceCountsOnly(k1: GoString, v1: seq<GoString>, k2: GoString, v2: seq<GoString>)
    ensures Reduce(k1, v1) == Reduce(k2, v2) <==> |v1| == |v2|
  {
    if Reduce(k1, v1) == Reduce(k2, v2) {
      assert ParseInt(Reduce(k1, v1)) == ParseInt(Reduce(k2, v2));
    }
  }

  // ---------------------------------------------------------------------
  // grep as the worker's map and reduce functions
  // ---------------------------------------------------------------------

  lemma {:induction false} ValuesForSingleKey(kvs: seq<KeyValue>, k: GoString)
    requires forall i :: 0 <= i < |kvs| ==> kvs[i].key == k
    ensures |ValuesFor(kvs, k)| == |kvs|
    decreases |kvs|
  {
    if kvs != [] {
      ValuesForSingleKey(kvs[1..], k);
    }
  }

  /** Reducing the pairs grep emits for one file writes a single line: the
      file name and the number of its lines that contain "And" (nothing
      when there is none). */
  lemma GrepOneFile(filename: GoString, contents: GoString)
    ensures var lines := Lines(contents);
            var count := CountWhere(lines, HasNeedle);
            ReduceOutput(Matches(filename, lines), Reduce)
              == if count == 0 then [] else [KeyValue(filename, FormatInt(count))]
  {
    var lines := Lines(contents);
    var kvs := Matches(filename, lines);
    var count := CountWhere(lines, HasNeedle);
    MatchesCharacterized(filename, lines);
    var out := ReduceOutput(kvs, Reduce);
    ReduceOutputCorrect(kvs, Reduce);
    if count > 0 {
      assert kvs[0].key == filename;
      assert Keys(kvs) == {filename};
      assert out[0].key in Keys(out);
      if |out| > 1 {
        assert out[1].key in Keys(out);
        assert Less(out[0].key, out[1].key);
        LessIrreflexive(filename);
      }
      ValuesForSingleKey(kvs, filename);
      assert out == [KeyValue(filename, FormatInt(count))];
    }
  }
}
