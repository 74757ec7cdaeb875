/** What a redacted text still shows of its source. */
module Shadows {
  // `Shows(line, out, kept)`: wherever a star-free text is seen in `out`, that text is in `line`, at
  // positions of `kept` only; and an end of `out` it touches is an end of `line`. So nothing new can be
  // read in `out`, and, because the ends match, the redactions of consecutive lines join into a
  // redaction of the joined lines.

  import opened Text
  import opened Ranges

  ghost predicate Seen(text: string, out: string, p: int) {
    text != "" && StarFree(text) && OccursAt(text, out, p)
  }

  ghost predicate ShownFrom(line: string, out: string, kept: int -> bool, text: string, p: int, q: int) {
    && OccursAt(text, line, q)
    && (p == 0 ==> q == 0)
    && (p + |text| == |out| ==> q + |text| == |line|)
    && forall k :: q <= k < q + |text| ==> kept(k)
  }

  ghost predicate Shows(line: string, out: string, kept: int -> bool) {
    && (out == "" ==> line == "")
    && forall text, p :: Seen(text, out, p) ==> exists q :: ShownFrom(line, out, kept, text, p, q)
  }

  /** Every position may be shown. */
  ghost function Any(): int -> bool { (k: int) => true }

  /** Positions of two joined lines: the first's, then the second's. */
  ghost function Joined(keptA: int -> bool, n: nat, keptB: int -> bool): int -> bool {
    (k: int) => if k < n then keptA(k) else keptB(k - n)
  }

  /** A star-free text in the redacted line was in the line. */
  lemma ShownWasThere(line: string, out: string, kept: int -> bool, text: string)
    requires Shows(line, out, kept) && text != "" && StarFree(text) && Occurs(text, out)
    ensures Occurs(text, line)
  {
    var p :| OccursAt(text, out, p);
    assert Seen(text, out, p);
    var q :| ShownFrom(line, out, kept, text, p, q);
  }

  lemma ShowsSame(line: string)
    ensures Shows(line, line, Any())
  {
    forall text, p | Seen(text, line, p) ensures exists q :: ShownFrom(line, line, Any(), text, p, q) {
      assert ShownFrom(line, line, Any(), text, p, p);
    }
  }

  lemma ShowsMask(line: string, kept: int -> bool)
    ensures Shows(line, MASK, kept)
  {
    forall text, p ensures !Seen(text, MASK, p) {
      if text != "" && OccursAt(text, MASK, p) {
        assert text[0] == MASK[p];
        assert text[0] in text;
      }
    }
  }

  /** Two occurrences that touch make one. */
  lemma Touching(text: string, n: nat, a: string, b: string, q: int)
    requires 0 < n <= |text| && 0 <= q && q + n == |a|
    requires OccursAt(text[..n], a, q) && OccursAt(text[n..], b, 0)
    ensures OccursAt(text, a + b, q)
  {
    forall k | 0 <= k < |text| ensures text[k] == (a + b)[q + k] {
      assert k < n ==> text[..n][k] == a[q + k];
      assert n <= k ==> text[n..][k - n] == b[k - n];
    }
  }

  lemma ShownJoined(a: string, outA: string, keptA: int -> bool, b: string, outB: string, keptB: int -> bool,
                    text: string, p: int) returns (q: int)
    requires Shows(a, outA, keptA) && Shows(b, outB, keptB) && Seen(text, outA + outB, p)
    ensures ShownFrom(a + b, outA + outB, Joined(keptA, |a|, keptB), text, p, q)
  {
    if p + |text| <= |outA| {
      assert Seen(text, outA, p);
      q :| ShownFrom(a, outA, keptA, text, p, q);
    } else if |outA| <= p {
      assert Seen(text, outB, p - |outA|);
      var r :| ShownFrom(b, outB, keptB, text, p - |outA|, r);
      q := |a| + r;
    } else {
      var n := |outA| - p;
      assert Seen(text[..n], outA, p) && Seen(text[n..], outB, 0);
      q :| ShownFrom(a, outA, keptA, text[..n], p, q);
      var r :| ShownFrom(b, outB, keptB, text[n..], 0, r);
      Touching(text, n, a, b, q);
    }
  }

  lemma ShowsJoin(a: string, outA: string, keptA: int -> bool, b: string, outB: string, keptB: int -> bool)
    requires Shows(a, outA, keptA) && Shows(b, outB, keptB)
    ensures Shows(a + b, outA + outB, Joined(keptA, |a|, keptB))
  {
    forall text, p | Seen(text, outA + outB, p)
      ensures exists q :: ShownFrom(a + b, outA + outB, Joined(keptA, |a|, keptB), text, p, q)
    {
      var q := ShownJoined(a, outA, keptA, b, outB, keptB, text, p);
    }
  }

  lemma ShowsMore(line: string, out: string, kept: int -> bool, more: int -> bool)
    requires Shows(line, out, kept) && forall k :: kept(k) ==> more(k)
    ensures Shows(line, out, more)
  {
    forall text, p | Seen(text, out, p) ensures exists q :: ShownFrom(line, out, more, text, p, q) {
      var q :| ShownFrom(line, out, kept, text, p, q);
      assert ShownFrom(line, out, more, text, p, q);
    }
  }

  /** Redacting a redaction shows no more of the source. */
  lemma ShowsThen(line: string, mid: string, kept: int -> bool, out: string, keptMid: int -> bool)
    requires Shows(line, mid, kept) && Shows(mid, out, keptMid)
    ensures Shows(line, out, kept)
  {
    forall text, p | Seen(text, out, p) ensures exists q :: ShownFrom(line, out, kept, text, p, q) {
      var r :| ShownFrom(mid, out, keptMid, text, p, r);
      assert Seen(text, mid, r);
      var q :| ShownFrom(line, mid, kept, text, r, q);
      assert ShownFrom(line, out, kept, text, p, q);
    }
  }

  /** The positions no range covers. */
  ghost function Open(ranges: seq<Range>): int -> bool {
    (k: int) => !Covered(ranges, k)
  }

  /** A text seen in a spliced line, and where it comes from. */
  lemma {:induction false} SpliceShown(line: string, ranges: seq<Range>, i: nat, text: string, p: int) returns (q: int)
    requires i <= |line| && Seen(text, Splice(line, ranges, i), p)
    ensures OccursAt(text, line, q) && i <= q
    ensures p == 0 ==> q == i || (0 < i && Covered(ranges, i - 1))
    ensures p + |text| == |Splice(line, ranges, i)| ==> q + |text| == |line|
    ensures forall k :: q <= k < q + |text| ==> !Covered(ranges, k)
    decreases |line| - i
  {
    var rest := Splice(line, ranges, i + 1);
    assert text[0] in text;
    if !Covered(ranges, i) {
      if 0 < p {
        q := SpliceShown(line, ranges, i + 1, text, p - 1);
      } else {
        q := i;
        assert text[0] == line[i];
        if 1 < |text| {
          SecondByte(text, line[i], rest);
          var r := SpliceShown(line, ranges, i + 1, text[1..], 0);
          OccursBehind(text, line, i);
        } else {
          assert |Splice(line, ranges, i)| == 1 ==> rest == "";
        }
      }
    } else if 0 < i && Covered(ranges, i - 1) {
      assert "" + rest == rest;
      q := SpliceShown(line, ranges, i + 1, text, p);
    } else {
      BehindMask(text, rest, p);
      q := SpliceShown(line, ranges, i + 1, text, p - 3);
    }
  }

  lemma OccursBehind(text: string, line: string, i: nat)
    requires text != "" && i < |line| && text[0] == line[i] && OccursAt(text[1..], line, i + 1)
    ensures OccursAt(text, line, i)
  {
    assert forall k :: 1 <= k < |text| ==> text[k] == text[1..][k - 1];
  }

  /** Star-free text behind a mask begins behind it. */
  lemma BehindMask(text: string, rest: string, p: int)
    requires Seen(text, MASK + rest, p)
    ensures 3 <= p && Seen(text, rest, p - 3)
  {
    assert text[0] in text;
    assert forall k :: 0 <= k < 3 ==> (MASK + rest)[k] == '*';
  }

  lemma SecondByte(text: string, first: char, rest: string)
    requires 1 < |text| && StarFree(text) && OccursAt(text, [first] + rest, 0)
    ensures Seen(text[1..], rest, 0)
  {
    assert forall k :: 0 <= k < |text| - 1 ==> text[1..][k] == text[k + 1] == ([first] + rest)[k + 1];
  }

  /** `apply_ranges` shows nothing but uncovered bytes, side by side as they were. */
  lemma SpliceShows(line: string, ranges: seq<Range>)
    ensures Shows(line, Splice(line, ranges, 0), Open(ranges))
  {
    var out := Splice(line, ranges, 0);
    forall text, p | Seen(text, out, p)
      ensures exists q :: ShownFrom(line, out, Open(ranges), text, p, q)
    {
      var q := SpliceShown(line, ranges, 0, text, p);
      assert ShownFrom(line, out, Open(ranges), text, p, q);
    }
  }
}
