/** lib/signature_detection.rb: what text a diff contributes, and what a signature therefore consists of. */
module SignatureContent {
  import opened Prelude
  import opened Texts
  import opened Splitting
  import opened SignatureDetection

  predicate Unchanged(line: Line) {
    line != "" && line[0] == ' '
  }

  /** Six unchanged lines in a row, from line `i`. */
  predicate SixFrom(lines: seq<Line>, i: nat) {
    i + 6 <= |lines| && forall k :: i <= k < i + 6 ==> Unchanged(lines[k])
  }

  /** The first place with six unchanged lines in a row, up to the next changed line. */
  predicate FirstCommonPart(lines: seq<Line>, a: nat, b: nat) {
    && a <= b <= |lines| && SixFrom(lines, a)
    && (forall i :: 0 <= i < a ==> !SixFrom(lines, i))
    && (forall k :: a <= k < b ==> Unchanged(lines[k]))
    && (b < |lines| ==> !Unchanged(lines[b]))
  }

  /** The text has these lines: the first ten of the part, without the marks of the diff. */
  predicate HasLines(text: string, lines: seq<Line>, a: nat, b: nat)
    requires a <= b <= |lines| && forall k :: a <= k < b ==> Unchanged(lines[k])
  {
    var n := if b - a < 10 then b - a else 10;
    Pieces(text, '\n') == seq(n, i requires 0 <= i < n && Unchanged(lines[a + i]) => lines[a + i][1..])
  }

  ghost predicate Warns(text: string) {
    exists before, after :: text == before + "CAUTION:" + after
  }

  /** The lines come from splitting the diff. */
  predicate AreLines(lines: seq<Line>) {
    AllFree(lines, '\n')
  }

  // ----- The contribution of a diff -----

  lemma {:induction false} JoinIsJoined(ls: seq<Line>)
    ensures Join(ls) == Joined(ls, '\n')
  {
    if |ls| > 1 {
      JoinIsJoined(ls[1..]);
    }
  }

  lemma WarnsExactly(text: string)
    ensures Includes(text, "CAUTION:") <==> Warns(text)
  {
    if Includes(text, "CAUTION:") {
      var i :| 0 <= i <= |text| && "CAUTION:" <= text[i..];
      assert text == text[..i] + "CAUTION:" + text[i + 8..];
    }
    if Warns(text) {
      var before, after :| text == before + "CAUTION:" + after;
      assert "CAUTION:" <= text[|before|..];
    }
  }

  lemma SixIsLongEnough(lines: seq<Line>, i: nat)
    ensures SixFrom(lines, i) <==> LongEnoughAt(lines, i)
  {
    assert forall k :: 0 <= k < |lines| ==> (Unchanged(lines[k]) <==> IsCommon(lines[k]));
  }

  lemma FirstCommonPartIsTheBlock(lines: seq<Line>, a: nat, b: nat)
    ensures FirstCommonPart(lines, a, b) <==> BlockOf(lines) == Some((a, b))
  {
    forall i: nat
      ensures SixFrom(lines, i) <==> LongEnoughAt(lines, i)
    {
      SixIsLongEnough(lines, i);
    }
    assert forall k :: 0 <= k < |lines| ==> (Unchanged(lines[k]) <==> IsCommon(lines[k]));
    if FirstCommonPart(lines, a, b) {
      if a > 0 && IsCommon(lines[a - 1]) { assert LongEnoughAt(lines, a - 1); }
      BlockIsUnique(lines, Some((a, b)), BlockOf(lines));
    }
  }

  lemma CutIsJoined(lines: seq<Line>, a: nat, b: nat, text: string)
    requires AreLines(lines) && FirstCommonPart(lines, a, b)
    ensures text == Join(CutLines(lines, (a, b))) <==> HasLines(text, lines, a, b)
  {
    var ls := CutLines(lines, (a, b));
    var n := if b - a < 10 then b - a else 10;
    assert ls == seq(n, i requires 0 <= i < n && Unchanged(lines[a + i]) => lines[a + i][1..]);
    JoinIsJoined(ls);
    forall i | 0 <= i < |ls|
      ensures Free(ls[i], '\n')
    {
      assert forall k :: 0 <= k < |ls[i]| ==> ls[i][k] == lines[a + i][k + 1];
    }
    PiecesOfJoined(ls, '\n');
    JoinedPieces(text, '\n');
  }

  /**
   A diff contributes a text exactly if that consists of the first ten lines of its first part of at least six unchanged
   lines, and does not warn.
   */
  lemma ContributesExactly(lines: seq<Line>, text: string)
    requires AreLines(lines)
    ensures CandidateOf(lines) == Some(text)
            <==> exists a, b :: FirstCommonPart(lines, a, b) && HasLines(text, lines, a, b) && !Warns(text)
  {
    WarnsExactly(text);
    if CandidateOf(lines) == Some(text) {
      var (a, b) := BlockOf(lines).value;
      FirstCommonPartIsTheBlock(lines, a, b);
      CutIsJoined(lines, a, b, text);
    }
    forall a, b | FirstCommonPart(lines, a, b) && HasLines(text, lines, a, b) && !Warns(text)
      ensures CandidateOf(lines) == Some(text)
    {
      FirstCommonPartIsTheBlock(lines, a, b);
      CutIsJoined(lines, a, b, text);
    }
  }

  /** So a signature is what some diff contributes: six to ten lines that its two messages have in common. */
  lemma SignatureIsContributed(diffs: seq<seq<Line>>, signature: string) returns (i: nat, a: nat, b: nat)
    requires forall k :: 0 <= k < |diffs| ==> AreLines(diffs[k])
    requires IsBest(CandidatesOf(diffs), signature)
    ensures i < |diffs| && FirstCommonPart(diffs[i], a, b) && HasLines(signature, diffs[i], a, b) && !Warns(signature)
    ensures 6 <= |Pieces(signature, '\n')| <= 10
  {
    i :| 0 <= i < |diffs| && CandidatesOf(diffs)[i] == Some(signature);
    ContributesExactly(diffs[i], signature);
    a, b :| FirstCommonPart(diffs[i], a, b) && HasLines(signature, diffs[i], a, b) && !Warns(signature);
  }

  /** Without such a part in any diff, or with a warning in each, there is no signature. */
  lemma NothingContributed(diffs: seq<seq<Line>>, k: nat, text: string, a: nat, b: nat)
    requires k < |diffs| && AreLines(diffs[k])
    requires forall i :: 0 <= i < |diffs| ==> CandidatesOf(diffs)[i] == None
    requires FirstCommonPart(diffs[k], a, b) && HasLines(text, diffs[k], a, b)
    ensures Warns(text)
  {
    ContributesExactly(diffs[k], text);
    assert CandidatesOf(diffs)[k] == None;
  }
}
