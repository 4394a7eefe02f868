/**
 lib/signature_detection.rb, `find_signature`: the signature is the block of lines that most pairs of consecutive
 messages have in common. The diffs of the pairs are given, split into lines.
 */
module SignatureDetection {
  import opened Prelude
  import opened Texts

  type Line = string

  /** A line that both messages of the pair have; the others start with '+', '-' or '\'. */
  predicate IsCommon(line: Line) {
    line != "" && line[0] == ' '
  }

  predicate AllCommon(lines: seq<Line>, a: nat, b: nat)
    requires b <= |lines|
  {
    forall i :: a <= i < b ==> IsCommon(lines[i])
  }

  const BLOCK_MIN := 6
  const BLOCK_CUT := 10

  // ----- The block of one diff -----

  /** A run of common lines that cannot be made longer. */
  predicate MaximalRun(lines: seq<Line>, a: nat, b: nat) {
    && a <= b <= |lines| && AllCommon(lines, a, b)
    && (a > 0 ==> !IsCommon(lines[a - 1]))
    && (b < |lines| ==> !IsCommon(lines[b]))
  }

  /** Six common lines in a row, from line `i`. */
  predicate LongEnoughAt(lines: seq<Line>, i: nat) {
    i + BLOCK_MIN <= |lines| && AllCommon(lines, i, i + BLOCK_MIN)
  }

  /** The first maximal run of at least six common lines. */
  predicate IsFirstBlock(lines: seq<Line>, block: (nat, nat)) {
    && MaximalRun(lines, block.0, block.1) && block.1 - block.0 >= BLOCK_MIN
    && forall i :: 0 <= i < block.0 ==> !LongEnoughAt(lines, i)
  }

  ghost predicate IsBlockOf(lines: seq<Line>, block: Option<(nat, nat)>) {
    match block
    case None => forall i :: !LongEnoughAt(lines, i)
    case Some(ab) => IsFirstBlock(lines, ab)
  }

  /** There is only one answer. */
  lemma BlockIsUnique(lines: seq<Line>, x: Option<(nat, nat)>, y: Option<(nat, nat)>)
    requires IsBlockOf(lines, x) && IsBlockOf(lines, y)
    ensures x == y
  {
    if x.Some? {
      assert LongEnoughAt(lines, x.value.0);
    }
    if y.Some? {
      assert LongEnoughAt(lines, y.value.0);
    }
    if x.Some? && y.Some? {
      assert x.value.0 == y.value.0;
      var a, b1, b2 := x.value.0, x.value.1, y.value.1;
      assert b1 < |lines| ==> !IsCommon(lines[b1]);
      assert b2 < |lines| ==> !IsCommon(lines[b2]);
    }
  }

  /** Where the run of common lines that starts at line `i` ends. */
  function RunEnd(lines: seq<Line>, i: nat): (e: nat)
    requires i <= |lines|
    ensures i <= e <= |lines| && AllCommon(lines, i, e) && (e < |lines| ==> !IsCommon(lines[e]))
    decreases |lines| - i
  {
    if i == |lines| || !IsCommon(lines[i]) then i else RunEnd(lines, i + 1)
  }

  /** The block found by looking at one run after the other. */
  function BlockFrom(lines: seq<Line>, i: nat): (block: Option<(nat, nat)>)
    requires i <= |lines|
    decreases |lines| - i
  {
    var e := RunEnd(lines, i);
    if e - i >= BLOCK_MIN then Some((i, e))
    else if e == |lines| then None
    else BlockFrom(lines, e + 1)
  }

  lemma {:induction false} BlockFromIsABlock(lines: seq<Line>, i: nat)
    requires i <= |lines| && (i > 0 ==> !IsCommon(lines[i - 1]))
    requires forall k :: 0 <= k < i ==> !LongEnoughAt(lines, k)
    ensures IsBlockOf(lines, BlockFrom(lines, i))
    decreases |lines| - i
  {
    var e := RunEnd(lines, i);
    if e - i < BLOCK_MIN {
      forall k: nat | i <= k <= e
        ensures !LongEnoughAt(lines, k)
      {
        assert e < |lines| ==> !IsCommon(lines[e]);
      }
      if e < |lines| {
        BlockFromIsABlock(lines, e + 1);
      }
    }
  }

  /** The block of a diff, if it has one. */
  function BlockOf(lines: seq<Line>): (block: Option<(nat, nat)>)
    ensures IsBlockOf(lines, block)
  {
    BlockFromIsABlock(lines, 0);
    BlockFrom(lines, 0)
  }

  /** The numbers of the changed lines, with a boundary before the first line and one after the last. */
  ghost predicate AreDeltas(lines: seq<Line>, deltas: seq<int>) {
    && |deltas| >= 2 && deltas[0] == -1 && deltas[|deltas| - 1] == |lines|
    && (forall i, j :: 0 <= i < j < |deltas| ==> deltas[i] < deltas[j])
    && (forall k :: 0 < k < |deltas| - 1 ==> 0 <= deltas[k] < |lines| && !IsCommon(lines[deltas[k]]))
    && (forall i :: 0 <= i < |lines| && !IsCommon(lines[i]) ==> i in deltas)
  }

  method DeltaIndices(lines: seq<Line>) returns (deltas: seq<int>)
    ensures AreDeltas(lines, deltas)
  {
    deltas := [];
    for i := 0 to |lines|
      invariant forall k :: 0 <= k < |deltas| ==> 0 <= deltas[k] < i && !IsCommon(lines[deltas[k]])
      invariant forall j, k :: 0 <= j < k < |deltas| ==> deltas[j] < deltas[k]
      invariant forall k :: 0 <= k < i && !IsCommon(lines[k]) ==> k in deltas
    {
      if !IsCommon(lines[i]) {
        deltas := deltas + [i];
      }
    }
    deltas := [-1] + deltas + [|lines|];
  }

  lemma GapIsARun(lines: seq<Line>, deltas: seq<int>, k: nat)
    requires AreDeltas(lines, deltas) && k + 1 < |deltas|
    ensures MaximalRun(lines, deltas[k] + 1, deltas[k + 1])
  {
    var a, b := deltas[k] + 1, deltas[k + 1];
    assert deltas[0] <= deltas[k] < deltas[k + 1] <= deltas[|deltas| - 1];
    forall i | a <= i < b
      ensures IsCommon(lines[i])
    {
      forall m | 0 <= m < |deltas|
        ensures deltas[m] != i
      {
        if m <= k { assert deltas[m] <= deltas[k]; } else { assert deltas[k + 1] <= deltas[m]; }
      }
      assert i !in deltas;
    }
  }

  /** The search for the first gap that is long enough. */
  method FindBlock(lines: seq<Line>) returns (block: Option<(nat, nat)>)
    ensures block == BlockOf(lines)
  {
    var deltas := DeltaIndices(lines);
    for k := 0 to |deltas| - 1
      invariant forall i :: 0 <= i <= deltas[k] ==> !LongEnoughAt(lines, i)
    {
      GapIsARun(lines, deltas, k);
      var head, tail := deltas[k] + 1, deltas[k + 1] - 1;
      if tail > head + 4 {
        BlockIsUnique(lines, Some((head, tail + 1)), BlockOf(lines));
        return Some((head, tail + 1));
      }
      forall i: nat | head <= i <= deltas[k + 1]
        ensures !LongEnoughAt(lines, i)
      {
        assert deltas[k + 1] < |lines| ==> !IsCommon(lines[deltas[k + 1]]);
      }
    }
    BlockIsUnique(lines, None, BlockOf(lines));
    return None;
  }

  // ----- Its content -----

  function Stripped(lines: seq<Line>): seq<Line> {
    seq(|lines|, i requires 0 <= i < |lines| => if lines[i] == "" then "" else lines[i][1..])
  }

  function Join(lines: seq<Line>): string {
    if lines == [] then ""
    else if |lines| == 1 then lines[0]
    else lines[0] + "\n" + Join(lines[1..])
  }

  function CutLines(lines: seq<Line>, block: (nat, nat)): seq<Line>
    requires block.0 <= block.1 <= |lines|
  {
    var end := if block.1 - block.0 > BLOCK_CUT then block.0 + BLOCK_CUT else block.1;
    Stripped(lines[block.0..end])
  }

  /** One side of a pair: the common lines and those with its mark. */
  function Side(lines: seq<Line>, mark: char): seq<Line> {
    if lines == [] then []
    else
      (if lines[0] != "" && (lines[0][0] == ' ' || lines[0][0] == mark) then [lines[0][1..]] else [])
      + Side(lines[1..], mark)
  }

  lemma {:induction false} SideOfConcat(a: seq<Line>, b: seq<Line>, mark: char)
    ensures Side(a + b, mark) == Side(a, mark) + Side(b, mark)
  {
    if a == [] {
      assert a + b == b;
    } else {
      assert (a + b)[1..] == a[1..] + b;
      SideOfConcat(a[1..], b, mark);
    }
  }

  lemma {:induction false} SideOfCommon(lines: seq<Line>, mark: char)
    requires AllCommon(lines, 0, |lines|)
    ensures Side(lines, mark) == Stripped(lines)
  {
    if lines != [] {
      SideOfCommon(lines[1..], mark);
      assert Stripped(lines) == [lines[0][1..]] + Stripped(lines[1..]);
    }
  }

  /** The lines of a block stand one after the other in both messages of the pair. */
  lemma BlockIsInBothMessages(lines: seq<Line>, block: (nat, nat), mark: char)
    requires MaximalRun(lines, block.0, block.1)
    ensures var end := block.0 + |CutLines(lines, block)|;
      end <= |lines|
      && Side(lines, mark) == Side(lines[..block.0], mark) + CutLines(lines, block) + Side(lines[end..], mark)
  {
    var a, end := block.0, block.0 + |CutLines(lines, block)|;
    SideInThree(lines, a, end, mark);
    SideOfCommon(lines[a..end], mark);
  }

  lemma SideInThree(lines: seq<Line>, a: nat, b: nat, mark: char)
    requires a <= b <= |lines|
    ensures Side(lines, mark) == Side(lines[..a], mark) + Side(lines[a..b], mark) + Side(lines[b..], mark)
  {
    assert lines == lines[..b] + lines[b..];
    SideOfConcat(lines[..b], lines[b..], mark);
    assert lines[..b] == lines[..a] + lines[a..b];
    SideOfConcat(lines[..a], lines[a..b], mark);
  }

  // ----- The best candidate -----

  /** What one diff adds to the candidates: nothing without a block, nor with an Exchange warning in it. */
  function CandidateOf(lines: seq<Line>): Option<string> {
    match BlockOf(lines)
    case None => None
    case Some(block) =>
      var content := Join(CutLines(lines, block));
      if Includes(content, "CAUTION:") then None else Some(content)
  }

  function CandidatesOf(diffs: seq<seq<Line>>): (candidates: seq<Option<string>>)
    ensures |candidates| == |diffs|
  {
    seq(|diffs|, i requires 0 <= i < |diffs| => CandidateOf(diffs[i]))
  }

  method FindCandidate(lines: seq<Line>) returns (candidate: Option<string>)
    ensures candidate == CandidateOf(lines)
  {
    var block := FindBlock(lines);
    match block
    case None => candidate := None;
    case Some(ab) =>
      var content := Join(CutLines(lines, ab));
      candidate := if Includes(content, "CAUTION:") then None else Some(content);
  }

  function Count(candidates: seq<Option<string>>, c: string): nat {
    if candidates == [] then 0
    else
      var n := |candidates| - 1;
      Count(candidates[..n], c) + if candidates[n] == Some(c) then 1 else 0
  }

  lemma {:induction false} CountedIsThere(candidates: seq<Option<string>>, c: string)
    ensures Count(candidates, c) > 0 <==> Some(c) in candidates
  {
    if candidates != [] {
      var n := |candidates| - 1;
      assert candidates == candidates[..n] + [candidates[n]];
      CountedIsThere(candidates[..n], c);
    }
  }

  /** `c` is first met before `d`. */
  ghost predicate MetBefore(candidates: seq<Option<string>>, c: string, d: string) {
    exists k :: 0 <= k < |candidates| && candidates[k] == Some(c)
      && forall m :: 0 <= m <= k ==> candidates[m] != Some(d)
  }

  /** The hash of scores: its keys in the order of insertion. */
  datatype Scores = Scores(keys: seq<string>, score: map<string, nat>)

  ghost predicate Tallies(s: Scores, candidates: seq<Option<string>>) {
    && (forall c :: c in s.keys <==> c in s.score)
    && (forall c :: c in s.score <==> Some(c) in candidates)
    && (forall c :: c in s.score ==> s.score[c] == Count(candidates, c))
    && (forall i, j :: 0 <= i < j < |s.keys| ==> s.keys[i] != s.keys[j])
    && (forall i, j :: 0 <= i < j < |s.keys| ==> MetBefore(candidates, s.keys[i], s.keys[j]))
  }

  function Tallied(s: Scores, c: string): Scores {
    if c in s.score then s.(score := s.score[c := s.score[c] + 1])
    else Scores(s.keys + [c], s.score[c := 1])
  }

  lemma StillMetBefore(candidates: seq<Option<string>>, next: Option<string>, c: string, d: string)
    requires MetBefore(candidates, c, d)
    ensures MetBefore(candidates + [next], c, d)
  {
    var k :| 0 <= k < |candidates| && candidates[k] == Some(c)
             && forall m :: 0 <= m <= k ==> candidates[m] != Some(d);
    var more := candidates + [next];
    assert more[k] == Some(c) && forall m :: 0 <= m <= k ==> more[m] == candidates[m];
  }

  lemma TalliesStays(s: Scores, candidates: seq<Option<string>>, next: Option<string>)
    requires Tallies(s, candidates)
    ensures Tallies(if next.Some? then Tallied(s, next.value) else s, candidates + [next])
  {
    var more := candidates + [next];
    var s' := if next.Some? then Tallied(s, next.value) else s;
    assert more[..|candidates|] == candidates;
    forall c
      ensures Count(more, c) == Count(candidates, c) + if next == Some(c) then 1 else 0
    {
    }
    if next.Some? && next.value !in s.score {
      CountedIsThere(candidates, next.value);
    }
    forall i, j | 0 <= i < j < |s'.keys|
      ensures MetBefore(more, s'.keys[i], s'.keys[j])
    {
      if j < |s.keys| {
        StillMetBefore(candidates, next, s.keys[i], s.keys[j]);
      } else {
        var c := s.keys[i];
        assert Some(c) in candidates;
        var k :| 0 <= k < |candidates| && candidates[k] == Some(c);
        assert more[k] == Some(c) && forall m :: 0 <= m <= k ==> more[m] == candidates[m];
      }
    }
  }

  /** The key has the highest score, and no key before it has it too. */
  ghost predicate IsTop(s: Scores, best: string)
    requires forall c :: c in s.keys ==> c in s.score
  {
    exists k ::
      (0 <= k < |s.keys| && s.keys[k] == best
       && (forall j :: 0 <= j < |s.keys| ==> s.score[s.keys[j]] <= s.score[best])
       && (forall j :: 0 <= j < k ==> s.score[s.keys[j]] < s.score[best]))
  }

  /** `max_by`: the first of the keys with the highest score. */
  method MaxByScore(s: Scores) returns (best: Option<string>)
    requires forall c :: c in s.keys ==> c in s.score
    ensures best == None <==> s.keys == []
    ensures best.Some? ==> IsTop(s, best.value)
  {
    if s.keys == [] {
      return None;
    }
    var top := 0;
    for i := 1 to |s.keys|
      invariant 0 <= top < i
      invariant forall j :: 0 <= j < i ==> s.score[s.keys[j]] <= s.score[s.keys[top]]
      invariant forall j :: 0 <= j < top ==> s.score[s.keys[j]] < s.score[s.keys[top]]
    {
      if s.score[s.keys[top]] < s.score[s.keys[i]] {
        top := i;
      }
    }
    return Some(s.keys[top]);
  }

  /** The best candidate has the highest count; of several, it is the one met first. */
  ghost predicate IsBest(candidates: seq<Option<string>>, best: string) {
    && Some(best) in candidates
    && forall c :: Some(c) in candidates && c != best ==>
         Count(candidates, c) < Count(candidates, best)
         || (Count(candidates, c) == Count(candidates, best) && MetBefore(candidates, best, c))
  }

  /** The loop over the diffs. */
  method TallyAll(diffs: seq<seq<Line>>) returns (scores: Scores)
    ensures Tallies(scores, CandidatesOf(diffs))
  {
    scores := Scores([], map[]);
    for i := 0 to |diffs|
      invariant Tallies(scores, CandidatesOf(diffs[..i]))
    {
      assert CandidatesOf(diffs[..i + 1]) == CandidatesOf(diffs[..i]) + [CandidateOf(diffs[i])];
      var candidate := FindCandidate(diffs[i]);
      TalliesStays(scores, CandidatesOf(diffs[..i]), candidate);
      if candidate.Some? {
        scores := Tallied(scores, candidate.value);
      }
    }
    assert diffs[..|diffs|] == diffs;
  }

  /** The signature of a list of diffs: the best of what they contribute, none exactly if nothing is contributed. */
  method FindSignature(diffs: seq<seq<Line>>) returns (signature: Option<string>)
    ensures match signature
      case None => forall i :: 0 <= i < |diffs| ==> CandidatesOf(diffs)[i] == None
      case Some(best) => IsBest(CandidatesOf(diffs), best)
  {
    var scores := TallyAll(diffs);
    signature := MaxByScore(scores);
    if signature.None? {
      NothingTallied(scores, CandidatesOf(diffs));
    } else {
      TopIsBest(scores, CandidatesOf(diffs), signature.value);
    }
  }

  lemma NothingTallied(s: Scores, candidates: seq<Option<string>>)
    requires Tallies(s, candidates) && s.keys == []
    ensures forall i :: 0 <= i < |candidates| ==> candidates[i] == None
  {
    forall i | 0 <= i < |candidates|
      ensures candidates[i] == None
    {
      assert candidates[i] in candidates;
    }
  }

  lemma TopIsBest(s: Scores, candidates: seq<Option<string>>, best: string)
    requires Tallies(s, candidates)
    requires IsTop(s, best)
    ensures IsBest(candidates, best)
  {
    var k :| 0 <= k < |s.keys| && s.keys[k] == best
      && (forall j :: 0 <= j < |s.keys| ==> s.score[s.keys[j]] <= s.score[best])
      && (forall j :: 0 <= j < k ==> s.score[s.keys[j]] < s.score[best]);
    forall c | Some(c) in candidates && c != best
      ensures Count(candidates, c) < Count(candidates, best)
              || (Count(candidates, c) == Count(candidates, best) && MetBefore(candidates, best, c))
    {
      assert c in s.keys;
      var j :| 0 <= j < |s.keys| && s.keys[j] == c;
      if k < j { assert MetBefore(candidates, s.keys[k], s.keys[j]); }
    }
  }
}
