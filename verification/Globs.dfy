/**
 Patterns with wildcards, as the search engine and the database read them, and what becomes of a text that is put
 between two of them.
 */
module Globs {
  import opened Texts

  /** `any` stands for any text, `one` for any character; characters are compared after folding. */
  datatype Patterns = Patterns(any: char, one: char, fold: char -> char)

  const ESCAPE := '\\'

  predicate Proper(w: Patterns) {
    w.any != w.one && w.any != ESCAPE && w.one != ESCAPE
  }

  /** The escape character takes the next character as it is. */
  predicate Glob(w: Patterns, p: string, v: string)
    decreases |p| + |v|
  {
    if p == "" then v == ""
    else if p[0] == w.any then Glob(w, p[1..], v) || (v != "" && Glob(w, p, v[1..]))
    else if v == "" then false
    else if p[0] == w.one then Glob(w, p[1..], v[1..])
    else if p[0] == ESCAPE && |p| > 1 then w.fold(p[1]) == w.fold(v[0]) && Glob(w, p[2..], v[1..])
    else w.fold(p[0]) == w.fold(v[0]) && Glob(w, p[1..], v[1..])
  }

  /** A text between two wildcards for any text. */
  function Around(w: Patterns, t: string): string {
    [w.any] + (t + [w.any])
  }

  predicate IsSpecial(w: Patterns, c: char) {
    c == w.any || c == w.one || c == ESCAPE
  }

  predicate Special(w: Patterns, t: string) {
    exists i :: 0 <= i < |t| && IsSpecial(w, t[i])
  }

  /** Another character counts as the same, as capital and small letters may. */
  ghost predicate Cased(w: Patterns, c: char) {
    exists d :: d != c && w.fold(d) == w.fold(c)
  }

  ghost predicate HasCased(w: Patterns, t: string) {
    exists i :: 0 <= i < |t| && Cased(w, t[i])
  }

  predicate SameFolded(w: Patterns, s: string, t: string) {
    |s| == |t| && forall i :: 0 <= i < |s| ==> w.fold(s[i]) == w.fold(t[i])
  }

  lemma {:induction false} AnyMatchesAll(w: Patterns, v: string)
    ensures Glob(w, [w.any], v)
    decreases |v|
  {
    if v != "" { AnyMatchesAll(w, v[1..]); }
  }

  lemma {:induction false} AnyInFront(w: Patterns, p: string, v: string)
    ensures Glob(w, [w.any] + p, v) <==> exists i {:trigger v[i..]} :: 0 <= i <= |v| && Glob(w, p, v[i..])
    decreases |v|
  {
    assert ([w.any] + p)[1..] == p && v[0..] == v;
    if v != "" {
      AnyInFront(w, p, v[1..]);
      if i :| 0 <= i <= |v| && Glob(w, p, v[i..]) {
        if i > 0 { assert v[1..][i - 1..] == v[i..]; }
      }
      if i :| 0 <= i <= |v| - 1 && Glob(w, p, v[1..][i..]) {
        assert v[1..][i..] == v[i + 1..];
      }
    }
  }

  lemma {:induction false} PlainThenAny(w: Patterns, t: string, v: string)
    requires !Special(w, t)
    ensures Glob(w, t + [w.any], v) <==> |t| <= |v| && SameFolded(w, t, v[..|t|])
  {
    if t == "" {
      AnyMatchesAll(w, v);
      assert t + [w.any] == [w.any];
    } else {
      assert (t + [w.any])[1..] == t[1..] + [w.any] && !IsSpecial(w, t[0]);
      assert forall i :: 0 <= i < |t| - 1 ==> t[1..][i] == t[i + 1];
      if v != "" {
        PlainThenAny(w, t[1..], v[1..]);
        if |t| <= |v| {
          FoldedStep(w, t, v[..|t|]);
          assert v[..|t|][1..] == v[1..][..|t| - 1];
        }
      }
    }
  }

  lemma FoldedStep(w: Patterns, s: string, t: string)
    requires s != "" && |s| == |t|
    ensures SameFolded(w, s, t) <==> w.fold(s[0]) == w.fold(t[0]) && SameFolded(w, s[1..], t[1..])
  {
    if SameFolded(w, s[1..], t[1..]) {
      assert forall i :: 1 <= i < |s| ==> s[i] == s[1..][i - 1] && t[i] == t[1..][i - 1];
    }
  }

  /** Without special characters: some part of the text is the same but for folding. */
  lemma PlainBetween(w: Patterns, t: string, v: string)
    requires !Special(w, t)
    ensures Glob(w, Around(w, t), v)
            <==> exists i {:trigger v[i..]} :: 0 <= i <= |v| - |t| && SameFolded(w, t, v[i..][..|t|])
  {
    AnyInFront(w, t + [w.any], v);
    forall i | 0 <= i <= |v|
      ensures Glob(w, t + [w.any], v[i..]) <==> |t| <= |v[i..]| && SameFolded(w, t, v[i..][..|t|])
    {
      PlainThenAny(w, t, v[i..]);
    }
  }

  lemma UncasedMeansEqual(w: Patterns, s: string, t: string)
    requires !HasCased(w, s) && SameFolded(w, s, t)
    ensures s == t
  {
    forall i | 0 <= i < |s|
      ensures s[i] == t[i]
    {
      assert !Cased(w, s[i]);
    }
  }

  /** Without special and cased characters, a text is found in exactly the texts that it is a part of. */
  lemma PlainFindsParts(w: Patterns, t: string, v: string)
    requires !Special(w, t) && !HasCased(w, t)
    ensures Glob(w, Around(w, t), v) <==> Includes(v, t)
  {
    PlainBetween(w, t, v);
    if i :| 0 <= i <= |v| - |t| && SameFolded(w, t, v[i..][..|t|]) {
      UncasedMeansEqual(w, t, v[i..][..|t|]);
      assert t <= v[i..];
    }
    if i :| 0 <= i <= |v| && t <= v[i..] {
      assert v[i..][..|t|] == t;
    }
  }

  /** The text with the escape character before each special one. */
  function Escaped(w: Patterns, t: string): string {
    if t == "" then ""
    else (if IsSpecial(w, t[0]) then [ESCAPE, t[0]] else [t[0]]) + Escaped(w, t[1..])
  }

  lemma {:induction false} EscapedThenAny(w: Patterns, t: string, v: string)
    requires Proper(w)
    ensures Glob(w, Escaped(w, t) + [w.any], v) <==> |t| <= |v| && SameFolded(w, t, v[..|t|])
    decreases |t|
  {
    if t == "" {
      AnyMatchesAll(w, v);
      assert Escaped(w, t) + [w.any] == [w.any];
    } else {
      var p := Escaped(w, t) + [w.any];
      var rest := Escaped(w, t[1..]) + [w.any];
      if IsSpecial(w, t[0]) {
        assert p == [ESCAPE, t[0]] + rest && p[2..] == rest;
      } else {
        assert p == [t[0]] + rest && p[1..] == rest;
      }
      if v != "" {
        EscapedThenAny(w, t[1..], v[1..]);
        if |t| <= |v| {
          FoldedStep(w, t, v[..|t|]);
          assert v[..|t|][1..] == v[1..][..|t| - 1];
        }
      }
    }
  }

  /**
   With its special characters escaped, which neither program does, any text without cased ones would be found right.
   */
  lemma EscapedFindsParts(w: Patterns, t: string, v: string)
    requires Proper(w) && !HasCased(w, t)
    ensures Glob(w, Around(w, Escaped(w, t)), v) <==> Includes(v, t)
  {
    AnyInFront(w, Escaped(w, t) + [w.any], v);
    forall i | 0 <= i <= |v|
      ensures Glob(w, Escaped(w, t) + [w.any], v[i..]) <==> t <= v[i..]
    {
      EscapedThenAny(w, t, v[i..]);
      if |t| <= |v[i..]| && SameFolded(w, t, v[i..][..|t|]) { UncasedMeansEqual(w, t, v[i..][..|t|]); }
      if t <= v[i..] { assert v[i..][..|t|] == t; }
    }
  }

  /** The shortest text that the pattern accepts; it is no longer than the text it was made of. */
  function Sample(w: Patterns, t: string): (v: string)
    ensures |v| <= |t|
    ensures Special(w, t) && Proper(w) && w.one != 'x' ==> v != t
  {
    if t == "" then ""
    else if t[0] == w.any then Sample(w, t[1..])
    else if t[0] == w.one then "x" + Sample(w, t[1..])
    else if t[0] == ESCAPE then if |t| == 1 then [w.any] else [t[1]] + Sample(w, t[2..])
    else
      assert Special(w, t) ==> Special(w, t[1..]) by {
        if i :| 0 <= i < |t| && IsSpecial(w, t[i]) { assert t[1..][i - 1] == t[i]; }
      }
      assert [t[0]] + t[1..] == t;
      [t[0]] + Sample(w, t[1..])
  }

  lemma {:induction false} SampleMatches(w: Patterns, t: string)
    requires Proper(w)
    ensures Glob(w, t + [w.any], Sample(w, t))
    decreases |t|
  {
    var p := t + [w.any];
    if t == "" {
      AnyMatchesAll(w, "");
      assert p == [w.any];
    } else if t[0] == ESCAPE {
      if |t| == 1 {
        assert p[1] == w.any && p[2..] == "";
      } else {
        SampleMatches(w, t[2..]);
        assert p[2..] == t[2..] + [w.any];
      }
    } else {
      SampleMatches(w, t[1..]);
      assert p[1..] == t[1..] + [w.any];
    }
  }

  lemma SampleMatchesAround(w: Patterns, t: string)
    requires Proper(w)
    ensures Glob(w, Around(w, t), Sample(w, t))
  {
    SampleMatches(w, t);
    AnyInFront(w, t + [w.any], Sample(w, t));
    assert Sample(w, t)[0..] == Sample(w, t);
  }

  /** No shorter text is accepted. */
  lemma {:induction false} NothingShorter(w: Patterns, t: string, v: string)
    requires Proper(w) && Glob(w, t + [w.any], v)
    ensures |Sample(w, t)| <= |v|
    decreases |t| + |v|
  {
    var p := t + [w.any];
    if t != "" {
      assert p[1..] == t[1..] + [w.any];
      if t[0] == w.any {
        if Glob(w, p[1..], v) { NothingShorter(w, t[1..], v); } else { NothingShorter(w, t, v[1..]); }
      } else if t[0] == ESCAPE {
        if |t| > 1 {
          assert p[2..] == t[2..] + [w.any];
          NothingShorter(w, t[2..], v[1..]);
        }
      } else {
        NothingShorter(w, t[1..], v[1..]);
      }
    }
  }

  lemma NothingShorterAround(w: Patterns, t: string, v: string)
    requires Proper(w) && Glob(w, Around(w, t), v)
    ensures |Sample(w, t)| <= |v|
  {
    AnyInFront(w, t + [w.any], v);
    var i :| 0 <= i <= |v| && Glob(w, t + [w.any], v[i..]);
    NothingShorter(w, t, v[i..]);
  }

  lemma NoPartOfAnother(t: string, v: string)
    requires |v| <= |t| && v != t
    ensures !Includes(v, t)
  {
  }

  /** A text with special or cased characters is also found in a text that it is no part of. */
  lemma FindsMore(w: Patterns, t: string) returns (v: string)
    requires Proper(w) && w.one != 'x' && (Special(w, t) || HasCased(w, t))
    ensures Glob(w, Around(w, t), v) && !Includes(v, t)
  {
    if Special(w, t) {
      v := Sample(w, t);
      SampleMatchesAround(w, t);
    } else {
      var i :| 0 <= i < |t| && Cased(w, t[i]);
      var d :| d != t[i] && w.fold(d) == w.fold(t[i]);
      v := t[i := d];
      PlainBetween(w, t, v);
      assert v[0..] == v && v[..|t|] == v && SameFolded(w, t, v[0..][..|t|]);
      assert v[i] != t[i];
    }
    NoPartOfAnother(t, v);
  }

  /** A text between wildcards is found in exactly the texts it is a part of if and only if it has none of them. */
  lemma FindsPartsExactly(w: Patterns, t: string)
    requires Proper(w) && w.one != 'x'
    ensures (forall v :: Glob(w, Around(w, t), v) <==> Includes(v, t)) <==> !Special(w, t) && !HasCased(w, t)
  {
    if Special(w, t) || HasCased(w, t) {
      var v := FindsMore(w, t);
    } else {
      forall v: string
        ensures Glob(w, Around(w, t), v) <==> Includes(v, t)
      {
        PlainFindsParts(w, t, v);
      }
    }
  }
}
