/** Ruby's `String#split` on one character. */
module Splitting {

  /** The pieces between the separators; a text without one is a single piece. */
  function Pieces(s: string, separator: char): (ps: seq<string>)
    ensures ps != []
  {
    if s == "" then [""]
    else if s[0] == separator then [""] + Pieces(s[1..], separator)
    else
      var ps := Pieces(s[1..], separator);
      [[s[0]] + ps[0]] + ps[1..]
  }

  function DropTrailingEmpty(ps: seq<string>): seq<string> {
    if ps != [] && ps[|ps| - 1] == "" then DropTrailingEmpty(ps[..|ps| - 1]) else ps
  }

  /** `split`, which drops empty pieces at the end. */
  function Split(s: string, separator: char): seq<string> {
    DropTrailingEmpty(Pieces(s, separator))
  }

  predicate Free(s: string, separator: char) {
    forall i :: 0 <= i < |s| ==> s[i] != separator
  }

  lemma {:induction false} OnePiece(s: string, separator: char)
    requires Free(s, separator)
    ensures Pieces(s, separator) == [s]
  {
    if s != "" {
      OnePiece(s[1..], separator);
      assert [s[0]] + s[1..] == s;
    }
  }

  lemma {:induction false} FirstPiece(s: string, separator: char, rest: string)
    requires Free(s, separator)
    ensures Pieces(s + [separator] + rest, separator) == [s] + Pieces(rest, separator)
  {
    if s == "" {
      assert s + [separator] + rest == [separator] + rest;
      assert ([separator] + rest)[1..] == rest;
    } else {
      FirstPiece(s[1..], separator, rest);
      assert (s + [separator] + rest)[1..] == s[1..] + [separator] + rest;
      assert [s[0]] + s[1..] == s;
    }
  }

  // ----- Splitting and joining -----

  predicate AllFree(ps: seq<string>, separator: char) {
    forall i :: 0 <= i < |ps| ==> Free(ps[i], separator)
  }

  /** `join` */
  function Joined(ps: seq<string>, separator: char): string {
    if ps == [] then ""
    else if |ps| == 1 then ps[0]
    else ps[0] + [separator] + Joined(ps[1..], separator)
  }

  lemma {:induction false} JoinedPieces(s: string, separator: char)
    ensures Joined(Pieces(s, separator), separator) == s && AllFree(Pieces(s, separator), separator)
  {
    if s != "" {
      var ps := Pieces(s[1..], separator);
      JoinedPieces(s[1..], separator);
      if s[0] == separator {
        assert ([""] + ps)[1..] == ps;
      } else {
        assert ([[s[0]] + ps[0]] + ps[1..])[1..] == ps[1..];
      }
    }
  }

  lemma {:induction false} PiecesOfJoined(ps: seq<string>, separator: char)
    requires ps != [] && AllFree(ps, separator)
    ensures Pieces(Joined(ps, separator), separator) == ps
  {
    if |ps| == 1 {
      OnePiece(ps[0], separator);
    } else {
      PiecesOfJoined(ps[1..], separator);
      FirstPiece(ps[0], separator, Joined(ps[1..], separator));
    }
  }

  /** Empty pieces. */
  function Empties(n: nat): (ps: seq<string>)
    ensures |ps| == n
  {
    seq(n, _ => "")
  }

  lemma {:induction false} DropsEmpties(ps: seq<string>) returns (n: nat)
    ensures ps == DropTrailingEmpty(ps) + Empties(n)
    ensures DropTrailingEmpty(ps) != [] ==> DropTrailingEmpty(ps)[|DropTrailingEmpty(ps)| - 1] != ""
  {
    n := 0;
    if ps != [] && ps[|ps| - 1] == "" {
      n := DropsEmpties(ps[..|ps| - 1]);
      n := n + 1;
    }
  }

  lemma {:induction false} EmptiesDropped(ps: seq<string>, n: nat)
    requires ps != [] ==> ps[|ps| - 1] != ""
    ensures DropTrailingEmpty(ps + Empties(n)) == ps
  {
    if n == 0 {
      assert ps + Empties(0) == ps;
    } else {
      assert (ps + Empties(n))[..|ps| + n - 1] == ps + Empties(n - 1);
      EmptiesDropped(ps, n - 1);
    }
  }

  lemma SplitJoinsAgain(s: string, separator: char) returns (n: nat)
    ensures var ps := Split(s, separator);
      && AllFree(ps, separator) && (ps != [] ==> ps[|ps| - 1] != "")
      && ps + Empties(n) != [] && Joined(ps + Empties(n), separator) == s
  {
    var pieces := Pieces(s, separator);
    var ps := Split(s, separator);
    JoinedPieces(s, separator);
    n := DropsEmpties(pieces);
    forall i | 0 <= i < |ps|
      ensures Free(ps[i], separator)
    {
      assert ps[i] == pieces[i];
    }
  }

  lemma SplitOfJoined(ps: seq<string>, separator: char, n: nat)
    requires AllFree(ps, separator) && (ps != [] ==> ps[|ps| - 1] != "") && ps + Empties(n) != []
    ensures Split(Joined(ps + Empties(n), separator), separator) == ps
  {
    PiecesOfJoined(ps + Empties(n), separator);
    EmptiesDropped(ps, n);
  }

  /**
   What `split` yields: the only list of texts without a separator that ends in a text that is not empty and that,
   followed by empty texts, is the original when joined again.
   */
  lemma SplitExactly(s: string, separator: char, ps: seq<string>)
    ensures Split(s, separator) == ps
            <==> AllFree(ps, separator) && (ps != [] ==> ps[|ps| - 1] != "")
                 && exists n: nat :: ps + Empties(n) != [] && Joined(ps + Empties(n), separator) == s
  {
    var n := SplitJoinsAgain(s, separator);
    if AllFree(ps, separator) && (ps != [] ==> ps[|ps| - 1] != "") {
      forall m: nat | ps + Empties(m) != [] && Joined(ps + Empties(m), separator) == s
        ensures Split(s, separator) == ps
      {
        SplitOfJoined(ps, separator, m);
      }
    }
  }
}
