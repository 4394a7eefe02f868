/** lib/search_index_backend.rb, lines 601 to 617: the words of "contains all" and "contains one". */
module SelectorWords {
  import opened Prelude
  import opened Splitting
  import opened SelectorCompiler

  /** Null, tabulator, line feed, vertical tabulator, form feed, carriage return and space. */
  const WHITE := "\0\t\n\U{0B}\U{0C}\r "

  predicate AllWhite(s: string) {
    forall i :: 0 <= i < |s| ==> s[i] in WHITE
  }

  predicate Trimmed(w: string) {
    w != "" ==> w[0] !in WHITE && w[|w| - 1] !in WHITE
  }

  lemma StrippedIsWhite(c: char)
    ensures IsStripped(c) <==> c in WHITE
  {
    assert WHITE == ['\0', '\t', '\n', '\U{0B}', '\U{0C}', '\r', ' '];
    if c in WHITE {
      assert c == WHITE[0] || c == WHITE[1] || c == WHITE[2] || c == WHITE[3] || c == WHITE[4] || c == WHITE[5]
          || c == WHITE[6];
    }
  }

  // ----- Stripping -----

  lemma {:induction false} LeftStripped(s: string) returns (a: string)
    ensures s == a + StripLeft(s) && AllWhite(a)
    ensures StripLeft(s) != "" ==> StripLeft(s)[0] !in WHITE
  {
    a := "";
    if s != "" {
      StrippedIsWhite(s[0]);
      if IsStripped(s[0]) {
        a := LeftStripped(s[1..]);
        a := [s[0]] + a;
      }
    }
  }

  lemma {:induction false} RightStripped(s: string) returns (b: string)
    ensures s == StripRight(s) + b && AllWhite(b)
    ensures StripRight(s) != "" ==> StripRight(s)[|StripRight(s)| - 1] !in WHITE
  {
    b := "";
    if s != "" {
      StrippedIsWhite(s[|s| - 1]);
      if IsStripped(s[|s| - 1]) {
        b := RightStripped(s[..|s| - 1]);
        b := b + [s[|s| - 1]];
      }
    }
  }

  lemma {:induction false} StripLeftOf(a: string, w: string)
    requires AllWhite(a) && (w != "" ==> w[0] !in WHITE)
    ensures StripLeft(a + w) == w
  {
    if a == "" {
      assert a + w == w;
      if w != "" { StrippedIsWhite(w[0]); }
    } else {
      StrippedIsWhite(a[0]);
      assert (a + w)[1..] == a[1..] + w;
      StripLeftOf(a[1..], w);
    }
  }

  lemma {:induction false} StripRightOf(w: string, b: string)
    requires AllWhite(b) && (w != "" ==> w[|w| - 1] !in WHITE)
    ensures StripRight(w + b) == w
  {
    var n := |b| - 1;
    if b == "" {
      assert w + b == w;
      if w != "" { StrippedIsWhite(w[|w| - 1]); }
    } else {
      StrippedIsWhite(b[n]);
      assert (w + b)[..|w + b| - 1] == w + b[..n];
      StripRightOf(w, b[..n]);
    }
  }

  /** The piece is the word with white space around it. */
  ghost predicate Pads(piece: string, w: string) {
    exists a, b :: piece == a + w + b && AllWhite(a) && AllWhite(b)
  }

  lemma StrippedOf(a: string, w: string, b: string)
    requires AllWhite(a) && AllWhite(b) && Trimmed(w)
    ensures StripLeft(StripRight(a + w + b)) == w
  {
    if w == "" {
      assert a + w + b == "" + (a + b);
      StripRightOf("", a + b);
    } else {
      StripRightOf(a + w, b);
      StripLeftOf(a, w);
    }
  }

  lemma StrippedIsPadded(piece: string)
    ensures var w := StripLeft(StripRight(piece));
      Trimmed(w) && Pads(piece, w)
  {
    var b := RightStripped(piece);
    var a := LeftStripped(StripRight(piece));
    var w := StripLeft(StripRight(piece));
    assert piece == a + w + b;
    if w != "" {
      assert w[|w| - 1] == StripRight(piece)[|StripRight(piece)| - 1];
    }
  }

  lemma StrippedExactly(piece: string, w: string)
    ensures StripLeft(StripRight(piece)) == w <==> Trimmed(w) && Pads(piece, w)
  {
    StrippedIsPadded(piece);
    if Trimmed(w) && Pads(piece, w) {
      var a, b :| piece == a + w + b && AllWhite(a) && AllWhite(b);
      StrippedOf(a, w, b);
    }
  }

  // ----- The words of a text -----

  /** Words joined by commas, with any white space around them, and more commas behind them. */
  ghost predicate ListsWords(text: string, ws: seq<string>, pieces: seq<string>, commas: nat) {
    && |pieces| == |ws| && (pieces != [] ==> pieces[|pieces| - 1] != "")
    && (forall i :: 0 <= i < |ws| ==> Free(pieces[i], ',') && Trimmed(ws[i]) && Pads(pieces[i], ws[i]))
    && pieces + Empties(commas) != [] && text == Joined(pieces + Empties(commas), ',')
  }

  lemma ListedAreWords(text: string, ws: seq<string>, pieces: seq<string>, commas: nat)
    requires ListsWords(text, ws, pieces, commas)
    ensures Words(text) == ws
  {
    SplitOfJoined(pieces, ',', commas);
    forall i | 0 <= i < |ws|
      ensures Words(text)[i] == ws[i]
    {
      StrippedExactly(pieces[i], ws[i]);
    }
  }

  /** A text has these words exactly if it lists them; none is listed by the empty text and by commas alone. */
  lemma WordsExactly(text: string, ws: seq<string>)
    ensures Words(text) == ws <==> exists pieces, commas: nat :: ListsWords(text, ws, pieces, commas)
  {
    forall pieces, commas: nat | ListsWords(text, ws, pieces, commas)
      ensures Words(text) == ws
    {
      ListedAreWords(text, ws, pieces, commas);
    }
    if Words(text) == ws {
      var pieces := Split(text, ',');
      var commas := SplitJoinsAgain(text, ',');
      forall i | 0 <= i < |ws|
        ensures Trimmed(ws[i]) && Pads(pieces[i], ws[i])
      {
        StrippedExactly(pieces[i], ws[i]);
      }
      assert ListsWords(text, ws, pieces, commas);
    }
  }

  lemma PadsFree(piece: string, w: string)
    requires Pads(piece, w) && Free(piece, ',')
    ensures Free(w, ',')
  {
    var a, b :| piece == a + w + b && AllWhite(a) && AllWhite(b);
    forall i | 0 <= i < |w|
      ensures w[i] != ','
    {
      assert piece[|a| + i] == w[i];
    }
  }

  /** No word has a comma in it or white space at an end. */
  lemma WordsAreClean(text: string, i: nat)
    requires i < |Words(text)|
    ensures Free(Words(text)[i], ',') && Trimmed(Words(text)[i])
  {
    var n := SplitJoinsAgain(text, ',');
    StrippedExactly(Split(text, ',')[i], Words(text)[i]);
    PadsFree(Split(text, ',')[i], Words(text)[i]);
  }

  lemma {:induction false} JoinedWithOneMore(ps: seq<string>, n: nat)
    requires ps + Empties(n) != []
    ensures Joined(ps + Empties(n + 1), ',') == Joined(ps + Empties(n), ',') + [',']
    decreases |ps| + n
  {
    var shorter, longer := ps + Empties(n), ps + Empties(n + 1);
    if |shorter| > 1 {
      if ps == [] {
        assert shorter[1..] == [] + Empties(n - 1) && longer[1..] == [] + Empties(n);
        JoinedWithOneMore([], n - 1);
      } else {
        assert shorter[1..] == ps[1..] + Empties(n) && longer[1..] == ps[1..] + Empties(n + 1);
        JoinedWithOneMore(ps[1..], n);
      }
    } else {
      assert longer == [shorter[0], ""];
      assert longer[1..] == [""];
    }
  }

  /** A comma at the end makes no difference, and the empty text has no words. */
  lemma TrailingCommasDoNotCount(text: string)
    ensures Words(text + ",") == Words(text) && Words("") == []
  {
    var ps := Split(text, ',');
    var n := SplitJoinsAgain(text, ',');
    JoinedWithOneMore(ps, n);
    SplitOfJoined(ps, ',', n + 1);
  }

  // ----- What the operators compile to -----

  predicate AsksForAll(o: Operator) {
    o.ContainsAll? || o.ContainsAllNot?
  }

  predicate AsksForOne(o: Operator) {
    o.ContainsOne? || o.ContainsOneNot?
  }

  /**
   The four word operators compile a text to a query for exactly the words that it lists, all or one of them, required
   or refused.
   */
  lemma WordsAreQueriedExactly(user: Option<User>, c: Condition, text: string, ws: seq<string>)
    requires AsksForAll(c.data.operator) || AsksForOne(c.data.operator)
    requires c.data.value == One(Text(text))
    ensures CompileOne(user, c)
            == Ok(Placed(QueryString(if c.key.table == "ticket" then c.key.field else c.key.table + "." + c.key.field,
                                     ws, AsksForAll(c.data.operator)),
                         c.data.operator.ContainsAllNot? || c.data.operator.ContainsOneNot?))
            <==> exists pieces, commas: nat :: ListsWords(text, ws, pieces, commas)
  {
    WordsExactly(text, ws);
  }
}
