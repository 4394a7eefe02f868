/**
 The rest of the operators, and the verdict on all of them: when a compiled selector finds exactly the documents that
 satisfy its conditions.
 */
module SelectorAgreement {
  import opened Prelude
  import opened Decimal
  import opened SelectorCompiler
  import opened SearchEngine
  import opened SelectorExactness
  import opened SelectorMeaning

  // ----- contains all, contains one -----

  /** The engine makes a term of the word, so that it can find it. */
  predicate Findable(e: Engine, word: string) {
    e.phrase(word, word)
  }

  predicate AllFindable(e: Engine, words: seq<string>) {
    forall i :: 0 <= i < |words| ==> Findable(e, words[i])
  }

  predicate AllTheSame(words: seq<string>) {
    forall i :: 0 <= i < |words| ==> words[i] == words[0]
  }

  /**
   In a text field the engine looks for phrases in the values, not for values, which is never right for a word. In a
   number field it looks for the first word alone, and for the others in all fields.
   */
  predicate WordsAgree(e: Engine, t: FieldType, words: seq<string>, all: bool) {
    if all then
      words != []
      && match t
         case TextField => false
         case NumberField => !IsNumeral(words[0]) || !AllFindable(e, words) || AllTheSame(words)
         case TimeField => true
    else words == [] || (!t.TextField? && forall i :: 1 <= i < |words| ==> !Findable(e, words[i]))
  }

  predicate IsWords(c: Condition, all: bool) {
    c.data.operator == if all then ContainsAll else ContainsOne
  }

  function TextOf(c: Condition): string
    requires IsText(c.data.value)
  {
    c.data.value.scalar.text
  }

  lemma FoundByWords(e: Engine, user: Option<User>, c: Condition, all: bool, d: Document)
    requires IsWords(c, all) && IsText(c.data.value)
    ensures var words, f := Words(TextOf(c)), FieldOf(c.key);
      && (Found(e, user, c, d) <==> QueryFinds(e, f, words, all, d))
      && (Holds(e, user, c, d)
          <==> if all then HasAllWords(words, ValuesOf(d, f)) else HasOneWord(words, ValuesOf(d, f)))
  {
  }

  lemma HitsAreFindable(e: Engine, word: string, xs: seq<Stored>)
    requires Analyses(e) && InField(e, word, xs)
    ensures Findable(e, word)
  {
    var j :| 0 <= j < |xs| && PhraseHits(e, word, xs[j]);
    if xs[j].Num? { assert word == Numeral(xs[j].n); }
  }

  lemma FoundAnywhereIsFindable(e: Engine, word: string, d: Document)
    requires Analyses(e) && Anywhere(e, word, d)
    ensures Findable(e, word)
  {
    var g :| g in d.values && InField(e, word, d.values[g]);
    HitsAreFindable(e, word, d.values[g]);
  }

  lemma InFieldIsAnywhere(e: Engine, word: string, d: Document, f: string)
    requires InField(e, word, ValuesOf(d, f))
    ensures Anywhere(e, word, d)
  {
    assert f in d.values;
  }

  /** Without texts among the values, a word is found in them exactly if it is one of them. */
  lemma NumbersAreFoundAsWords(e: Engine, word: string, xs: seq<Stored>)
    requires forall j :: 0 <= j < |xs| ==> xs[j].Num?
    ensures InField(e, word, xs) <==> HasWordAmong(word, xs)
  {
  }

  lemma FoundWordsAreFindable(e: Engine, f: string, words: seq<string>, d: Document)
    requires Analyses(e) && words != [] && QueryFinds(e, f, words, true, d)
    ensures AllFindable(e, words)
  {
    forall i | 0 <= i < |words|
      ensures Findable(e, words[i])
    {
      if i == 0 { HitsAreFindable(e, words[0], ValuesOf(d, f)); } else { FoundAnywhereIsFindable(e, words[i], d); }
    }
  }

  lemma WordsInFieldAreFound(e: Engine, f: string, words: seq<string>, d: Document)
    requires words != [] && forall i :: 0 <= i < |words| ==> InField(e, words[i], ValuesOf(d, f))
    ensures QueryFinds(e, f, words, true, d)
  {
    forall i | 0 <= i < |words|
      ensures Anywhere(e, words[i], d)
    {
      InFieldIsAnywhere(e, words[i], d, f);
    }
  }

  lemma NoWordsAgree(e: Engine, f: string, d: Document)
    requires Analyses(e)
    ensures !QueryFinds(e, f, [], false, d) && !HasOneWord([], ValuesOf(d, f))
  {
    if InField(e, "", ValuesOf(d, f)) { HitsAreFindable(e, "", ValuesOf(d, f)); }
  }

  lemma NumberAmongIsNumeral(word: string, xs: seq<Stored>)
    requires HasWordAmong(word, xs) && forall j :: 0 <= j < |xs| ==> xs[j].Num?
    ensures IsNumeral(word)
  {
    var j :| 0 <= j < |xs| && FormOf(xs[j]) == word;
    ReadOfNumeral(xs[j].n);
  }

  predicate OnlyNumbers(xs: seq<Stored>) {
    forall j :: 0 <= j < |xs| ==> xs[j].Num?
  }

  lemma AllNumberWords(e: Engine, words: seq<string>, f: string, d: Document)
    requires Analyses(e) && OnlyNumbers(ValuesOf(d, f)) && words != []
    requires !IsNumeral(words[0]) || !AllFindable(e, words) || AllTheSame(words)
    ensures QueryFinds(e, f, words, true, d) <==> HasAllWords(words, ValuesOf(d, f))
  {
    var xs := ValuesOf(d, f);
    if HasAllWords(words, xs) {
      forall i | 0 <= i < |words|
        ensures InField(e, words[i], xs)
      {
        assert HasWordAmong(words[i], xs);
        NumbersAreFoundAsWords(e, words[i], xs);
      }
      WordsInFieldAreFound(e, f, words, d);
    }
    if QueryFinds(e, f, words, true, d) {
      FoundWordsAreFindable(e, f, words, d);
      NumbersAreFoundAsWords(e, words[0], xs);
      NumberAmongIsNumeral(words[0], xs);
    }
  }

  lemma OneNumberWord(e: Engine, words: seq<string>, f: string, d: Document)
    requires Analyses(e) && OnlyNumbers(ValuesOf(d, f))
    requires forall i :: 1 <= i < |words| ==> !Findable(e, words[i])
    ensures QueryFinds(e, f, words, false, d) <==> HasOneWord(words, ValuesOf(d, f))
  {
    var xs := ValuesOf(d, f);
    if words == [] {
      NoWordsAgree(e, f, d);
    } else {
      NumbersAreFoundAsWords(e, words[0], xs);
      if HasOneWord(words, xs) {
        var i :| 0 <= i < |words| && HasWordAmong(words[i], xs);
        NumbersAreFoundAsWords(e, words[i], xs);
        HitsAreFindable(e, words[i], xs);
        assert i == 0;
      }
      if QueryFinds(e, f, words, false, d) && !InField(e, words[0], xs) {
        var i :| 1 <= i < |words| && Anywhere(e, words[i], d);
        FoundAnywhereIsFindable(e, words[i], d);
      }
    }
  }

  lemma NumberWordsThatAgree(e: Engine, words: seq<string>, all: bool, f: string, t: FieldType, d: Document)
    requires Analyses(e) && !t.TextField? && WordsAgree(e, t, words, all)
    requires forall j :: 0 <= j < |ValuesOf(d, f)| ==> FitsType(ValuesOf(d, f)[j], t)
    ensures QueryFinds(e, f, words, all, d)
            <==> if all then HasAllWords(words, ValuesOf(d, f)) else HasOneWord(words, ValuesOf(d, f))
  {
    assert OnlyNumbers(ValuesOf(d, f));
    if !all {
      OneNumberWord(e, words, f, d);
    } else if t.NumberField? {
      AllNumberWords(e, words, f, d);
    } else {
      var xs := ValuesOf(d, f);
      assert |xs| > 0 ==> FitsType(xs[0], t);
      assert !HasWordAmong(words[0], xs);
    }
  }

  // ----- Words that differ -----

  /** A text in which the phrase is found and that is longer than `n`. */
  lemma {:induction false} LongText(e: Engine, word: string, n: nat) returns (v: string)
    requires Analyses(e) && Findable(e, word)
    ensures e.phrase(word, v) && |v| > n
    decreases n
  {
    if n == 0 {
      v := word + " x";
    } else {
      v := LongText(e, word, n - 1);
      v := v + " x";
    }
  }

  function TotalLength(words: seq<string>): (n: nat)
    ensures forall i :: 0 <= i < |words| ==> |words[i]| <= n
  {
    if words == [] then 0
    else
      var n := TotalLength(words[..|words| - 1]);
      assert forall i :: 0 <= i < |words| - 1 ==> words[i] == words[..|words| - 1][i];
      n + |words[|words| - 1]|
  }

  /** For each word a text with it that is none of the words. */
  lemma {:induction false} TextsWithWords(e: Engine, words: seq<string>, n: nat) returns (xs: seq<Stored>)
    requires Analyses(e) && AllFindable(e, words)
    ensures |xs| == |words|
    ensures forall i :: 0 <= i < |words| ==> xs[i].Str? && e.phrase(words[i], xs[i].text) && |xs[i].text| > n
    decreases |words|
  {
    if words == [] {
      xs := [];
    } else {
      var m := |words| - 1;
      var front := TextsWithWords(e, words[..m], n);
      var v := LongText(e, words[m], n);
      xs := front + [Str(v)];
    }
  }

  lemma TextsConform(schema: Schema, f: string, xs: seq<Stored>)
    requires xs != [] && schema(f).TextField? && forall i :: 0 <= i < |xs| ==> xs[i].Str?
    ensures Conforms(schema, WithValues(f, xs)) && ValuesOf(WithValues(f, xs), f) == xs
  {
  }

  /** A document with texts that have the words in them, and none of the words itself. */
  lemma LongerTexts(e: Engine, schema: Schema, f: string, words: seq<string>) returns (d: Document)
    requires Analyses(e) && schema(f).TextField? && words != [] && AllFindable(e, words)
    ensures Conforms(schema, d) && forall i :: 0 <= i < |words| ==> InField(e, words[i], ValuesOf(d, f))
    ensures forall i :: 0 <= i < |words| ==> !HasWordAmong(words[i], ValuesOf(d, f))
  {
    var xs := TextsWithWords(e, words, TotalLength(words));
    d := WithValues(f, xs);
    TextsConform(schema, f, xs);
    forall i | 0 <= i < |words|
      ensures InField(e, words[i], xs)
    {
      assert PhraseHits(e, words[i], xs[i]);
    }
  }

  function AsTexts(words: seq<string>): (xs: seq<Stored>)
    ensures |xs| == |words| && forall i :: 0 <= i < |words| ==> xs[i] == Str(words[i])
  {
    seq(|words|, i requires 0 <= i < |words| => Str(words[i]))
  }

  /** A document with exactly the words. */
  lemma JustTheWords(schema: Schema, f: string, words: seq<string>) returns (d: Document)
    requires schema(f).TextField? && words != []
    ensures Conforms(schema, d) && forall g :: g in d.values <==> g == f
    ensures ValuesOf(d, f) == AsTexts(words) && HasAllWords(words, ValuesOf(d, f)) && HasOneWord(words, ValuesOf(d, f))
  {
    var xs := AsTexts(words);
    d := WithValues(f, xs);
    TextsConform(schema, f, xs);
    forall i | 0 <= i < |words|
      ensures HasWordAmong(words[i], xs)
    {
      assert FormOf(xs[i]) == words[i];
    }
    assert HasWordAmong(words[0], xs);
  }

  lemma AllTextWordsDiffer(e: Engine, schema: Schema, f: string, words: seq<string>) returns (d: Document)
    requires Analyses(e) && schema(f).TextField? && words != []
    ensures Conforms(schema, d) && QueryFinds(e, f, words, true, d) != HasAllWords(words, ValuesOf(d, f))
  {
    if AllFindable(e, words) {
      d := LongerTexts(e, schema, f, words);
      WordsInFieldAreFound(e, f, words, d);
      assert !HasWordAmong(words[0], ValuesOf(d, f));
    } else {
      d := JustTheWords(schema, f, words);
      if QueryFinds(e, f, words, true, d) { FoundWordsAreFindable(e, f, words, d); }
    }
  }

  lemma OneTextWordDiffers(e: Engine, schema: Schema, f: string, words: seq<string>) returns (d: Document)
    requires Analyses(e) && schema(f).TextField? && words != []
    ensures Conforms(schema, d) && QueryFinds(e, f, words, false, d) != HasOneWord(words, ValuesOf(d, f))
  {
    if i :| 0 <= i < |words| && Findable(e, words[i]) {
      var v := LongText(e, words[i], TotalLength(words));
      var x := Str(v);
      d := WithValues(f, [x]);
      OneFieldConforms(schema, f, x);
      assert PhraseHits(e, words[i], [x][0]) && InField(e, words[i], ValuesOf(d, f));
      InFieldIsAnywhere(e, words[i], d, f);
      assert QueryFinds(e, f, words, false, d);
    } else {
      d := JustTheWords(schema, f, words);
      if QueryFinds(e, f, words, false, d) {
        if InField(e, words[0], ValuesOf(d, f)) {
          HitsAreFindable(e, words[0], ValuesOf(d, f));
        } else {
          var i :| 1 <= i < |words| && Anywhere(e, words[i], d);
          FoundAnywhereIsFindable(e, words[i], d);
        }
      }
    }
  }

  /** The index has another text field than this one. */
  ghost predicate HasOtherText(schema: Schema, f: string) {
    exists other :: other != f && schema(other).TextField?
  }

  lemma NumeralIsHit(e: Engine, word: string)
    requires IsNumeral(word)
    ensures InField(e, word, [Num(Read(word))])
  {
    assert PhraseHits(e, word, [Num(Read(word))][0]);
  }

  lemma TextsAreHit(e: Engine, words: seq<string>, xs: seq<Stored>)
    requires |xs| == |words| && forall k :: 0 <= k < |words| ==> PhraseHits(e, words[k], xs[k])
    ensures forall k :: 0 <= k < |words| ==> InField(e, words[k], xs)
  {
  }

  lemma TwoFieldsConform(schema: Schema, f: string, x: Stored, other: string, xs: seq<Stored>)
    requires schema(f).NumberField? && x.Num? && other != f && schema(other).TextField?
    requires xs != [] && forall k :: 0 <= k < |xs| ==> xs[k].Str?
    ensures Conforms(schema, Document(map[f := [x], other := xs], map[]))
  {
    var d := Document(map[f := [x], other := xs], map[]);
    assert d.values[f] == [x] && d.values[other] == xs;
    forall g | g in d.values
      ensures d.values[g] != [] && forall i :: 0 <= i < |d.values[g]| ==> FitsType(d.values[g][i], schema(g))
    {
      assert g == f || g == other;
    }
  }

  lemma OtherWordIsMissing(words: seq<string>)
    requires words != [] && IsNumeral(words[0]) && !AllTheSame(words)
    ensures !HasAllWords(words, [Num(Read(words[0]))])
  {
    var i :| 0 <= i < |words| && words[i] != words[0];
    assert !HasWordAmong(words[i], [Num(Read(words[0]))]);
  }

  lemma FoundAllOver(e: Engine, f: string, other: string, words: seq<string>, d: Document)
    requires words != [] && InField(e, words[0], ValuesOf(d, f)) && other in d.values
    requires forall k :: 0 <= k < |words| ==> InField(e, words[k], d.values[other])
    ensures QueryFinds(e, f, words, true, d)
  {
    forall k | 1 <= k < |words|
      ensures Anywhere(e, words[k], d)
    {
      assert InField(e, words[k], d.values[other]);
    }
  }

  /** The first word as a number in the one field and all words in the other. */
  lemma NumberBesideTexts(e: Engine, schema: Schema, f: string, other: string, words: seq<string>, xs: seq<Stored>)
    returns (d: Document)
    requires schema(f).NumberField? && other != f && schema(other).TextField?
    requires words != [] && IsNumeral(words[0]) && !AllTheSame(words)
    requires |xs| == |words| && forall k :: 0 <= k < |words| ==> xs[k].Str?
    requires forall k :: 0 <= k < |words| ==> InField(e, words[k], xs)
    ensures Conforms(schema, d) && QueryFinds(e, f, words, true, d) && !HasAllWords(words, ValuesOf(d, f))
  {
    var x := Num(Read(words[0]));
    d := Document(map[f := [x], other := xs], map[]);
    assert ValuesOf(d, f) == [x] && d.values[other] == xs;
    TwoFieldsConform(schema, f, x, other, xs);
    NumeralIsHit(e, words[0]);
    FoundAllOver(e, f, other, words, d);
    OtherWordIsMissing(words);
  }

  /** A number field: the first word is there, but the others only in another field. */
  lemma AllNumberWordsDiffer(e: Engine, schema: Schema, f: string, words: seq<string>) returns (d: Document)
    requires Analyses(e) && HasOtherText(schema, f) && schema(f).NumberField?
    requires words != [] && IsNumeral(words[0]) && AllFindable(e, words) && !AllTheSame(words)
    ensures Conforms(schema, d) && QueryFinds(e, f, words, true, d) && !HasAllWords(words, ValuesOf(d, f))
  {
    var other :| other != f && schema(other).TextField?;
    var xs := TextsWithWords(e, words, 0);
    TextsAreHit(e, words, xs);
    d := NumberBesideTexts(e, schema, f, other, words, xs);
  }

  lemma OneOtherWordDiffers(e: Engine, schema: Schema, f: string, words: seq<string>) returns (d: Document)
    requires Analyses(e) && HasOtherText(schema, f) && exists i :: 1 <= i < |words| && Findable(e, words[i])
    ensures Conforms(schema, d) && QueryFinds(e, f, words, false, d) && !HasOneWord(words, ValuesOf(d, f))
  {
    var other :| other != f && schema(other).TextField?;
    var i :| 1 <= i < |words| && Findable(e, words[i]);
    d := WithValues(other, [Str(words[i])]);
    OneFieldConforms(schema, other, Str(words[i]));
    assert PhraseHits(e, words[i], d.values[other][0]);
    assert InField(e, words[i], d.values[other]) && Anywhere(e, words[i], d);
    assert ValuesOf(d, f) == [];
  }

  lemma WordsThatAgree(e: Engine, schema: Schema, user: Option<User>, c: Condition, all: bool)
    requires Analyses(e) && IsWords(c, all) && IsText(c.data.value)
    requires WordsAgree(e, schema(FieldOf(c.key)), Words(TextOf(c)), all)
    ensures Agrees(e, schema, user, c)
  {
    var words, f := Words(TextOf(c)), FieldOf(c.key);
    forall d | Conforms(schema, d)
      ensures Found(e, user, c, d) <==> Holds(e, user, c, d)
    {
      FoundByWords(e, user, c, all, d);
      if schema(f).TextField? { NoWordsAgree(e, f, d); } else { NumberWordsThatAgree(e, words, all, f, schema(f), d); }
    }
  }

  lemma WordsThatDiffer(e: Engine, schema: Schema, user: Option<User>, c: Condition, all: bool)
    requires Analyses(e) && IsWords(c, all) && IsText(c.data.value) && HasOtherText(schema, FieldOf(c.key))
    requires !WordsAgree(e, schema(FieldOf(c.key)), Words(TextOf(c)), all)
    ensures !Agrees(e, schema, user, c)
  {
    var words, f := Words(TextOf(c)), FieldOf(c.key);
    var d := NOTHING;
    if words != [] {
      if schema(f).TextField? {
        if all { d := AllTextWordsDiffer(e, schema, f, words); } else { d := OneTextWordDiffers(e, schema, f, words); }
      } else {
        if all { d := AllNumberWordsDiffer(e, schema, f, words); }
        else { d := OneOtherWordDiffers(e, schema, f, words); }
      }
    }
    FoundByWords(e, user, c, all, d);
    Differs(e, schema, user, c, d);
  }

  lemma WordsAgreeExactly(e: Engine, schema: Schema, user: Option<User>, c: Condition, all: bool)
    requires Analyses(e) && HasOtherText(schema, FieldOf(c.key))
    requires IsWords(c, all) && CompileOne(user, c).Ok?
    ensures IsText(c.data.value)
    ensures Agrees(e, schema, user, c) <==> WordsAgree(e, schema(FieldOf(c.key)), Words(TextOf(c)), all)
  {
    if WordsAgree(e, schema(FieldOf(c.key)), Words(TextOf(c)), all) {
      WordsThatAgree(e, schema, user, c, all);
    } else {
      WordsThatDiffer(e, schema, user, c, all);
    }
  }

  // ----- Words on a single document -----

  /** The words are found in the document exactly where they are values of the field. */
  predicate WordsAreValues(e: Engine, words: seq<string>, f: string, d: Document) {
    forall i :: 0 <= i < |words| ==>
      && (InField(e, words[i], ValuesOf(d, f)) <==> HasWordAmong(words[i], ValuesOf(d, f)))
      && (Anywhere(e, words[i], d) ==> InField(e, words[i], ValuesOf(d, f)))
  }

  lemma AllWordsRightOn(e: Engine, words: seq<string>, f: string, d: Document)
    requires words != [] && WordsAreValues(e, words, f, d)
    ensures QueryFinds(e, f, words, true, d) <==> HasAllWords(words, ValuesOf(d, f))
  {
    if HasAllWords(words, ValuesOf(d, f)) {
      assert forall i :: 0 <= i < |words| ==> HasWordAmong(words[i], ValuesOf(d, f));
      WordsInFieldAreFound(e, f, words, d);
    }
    if QueryFinds(e, f, words, true, d) {
      forall i | 0 <= i < |words|
        ensures HasWordAmong(words[i], ValuesOf(d, f))
      {
        assert i > 0 ==> Anywhere(e, words[i], d);
      }
    }
  }

  lemma OneWordRightOn(e: Engine, words: seq<string>, f: string, d: Document)
    requires Analyses(e) && WordsAreValues(e, words, f, d)
    ensures QueryFinds(e, f, words, false, d) <==> HasOneWord(words, ValuesOf(d, f))
  {
    if words == [] {
      NoWordsAgree(e, f, d);
    } else {
      if HasOneWord(words, ValuesOf(d, f)) {
        var i :| 0 <= i < |words| && HasWordAmong(words[i], ValuesOf(d, f));
        InFieldIsAnywhere(e, words[i], d, f);
        assert i == 0 || Anywhere(e, words[i], d);
      }
      if QueryFinds(e, f, words, false, d) {
        var i :| 0 <= i < |words|
                 && if i == 0 then InField(e, words[0], ValuesOf(d, f)) else Anywhere(e, words[i], d);
        assert HasWordAmong(words[i], ValuesOf(d, f));
      }
    }
  }

  lemma WordsAgreeOn(e: Engine, user: Option<User>, c: Condition, all: bool, d: Document)
    requires Analyses(e) && IsWords(c, all) && IsText(c.data.value) && (all ==> Words(TextOf(c)) != [])
    requires WordsAreValues(e, Words(TextOf(c)), FieldOf(c.key), d)
    ensures Found(e, user, c, d) <==> Holds(e, user, c, d)
  {
    FoundByWords(e, user, c, all, d);
    if all {
      AllWordsRightOn(e, Words(TextOf(c)), FieldOf(c.key), d);
    } else {
      OneWordRightOn(e, Words(TextOf(c)), FieldOf(c.key), d);
    }
  }

  // ----- Times -----

  predicate IsTime(o: Operator) {
    IsRelative(o) || o.BeforeAbsolute? || o.AfterAbsolute?
  }

  /** The instant from or up to which the operator asks for times. */
  function Edge(e: Engine, c: Condition): int {
    var span := e.span(c.data.value, c.data.range);
    match c.data.operator
    case WithinLast => e.now - span
    case WithinNext => e.now + span
    case BeforeRelative => e.now - span
    case AfterRelative => e.now + span
    case TillRelative => e.now + span
    case FromRelative => e.now - span
    case _ => e.instant(c.data.value)
  }

  /**
   The times on which query and condition differ: the very instant, which the query leaves out; and what "within
   last" has to leave out after now and "within next" before now, where the query has no bound.
   */
  predicate OffTime(e: Engine, c: Condition, t: int) {
    match c.data.operator
    case WithinLast => e.now < t && Edge(e, c) <= t
    case WithinNext => (t < e.now && t < Edge(e, c)) || (e.now <= t && t == Edge(e, c))
    case _ => t == Edge(e, c)
  }

  lemma UnitsHaveTheirNames(range: string)
    requires Unit(range).Some?
    ensures UnitName(Unit(range).value) == range
  {
  }

  lemma TimeAgreesExactly(e: Engine, user: Option<User>, c: Condition, d: Document)
    requires IsTime(c.data.operator) && CompileOne(user, c).Ok?
    ensures (Found(e, user, c, d) <==> Holds(e, user, c, d))
            <==> !(FieldOf(c.key) in d.times && OffTime(e, c, d.times[FieldOf(c.key)]))
  {
    if IsRelative(c.data.operator) { UnitsHaveTheirNames(c.data.range); }
    match c.data.operator
    case WithinLast =>
    case WithinNext =>
    case BeforeRelative =>
    case AfterRelative =>
    case TillRelative =>
    case FromRelative =>
    case BeforeAbsolute =>
    case AfterAbsolute =>
  }

  lemma SomeTimeIsOff(e: Engine, c: Condition) returns (t: int)
    requires IsTime(c.data.operator)
    ensures OffTime(e, c, t)
  {
    t := Edge(e, c);
    if c.data.operator.WithinLast? && t <= e.now { t := e.now + 1; }
    if c.data.operator.WithinNext? && t < e.now { t := t - 1; }
  }

  lemma TimesAgreeExactly(e: Engine, schema: Schema, user: Option<User>, c: Condition)
    requires IsTime(c.data.operator) && CompileOne(user, c).Ok?
    ensures Agrees(e, schema, user, c) <==> !schema(FieldOf(c.key)).TimeField?
  {
    var f := FieldOf(c.key);
    if schema(f).TimeField? {
      var t := SomeTimeIsOff(e, c);
      TimeAgreesExactly(e, user, c, WithTime(f, t));
      Differs(e, schema, user, c, WithTime(f, t));
    } else {
      forall d | Conforms(schema, d)
        ensures Found(e, user, c, d) <==> Holds(e, user, c, d)
      {
        TimeAgreesExactly(e, user, c, d);
      }
    }
  }

  // ----- Clauses that the engine refuses -----

  predicate IsPositive(o: Operator) {
    o.Is? || o.Contains? || o.ContainsAll? || o.ContainsOne?
  }

  /** What is compiled for the condition is a query that the engine understands. */
  predicate EngineAccepts(e: Engine, user: Option<User>, c: Condition) {
    match c.data.operator
    case Is => AcceptsEquality(e, user, c)
    case IsNot => AcceptsEquality(e, user, c)
    case Contains => AcceptsParts(c.data.value)
    case ContainsNot => AcceptsParts(c.data.value)
    case _ => true
  }

  predicate AcceptsEquality(e: Engine, user: Option<User>, c: Condition) {
    match c.data.preCondition
    case NotSet => IsUserField(c.key.field) ==> !c.data.value.Many?
    case CurrentUserId => c.key.field == REPLACEMENT ==> e.flattens
    case CurrentUserOrganization => user.Some? && user.value.organizationId.Some? && !c.data.value.Many?
    case _ => !c.data.value.Nil?
  }

  predicate AcceptsParts(v: Value) {
    match v
    case Nil => false
    case One(_) => true
    case Many(ss) => !AnyWord(ss)
  }

  lemma EngineAcceptsExactly(e: Engine, user: Option<User>, c: Condition)
    requires CompileOne(user, c).Ok?
    ensures Understood(e, CompileOne(user, c).value.clause) <==> EngineAccepts(e, user, c)
  {
    match c.data.operator
    case Is =>
    case IsNot =>
    case Contains =>
    case ContainsNot =>
    case _ =>
  }

  /** Where the engine refuses the clause, there is a document that the condition does not ask for. */
  lemma RefusedAsksNotForAll(e: Engine, schema: Schema, user: Option<User>, c: Condition) returns (d: Document)
    requires IsPositive(c.data.operator) && CompileOne(user, c).Ok? && !EngineAccepts(e, user, c)
    ensures Conforms(schema, d) && !Holds(e, user, c, d)
  {
    var f := FieldOf(c.key);
    d := NOTHING;
    if c.data.operator.Is? && (c.data.preCondition.NotSet? || IsSpecific(c)) {
      d := SomeValue(schema, f, 2);
      ReadOfNumeral(1);
      ReadOfNumeral(2);
      assert !HasOneOf([Number(1)], ValuesOf(d, f));
    }
  }

  // ----- All operators -----

  /** What a caller can check of a condition, given the types of the fields and the words that can be found. */
  predicate Faithful(e: Engine, schema: Schema, user: Option<User>, c: Condition) {
    var t := schema(FieldOf(c.key));
    match c.data.operator
    case Is => EqualityAgrees(e, schema, user, c)
    case IsNot => AcceptsEquality(e, user, c) && EqualityAgrees(e, schema, user, c)
    case Contains => ContainsAgrees(t, c.data.value)
    case ContainsNot => AcceptsParts(c.data.value) && ContainsAgrees(t, c.data.value)
    case ContainsAll => IsText(c.data.value) && WordsAgree(e, t, Words(TextOf(c)), true)
    case ContainsAllNot => IsText(c.data.value) && WordsAgree(e, t, Words(TextOf(c)), true)
    case ContainsOne => IsText(c.data.value) && WordsAgree(e, t, Words(TextOf(c)), false)
    case ContainsOneNot => IsText(c.data.value) && WordsAgree(e, t, Words(TextOf(c)), false)
    case _ => !t.TimeField?
  }

  lemma PositiveAgreesExactly(e: Engine, schema: Schema, user: Option<User>, c: Condition)
    requires Analyses(e) && schema("owner_id").NumberField? && HasOtherText(schema, FieldOf(c.key))
    requires IsPositive(c.data.operator) && CompileOne(user, c).Ok?
    ensures Agrees(e, schema, user, c) <==> Faithful(e, schema, user, c)
  {
    match c.data.operator
    case Is => EqualityAgreesExactly(e, schema, user, c);
    case Contains => ContainsAgreesExactly(e, schema, user, c);
    case ContainsAll => WordsAgreeExactly(e, schema, user, c, true);
    case ContainsOne => WordsAgreeExactly(e, schema, user, c, false);
  }

  function Negated(c: Condition): Condition
    requires IsPositive(c.data.operator)
  {
    With(c, Negation(c.data.operator).value)
  }

  /** If the clause is understood, query and condition change sides together; if not, nothing is found either way. */
  lemma NegatedOn(e: Engine, user: Option<User>, c: Condition, d: Document)
    requires IsPositive(c.data.operator) && CompileOne(user, c).Ok?
    ensures Holds(e, user, Negated(c), d) <==> !Holds(e, user, c, d)
    ensures Found(e, user, Negated(c), d) <==> EngineAccepts(e, user, c) && !Found(e, user, c, d)
  {
    NegationFlips(user, c);
    EngineAcceptsExactly(e, user, c);
  }

  /** An operator and its negation are right together, unless the engine refuses the clause. */
  lemma NegationAgreesToo(e: Engine, schema: Schema, user: Option<User>, c: Condition)
    requires IsPositive(c.data.operator) && CompileOne(user, c).Ok?
    ensures Agrees(e, schema, user, Negated(c)) <==> EngineAccepts(e, user, c) && Agrees(e, schema, user, c)
  {
    if !EngineAccepts(e, user, c) {
      var d := RefusedAsksNotForAll(e, schema, user, c);
      NegatedOn(e, user, c, d);
      Differs(e, schema, user, Negated(c), d);
    } else {
      if Agrees(e, schema, user, c) {
        forall d | Conforms(schema, d)
          ensures Found(e, user, Negated(c), d) <==> Holds(e, user, Negated(c), d)
        {
          NegatedOn(e, user, c, d);
          assert Found(e, user, c, d) <==> Holds(e, user, c, d);
        }
      }
      if Agrees(e, schema, user, Negated(c)) {
        forall d | Conforms(schema, d)
          ensures Found(e, user, c, d) <==> Holds(e, user, c, d)
        {
          NegatedOn(e, user, c, d);
          assert Found(e, user, Negated(c), d) <==> Holds(e, user, Negated(c), d);
        }
      }
    }
  }

  /** The condition that a negative one negates. */
  function Positive(c: Condition): Condition
    requires Negation(c.data.operator).Some?
  {
    With(c, Negation(c.data.operator).value)
  }

  lemma NegativeIsFaithfulWith(e: Engine, schema: Schema, user: Option<User>, c: Condition)
    requires Negation(c.data.operator).Some? && !IsPositive(c.data.operator) && CompileOne(user, c).Ok?
    ensures IsPositive(Positive(c).data.operator) && CompileOne(user, Positive(c)).Ok? && Negated(Positive(c)) == c
    ensures Faithful(e, schema, user, c)
            <==> EngineAccepts(e, user, Positive(c)) && Faithful(e, schema, user, Positive(c))
  {
    NegationFlips(user, c);
    match c.data.operator
    case IsNot =>
    case ContainsNot =>
    case ContainsAllNot =>
    case ContainsOneNot =>
  }

  /**
   For every operator, value and precondition: an accepted condition is compiled to a query that finds exactly the
   documents it asks for, over all documents of the index, if and only if the condition is faithful.
   */
  lemma ConditionAgreesExactly(e: Engine, schema: Schema, user: Option<User>, c: Condition)
    requires Analyses(e) && schema("owner_id").NumberField? && HasOtherText(schema, FieldOf(c.key))
    requires CompileOne(user, c).Ok?
    ensures Agrees(e, schema, user, c) <==> Faithful(e, schema, user, c)
  {
    if IsTime(c.data.operator) {
      TimesAgreeExactly(e, schema, user, c);
    } else if IsPositive(c.data.operator) {
      PositiveAgreesExactly(e, schema, user, c);
    } else {
      NegativeIsFaithfulWith(e, schema, user, c);
      PositiveAgreesExactly(e, schema, user, Positive(c));
      NegationAgreesToo(e, schema, user, Positive(c));
    }
  }

  // ----- Whole selectors -----

  function MatcherOf(e: Engine): (Clause, Document) -> bool {
    (clause, d) => Matches(e, clause, d)
  }

  /** The engine refuses a query as a whole if it does not understand one of its clauses. */
  predicate QueryUnderstood(e: Engine, q: Query) {
    && (forall i :: 0 <= i < |q.must| ==> Understood(e, q.must[i]))
    && (forall i :: 0 <= i < |q.mustNot| ==> Understood(e, q.mustNot[i]))
  }

  ghost predicate FoundByQuery(e: Engine, q: Query, d: Document) {
    QueryUnderstood(e, q) && Finds(MatcherOf(e), q, d)
  }

  lemma UnderstoodOneMore(e: Engine, q: Query, p: Placed)
    ensures QueryUnderstood(e, Added(q, p)) <==> QueryUnderstood(e, q) && Understood(e, p.clause)
  {
    var was := if p.negated then q.mustNot else q.must;
    var now := if p.negated then Added(q, p).mustNot else Added(q, p).must;
    assert now == was + [p.clause];
    assert now[|was|] == p.clause && forall i :: 0 <= i < |was| ==> now[i] == was[i];
  }

  ghost predicate FoundByAll(e: Engine, user: Option<User>, cs: seq<Condition>, d: Document) {
    forall i :: 0 <= i < |cs| ==> Found(e, user, cs[i], d)
  }

  lemma FoundByOneMore(e: Engine, user: Option<User>, cs: seq<Condition>, d: Document)
    requires cs != []
    ensures var n := |cs| - 1;
      FoundByAll(e, user, cs, d) <==> FoundByAll(e, user, cs[..n], d) && Found(e, user, cs[n], d)
  {
    var n := |cs| - 1;
    assert forall i :: 0 <= i < n ==> cs[..n][i] == cs[i];
  }

  /** One refused condition takes the others of the selector with it; otherwise each has its say. */
  lemma {:induction false} FoundExactlyByAll(e: Engine, user: Option<User>, cs: seq<Condition>, d: Document)
    requires CompileAll(user, cs).Ok?
    ensures FoundByQuery(e, CompileAll(user, cs).value, d) <==> FoundByAll(e, user, cs, d)
  {
    if cs != [] {
      var n := |cs| - 1;
      var q, p := CompileAll(user, cs[..n]).value, CompileOne(user, cs[n]).value;
      FoundExactlyByAll(e, user, cs[..n], d);
      UnderstoodOneMore(e, q, p);
      FindsOneMore(MatcherOf(e), q, p, d);
      FoundByOneMore(e, user, cs, d);
    }
  }

  ghost predicate HoldsAll(e: Engine, user: Option<User>, cs: seq<Condition>, d: Document) {
    forall i :: 0 <= i < |cs| ==> Holds(e, user, cs[i], d)
  }

  /**
   The condition is right on this document: it is faithful, or the document's time is not off, or the words are found
   in it exactly where they are values of the field.
   */
  predicate RightOn(e: Engine, schema: Schema, user: Option<User>, c: Condition, d: Document) {
    || Faithful(e, schema, user, c)
    || (IsTime(c.data.operator) && !(FieldOf(c.key) in d.times && OffTime(e, c, d.times[FieldOf(c.key)])))
    || (AsksForWords(c.data.operator) && IsText(c.data.value)
        && (Words(TextOf(c)) != [] || c.data.operator.ContainsOne? || c.data.operator.ContainsOneNot?)
        && WordsAreValues(e, Words(TextOf(c)), FieldOf(c.key), d))
  }

  lemma WordsRightOn(e: Engine, user: Option<User>, c: Condition, d: Document)
    requires Analyses(e) && AsksForWords(c.data.operator) && IsText(c.data.value)
    requires Words(TextOf(c)) != [] || c.data.operator.ContainsOne? || c.data.operator.ContainsOneNot?
    requires WordsAreValues(e, Words(TextOf(c)), FieldOf(c.key), d)
    ensures Found(e, user, c, d) <==> Holds(e, user, c, d)
  {
    match c.data.operator
    case ContainsAll => WordsAgreeOn(e, user, c, true, d);
    case ContainsOne => WordsAgreeOn(e, user, c, false, d);
    case ContainsAllNot =>
      WordsAgreeOn(e, user, Positive(c), true, d);
      NegatedOn(e, user, Positive(c), d);
    case ContainsOneNot =>
      WordsAgreeOn(e, user, Positive(c), false, d);
      NegatedOn(e, user, Positive(c), d);
  }

  lemma RightConditionAgrees(e: Engine, schema: Schema, user: Option<User>, c: Condition, d: Document)
    requires Analyses(e) && schema("owner_id").NumberField? && HasOtherText(schema, FieldOf(c.key))
    requires Conforms(schema, d) && CompileOne(user, c).Ok? && RightOn(e, schema, user, c, d)
    ensures Found(e, user, c, d) <==> Holds(e, user, c, d)
  {
    if Faithful(e, schema, user, c) {
      ConditionAgreesExactly(e, schema, user, c);
    } else if IsTime(c.data.operator) {
      TimeAgreesExactly(e, user, c, d);
    } else {
      WordsRightOn(e, user, c, d);
    }
  }

  /** An accepted selector finds a document on which its conditions are right exactly if all of them hold there. */
  lemma SelectorFindsExactly(e: Engine, schema: Schema, user: Option<User>, cs: seq<Condition>, d: Document)
    requires Analyses(e) && schema("owner_id").NumberField? && Conforms(schema, d)
    requires CompileAll(user, cs).Ok?
    requires forall i :: 0 <= i < |cs| ==>
               RightOn(e, schema, user, cs[i], d) && HasOtherText(schema, FieldOf(cs[i].key))
    ensures FoundByQuery(e, CompileAll(user, cs).value, d) <==> HoldsAll(e, user, cs, d)
  {
    FoundExactlyByAll(e, user, cs, d);
    AcceptedExactly(user, cs);
    forall i | 0 <= i < |cs|
      ensures Found(e, user, cs[i], d) <==> Holds(e, user, cs[i], d)
    {
      assert AllCompile(user, cs) && CompileOne(user, cs[i]).Ok?;
      RightConditionAgrees(e, schema, user, cs[i], d);
    }
  }

  /** With an aggregation the document's time also has to be in the interval, its ends included. */
  lemma AggregatedFindsExactly(e: Engine, schema: Schema, user: Option<User>, cs: seq<Condition>, a: Aggregation,
                               d: Document)
    requires Analyses(e) && schema("owner_id").NumberField? && Conforms(schema, d)
    requires CompileAll(user, cs).Ok?
    requires forall i :: 0 <= i < |cs| ==>
               RightOn(e, schema, user, cs[i], d) && HasOtherText(schema, FieldOf(cs[i].key))
    ensures Compile(user, cs, Some(a)).Ok?
    ensures FoundByQuery(e, Compile(user, cs, Some(a)).value, d)
            <==> HoldsAll(e, user, cs, d) && a.field in d.times && a.since <= d.times[a.field] <= a.until
  {
    SelectorFindsExactly(e, schema, user, cs, d);
    var p := Placed(Interval(a.field, a.since, a.until), false);
    WithInterval(e, CompileAll(user, cs).value, p, d);
    assert Compile(user, cs, Some(a)).value == Added(CompileAll(user, cs).value, p);
  }

  lemma WithInterval(e: Engine, q: Query, p: Placed, d: Document)
    requires Understood(e, p.clause) && !p.negated
    ensures FoundByQuery(e, Added(q, p), d) <==> FoundByQuery(e, q, d) && Matches(e, p.clause, d)
  {
    UnderstoodOneMore(e, q, p);
    FindsOneMore(MatcherOf(e), q, p, d);
  }

  // ----- How the operators on times lie to each other -----

  lemma FoundByTime(e: Engine, user: Option<User>, c: Condition, d: Document)
    requires IsTime(c.data.operator)
    ensures Found(e, user, c, d) ==> FieldOf(c.key) in d.times
    ensures FieldOf(c.key) in d.times && (IsRelative(c.data.operator) ==> Unit(c.data.range).Some?) ==>
      var t := d.times[FieldOf(c.key)];
      Found(e, user, c, d)
      <==> match c.data.operator
           case WithinLast => t >= Edge(e, c)
           case AfterRelative => t > Edge(e, c)
           case FromRelative => t > Edge(e, c)
           case AfterAbsolute => t > Edge(e, c)
           case _ => t < Edge(e, c)
  {
    if Unit(c.data.range).Some? { UnitsHaveTheirNames(c.data.range); }
    match c.data.operator
    case WithinLast =>
    case WithinNext =>
    case BeforeRelative =>
    case AfterRelative =>
    case TillRelative =>
    case FromRelative =>
    case BeforeAbsolute =>
    case AfterAbsolute =>
  }

  /**
   "within last" and "before", with the same value and unit, divide the documents that have the field between
   them; a document without it is in neither.
   */
  lemma LastAndBeforePartition(e: Engine, user: Option<User>, c: Condition, d: Document)
    requires Unit(c.data.range).Some?
    ensures var last, before := With(c, WithinLast), With(c, BeforeRelative);
      if FieldOf(c.key) in d.times then Found(e, user, last, d) <==> !Found(e, user, before, d)
      else !Found(e, user, last, d) && !Found(e, user, before, d)
  {
    FoundByTime(e, user, With(c, WithinLast), d);
    FoundByTime(e, user, With(c, BeforeRelative), d);
  }

  /** "within next" has no lower bound: it is the same as "till", and so takes in all of the past. */
  lemma WithinNextIsTill(user: Option<User>, c: Condition)
    ensures CompileOne(user, With(c, WithinNext)) == CompileOne(user, With(c, TillRelative))
  {
  }

  /** The operators that leave out one instant, and the operator on its other side. */
  function OtherSide(o: Operator): Option<Operator> {
    match o
    case TillRelative => Some(AfterRelative)
    case BeforeRelative => Some(FromRelative)
    case BeforeAbsolute => Some(AfterAbsolute)
    case _ => None
  }

  /** These pairs exclude each other; of the documents with the field they miss only those at the very instant. */
  lemma BothSidesMissTheInstant(e: Engine, user: Option<User>, c: Condition, d: Document)
    requires OtherSide(c.data.operator).Some? && (c.data.operator.BeforeAbsolute? || Unit(c.data.range).Some?)
    ensures var other := With(c, OtherSide(c.data.operator).value);
      && !(Found(e, user, c, d) && Found(e, user, other, d))
      && (!Found(e, user, c, d) && !Found(e, user, other, d)
          <==> (FieldOf(c.key) in d.times ==> d.times[FieldOf(c.key)] == Edge(e, c)))
  {
    FoundByTime(e, user, c, d);
    FoundByTime(e, user, With(c, OtherSide(c.data.operator).value), d);
  }
}
