/**
 Exactly which conditions of a selector are compiled to a query that finds the documents they ask for. For the others
 there is a document on which query and condition differ.
 */
module SelectorExactness {
  import opened Prelude
  import opened Texts
  import opened Decimal
  import opened Globs
  import opened SelectorCompiler
  import opened SearchEngine

  /** The compiled condition finds exactly the documents that it asks for. */
  ghost predicate Agrees(e: Engine, schema: Schema, user: Option<User>, c: Condition) {
    forall d :: Conforms(schema, d) ==> (Found(e, user, c, d) <==> Holds(e, user, c, d))
  }

  // ----- Documents with one field -----

  function WithValues(f: string, xs: seq<Stored>): Document {
    Document(map[f := xs], map[])
  }

  const NOTHING := Document(map[], map[])

  function WithTime(f: string, t: int): Document {
    Document(map[], map[f := t])
  }

  lemma OneFieldConforms(schema: Schema, f: string, x: Stored)
    requires FitsType(x, schema(f))
    ensures var d := WithValues(f, [x]); Conforms(schema, d) && ValuesOf(d, f) == [x] && Present(d, f)
  {
  }

  // ----- Lists of values -----

  predicate AnyWord(ss: seq<Scalar>) {
    exists i :: 0 <= i < |ss| && IsWord(ss[i])
  }

  predicate AnyNumeral(ss: seq<Scalar>) {
    exists i :: 0 <= i < |ss| && IsNumeral(Form(ss[i]))
  }

  /**
   A comparison with a list does what it asks: in a text field if it is made on the raw text, in a number field if it
   is not or no number is listed; and in neither if the empty text is listed, which also asks for absent fields.
   */
  predicate ListAgrees(t: FieldType, ss: seq<Scalar>) {
    && Text("") !in ss
    && match t
       case TextField => AnyWord(ss) || ss == []
       case NumberField => !AnyWord(ss) || !AnyNumeral(ss)
       case TimeField => true
  }

  lemma NumeralIsNumber(s: Scalar)
    requires IsNumeral(Form(s))
    ensures Form(s) == FormOf(Num(Read(Form(s)))) && !IsWord(s)
  {
    NumeralsHaveNoLetters(Read(Form(s)));
  }

  lemma FormOfWord(s: Scalar)
    ensures IsWord(s) <==> HasLetter(Form(s))
    ensures Form(s) == "" ==> s == Text("")
  {
    if s.Number? { NumeralsHaveNoLetters(s.n); }
  }

  /** The term clauses of a list, on the documents of a schema. */
  ghost predicate TermsAgree(e: Engine, schema: Schema, f: string, ss: seq<Scalar>) {
    forall d :: Conforms(schema, d) ==>
      (SomeHit(e, AnyWord(ss), ss, ValuesOf(d, f)) <==> IsOneOf(ss, d, f))
  }

  lemma HitsOnType(e: Engine, t: FieldType, ss: seq<Scalar>, xs: seq<Stored>)
    requires ListAgrees(t, ss) && forall j :: 0 <= j < |xs| ==> FitsType(xs[j], t)
    ensures SomeHit(e, AnyWord(ss), ss, xs) <==> HasOneOf(ss, xs)
  {
    var raw := AnyWord(ss);
    forall i, j | 0 <= i < |ss| && 0 <= j < |xs|
      ensures Hits(e, raw, ss[i], xs[j]) <==> Form(ss[i]) == FormOf(xs[j])
    {
      if xs[j].Num? && raw {
        ReadOfNumeral(xs[j].n);
        assert !IsNumeral(Form(ss[i]));
      }
    }
    if SomeHit(e, raw, ss, xs) {
      var i, j :| 0 <= i < |ss| && 0 <= j < |xs| && Hits(e, raw, ss[i], xs[j]);
      assert Form(ss[i]) == FormOf(xs[j]);
    }
    if HasOneOf(ss, xs) {
      var i, j :| 0 <= i < |ss| && 0 <= j < |xs| && Form(ss[i]) == FormOf(xs[j]);
      assert Hits(e, raw, ss[i], xs[j]);
    }
  }

  lemma ListThatAgrees(e: Engine, schema: Schema, f: string, ss: seq<Scalar>)
    requires ListAgrees(schema(f), ss)
    ensures TermsAgree(e, schema, f, ss)
  {
    forall d | Conforms(schema, d)
      ensures SomeHit(e, AnyWord(ss), ss, ValuesOf(d, f)) <==> IsOneOf(ss, d, f)
    {
      HitsOnType(e, schema(f), ss, ValuesOf(d, f));
    }
  }

  lemma OneHit(e: Engine, raw: bool, ss: seq<Scalar>, x: Stored)
    ensures SomeHit(e, raw, ss, [x]) <==> exists i :: 0 <= i < |ss| && Hits(e, raw, ss[i], x)
    ensures HasOneOf(ss, [x]) <==> exists i :: 0 <= i < |ss| && Form(ss[i]) == FormOf(x)
  {
    if i :| 0 <= i < |ss| && Hits(e, raw, ss[i], x) { assert Hits(e, raw, ss[i], [x][0]); }
    if i :| 0 <= i < |ss| && Form(ss[i]) == FormOf(x) { assert Form(ss[i]) == FormOf([x][0]); }
  }

  /** Without a letter in the list, the terms of a text are asked: a longer text is found too, or the text is not. */
  lemma TokensDiffer(e: Engine, ss: seq<Scalar>) returns (x: Stored)
    requires Analyses(e) && ss != [] && !AnyWord(ss)
    ensures x.Str? && SomeHit(e, false, ss, [x]) != HasOneOf(ss, [x])
  {
    var v := Form(ss[0]);
    x := Str(v);
    OneHit(e, false, ss, x);
    if i :| 0 <= i < |ss| && Hits(e, false, ss[i], x) {
      x := Str(v + " x");
      OneHit(e, false, ss, x);
      assert Hits(e, false, ss[i], x);
      forall k | 0 <= k < |ss|
        ensures Form(ss[k]) != v + " x"
      {
        FormOfWord(ss[k]);
        assert (v + " x")[|v| + 1] == 'x';
      }
    }
  }

  lemma ListThatDiffers(e: Engine, schema: Schema, f: string, ss: seq<Scalar>)
    requires Analyses(e) && !ListAgrees(schema(f), ss)
    ensures !TermsAgree(e, schema, f, ss)
  {
    var d := NOTHING;
    if Text("") !in ss {
      var x;
      if schema(f).TextField? {
        x := TokensDiffer(e, ss);
      } else {
        var i :| 0 <= i < |ss| && IsNumeral(Form(ss[i]));
        NumeralIsNumber(ss[i]);
        x := Num(Read(Form(ss[i])));
        OneHit(e, true, ss, x);
      }
      d := WithValues(f, [x]);
      OneFieldConforms(schema, f, x);
    }
    assert Conforms(schema, d) && SomeHit(e, AnyWord(ss), ss, ValuesOf(d, f)) != IsOneOf(ss, d, f);
  }

  lemma TermsAgreeExactly(e: Engine, schema: Schema, f: string, ss: seq<Scalar>)
    requires Analyses(e)
    ensures TermsAgree(e, schema, f, ss) <==> ListAgrees(schema(f), ss)
  {
    if ListAgrees(schema(f), ss) { ListThatAgrees(e, schema, f, ss); } else { ListThatDiffers(e, schema, f, ss); }
  }

  lemma NumbersAreNoWords(ids: seq<int>)
    ensures !AnyWord(Numbers(ids)) && Text("") !in Numbers(ids)
  {
  }

  // ----- is, is not -----

  /** The replacements' list stands inside another list, and in tickets it is asked of a field that there is not. */
  predicate ReplacementAgrees(e: Engine, t: FieldType, key: Key, ids: seq<int>) {
    ids == [] || (key.table != "ticket" && (t.TimeField? || (t.NumberField? && e.flattens)))
  }

  predicate EqualityAgrees(e: Engine, schema: Schema, user: Option<User>, c: Condition) {
    var t := schema(FieldOf(c.key));
    match c.data.preCondition
    case NotSet => !IsUserField(c.key.field) && c.key.table == "ticket"
    case CurrentUserId =>
      user.Some? && if c.key.field == REPLACEMENT then ReplacementAgrees(e, t, c.key, user.value.outOfOfficeFor)
                    else ListAgrees(t, [Number(user.value.id)])
    case CurrentUserOrganization =>
      user.Some? && (match user.value.organizationId
                     case None => true
                     case Some(o) => if c.data.value.Many? then t.TimeField? else ListAgrees(t, [Number(o)]))
    case _ => !c.data.value.Nil? && ListAgrees(t, Scalars(c.data.value))
  }

  /** The condition is compiled to the terms of a list, and asks for one of them. */
  ghost predicate ComparesList(e: Engine, schema: Schema, user: Option<User>, c: Condition, ss: seq<Scalar>) {
    forall d :: Conforms(schema, d) ==>
      && (Found(e, user, c, d) <==> SomeHit(e, AnyWord(ss), ss, ValuesOf(d, FieldOf(c.key))))
      && (Holds(e, user, c, d) <==> IsOneOf(ss, d, FieldOf(c.key)))
  }

  lemma ListComparisonAgreesExactly(e: Engine, schema: Schema, user: Option<User>, c: Condition, ss: seq<Scalar>)
    requires Analyses(e) && ComparesList(e, schema, user, c, ss)
    ensures Agrees(e, schema, user, c) <==> ListAgrees(schema(FieldOf(c.key)), ss)
  {
    TermsAgreeExactly(e, schema, FieldOf(c.key), ss);
    if Agrees(e, schema, user, c) {
      forall d | Conforms(schema, d)
        ensures SomeHit(e, AnyWord(ss), ss, ValuesOf(d, FieldOf(c.key))) <==> IsOneOf(ss, d, FieldOf(c.key))
      {
        assert Found(e, user, c, d) <==> Holds(e, user, c, d);
      }
    }
  }

  predicate IsSpecific(c: Condition) {
    c.data.preCondition.NoPreCondition? || c.data.preCondition.Specific? || c.data.preCondition.OtherPreCondition?
  }

  lemma SpecificOn(e: Engine, user: Option<User>, c: Condition, d: Document)
    requires c.data.operator.Is? && IsSpecific(c) && !c.data.value.Nil?
    ensures var ss, f := Scalars(c.data.value), FieldOf(c.key);
      && (Found(e, user, c, d) <==> SomeHit(e, AnyWord(ss), ss, ValuesOf(d, f)))
      && (Holds(e, user, c, d) <==> IsOneOf(ss, d, f))
  {
    var ss, f := Scalars(c.data.value), FieldOf(c.key);
    assert HasWord(c.data.value) <==> AnyWord(ss) by {
      if c.data.value.One? { assert ss[0] == c.data.value.scalar; }
    }
    assert CompileOne(user, c)
        == Ok(Placed(Match(KindOf(c.data.value), f, AnyWord(ss), Plain(c.data.value)), false));
  }

  lemma SpecificComparesList(e: Engine, schema: Schema, user: Option<User>, c: Condition)
    requires c.data.operator.Is? && IsSpecific(c) && !c.data.value.Nil?
    ensures ComparesList(e, schema, user, c, Scalars(c.data.value))
  {
    forall d | Conforms(schema, d)
      ensures var ss, f := Scalars(c.data.value), FieldOf(c.key);
        && (Found(e, user, c, d) <==> SomeHit(e, AnyWord(ss), ss, ValuesOf(d, f)))
        && (Holds(e, user, c, d) <==> IsOneOf(ss, d, f))
    {
      SpecificOn(e, user, c, d);
    }
  }

  lemma UserComparesList(e: Engine, schema: Schema, user: Option<User>, c: Condition)
    requires c.data.operator.Is? && c.data.preCondition.CurrentUserId? && user.Some? && c.key.field != REPLACEMENT
    ensures ComparesList(e, schema, user, c, [Number(user.value.id)])
  {
    assert !AnyWord([Number(user.value.id)]) && !HasWord(Many([Number(user.value.id)]));
  }

  lemma OrganizationComparesList(e: Engine, schema: Schema, user: Option<User>, c: Condition)
    requires c.data.operator.Is? && c.data.preCondition.CurrentUserOrganization? && user.Some?
    requires user.value.organizationId.Some? && !c.data.value.Many?
    ensures ComparesList(e, schema, user, c, [Number(user.value.organizationId.value)])
  {
    assert !AnyWord([Number(user.value.organizationId.value)]);
  }

  /** A document on which query and condition differ. */
  lemma Differs(e: Engine, schema: Schema, user: Option<User>, c: Condition, d: Document)
    requires Conforms(schema, d) && Found(e, user, c, d) != Holds(e, user, c, d)
    ensures !Agrees(e, schema, user, c)
  {
  }

  /** A document with one value of the type of its field. */
  function SomeValue(schema: Schema, f: string, n: int): (d: Document)
    ensures Conforms(schema, d) && Present(d, f) && forall g :: g != f ==> !Present(d, g)
    ensures !schema(f).TimeField? ==> HasOneOf([Number(n)], ValuesOf(d, f))
    ensures forall j :: 0 <= j < |ValuesOf(d, f)| ==> FormOf(ValuesOf(d, f)[j]) == Numeral(n)
  {
    match schema(f)
    case TextField =>
      OneHit0([Number(n)], Str(Numeral(n)));
      WithValues(f, [Str(Numeral(n))])
    case NumberField =>
      OneHit0([Number(n)], Num(n));
      WithValues(f, [Num(n)])
    case TimeField => WithTime(f, n)
  }

  lemma OneHit0(ss: seq<Scalar>, x: Stored)
    requires ss != [] && Form(ss[0]) == FormOf(x)
    ensures HasOneOf(ss, [x])
  {
    assert Form(ss[0]) == FormOf([x][0]);
  }

  lemma NotSetAgreesExactly(e: Engine, schema: Schema, user: Option<User>, c: Condition)
    requires c.data.operator.Is? && c.data.preCondition.NotSet?
    ensures Agrees(e, schema, user, c) <==> EqualityAgrees(e, schema, user, c)
  {
    var f := FieldOf(c.key);
    if IsUserField(c.key.field) {
      Differs(e, schema, user, c, NOTHING);
    } else if c.key.table != "ticket" {
      assert |f| > |c.key.field|;
      Differs(e, schema, user, c, SomeValue(schema, f, 0));
    }
  }

  lemma SomeId(ids: seq<int>, xs: seq<Stored>)
    requires ids != [] && HasOneOf([Number(ids[0])], xs)
    ensures HasOneOf(Numbers(ids), xs)
  {
    var i, j :| 0 <= i < 1 && 0 <= j < |xs| && Form([Number(ids[0])][i]) == FormOf(xs[j]);
    assert Form(Numbers(ids)[0]) == FormOf(xs[j]);
  }

  lemma ReplacementAgreesExactly(e: Engine, schema: Schema, user: Option<User>, c: Condition)
    requires Analyses(e) && schema("owner_id").NumberField?
    requires c.data.operator.Is? && c.data.preCondition.CurrentUserId? && user.Some? && c.key.field == REPLACEMENT
    ensures Agrees(e, schema, user, c) <==> EqualityAgrees(e, schema, user, c)
  {
    var ids, f, asked := user.value.outOfOfficeFor, FieldOf(c.key), ReplacementField(c.key);
    NumbersAreNoWords(ids);
    if ids != [] {
      if c.key.table == "ticket" || (!e.flattens && !schema(f).TimeField?) {
        var d := SomeValue(schema, asked, ids[0]);
        SomeId(ids, ValuesOf(d, asked));
        Differs(e, schema, user, c, d);
      } else if e.flattens {
        assert ComparesList(e, schema, user, c, Numbers(ids));
        ListComparisonAgreesExactly(e, schema, user, c, Numbers(ids));
      }
    }
  }

  lemma OrganizationAgreesExactly(e: Engine, schema: Schema, user: Option<User>, c: Condition)
    requires Analyses(e)
    requires c.data.operator.Is? && c.data.preCondition.CurrentUserOrganization? && user.Some?
    ensures Agrees(e, schema, user, c) <==> EqualityAgrees(e, schema, user, c)
  {
    var f := FieldOf(c.key);
    match user.value.organizationId
    case None =>
    case Some(o) =>
      if !c.data.value.Many? {
        OrganizationComparesList(e, schema, user, c);
        ListComparisonAgreesExactly(e, schema, user, c, [Number(o)]);
      } else if !schema(f).TimeField? {
        Differs(e, schema, user, c, SomeValue(schema, f, o));
      }
  }

  lemma EqualityAgreesExactly(e: Engine, schema: Schema, user: Option<User>, c: Condition)
    requires Analyses(e) && schema("owner_id").NumberField?
    requires c.data.operator.Is? && CompileOne(user, c).Ok?
    ensures Agrees(e, schema, user, c) <==> EqualityAgrees(e, schema, user, c)
  {
    match c.data.preCondition
    case NotSet => NotSetAgreesExactly(e, schema, user, c);
    case CurrentUserId =>
      if c.key.field == REPLACEMENT {
        ReplacementAgreesExactly(e, schema, user, c);
      } else {
        UserComparesList(e, schema, user, c);
        ListComparisonAgreesExactly(e, schema, user, c, [Number(user.value.id)]);
      }
    case CurrentUserOrganization => OrganizationAgreesExactly(e, schema, user, c);
    case _ =>
      if c.data.value.Nil? {
        Differs(e, schema, user, c, NOTHING);
      } else {
        SpecificComparesList(e, schema, user, c);
        ListComparisonAgreesExactly(e, schema, user, c, Scalars(c.data.value));
      }
  }

  /**
   In a field for users, "not set" finds user 1 but misses documents without the field. On documents that have a
   number there it finds what it asks for, unless the condition also has a list as its value.
   */
  lemma NotSetAgreesWherePresent(e: Engine, schema: Schema, user: Option<User>, c: Condition, d: Document)
    requires c.data.operator.Is? && c.data.preCondition.NotSet? && IsUserField(c.key.field) && !c.data.value.Many?
    requires Conforms(schema, d) && schema(FieldOf(c.key)).NumberField?
    ensures (Found(e, user, c, d) <==> Holds(e, user, c, d)) <==> Present(d, FieldOf(c.key))
  {
    assert !AnyWord([Number(1)]);
    HitsOnType(e, NumberField, [Number(1)], ValuesOf(d, FieldOf(c.key)));
  }

  // ----- contains, contains not -----

  /**
   A text with a letter is looked for with asterisks around it, which is right unless it has wildcards of its own;
   a list with such a text is refused; and anything else is compared with the terms of a text, which is wrong.
   */
  predicate ContainsAgrees(t: FieldType, v: Value) {
    match v
    case Nil => true
    case One(s) => t.TextField? ==> IsWord(s) && !Special(STARS, s.text)
    case Many(ss) =>
      if AnyWord(ss) then t.TimeField? || (t.NumberField? && !AnyNumeral(ss)) else t.TextField? ==> ss == []
  }

  /** What is compiled for one value of the field. */
  predicate FindsPart(e: Engine, v: Value, x: Stored) {
    match v
    case Nil => false
    case One(s) =>
      if IsWord(s) then x.Str? && Glob(STARS, Around(STARS, s.text), x.text) else Hits(e, false, s, x)
    case Many(ss) => !AnyWord(ss) && exists i :: 0 <= i < |ss| && Hits(e, false, ss[i], x)
  }

  predicate AsksPartOf(v: Value, x: Stored) {
    exists i :: 0 <= i < |Scalars(v)| && PartOf(Scalars(v)[i], x)
  }

  lemma {:induction false} WrappingNoWords(ss: seq<Scalar>)
    requires !AnyWord(ss)
    ensures WrapFirst(ss) == ss
  {
    if ss != [] {
      assert !IsWord(ss[0]);
      assert forall i :: 0 <= i < |ss| - 1 ==> ss[1..][i] == ss[i + 1];
      WrappingNoWords(ss[1..]);
    }
  }

  lemma FoundByPart(e: Engine, user: Option<User>, c: Condition, d: Document)
    requires c.data.operator.Contains?
    ensures var xs := ValuesOf(d, FieldOf(c.key));
      && (Found(e, user, c, d) <==> exists j :: 0 <= j < |xs| && FindsPart(e, c.data.value, xs[j]))
      && (Holds(e, user, c, d) <==> exists j :: 0 <= j < |xs| && AsksPartOf(c.data.value, xs[j]))
  {
    var v, xs := c.data.value, ValuesOf(d, FieldOf(c.key));
    AskedByPart(v, xs);
    match v
    case Nil =>
    case One(s) =>
      if IsWord(s) { assert "*" + s.text + "*" == Around(STARS, s.text); } else { OneTerm(e, s, xs); }
    case Many(ss) => if !AnyWord(ss) { WrappingNoWords(ss); ListOfTerms(e, ss, xs); }
  }

  lemma AskedByPart(v: Value, xs: seq<Stored>)
    ensures AsksPart(v, xs) <==> exists j :: 0 <= j < |xs| && AsksPartOf(v, xs[j])
  {
    if AsksPart(v, xs) {
      var i, j :| 0 <= i < |Scalars(v)| && 0 <= j < |xs| && PartOf(Scalars(v)[i], xs[j]);
      assert AsksPartOf(v, xs[j]);
    }
  }

  lemma ListOfTerms(e: Engine, ss: seq<Scalar>, xs: seq<Stored>)
    requires !AnyWord(ss)
    ensures SomeHit(e, false, ss, xs) <==> exists j :: 0 <= j < |xs| && FindsPart(e, Many(ss), xs[j])
  {
    if SomeHit(e, false, ss, xs) {
      var i, j :| 0 <= i < |ss| && 0 <= j < |xs| && Hits(e, false, ss[i], xs[j]);
      assert FindsPart(e, Many(ss), xs[j]);
    }
  }

  lemma OneTerm(e: Engine, s: Scalar, xs: seq<Stored>)
    ensures SomeHit(e, false, [s], xs) <==> exists j :: 0 <= j < |xs| && Hits(e, false, s, xs[j])
  {
    if j :| 0 <= j < |xs| && Hits(e, false, s, xs[j]) {
      assert Hits(e, false, [s][0], xs[j]);
    }
  }

  /** Right on every value of the type means right on every document. */
  lemma PartsAgreeExactly(e: Engine, schema: Schema, user: Option<User>, c: Condition)
    requires c.data.operator.Contains?
    ensures Agrees(e, schema, user, c) <==>
      forall x :: FitsType(x, schema(FieldOf(c.key))) ==>
        (FindsPart(e, c.data.value, x) <==> AsksPartOf(c.data.value, x))
  {
    var f, v := FieldOf(c.key), c.data.value;
    if Agrees(e, schema, user, c) {
      forall x | FitsType(x, schema(f))
        ensures FindsPart(e, v, x) <==> AsksPartOf(v, x)
      {
        OneFieldConforms(schema, f, x);
        var d := WithValues(f, [x]);
        FoundByPart(e, user, c, d);
        assert ValuesOf(d, f)[0] == x;
        assert Found(e, user, c, d) <==> Holds(e, user, c, d);
      }
    }
    if forall x :: FitsType(x, schema(f)) ==> (FindsPart(e, v, x) <==> AsksPartOf(v, x)) {
      forall d | Conforms(schema, d)
        ensures Found(e, user, c, d) <==> Holds(e, user, c, d)
      {
        FoundByPart(e, user, c, d);
      }
    }
  }

  lemma WordsAreInNoNumber(s: Scalar, x: Stored)
    requires IsWord(s) && x.Num?
    ensures Form(s) != FormOf(x)
  {
    NumeralsHaveNoLetters(x.n);
  }

  /** One text with a letter in it. */
  lemma WildcardAgreesExactly(e: Engine, t: FieldType, s: Scalar)
    requires IsWord(s)
    ensures (forall x :: FitsType(x, t) ==> (FindsPart(e, One(s), x) <==> AsksPartOf(One(s), x)))
            <==> (t.TextField? ==> !Special(STARS, s.text))
  {
    assert !HasCased(STARS, s.text);
    FindsPartsExactly(STARS, s.text);
    forall x: Stored
      ensures AsksPartOf(One(s), x) <==> PartOf(s, x)
    {
      assert Scalars(One(s))[0] == s;
    }
    if t.TextField? && Special(STARS, s.text) {
      var v := FindsMore(STARS, s.text);
      assert FitsType(Str(v), t) && FindsPart(e, One(s), Str(v)) && !AsksPartOf(One(s), Str(v));
    } else {
      forall x | FitsType(x, t)
        ensures FindsPart(e, One(s), x) <==> AsksPartOf(One(s), x)
      {
        if x.Num? { WordsAreInNoNumber(s, x); }
      }
    }
  }

  lemma SmallestOf(lengths: seq<nat>) returns (k: nat)
    requires lengths != []
    ensures k < |lengths| && forall i :: 0 <= i < |lengths| ==> lengths[k] <= lengths[i]
  {
    k := 0;
    for n := 1 to |lengths|
      invariant k < n && forall i :: 0 <= i < n ==> lengths[k] <= lengths[i]
    {
      if lengths[n] < lengths[k] { k := n; }
    }
  }

  lemma ShortestOf(ss: seq<Scalar>) returns (k: nat)
    requires ss != []
    ensures k < |ss| && forall i :: 0 <= i < |ss| ==> |Form(ss[k])| <= |Form(ss[i])|
  {
    var lengths: seq<nat> := seq(|ss|, i requires 0 <= i < |ss| => |Form(ss[i])|);
    k := SmallestOf(lengths);
    assert forall i :: 0 <= i < |ss| ==> lengths[i] == |Form(ss[i])|;
  }

  /** A text without 'a' that is found in a text from one 'a' to another. */
  lemma PartInside(v: string, t: string, i: nat)
    requires |v| >= 2 && v[0] == 'a' && v[|v| - 1] == 'a' && 'a' !in t && t != ""
    requires i <= |v| && t <= v[i..]
    ensures 0 < i && i + |t| < |v| && t == v[i..i + |t|]
  {
    assert t[0] == v[i] && t[0] in t;
    assert t[|t| - 1] == v[i + |t| - 1] && t[|t| - 1] in t;
  }

  lemma PartBetweenLetters(s: string, t: string)
    requires !HasLetter(t) && Includes("a" + s + "a", t)
    ensures |t| <= |s| && (|t| == |s| ==> t == s)
  {
    var v := "a" + s + "a";
    if t != "" {
      var i :| 0 <= i <= |v| && t <= v[i..];
      assert 'a' !in t;
      PartInside(v, t, i);
      assert v[1..1 + |s|] == s;
    }
  }

  /** Without letters in the list, its shortest text is a part of a text that has none of the list as its terms. */
  lemma TermsMissParts(e: Engine, ss: seq<Scalar>) returns (v: string)
    requires Analyses(e) && ss != [] && !AnyWord(ss)
    ensures forall i :: 0 <= i < |ss| ==> Form(ss[i]) !in e.tokens(v)
    ensures exists i :: 0 <= i < |ss| && Includes(v, Form(ss[i]))
  {
    var k := ShortestOf(ss);
    var s := Form(ss[k]);
    v := "a" + s + "a";
    assert s <= v[1..] && Includes(v, s);
    forall i | 0 <= i < |ss|
      ensures Form(ss[i]) !in e.tokens(v)
    {
      FormOfWord(ss[i]);
      FormOfWord(ss[k]);
      if Form(ss[i]) in e.tokens(v) { PartBetweenLetters(s, Form(ss[i])); }
    }
  }

  lemma PartIsAsked(v: Value, i: nat, x: Stored)
    requires i < |Scalars(v)| && PartOf(Scalars(v)[i], x)
    ensures AsksPartOf(v, x)
  {
  }

  /** Values without a letter. */
  lemma TermsForPartsExactly(e: Engine, t: FieldType, v: Value)
    requires Analyses(e) && !v.Nil? && !AnyWord(Scalars(v))
    ensures (forall x :: FitsType(x, t) ==> (FindsPart(e, v, x) <==> AsksPartOf(v, x)))
            <==> (t.TextField? ==> Scalars(v) == [])
  {
    var ss := Scalars(v);
    forall x: Stored
      ensures FindsPart(e, v, x) <==> exists i :: 0 <= i < |ss| && Hits(e, false, ss[i], x)
    {
      if v.One? { assert ss[0] == v.scalar && !IsWord(v.scalar); }
    }
    if t.TextField? && ss != [] {
      var text := TermsMissParts(e, ss);
      var i :| 0 <= i < |ss| && Includes(text, Form(ss[i]));
      PartIsAsked(v, i, Str(text));
      assert forall k :: 0 <= k < |ss| ==> !Hits(e, false, ss[k], Str(text));
      assert FitsType(Str(text), t) && !FindsPart(e, v, Str(text));
    } else {
      forall x | FitsType(x, t)
        ensures FindsPart(e, v, x) <==> AsksPartOf(v, x)
      {
        assert forall i :: 0 <= i < |ss| ==> (Hits(e, false, ss[i], x) <==> PartOf(ss[i], x));
      }
    }
  }

  /** A list with a text that has a letter: nothing is found. */
  lemma ListWithWordExactly(e: Engine, t: FieldType, ss: seq<Scalar>)
    requires AnyWord(ss)
    ensures (forall x :: FitsType(x, t) ==> (FindsPart(e, Many(ss), x) <==> AsksPartOf(Many(ss), x)))
            <==> t.TimeField? || (t.NumberField? && !AnyNumeral(ss))
  {
    match t
    case TextField =>
      var i :| 0 <= i < |ss| && IsWord(ss[i]);
      PartAskedIn(ss, i, Str(ss[i].text));
      assert FitsType(Str(ss[i].text), t) && !FindsPart(e, Many(ss), Str(ss[i].text));
    case NumberField =>
      if AnyNumeral(ss) {
        var i :| 0 <= i < |ss| && IsNumeral(Form(ss[i]));
        NumeralIsNumber(ss[i]);
        PartAskedIn(ss, i, Num(Read(Form(ss[i]))));
        assert FitsType(Num(Read(Form(ss[i]))), t) && !FindsPart(e, Many(ss), Num(Read(Form(ss[i]))));
      } else {
        forall x | FitsType(x, t)
          ensures !AsksPartOf(Many(ss), x)
        {
          ReadOfNumeral(x.n);
        }
      }
    case TimeField =>
  }

  lemma PartAskedIn(ss: seq<Scalar>, i: nat, x: Stored)
    requires i < |ss| && Form(ss[i]) == FormOf(x)
    ensures AsksPartOf(Many(ss), x)
  {
    var f := FormOf(x);
    assert f[0..] == f && Includes(f, f);
    PartIsAsked(Many(ss), i, x);
  }

  lemma ContainsAgreesExactly(e: Engine, schema: Schema, user: Option<User>, c: Condition)
    requires Analyses(e) && c.data.operator.Contains?
    ensures Agrees(e, schema, user, c) <==> ContainsAgrees(schema(FieldOf(c.key)), c.data.value)
  {
    var t := schema(FieldOf(c.key));
    PartsAgreeExactly(e, schema, user, c);
    match c.data.value
    case Nil =>
    case One(s) =>
      if IsWord(s) { WildcardAgreesExactly(e, t, s); } else { TermsForPartsExactly(e, t, One(s)); }
    case Many(ss) =>
      if AnyWord(ss) { ListWithWordExactly(e, t, ss); } else { TermsForPartsExactly(e, t, Many(ss)); }
  }
}
