/**
 app/models/ticket.rb, `selector2sql`: exactly when the database finds what the conditions ask for, for the same
 conditions as the search engine.
 */
module DatabaseSelectors {
  import opened Prelude
  import opened Texts
  import opened Decimal
  import opened Globs
  import opened SelectorCompiler
  import opened SelectorMeaning
  import opened SearchEngine
  import opened SelectorExactness
  import opened SelectorAgreement
  import opened DatabaseQueries

  function Small(c: char): char
    requires 'A' <= c <= 'Z'
  {
    (c as int + 32) as char
  }

  predicate HasPercent(t: string) {
    '%' in t
  }

  /**
   Capital and small letters are the same. A list as a text is longer than each of its texts, which stand in it in
   quotes, and its backslashes come in pairs: as a pattern it accepts a text that is longer too, without any '%'.
   */
  ghost predicate IsPostgres(db: Database) {
    && (forall c :: 'A' <= c <= 'Z' ==> db.fold(c) == db.fold(Small(c)))
    && (forall ss, i :: 0 <= i < |ss| && !HasPercent(Form(ss[i])) ==>
         |Form(ss[i])| < |Sample(LikeOf(db), db.listText(ss))|)
    && (forall ss :: !HasPercent(Sample(LikeOf(db), db.listText(ss))))
  }

  // ----- Conditions without a query -----

  /** Nothing is asked for, or in a way that is not known: an empty list, or a blank text to be contained. */
  predicate AsksNothing(c: Condition) {
    match c.data.preCondition
    case OtherPreCondition => true
    case NotSet => false
    case CurrentUserId => false
    case CurrentUserOrganization => false
    case _ =>
      match c.data.value
      case Many(ss) => |ss| == 0
      case Nil => c.data.operator.Contains? || c.data.operator.ContainsNot? || AsksForWords(c.data.operator)
      case One(Number(_)) => false
      case One(Text(t)) =>
        (c.data.operator.Contains? || c.data.operator.ContainsNot? || AsksForWords(c.data.operator))
        && forall i :: 0 <= i < |t| ==> IsSpace(t[i])
  }

  predicate KnownRange(range: string) {
    range in {"minute", "hour", "day", "month", "year"}
  }

  /** Which conditions are refused with which error, and which give no query. */
  lemma DatabaseRefusesExactly(db: Database, e: Engine, user: Option<User>, c: Condition)
    ensures var r := SqlOf(db, e, user, c);
      && (r == Ok(None) <==> AsksNothing(c) && !c.data.operator.Unknown?)
      && (r.Err? <==>
           || c.data.operator.Unknown?
           || (!AsksNothing(c)
               && (|| (AsksForUser(c) && user.None? && !AsksNullAsUser(c))
                   || (AsksForWords(c.data.operator) && !(c.key == Key("ticket", "tags") && IsText(c.data.value)))
                   || (IsRelative(c.data.operator) && !KnownRange(c.data.range)))))
  {
  }

  /** The database selects exactly the documents that the condition asks for. */
  ghost predicate SelectsRightly(db: Database, e: Engine, schema: Schema, user: Option<User>, c: Condition) {
    forall d :: Conforms(schema, d) && IsRow(d) ==> (Selects(db, e, user, c, d) <==> Holds(e, user, c, d))
  }

  lemma SelectsOtherwise(db: Database, e: Engine, schema: Schema, user: Option<User>, c: Condition, d: Document)
    requires Conforms(schema, d) && IsRow(d) && Selects(db, e, user, c, d) != Holds(e, user, c, d)
    ensures !SelectsRightly(db, e, schema, user, c)
  {
  }

  // ----- is, is not -----

  /** The list of values is empty or NULL, so that NOT IN is not true of anything. */
  predicate ListIsNull(user: Option<User>, c: Condition) {
    match c.data.preCondition
    case CurrentUserOrganization => user.Some? && user.value.organizationId.None?
    case CurrentUserId =>
      if c.key.field == REPLACEMENT then user.Some? && user.value.outOfOfficeFor == [] else user.None?
    case _ => false
  }

  /** What IN is true of. */
  lemma InExactly(d: Document, f: string, ss: seq<Scalar>)
    ensures InList(d, f, NonNull(ss)).Yes? <==> HasOneOf(ss, ValuesOf(d, f))
    ensures InList(d, f, NonNull(ss)).No? <==> Present(d, f) && ss != [] && !HasOneOf(ss, ValuesOf(d, f))
    ensures InList(d, f, [None]).Neither?
  {
    var list, xs := NonNull(ss), ValuesOf(d, f);
    if HasOneOf(ss, xs) {
      var i, j :| 0 <= i < |ss| && 0 <= j < |xs| && Form(ss[i]) == FormOf(xs[j]);
      assert list[i].Some? && Form(list[i].value) == FormOf(xs[j]);
    }
    if i, j :| 0 <= i < |list| && 0 <= j < |xs| && list[i].Some? && Form(list[i].value) == FormOf(xs[j]) {
      assert Form(ss[i]) == FormOf(xs[j]);
    }
  }

  /** What becomes of a list that is compared with, and of its absence. */
  lemma ListSelects(db: Database, d: Document, f: string, ss: seq<Scalar>)
    ensures Eval(db, InOrNotIn(f, NonNull(ss), false), d).Yes? <==> HasOneOf(ss, ValuesOf(d, f))
    ensures Eval(db, InOrNotIn(f, NonNull(ss), true), d).Yes?
            <==> !Present(d, f) || (ss != [] && !HasOneOf(ss, ValuesOf(d, f)))
    ensures !Eval(db, InOrNotIn(f, [None], false), d).Yes?
    ensures Eval(db, InOrNotIn(f, [None], true), d).Yes? <==> !Present(d, f)
  {
    InExactly(d, f, ss);
  }

  /** The same if the absence is asked for, too. */
  lemma ListOrAbsenceSelects(db: Database, d: Document, f: string, ss: seq<Scalar>)
    requires ss != []
    ensures Eval(db, Either(In(f, NonNull(ss)), IsNull(f)), d).Yes? <==> !Present(d, f) || HasOneOf(ss, ValuesOf(d, f))
    ensures Eval(db, Either(IsNull(f), In(f, NonNull(ss))), d).Yes? <==> !Present(d, f) || HasOneOf(ss, ValuesOf(d, f))
    ensures Eval(db, Both(IsNotNull(f), NotIn(f, NonNull(ss))), d).Yes?
            <==> Present(d, f) && !HasOneOf(ss, ValuesOf(d, f))
  {
    InExactly(d, f, ss);
  }

  /** What is selected if the condition gives this query. */
  lemma SelectsBy(db: Database, e: Engine, user: Option<User>, c: Condition, d: Document, q: Sql)
    requires IsEquality(c.data.operator) && !AsksNothing(c) && EqualitySql(user, c, c.data.operator.IsNot?) == Ok(q)
    ensures Selects(db, e, user, c, d) <==> Eval(db, q, d).Yes?
  {
    DatabaseRefusesExactly(db, e, user, c);
  }

  lemma SpecificSelects(db: Database, e: Engine, user: Option<User>, c: Condition, d: Document)
    requires IsEquality(c.data.operator) && IsSpecific(c) && !AsksNothing(c)
    ensures Selects(db, e, user, c, d)
            <==> if c.data.operator.Is? then AsksEquality(user, c, d) else !AsksEquality(user, c, d)
  {
    var f, ss := FieldOf(c.key), Scalars(c.data.value);
    SelectsBy(db, e, user, c, d, EqualitySql(user, c, c.data.operator.IsNot?).value);
    if !c.data.value.Nil? {
      assert c.data.value.One? ==> ss == [c.data.value.scalar];
      assert AsksEquality(user, c, d) <==> IsOneOf(ss, d, f);
      ListSelects(db, d, f, ss);
      ListOrAbsenceSelects(db, d, f, ss);
      assert !Present(d, f) ==> ValuesOf(d, f) == [];
    }
  }

  lemma NotSetSelects(db: Database, e: Engine, user: Option<User>, c: Condition, d: Document)
    requires IsEquality(c.data.operator) && c.data.preCondition.NotSet?
    ensures Selects(db, e, user, c, d)
            <==> if c.data.operator.Is? then AsksEquality(user, c, d) else !AsksEquality(user, c, d)
  {
    SelectsBy(db, e, user, c, d, EqualitySql(user, c, c.data.operator.IsNot?).value);
    ListOrAbsenceSelects(db, d, FieldOf(c.key), [Number(1)]);
  }

  /** "is not" the current user is not refused without one. */
  predicate AsksNullAsUser(c: Condition) {
    c.data.operator.IsNot? && c.data.preCondition.CurrentUserId? && c.key.field != REPLACEMENT
  }

  /** A condition with the current user: IN with a list of numbers, or with NULL. */
  lemma UserSelects(db: Database, e: Engine, user: Option<User>, c: Condition, d: Document)
    requires AsksForUser(c) && (user.Some? || AsksNullAsUser(c))
    ensures Selects(db, e, user, c, d)
            <==> if c.data.operator.Is? then AsksEquality(user, c, d)
                 else if ListIsNull(user, c) then !Present(d, ColumnOf(c))
                 else !AsksEquality(user, c, d)
  {
    var f := ColumnOf(c);
    ListSelects(db, d, f, []);
    match c.data.preCondition
    case CurrentUserId =>
      if user.None? { return; }
      var ids := if c.key.field == REPLACEMENT then user.value.outOfOfficeFor else [user.value.id];
      ListSelects(db, d, f, Numbers(ids));
      assert Numbers([user.value.id]) == [Number(user.value.id)];
      assert NonNull([Number(user.value.id)]) == OrNull(Some(user.value.id));
    case CurrentUserOrganization =>
      match user.value.organizationId
      case None =>
      case Some(o) =>
        ListSelects(db, d, f, [Number(o)]);
        assert NonNull([Number(o)]) == OrNull(Some(o));
  }

  /** "is" is always right; "is not" is right unless its list is empty or NULL. */
  lemma DatabaseEqualityExactly(db: Database, e: Engine, schema: Schema, user: Option<User>, c: Condition)
    requires IsEquality(c.data.operator) && !c.data.preCondition.OtherPreCondition?
    requires AsksForUser(c) ==> user.Some? || AsksNullAsUser(c)
    ensures SelectsRightly(db, e, schema, user, c)
            <==> c.data.operator.Is? || (!AsksNothing(c) && !ListIsNull(user, c))
  {
    if AsksNothing(c) {
      DatabaseRefusesExactly(db, e, user, c);
      if c.data.operator.IsNot? { SelectsOtherwise(db, e, schema, user, c, NOTHING); }
    } else if AsksForUser(c) && c.data.operator.IsNot? && ListIsNull(user, c) {
      var d := SomeValue(schema, ColumnOf(c), 0);
      SomeValueIsARow(schema, ColumnOf(c));
      UserSelects(db, e, user, c, d);
      SelectsOtherwise(db, e, schema, user, c, d);
    } else {
      forall d | Conforms(schema, d) && IsRow(d)
        ensures Selects(db, e, user, c, d) <==> Holds(e, user, c, d)
      {
        if AsksForUser(c) { UserSelects(db, e, user, c, d); }
        else if c.data.preCondition.NotSet? { NotSetSelects(db, e, user, c, d); }
        else { SpecificSelects(db, e, user, c, d); }
      }
    }
  }

  lemma SomeValueIsARow(schema: Schema, f: string)
    ensures IsRow(SomeValue(schema, f, 0))
  {
  }

  // ----- Times -----

  /** Some time is asked for. */
  ghost predicate AsksSomeTime(e: Engine, c: Condition) {
    exists t :: AsksTime(e, c, t)
  }

  lemma AbsoluteTimeSelects(db: Database, e: Engine, user: Option<User>, c: Condition, d: Document)
    requires (c.data.operator.BeforeAbsolute? || c.data.operator.AfterAbsolute?) && !AsksNothing(c)
    ensures Selects(db, e, user, c, d) <==> Holds(e, user, c, d)
  {
  }

  lemma RelativeTimeSelects(db: Database, e: Engine, user: Option<User>, c: Condition, d: Document)
    requires IsRelative(c.data.operator) && !AsksNothing(c) && KnownRange(c.data.range)
    ensures Selects(db, e, user, c, d) <==> Holds(e, user, c, d)
  {
    var q := RelativeSql(e, c);
    assert SqlOf(db, e, user, c) == Ok(Some(q.value));
  }

  lemma TimeSelects(db: Database, e: Engine, user: Option<User>, c: Condition, d: Document)
    requires IsTime(c.data.operator) && !AsksNothing(c) && (IsRelative(c.data.operator) ==> KnownRange(c.data.range))
    ensures Selects(db, e, user, c, d) <==> Holds(e, user, c, d)
  {
    if IsRelative(c.data.operator) {
      RelativeTimeSelects(db, e, user, c, d);
    } else {
      AbsoluteTimeSelects(db, e, user, c, d);
    }
  }

  /** All operators on times are right, ends included, unless the range is unknown or the list of values is empty. */
  lemma DatabaseTimesExactly(db: Database, e: Engine, schema: Schema, user: Option<User>, c: Condition)
    requires IsTime(c.data.operator)
    ensures SelectsRightly(db, e, schema, user, c)
            <==> (!AsksNothing(c) && (IsRelative(c.data.operator) ==> KnownRange(c.data.range)))
                 || !schema(FieldOf(c.key)).TimeField? || !AsksSomeTime(e, c)
  {
    var f := FieldOf(c.key);
    DatabaseRefusesExactly(db, e, user, c);
    if !AsksNothing(c) && (IsRelative(c.data.operator) ==> KnownRange(c.data.range)) {
      forall d | Conforms(schema, d) && IsRow(d)
        ensures Selects(db, e, user, c, d) <==> Holds(e, user, c, d)
      {
        TimeSelects(db, e, user, c, d);
      }
    } else if schema(f).TimeField? && AsksSomeTime(e, c) {
      var t :| AsksTime(e, c, t);
      var d := WithTime(f, t);
      assert f in d.times && d.times[f] == t;
      SelectsOtherwise(db, e, schema, user, c, d);
    }
  }

  // ----- contains, contains not -----

  lemma LettersAreCased(db: Database, t: string, i: nat)
    requires IsPostgres(db) && i < |t| && ('A' <= t[i] <= 'Z' || 'a' <= t[i] <= 'z')
    ensures HasCased(LikeOf(db), t)
  {
    var c := t[i];
    if c <= 'Z' {
      assert Small(c) != c && LikeOf(db).fold(Small(c)) == LikeOf(db).fold(c);
    } else {
      var capital := (c as int - 32) as char;
      assert Small(capital) == c && LikeOf(db).fold(capital) == LikeOf(db).fold(c);
    }
    assert Cased(LikeOf(db), t[i]);
  }

  predicate HasLikeWildcard(t: string) {
    exists i :: 0 <= i < |t| && (t[i] == '%' || t[i] == '_' || t[i] == '\\')
  }

  /** The value is LIKE the text between two '%'. */
  predicate IsLike(db: Database, v: Value, x: Stored) {
    x.Str? && Glob(LikeOf(db), "%" + (LikeText(db, v) + "%"), x.text)
  }

  /** A text is found where it is a part if it has no wildcard of LIKE and no letter that has a capital. */
  ghost predicate LikeIsRight(db: Database, t: FieldType, c: Condition) {
    match t
    case TextField =>
      if AsksNothing(c) then Scalars(c.data.value) == []
      else
        c.data.value.One?
        && !HasLikeWildcard(Form(c.data.value.scalar)) && !HasCased(LikeOf(db), Form(c.data.value.scalar))
    case NumberField => !AnyNumeral(Scalars(c.data.value))
    case TimeField => true
  }

  /** What LIKE makes of the value of a column. */
  lemma LikeExactly(db: Database, v: Value, d: Document, f: string)
    requires IsRow(d) && f != "tags"
    ensures var xs := ValuesOf(d, f);
      var t := LikePattern(db, d, f, "%" + (LikeText(db, v) + "%"));
      && (t.Yes? <==> exists j :: 0 <= j < |xs| && IsLike(db, v, xs[j]))
      && (t.Neither? <==> forall j :: 0 <= j < |xs| ==> !xs[j].Str?)
  {
    var xs := ValuesOf(d, f);
    assert |xs| <= 1;
    if xs != [] {
      assert IsLike(db, v, xs[0]) ==> exists j :: 0 <= j < |xs| && IsLike(db, v, xs[j]);
    }
  }

  lemma SelectedByLike(db: Database, e: Engine, user: Option<User>, c: Condition, d: Document)
    requires c.data.operator.Contains? || c.data.operator.ContainsNot?
    ensures var t := LikePattern(db, d, FieldOf(c.key), "%" + (LikeText(db, c.data.value) + "%"));
      Selects(db, e, user, c, d) <==> !AsksNothing(c) && if c.data.operator.Contains? then t.Yes? else t.No?
  {
    DatabaseRefusesExactly(db, e, user, c);
  }

  lemma SelectedByPart(db: Database, e: Engine, user: Option<User>, c: Condition, d: Document)
    requires c.data.operator.Contains? && IsRow(d) && FieldOf(c.key) != "tags"
    ensures var xs := ValuesOf(d, FieldOf(c.key));
      && (Selects(db, e, user, c, d)
          <==> !AsksNothing(c) && exists j :: 0 <= j < |xs| && IsLike(db, c.data.value, xs[j]))
      && (Holds(e, user, c, d) <==> exists j :: 0 <= j < |xs| && AsksPartOf(c.data.value, xs[j]))
  {
    AskedByPart(c.data.value, ValuesOf(d, FieldOf(c.key)));
    SelectedByLike(db, e, user, c, d);
    LikeExactly(db, c.data.value, d, FieldOf(c.key));
  }

  /** "contains not" selects the rows that have a text which "contains" does not select. */
  lemma DatabaseContainsNotOn(db: Database, e: Engine, user: Option<User>, c: Condition, d: Document)
    requires c.data.operator.ContainsNot? && IsRow(d) && FieldOf(c.key) != "tags"
    ensures var xs := ValuesOf(d, FieldOf(c.key));
      Selects(db, e, user, c, d)
      <==> !AsksNothing(c) && (exists j :: 0 <= j < |xs| && xs[j].Str?) && !Selects(db, e, user, With(c, Contains), d)
  {
    SelectedByLike(db, e, user, c, d);
    SelectedByLike(db, e, user, With(c, Contains), d);
    LikeExactly(db, c.data.value, d, FieldOf(c.key));
    assert AsksNothing(With(c, Contains)) <==> AsksNothing(c);
  }

  /** One value on which the database differs. */
  lemma ValueDiffers(db: Database, e: Engine, schema: Schema, user: Option<User>, c: Condition, x: Stored)
    requires c.data.operator.Contains? && FitsType(x, schema(FieldOf(c.key))) && FieldOf(c.key) != "tags"
    requires (!AsksNothing(c) && IsLike(db, c.data.value, x)) != AsksPartOf(c.data.value, x)
    ensures !SelectsRightly(db, e, schema, user, c)
  {
    var f := FieldOf(c.key);
    OneFieldConforms(schema, f, x);
    SelectedByPart(db, e, user, c, WithValues(f, [x]));
    assert ValuesOf(WithValues(f, [x]), f)[0] == x;
    SelectsOtherwise(db, e, schema, user, c, WithValues(f, [x]));
  }

  lemma OnlyTagsAreTags(key: Key)
    ensures FieldOf(key) == "tags" <==> key == TAGS
  {
    if key.table != "ticket" {
      assert FieldOf(key)[|key.table|] == '.';
      assert '.' in FieldOf(key) && '.' !in "tags";
    }
  }

  lemma WildcardsAreSpecial(db: Database, t: string)
    ensures HasLikeWildcard(t) <==> Special(LikeOf(db), t)
  {
    if i :| 0 <= i < |t| && (t[i] == '%' || t[i] == '_' || t[i] == '\\') {
      assert IsSpecial(LikeOf(db), t[i]);
    }
  }

  lemma NoPartWithoutPercent(t: string, v: string)
    requires HasPercent(t) && !HasPercent(v)
    ensures !Includes(v, t)
  {
    forall i | 0 <= i <= |v|
      ensures !(t <= v[i..])
    {
      var k :| 0 <= k < |t| && t[k] == '%';
      assert forall j :: 0 <= j < |v| ==> v[j] != '%';
      assert k < |v[i..]| ==> v[i..][k] == v[i + k];
    }
  }

  /** The text of a list is not found where one of its texts is a part. */
  lemma ListDiffers(db: Database, ss: seq<Scalar>) returns (v: string)
    requires IsPostgres(db)
    ensures IsLike(db, Many(ss), Str(v)) != AsksPartOf(Many(ss), Str(v))
  {
    var w, text := LikeOf(db), db.listText(ss);
    if i :| 0 <= i < |ss| && !HasPercent(Form(ss[i])) {
      v := Form(ss[i]);
      PartAskedIn(ss, i, Str(v));
      if Glob(w, Around(w, text), v) { NothingShorterAround(w, text, v); }
    } else {
      v := Sample(w, text);
      SampleMatchesAround(w, text);
      forall i | 0 <= i < |ss|
        ensures !PartOf(Scalars(Many(ss))[i], Str(v))
      {
        NoPartWithoutPercent(Form(ss[i]), v);
      }
    }
  }

  lemma TextLikeExactly(db: Database, e: Engine, schema: Schema, user: Option<User>, c: Condition)
    requires IsPostgres(db) && c.data.operator.Contains? && schema(FieldOf(c.key)).TextField?
    requires FieldOf(c.key) != "tags"
    ensures SelectsRightly(db, e, schema, user, c) <==> LikeIsRight(db, TextField, c)
  {
    var w, v := LikeOf(db), c.data.value;
    if AsksNothing(c) {
      if Scalars(v) != [] {
        var s := Form(Scalars(v)[0]);
        assert s[0..] == s && Includes(s, s);
        PartIsAsked(v, 0, Str(s));
        ValueDiffers(db, e, schema, user, c, Str(s));
      }
    } else {
      match v
      case Nil =>
        SampleMatchesAround(w, "");
        ValueDiffers(db, e, schema, user, c, Str(""));
      case Many(ss) =>
        var text := ListDiffers(db, ss);
        ValueDiffers(db, e, schema, user, c, Str(text));
      case One(s) => OneLikeExactly(db, e, schema, user, c);
    }
  }

  lemma OneLikeExactly(db: Database, e: Engine, schema: Schema, user: Option<User>, c: Condition)
    requires IsPostgres(db) && c.data.operator.Contains? && schema(FieldOf(c.key)).TextField?
    requires FieldOf(c.key) != "tags"
    requires !AsksNothing(c) && c.data.value.One?
    ensures SelectsRightly(db, e, schema, user, c) <==> LikeIsRight(db, TextField, c)
  {
    var w, t := LikeOf(db), Form(c.data.value.scalar);
    forall x: Stored
      ensures AsksPartOf(c.data.value, x) <==> PartOf(c.data.value.scalar, x)
    {
      assert Scalars(c.data.value)[0] == c.data.value.scalar;
    }
    WildcardsAreSpecial(db, t);
    if Special(w, t) || HasCased(w, t) {
      var v := FindsMore(w, t);
      ValueDiffers(db, e, schema, user, c, Str(v));
    } else {
      FindsPartsExactly(w, t);
      forall d | Conforms(schema, d) && IsRow(d)
        ensures Selects(db, e, user, c, d) <==> Holds(e, user, c, d)
      {
        SelectedByPart(db, e, user, c, d);
      }
    }
  }

  lemma OtherLikeExactly(db: Database, e: Engine, schema: Schema, user: Option<User>, c: Condition)
    requires c.data.operator.Contains? && !schema(FieldOf(c.key)).TextField? && FieldOf(c.key) != "tags"
    ensures SelectsRightly(db, e, schema, user, c) <==> LikeIsRight(db, schema(FieldOf(c.key)), c)
  {
    var t, ss := schema(FieldOf(c.key)), Scalars(c.data.value);
    if t.NumberField? && AnyNumeral(ss) {
      var i :| 0 <= i < |ss| && IsNumeral(Form(ss[i]));
      NumeralIsNumber(ss[i]);
      PartIsAsked(c.data.value, i, Num(Read(Form(ss[i]))));
      ValueDiffers(db, e, schema, user, c, Num(Read(Form(ss[i]))));
    } else {
      forall d | Conforms(schema, d) && IsRow(d)
        ensures Selects(db, e, user, c, d) <==> Holds(e, user, c, d)
      {
        SelectedByPart(db, e, user, c, d);
        NothingInOtherFields(c.data.value, t, ValuesOf(d, FieldOf(c.key)));
      }
    }
  }

  lemma NothingInOtherFields(v: Value, t: FieldType, xs: seq<Stored>)
    requires !t.TextField? && (t.NumberField? ==> !AnyNumeral(Scalars(v)))
    requires forall j :: 0 <= j < |xs| ==> FitsType(xs[j], t)
    ensures forall j :: 0 <= j < |xs| ==> xs[j].Num? && !AsksPartOf(v, xs[j])
  {
    forall j | 0 <= j < |xs|
      ensures xs[j].Num? && !AsksPartOf(v, xs[j])
    {
      ReadOfNumeral(xs[j].n);
    }
  }

  /** "contains" is right exactly under this condition, and "contains not" never, as it does not find absent fields. */
  lemma DatabaseContainsExactly(db: Database, e: Engine, schema: Schema, user: Option<User>, c: Condition)
    requires IsPostgres(db) && (c.data.operator.Contains? || c.data.operator.ContainsNot?) && c.key != TAGS
    ensures SelectsRightly(db, e, schema, user, c)
            <==> c.data.operator.Contains? && LikeIsRight(db, schema(FieldOf(c.key)), c)
  {
    OnlyTagsAreTags(c.key);
    if c.data.operator.ContainsNot? {
      DatabaseContainsNotOn(db, e, user, c, NOTHING);
      SelectsOtherwise(db, e, schema, user, c, NOTHING);
    } else if schema(FieldOf(c.key)).TextField? {
      TextLikeExactly(db, e, schema, user, c);
    } else {
      OtherLikeExactly(db, e, schema, user, c);
    }
  }

  // ----- Tags -----

  function SetOf(words: seq<string>): set<string> {
    set word | word in words
  }

  /** A list with a word twice is longer than the number of tags it can match; "not all" is taken for "none". */
  predicate TagsAreRight(c: Condition)
    requires IsText(c.data.value)
  {
    var words := Words(TextOf(c));
    match c.data.operator
    case ContainsAll => !AsksNothing(c) && |SetOf(words)| == |words|
    case ContainsOne => AsksNothing(c) ==> words == []
    case ContainsAllNot => if AsksNothing(c) then words == [] else |SetOf(words)| == 1
    case _ => !AsksNothing(c)
  }

  lemma ListedTags(words: seq<string>, xs: seq<Stored>)
    ensures TagsListed(words, xs) <= |SetOf(words)|
    ensures TagsListed(words, xs) == |SetOf(words)| <==> HasAllWords(words, xs)
    ensures TagsListed(words, xs) == 0 <==> !HasOneWord(words, xs)
  {
    var listed := set word | word in words && HasWordAmong(word, xs);
    assert listed <= SetOf(words);
    SubsetSizes(listed, SetOf(words));
    if HasAllWords(words, xs) {
      assert listed == SetOf(words);
    }
    if listed == SetOf(words) {
      forall i | 0 <= i < |words|
        ensures HasWordAmong(words[i], xs)
      {
        assert words[i] in SetOf(words);
      }
    }
    if HasOneWord(words, xs) {
      var i :| 0 <= i < |words| && HasWordAmong(words[i], xs);
      assert words[i] in listed;
    }
    if listed != {} {
      var word :| word in listed;
      var i :| 0 <= i < |words| && words[i] == word;
      assert HasWordAmong(words[i], xs);
    }
  }

  lemma SubsetSizes<T>(a: set<T>, b: set<T>)
    requires a <= b
    ensures |a| <= |b| && (|a| == |b| ==> a == b)
  {
    assert b == a + (b - a) && |b| == |a| + |b - a|;
  }

  lemma {:induction false} SetIsNotLarger(words: seq<string>)
    ensures |SetOf(words)| <= |words| && (words != [] ==> |SetOf(words)| > 0)
  {
    if words != [] {
      var n := |words| - 1;
      SetIsNotLarger(words[..n]);
      assert SetOf(words) == SetOf(words[..n]) + {words[n]};
    }
  }

  lemma TagsSelected(db: Database, e: Engine, user: Option<User>, c: Condition, d: Document)
    requires AsksForWords(c.data.operator) && c.key == TAGS && IsText(c.data.value)
    ensures var words, xs := Words(TextOf(c)), ValuesOf(d, "tags");
      Selects(db, e, user, c, d)
      <==> !AsksNothing(c)
           && match c.data.operator
              case ContainsAll => HasAllWords(words, xs) && |SetOf(words)| == |words|
              case ContainsOne => HasOneWord(words, xs)
              case _ => !HasOneWord(words, xs)
  {
    ListedTags(Words(TextOf(c)), ValuesOf(d, "tags"));
    SetIsNotLarger(Words(TextOf(c)));
    DatabaseRefusesExactly(db, e, user, c);
    if !AsksNothing(c) {
      assert SqlOf(db, e, user, c) == Ok(Some(TagsSql(c).value));
    }
  }

  lemma TagsAsked(e: Engine, user: Option<User>, c: Condition, d: Document)
    requires AsksForWords(c.data.operator) && c.key == TAGS && IsText(c.data.value)
    ensures var words, xs := Words(TextOf(c)), ValuesOf(d, "tags");
      Holds(e, user, c, d)
      <==> match c.data.operator
           case ContainsAll => HasAllWords(words, xs)
           case ContainsOne => HasOneWord(words, xs)
           case ContainsAllNot => !HasAllWords(words, xs)
           case _ => !HasOneWord(words, xs)
  {
  }

  /** One tag only. */
  lemma OneTag(schema: Schema, word: string) returns (d: Document)
    requires schema("tags").TextField?
    ensures Conforms(schema, d) && IsRow(d) && forall w :: HasWordAmong(w, ValuesOf(d, "tags")) <==> w == word
  {
    d := WithValues("tags", [Str(word)]);
    OneFieldConforms(schema, "tags", Str(word));
    assert FormOf([Str(word)][0]) == word;
  }

  lemma SameWordsAreOne(words: seq<string>)
    requires words != [] && AllTheSame(words)
    ensures |SetOf(words)| == 1
  {
    assert SetOf(words) == {words[0]};
  }

  /** With at least two different words, a document with one of them has neither all nor none. */
  lemma SomeButNotAll(schema: Schema, words: seq<string>) returns (d: Document)
    requires schema("tags").TextField? && |SetOf(words)| > 1
    ensures Conforms(schema, d) && IsRow(d)
    ensures HasOneWord(words, ValuesOf(d, "tags")) && !HasAllWords(words, ValuesOf(d, "tags"))
  {
    assert words != [];
    d := OneTag(schema, words[0]);
    assert HasWordAmong(words[0], ValuesOf(d, "tags"));
    if AllTheSame(words) { SameWordsAreOne(words); }
    var i :| 0 <= i < |words| && words[i] != words[0];
    assert !HasWordAmong(words[i], ValuesOf(d, "tags"));
  }

  lemma OneWordIsAll(words: seq<string>, xs: seq<Stored>)
    requires |SetOf(words)| == 1
    ensures HasOneWord(words, xs) <==> HasAllWords(words, xs)
  {
    assert words != [];
    forall i | 0 <= i < |words|
      ensures words[i] == words[0]
    {
      assert {words[0], words[i]} <= SetOf(words);
      SubsetSizes({words[0], words[i]}, SetOf(words));
    }
    if HasAllWords(words, xs) { assert HasWordAmong(words[0], xs); }
  }

  lemma DatabaseTagsExactly(db: Database, e: Engine, schema: Schema, user: Option<User>, c: Condition)
    requires AsksForWords(c.data.operator) && c.key == TAGS && IsText(c.data.value) && schema("tags").TextField?
    ensures SelectsRightly(db, e, schema, user, c) <==> TagsAreRight(c)
  {
    var words := Words(TextOf(c));
    if TagsAreRight(c) {
      forall d | Conforms(schema, d) && IsRow(d)
        ensures Selects(db, e, user, c, d) <==> Holds(e, user, c, d)
      {
        TagsSelected(db, e, user, c, d);
        TagsAsked(e, user, c, d);
        if c.data.operator.ContainsAllNot? && !AsksNothing(c) { OneWordIsAll(words, ValuesOf(d, "tags")); }
      }
    } else {
      var d := WrongTags(schema, c);
      TagsSelected(db, e, user, c, d);
      TagsAsked(e, user, c, d);
      SelectsOtherwise(db, e, schema, user, c, d);
    }
  }

  /** Tags for which the database is wrong. */
  lemma WrongTags(schema: Schema, c: Condition) returns (d: Document)
    requires AsksForWords(c.data.operator) && c.key == TAGS && IsText(c.data.value) && schema("tags").TextField?
    requires !TagsAreRight(c)
    ensures Conforms(schema, d) && IsRow(d)
    ensures var words, xs := Words(TextOf(c)), ValuesOf(d, "tags");
      match c.data.operator
      case ContainsAll => HasAllWords(words, xs)
      case ContainsOne => HasOneWord(words, xs)
      case ContainsAllNot =>
        if AsksNothing(c) then !HasAllWords(words, xs) else HasOneWord(words, xs) == !HasAllWords(words, xs)
      case _ => !HasOneWord(words, xs)
  {
    var words := Words(TextOf(c));
    d := NOTHING;
    SetIsNotLarger(words);
    match c.data.operator
    case ContainsAll => if words != [] { d := JustTheWords(schema, "tags", words); }
    case ContainsOne => d := JustTheWords(schema, "tags", words);
    case ContainsAllNot =>
      if words != [] {
        if AsksNothing(c) { assert !HasWordAmong(words[0], []); } else { d := SomeButNotAll(schema, words); }
      }
    case ContainsOneNot =>
  }

  // ----- Whole selectors -----

  /** A whole selector selects a row exactly if each of its conditions does. */
  lemma {:induction false} SelectedExactlyByAll(db: Database, e: Engine, user: Option<User>, cs: seq<Condition>,
                                                d: Document)
    ensures SelectsAll(db, e, user, cs, d) <==> forall i :: 0 <= i < |cs| ==> Selects(db, e, user, cs[i], d)
  {
    if cs != [] {
      SelectedExactlyByAll(db, e, user, cs[1..], d);
      assert forall i :: 1 <= i < |cs| ==> cs[i] == cs[1..][i - 1];
      if forall i :: 0 <= i < |cs| ==> Selects(db, e, user, cs[i], d) {
        assert Selects(db, e, user, cs[0], d);
        forall i | 0 <= i < |cs[1..]|
          ensures Selects(db, e, user, cs[1..][i], d)
        {
          assert cs[1..][i] == cs[i + 1];
        }
      }
    }
  }

  /** The first condition without a query decides: its error is raised, or nothing is found. */
  lemma {:induction false} FirstWithoutQueryDecides(db: Database, e: Engine, user: Option<User>, cs: seq<Condition>,
                                                    k: nat)
    requires k < |cs| && (SqlOf(db, e, user, cs[k]).Err? || SqlOf(db, e, user, cs[k]).value.None?)
    requires forall i :: 0 <= i < k ==> SqlOf(db, e, user, cs[i]).Ok? && SqlOf(db, e, user, cs[i]).value.Some?
    ensures match SqlOf(db, e, user, cs[k])
      case Err(error) => SqlOfAll(db, e, user, cs) == Err(error)
      case Ok(_) => SqlOfAll(db, e, user, cs) == Ok(None)
  {
    if k > 0 {
      assert SqlOf(db, e, user, cs[0]).Ok?;
      FirstWithoutQueryDecides(db, e, user, cs[1..], k - 1);
    }
  }

  /** Where both are right on all conditions, a row is found by the engine exactly if the database selects it. */
  lemma BothFindTheSame(db: Database, e: Engine, schema: Schema, user: Option<User>, cs: seq<Condition>, d: Document)
    requires CompileAll(user, cs).Ok? && Conforms(schema, d) && IsRow(d)
    requires forall i :: 0 <= i < |cs| ==>
               Agrees(e, schema, user, cs[i]) && SelectsRightly(db, e, schema, user, cs[i])
    ensures FoundByQuery(e, CompileAll(user, cs).value, d) <==> SelectsAll(db, e, user, cs, d)
  {
    FoundExactlyByAll(e, user, cs, d);
    SelectedExactlyByAll(db, e, user, cs, d);
    forall i | 0 <= i < |cs|
      ensures Found(e, user, cs[i], d) <==> Selects(db, e, user, cs[i], d)
    {
      assert Found(e, user, cs[i], d) <==> Holds(e, user, cs[i], d);
    }
  }
}
