/** What the compiled queries mean, whatever the atomic clauses match. */
module SelectorMeaning {
  import opened Prelude
  import opened SelectorCompiler

  /** A document is found if all must clauses match it and none of the must_not clauses does. */
  ghost predicate Finds<D(!new)>(matches: (Clause, D) -> bool, q: Query, d: D) {
    && (forall c :: c in q.must ==> matches(c, d))
    && (forall c :: c in q.mustNot ==> !matches(c, d))
  }

  predicate Satisfies<D>(matches: (Clause, D) -> bool, p: Placed, d: D) {
    matches(p.clause, d) != p.negated
  }

  ghost predicate AllCompile(user: Option<User>, cs: seq<Condition>) {
    forall i :: 0 <= i < |cs| ==> CompileOne(user, cs[i]).Ok?
  }

  ghost predicate SatisfiesAll<D(!new)>(matches: (Clause, D) -> bool, user: Option<User>, cs: seq<Condition>, d: D) {
    forall i :: 0 <= i < |cs| ==> CompileOne(user, cs[i]).Ok? && Satisfies(matches, CompileOne(user, cs[i]).value, d)
  }

  /** A selector is accepted exactly if each of its conditions is. */
  lemma {:induction false} AcceptedExactly(user: Option<User>, cs: seq<Condition>)
    ensures CompileAll(user, cs).Ok? <==> AllCompile(user, cs)
  {
    if cs != [] {
      var n := |cs| - 1;
      AcceptedExactly(user, cs[..n]);
      if AllCompile(user, cs) {
        forall i | 0 <= i < n
          ensures CompileOne(user, cs[..n][i]).Ok?
        {
          assert cs[..n][i] == cs[i];
        }
      }
      if CompileAll(user, cs).Ok? {
        forall i | 0 <= i < |cs|
          ensures CompileOne(user, cs[i]).Ok?
        {
          if i < n { assert cs[..n][i] == cs[i]; }
        }
      }
    }
  }

  lemma FindsOneMore<D(!new)>(matches: (Clause, D) -> bool, q: Query, p: Placed, d: D)
    ensures Finds(matches, Added(q, p), d) <==> Finds(matches, q, d) && Satisfies(matches, p, d)
  {
    if p.negated {
      assert Added(q, p).mustNot == q.mustNot + [p.clause];
      assert p.clause in Added(q, p).mustNot;
    } else {
      assert Added(q, p).must == q.must + [p.clause];
      assert p.clause in Added(q, p).must;
    }
  }

  lemma SatisfiesOneMore<D(!new)>(matches: (Clause, D) -> bool, user: Option<User>, cs: seq<Condition>, d: D)
    requires cs != []
    ensures var n := |cs| - 1;
      SatisfiesAll(matches, user, cs, d)
      <==> SatisfiesAll(matches, user, cs[..n], d)
           && CompileOne(user, cs[n]).Ok? && Satisfies(matches, CompileOne(user, cs[n]).value, d)
  {
    var n := |cs| - 1;
    assert forall i :: 0 <= i < n ==> cs[..n][i] == cs[i];
  }

  /** Each condition gives one clause, and a document is found exactly if it satisfies all conditions. */
  lemma {:induction false} QueryMeansAllConditions<D(!new)>(matches: (Clause, D) -> bool, user: Option<User>,
                                                             cs: seq<Condition>, d: D)
    requires CompileAll(user, cs).Ok?
    ensures var q := CompileAll(user, cs).value;
      |q.must| + |q.mustNot| == |cs| && (Finds(matches, q, d) <==> SatisfiesAll(matches, user, cs, d))
  {
    if cs != [] {
      var n := |cs| - 1;
      QueryMeansAllConditions(matches, user, cs[..n], d);
      FindsOneMore(matches, CompileAll(user, cs[..n]).value, CompileOne(user, cs[n]).value, d);
      SatisfiesOneMore(matches, user, cs, d);
    }
  }

  /** With an aggregation the document also has to lie in its interval. */
  lemma AggregationNarrows<D(!new)>(matches: (Clause, D) -> bool, user: Option<User>, cs: seq<Condition>,
                                    a: Aggregation, d: D)
    requires CompileAll(user, cs).Ok?
    ensures Compile(user, cs, Some(a)).Ok?
    ensures Finds(matches, Compile(user, cs, Some(a)).value, d)
            <==> SatisfiesAll(matches, user, cs, d) && matches(Interval(a.field, a.since, a.until), d)
  {
    var q := CompileAll(user, cs).value;
    QueryMeansAllConditions(matches, user, cs, d);
    FindsOneMore(matches, q, Placed(Interval(a.field, a.since, a.until), false), d);
    assert Compile(user, cs, Some(a)).value == Added(q, Placed(Interval(a.field, a.since, a.until), false));
  }

  /** The order of the conditions does not matter. */
  lemma OrderIsIrrelevant<D(!new)>(matches: (Clause, D) -> bool, user: Option<User>, a: seq<Condition>,
                                   b: seq<Condition>, d: D)
    requires (forall c :: c in a <==> c in b) && CompileAll(user, a).Ok? && CompileAll(user, b).Ok?
    ensures Finds(matches, CompileAll(user, a).value, d) <==> Finds(matches, CompileAll(user, b).value, d)
  {
    QueryMeansAllConditions(matches, user, a, d);
    QueryMeansAllConditions(matches, user, b, d);
    if SatisfiesAll(matches, user, a, d) { SameConditions(matches, user, a, b, d); }
    if SatisfiesAll(matches, user, b, d) { SameConditions(matches, user, b, a, d); }
  }

  lemma SameConditions<D(!new)>(matches: (Clause, D) -> bool, user: Option<User>, a: seq<Condition>,
                                b: seq<Condition>, d: D)
    requires (forall c :: c in b ==> c in a) && SatisfiesAll(matches, user, a, d)
    ensures SatisfiesAll(matches, user, b, d)
  {
    forall i | 0 <= i < |b|
      ensures CompileOne(user, b[i]).Ok? && Satisfies(matches, CompileOne(user, b[i]).value, d)
    {
      assert b[i] in a;
      var j :| 0 <= j < |a| && a[j] == b[i];
    }
  }

  // ----- Operators and their negations -----

  function With(c: Condition, o: Operator): Condition {
    c.(data := c.data.(operator := o))
  }

  function Negation(o: Operator): Option<Operator> {
    match o
    case Is => Some(IsNot)
    case IsNot => Some(Is)
    case Contains => Some(ContainsNot)
    case ContainsNot => Some(Contains)
    case ContainsAll => Some(ContainsAllNot)
    case ContainsAllNot => Some(ContainsAll)
    case ContainsOne => Some(ContainsOneNot)
    case ContainsOneNot => Some(ContainsOne)
    case _ => None
  }

  function Flipped(r: Result<Placed, Error>): Result<Placed, Error> {
    match r
    case Ok(p) => Ok(p.(negated := !p.negated))
    case Err(e) => Err(e)
  }

  lemma EqualityFlips(user: Option<User>, c: Condition)
    requires c.data.operator.Is?
    ensures CompileOne(user, With(c, IsNot)) == Flipped(CompileOne(user, c))
  {
    var field := c.key.field;
    assert ComparedValue(user, field, With(c, IsNot).data) == ComparedValue(user, field, c.data);
  }

  lemma ContainsFlips(user: Option<User>, c: Condition)
    requires c.data.operator.Contains?
    ensures CompileOne(user, With(c, ContainsNot)) == Flipped(CompileOne(user, c))
  {
  }

  lemma WordsFlip(user: Option<User>, c: Condition)
    requires c.data.operator.ContainsAll? || c.data.operator.ContainsOne?
    ensures CompileOne(user, With(c, if c.data.operator.ContainsAll? then ContainsAllNot else ContainsOneNot))
            == Flipped(CompileOne(user, c))
  {
  }

  lemma PositiveFlips(user: Option<User>, c: Condition)
    requires c.data.operator in {Is, Contains, ContainsAll, ContainsOne}
    ensures CompileOne(user, With(c, Negation(c.data.operator).value)) == Flipped(CompileOne(user, c))
  {
    match c.data.operator
    case Is => EqualityFlips(user, c);
    case Contains => ContainsFlips(user, c);
    case _ => WordsFlip(user, c);
  }

  /** The negation of an operator gives the same clause on the other list. */
  lemma NegationFlips(user: Option<User>, c: Condition)
    requires Negation(c.data.operator).Some?
    ensures CompileOne(user, With(c, Negation(c.data.operator).value)) == Flipped(CompileOne(user, c))
  {
    if c.data.operator in {Is, Contains, ContainsAll, ContainsOne} {
      PositiveFlips(user, c);
    } else {
      var positive := With(c, Negation(c.data.operator).value);
      assert With(positive, c.data.operator) == c;
      PositiveFlips(user, positive);
    }
  }

  /**
   For every value and precondition, an operator and its negation are both accepted or both refused, and each
   document satisfies exactly one of them.
   */
  lemma NegationIsComplement<D>(matches: (Clause, D) -> bool, user: Option<User>, c: Condition, d: D)
    requires Negation(c.data.operator).Some?
    ensures var no := With(c, Negation(c.data.operator).value);
      match CompileOne(user, c)
      case Err(e) => CompileOne(user, no) == Err(e)
      case Ok(p) => CompileOne(user, no).Ok?
                    && (Satisfies(matches, p, d) <==> !Satisfies(matches, CompileOne(user, no).value, d))
  {
    NegationFlips(user, c);
  }

  // ----- Fields -----

  function FieldAskedBy(clause: Clause): string {
    match clause
    case Match(_, f, _, _) => f
    case Exists(f) => f
    case Range(f, _, _) => f
    case QueryString(f, _, _) => f
    case Interval(f, _, _) => f
  }

  /**
   The clause is about the field that the key names, table included, except for "not set" on another table than the
   ticket, which asks for a field of the ticket unless it is one for users.
   */
  lemma TableIsRespectedExactly(user: Option<User>, c: Condition)
    requires CompileOne(user, c).Ok?
    ensures FieldAskedBy(CompileOne(user, c).value.clause) == FieldOf(c.key)
            <==> c.key.table == "ticket"
                 || !(IsEquality(c.data.operator) && c.data.preCondition.NotSet? && !IsUserField(c.key.field))
  {
    if c.key.table != "ticket" {
      assert |FieldOf(c.key)| > |c.key.field|;
    }
    match c.data.operator
    case Is =>
    case IsNot =>
    case _ =>
  }

  // ----- What is refused -----

  predicate AsksForUser(c: Condition) {
    IsEquality(c.data.operator) && (c.data.preCondition.CurrentUserId? || c.data.preCondition.CurrentUserOrganization?)
  }

  predicate AsksForWords(o: Operator) {
    o.ContainsAll? || o.ContainsOne? || o.ContainsAllNot? || o.ContainsOneNot?
  }

  predicate IsText(v: Value) {
    v.One? && v.scalar.Text?
  }

  predicate IsRelative(o: Operator) {
    o.WithinLast? || o.WithinNext? || o.BeforeRelative? || o.AfterRelative? || o.TillRelative? || o.FromRelative?
  }

  /** A condition is refused exactly for one of these four reasons, and each has its error. */
  lemma RefusedExactly(user: Option<User>, c: Condition)
    ensures CompileOne(user, c) == Err(NoCurrentUser) <==> AsksForUser(c) && user.None?
    ensures CompileOne(user, c) == Err(NotAText) <==> AsksForWords(c.data.operator) && !IsText(c.data.value)
    ensures CompileOne(user, c) == Err(InvalidRange)
            <==> IsRelative(c.data.operator) && c.data.range !in {"minute", "hour", "day", "month", "year"}
    ensures CompileOne(user, c) == Err(UnknownOperator) <==> c.data.operator.Unknown?
  {
    match c.data.operator
    case Is =>
    case IsNot =>
    case _ =>
  }

  /** "not set" asks for user 1 exactly in the fields whose names begin as those of users do, and else for absence. */
  lemma NotSetAsksForUserOneExactly(user: Option<User>, c: Condition)
    requires c.data.preCondition.NotSet? && IsEquality(c.data.operator)
    ensures CompileOne(user, c).Ok?
    ensures var clause := CompileOne(user, c).value.clause;
      && (clause.Match? || clause.Exists?)
      && (clause.Match? <==> exists stem, rest :: stem in {"created_by", "updated_by", "owner", "customer", "user"}
                                                  && c.key.field == stem + "_id" + rest)
      && (clause.Match? ==> clause.operand == Plain(One(Number(1))))
  {
    UserFieldExactly(c.key.field);
  }

  lemma Begins(field: string, stem: string)
    ensures stem + "_id" <= field <==> exists rest :: field == stem + "_id" + rest
  {
    if stem + "_id" <= field { assert field == stem + "_id" + field[|stem| + 3..]; }
  }

  lemma UserFieldExactly(field: string)
    ensures IsUserField(field)
            <==> exists stem, rest :: stem in {"created_by", "updated_by", "owner", "customer", "user"}
                                      && field == stem + "_id" + rest
  {
    Begins(field, "created_by");
    Begins(field, "updated_by");
    Begins(field, "owner");
    Begins(field, "customer");
    Begins(field, "user");
    assert "created_by" + "_id" == "created_by_id" && "updated_by" + "_id" == "updated_by_id"
           && "owner" + "_id" == "owner_id" && "customer" + "_id" == "customer_id" && "user" + "_id" == "user_id";
  }

  /** The value itself, or one of a list. */
  predicate Listed(s: Scalar, v: Value) {
    v == One(s) || (v.Many? && s in v.scalars)
  }

  /** A text with a letter makes "contains" a wildcard clause, and a list makes the name of the clause a plural. */
  lemma ContainsKindExactly(user: Option<User>, c: Condition)
    requires c.data.operator.Contains? || c.data.operator.ContainsNot?
    ensures CompileOne(user, c).Ok? && CompileOne(user, c).value.clause.Match?
    ensures var clause := CompileOne(user, c).value.clause;
      && (clause.kind.Wildcard? || clause.kind.Wildcards? <==> clause.raw)
      && (clause.kind.Terms? || clause.kind.Wildcards? <==> c.data.value.Many?)
      && (clause.raw <==> exists s, i :: Listed(Text(s), c.data.value) && 0 <= i < |s| && 'A' <= s[i] <= 'z')
  {
    match c.data.value
    case Nil =>
    case One(x) =>
    case Many(xs) =>
      if HasWord(c.data.value) {
        var k :| 0 <= k < |xs| && IsWord(xs[k]);
        assert Text(xs[k].text) in xs;
      }
      if s, i :| Listed(Text(s), c.data.value) && 0 <= i < |s| && 'A' <= s[i] <= 'z' {
        var k :| 0 <= k < |xs| && xs[k] == Text(s);
        assert IsWord(xs[k]);
      }
  }

  // ----- The caller's selector -----

  predicate WrapsInPlace(c: Condition) {
    (c.data.operator.Contains? || c.data.operator.ContainsNot?) && c.data.value.Many? && HasWord(c.data.value)
  }

  lemma {:induction false} WrappingChanges(ss: seq<Scalar>)
    requires exists i :: 0 <= i < |ss| && IsWord(ss[i])
    ensures WrapFirst(ss) != ss
    ensures exists i :: 0 <= i < |WrapFirst(ss)| && IsWord(WrapFirst(ss)[i])
  {
    if IsWord(ss[0]) {
      var wrapped := WrapFirst(ss)[0];
      assert |wrapped.text| == |ss[0].text| + 2;
      var i :| 0 <= i < |ss[0].text| && 'A' <= ss[0].text[i] <= 'z';
      assert wrapped.text[i + 1] == ss[0].text[i];
      assert IsWord(wrapped);
    } else {
      var i :| 0 <= i < |ss| && IsWord(ss[i]);
      assert IsWord(ss[1..][i - 1]);
      WrappingChanges(ss[1..]);
      assert WrapFirst(ss)[1..] == WrapFirst(ss[1..]);
      var k :| 0 <= k < |WrapFirst(ss[1..])| && IsWord(WrapFirst(ss[1..])[k]);
      assert WrapFirst(ss)[k + 1] == WrapFirst(ss[1..])[k];
    }
  }

  /**
   Compiling a condition again gives the same result except for "contains" with a list that has a word in it: the
   first compilation has left its asterisks in the list, and the second one adds more.
   */
  lemma CompilingAgain(user: Option<User>, c: Condition)
    ensures LeftBehind(c) == c <==> !WrapsInPlace(c)
    ensures CompileOne(user, LeftBehind(c)) == CompileOne(user, c) <==> !WrapsInPlace(c)
  {
    if WrapsInPlace(c) {
      var ss := c.data.value.scalars;
      WrappingChanges(ss);
      WrappingChanges(WrapFirst(ss));
    }
  }
}
