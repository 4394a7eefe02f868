/**
 lib/search_index_backend.rb, `selector2query`: the conditions of a selector are compiled to a bool query of the
 search engine. What an atomic clause matches is the engine's affair.
 */
module SelectorCompiler {
  import opened Prelude
  import opened Splitting
  import opened Texts

  // ----- Selectors -----

  datatype Scalar = Text(text: string) | Number(n: int)

  datatype Value = Nil | One(scalar: Scalar) | Many(scalars: seq<Scalar>)

  datatype Operator =
    | Is | IsNot | Contains | ContainsNot
    | ContainsAll | ContainsOne | ContainsAllNot | ContainsOneNot
    | WithinLast | WithinNext | BeforeRelative | AfterRelative | TillRelative | FromRelative
    | BeforeAbsolute | AfterAbsolute
    | Unknown(text: string)

  datatype PreCondition =
    | NoPreCondition | Specific | NotSet | CurrentUserId | CurrentUserOrganization | OtherPreCondition

  datatype Data = Data(operator: Operator, preCondition: PreCondition, value: Value, range: string)

  /** The table and the field of a selector key; see ParsedKey. */
  datatype Key = Key(table: string, field: string)

  /** One entry of the selector hash. */
  datatype Condition = Condition(key: Key, data: Data)

  datatype User = User(id: int, organizationId: Option<int>, outOfOfficeFor: seq<int>)

  // ----- Queries -----

  datatype Kind = Term | Terms | Wildcard | Wildcards

  datatype Relation = Gte | Lt | Gt

  /** What a term clause compares with; the ids of several users end up as a list inside the list (line 528). */
  datatype Operand = Plain(value: Value) | Nested(ids: seq<int>)

  /** A point in time: some units before or after now, or an absolute value. */
  datatype Point = Ago(amount: Value, unit: char) | Ahead(amount: Value, unit: char) | At(value: Value)

  /** `raw` asks for the `.keyword` sub-field, the whole text as it is. */
  datatype Clause =
    | Match(kind: Kind, field: string, raw: bool, operand: Operand)
    | Exists(field: string)
    | Range(field: string, relation: Relation, point: Point)
    | QueryString(field: string, words: seq<string>, all: bool)
    | Interval(field: string, since: int, until: int)

  /** A clause for the must or the must_not list. */
  datatype Placed = Placed(clause: Clause, negated: bool)

  datatype Error = NoCurrentUser | NotAText | InvalidRange | UnknownOperator

  datatype Query = Query(must: seq<Clause>, mustNot: seq<Clause>)

  // ----- Parts of the compilation -----

  /** `%r{[A-z]}`, which also takes in the six characters between 'Z' and 'a'. */
  predicate HasLetter(s: string) {
    exists i :: 0 <= i < |s| && 'A' <= s[i] <= 'z'
  }

  predicate IsWord(s: Scalar) {
    s.Text? && HasLetter(s.text)
  }

  /** Keys are written as `table.field`, or as `field` for the ticket itself. */
  function ParsedKey(text: string): Key {
    var parts := Split(text, '.');
    if |parts| < 2 || Blank(parts[1]) then Key("ticket", if parts == [] then "" else parts[0])
    else Key(parts[0], parts[1])
  }

  lemma KeyParts(table: string, field: string)
    requires Free(table, '.') && Free(field, '.') && !Blank(field)
    ensures ParsedKey(table + ['.'] + field) == Key(table, field)
    ensures ParsedKey(field) == Key("ticket", field)
  {
    FirstPiece(table, '.', field);
    OnePiece(field, '.');
    assert Split(table + ['.'] + field, '.') == [table, field];
    assert Split(field, '.') == [field];
  }

  predicate IsUserField(field: string) {
    "created_by_id" <= field || "updated_by_id" <= field || "owner_id" <= field || "customer_id" <= field
    || "user_id" <= field
  }

  predicate IsEquality(o: Operator) {
    o.Is? || o.IsNot?
  }

  predicate HasWord(v: Value) {
    match v
    case Many(ss) => exists i :: 0 <= i < |ss| && IsWord(ss[i])
    case One(s) => IsWord(s)
    case Nil => false
  }

  /** The value that an equality compares with, and whether it has become a list (line 525). */
  function ComparedValue(user: Option<User>, field: string, d: Data): Result<(Operand, bool), Error> {
    match d.preCondition
    case NotSet => Ok((Plain(if IsUserField(field) then One(Number(1)) else Nil), false))
    case CurrentUserId =>
      if user.None? then Err(NoCurrentUser)
      else if field == "out_of_office_replacement_id" then Ok((Nested(user.value.outOfOfficeFor), true))
      else Ok((Plain(Many([Number(user.value.id)])), true))
    case CurrentUserOrganization =>
      if user.None? then Err(NoCurrentUser)
      else Ok((Plain(match user.value.organizationId case None => Nil case Some(o) => One(Number(o))), false))
    case _ => Ok((Plain(d.value), false))
  }

  /** Wraps the first word of a list in asterisks. */
  function WrapFirst(ss: seq<Scalar>): seq<Scalar> {
    if ss == [] then []
    else if IsWord(ss[0]) then [Text("*" + ss[0].text + "*")] + ss[1..]
    else [ss[0]] + WrapFirst(ss[1..])
  }

  function Wrapped(v: Value): Value {
    match v
    case Many(ss) => Many(WrapFirst(ss))
    case One(s) => if IsWord(s) then One(Text("*" + s.text + "*")) else v
    case Nil => Nil
  }

  function KindOf(v: Value): Kind {
    if v.Many? then Terms else Term
  }

  function Prefixed(table: string, field: string): string {
    if table == "ticket" then field else table + "." + field
  }

  function Unit(range: string): Option<char> {
    if range == "day" then Some('d')
    else if range == "year" then Some('y')
    else if range == "month" then Some('M')
    else if range == "hour" then Some('h')
    else if range == "minute" then Some('m')
    else None
  }

  /** What `strip` removes at both ends. */
  predicate IsStripped(c: char) {
    IsSpace(c) || c == '\0'
  }

  function StripLeft(s: string): string {
    if s != "" && IsStripped(s[0]) then StripLeft(s[1..]) else s
  }

  function StripRight(s: string): string {
    if s != "" && IsStripped(s[|s| - 1]) then StripRight(s[..|s| - 1]) else s
  }

  function Words(text: string): seq<string> {
    var parts := Split(text, ',');
    seq(|parts|, i requires 0 <= i < |parts| => StripLeft(StripRight(parts[i])))
  }

  // ----- One condition -----

  function CompileEquality(user: Option<User>, key: Key, d: Data): Result<Placed, Error>
    requires IsEquality(d.operator)
  {
    var Key(table, field) := key;
    match ComparedValue(user, field, d)
    case Err(e) => Err(e)
    case Ok((operand, listed)) =>
      if d.preCondition.NotSet? && operand == Plain(Nil) then Ok(Placed(Exists(field), d.operator.Is?))
      else
        var kind := if listed then Terms else KindOf(d.value);
        var raw := operand.Plain? && HasWord(operand.value);
        Ok(Placed(Match(kind, Prefixed(table, field), raw, operand), d.operator.IsNot?))
  }

  function CompileContains(key: Key, d: Data): Placed
    requires d.operator.Contains? || d.operator.ContainsNot?
  {
    var Key(table, field) := key;
    var kind := if !HasWord(d.value) then KindOf(d.value) else if d.value.Many? then Wildcards else Wildcard;
    var clause := Match(kind, Prefixed(table, field), HasWord(d.value), Plain(Wrapped(d.value)));
    Placed(clause, d.operator.ContainsNot?)
  }

  /** The document field of a condition whose operator does not change it. */
  function FieldOf(key: Key): string {
    Prefixed(key.table, key.field)
  }

  function CompileWords(field: string, d: Data, all: bool, negated: bool): Result<Placed, Error> {
    match d.value
    case One(Text(text)) => Ok(Placed(QueryString(field, Words(text), all), negated))
    case _ => Err(NotAText)
  }

  function CompileRelative(field: string, d: Data, relation: Relation, ahead: bool): Result<Placed, Error> {
    match Unit(d.range)
    case None => Err(InvalidRange)
    case Some(unit) =>
      var point := if ahead then Ahead(d.value, unit) else Ago(d.value, unit);
      Ok(Placed(Range(field, relation, point), false))
  }

  function CompileAbsolute(field: string, d: Data, relation: Relation): Placed {
    Placed(Range(field, relation, At(d.value)), false)
  }

  function CompileOne(user: Option<User>, c: Condition): Result<Placed, Error> {
    match c.data.operator
    case Is => CompileEquality(user, c.key, c.data)
    case IsNot => CompileEquality(user, c.key, c.data)
    case Contains => Ok(CompileContains(c.key, c.data))
    case ContainsNot => Ok(CompileContains(c.key, c.data))
    case ContainsAll => CompileWords(FieldOf(c.key), c.data, true, false)
    case ContainsOne => CompileWords(FieldOf(c.key), c.data, false, false)
    case ContainsAllNot => CompileWords(FieldOf(c.key), c.data, true, true)
    case ContainsOneNot => CompileWords(FieldOf(c.key), c.data, false, true)
    case WithinLast => CompileRelative(FieldOf(c.key), c.data, Gte, false)
    case WithinNext => CompileRelative(FieldOf(c.key), c.data, Lt, true)
    case BeforeRelative => CompileRelative(FieldOf(c.key), c.data, Lt, false)
    case AfterRelative => CompileRelative(FieldOf(c.key), c.data, Gt, true)
    case TillRelative => CompileRelative(FieldOf(c.key), c.data, Lt, true)
    case FromRelative => CompileRelative(FieldOf(c.key), c.data, Gt, false)
    case BeforeAbsolute => Ok(CompileAbsolute(FieldOf(c.key), c.data, Lt))
    case AfterAbsolute => Ok(CompileAbsolute(FieldOf(c.key), c.data, Gt))
    case Unknown(_) => Err(UnknownOperator)
  }

  /**
   What the compilation leaves in the selector it was given: the hash of a condition is copied, but not a list in it,
   so that the asterisks stay in the caller's list (line 558).
   */
  function LeftBehind(c: Condition): Condition {
    var d := c.data;
    if (d.operator.Contains? || d.operator.ContainsNot?) && d.value.Many? && HasWord(d.value)
    then c.(data := d.(value := Wrapped(d.value)))
    else c
  }

  /** How many conditions are looked at: all of them, or up to the first one that is refused. */
  function Reached(user: Option<User>, cs: seq<Condition>): (n: nat)
    ensures n <= |cs|
  {
    if cs == [] then 0
    else if CompileOne(user, cs[0]).Err? then 1
    else 1 + Reached(user, cs[1..])
  }

  /** The selector when the first `n` conditions have been looked at. */
  function LeftBehindUpTo(cs: seq<Condition>, n: nat): (left: seq<Condition>)
    ensures |left| == |cs|
  {
    seq(|cs|, i requires 0 <= i < |cs| => if i < n then LeftBehind(cs[i]) else cs[i])
  }

  lemma OneMoreLeftBehind(cs: seq<Condition>, i: nat)
    requires i < |cs|
    ensures LeftBehindUpTo(cs, i)[i] == cs[i]
    ensures LeftBehindUpTo(cs, i)[i := LeftBehind(cs[i])] == LeftBehindUpTo(cs, i + 1)
  {
  }

  predicate AllAccepted(user: Option<User>, cs: seq<Condition>, n: nat)
    requires n <= |cs|
  {
    forall k :: 0 <= k < n ==> CompileOne(user, cs[k]).Ok?
  }

  lemma {:induction false} ReachedAfter(user: Option<User>, cs: seq<Condition>, i: nat)
    requires i <= |cs| && AllAccepted(user, cs, i)
    ensures Reached(user, cs) == i + Reached(user, cs[i..])
  {
    if i > 0 {
      ReachedAfter(user, cs[1..], i - 1);
      assert cs[1..][i - 1..] == cs[i..];
    } else {
      assert cs[0..] == cs;
    }
  }

  lemma StoppedAt(user: Option<User>, cs: seq<Condition>, i: nat)
    requires i < |cs| && AllAccepted(user, cs, i) && CompileOne(user, cs[i]).Err?
    ensures Reached(user, cs) == i + 1
  {
    ReachedAfter(user, cs, i);
  }

  // ----- A whole selector -----

  datatype Aggregation = Aggregation(field: string, since: int, until: int)

  function Added(q: Query, p: Placed): Query {
    if p.negated then q.(mustNot := q.mustNot + [p.clause]) else q.(must := q.must + [p.clause])
  }

  function CompileAll(user: Option<User>, cs: seq<Condition>): Result<Query, Error> {
    if cs == [] then Ok(Query([], []))
    else
      var n := |cs| - 1;
      match CompileAll(user, cs[..n])
      case Err(e) => Err(e)
      case Ok(q) =>
        match CompileOne(user, cs[n])
        case Err(e) => Err(e)
        case Ok(p) => Ok(Added(q, p))
  }

  lemma CompileOneMore(user: Option<User>, cs: seq<Condition>, i: nat, q: Query)
    requires i < |cs| && CompileAll(user, cs[..i]) == Ok(q)
    ensures CompileAll(user, cs[..i + 1])
            == match CompileOne(user, cs[i]) case Err(e) => Err(e) case Ok(p) => Ok(Added(q, p))
  {
    assert cs[..i + 1][..i] == cs[..i];
  }

  /** The interval of an aggregation is one more clause. */
  function WithAggregation(q: Query, aggs: Option<Aggregation>): Query {
    match aggs
    case None => q
    case Some(a) => q.(must := q.must + [Interval(a.field, a.since, a.until)])
  }

  function Compile(user: Option<User>, cs: seq<Condition>, aggs: Option<Aggregation>): Result<Query, Error> {
    match CompileAll(user, cs)
    case Err(e) => Err(e)
    case Ok(q) => Ok(WithAggregation(q, aggs))
  }

  class Selector {
    var conditions: seq<Condition>

    constructor (conditions: seq<Condition>)
      ensures this.conditions == conditions
    {
      this.conditions := conditions;
    }

    /** `selector2query` */
    method ToQuery(user: Option<User>, aggs: Option<Aggregation>) returns (r: Result<Query, Error>)
      modifies this
      ensures r == Compile(user, old(conditions), aggs)
      ensures conditions == LeftBehindUpTo(old(conditions), Reached(user, old(conditions)))
    {
      var queryMust: seq<Clause> := [];
      var queryMustNot: seq<Clause> := [];
      ghost var was := conditions;
      for i := 0 to |conditions|
        invariant CompileAll(user, was[..i]) == Ok(Query(queryMust, queryMustNot))
        invariant conditions == LeftBehindUpTo(was, i) && AllAccepted(user, was, i)
      {
        CompileOneMore(user, was, i, Query(queryMust, queryMustNot));
        OneMoreLeftBehind(was, i);
        var c := conditions[i];
        conditions := conditions[i := LeftBehind(c)];
        match CompileOne(user, c) {
          case Err(e) =>
            FirstErrorWins(user, was, i + 1, e);
            StoppedAt(user, was, i);
            return Err(e);
          case Ok(p) =>
            if p.negated {
              queryMustNot := queryMustNot + [p.clause];
            } else {
              queryMust := queryMust + [p.clause];
            }
        }
      }
      assert was[..|was|] == was;
      ReachedAfter(user, was, |was|);
      if aggs.Some? {
        queryMust := queryMust + [Interval(aggs.value.field, aggs.value.since, aggs.value.until)];
      }
      return Ok(Query(queryMust, queryMustNot));
    }
  }

  lemma {:induction false} FirstErrorWins(user: Option<User>, cs: seq<Condition>, i: nat, e: Error)
    requires i <= |cs| && CompileAll(user, cs[..i]) == Err(e)
    ensures CompileAll(user, cs) == Err(e)
  {
    if i == |cs| {
      assert cs[..i] == cs;
    } else {
      var n := |cs| - 1;
      assert cs[..n][..i] == cs[..i];
      FirstErrorWins(user, cs[..n], i, e);
    }
  }
}
