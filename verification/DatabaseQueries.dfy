/**
 app/models/ticket.rb, `selector2sql`: the SQL that the conditions of a selector become, and what a database
 (PostgreSQL) makes of it, with NULL and a third truth value.
 */
module DatabaseQueries {
  import opened Prelude
  import opened Texts
  import opened Globs
  import opened SelectorCompiler
  import opened SearchEngine

  /** `fold` is how ILIKE compares characters, `listText` what Ruby makes of a list inside a text. */
  datatype Database = Database(fold: char -> char, listText: seq<Scalar> -> string)

  function LikeOf(db: Database): Patterns {
    Patterns('%', '_', db.fold)
  }

  // ----- Truth values -----

  datatype Truth = Yes | No | Neither

  function TruthOf(b: bool): Truth {
    if b then Yes else No
  }

  function Negated3(t: Truth): Truth {
    match t
    case Yes => No
    case No => Yes
    case Neither => Neither
  }

  function Or3(a: Truth, b: Truth): Truth {
    if a.Yes? || b.Yes? then Yes else if a.No? && b.No? then No else Neither
  }

  function And3(a: Truth, b: Truth): Truth {
    if a.No? || b.No? then No else if a.Yes? && b.Yes? then Yes else Neither
  }

  // ----- Queries -----

  /** NULL in a list is None. */
  datatype Sql =
    | IsNull(column: string) | IsNotNull(column: string)
    | In(column: string, list: seq<Option<Scalar>>) | NotIn(column: string, list: seq<Option<Scalar>>)
    | Either(a: Sql, b: Sql) | Both(a: Sql, b: Sql)
    | ILike(column: string, pattern: string) | NotILike(column: string, pattern: string)
    | AtMost(column: string, t: int) | AtLeast(column: string, t: int)
    | Between(column: string, first: int, last: int)
    | TagCountIs(n: nat, words: seq<string>) | SomeTagIn(words: seq<string>)

  /** A row with its tags; a column has one value or is NULL. */
  predicate IsRow(d: Document) {
    forall f :: f in d.values && f != "tags" ==> |d.values[f]| == 1
  }

  /** An empty list is written as NULL. */
  function InList(d: Document, column: string, list: seq<Option<Scalar>>): Truth {
    var xs := ValuesOf(d, column);
    if !Present(d, column) || list == [] then Neither
    else if exists i, j :: 0 <= i < |list| && 0 <= j < |xs| && list[i].Some? && Form(list[i].value) == FormOf(xs[j])
    then Yes
    else if None in list then Neither
    else No
  }

  /** LIKE is an error on columns that are no texts. */
  function LikePattern(db: Database, d: Document, column: string, pattern: string): Truth {
    var xs := ValuesOf(d, column);
    if xs == [] || !xs[0].Str? then Neither else TruthOf(Glob(LikeOf(db), pattern, xs[0].text))
  }

  /** How many of the tags are in the list. */
  function TagsListed(words: seq<string>, xs: seq<Stored>): nat {
    |set word | word in words && HasWordAmong(word, xs)|
  }

  function Eval(db: Database, q: Sql, d: Document): Truth {
    match q
    case IsNull(f) => TruthOf(!Present(d, f))
    case IsNotNull(f) => TruthOf(Present(d, f))
    case In(f, list) => InList(d, f, list)
    case NotIn(f, list) => Negated3(InList(d, f, list))
    case Either(a, b) => Or3(Eval(db, a, d), Eval(db, b, d))
    case Both(a, b) => And3(Eval(db, a, d), Eval(db, b, d))
    case ILike(f, pattern) => LikePattern(db, d, f, pattern)
    case NotILike(f, pattern) => Negated3(LikePattern(db, d, f, pattern))
    case AtMost(f, t) => if f in d.times then TruthOf(d.times[f] <= t) else Neither
    case AtLeast(f, t) => if f in d.times then TruthOf(d.times[f] >= t) else Neither
    case Between(f, first, last) => if f in d.times then TruthOf(first <= d.times[f] <= last) else Neither
    case TagCountIs(n, words) => TruthOf(TagsListed(words, ValuesOf(d, "tags")) == n)
    case SomeTagIn(words) => TruthOf(TagsListed(words, ValuesOf(d, "tags")) > 0)
  }

  // ----- From conditions to queries -----

  datatype SqlError = NoUser | InvalidOperator | NotATagList | UnknownRange

  predicate BlankValue(v: Value) {
    match v
    case Nil => true
    case One(Text(t)) => Blank(t)
    case One(Number(_)) => false
    case Many(ss) => ss == []
  }

  predicate IsContains(o: Operator) {
    o.Contains? || o.ContainsNot? || o.ContainsAll? || o.ContainsOne? || o.ContainsAllNot? || o.ContainsOneNot?
  }

  /** No query at all, and then nothing is found (lines 620-630). */
  predicate GivesNoQuery(c: Condition) {
    c.data.preCondition.OtherPreCondition?
    || ((c.data.preCondition.NoPreCondition? || c.data.preCondition.Specific?)
        && (c.data.value == Many([]) || (IsContains(c.data.operator) && BlankValue(c.data.value))))
  }

  function ColumnOf(c: Condition): string {
    if c.data.preCondition.CurrentUserId? && c.key.field == REPLACEMENT then ReplacementField(c.key)
    else FieldOf(c.key)
  }

  function NonNull(ss: seq<Scalar>): (list: seq<Option<Scalar>>)
    ensures |list| == |ss| && forall i :: 0 <= i < |ss| ==> list[i] == Some(ss[i])
  {
    seq(|ss|, i requires 0 <= i < |ss| => Some(ss[i]))
  }

  function OrNull(n: Option<int>): seq<Option<Scalar>> {
    match n
    case None => [None]
    case Some(i) => [Some(Number(i))]
  }

  function InOrNotIn(f: string, list: seq<Option<Scalar>>, negated: bool): Sql {
    if negated then Either(IsNull(f), NotIn(f, list)) else In(f, list)
  }

  /** "is" and "is not" (lines 688-773); only "is" looks whether there is a current user. */
  function EqualitySql(user: Option<User>, c: Condition, negated: bool): Result<Sql, SqlError> {
    var f := ColumnOf(c);
    match c.data.preCondition
    case NotSet =>
      var one := NonNull([Number(1)]);
      Ok(if !IsUserField(c.key.field) then (if negated then IsNotNull(f) else IsNull(f))
         else if negated then Both(IsNotNull(f), NotIn(f, one))
         else Either(IsNull(f), In(f, one)))
    case CurrentUserId =>
      if user.None? && (!negated || c.key.field == REPLACEMENT) then Err(NoUser)
      else if c.key.field == REPLACEMENT then Ok(InOrNotIn(f, NonNull(Numbers(user.value.outOfOfficeFor)), negated))
      else Ok(InOrNotIn(f, OrNull(if user.None? then None else Some(user.value.id)), negated))
    case CurrentUserOrganization =>
      if user.None? then Err(NoUser) else Ok(InOrNotIn(f, OrNull(user.value.organizationId), negated))
    case _ =>
      var list := NonNull(Scalars(c.data.value));
      Ok(if c.data.value.Nil? then (if negated then IsNotNull(f) else IsNull(f))
         else if Text("") !in Scalars(c.data.value) then InOrNotIn(f, list, negated)
         else if negated then Both(IsNotNull(f), NotIn(f, list))
         else Either(In(f, list), IsNull(f)))
  }

  function LikeText(db: Database, v: Value): string {
    match v
    case Nil => ""
    case One(s) => Form(s)
    case Many(ss) => db.listText(ss)
  }

  function PatternOf(db: Database, c: Condition): string {
    "%" + (LikeText(db, c.data.value) + "%")
  }

  const TAGS := Key("ticket", "tags")

  /** Words are looked for among the tags of tickets only; "all not" counts like "one not". */
  function TagsSql(c: Condition): Result<Sql, SqlError> {
    if c.key != TAGS then Err(InvalidOperator)
    else match c.data.value
      case One(Text(text)) =>
        var words := Words(text);
        (match c.data.operator
         case ContainsAll => Ok(TagCountIs(|words|, words))
         case ContainsOne => Ok(SomeTagIn(words))
         case _ => Ok(TagCountIs(0, words)))
      case _ => Err(NotATagList)
  }

  /** A point in time some minutes, hours, days, months or years before or after now. */
  function PointOf(e: Engine, c: Condition, ahead: bool): Result<int, SqlError> {
    if c.data.range == "minute" || c.data.range == "hour" || c.data.range == "day" || c.data.range == "month"
       || c.data.range == "year"
    then
      var span := e.span(c.data.value, c.data.range);
      Ok(if ahead then e.now + span else e.now - span)
    else Err(UnknownRange)
  }

  function RelativeSql(e: Engine, c: Condition): Result<Sql, SqlError> {
    var f := FieldOf(c.key);
    var ahead := c.data.operator.WithinNext? || c.data.operator.AfterRelative? || c.data.operator.TillRelative?;
    match PointOf(e, c, ahead)
    case Err(error) => Err(error)
    case Ok(t) =>
      match c.data.operator
      case WithinLast => Ok(Between(f, t, e.now))
      case WithinNext => Ok(Between(f, e.now, t))
      case BeforeRelative => Ok(AtMost(f, t))
      case AfterRelative => Ok(AtLeast(f, t))
      case TillRelative => Ok(AtMost(f, t))
      case FromRelative => Ok(AtLeast(f, t))
      case _ => Err(InvalidOperator)
  }

  function QueryOf(db: Database, e: Engine, user: Option<User>, c: Condition): Result<Sql, SqlError> {
    var f := FieldOf(c.key);
    match c.data.operator
    case Is => EqualitySql(user, c, false)
    case IsNot => EqualitySql(user, c, true)
    case Contains => Ok(ILike(f, PatternOf(db, c)))
    case ContainsNot => Ok(NotILike(f, PatternOf(db, c)))
    case ContainsAll => TagsSql(c)
    case ContainsOne => TagsSql(c)
    case ContainsAllNot => TagsSql(c)
    case ContainsOneNot => TagsSql(c)
    case BeforeAbsolute => Ok(AtMost(f, e.instant(c.data.value)))
    case AfterAbsolute => Ok(AtLeast(f, e.instant(c.data.value)))
    case _ => RelativeSql(e, c)
  }

  /** The query of one condition, if there is any; unknown operators are refused first. */
  function SqlOf(db: Database, e: Engine, user: Option<User>, c: Condition): Result<Option<Sql>, SqlError> {
    if c.data.operator.Unknown? then Err(InvalidOperator)
    else if GivesNoQuery(c) then Ok(None)
    else match QueryOf(db, e, user, c)
      case Err(error) => Err(error)
      case Ok(q) => Ok(Some(q))
  }

  predicate Selects(db: Database, e: Engine, user: Option<User>, c: Condition, d: Document) {
    var r := SqlOf(db, e, user, c);
    r.Ok? && r.value.Some? && Eval(db, r.value.value, d).Yes?
  }

  /** The queries of all conditions; the first condition that is refused, or gives none, decides. */
  function SqlOfAll(db: Database, e: Engine, user: Option<User>, cs: seq<Condition>)
    : Result<Option<seq<Sql>>, SqlError>
  {
    if cs == [] then Ok(Some([]))
    else match SqlOf(db, e, user, cs[0])
      case Err(error) => Err(error)
      case Ok(None) => Ok(None)
      case Ok(Some(q)) =>
        match SqlOfAll(db, e, user, cs[1..])
        case Err(error) => Err(error)
        case Ok(None) => Ok(None)
        case Ok(Some(qs)) => Ok(Some([q] + qs))
  }

  /** The queries, joined by AND. */
  function EvalAll(db: Database, qs: seq<Sql>, d: Document): Truth {
    if qs == [] then Yes else And3(Eval(db, qs[0], d), EvalAll(db, qs[1..], d))
  }

  predicate SelectsAll(db: Database, e: Engine, user: Option<User>, cs: seq<Condition>, d: Document) {
    var r := SqlOfAll(db, e, user, cs);
    r.Ok? && r.value.Some? && EvalAll(db, r.value.value, d).Yes?
  }
}
