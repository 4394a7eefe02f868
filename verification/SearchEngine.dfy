/**
 The documents of the search engine, what its clauses match, and what a condition of a selector asks of a document.
 The meaning of conditions is what their names say in the list of conditions of app/models/ticket.rb:504-549 and in
 the examples of spec/lib/search_index_backend_spec.rb; DatabaseSelectors has what the database makes of them.
 */
module SearchEngine {
  import opened Prelude
  import opened Texts
  import opened Decimal
  import opened Globs
  import opened SelectorCompiler

  // ----- Documents -----

  datatype Stored = Str(text: string) | Num(n: int)

  /** The types of the index mapping (lib/search_index_backend.rb:998-1036): text with a raw sub-field, number, date. */
  datatype FieldType = TextField | NumberField | TimeField

  type Schema = string -> FieldType

  /** The values of each field; a field without any is not there. */
  datatype Document = Document(values: map<string, seq<Stored>>, times: map<string, int>)

  predicate FitsType(x: Stored, t: FieldType) {
    match t
    case TextField => x.Str?
    case NumberField => x.Num?
    case TimeField => false
  }

  ghost predicate Conforms(schema: Schema, d: Document) {
    && (forall f :: f in d.values ==>
         d.values[f] != [] && forall i :: 0 <= i < |d.values[f]| ==> FitsType(d.values[f][i], schema(f)))
    && (forall f :: f in d.times ==> schema(f).TimeField?)
  }

  function ValuesOf(d: Document, f: string): seq<Stored> {
    if f in d.values then d.values[f] else []
  }

  predicate Present(d: Document, f: string) {
    f in d.values || f in d.times
  }

  // ----- Numbers as texts -----

  function Numeral(n: int): string {
    if n < 0 then "-" + Print(-n) else Print(n)
  }

  predicate IsNumeral(t: string) {
    Numeral(Read(t)) == t
  }

  lemma ReadOfNumeral(n: int)
    ensures Read(Numeral(n)) == n && IsNumeral(Numeral(n))
    ensures Numeral(n) != "" && (Numeral(n)[0] == '-' <==> n < 0)
  {
    if n < 0 {
      var t := Numeral(n);
      assert t[1..] == Print(-n) && SkipSpace(t) == t;
      DigitsHaveNoUnderscores(Print(-n));
      ReadDigitsOfPrint(-n);
    } else {
      ReadOfPrint(n);
    }
  }

  lemma NumeralsHaveNoLetters(n: int)
    ensures !HasLetter(Numeral(n))
  {
  }

  function Form(s: Scalar): string {
    match s
    case Text(t) => t
    case Number(n) => Numeral(n)
  }

  function FormOf(x: Stored): string {
    match x
    case Str(t) => t
    case Num(n) => Numeral(n)
  }

  function Numbers(ids: seq<int>): (ss: seq<Scalar>)
    ensures |ss| == |ids| && forall i :: 0 <= i < |ids| ==> ss[i] == Number(ids[i])
  {
    seq(|ids|, i requires 0 <= i < |ids| => Number(ids[i]))
  }

  // ----- The engine -----

  /**
   `tokens` are the terms that the engine makes of a text, `phrase` says whether it finds a phrase in a text, and
   `flattens` whether it takes a list inside a list for its elements; it may also refuse it. Times: `now`, `span` of
   an amount and a unit, and `instant` of an absolute value.
   */
  datatype Engine = Engine(tokens: string -> set<string>, phrase: (string, string) -> bool, flattens: bool,
                           now: int, span: (Value, string) -> int, instant: Value -> int)

  /**
   What is assumed of the engine's analysis. A term stays one if a word follows; one without a letter is a part of the
   text, and it does not stand between two letters. A phrase that is found anywhere is found in itself, and it is
   still found if a word follows; an empty one is nowhere, and numbers can be found.
   */
  ghost predicate Analyses(e: Engine) {
    && (forall v, t :: t in e.tokens(v) ==> t in e.tokens(v + " x"))
    && (forall v, t :: t in e.tokens(v) && !HasLetter(t) ==> Includes(v, t))
    && (forall t :: !HasLetter(t) ==> t !in e.tokens("a" + t + "a"))
    && (forall v, w :: e.phrase(w, v) ==> e.phrase(w, w) && e.phrase(w, v + " x"))
    && (forall v :: !e.phrase("", v))
    && (forall n :: e.phrase(Numeral(n), Numeral(n)))
  }

  function Same(c: char): char {
    c
  }

  /** The wildcards of the engine's patterns. */
  const STARS := Patterns('*', '?', Same)

  /** A term, as it is compared with a number, a whole text, or the terms of a text. */
  predicate Hits(e: Engine, raw: bool, s: Scalar, x: Stored) {
    match x
    case Num(_) => !raw && Form(s) == FormOf(x)
    case Str(t) => if raw then Form(s) == t else Form(s) in e.tokens(t)
  }

  predicate SomeHit(e: Engine, raw: bool, ss: seq<Scalar>, xs: seq<Stored>) {
    exists i, j :: 0 <= i < |ss| && 0 <= j < |xs| && Hits(e, raw, ss[i], xs[j])
  }

  predicate SomeGlob(pattern: string, xs: seq<Stored>) {
    exists j :: 0 <= j < |xs| && xs[j].Str? && Glob(STARS, pattern, xs[j].text)
  }

  predicate PhraseHits(e: Engine, word: string, x: Stored) {
    match x
    case Num(_) => word == FormOf(x)
    case Str(t) => e.phrase(word, t)
  }

  predicate InField(e: Engine, word: string, xs: seq<Stored>) {
    exists j :: 0 <= j < |xs| && PhraseHits(e, word, xs[j])
  }

  predicate Anywhere(e: Engine, word: string, d: Document) {
    exists f :: f in d.values && InField(e, word, d.values[f])
  }

  /** `field:"a" AND "b"`: only the first phrase is looked for in the field, the others anywhere. */
  predicate QueryFinds(e: Engine, f: string, words: seq<string>, all: bool, d: Document) {
    if words == [] then InField(e, "", ValuesOf(d, f))
    else
      var first := InField(e, words[0], ValuesOf(d, f));
      if all then first && forall i :: 1 <= i < |words| ==> Anywhere(e, words[i], d)
      else first || exists i :: 1 <= i < |words| && Anywhere(e, words[i], d)
  }

  /** The units of date arithmetic. */
  function UnitName(unit: char): string {
    if unit == 'y' then "year"
    else if unit == 'M' then "month"
    else if unit == 'd' then "day"
    else if unit == 'h' then "hour"
    else if unit == 'm' then "minute"
    else ""
  }

  function InstantOf(e: Engine, point: Point): int {
    match point
    case Ago(amount, unit) => e.now - e.span(amount, UnitName(unit))
    case Ahead(amount, unit) => e.now + e.span(amount, UnitName(unit))
    case At(value) => e.instant(value)
  }

  predicate Compares(relation: Relation, t: int, point: int) {
    match relation
    case Gte => t >= point
    case Lt => t < point
    case Gt => t > point
  }

  /**
   The engine does not refuse the clause. There is no query called `wildcards`, `terms` needs a list and `term` a
   value, and a list inside a list may be refused.
   */
  predicate Understood(e: Engine, clause: Clause) {
    match clause
    case Match(kind, _, _, Nested(_)) => kind.Terms? && e.flattens
    case Match(kind, _, _, Plain(Many(_))) => kind.Terms?
    case Match(kind, _, _, Plain(One(_))) => kind.Term? || kind.Wildcard?
    case Match(_, _, _, Plain(Nil)) => false
    case _ => true
  }

  /** What a clause matches. */
  predicate Matches(e: Engine, clause: Clause, d: Document) {
    match clause
    case Match(kind, f, raw, Nested(ids)) =>
      kind.Terms? && e.flattens && SomeHit(e, raw, Numbers(ids), ValuesOf(d, f))
    case Match(kind, f, raw, Plain(Many(ss))) => kind.Terms? && SomeHit(e, raw, ss, ValuesOf(d, f))
    case Match(kind, f, raw, Plain(One(s))) =>
      if kind.Term? then SomeHit(e, raw, [s], ValuesOf(d, f))
      else kind.Wildcard? && SomeGlob(Form(s), ValuesOf(d, f))
    case Match(_, _, _, Plain(Nil)) => false
    case Exists(f) => Present(d, f)
    case Range(f, relation, point) => f in d.times && Compares(relation, d.times[f], InstantOf(e, point))
    case QueryString(f, words, all) => QueryFinds(e, f, words, all, d)
    case Interval(f, since, until) => f in d.times && since <= d.times[f] <= until
  }

  /** The condition is accepted, also by the engine, and the document is on the right side of its clause. */
  predicate Found(e: Engine, user: Option<User>, c: Condition, d: Document) {
    var r := CompileOne(user, c);
    r.Ok? && Understood(e, r.value.clause) && Matches(e, r.value.clause, d) != r.value.negated
  }

  // ----- What a condition asks -----

  const REPLACEMENT := "out_of_office_replacement_id"

  predicate HasOneOf(ss: seq<Scalar>, xs: seq<Stored>) {
    exists i, j :: 0 <= i < |ss| && 0 <= j < |xs| && Form(ss[i]) == FormOf(xs[j])
  }

  /** One of the values; an empty text among them also asks for absent fields (app/models/ticket.rb:723). */
  predicate IsOneOf(ss: seq<Scalar>, d: Document, f: string) {
    HasOneOf(ss, ValuesOf(d, f)) || (Text("") in ss && !Present(d, f))
  }

  /** The users for whom somebody stands in are the owners of tickets (app/models/ticket.rb:637). */
  function ReplacementField(key: Key): string {
    if key.table == "ticket" then "owner_id" else FieldOf(key)
  }

  predicate AsksEquality(user: Option<User>, c: Condition, d: Document) {
    var f := FieldOf(c.key);
    match c.data.preCondition
    case NotSet => !Present(d, f) || (IsUserField(c.key.field) && HasOneOf([Number(1)], ValuesOf(d, f)))
    case CurrentUserId =>
      user.Some?
      && if c.key.field == REPLACEMENT
         then HasOneOf(Numbers(user.value.outOfOfficeFor), ValuesOf(d, ReplacementField(c.key)))
         else HasOneOf([Number(user.value.id)], ValuesOf(d, f))
    case CurrentUserOrganization =>
      user.Some? && user.value.organizationId.Some?
      && HasOneOf([Number(user.value.organizationId.value)], ValuesOf(d, f))
    case _ =>
      match c.data.value
      case Nil => !Present(d, f)
      case One(s) => IsOneOf([s], d, f)
      case Many(ss) => IsOneOf(ss, d, f)
  }

  function Scalars(v: Value): seq<Scalar> {
    match v
    case Nil => []
    case One(s) => [s]
    case Many(ss) => ss
  }

  /** A text contains its parts, a number only itself. */
  predicate PartOf(s: Scalar, x: Stored) {
    match x
    case Num(_) => Form(s) == FormOf(x)
    case Str(t) => Includes(t, Form(s))
  }

  predicate AsksPart(v: Value, xs: seq<Stored>) {
    exists i, j :: 0 <= i < |Scalars(v)| && 0 <= j < |xs| && PartOf(Scalars(v)[i], xs[j])
  }

  /** One of the values is the word, as a tag is. */
  predicate HasWordAmong(word: string, xs: seq<Stored>) {
    exists j :: 0 <= j < |xs| && FormOf(xs[j]) == word
  }

  predicate HasAllWords(words: seq<string>, xs: seq<Stored>) {
    forall i :: 0 <= i < |words| ==> HasWordAmong(words[i], xs)
  }

  predicate HasOneWord(words: seq<string>, xs: seq<Stored>) {
    exists i :: 0 <= i < |words| && HasWordAmong(words[i], xs)
  }

  predicate AsksWords(c: Condition, all: bool, d: Document) {
    match c.data.value
    case One(Text(text)) =>
      var xs := ValuesOf(d, FieldOf(c.key));
      if all then HasAllWords(Words(text), xs) else HasOneWord(Words(text), xs)
    case _ => false
  }

  predicate AsksTime(e: Engine, c: Condition, t: int) {
    var span := e.span(c.data.value, c.data.range);
    match c.data.operator
    case WithinLast => e.now - span <= t <= e.now
    case WithinNext => e.now <= t <= e.now + span
    case BeforeRelative => t <= e.now - span
    case AfterRelative => t >= e.now + span
    case TillRelative => t <= e.now + span
    case FromRelative => t >= e.now - span
    case BeforeAbsolute => t <= e.instant(c.data.value)
    case AfterAbsolute => t >= e.instant(c.data.value)
    case _ => false
  }

  /** What the condition asks, operators with "not" being the complements of the others. */
  predicate Holds(e: Engine, user: Option<User>, c: Condition, d: Document) {
    match c.data.operator
    case Is => AsksEquality(user, c, d)
    case IsNot => !AsksEquality(user, c, d)
    case Contains => AsksPart(c.data.value, ValuesOf(d, FieldOf(c.key)))
    case ContainsNot => !AsksPart(c.data.value, ValuesOf(d, FieldOf(c.key)))
    case ContainsAll => AsksWords(c, true, d)
    case ContainsOne => AsksWords(c, false, d)
    case ContainsAllNot => !AsksWords(c, true, d)
    case ContainsOneNot => !AsksWords(c, false, d)
    case _ => FieldOf(c.key) in d.times && AsksTime(e, c, d.times[FieldOf(c.key)])
  }
}
