/**
 The values of settings, and the one-pass substitution of `#{config.name}` placeholders that
 app/models/setting.rb applies to every text it caches.
 */
module Interpolation {
  import opened Prelude

  /** A setting's value. Everything that is not a Ruby String is kept as it is; `toS` is its `to_s`. */
  datatype Value = Text(text: string) | Other(id: int, toS: string)

  type Values = map<string, Value>

  const OPENING: string := "#{config."

  /** The first '}' at or after `i`, if no line break comes before it. */
  function FindClose(s: string, i: nat): (r: Option<nat>)
    requires i <= |s|
    ensures r.Some? ==> i <= r.value < |s| && s[r.value] == '}'
    ensures r.Some? ==> forall k :: i <= k < r.value ==> s[k] != '}' && s[k] != '\n'
    decreases |s| - i
  {
    if i == |s| || s[i] == '\n' then None
    else if s[i] == '}' then Some(i)
    else FindClose(s, i + 1)
  }

  /** Where the placeholder that starts `s` ends: its name has at least one character, none a line break. */
  function PlaceholderEnd(s: string): (r: Option<nat>)
    ensures r.Some? ==> |OPENING| < r.value < |s|
  {
    if OPENING <= s && |OPENING| < |s| && s[|OPENING|] != '\n'
    then FindClose(s, |OPENING| + 1)
    else None
  }

  /** `to_s` of a value; a name that is not set gives the empty text. */
  function TextOf(raw: Values, name: string): string {
    if name !in raw then ""
    else match raw[name]
      case Text(t) => t
      case Other(_, t) => t
  }

  /** How much of the text one step of the scan consumes: a whole placeholder or a single character. */
  function StepLength(s: string): (n: nat)
    requires s != ""
    ensures 0 < n <= |s|
  {
    match PlaceholderEnd(s)
    case Some(end) => end + 1
    case None => 1
  }

  /** What that step writes. */
  function StepText(raw: Values, s: string): string
    requires s != ""
  {
    match PlaceholderEnd(s)
    case Some(end) => TextOf(raw, s[|OPENING|..end])
    case None => s[..1]
  }

  /** `gsub` over a whole text: substituted text is not scanned again. */
  function Substitute(raw: Values, s: string): string
    decreases |s|
  {
    if s == "" then "" else StepText(raw, s) + Substitute(raw, s[StepLength(s)..])
  }

  function Interpolate(raw: Values, v: Value): Value {
    match v
    case Text(s) => Text(Substitute(raw, s))
    case Other(_, _) => v
  }

  /** What the cache should hold for a given set of stored values. */
  function Rendered(raw: Values): Values {
    map n | n in raw :: Interpolate(raw, raw[n])
  }

  /** The name that the first step over a text refers to, if it does. */
  function StepReferences(s: string): set<string> {
    match PlaceholderEnd(s)
    case Some(end) => {s[|OPENING|..end]}
    case None => {}
  }

  /** The names a text refers to. */
  function References(s: string): set<string>
    decreases |s|
  {
    if s == "" then {} else StepReferences(s) + References(s[StepLength(s)..])
  }

  /** A text depends on the values it refers to and on nothing else. */
  lemma {:induction false} SubstitutionIsLocal(raw1: Values, raw2: Values, s: string)
    requires forall n :: n in References(s) ==> TextOf(raw1, n) == TextOf(raw2, n)
    ensures Substitute(raw1, s) == Substitute(raw2, s)
    decreases |s|
  {
    if s != "" {
      assert References(s) == StepReferences(s) + References(s[StepLength(s)..]);
      SubstitutionIsLocal(raw1, raw2, s[StepLength(s)..]);
      assert StepText(raw1, s) == StepText(raw2, s);
    }
  }

  lemma {:induction false} FindCloseFinds(s: string, i: nat, j: nat)
    requires i <= j < |s| && s[j] == '}'
    requires forall k :: i <= k < j ==> s[k] != '}' && s[k] != '\n'
    ensures FindClose(s, i) == Some(j)
    decreases j - i
  {
    if i < j {
      FindCloseFinds(s, i + 1, j);
    }
  }

  lemma LeadingPlaceholder(name: string, after: string)
    requires name != "" && name[0] != '\n'
    requires forall k :: 1 <= k < |name| ==> name[k] != '}' && name[k] != '\n'
    ensures var s := OPENING + name + "}" + after;
      PlaceholderEnd(s) == Some(|OPENING| + |name|) && s[|OPENING|..|OPENING| + |name|] == name
  {
    var s := OPENING + name + "}" + after;
    assert s[..|OPENING|] == OPENING;
    assert forall k :: 0 <= k < |name| ==> s[|OPENING| + k] == name[k];
    FindCloseFinds(s, |OPENING| + 1, |OPENING| + |name|);
  }

  /** No placeholder starts in the first part of the text. */
  predicate NoneStarts(before: string, rest: string) {
    forall k :: 0 <= k < |before| ==> PlaceholderEnd((before + rest)[k..]) == None
  }

  lemma LiteralStep(raw: Values, s: string)
    requires s != "" && PlaceholderEnd(s) == None
    ensures Substitute(raw, s) == s[..1] + Substitute(raw, s[1..])
  {
  }

  lemma FirstOf(before: string, rest: string)
    requires before != ""
    ensures before + rest != "" && (before + rest)[..1] == before[..1] && (before + rest)[1..] == before[1..] + rest
    ensures before[..1] + (before[1..] + rest) == before + rest
  {
  }

  lemma NoneStartsInTail(before: string, rest: string)
    requires before != "" && NoneStarts(before, rest)
    ensures PlaceholderEnd(before + rest) == None && NoneStarts(before[1..], rest)
  {
    var s := before + rest;
    assert s[0..] == s;
    FirstOf(before, rest);
    forall k | 0 <= k < |before| - 1
      ensures PlaceholderEnd((before[1..] + rest)[k..]) == None
    {
      assert s[1..][k..] == s[k + 1..];
    }
  }

  /** What comes before a placeholder is copied. */
  lemma {:induction false} LiteralPrefix(raw: Values, before: string, rest: string)
    requires NoneStarts(before, rest)
    ensures Substitute(raw, before + rest) == before + Substitute(raw, rest)
  {
    var r := Substitute(raw, rest);
    if before == "" {
      assert before + rest == rest && before + r == r;
    } else {
      FirstOf(before, rest);
      FirstOf(before, r);
      NoneStartsInTail(before, rest);
      LiteralStep(raw, before + rest);
      LiteralPrefix(raw, before[1..], rest);
    }
  }

  /** A placeholder standing in a text is replaced by the stored text of its name, verbatim. */
  lemma PlaceholderIsReplaced(raw: Values, before: string, name: string, after: string)
    requires NoneStarts(before, OPENING + name + "}" + after)
    requires name != "" && name[0] != '\n'
    requires forall k :: 1 <= k < |name| ==> name[k] != '}' && name[k] != '\n'
    ensures Substitute(raw, before + (OPENING + name + "}" + after))
            == before + (TextOf(raw, name) + Substitute(raw, after))
  {
    var s := OPENING + name + "}" + after;
    LiteralPrefix(raw, before, s);
    LeadingPlaceholder(name, after);
    assert s[|OPENING| + |name| + 1..] == after;
  }

  // ----- What a placeholder is -----

  /**
   The text starts with a placeholder for this name: any first character but a line break, and then none that is a
   closing brace or a line break.
   */
  predicate StartsWithPlaceholder(s: string, name: string) {
    && "#{config." + name + "}" <= s && name != "" && name[0] != '\n'
    && forall k :: 1 <= k < |name| ==> name[k] != '}' && name[k] != '\n'
  }

  /** The scan takes a placeholder at the start of a text exactly if there is one, and then for this name. */
  lemma PlaceholderExactly(s: string, name: string)
    ensures PlaceholderEnd(s) == Some(9 + |name|) && s[9..9 + |name|] == name <==> StartsWithPlaceholder(s, name)
    ensures PlaceholderEnd(s).Some? ==>
      9 < PlaceholderEnd(s).value && StartsWithPlaceholder(s, s[9..PlaceholderEnd(s).value])
  {
    assert |OPENING| == 9;
    if StartsWithPlaceholder(s, name) {
      var after := s[|OPENING| + |name| + 1..];
      assert s == OPENING + name + "}" + after;
      LeadingPlaceholder(name, after);
    }
    if PlaceholderEnd(s).Some? {
      var end := PlaceholderEnd(s).value;
      var found := s[9..end];
      assert s[..end + 1] == OPENING + found + "}";
      assert OPENING == "#{config.";
      assert forall k :: 0 <= k < |found| ==> found[k] == s[9 + k];
    }
  }

  /** A text without a placeholder in it stays as it is. */
  lemma PlainTextStays(raw: Values, s: string)
    requires forall k, name :: 0 <= k < |s| ==> !StartsWithPlaceholder(s[k..], name)
    ensures Substitute(raw, s) == s
  {
    forall k | 0 <= k < |s|
      ensures PlaceholderEnd((s + "")[k..]) == None
    {
      assert s + "" == s;
      PlaceholderExactly(s[k..], if PlaceholderEnd(s[k..]).Some? then s[k..][9..PlaceholderEnd(s[k..]).value] else "");
    }
    LiteralPrefix(raw, s, "");
    assert s + "" == s;
  }
}
