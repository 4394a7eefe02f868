/** Decimal numbers as Ruby prints and reads them (`Integer#to_s`, `String#to_i`). */
module Decimal {
  import opened Texts
  import opened Splitting

  predicate IsDigit(c: char) {
    '0' <= c <= '9'
  }

  function DigitChar(d: nat): (c: char)
    requires d < 10
    ensures IsDigit(c) && c as int - '0' as int == d
  {
    (d + '0' as int) as char
  }

  /** `to_s` */
  function Print(n: nat): (s: string)
    ensures s != "" && forall i :: 0 <= i < |s| ==> IsDigit(s[i])
  {
    if n < 10 then [DigitChar(n)] else Print(n / 10) + [DigitChar(n % 10)]
  }

  function SkipSpace(s: string): (r: string)
    ensures |r| <= |s|
  {
    if s != "" && IsSpace(s[0]) then SkipSpace(s[1..]) else s
  }

  /** Digits up to the first other character; a single underscore may stand between two digits. */
  function ReadDigits(s: string, acc: nat): nat
    decreases |s|
  {
    if s == "" then acc
    else if IsDigit(s[0]) then ReadDigits(s[1..], 10 * acc + (s[0] as int - '0' as int))
    else acc
  }

  function DropUnderscores(s: string): string {
    if |s| >= 3 && IsDigit(s[0]) && s[1] == '_' && IsDigit(s[2]) then [s[0]] + DropUnderscores(s[2..])
    else if s != "" && IsDigit(s[0]) then [s[0]] + DropUnderscores(s[1..])
    else s
  }

  /** `to_i` */
  function Read(s: string): int {
    var t := SkipSpace(s);
    if t != "" && t[0] == '-' then
      var n: int := ReadDigits(DropUnderscores(t[1..]), 0);
      -n
    else if t != "" && t[0] == '+' then ReadDigits(DropUnderscores(t[1..]), 0)
    else ReadDigits(DropUnderscores(t), 0)
  }

  lemma {:induction false} ReadDigitsOfConcat(s: string, d: char, acc: nat)
    requires IsDigit(d) && forall i :: 0 <= i < |s| ==> IsDigit(s[i])
    ensures ReadDigits(s + [d], acc) == 10 * ReadDigits(s, acc) + (d as int - '0' as int)
    decreases |s|
  {
    if s == "" {
      assert (s + [d])[1..] == "";
    } else {
      assert (s + [d])[1..] == s[1..] + [d];
      ReadDigitsOfConcat(s[1..], d, 10 * acc + (s[0] as int - '0' as int));
    }
  }

  lemma {:induction false} DigitsHaveNoUnderscores(s: string)
    requires forall i :: 0 <= i < |s| ==> IsDigit(s[i])
    ensures DropUnderscores(s) == s
  {
    if s != "" {
      DigitsHaveNoUnderscores(s[1..]);
    }
  }

  lemma {:induction false} ReadDigitsOfPrint(n: nat)
    ensures ReadDigits(Print(n), 0) == n
  {
    if n < 10 {
      assert Print(n)[1..] == "";
    } else {
      ReadDigitsOfPrint(n / 10);
      ReadDigitsOfConcat(Print(n / 10), DigitChar(n % 10), 0);
    }
  }

  /** Reading back a printed number. */
  lemma ReadOfPrint(n: nat)
    ensures Read(Print(n)) == n
  {
    var s := Print(n);
    assert IsDigit(s[0]) && SkipSpace(s) == s;
    DigitsHaveNoUnderscores(s);
    ReadDigitsOfPrint(n);
  }

  lemma PrintIsInjective(m: nat, n: nat)
    requires Print(m) == Print(n)
    ensures m == n
  {
    ReadDigitsOfPrint(m);
    ReadDigitsOfPrint(n);
  }

  // ----- Reading any text -----

  predicate AllDigits(s: string) {
    forall i :: 0 <= i < |s| ==> IsDigit(s[i])
  }

  /** The number that digits stand for. */
  function NumberOf(digits: string): nat
    requires AllDigits(digits)
  {
    if digits == "" then 0
    else 10 * NumberOf(digits[..|digits| - 1]) + (digits[|digits| - 1] as int - '0' as int)
  }

  function Concatenated(groups: seq<string>): string {
    if groups == [] then "" else groups[0] + Concatenated(groups[1..])
  }

  predicate AreDigitGroups(groups: seq<string>) {
    forall i :: 0 <= i < |groups| ==> groups[i] != "" && AllDigits(groups[i])
  }

  /** What follows a numeral: no digit, nor an underscore before one. */
  predicate EndsNumeral(rest: string) {
    rest != "" ==> !IsDigit(rest[0]) && (rest[0] == '_' ==> |rest| < 2 || !IsDigit(rest[1]))
  }

  lemma {:induction false} ConcatenatedAreDigits(groups: seq<string>)
    requires AreDigitGroups(groups)
    ensures AllDigits(Concatenated(groups))
  {
    if groups != [] {
      ConcatenatedAreDigits(groups[1..]);
    }
  }

  lemma {:induction false} ReadsDigits(digits: string, rest: string)
    requires AllDigits(digits) && (rest != "" ==> !IsDigit(rest[0]))
    ensures ReadDigits(digits + rest, 0) == NumberOf(digits)
    decreases |digits|
  {
    ReadsFrom(digits, rest, 0);
    ReadsAll(digits);
  }

  lemma {:induction false} ReadsFrom(digits: string, rest: string, acc: nat)
    requires AllDigits(digits) && (rest != "" ==> !IsDigit(rest[0]))
    ensures ReadDigits(digits + rest, acc) == ReadDigits(digits, acc)
    decreases |digits|
  {
    if digits == "" {
      assert digits + rest == rest;
    } else {
      assert (digits + rest)[1..] == digits[1..] + rest;
      ReadsFrom(digits[1..], rest, 10 * acc + (digits[0] as int - '0' as int));
    }
  }

  lemma {:induction false} ReadsAll(digits: string)
    requires AllDigits(digits)
    ensures ReadDigits(digits, 0) == NumberOf(digits)
  {
    if digits != "" {
      var n := |digits| - 1;
      ReadsAll(digits[..n]);
      ReadDigitsOfConcat(digits[..n], digits[n], 0);
      assert digits == digits[..n] + [digits[n]];
    }
  }

  predicate Continues(s: string) {
    |s| >= 2 && s[0] == '_' && IsDigit(s[1])
  }

  lemma DropsAfterDigit(c: char, s: string)
    requires IsDigit(c)
    ensures DropUnderscores([c] + s) == [c] + DropUnderscores(if Continues(s) then s[1..] else s)
  {
    var t := [c] + s;
    assert t[1..] == s && t[0] == c;
    if Continues(s) {
      assert t[1] == s[0] && t[2] == s[1] && t[2..] == s[1..];
    } else if |t| >= 3 {
      assert t[1] == s[0] && t[2] == s[1];
    }
  }

  /** What becomes of the text behind a group of digits. */
  function Dropped(rest: string): string {
    if Continues(rest) then DropUnderscores(rest[1..]) else rest
  }

  lemma Associates(a: string, b: string, c: string)
    ensures a + (b + c) == a + b + c
  {
  }

  lemma DropsAfterLastDigit(c: char, rest: string)
    requires IsDigit(c) && (rest != "" ==> !IsDigit(rest[0]))
    ensures DropUnderscores([c] + rest) == [c] + Dropped(rest)
  {
    DropsAfterDigit(c, rest);
    assert DropUnderscores(rest) == rest;
  }

  lemma {:induction false} DropsInGroup(group: string, rest: string)
    requires group != "" && AllDigits(group) && (rest != "" ==> !IsDigit(rest[0]))
    ensures DropUnderscores(group + rest) == group + Dropped(rest)
    decreases |group|
  {
    var c, others := group[0], group[1..];
    if others == "" {
      assert group == [c];
      DropsAfterLastDigit(c, rest);
    } else {
      var s := others + rest;
      assert s[0] == others[0];
      DropsAfterDigit(c, s);
      DropsInGroup(others, rest);
      Associates([c], others, rest);
      Associates([c], others, Dropped(rest));
      assert group == [c] + others;
    }
  }

  lemma DropsBeforeUnderscore(group: string, others: string)
    requires group != "" && AllDigits(group) && others != "" && IsDigit(others[0])
    ensures DropUnderscores(group + (['_'] + others)) == group + DropUnderscores(others)
  {
    var s := ['_'] + others;
    assert s[0] == '_' && s[1] == others[0] && s[1..] == others;
    DropsInGroup(group, s);
  }

  lemma {:induction false} DropsBetweenGroups(groups: seq<string>, rest: string)
    requires groups != [] && AreDigitGroups(groups) && EndsNumeral(rest)
    ensures DropUnderscores(Joined(groups, '_') + rest) == Concatenated(groups) + rest
    decreases |groups|
  {
    var first := groups[0];
    if |groups| == 1 {
      DropsInGroup(first, rest);
      assert Dropped(rest) == rest && Concatenated(groups[1..]) == "";
      assert Concatenated(groups) == first && Joined(groups, '_') == first;
    } else {
      var later := groups[1..];
      var others := Joined(later, '_') + rest;
      DropsBetweenGroups(later, rest);
      assert Joined(groups, '_') == first + ['_'] + Joined(later, '_');
      Associates(first + ['_'], Joined(later, '_'), rest);
      Associates(first, ['_'], others);
      assert later[0] != "" && others[0] == later[0][0];
      DropsBeforeUnderscore(first, others);
      Associates(first, Concatenated(later), rest);
    }
  }

  lemma {:induction false} SkipsSpace(space: string, s: string)
    requires Blank(space) && (s != "" ==> !IsSpace(s[0]))
    ensures SkipSpace(space + s) == s
  {
    if space == "" {
      assert space + s == s;
    } else {
      assert (space + s)[1..] == space[1..] + s;
      SkipsSpace(space[1..], s);
    }
  }

  /** The digits of a numeral, and what follows them. */
  lemma ReadsGroups(groups: seq<string>, rest: string)
    requires AreDigitGroups(groups) && EndsNumeral(rest)
    ensures AllDigits(Concatenated(groups))
    ensures ReadDigits(DropUnderscores(Joined(groups, '_') + rest), 0) == NumberOf(Concatenated(groups))
  {
    ConcatenatedAreDigits(groups);
    if groups == [] {
      assert Joined(groups, '_') + rest == rest && DropUnderscores(rest) == rest;
      assert Concatenated(groups) + rest == rest;
    } else {
      DropsBetweenGroups(groups, rest);
    }
    ReadsDigits(Concatenated(groups), rest);
  }

  /** A numeral does not begin with white space, nor with a second sign. */
  predicate FormsNumeral(sign: string, groups: seq<string>, rest: string) {
    && (sign == "" || sign == "+" || sign == "-") && AreDigitGroups(groups) && EndsNumeral(rest)
    && (groups == [] && rest != "" && sign == "" ==> !IsSpace(rest[0]) && rest[0] != '+' && rest[0] != '-')
  }

  lemma NumeralBegins(sign: string, groups: seq<string>, rest: string)
    requires FormsNumeral(sign, groups, rest)
    ensures var numeral := Joined(groups, '_') + rest;
      sign == "" && numeral != "" ==> !IsSpace(numeral[0]) && numeral[0] != '+' && numeral[0] != '-'
  {
    if groups == [] {
      assert Joined(groups, '_') + rest == rest;
    } else {
      assert groups[0] != "" && IsDigit(groups[0][0]);
      assert (Joined(groups, '_') + rest)[0] == groups[0][0];
    }
  }

  /**
   `to_i` reads white space, a sign and digits, in groups with single underscores between them; it is 0 without digits,
   and what follows does not count.
   */
  lemma ReadsNumeral(space: string, sign: string, groups: seq<string>, rest: string)
    requires Blank(space) && FormsNumeral(sign, groups, rest)
    ensures AllDigits(Concatenated(groups))
    ensures Read(space + (sign + (Joined(groups, '_') + rest)))
         == if sign == "-" then -(NumberOf(Concatenated(groups)) as int) else NumberOf(Concatenated(groups))
  {
    var numeral := Joined(groups, '_') + rest;
    var t := sign + numeral;
    ReadsGroups(groups, rest);
    NumeralBegins(sign, groups, rest);
    assert if sign == "" then t == numeral else t[1..] == numeral && t[0] == sign[0];
    SkipsSpace(space, t);
  }
}
