/** Base 64 (section 4 of RFC 4648): Ruby's `strict_encode64` and the lenient `decode64`. */
module Base64 {
  import opened Prelude

  /** A string of bytes, one char each. */
  predicate IsBytes(s: string) {
    forall i :: 0 <= i < |s| ==> s[i] as int < 256
  }

  /** A six-bit value. */
  type Sextet = v: nat | v < 64

  function Symbol(v: Sextet): char {
    if v < 26 then (v + 'A' as int) as char
    else if v < 52 then (v - 26 + 'a' as int) as char
    else if v < 62 then (v - 52 + '0' as int) as char
    else if v == 62 then '+'
    else '/'
  }

  function SymbolValue(c: char): Option<Sextet> {
    if 'A' <= c <= 'Z' then Some(c as int - 'A' as int)
    else if 'a' <= c <= 'z' then Some(c as int - 'a' as int + 26)
    else if '0' <= c <= '9' then Some(c as int - '0' as int + 52)
    else if c == '+' then Some(62)
    else if c == '/' then Some(63)
    else None
  }

  lemma SymbolHasItsValue(v: Sextet)
    ensures SymbolValue(Symbol(v)) == Some(v)
  {
  }

  // ----- Bytes and sextets -----

  function First(a: char): Sextet
    requires a as int < 256
  {
    a as int / 4
  }

  function Second(a: char, b: char): Sextet
    requires a as int < 256 && b as int < 256
  {
    a as int % 4 * 16 + b as int / 16
  }

  function Third(b: char, c: char): Sextet
    requires b as int < 256 && c as int < 256
  {
    b as int % 16 * 4 + c as int / 64
  }

  function Fourth(c: char): Sextet {
    c as int % 64
  }

  const ZERO := 0 as char

  function Sextets(s: string): seq<Sextet>
    requires IsBytes(s)
  {
    if s == "" then []
    else if |s| == 1 then [First(s[0]), Second(s[0], ZERO)]
    else if |s| == 2 then [First(s[0]), Second(s[0], s[1]), Third(s[1], ZERO)]
    else [First(s[0]), Second(s[0], s[1]), Third(s[1], s[2]), Fourth(s[2])] + Sextets(s[3..])
  }

  /** The three bytes of a group, each from two neighbouring sextets. */
  function Byte1(v: Sextet, w: Sextet): char {
    var n: int, m: int := v, w;
    (n * 4 + m / 16) as char
  }

  function Byte2(v: Sextet, w: Sextet): char {
    var n: int, m: int := v, w;
    (n % 16 * 16 + m / 4) as char
  }

  function Byte3(v: Sextet, w: Sextet): char {
    var n: int, m: int := v, w;
    (n % 4 * 64 + m) as char
  }

  /** A last group of two or three sextets gives one or two bytes; a single sextet gives none. */
  function BytesOf(vs: seq<Sextet>): string {
    if |vs| < 2 then ""
    else if |vs| == 2 then [Byte1(vs[0], vs[1])]
    else if |vs| == 3 then [Byte1(vs[0], vs[1]), Byte2(vs[1], vs[2])]
    else [Byte1(vs[0], vs[1]), Byte2(vs[1], vs[2]), Byte3(vs[2], vs[3])] + BytesOf(vs[4..])
  }

  lemma GroupRoundTrip(a: char, b: char, c: char)
    requires a as int < 256 && b as int < 256 && c as int < 256
    ensures Byte1(First(a), Second(a, b)) == a
    ensures Byte2(Second(a, b), Third(b, c)) == b
    ensures Byte3(Third(b, c), Fourth(c)) == c
  {
  }

  lemma FullGroup(a: char, b: char, c: char, rest: seq<Sextet>)
    requires a as int < 256 && b as int < 256 && c as int < 256
    ensures BytesOf([First(a), Second(a, b), Third(b, c), Fourth(c)] + rest) == [a, b, c] + BytesOf(rest)
  {
    GroupRoundTrip(a, b, c);
    assert ([First(a), Second(a, b), Third(b, c), Fourth(c)] + rest)[4..] == rest;
  }

  lemma {:induction false} BytesOfSextets(s: string)
    requires IsBytes(s)
    ensures BytesOf(Sextets(s)) == s
    decreases |s|
  {
    if |s| >= 3 {
      BytesOfSextets(s[3..]);
      FullGroup(s[0], s[1], s[2], Sextets(s[3..]));
      assert [s[0], s[1], s[2]] + s[3..] == s;
    } else if |s| == 2 {
      GroupRoundTrip(s[0], s[1], ZERO);
    } else if |s| == 1 {
      GroupRoundTrip(s[0], ZERO, ZERO);
    }
  }

  lemma {:induction false} SextetCount(s: string)
    requires IsBytes(s)
    ensures |Sextets(s)| % 4 == (if |s| % 3 == 0 then 0 else |s| % 3 + 1)
    ensures Sextets(s) == [] <==> s == ""
    decreases |s|
  {
    if |s| >= 3 {
      SextetCount(s[3..]);
    }
  }

  // ----- Sextets and text -----

  function SymbolsOf(vs: seq<Sextet>): (t: string)
    ensures |t| == |vs|
  {
    seq(|vs|, i requires 0 <= i < |vs| => Symbol(vs[i]))
  }

  function Padding(count: nat): string {
    if count % 4 == 2 then "==" else if count % 4 == 3 then "=" else ""
  }

  /** `strict_encode64` */
  function Encode(s: string): string
    requires IsBytes(s)
  {
    SymbolsOf(Sextets(s)) + Padding(|Sextets(s)|)
  }

  /**
   The values of the symbols in a text, over any other characters. A '=' ends the text when it stands in the second
   half of a group of four; `count` symbols came before.
   */
  function ValuesIn(t: string, count: nat): seq<Sextet> {
    if t == "" then []
    else match SymbolValue(t[0])
      case Some(v) => [v] + ValuesIn(t[1..], count + 1)
      case None => if t[0] == '=' && count % 4 >= 2 then [] else ValuesIn(t[1..], count)
  }

  /** `decode64` */
  function Decode(t: string): string {
    BytesOf(ValuesIn(t, 0))
  }

  lemma {:induction false} ValuesInSymbols(vs: seq<Sextet>, count: nat, pad: string)
    requires pad == Padding(count + |vs|)
    ensures ValuesIn(SymbolsOf(vs) + pad, count) == vs
    decreases |vs|
  {
    var t := SymbolsOf(vs) + pad;
    if vs == [] {
      assert t == pad;
      assert SymbolValue('=') == None;
    } else {
      SymbolHasItsValue(vs[0]);
      assert t[1..] == SymbolsOf(vs[1..]) + pad;
      ValuesInSymbols(vs[1..], count + 1, pad);
    }
  }

  /** Decoding undoes encoding. */
  lemma DecodeOfEncode(s: string)
    requires IsBytes(s)
    ensures Decode(Encode(s)) == s
  {
    ValuesInSymbols(Sextets(s), 0, Padding(|Sextets(s)|));
    BytesOfSextets(s);
  }

  predicate InAlphabet(c: char) {
    SymbolValue(c).Some? || c == '='
  }

  lemma SymbolsAreInAlphabet(vs: seq<Sextet>)
    ensures forall i :: 0 <= i < |SymbolsOf(vs)| ==> InAlphabet(SymbolsOf(vs)[i])
  {
    forall i | 0 <= i < |vs|
      ensures InAlphabet(SymbolsOf(vs)[i])
    {
      SymbolHasItsValue(vs[i]);
    }
  }

  /** The encoding uses the alphabet and the padding character only, so it has no ':' and no white space. */
  lemma EncodedAlphabet(s: string)
    requires IsBytes(s)
    ensures forall i :: 0 <= i < |Encode(s)| ==> InAlphabet(Encode(s)[i])
    ensures Encode(s) == "" <==> s == ""
    ensures |Encode(s)| % 4 == 0
  {
    SextetCount(s);
    SymbolsAreInAlphabet(Sextets(s));
    var pad := Padding(|Sextets(s)|);
    assert |pad| <= 2 && forall i :: 0 <= i < |pad| ==> pad[i] == '=';
  }

  // ----- Leniency -----

  /** The symbols and padding characters of a text. */
  function Kept(t: string): string {
    if t == "" then "" else (if InAlphabet(t[0]) then [t[0]] else "") + Kept(t[1..])
  }

  lemma {:induction false} ValuesInKept(t: string, count: nat)
    ensures ValuesIn(t, count) == ValuesIn(Kept(t), count)
  {
    if t != "" {
      ValuesInKept(t[1..], count);
      ValuesInKept(t[1..], count + 1);
      var rest := Kept(t[1..]);
      if InAlphabet(t[0]) {
        assert Kept(t) == [t[0]] + rest && ([t[0]] + rest)[1..] == rest;
      } else {
        assert Kept(t) == "" + rest == rest;
      }
    }
  }

  lemma {:induction false} ValuesInMore(vs: seq<Sextet>, count: nat, more: string)
    ensures ValuesIn(SymbolsOf(vs) + more, count) == vs + ValuesIn(more, count + |vs|)
    decreases |vs|
  {
    var t := SymbolsOf(vs) + more;
    if vs == [] {
      assert t == more;
    } else {
      SymbolHasItsValue(vs[0]);
      assert t[1..] == SymbolsOf(vs[1..]) + more;
      ValuesInMore(vs[1..], count + 1, more);
    }
  }

  lemma OneFurther(c: nat, d: nat)
    requires c % 4 == d % 4
    ensures (c + 1) % 4 == (d + 1) % 4
  {
  }

  lemma {:induction false} OnlyThePlaceInTheGroupCounts(t: string, c: nat, d: nat)
    requires c % 4 == d % 4
    ensures ValuesIn(t, c) == ValuesIn(t, d)
  {
    if t != "" {
      var rest := t[1..];
      OnlyThePlaceInTheGroupCounts(rest, c, d);
      OneFurther(c, d);
      OnlyThePlaceInTheGroupCounts(rest, c + 1, d + 1);
    }
  }

  lemma Regrouped<T>(a: seq<T>, b: seq<T>, c: seq<T>)
    ensures a + (b + c) == a + b + c
  {
  }

  lemma {:induction false} BytesAfterFullGroups(s: string, vs: seq<Sextet>)
    requires IsBytes(s) && |s| % 3 == 0
    ensures BytesOf(Sextets(s) + vs) == s + BytesOf(vs)
    decreases |s|
  {
    if s == "" {
      assert Sextets(s) + vs == vs;
    } else {
      var a, b, c, rest := s[0], s[1], s[2], s[3..];
      BytesAfterFullGroups(rest, vs);
      FullGroup(a, b, c, Sextets(rest) + vs);
      Regrouped([First(a), Second(a, b), Third(b, c), Fourth(c)], Sextets(rest), vs);
      Regrouped([a, b, c], rest, BytesOf(vs));
      assert s == [a, b, c] + rest;
    }
  }

  lemma UnpaddedValues(s: string)
    requires IsBytes(s)
    ensures ValuesIn(SymbolsOf(Sextets(s)), 0) == Sextets(s)
  {
    var vs := Sextets(s);
    ValuesInMore(vs, 0, "");
    assert SymbolsOf(vs) + "" == SymbolsOf(vs) && ValuesIn("", |vs|) == [] && vs + [] == vs;
  }

  lemma PaddedValues(s: string, more: string)
    requires IsBytes(s) && |s| % 3 != 0
    ensures ValuesIn(SymbolsOf(Sextets(s)) + ("=" + more), 0) == Sextets(s)
  {
    var vs := Sextets(s);
    SextetCount(s);
    ValuesInMore(vs, 0, "=" + more);
    assert SymbolValue('=') == None;
    assert ValuesIn("=" + more, |vs|) == [] && vs + [] == vs;
  }

  /** Characters that are not of the alphabet make no difference; the padding may be missing, and ends the text. */
  lemma DecodesLeniently(t: string, s: string, more: string)
    requires IsBytes(s)
    requires Kept(t) == SymbolsOf(Sextets(s)) || (|s| % 3 != 0 && Kept(t) == SymbolsOf(Sextets(s)) + ("=" + more))
    ensures Decode(t) == s
  {
    ValuesInKept(t, 0);
    UnpaddedValues(s);
    if |s| % 3 != 0 { PaddedValues(s, more); }
    BytesOfSextets(s);
  }

  /** After full groups the rest is decoded by itself; a padding character there is ignored, and so is a lone symbol. */
  lemma DecodesFullGroups(s: string, rest: string)
    requires IsBytes(s) && |s| % 3 == 0
    ensures Decode(Encode(s) + rest) == s + Decode(rest)
    ensures Decode("=" + rest) == Decode(rest)
    ensures |rest| == 1 ==> Decode(rest) == ""
  {
    SextetCount(s);
    var vs := Sextets(s);
    assert Encode(s) == SymbolsOf(vs);
    ValuesInMore(vs, 0, rest);
    OnlyThePlaceInTheGroupCounts(rest, |vs|, 0);
    BytesAfterFullGroups(s, ValuesIn(rest, 0));
    assert ("=" + rest)[1..] == rest && SymbolValue('=') == None;
    if |rest| == 1 {
      assert rest[1..] == "";
    }
  }
}
