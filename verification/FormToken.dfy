/**
 app/controllers/form_controller.rb: the token that the form configuration hands out and the submission checks.
 It names the host, the time and the browser's fingerprint; encryption is any pair of functions that undo each
 other.
 */
module FormToken {
  import opened Prelude
  import opened Decimal
  import opened Base64
  import opened Splitting
  import opened Texts

  /** MessageEncryptor with the application's secret; `seal` also takes what makes each encryption different. */
  datatype Crypt = Crypt(seal: (string, nat) -> string, open: string -> Option<string>)

  ghost predicate Sound(crypt: Crypt) {
    forall text, nonce {:trigger crypt.seal(text, nonce)} ::
      IsBytes(crypt.seal(text, nonce)) && crypt.seal(text, nonce) != ""
      && crypt.open(crypt.seal(text, nonce)) == Some(text)
  }

  datatype Verdict = Accepted | Forbidden | NotAuthorized

  predicate IsAscii(s: string) {
    forall i :: 0 <= i < |s| ==> s[i] as int < 128
  }

  /** Ruby compares a binary string with a text: the same bytes, and none of them outside ASCII. */
  predicate SameText(binary: string, text: string) {
    binary == text && IsAscii(text)
  }

  // ----- The two functions of the controller -----

  /** The text that names host, time and fingerprint. */
  function TextOf(fqdn: string, now: nat, fingerprint: string): string
    requires IsBytes(fqdn) && IsBytes(fingerprint)
  {
    Encode(fqdn) + ":" + Print(now) + ":" + Encode(fingerprint)
  }

  /** `token_gen` */
  function TokenGen(crypt: Crypt, nonce: nat, fqdn: string, now: nat, fingerprint: string): string
    requires IsBytes(fqdn) && IsBytes(fingerprint)
  {
    var sealed := crypt.seal(TextOf(fqdn, now, fingerprint), nonce);
    if IsBytes(sealed) then Encode(sealed) else ""
  }

  /** `token_valid?`; the exceptions it raises are verdicts. */
  function TokenValid(crypt: Crypt, fqdn: string, now: int, token: string, fingerprint: string): Verdict {
    if Blank(token) then Forbidden
    else match crypt.open(Decode(token))
      case None => NotAuthorized
      case Some(result) =>
        if Blank(result) then NotAuthorized
        else
          var parts := Split(result, ':');
          if |parts| != 3 then NotAuthorized
          else if !SameText(Decode(parts[0]), fqdn) then NotAuthorized
          else if !SameText(Decode(parts[2]), fingerprint) then NotAuthorized
          else if Read(parts[1]) < now - 60 * 60 * 24 then NotAuthorized
          else Accepted
  }

  /** `fingerprint_exists?` */
  function FingerprintExists(fingerprint: Option<string>): Verdict {
    if fingerprint.Some? && !Blank(fingerprint.value) && |fingerprint.value| > 30 then Accepted else Forbidden
  }

  /** The token that `configuration` hands out, or its exception. */
  function Configuration(crypt: Crypt, nonce: nat, fqdn: string, now: nat, fingerprint: Option<string>)
    : Result<string, Verdict>
    requires IsBytes(fqdn) && (fingerprint.Some? ==> IsBytes(fingerprint.value))
  {
    if FingerprintExists(fingerprint) == Accepted then Ok(TokenGen(crypt, nonce, fqdn, now, fingerprint.value))
    else Err(FingerprintExists(fingerprint))
  }

  /** The checks of `submit`. */
  function Submission(crypt: Crypt, fqdn: string, now: int, token: string, fingerprint: Option<string>): Verdict {
    if FingerprintExists(fingerprint) == Accepted then TokenValid(crypt, fqdn, now, token, fingerprint.value)
    else FingerprintExists(fingerprint)
  }

  // ----- Lemmas about splitting -----

  lemma ThreePieces(a: string, b: string, c: string)
    requires Free(a, ':') && Free(b, ':') && Free(c, ':') && b != ""
    ensures Split(a + ":" + b + ":" + c, ':') == if c == "" then [a, b] else [a, b, c]
  {
    var s := a + ":" + b + ":" + c;
    assert s == a + [':'] + (b + [':'] + c);
    FirstPiece(a, ':', b + [':'] + c);
    FirstPiece(b, ':', c);
    OnePiece(c, ':');
    assert Pieces(s, ':') == [a, b, c];
    assert [a, b, c][..2] == [a, b];
    assert DropTrailingEmpty([a, b]) == [a, b];
  }

  lemma EncodedHasNoColon(s: string)
    requires IsBytes(s)
    ensures Free(Encode(s), ':')
    ensures s != "" ==> !Blank(Encode(s))
  {
    EncodedAlphabet(s);
    if s != "" {
      assert InAlphabet(Encode(s)[0]);
    }
  }

  // ----- Round trip -----

  /** What `token_valid?` makes of the text sealed in a generated token. */
  lemma SealedTextSplits(fqdn: string, now: nat, fingerprint: string)
    requires IsBytes(fqdn) && IsBytes(fingerprint)
    ensures var text := TextOf(fqdn, now, fingerprint);
      !Blank(text)
      && Split(text, ':') == if fingerprint == "" then [Encode(fqdn), Print(now)]
                        else [Encode(fqdn), Print(now), Encode(fingerprint)]
  {
    var text := TextOf(fqdn, now, fingerprint);
    EncodedHasNoColon(fqdn);
    EncodedHasNoColon(fingerprint);
    EncodedAlphabet(fingerprint);
    ThreePieces(Encode(fqdn), Print(now), Encode(fingerprint));
    assert text[|Encode(fqdn)|] == ':';
  }

  lemma TokenOpens(crypt: Crypt, nonce: nat, fqdn: string, now: nat, fingerprint: string)
    requires Sound(crypt) && IsBytes(fqdn) && IsBytes(fingerprint)
    ensures var token := TokenGen(crypt, nonce, fqdn, now, fingerprint);
      !Blank(token)
      && crypt.open(Decode(token)) == Some(TextOf(fqdn, now, fingerprint))
  {
    var sealed := crypt.seal(TextOf(fqdn, now, fingerprint), nonce);
    EncodedHasNoColon(sealed);
    DecodeOfEncode(sealed);
  }

  /**
   A generated token is accepted exactly for the same host and fingerprint, both in ASCII and the fingerprint not
   empty, and up to the maximal age; in all other cases the answer is NotAuthorized.
   */
  lemma TokenAcceptedExactly(crypt: Crypt, nonce: nat, fqdn: string, generatedAt: nat, fingerprint: string,
                             fqdnNow: string, now: int, presented: string)
    requires Sound(crypt) && IsBytes(fqdn) && IsBytes(fingerprint)
    ensures TokenValid(crypt, fqdnNow, now, TokenGen(crypt, nonce, fqdn, generatedAt, fingerprint), presented)
            == if fqdnNow == fqdn && IsAscii(fqdn) && presented == fingerprint && IsAscii(fingerprint)
                  && fingerprint != "" && now - generatedAt <= 24 * 60 * 60
               then Accepted else NotAuthorized
  {
    TokenOpens(crypt, nonce, fqdn, generatedAt, fingerprint);
    SealedTextSplits(fqdn, generatedAt, fingerprint);
    DecodeOfEncode(fqdn);
    DecodeOfEncode(fingerprint);
    ReadOfPrint(generatedAt);
  }

  /** More than 30 bytes, not all of them white space. */
  predicate Usable(fingerprint: Option<string>) {
    && fingerprint.Some? && |fingerprint.value| >= 31
    && exists i :: 0 <= i < |fingerprint.value| && !IsSpace(fingerprint.value[i])
  }

  /**
   Both actions are forbidden without a usable fingerprint. With one, what `configuration` hands out is accepted by
   `submit` exactly for the same one, in ASCII and up to the maximal age, and is not authorized otherwise.
   */
  lemma ConfiguredThenSubmitted(crypt: Crypt, nonce: nat, fqdn: string, generatedAt: nat,
                                fingerprint: Option<string>, now: int, presented: Option<string>)
    requires Sound(crypt) && IsBytes(fqdn) && (fingerprint.Some? ==> IsBytes(fingerprint.value))
    ensures match Configuration(crypt, nonce, fqdn, generatedAt, fingerprint)
      case Err(e) => !Usable(fingerprint) && e == Forbidden
      case Ok(token) =>
        var verdict := Submission(crypt, fqdn, now, token, presented);
        && Usable(fingerprint)
        && (verdict == Accepted <==> presented == fingerprint && IsAscii(fqdn) && IsAscii(fingerprint.value)
                                     && now - generatedAt <= 24 * 60 * 60)
        && (verdict == Forbidden <==> !Usable(presented))
  {
    if Usable(fingerprint) && Usable(presented) {
      TokenAcceptedExactly(crypt, nonce, fqdn, generatedAt, fingerprint.value, fqdn, now, presented.value);
    }
  }

  // ----- Any token -----

  /** Three parts without colons, the last one not empty, perhaps with more colons behind them. */
  predicate Consists(text: string, host: string, time: string, mark: string, n: nat) {
    && text == Joined([host, time, mark] + Empties(n), ':')
    && Free(host, ':') && Free(time, ':') && Free(mark, ':') && mark != ""
  }

  /** The text consists of this host, a time at most a day ago, and this fingerprint. */
  ghost predicate VouchesFor(text: string, fqdn: string, now: int, fingerprint: string) {
    exists host, time, mark, n: nat ::
      && Consists(text, host, time, mark, n)
      && Decode(host) == fqdn && IsAscii(fqdn) && Decode(mark) == fingerprint && IsAscii(fingerprint)
      && now - Read(time) <= 24 * 60 * 60
  }

  lemma ConsistsOfParts(text: string, host: string, time: string, mark: string, n: nat)
    requires Consists(text, host, time, mark, n)
    ensures Split(text, ':') == [host, time, mark] && !Blank(text)
  {
    var ps := [host, time, mark] + Empties(n);
    assert ps != [] && Joined(ps, ':') == text;
    assert [host, time, mark][2] == mark;
    SplitExactly(text, ':', [host, time, mark]);
    assert text == host + [':'] + Joined(ps[1..], ':');
    assert text[|host|] == ':';
  }

  lemma VouchingPassesTheChecks(crypt: Crypt, fqdn: string, now: int, token: string, fingerprint: string,
                                text: string)
    requires !Blank(token) && crypt.open(Decode(token)) == Some(text) && VouchesFor(text, fqdn, now, fingerprint)
    ensures TokenValid(crypt, fqdn, now, token, fingerprint) == Accepted
  {
    var host, time, mark, n: nat :|
      && Consists(text, host, time, mark, n)
      && Decode(host) == fqdn && IsAscii(fqdn) && Decode(mark) == fingerprint && IsAscii(fingerprint)
      && now - Read(time) <= 24 * 60 * 60;
    ConsistsOfParts(text, host, time, mark, n);
  }

  lemma PassingTheChecksVouches(crypt: Crypt, fqdn: string, now: int, token: string, fingerprint: string)
    requires TokenValid(crypt, fqdn, now, token, fingerprint) == Accepted
    ensures !Blank(token) && crypt.open(Decode(token)).Some?
    ensures VouchesFor(crypt.open(Decode(token)).value, fqdn, now, fingerprint)
  {
    var text := crypt.open(Decode(token)).value;
    var parts := Split(text, ':');
    SplitExactly(text, ':', parts);
    var n: nat :| Joined(parts + Empties(n), ':') == text;
    assert parts == [parts[0], parts[1], parts[2]];
    assert Consists(text, parts[0], parts[1], parts[2], n);
  }

  /**
   The answer to any token at all: Forbidden exactly for a blank one, Accepted exactly for one that opens to a text
   that vouches for host and fingerprint, and NotAuthorized for all others, such as those that do not open.
   */
  lemma TokenVerdictExactly(crypt: Crypt, fqdn: string, now: int, token: string, fingerprint: string)
    ensures var verdict := TokenValid(crypt, fqdn, now, token, fingerprint);
      var text := crypt.open(Decode(token));
      && (verdict == Forbidden <==> Blank(token))
      && (verdict == Accepted <==>
           !Blank(token) && text.Some? && VouchesFor(text.value, fqdn, now, fingerprint))
      && (verdict == NotAuthorized <==>
           !Blank(token) && (text.None? || !VouchesFor(text.value, fqdn, now, fingerprint)))
  {
    var text := crypt.open(Decode(token));
    if TokenValid(crypt, fqdn, now, token, fingerprint) == Accepted {
      PassingTheChecksVouches(crypt, fqdn, now, token, fingerprint);
    }
    if !Blank(token) && text.Some? && VouchesFor(text.value, fqdn, now, fingerprint) {
      VouchingPassesTheChecks(crypt, fqdn, now, token, fingerprint, text.value);
    }
  }

  // ----- Only tokens of the application -----

  /** A token that the application has handed out. */
  datatype Issue = Issue(nonce: nat, fqdn: string, at: nat, fingerprint: string) {
    predicate Proper() {
      IsBytes(fqdn) && IsBytes(fingerprint)
    }

    function Sealed(crypt: Crypt): string
      requires Proper()
    {
      crypt.seal(TextOf(fqdn, at, fingerprint), nonce)
    }
  }

  /** Encryption is authenticated: nothing opens but what has been sealed for a token. */
  ghost predicate OpensOnly(crypt: Crypt, issued: iset<Issue>) {
    forall x :: crypt.open(x).Some? ==> exists i :: i in issued && i.Proper() && i.Sealed(crypt) == x
  }

  /**
   Then a token, whoever made it up, is accepted exactly if it decodes to what was sealed for a token that was handed
   out for this host and fingerprint no more than a day ago.
   */
  lemma OnlyIssuedTokensAreAccepted(crypt: Crypt, issued: iset<Issue>, fqdn: string, now: int, token: string,
                                    fingerprint: string)
    requires Sound(crypt) && OpensOnly(crypt, issued)
    ensures TokenValid(crypt, fqdn, now, token, fingerprint) == Accepted
            <==> !Blank(token)
                 && exists i :: i in issued && i.Proper() && Decode(token) == i.Sealed(crypt)
                      && i.fqdn == fqdn && IsAscii(fqdn)
                      && i.fingerprint == fingerprint && IsAscii(fingerprint) && fingerprint != ""
                      && now - i.at <= 24 * 60 * 60
  {
    forall i: Issue | i.Proper() && Decode(token) == i.Sealed(crypt) && !Blank(token)
      ensures TokenValid(crypt, fqdn, now, token, fingerprint) == Accepted
              <==> i.fqdn == fqdn && IsAscii(fqdn) && i.fingerprint == fingerprint && IsAscii(fingerprint)
                   && fingerprint != "" && now - i.at <= 24 * 60 * 60
    {
      TokenOpens(crypt, i.nonce, i.fqdn, i.at, i.fingerprint);
      TokenAcceptedExactly(crypt, i.nonce, i.fqdn, i.at, i.fingerprint, fqdn, now, fingerprint);
      SameOpening(crypt, fqdn, now, token, TokenGen(crypt, i.nonce, i.fqdn, i.at, i.fingerprint), fingerprint);
    }
  }

  lemma SameOpening(crypt: Crypt, fqdn: string, now: int, a: string, b: string, fingerprint: string)
    requires !Blank(a) && !Blank(b) && crypt.open(Decode(a)) == crypt.open(Decode(b))
    ensures TokenValid(crypt, fqdn, now, a, fingerprint) == TokenValid(crypt, fqdn, now, b, fingerprint)
  {
  }
}
