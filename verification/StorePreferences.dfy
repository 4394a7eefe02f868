/**
 app/models/store.rb, `oversized_preferences_check`: entries of a too large preferences hash are removed in eight
 rounds, largest contents and longest keys first, until the rest fits.
 */
module StorePreferences {
  import opened Prelude

  /** `size` is what the content answers to `try(:size).to_i`; `id` tells contents apart. */
  datatype Content = Content(id: int, size: int)

  datatype Entry = Entry(key: string, content: Content)

  /** A hash, in the order of insertion. */
  type Preferences = seq<Entry>

  datatype Criterion = ContentOver(max: int) | KeyOver(max: int)

  predicate Matches(c: Criterion, e: Entry) {
    match c
    case ContentOver(max) => e.content.size > max
    case KeyOver(max) => |e.key| > max
  }

  const ROUNDS: seq<Criterion> :=
    [ContentOver(600), KeyOver(100), ContentOver(300), KeyOver(60),
     ContentOver(150), KeyOver(30), ContentOver(75), KeyOver(15)]

  const PREFERENCES_SIZE_MAX := 2400

  predicate IsHash(p: Preferences) {
    forall i, j :: 0 <= i < j < |p| ==> p[i].key != p[j].key
  }

  // ----- Removing keys -----

  function Without(p: Preferences, keys: seq<string>): Preferences {
    if p == [] then []
    else
      var n := |p| - 1;
      Without(p[..n], keys) + if p[n].key in keys then [] else [p[n]]
  }

  lemma {:induction false} WithoutContents(p: Preferences, keys: seq<string>)
    ensures forall e :: e in Without(p, keys) <==> e in p && e.key !in keys
  {
    if p != [] {
      var n := |p| - 1;
      WithoutContents(p[..n], keys);
      assert p == p[..n] + [p[n]];
    }
  }

  lemma {:induction false} WithoutIsAHash(p: Preferences, keys: seq<string>)
    requires IsHash(p)
    ensures IsHash(Without(p, keys))
  {
    if p != [] {
      var n := |p| - 1;
      WithoutIsAHash(p[..n], keys);
      WithoutContents(p[..n], keys);
    }
  }

  lemma {:induction false} WithoutTwice(p: Preferences, a: seq<string>, b: seq<string>)
    ensures Without(Without(p, a), b) == Without(p, a + b)
  {
    if p != [] {
      var n := |p| - 1;
      WithoutTwice(p[..n], a, b);
      if p[n].key !in a {
        assert (Without(p[..n], a) + [p[n]])[..|Without(p[..n], a)|] == Without(p[..n], a);
      } else {
        assert Without(p, a) == Without(p[..n], a);
      }
    }
  }

  lemma {:induction false} WithoutNothing(p: Preferences)
    ensures Without(p, []) == p
  {
    if p != [] {
      var n := |p| - 1;
      WithoutNothing(p[..n]);
      assert p == p[..n] + [p[n]];
    }
  }

  /** The keys that a round removes if nothing stops it. */
  function RoundKeys(p: Preferences, c: Criterion): seq<string> {
    if p == [] then []
    else
      var n := |p| - 1;
      RoundKeys(p[..n], c) + if Matches(c, p[n]) then [p[n].key] else []
  }

  lemma {:induction false} RoundKeysContents(p: Preferences, c: Criterion)
    ensures forall k :: k in RoundKeys(p, c) <==> exists e :: e in p && e.key == k && Matches(c, e)
  {
    if p != [] {
      var n := |p| - 1;
      RoundKeysContents(p[..n], c);
      assert p == p[..n] + [p[n]];
    }
  }

  lemma {:induction false} RoundKeysOfPrefix(p: Preferences, c: Criterion, i: nat)
    requires i <= |p|
    ensures RoundKeys(p[..i], c) <= RoundKeys(p, c)
  {
    if i < |p| {
      var n := |p| - 1;
      RoundKeysOfPrefix(p[..n], c, i);
      assert p[..n][..i] == p[..i];
    } else {
      assert p[..i] == p;
    }
  }

  lemma OneMoreKey(p: Preferences, c: Criterion, i: nat, m: nat)
    requires i < |p| && m <= |RoundKeys(p, c)| && RoundKeys(p[..i], c) == RoundKeys(p, c)[..m]
    ensures if Matches(c, p[i])
      then m < |RoundKeys(p, c)| && RoundKeys(p, c)[..m] + [p[i].key] == RoundKeys(p, c)[..m + 1]
           && RoundKeys(p[..i + 1], c) == RoundKeys(p, c)[..m + 1]
      else RoundKeys(p[..i + 1], c) == RoundKeys(p, c)[..m]
  {
    RoundKeysOfPrefix(p, c, i + 1);
    assert p[..i + 1][..i] == p[..i];
  }

  /** The keys in the order in which the rounds remove them. */
  function Schedule(p: Preferences, rounds: seq<Criterion>): seq<string>
    decreases |rounds|
  {
    if rounds == [] then []
    else
      var keys := RoundKeys(p, rounds[0]);
      keys + Schedule(Without(p, keys), rounds[1..])
  }

  lemma ScheduleStep(p: Preferences, rounds: seq<Criterion>, k: nat)
    requires k < |rounds|
    ensures Schedule(p, rounds[k..])
            == RoundKeys(p, rounds[k]) + Schedule(Without(p, RoundKeys(p, rounds[k])), rounds[k + 1..])
  {
    assert rounds[k..][1..] == rounds[k + 1..];
  }

  // ----- Stopping early -----

  /** Keys are removed one by one as long as the rest is too large: the first `m` of them. */
  ghost predicate StopsAt(tooLarge: seq<string> -> bool, keys: seq<string>, m: nat) {
    && m <= |keys|
    && (forall j :: 0 <= j < m ==> tooLarge(keys[..j]))
    && (m == |keys| || !tooLarge(keys[..m]))
  }

  /** All of `done` is removed, and then it stops inside `keys`. */
  lemma StopsLater(tooLarge: seq<string> -> bool, after: seq<string> -> bool,
                   done: seq<string>, keys: seq<string>, rest: seq<string>, n: nat)
    requires forall ks :: after(ks) == tooLarge(done + ks)
    requires forall j :: 0 <= j < |done| ==> tooLarge(done[..j])
    requires StopsAt(after, keys, n) && (rest == [] || !after(keys[..n]))
    ensures StopsAt(tooLarge, done + keys + rest, |done| + n)
    ensures (done + keys + rest)[..|done| + n] == done + keys[..n]
  {
    var all := done + keys + rest;
    forall j | 0 <= j <= |done| + n
      ensures all[..j] == if j < |done| then done[..j] else done + keys[..j - |done|]
      ensures j < |done| + n ==> tooLarge(all[..j])
    {
      if j < |done| {
        assert all[..j] == done[..j];
      } else {
        assert all[..j] == done + keys[..j - |done|];
        assert after(keys[..j - |done|]) == tooLarge(all[..j]);
      }
    }
    assert after(keys[..n]) == tooLarge(all[..|done| + n]);
  }

  // ----- The program -----

  /** `oversized_preferences_present?`; `yamlSize` is the length of the YAML text of a preferences hash. */
  predicate Oversized(yamlSize: Preferences -> nat, p: Preferences) {
    yamlSize(p) > PREFERENCES_SIZE_MAX
  }

  /** Whether the preferences are too large without the keys. */
  function TooLarge(yamlSize: Preferences -> nat, p: Preferences): seq<string> -> bool {
    keys => Oversized(yamlSize, Without(p, keys))
  }

  /** Each of the first removals happened while the rest was too large. */
  ghost predicate OversizedUpTo(yamlSize: Preferences -> nat, p: Preferences, keys: seq<string>, m: nat)
    requires m <= |keys|
  {
    forall j :: 0 <= j < m ==> Oversized(yamlSize, Without(p, keys[..j]))
  }

  /** Removal went on exactly while the rest was too large: through the first `m` of the keys. */
  ghost predicate StoppedAt(yamlSize: Preferences -> nat, p: Preferences, keys: seq<string>, m: nat) {
    && m <= |keys| && OversizedUpTo(yamlSize, p, keys, m)
    && (m == |keys| || !Oversized(yamlSize, Without(p, keys[..m])))
  }

  lemma StoppedMeansStops(yamlSize: Preferences -> nat, p: Preferences, keys: seq<string>, m: nat)
    ensures StoppedAt(yamlSize, p, keys, m) <==> StopsAt(TooLarge(yamlSize, p), keys, m)
  {
    if m <= |keys| {
      forall j | 0 <= j <= m
        ensures TooLarge(yamlSize, p)(keys[..j]) == Oversized(yamlSize, Without(p, keys[..j]))
      {
      }
      if StopsAt(TooLarge(yamlSize, p), keys, m) {
        forall j | 0 <= j < m
          ensures Oversized(yamlSize, Without(p, keys[..j]))
        {
          assert TooLarge(yamlSize, p)(keys[..j]);
        }
      }
    }
  }

  lemma OneMoreOversized(yamlSize: Preferences -> nat, p: Preferences, keys: seq<string>, m: nat)
    requires m < |keys| && OversizedUpTo(yamlSize, p, keys, m) && Oversized(yamlSize, Without(p, keys[..m]))
    ensures OversizedUpTo(yamlSize, p, keys, m + 1)
  {
  }

  lemma TooLargeAfter(yamlSize: Preferences -> nat, p: Preferences, done: seq<string>)
    ensures forall keys :: TooLarge(yamlSize, Without(p, done))(keys) == TooLarge(yamlSize, p)(done + keys)
  {
    forall keys
      ensures TooLarge(yamlSize, Without(p, done))(keys) == TooLarge(yamlSize, p)(done + keys)
    {
      WithoutTwice(p, done, keys);
    }
  }

  /** `oversized_preferences_removed?` with one of the two criteria. */
  method Removed(yamlSize: Preferences -> nat, was: Preferences, c: Criterion)
    returns (preferences: Preferences, fits: bool, ghost m: nat)
    ensures StoppedAt(yamlSize, was, RoundKeys(was, c), m)
    ensures preferences == Without(was, RoundKeys(was, c)[..m])
    ensures fits == !Oversized(yamlSize, preferences)
  {
    preferences := was;
    ghost var keys := RoundKeys(was, c);
    m := 0;
    WithoutNothing(was);
    if !Oversized(yamlSize, preferences) {
      return preferences, true, m;
    }
    var i := 0;
    while i < |was|
      invariant i <= |was| && m <= |keys| && RoundKeys(was[..i], c) == keys[..m]
      invariant preferences == Without(was, keys[..m]) && Oversized(yamlSize, preferences)
      invariant OversizedUpTo(yamlSize, was, keys, m)
    {
      var entry := was[i];
      OneMoreKey(was, c, i, m);
      i := i + 1;
      if Matches(c, entry) {
        OneMoreOversized(yamlSize, was, keys, m);
        WithoutTwice(was, keys[..m], [entry.key]);
        preferences := Without(preferences, [entry.key]);
        m := m + 1;
        if !Oversized(yamlSize, preferences) {
          return preferences, true, m;
        }
      }
    }
    assert was[..|was|] == was;
    fits := false;
  }

  lemma StoppedLater(yamlSize: Preferences -> nat, was: Preferences, done: seq<string>, keys: seq<string>,
                     rest: seq<string>, n: nat)
    requires OversizedUpTo(yamlSize, was, done, |done|)
    requires StoppedAt(yamlSize, Without(was, done), keys, n)
    requires rest == [] || !Oversized(yamlSize, Without(Without(was, done), keys[..n]))
    ensures StoppedAt(yamlSize, was, done + keys + rest, |done| + n)
    ensures (done + keys + rest)[..|done| + n] == done + keys[..n]
  {
    var now := Without(was, done);
    StoppedMeansStops(yamlSize, now, keys, n);
    TooLargeAfter(yamlSize, was, done);
    StopsLater(TooLarge(yamlSize, was), TooLarge(yamlSize, now), done, keys, rest, n);
    StoppedMeansStops(yamlSize, was, done + keys + rest, |done| + n);
  }

  /** Before round `k`: the keys `done` have been removed, and the schedule goes on with the rest. */
  ghost predicate Progress(yamlSize: Preferences -> nat, was: Preferences, rounds: seq<Criterion>, k: nat,
                           done: seq<string>, now: Preferences) {
    && k <= |rounds| && now == Without(was, done)
    && Schedule(was, rounds) == done + Schedule(now, rounds[k..])
    && OversizedUpTo(yamlSize, was, done, |done|)
  }

  lemma RoundSplitsSchedule(yamlSize: Preferences -> nat, was: Preferences, rounds: seq<Criterion>, k: nat,
                            done: seq<string>, now: Preferences)
    returns (rest: seq<string>)
    requires Progress(yamlSize, was, rounds, k, done, now) && k < |rounds|
    ensures rest == Schedule(Without(now, RoundKeys(now, rounds[k])), rounds[k + 1..])
    ensures Schedule(was, rounds) == done + RoundKeys(now, rounds[k]) + rest
  {
    var keys := RoundKeys(now, rounds[k]);
    rest := Schedule(Without(now, keys), rounds[k + 1..]);
    ScheduleStep(now, rounds, k);
    assert done + (keys + rest) == done + keys + rest;
  }

  /** A round that removes all its keys. */
  lemma RoundPassed(yamlSize: Preferences -> nat, was: Preferences, rounds: seq<Criterion>, k: nat,
                    done: seq<string>, now: Preferences)
    requires Progress(yamlSize, was, rounds, k, done, now) && k < |rounds|
    requires StoppedAt(yamlSize, now, RoundKeys(now, rounds[k]), |RoundKeys(now, rounds[k])|)
    ensures var keys := RoundKeys(now, rounds[k]);
      Progress(yamlSize, was, rounds, k + 1, done + keys, Without(now, keys))
  {
    var keys := RoundKeys(now, rounds[k]);
    var rest := RoundSplitsSchedule(yamlSize, was, rounds, k, done, now);
    StoppedLater(yamlSize, was, done, keys, [], |keys|);
    assert done + keys + [] == done + keys;
    WithoutTwice(was, done, keys);
  }

  /** A round that stops because the rest fits. */
  lemma RoundStopped(yamlSize: Preferences -> nat, was: Preferences, rounds: seq<Criterion>, k: nat,
                     done: seq<string>, now: Preferences, n: nat)
    requires Progress(yamlSize, was, rounds, k, done, now) && k < |rounds|
    requires StoppedAt(yamlSize, now, RoundKeys(now, rounds[k]), n)
    requires !Oversized(yamlSize, Without(now, RoundKeys(now, rounds[k])[..n]))
    ensures StoppedAt(yamlSize, was, Schedule(was, rounds), |done| + n)
    ensures Without(now, RoundKeys(now, rounds[k])[..n]) == Without(was, Schedule(was, rounds)[..|done| + n])
  {
    var keys := RoundKeys(now, rounds[k]);
    var rest := RoundSplitsSchedule(yamlSize, was, rounds, k, done, now);
    StoppedLater(yamlSize, was, done, keys, rest, n);
    WithoutTwice(was, done, keys[..n]);
  }

  lemma AllRoundsPassed(yamlSize: Preferences -> nat, was: Preferences, rounds: seq<Criterion>, done: seq<string>,
                        now: Preferences)
    requires Progress(yamlSize, was, rounds, |rounds|, done, now)
    ensures StoppedAt(yamlSize, was, Schedule(was, rounds), |done|)
    ensures now == Without(was, Schedule(was, rounds)[..|done|])
  {
    assert rounds[|rounds|..] == [] && done + [] == done;
    assert done[..|done|] == done;
  }

  lemma NothingDoneYet(yamlSize: Preferences -> nat, was: Preferences, rounds: seq<Criterion>)
    ensures Progress(yamlSize, was, rounds, 0, [], was)
  {
    WithoutNothing(was);
    assert rounds[0..] == rounds && [] + Schedule(was, rounds) == Schedule(was, rounds);
  }

  method CheckRounds(yamlSize: Preferences -> nat, was: Preferences, rounds: seq<Criterion>)
    returns (preferences: Preferences, ghost m: nat)
    ensures StoppedAt(yamlSize, was, Schedule(was, rounds), m)
    ensures preferences == Without(was, Schedule(was, rounds)[..m])
  {
    preferences := was;
    ghost var done: seq<string> := [];
    NothingDoneYet(yamlSize, was, rounds);
    for k := 0 to |rounds|
      invariant Progress(yamlSize, was, rounds, k, done, preferences)
    {
      ghost var now := preferences;
      ghost var keys := RoundKeys(now, rounds[k]);
      var fits; ghost var n;
      preferences, fits, n := Removed(yamlSize, preferences, rounds[k]);
      if fits {
        RoundStopped(yamlSize, was, rounds, k, done, now, n);
        return preferences, |done| + n;
      }
      assert n == |keys|;
      assert keys[..n] == keys;
      RoundPassed(yamlSize, was, rounds, k, done, now);
      done := done + keys;
    }
    AllRoundsPassed(yamlSize, was, rounds, done, preferences);
    return preferences, |done|;
  }

  class Row {
    var preferences: Preferences
    const yamlSize: Preferences -> nat

    constructor (preferences: Preferences, yamlSize: Preferences -> nat)
      ensures this.preferences == preferences && this.yamlSize == yamlSize
    {
      this.preferences, this.yamlSize := preferences, yamlSize;
    }

    /** `oversized_preferences_check`, which runs before a row is created or updated. */
    method Check() returns (ghost m: nat)
      modifies this
      ensures StoppedAt(yamlSize, old(preferences), Schedule(old(preferences), ROUNDS), m)
      ensures preferences == Without(old(preferences), Schedule(old(preferences), ROUNDS)[..m])
    {
      preferences, m := CheckRounds(yamlSize, preferences, ROUNDS);
    }
  }

  // ----- What is left -----

  /** After all rounds nothing is left that one of them removes. */
  lemma {:induction false} ScheduleRemovesMatching(p: Preferences, rounds: seq<Criterion>, r: nat, e: Entry)
    requires r < |rounds| && e in Without(p, Schedule(p, rounds))
    ensures !Matches(rounds[r], e)
    decreases |rounds|
  {
    var keys := RoundKeys(p, rounds[0]);
    var q, rest := Without(p, keys), Schedule(Without(p, keys), rounds[1..]);
    WithoutTwice(p, keys, rest);
    assert e in Without(q, rest);
    if r > 0 {
      ScheduleRemovesMatching(q, rounds[1..], r - 1, e);
    } else {
      WithoutContents(q, rest);
      RoundRemovesMatching(p, rounds[0], e);
    }
  }

  lemma RoundRemovesMatching(p: Preferences, c: Criterion, e: Entry)
    requires e in Without(p, RoundKeys(p, c))
    ensures !Matches(c, e)
  {
    WithoutContents(p, RoundKeys(p, c));
    RoundKeysContents(p, c);
  }

  /**
   Entries are removed only while the text is longer than 2400 characters. The result is a part of the original entries
   that is not longer, or has only keys of at most 15 characters and contents of at most 75.
   */
  lemma LeftOversAreSmall(yamlSize: Preferences -> nat, p: Preferences, m: nat)
    requires StoppedAt(yamlSize, p, Schedule(p, ROUNDS), m)
    ensures var q := Without(p, Schedule(p, ROUNDS)[..m]);
      && (forall e :: e in q ==> e in p)
      && (forall j :: 0 <= j < m ==> yamlSize(Without(p, Schedule(p, ROUNDS)[..j])) > 2400)
      && (yamlSize(q) <= 2400 || forall e :: e in q ==> |e.key| <= 15 && e.content.size <= 75)
  {
    var keys := Schedule(p, ROUNDS);
    var q := Without(p, keys[..m]);
    WithoutContents(p, keys[..m]);
    if Oversized(yamlSize, q) {
      assert keys[..m] == keys;
      forall e | e in q
        ensures |e.key| <= 15 && e.content.size <= 75
      {
        LastRounds(p, e);
      }
    }
  }

  lemma LastRounds(p: Preferences, e: Entry)
    requires e in Without(p, Schedule(p, ROUNDS))
    ensures |e.key| <= 15 && e.content.size <= 75
  {
    ScheduleRemovesMatching(p, ROUNDS, 6, e);
    ScheduleRemovesMatching(p, ROUNDS, 7, e);
  }

  // ----- The order of removal -----

  /** The round that removes the entry if the removal gets that far; `|rounds|` if none does. */
  function RoundOf(e: Entry, rounds: seq<Criterion>): (r: nat)
    ensures r <= |rounds| && (forall j :: 0 <= j < r ==> !Matches(rounds[j], e))
    ensures r < |rounds| ==> Matches(rounds[r], e)
  {
    if rounds == [] || Matches(rounds[0], e) then 0 else 1 + RoundOf(e, rounds[1..])
  }

  /** The eight rounds. */
  lemma RoundExactly(e: Entry)
    ensures RoundOf(e, ROUNDS)
         == if e.content.size > 600 then 0 else if |e.key| > 100 then 1
            else if e.content.size > 300 then 2 else if |e.key| > 60 then 3
            else if e.content.size > 150 then 4 else if |e.key| > 30 then 5
            else if e.content.size > 75 then 6 else if |e.key| > 15 then 7
            else 8
  {
    var r := RoundOf(e, ROUNDS);
    assert ROUNDS[0] == ContentOver(600) && ROUNDS[1] == KeyOver(100) && ROUNDS[2] == ContentOver(300)
           && ROUNDS[3] == KeyOver(60) && ROUNDS[4] == ContentOver(150) && ROUNDS[5] == KeyOver(30)
           && ROUNDS[6] == ContentOver(75) && ROUNDS[7] == KeyOver(15);
    assert r == 0 || r == 1 || r == 2 || r == 3 || r == 4 || r == 5 || r == 6 || r == 7 || r == 8;
  }

  /** A key that a round does not remove is in the schedule only after that round. */
  lemma AfterTheRound(keys: seq<string>, rest: seq<string>, k: string, j: nat)
    requires j < |keys + rest| && (keys + rest)[j] == k && k !in keys
    ensures |keys| <= j && rest[j - |keys|] == k
  {
    assert forall i :: 0 <= i < |keys| ==> keys[i] in keys;
  }

  /** An entry whose round comes first is in the schedule before all entries of later rounds. */
  lemma {:induction false} EarlierRoundsComeFirst(p: Preferences, rounds: seq<Criterion>, e: Entry, f: Entry, j: nat)
    requires IsHash(p) && e in p && f in p && RoundOf(e, rounds) < RoundOf(f, rounds)
    requires j < |Schedule(p, rounds)| && Schedule(p, rounds)[j] == f.key
    ensures exists i :: 0 <= i < j && Schedule(p, rounds)[i] == e.key
    decreases |rounds|
  {
    var keys := RoundKeys(p, rounds[0]);
    var q := Without(p, keys);
    var rest := Schedule(q, rounds[1..]);
    KeyIsOfEntry(p, f, rounds[0]);
    KeyIsOfEntry(p, e, rounds[0]);
    AfterTheRound(keys, rest, f.key, j);
    if Matches(rounds[0], e) {
      var i :| 0 <= i < |keys| && keys[i] == e.key;
      assert Schedule(p, rounds)[i] == e.key;
    } else {
      StaysInHash(p, keys, e);
      StaysInHash(p, keys, f);
      EarlierRoundsComeFirst(q, rounds[1..], e, f, j - |keys|);
      var i :| 0 <= i < j - |keys| && rest[i] == e.key;
      assert Schedule(p, rounds)[i + |keys|] == e.key;
    }
  }

  lemma StaysInHash(p: Preferences, keys: seq<string>, e: Entry)
    requires IsHash(p) && e in p && e.key !in keys
    ensures IsHash(Without(p, keys)) && e in Without(p, keys)
  {
    WithoutIsAHash(p, keys);
    WithoutContents(p, keys);
  }

  lemma KeyIsOfEntry(p: Preferences, e: Entry, c: Criterion)
    requires IsHash(p) && e in p
    ensures e.key in RoundKeys(p, c) <==> Matches(c, e)
  {
    RoundKeysContents(p, c);
    if e.key in RoundKeys(p, c) {
      var f :| f in p && f.key == e.key && Matches(c, f);
      var i :| 0 <= i < |p| && p[i] == e;
      var j :| 0 <= j < |p| && p[j] == f;
      assert i == j;
    }
  }

  /** No entry goes while an entry of an earlier round stays. */
  lemma NoEntryGoesBeforeItsTurn(p: Preferences, rounds: seq<Criterion>, m: nat, e: Entry, f: Entry)
    requires IsHash(p) && m <= |Schedule(p, rounds)| && e in p && f in p
    requires RoundOf(e, rounds) < RoundOf(f, rounds) && e in Without(p, Schedule(p, rounds)[..m])
    ensures f in Without(p, Schedule(p, rounds)[..m])
  {
    var gone := Schedule(p, rounds)[..m];
    WithoutContents(p, gone);
    assert forall i :: 0 <= i < m ==> Schedule(p, rounds)[i] == gone[i] && gone[i] in gone;
    forall j | 0 <= j < m
      ensures gone[j] != f.key
    {
      if Schedule(p, rounds)[j] == f.key {
        EarlierRoundsComeFirst(p, rounds, e, f, j);
      }
    }
  }
}
