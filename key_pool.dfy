/**
 * The backend's API-key pool (backend/server.js): the configured key list,
 * the rotation cursor `currentKeyIndex`, and the two per-key maps of
 * last-use time and error count, with the selection policy and the
 * bookkeeping operations that update them.
 */
module KeyRotation {
  import opened Wrappers
  import Text
  import JsNumber

  /** A key used within this many milliseconds is cooling down. */
  const CooldownMs := 30000
  /** A key with this many errors is skipped by the primary rule. */
  const MaxErrors := 3

  /** `(env.GEMINI_API_KEYS || env.GEMINI_API_KEY || '')`: an absent or empty variable falls through. */
  function ConfigValue(keysVar: Option<string>, keyVar: Option<string>): (r: string)
    ensures keysVar.Some? && keysVar.value != [] ==> r == keysVar.value
    ensures (keysVar.None? || keysVar.value == []) && keyVar.Some? ==> r == keyVar.value
    ensures (keysVar.None? || keysVar.value == []) && keyVar.None? ==> r == []
  {
    if keysVar.Some? && keysVar.value != [] then keysVar.value
    else if keyVar.Some? then keyVar.value
    else []
  }

  /** The pieces of `pieces` whose trim is not empty, in order. */
  function NonBlank(pieces: seq<string>): (r: seq<string>)
    ensures |r| <= |pieces|
    ensures forall k :: k in r ==> k in pieces && Text.Trim(k) != []
    ensures forall k :: k in pieces && Text.Trim(k) != [] ==> k in r
  {
    if pieces == [] then []
    else (if Text.Trim(pieces[0]) != [] then [pieces[0]] else []) + NonBlank(pieces[1..])
  }

  /** Filtering keeps the order: the kept pieces of `a + b` are those of `a`, then those of `b`. */
  lemma {:induction false} NonBlankAppend(a: seq<string>, b: seq<string>)
    ensures NonBlank(a + b) == NonBlank(a) + NonBlank(b)
    decreases |a|
  {
    if a == [] {
      assert a + b == b;
    } else {
      assert (a + b)[0] == a[0] && (a + b)[1..] == a[1..] + b;
      NonBlankAppend(a[1..], b);
      Text.AppendAssoc(if Text.Trim(a[0]) != [] then [a[0]] else [], NonBlank(a[1..]), NonBlank(b));
    }
  }

  /** Filtering keeps duplicates: a non-blank piece is kept as often as it occurs, a blank one never. */
  lemma {:induction false} NonBlankCounts(pieces: seq<string>, k: string)
    ensures multiset(NonBlank(pieces))[k] == if Text.Trim(k) != [] then multiset(pieces)[k] else 0
    decreases |pieces|
  {
    if pieces != [] {
      var h, t := pieces[0], pieces[1..];
      NonBlankCounts(t, k);
      assert pieces == [h] + t;
      assert multiset(pieces) == multiset([h]) + multiset(t);
      if Text.Trim(h) != [] {
        assert NonBlank(pieces) == [h] + NonBlank(t);
        assert multiset(NonBlank(pieces)) == multiset([h]) + multiset(NonBlank(t));
      } else {
        assert NonBlank(pieces) == NonBlank(t);
      }
    }
  }

  /** `API_KEYS`: the configured value split at commas, blank pieces dropped (entries stay untrimmed). */
  function LoadKeys(config: string): (keys: seq<string>)
    ensures forall k :: k in keys ==> k in Text.Split(config, ',') && Text.Trim(k) != [] && ',' !in k
  {
    Text.SplitPiecesLackSep(config, ',');
    NonBlank(Text.Split(config, ','))
  }

  /** A comma-free configured value loads itself as the one key, or nothing when it is blank. */
  lemma LoadKeysSingle(piece: string)
    requires ',' !in piece
    ensures LoadKeys(piece) == if Text.Trim(piece) != [] then [piece] else []
  {
    Text.SplitNone(piece, ',');
    assert [piece][1..] == [];
  }

  /**
   * Keys load in configuration order: the keys of `a,b` are the keys of
   * `a` followed by the keys of `b`, duplicates included.
   */
  lemma LoadKeysAppend(a: string, b: string)
    ensures LoadKeys(a + [','] + b) == LoadKeys(a) + LoadKeys(b)
  {
    Text.SplitAppend(a, b, ',');
    NonBlankAppend(Text.Split(a, ','), Text.Split(b, ','));
  }

  /** Every character is a comma or white space. */
  predicate SpaceOrComma(s: string) {
    forall i :: 0 <= i < |s| ==> s[i] == ',' || Text.IsSpace(s[i])
  }

  /** A configuration of only commas and white space loads no key, and any other loads at least one. */
  lemma LoadKeysEmptyIff(config: string)
    ensures LoadKeys(config) == [] <==> SpaceOrComma(config)
  {
    var pieces := Text.Split(config, ',');
    PiecesBlankIff(config);
    if LoadKeys(config) == [] {
      forall k | k in pieces ensures Text.AllSpace(k) {
        assert k !in NonBlank(pieces);
        Text.TrimEmptyIff(k);
      }
    } else {
      var k := LoadKeys(config)[0];
      assert k in NonBlank(pieces);
      Text.TrimEmptyIff(k);
    }
  }

  /** Every piece of the split is blank exactly when the string holds only commas and white space. */
  lemma {:induction false} PiecesBlankIff(config: string)
    ensures (forall k :: k in Text.Split(config, ',') ==> Text.AllSpace(k)) <==> SpaceOrComma(config)
    decreases |config|
  {
    var pieces := Text.Split(config, ',');
    if ',' in config {
      var i := Text.IndexOf(config, ',');
      var head, rest := config[..i], config[i + 1..];
      Text.SplitUnfold(config, ',');
      PiecesBlankIff(rest);
      SpaceOrCommaAt(config, i);
      assert (forall k :: k in pieces ==> Text.AllSpace(k))
         <==> Text.AllSpace(head) && (forall k :: k in Text.Split(rest, ',') ==> Text.AllSpace(k));
    } else {
      Text.SplitNone(config, ',');
      forall j | 0 <= j < |config| ensures config[j] != ',' {
        assert config[j] in config;
      }
      assert SpaceOrComma(config) <==> Text.AllSpace(config);
    }
  }

  /** Cut at a comma, the string holds only commas and white space exactly when both sides do. */
  lemma SpaceOrCommaAt(config: string, i: nat)
    requires i < |config| && config[i] == ',' && ',' !in config[..i]
    ensures SpaceOrComma(config) <==> Text.AllSpace(config[..i]) && SpaceOrComma(config[i + 1..])
  {
    var head, rest := config[..i], config[i + 1..];
    if SpaceOrComma(config) {
      forall j | 0 <= j < |head| ensures Text.IsSpace(head[j]) { assert head[j] == config[j]; }
      forall j | 0 <= j < |rest| ensures rest[j] == ',' || Text.IsSpace(rest[j]) { assert rest[j] == config[i + 1 + j]; }
    }
    if Text.AllSpace(head) && SpaceOrComma(rest) {
      forall j | 0 <= j < |config| ensures config[j] == ',' || Text.IsSpace(config[j]) {
        if j < i { assert config[j] == head[j]; } else if j > i { assert config[j] == rest[j - i - 1]; }
      }
    }
  }

  /** `map.get(k) || 0`: a missing entry reads as 0. */
  function Lookup(m: map<string, int>, k: string): int {
    if k in m then m[k] else 0
  }

  /** The key at pool position `i`, trimmed as the selector and the bookkeeping see it. */
  function KeyAt(keys: seq<string>, i: nat): string
    requires i < |keys|
  {
    Text.Trim(keys[i])
  }

  /** The set of trimmed pool keys. */
  function PoolKeys(keys: seq<string>): set<string> {
    if keys == [] then {} else PoolKeys(keys[..|keys| - 1]) + {KeyAt(keys, |keys| - 1)}
  }

  /** Each pool position's trimmed key is a pool key, and every pool key is at some position. */
  lemma {:induction false} PoolKeysMembers(keys: seq<string>, k: string)
    ensures k in PoolKeys(keys) <==> exists i :: 0 <= i < |keys| && k == KeyAt(keys, i)
  {
    if keys != [] {
      var front := keys[..|keys| - 1];
      PoolKeysMembers(front, k);
      forall i | 0 <= i < |front| ensures KeyAt(front, i) == KeyAt(keys, i) {
        assert front[i] == keys[i];
      }
    }
  }

  lemma PoolKeysExtend(keys: seq<string>, i: nat)
    requires i < |keys|
    ensures PoolKeys(keys[..i + 1]) == PoolKeys(keys[..i]) + {KeyAt(keys, i)}
  {
    var a := keys[..i + 1];
    assert a[..|a| - 1] == keys[..i];
    assert KeyAt(a, |a| - 1) == KeyAt(keys, i);
  }

  /** The primary rule's test: fewer than 3 errors and last used more than 30 s before `now`. */
  predicate Eligible(k: string, lastUsed: map<string, int>, errors: map<string, int>, now: int) {
    Lookup(errors, k) < MaxErrors && now - Lookup(lastUsed, k) > CooldownMs
  }

  /** Pool position `offset` steps after the cursor, wrapping around. */
  function Rotated(keys: seq<string>, cursor: nat, offset: nat): (i: nat)
    requires |keys| > 0
    ensures i < |keys|
  {
    (cursor + offset) % |keys|
  }

  /**
   * The smallest offset `>= from` whose key is eligible, scanning the pool
   * cyclically from the cursor; None when no offset below `|keys|` is.
   */
  function FirstEligible(keys: seq<string>, cursor: nat, lastUsed: map<string, int>,
                         errors: map<string, int>, now: int, from: nat): (r: Option<nat>)
    requires |keys| > 0
    ensures r.Some? ==> from <= r.value < |keys|
                        && Eligible(KeyAt(keys, Rotated(keys, cursor, r.value)), lastUsed, errors, now)
    ensures forall j :: from <= j < |keys| && (r.None? || j < r.value)
                        ==> !Eligible(KeyAt(keys, Rotated(keys, cursor, j)), lastUsed, errors, now)
    decreases |keys| - from
  {
    if from >= |keys| then None
    else if Eligible(KeyAt(keys, Rotated(keys, cursor, from)), lastUsed, errors, now) then Some(from)
    else FirstEligible(keys, cursor, lastUsed, errors, now, from + 1)
  }

  /**
   * `m` is `m0` with every key of `ks` set to 0: those keys are present
   * and 0, every other key of `m0` keeps its value, and no other key appears.
   */
  predicate ResetOn(m: map<string, int>, m0: map<string, int>, ks: set<string>) {
    && m.Keys == m0.Keys + ks
    && (forall k :: k in ks ==> m[k] == 0)
    && (forall k :: k in m0 && k !in ks ==> m[k] == m0[k])
  }

  /** Setting one more key to 0 extends the reset set by that key. */
  lemma ResetOnExtend(m: map<string, int>, m0: map<string, int>, ks: set<string>, k: string)
    requires ResetOn(m, m0, ks)
    ensures ResetOn(m[k := 0], m0, ks + {k})
  {
  }

  /**
   * Among the first `n` pool positions, the one whose key was used least
   * recently; on a tie the earliest, since the scan replaces the candidate
   * only on a strictly smaller time.
   */
  function OldestAmong(keys: seq<string>, lastUsed: map<string, int>, n: nat): (r: nat)
    requires 1 <= n <= |keys|
    ensures r < n
    ensures forall j :: 0 <= j < n ==> Lookup(lastUsed, KeyAt(keys, r)) <= Lookup(lastUsed, KeyAt(keys, j))
    ensures forall j :: 0 <= j < r ==> Lookup(lastUsed, KeyAt(keys, r)) < Lookup(lastUsed, KeyAt(keys, j))
  {
    if n == 1 then 0
    else
      var best := OldestAmong(keys, lastUsed, n - 1);
      var last, oldest := Lookup(lastUsed, KeyAt(keys, n - 1)), Lookup(lastUsed, KeyAt(keys, best));
      if last < oldest then n - 1 else best
  }

  /** What the selector picks: a pool position, and whether the primary rule found it. */
  datatype Choice = Choice(index: nat, primary: bool)

  /**
   * The selection policy of `getNextApiKey`: nothing for an empty pool; else
   * the first eligible key scanning cyclically from the cursor; else the
   * least recently used key, ignoring error counts.
   */
  function Choose(keys: seq<string>, cursor: nat, lastUsed: map<string, int>,
                  errors: map<string, int>, now: int): (c: Option<Choice>)
    ensures c.Some? <==> |keys| > 0
    ensures c.Some? ==> c.value.index < |keys|
    // primary rule: an eligible key, and every key scanned before it is not eligible
    ensures c.Some? && c.value.primary ==>
              Eligible(KeyAt(keys, c.value.index), lastUsed, errors, now)
              && (exists off :: 0 <= off < |keys| && c.value.index == Rotated(keys, cursor, off)
                   && forall j :: 0 <= j < off ==> !Eligible(KeyAt(keys, Rotated(keys, cursor, j)), lastUsed, errors, now))
    // fallback: only when no key is eligible; least recently used, earliest on ties
    ensures c.Some? && !c.value.primary ==>
              (forall i :: 0 <= i < |keys| ==> !Eligible(KeyAt(keys, i), lastUsed, errors, now))
              && (forall j :: 0 <= j < |keys| ==> Lookup(lastUsed, KeyAt(keys, c.value.index)) <= Lookup(lastUsed, KeyAt(keys, j)))
              && (forall j :: 0 <= j < c.value.index ==> Lookup(lastUsed, KeyAt(keys, c.value.index)) < Lookup(lastUsed, KeyAt(keys, j)))
  {
    if |keys| == 0 then None
    else match FirstEligible(keys, cursor, lastUsed, errors, now, 0)
      case Some(off) => Some(Choice(Rotated(keys, cursor, off), true))
      case None =>
        forall i | 0 <= i < |keys| ensures !Eligible(KeyAt(keys, i), lastUsed, errors, now) {
          RotationCovers(keys, cursor, i);
        }
        Some(Choice(OldestAmong(keys, lastUsed, |keys|), false))
  }

  /** Every pool position is reached from the cursor at some offset below the pool size. */
  lemma RotationCovers(keys: seq<string>, cursor: nat, i: nat)
    requires i < |keys|
    ensures exists off :: 0 <= off < |keys| && Rotated(keys, cursor, off) == i
  {
    var n := |keys|;
    var q, c := cursor / n, cursor % n;
    var off: nat := if c <= i then i - c else i - c + n;
    var k := if c <= i then q else q + 1;
    assert cursor + off == k * n + i;
    ModOfMultiplePlus(k, n, i);
    assert Rotated(keys, cursor, off) == i;
  }

  lemma ModOfMultiplePlus(k: nat, n: nat, i: nat)
    requires i < n
    ensures (k * n + i) % n == i
  {
    var m := k * n + i;
    var d := m / n - k;
    assert m == n * (m / n) + m % n;
    assert n * d == i - m % n by {
      assert n * (m / n) == n * d + n * k;
    }
    if d <= -1 {
      assert n * d <= n * -1 by { JsNumber.MulMonotone(n, d, -1); }
    }
    assert d == 0;
  }

  /** The mutable part of the pool as a value: rotation cursor, last-use times, error counts. */
  datatype PoolState = PoolState(cursor: nat, lastUsed: map<string, int>, errors: map<string, int>)

  /** What one `getNextApiKey()` call on a non-empty pool yields: the key and the new cursor. */
  datatype Selected = Selected(key: string, cursor: nat)

  /**
   * `getNextApiKey()` on a non-empty pool as a value: the key `Choose` picks,
   * and the cursor moved to it when the primary rule found it.
   */
  function Selection(keys: seq<string>, st: PoolState, now: int): (s: Selected)
    requires |keys| > 0
    ensures s.key in PoolKeys(keys)
    ensures st.cursor < |keys| ==> s.cursor < |keys|
  {
    var c := Choose(keys, st.cursor, st.lastUsed, st.errors, now).value;
    PoolKeysMembers(keys, KeyAt(keys, c.index));
    Selected(KeyAt(keys, c.index), if c.primary then c.index else st.cursor)
  }

  /** `m` with the trimmed key of every pool position set to 0, in pool order. */
  function ResetKeys(m: map<string, int>, keys: seq<string>): map<string, int> {
    if keys == [] then m else ResetKeys(m, keys[..|keys| - 1])[KeyAt(keys, |keys| - 1) := 0]
  }

  /** Resetting the pool's keys zeroes exactly the pool keys and keeps every other entry. */
  lemma {:induction false} ResetKeysResets(m: map<string, int>, keys: seq<string>)
    ensures ResetOn(ResetKeys(m, keys), m, PoolKeys(keys))
  {
    if keys != [] {
      ResetKeysResets(m, keys[..|keys| - 1]);
      ResetOnExtend(ResetKeys(m, keys[..|keys| - 1]), m, PoolKeys(keys[..|keys| - 1]), KeyAt(keys, |keys| - 1));
    }
  }

  /** The reset between wait cycles as a value: both maps reset on the pool keys, cursor kept. */
  function ResetState(keys: seq<string>, st: PoolState): PoolState {
    PoolState(st.cursor, ResetKeys(st.lastUsed, keys), ResetKeys(st.errors, keys))
  }

  /**
   * The process-wide key state: the key list fixed at start-up, the rotation
   * cursor and the two maps keyed by trimmed key.
   */
  class KeyPool {
    const keys: seq<string>          // API_KEYS
    var cursor: nat                  // currentKeyIndex
    var lastUsed: map<string, int>   // keyLastUsed, milliseconds
    var errors: map<string, int>     // keyErrorCount

    /** The cursor indexes the pool (0 for an empty pool); no error count is negative. */
    ghost predicate Valid()
      reads this
    {
      (if |keys| == 0 then cursor == 0 else cursor < |keys|)
      && (forall k :: k in errors ==> errors[k] >= 0)
    }

    /** The mutable fields as one value. */
    function State(): PoolState
      reads this
    {
      PoolState(cursor, lastUsed, errors)
    }

    /** Start-up: keys loaded from the configured value, cursor 0, both maps empty. */
    constructor (config: string)
      ensures Valid()
      ensures keys == LoadKeys(config) && cursor == 0 && lastUsed == map[] && errors == map[]
    {
      keys := LoadKeys(config);
      cursor := 0;
      lastUsed := map[];
      errors := map[];
    }

    /**
     * `getNextApiKey()` at time `now`: the key `Choose` picks, trimmed; the
     * cursor moves to it when the primary rule found it and stays otherwise.
     */
    method Select(now: int) returns (key: Option<string>)
      requires Valid()
      modifies this`cursor
      ensures Valid()
      ensures var c := Choose(keys, old(cursor), lastUsed, errors, now);
              && (key.Some? <==> c.Some?)
              && (c.Some? ==> key.value == KeyAt(keys, c.value.index)
                              && cursor == if c.value.primary then c.value.index else old(cursor))
              && (c.None? ==> cursor == old(cursor))
    {
      if |keys| == 0 {
        return None;
      }
      var n := |keys|;
      var i := 0;
      while i < n
        invariant 0 <= i <= n
        invariant FirstEligible(keys, cursor, lastUsed, errors, now, 0)
                  == FirstEligible(keys, cursor, lastUsed, errors, now, i)
      {
        var index := (cursor + i) % n;
        var k := Text.Trim(keys[index]);
        var used := Lookup(lastUsed, k);
        var errorCount := Lookup(errors, k);
        if errorCount < MaxErrors && now - used > CooldownMs {
          cursor := index;
          return Some(k);
        }
        i := i + 1;
      }
      // every key is cooling down or has too many errors: take the least recently used
      var oldestKey := Text.Trim(keys[0]);
      var oldestTime := Lookup(lastUsed, oldestKey);
      ghost var oldest := 0;
      for j := 0 to n
        invariant oldest == OldestAmong(keys, lastUsed, if j == 0 then 1 else j)
        invariant oldestKey == KeyAt(keys, oldest) && oldestTime == Lookup(lastUsed, oldestKey)
      {
        var k := Text.Trim(keys[j]);
        var used := Lookup(lastUsed, k);
        if used < oldestTime {
          oldestTime := used;
          oldestKey := k;
          oldest := j;
        }
      }
      return Some(oldestKey);
    }

    /** `markKeyUsed(key)`: the key's last-use time becomes `now`; nothing else changes. */
    method MarkUsed(key: string, now: int)
      modifies this`lastUsed
      ensures lastUsed == old(lastUsed)[key := now]
    {
      lastUsed := lastUsed[key := now];
    }

    /** `markKeyError(key)`: the key's error count goes up by exactly one; nothing else changes. */
    method MarkError(key: string)
      requires Valid()
      modifies this`errors
      ensures Valid()
      ensures errors == old(errors)[key := Lookup(old(errors), key) + 1]
    {
      errors := errors[key := Lookup(errors, key) + 1];
    }

    /**
     * The timer `markKeyError` schedules two minutes later: the count goes
     * down by one but never below zero.  The caller decides when it fires.
     */
    method Decay(key: string)
      requires Valid()
      modifies this`errors
      ensures Valid()
      ensures errors == old(errors)[key := if Lookup(old(errors), key) > 0 then Lookup(old(errors), key) - 1 else 0]
    {
      var c := Lookup(errors, key) - 1;
      errors := errors[key := if c > 0 then c else 0];
    }

    /** `resetKeyError(key)`: the key's error count becomes 0; nothing else changes. */
    method ResetError(key: string)
      requires Valid()
      modifies this`errors
      ensures Valid()
      ensures errors == old(errors)[key := 0]
    {
      errors := errors[key := 0];
    }

    /** The rate-limit branch's `currentKeyIndex = (currentKeyIndex + 1) % API_KEYS.length`. */
    method Rotate()
      requires Valid() && |keys| > 0
      modifies this`cursor
      ensures Valid()
      ensures cursor == (old(cursor) + 1) % |keys|
    {
      cursor := (cursor + 1) % |keys|;
    }

    /**
     * The reset between sweeps: every pool key's error count and last-use
     * time become 0; entries for other keys are untouched.
     */
    method ResetAll()
      requires Valid()
      modifies this`errors, this`lastUsed
      ensures Valid()
      ensures errors == ResetKeys(old(errors), keys) && lastUsed == ResetKeys(old(lastUsed), keys)
      ensures ResetOn(errors, old(errors), PoolKeys(keys))
      ensures ResetOn(lastUsed, old(lastUsed), PoolKeys(keys))
    {
      for i := 0 to |keys|
        invariant Valid()
        invariant errors == ResetKeys(old(errors), keys[..i])
        invariant lastUsed == ResetKeys(old(lastUsed), keys[..i])
      {
        var k := Text.Trim(keys[i]);
        assert keys[..i + 1][..i] == keys[..i];
        assert KeyAt(keys[..i + 1], i) == k;
        errors := errors[k := 0];
        lastUsed := lastUsed[k := 0];
      }
      assert keys[..|keys|] == keys;
      ResetKeysResets(old(errors), keys);
      ResetKeysResets(old(lastUsed), keys);
    }
  }
}
