/** The random token generator of settings.go (`random`): a rejection sampler
    that reads 6-bit groups off 63-bit random values and keeps those that index
    the 52-letter alphabet. The time-seeded source is injected as a finite
    prefix `draws` of the values its Int63 would return. */
module Token {

  /** The values a source's Int63 returns: non-negative 63-bit integers. */
  predicate Int63s(ds: seq<nat>) {
    forall k :: 0 <= k < |ds| ==> ds[k] < 0x8000_0000_0000_0000
  }

  /** `1 << letterIdxBits` with 6 bits per letter index: on a non-negative
      cache, `cache & letterIdxMask` is `cache % Radix` and
      `cache >> letterIdxBits` is `cache / Radix`. */
  const Radix: nat := 64
  /** Letter indices that fit in 63 bits: 63 / 6. */
  const LetterIdxMax: nat := 10
  const LetterBytes: string := "abcdefghijklmnopqrstuvwxyzABCDEFGHIJKLMNOPQRSTUVWXYZ"

  /** The groups read off `cache` in `remain` steps, lowest bits first. */
  function Chunk(cache: nat, remain: nat): (gs: seq<nat>)
    ensures |gs| == remain
  {
    if remain == 0 then [] else [cache % Radix] + Chunk(cache / Radix, remain - 1)
  }

  /** Each group read off the cache is a 6-bit value. */
  lemma {:induction false} ChunkBelowRadix(cache: nat, remain: nat)
    ensures forall k :: 0 <= k < remain ==> Chunk(cache, remain)[k] < Radix
  {
    if remain > 0 {
      ChunkBelowRadix(cache / Radix, remain - 1);
      assert Chunk(cache, remain) == [cache % Radix] + Chunk(cache / Radix, remain - 1);
    }
  }

  /** Every group the sampler can examine, in order: LetterIdxMax groups per drawn value. */
  function Groups(ds: seq<nat>): (gs: seq<nat>)
    ensures |gs| == LetterIdxMax * |ds|
  {
    if ds == [] then [] else Groups(ds[..|ds| - 1]) + Chunk(ds[|ds| - 1], LetterIdxMax)
  }

  /** Group values that index the alphabet. */
  predicate AllLetters(gs: seq<nat>) {
    forall k :: 0 <= k < |gs| ==> gs[k] < |LetterBytes|
  }

  /** The accepted groups, in the order they are examined; groups >= 52 are dropped. */
  function Accepted(gs: seq<nat>): (acc: seq<nat>)
    ensures |acc| <= |gs|
    ensures AllLetters(acc)
  {
    if gs == [] then []
    else
      var last := gs[|gs| - 1];
      Accepted(gs[..|gs| - 1]) + (if last < |LetterBytes| then [last] else [])
  }

  /** The letters of the accepted groups, the first one in the LAST slot. */
  function Spell(acc: seq<nat>): (s: string)
    requires AllLetters(acc)
    ensures |s| == |acc|
    ensures forall k :: 0 <= k < |s| ==> s[k] in LetterBytes
  {
    if acc == [] then [] else [LetterBytes[acc[|acc| - 1]]] + Spell(acc[..|acc| - 1])
  }

  /** The j-th accepted group is written to slot |acc| - 1 - j. */
  lemma {:induction false} SpellAt(acc: seq<nat>, j: nat)
    requires AllLetters(acc) && j < |acc|
    ensures Spell(acc)[|acc| - 1 - j] == LetterBytes[acc[j]]
  {
    if j < |acc| - 1 {
      var front := acc[..|acc| - 1];
      SpellAt(front, j);
      assert Spell(acc)[|acc| - 1 - j] == Spell(front)[|front| - 1 - j];
    }
  }

  /** Rejection commutes with concatenation: whether a group is kept depends on it alone. */
  lemma {:induction false} AcceptedAppend(a: seq<nat>, b: seq<nat>)
    ensures Accepted(a + b) == Accepted(a) + Accepted(b)
  {
    if b == [] {
      assert a + b == a;
    } else {
      var front := b[..|b| - 1];
      assert (a + b)[..|a + b| - 1] == a + front;
      AcceptedAppend(a, front);
    }
  }

  /** The groups of the first k drawn values are a prefix of all groups. */
  lemma {:induction false} GroupsPrefix(ds: seq<nat>, k: nat)
    requires k <= |ds|
    ensures Groups(ds[..k]) == Groups(ds)[..LetterIdxMax * k]
  {
    if k == |ds| {
      assert ds[..k] == ds;
    } else {
      var front := ds[..|ds| - 1];
      GroupsPrefix(front, k);
      assert front[..k] == ds[..k];
    }
  }

  /** Examining one more group extends the accepted ones by it exactly when it is below 52. */
  lemma AcceptedPush(gs: seq<nat>, g: nat)
    ensures Accepted(gs + [g]) == Accepted(gs) + (if g < |LetterBytes| then [g] else [])
  {
    assert (gs + [g])[..|gs|] == gs;
  }

  /** Accepting a group writes its letter in front of those already written. */
  lemma SpellPush(acc: seq<nat>, g: nat)
    requires AllLetters(acc) && g < |LetterBytes|
    ensures AllLetters(acc + [g])
    ensures Spell(acc + [g]) == [LetterBytes[g]] + Spell(acc)
  {
    assert (acc + [g])[..|acc|] == acc;
  }

  /** Drawing one more value appends its LetterIdxMax groups. */
  lemma GroupsDraw(ds: seq<nat>, k: nat)
    requires k < |ds|
    ensures Groups(ds[..k + 1]) == Groups(ds[..k]) + Chunk(ds[k], LetterIdxMax)
  {
    assert ds[..k + 1][..k] == ds[..k];
  }

  /** Examining a group moves it from the cache to the examined ones. */
  lemma ChunkStep(consumed: seq<nat>, cache: nat, remain: nat)
    requires remain > 0
    ensures consumed + Chunk(cache, remain)
         == (consumed + [cache % Radix]) + Chunk(cache / Radix, remain - 1)
  {
  }

  /** The slots after i hold the accepted groups spelled backwards. */
  ghost predicate Filled(w: seq<char>, i: int, consumed: seq<nat>) {
    && -1 <= i < |w|
    && |Accepted(consumed)| == |w| - 1 - i
    && w[i + 1..] == Spell(Accepted(consumed))
  }

  /** An accepted group fills slot i and moves i down by one. */
  lemma FillAccept(w: seq<char>, i: int, consumed: seq<nat>, g: nat)
    requires Filled(w, i, consumed) && 0 <= i && g < |LetterBytes|
    ensures Filled(w[i := LetterBytes[g]], i - 1, consumed + [g])
  {
    var kept := Accepted(consumed);
    AcceptedPush(consumed, g);
    SpellPush(kept, g);
    var w' := w[i := LetterBytes[g]];
    assert w'[i + 1..] == w[i + 1..];
    assert w'[i..] == [w'[i]] + w'[i + 1..];
  }

  /** A rejected group leaves the slots and i as they are. */
  lemma FillReject(w: seq<char>, i: int, consumed: seq<nat>, g: nat)
    requires Filled(w, i, consumed) && g >= |LetterBytes|
    ensures Filled(w, i, consumed + [g])
  {
    AcceptedPush(consumed, g);
    assert Accepted(consumed + [g]) == Accepted(consumed);
  }

  /** One group of the loop body: an accepted group is written to b[i] and moves
      i down; a rejected one changes neither. */
  method Place(b: array<char>, i: int, idx: nat, ghost consumed: seq<nat>) returns (next: int)
    requires Filled(b[..], i, consumed) && 0 <= i
    modifies b
    ensures Filled(b[..], next, consumed + [idx])
    ensures next == if idx < |LetterBytes| then i - 1 else i
    ensures idx >= |LetterBytes| ==> b[..] == old(b[..])
    ensures idx < |LetterBytes| ==> b[..] == old(b[..])[i := LetterBytes[idx]]
  {
    next := i;
    if idx < |LetterBytes| {
      FillAccept(b[..], i, consumed, idx);
      b[i] := LetterBytes[idx];
      next := i - 1;
    } else {
      FillReject(b[..], i, consumed, idx);
    }
  }

  /** The groups examined so far followed by the rest of the cache are those of
      the first `drawn` values. */
  ghost predicate Drawn(draws: seq<nat>, drawn: nat, consumed: seq<nat>, cache: nat, remain: nat) {
    && drawn <= |draws|
    && consumed + Chunk(cache, remain) == Groups(draws[..drawn])
  }

  /** A used-up cache is refilled from the next value. While fewer groups have
      been accepted than the supplied values hold, there is a next value. */
  lemma DrawnRefill(draws: seq<nat>, drawn: nat, consumed: seq<nat>, cache: nat)
    requires Drawn(draws, drawn, consumed, cache, 0)
    requires |Accepted(consumed)| < |Accepted(Groups(draws))|
    ensures drawn < |draws|
    ensures Drawn(draws, drawn + 1, consumed, draws[drawn], LetterIdxMax)
  {
    assert draws[..|draws|] == draws;
    assert consumed == Groups(draws[..drawn]);
    GroupsDraw(draws, drawn);
  }

  /** Examining the low group of the cache. */
  lemma DrawnExamine(draws: seq<nat>, drawn: nat, consumed: seq<nat>, cache: nat, remain: nat)
    requires Drawn(draws, drawn, consumed, cache, remain) && remain > 0
    ensures Drawn(draws, drawn, consumed + [cache % Radix], cache / Radix, remain - 1)
  {
    ChunkStep(consumed, cache, remain);
  }

  /** One pass of the loop body of random: refill a used-up cache from the
      next value, then examine the cache's low group, place it if it is
      accepted, and shift the cache. */
  method Step(b: array<char>, draws: seq<nat>, i: int, cache: nat, remain: nat, drawn: nat,
              ghost consumed: seq<nat>)
    returns (i': int, cache': nat, remain': nat, drawn': nat, ghost consumed': seq<nat>)
    requires 0 <= i && remain <= LetterIdxMax
    requires b.Length <= |Accepted(Groups(draws))|
    requires Drawn(draws, drawn, consumed, cache, remain)
    requires Filled(b[..], i, consumed)
    modifies b
    ensures Drawn(draws, drawn', consumed', cache', remain')
    ensures Filled(b[..], i', consumed')
    ensures b[..i' + 1] == old(b[..])[..i' + 1]
    ensures |consumed'| == |consumed| + 1
    ensures cache' == (if remain == 0 then draws[drawn] else cache) / Radix
    ensures remain == 0 ==> drawn' == drawn + 1 && remain' == LetterIdxMax - 1
    ensures remain > 0 ==> drawn' == drawn && remain' == remain - 1
    ensures i' < 0 ==> consumed'[|consumed|] < |LetterBytes|
  {
    cache', remain', drawn' := cache, remain, drawn;
    if remain' == 0 {
      DrawnRefill(draws, drawn', consumed, cache');
      cache', remain' := draws[drawn'], LetterIdxMax;
      drawn' := drawn' + 1;
    }
    DrawnExamine(draws, drawn', consumed, cache', remain');
    var idx: nat := cache' % Radix;
    i' := Place(b, i, idx, consumed);
    cache' := cache' / Radix;
    remain' := remain' - 1;
    consumed' := consumed + [idx];
  }

  /** random(n): fills b[n-1] down to b[0] from the accepted groups of `draws`.
      `drawn` is the number of values taken from the source and `examined` the
      number of 6-bit groups looked at. The loop ends only once n groups have
      been accepted, so the supplied prefix must hold that many. */
  method Random(n: nat, draws: seq<nat>) returns (s: string, drawn: nat, examined: nat)
    requires |draws| > 0 && Int63s(draws)
    requires |Accepted(Groups(draws))| >= n
    ensures |s| == n
    ensures s == Spell(Accepted(Groups(draws))[..n])
    ensures StopsAt(Groups(draws), examined, n)
    ensures DrawsFor(examined, drawn)
    ensures drawn <= |draws|
  {
    var b := new char[n];
    var i: int := n - 1;
    var cache: nat := draws[0];
    var remain: nat := LetterIdxMax;
    drawn, examined := 1, 0;
    ghost var consumed: seq<nat> := [];
    assert draws[..1] == [draws[0]];
    while i >= 0
      invariant 1 <= drawn && remain <= LetterIdxMax
      invariant remain == LetterIdxMax <==> examined == 0
      invariant examined == |consumed| && examined + remain == LetterIdxMax * drawn
      invariant Drawn(draws, drawn, consumed, cache, remain)
      invariant Filled(b[..], i, consumed)
      invariant i < 0 && examined > 0 ==> consumed[examined - 1] < |LetterBytes|
      decreases |draws| - drawn, remain
    {
      i, cache, remain, drawn, consumed := Step(b, draws, i, cache, remain, drawn, consumed);
      examined := examined + 1;
    }
    s := b[..];
    Conclude(n, draws, s, i, drawn, examined, consumed, cache, remain);
  }

  /** The first e groups of gs hold exactly n accepted ones, the last of them
      accepted: e is the shortest prefix of gs that holds n accepted groups. */
  ghost predicate StopsAt(gs: seq<nat>, e: nat, n: nat) {
    && e <= |gs|
    && |Accepted(gs[..e])| == n
    && (e > 0 ==> gs[e - 1] < |LetterBytes|)
  }

  /** One value is drawn up front, and another each time the previous one's
      LetterIdxMax groups have all been examined. */
  predicate DrawsFor(examined: nat, drawn: nat) {
    if examined == 0 then drawn == 1
    else LetterIdxMax * (drawn - 1) < examined <= LetterIdxMax * drawn
  }

  /** The stopping point is unique: it is the shortest prefix holding n
      accepted groups. */
  lemma {:induction false} StopsAtUnique(gs: seq<nat>, e1: nat, e2: nat, n: nat)
    requires StopsAt(gs, e1, n) && StopsAt(gs, e2, n)
    ensures e1 == e2
  {
    if e1 < e2 {
      StopsBefore(gs, e1, e2);
    } else if e2 < e1 {
      StopsBefore(gs, e2, e1);
    }
  }

  /** random(0) stops before examining any group, so it uses only the value
      drawn up front. */
  lemma StopsAtZero(gs: seq<nat>, e: nat)
    requires StopsAt(gs, e, 0)
    ensures e == 0
  {
    assert gs[..0] == [];
    StopsAtUnique(gs, e, 0, 0);
  }

  /** A prefix ending in an accepted group holds more accepted groups than any
      shorter prefix. */
  lemma StopsBefore(gs: seq<nat>, a: nat, b: nat)
    requires a < b <= |gs| && gs[b - 1] < |LetterBytes|
    ensures |Accepted(gs[..a])| < |Accepted(gs[..b])|
  {
    var pre, mid, g := gs[..a], gs[a..b - 1], gs[b - 1];
    assert pre + mid == gs[..b - 1];
    assert gs[..b - 1] + [g] == gs[..b];
    AcceptedAppend(pre, mid);
    AcceptedPush(pre + mid, g);
    assert |Accepted(gs[..b])| == |Accepted(pre)| + |Accepted(mid)| + 1;
  }

  /** What the loop state means once i has dropped below 0. */
  lemma Conclude(n: nat, draws: seq<nat>, s: string, i: int, drawn: nat, examined: nat,
                 consumed: seq<nat>, cache: nat, remain: nat)
    requires |s| == n && i < 0 && |Accepted(Groups(draws))| >= n
    requires 1 <= drawn && remain <= LetterIdxMax
    requires remain == LetterIdxMax <==> examined == 0
    requires examined == |consumed| && examined + remain == LetterIdxMax * drawn
    requires Drawn(draws, drawn, consumed, cache, remain)
    requires Filled(s, i, consumed)
    requires i < 0 && examined > 0 ==> consumed[examined - 1] < |LetterBytes|
    ensures s == Spell(Accepted(Groups(draws))[..n])
    ensures StopsAt(Groups(draws), examined, n)
    ensures DrawsFor(examined, drawn)
    ensures drawn <= |draws|
  {
    assert s == s[i + 1..];
    ExaminedPrefix(draws, drawn, consumed, Chunk(cache, remain));
    AcceptedPrefix(Groups(draws), examined, n);
  }

  /** The groups examined are the first ones of all the groups of `draws`. */
  lemma ExaminedPrefix(draws: seq<nat>, drawn: nat, consumed: seq<nat>, rest: seq<nat>)
    requires drawn <= |draws|
    requires consumed + rest == Groups(draws[..drawn])
    ensures |consumed| <= |Groups(draws)| && consumed == Groups(draws)[..|consumed|]
  {
    GroupsPrefix(draws, drawn);
    assert consumed == (consumed + rest)[..|consumed|];
  }

  /** The first n accepted groups of gs are those of its shortest prefix that
      holds n accepted groups. */
  lemma AcceptedPrefix(gs: seq<nat>, e: nat, n: nat)
    requires e <= |gs| && |Accepted(gs[..e])| == n
    ensures |Accepted(gs)| >= n && Accepted(gs)[..n] == Accepted(gs[..e])
  {
    AcceptedAppend(gs[..e], gs[e..]);
    assert gs == gs[..e] + gs[e..];
  }
}
