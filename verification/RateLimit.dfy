/** Response rate limiting (internal/rrl/limiter.go): one slot of the table, followed through any run of responses. */
module RateLimit {
  import opened Octets

  const U32_SPAN := 0x1_0000_0000
  const MAX_RATE := 65535

  datatype Action = Allow | Slip | Drop

  datatype Slot = Slot(keyHash: nat, timestamp: U32, tokens: U16, slipCount: U16)

  /** The configured limit of a response class and the slip rate; a rate of zero never slips. */
  datatype Rates = Rates(limit: nat, slip: nat)

  predicate ValidRates(c: Rates) {
    1 <= c.limit <= MAX_RATE && c.slip <= MAX_RATE
  }

  /** What a forward move of the clock leaves of the tokens; the product is taken modulo 2^32. */
  function Decayed(tokens: nat, elapsed: nat, limit: nat): nat {
    var decay := (elapsed * limit) % U32_SPAN;
    if decay < tokens then tokens - decay else 0
  }

  /** The clock as the slot sees it: forward moves decay, backward moves only reset the time. */
  function Clocked(s: Slot, c: Rates, now: U32): (r: Slot)
    ensures r.keyHash == s.keyHash && r.timestamp == now && r.tokens <= s.tokens
  {
    if now > s.timestamp
    then Slot(s.keyHash, now, Decayed(s.tokens, now - s.timestamp, c.limit), 0)
    else s.(timestamp := now)
  }

  /** One response at a time the slot has already seen. */
  function Spend(s: Slot, c: Rates): (r: (Slot, Action))
    requires ValidRates(c) && (c.slip > 0 ==> s.slipCount < c.slip)
  {
    if s.tokens < c.limit then (s.(tokens := s.tokens + 1), Allow)
    else if c.slip == 0 then (s.(tokens := c.limit), Drop)
    else if s.slipCount + 1 >= c.slip then (s.(tokens := c.limit, slipCount := 0), Action.Slip)
    else (s.(tokens := c.limit, slipCount := s.slipCount + 1), Drop)
  }

  ghost predicate Sane(s: Slot, c: Rates) {
    s.tokens <= c.limit && (if c.slip > 0 then s.slipCount < c.slip else s.slipCount == 0)
  }

  /** A slot held by another key starts over for this one. */
  function Check(s: Slot, hash: nat, c: Rates, now: U32): (Slot, Action)
    requires ValidRates(c) && (s.keyHash == hash && c.slip > 0 ==> s.slipCount < c.slip)
  {
    if s.keyHash != hash then (Slot(hash, now, 1, 0), Allow)
    else Spend(Clocked(s, c, now), c)
  }

  class TableSlot {
    var keyHash: nat
    var timestamp: U32
    var tokens: U16
    var slipCount: U16

    ghost function Value(): Slot
      reads this
    {
      Slot(keyHash, timestamp, tokens, slipCount)
    }

    constructor ()
      ensures Value() == Slot(0, 0, 0, 0)
    {
      keyHash, timestamp, tokens, slipCount := 0, 0, 0, 0;
    }

    /** Counts one response of the key against the slot and decides what becomes of it. */
    method CheckAt(hash: nat, c: Rates, now: U32) returns (action: Action)
      requires ValidRates(c) && (keyHash == hash ==> Sane(Value(), c))
      modifies this
      ensures (Value(), action) == Check(old(Value()), hash, c, now)
      ensures keyHash == hash && Sane(Value(), c)
    {
      if keyHash != hash {
        keyHash, timestamp, tokens, slipCount := hash, now, 1, 0;
        return Allow;
      }
      if now < timestamp { timestamp := now; }
      if now > timestamp {
        var decay := ((now - timestamp) * c.limit) % U32_SPAN;
        var current := tokens;
        tokens := 0;
        if decay < current { tokens := current - decay; }
        timestamp := now;
        slipCount := 0;
      }
      if tokens < c.limit {
        tokens := tokens + 1;
        return Allow;
      }
      tokens := c.limit;
      if c.slip > 0 {
        slipCount := slipCount + 1;
        if slipCount >= c.slip {
          slipCount := 0;
          return Action.Slip;
        }
      }
      return Drop;
    }
  }

  // ---- runs of one key ----

  lemma CheckSane(s: Slot, hash: nat, c: Rates, now: U32)
    requires ValidRates(c) && (s.keyHash == hash ==> Sane(s, c))
    ensures var r := Check(s, hash, c, now).0; r.keyHash == hash && Sane(r, c) && r.timestamp == now
  {
    hide Decayed;
  }

  function Run(s: Slot, hash: nat, c: Rates, nows: seq<U32>): (r: (Slot, seq<Action>))
    requires ValidRates(c) && (s.keyHash == hash ==> Sane(s, c))
    ensures |r.1| == |nows| && (nows != [] ==> r.0.keyHash == hash) && (r.0.keyHash == hash ==> Sane(r.0, c))
    ensures nows == [] ==> r.0 == s
    decreases |nows|
  {
    if nows == [] then (s, [])
    else
      CheckSane(s, hash, c, nows[0]);
      var (s', a) := Check(s, hash, c, nows[0]);
      var (e, rest) := Run(s', hash, c, nows[1..]);
      (e, [a] + rest)
  }

  function Count(actions: seq<Action>, a: Action): (n: nat)
    ensures n <= |actions|
  {
    if actions == [] then 0 else (if actions[0] == a then 1 else 0) + Count(actions[1..], a)
  }

  lemma CountCons(x: Action, rest: seq<Action>, a: Action)
    ensures Count([x] + rest, a) == (if x == a then 1 else 0) + Count(rest, a)
  {
    assert ([x] + rest)[1..] == rest;
  }

  // ---- between forward moves of the clock ----

  /** The clock does not go forward from ts through the times given. */
  ghost predicate NoForward(ts: U32, nows: seq<U32>)
    decreases |nows|
  {
    nows == [] || (nows[0] <= ts && NoForward(nows[0], nows[1..]))
  }

  lemma {:induction false} SpendsDown(s: Slot, hash: nat, c: Rates, nows: seq<U32>)
    requires ValidRates(c) && s.keyHash == hash && Sane(s, c) && NoForward(s.timestamp, nows)
    ensures Count(Run(s, hash, c, nows).1, Allow) <= c.limit - s.tokens
    decreases |nows|
  {
    if nows != [] {
      CheckSane(s, hash, c, nows[0]);
      var (s', a) := Check(s, hash, c, nows[0]);
      SpendsDown(s', hash, c, nows[1..]);
      CountCons(a, Run(s', hash, c, nows[1..]).1, Allow);
    }
  }

  /**
   From one forward move of the clock to the next, at most limit responses are allowed, whatever the slot
   held, however the clock jitters back, and even when the decay wraps around.
   */
  lemma BoundedBetweenMoves(s: Slot, hash: nat, c: Rates, first: U32, nows: seq<U32>)
    requires ValidRates(c) && (s.keyHash == hash ==> Sane(s, c)) && NoForward(first, nows)
    ensures Count(Run(s, hash, c, [first] + nows).1, Allow) <= c.limit
  {
    hide NoForward, Count, Decayed;
    assert ([first] + nows)[1..] == nows;
    CheckSane(s, hash, c, first);
    var (s', a) := Check(s, hash, c, first);
    assert a == Allow ==> s'.tokens >= 1;
    SpendsDown(s', hash, c, nows);
    CountCons(a, Run(s', hash, c, nows).1, Allow);
  }

  // ---- one second, exactly ----

  function Min(a: nat, b: nat): nat {
    if a <= b then a else b
  }

  function Times(now: U32, n: nat): (r: seq<U32>)
    ensures |r| == n
  {
    if n == 0 then [] else [now] + Times(now, n - 1)
  }

  /** How many of the responses over the limit are slipped, from a slip counter of start. */
  function Slipped(start: nat, excess: nat, slip: nat): nat {
    if slip == 0 then 0 else (start + excess) / slip
  }

  /** n responses within one second: the budget first, then every slip-th is slipped and the rest dropped. */
  lemma {:induction false} Burst(s: Slot, hash: nat, c: Rates, now: U32, n: nat)
    requires ValidRates(c) && s.keyHash == hash && Sane(s, c) && s.timestamp == now
    ensures
      var a := Run(s, hash, c, Times(now, n)).1;
      var over := n - Min(n, c.limit - s.tokens);
      && Count(a, Allow) == Min(n, c.limit - s.tokens)
      && Count(a, Action.Slip) == Slipped(s.slipCount, over, c.slip)
      && Count(a, Drop) == over - Slipped(s.slipCount, over, c.slip)
    decreases n
  {
    hide Count, Decayed;
    if n == 0 {
      Counted([]);
      if c.slip > 0 { DivisionUnique(s.slipCount, c.slip, 0, s.slipCount); }
    } else {
      var times := Times(now, n);
      assert times[1..] == Times(now, n - 1);
      CheckSane(s, hash, c, now);
      var (s', a) := Check(s, hash, c, now);
      Burst(s', hash, c, now, n - 1);
      var rest := Run(s', hash, c, Times(now, n - 1)).1;
      CountCons(a, rest, Allow);
      CountCons(a, rest, Action.Slip);
      CountCons(a, rest, Drop);
      if s.tokens == c.limit && c.slip > 0 { SlipOnce(s.slipCount, n - 1, c.slip); }
    }
  }

  lemma Counted(a: seq<Action>)
    requires a == []
    ensures Count(a, Allow) == 0 && Count(a, Action.Slip) == 0 && Count(a, Drop) == 0
  {
  }

  /** One response over the limit moves the slip counter on. */
  lemma SlipOnce(start: nat, rest: nat, slip: nat)
    requires slip > 0 && start < slip
    ensures start + 1 >= slip ==> Slipped(start, rest + 1, slip) == 1 + Slipped(0, rest, slip)
    ensures start + 1 < slip ==> Slipped(start, rest + 1, slip) == Slipped(start + 1, rest, slip)
  {
    if start + 1 >= slip {
      var q, r := rest / slip, rest % slip;
      assert rest == q * slip + r;
      assert slip + rest == (q + 1) * slip + r by { assert (q + 1) * slip == q * slip + slip; }
      DivisionUnique(slip + rest, slip, q + 1, r);
      DivisionUnique(rest, slip, q, r);
    }
  }

  /**
   A second that begins with a forward move of the clock has whatever budget the decay restored, no more and no
   less: tokens are what the slot kept after the product modulo 2^32 was taken off.
   */
  lemma SecondExactly(s: Slot, hash: nat, c: Rates, now: U32, n: nat)
    requires ValidRates(c) && s.keyHash == hash && Sane(s, c) && s.timestamp < now && n > 0
    ensures
      var a := Run(s, hash, c, Times(now, n)).1;
      var budget := c.limit - Decayed(s.tokens, now - s.timestamp, c.limit);
      var over := n - Min(n, budget);
      && Count(a, Allow) == Min(n, budget)
      && Count(a, Action.Slip) == Slipped(0, over, c.slip)
      && Count(a, Drop) == over - Slipped(0, over, c.slip)
  {
    hide Count, Decayed;
    var t := Clocked(s, c, now);
    Burst(t, hash, c, now, n);
    var times := Times(now, n);
    assert Check(s, hash, c, now) == Check(t, hash, c, now);
    assert Run(s, hash, c, times) == Run(t, hash, c, times);
  }

  /** The second after a forward move allows its whole limit exactly when the wrapped product covers the tokens. */
  lemma FullBudgetIff(s: Slot, hash: nat, c: Rates, now: U32)
    requires ValidRates(c) && s.keyHash == hash && Sane(s, c) && s.timestamp < now
    ensures (forall n: nat | n > 0 :: Count(Run(s, hash, c, Times(now, n)).1, Allow) == Min(n, c.limit)) <==>
            ((now - s.timestamp) * c.limit) % U32_SPAN >= s.tokens
  {
    hide Count, Run, Times;
    forall n: nat | n > 0
      ensures Count(Run(s, hash, c, Times(now, n)).1, Allow) ==
              Min(n, c.limit - Decayed(s.tokens, now - s.timestamp, c.limit))
    {
      SecondExactly(s, hash, c, now, n);
    }
    assert Count(Run(s, hash, c, Times(now, c.limit)).1, Allow) ==
           Min(c.limit, c.limit - Decayed(s.tokens, now - s.timestamp, c.limit));
  }

  /** Without wrap-around any forward move restores it. */
  lemma NoWrapRestores(s: Slot, c: Rates, now: U32)
    requires ValidRates(c) && Sane(s, c) && s.timestamp < now && (now - s.timestamp) * c.limit < U32_SPAN
    ensures Decayed(s.tokens, now - s.timestamp, c.limit) == 0
  {
    MulMono(1, now - s.timestamp, c.limit);
    assert (now - s.timestamp) * c.limit >= c.limit;
  }

  // ---- a whole run on a monotone clock ----

  ghost predicate Monotone(nows: seq<U32>) {
    forall i, j :: 0 <= i < j < |nows| ==> nows[i] <= nows[j]
  }

  lemma {:induction false} RunSplits(s: Slot, hash: nat, c: Rates, a: seq<U32>, b: seq<U32>)
    requires ValidRates(c) && (s.keyHash == hash ==> Sane(s, c))
    ensures
      var mid := Run(s, hash, c, a);
      Run(s, hash, c, a + b).1 == mid.1 + Run(mid.0, hash, c, b).1
    decreases |a|
  {
    hide Check;
    if a == [] {
      assert a + b == b;
    } else {
      CheckSane(s, hash, c, a[0]);
      var s' := Check(s, hash, c, a[0]).0;
      RunSplits(s', hash, c, a[1..], b);
      assert (a + b)[1..] == a[1..] + b;
    }
  }

  lemma {:induction false} RunClock(s: Slot, hash: nat, c: Rates, nows: seq<U32>)
    requires ValidRates(c) && (s.keyHash == hash ==> Sane(s, c)) && nows != []
    ensures Run(s, hash, c, nows).0.timestamp == nows[|nows| - 1]
    decreases |nows|
  {
    CheckSane(s, hash, c, nows[0]);
    if |nows| > 1 { RunClock(Check(s, hash, c, nows[0]).0, hash, c, nows[1..]); }
  }

  lemma {:induction false} TimesAre(nows: seq<U32>, now: U32)
    requires forall i :: 0 <= i < |nows| ==> nows[i] == now
    ensures nows == Times(now, |nows|)
  {
    if nows != [] { TimesAre(nows[1..], now); }
  }

  /** A slot another key held gives the whole budget to the first second of the new one. */
  lemma FirstSecond(s: Slot, hash: nat, c: Rates, now: U32, n: nat)
    requires ValidRates(c) && s.keyHash != hash && n > 0
    ensures
      var a := Run(s, hash, c, Times(now, n)).1;
      var over := n - Min(n, c.limit);
      && Count(a, Allow) == Min(n, c.limit)
      && Count(a, Action.Slip) == Slipped(0, over, c.slip)
      && Count(a, Drop) == over - Slipped(0, over, c.slip)
  {
    hide Count;
    var t := Slot(hash, now, 0, 0);
    Burst(t, hash, c, now, n);
    assert Check(s, hash, c, now) == Check(t, hash, c, now);
    assert Run(s, hash, c, Times(now, n)) == Run(t, hash, c, Times(now, n));
  }

  /**
   In any run on a monotone clock, every second whose distance from the one before does not overflow the product
   allows exactly the first limit responses, slips every slip-th of the others and drops the rest.
   */
  lemma EverySecond(s: Slot, hash: nat, c: Rates, nows: seq<U32>, i: nat, j: nat)
    requires ValidRates(c) && s.keyHash != hash && Monotone(nows) && i < j <= |nows|
    requires forall k :: i <= k < j ==> nows[k] == nows[i]
    requires i > 0 ==> nows[i - 1] < nows[i] && (nows[i] - nows[i - 1]) * c.limit < U32_SPAN
    ensures
      var a := Run(s, hash, c, nows).1[i..j];
      var over := (j - i) - Min(j - i, c.limit);
      && Count(a, Allow) == Min(j - i, c.limit)
      && Count(a, Action.Slip) == Slipped(0, over, c.slip)
      && Count(a, Drop) == over - Slipped(0, over, c.slip)
  {
    hide Count, Decayed, Check, Run;
    var now, n := nows[i], j - i;
    var pre, second, post := nows[..i], nows[i..j], nows[j..];
    TimesAre(second, now);
    assert nows == pre + (second + post);
    RunSplits(s, hash, c, pre, second + post);
    var t := Run(s, hash, c, pre).0;
    RunSplits(t, hash, c, second, post);
    assert Run(s, hash, c, nows).1[i..j] == Run(t, hash, c, second).1;
    if i == 0 {
      FirstSecond(s, hash, c, now, n);
    } else {
      RunClock(s, hash, c, pre);
      SecondExactly(t, hash, c, now, n);
      NoWrapRestores(t, c, now);
    }
  }

  // ---- a silence whose product wraps around ----

  /** Responses within the budget leave one more token each. */
  lemma {:induction false} BurstEnd(s: Slot, hash: nat, c: Rates, now: U32, n: nat)
    requires ValidRates(c) && s.keyHash == hash && Sane(s, c) && s.timestamp == now && n <= c.limit - s.tokens
    ensures Run(s, hash, c, Times(now, n)).0 == s.(tokens := s.tokens + n)
    decreases n
  {
    hide Decayed;
    if n > 0 {
      assert Times(now, n)[1..] == Times(now, n - 1);
      BurstEnd(s.(tokens := s.tokens + 1), hash, c, now, n - 1);
    }
  }

  /** A first second of exactly limit responses leaves the slot without budget. */
  lemma FirstSecondEnd(s: Slot, hash: nat, c: Rates, now: U32)
    requires ValidRates(c) && s.keyHash != hash
    ensures Run(s, hash, c, Times(now, c.limit)).0 == Slot(hash, now, c.limit, 0)
  {
    var t := Slot(hash, now, 0, 0);
    BurstEnd(t, hash, c, now, c.limit);
    assert Check(s, hash, c, now) == Check(t, hash, c, now);
    assert Run(s, hash, c, Times(now, c.limit)).0 == Run(t, hash, c, Times(now, c.limit)).0;
  }

  /**
   After a second that used the limit up and a silence, the next response is allowed exactly when the silence
   times the limit is not a multiple of 2^32.
   */
  lemma SilenceExactly(s: Slot, hash: nat, c: Rates, ts: U32, silence: nat)
    requires ValidRates(c) && s.keyHash != hash && silence > 0 && ts + silence < U32_SPAN
    ensures Run(s, hash, c, Times(ts, c.limit) + [ts + silence]).1[c.limit] == Allow <==>
            (silence * c.limit) % U32_SPAN != 0
  {
    hide Count;
    RunSplits(s, hash, c, Times(ts, c.limit), [ts + silence]);
    FirstSecondEnd(s, hash, c, ts);
    assert [ts + silence][1..] == [];
  }

  /** With a limit of 2^15, a key that spends one second's budget and is then silent for 2^17 seconds is dropped. */
  lemma WrapKeepsTokens(s: Slot, hash: nat, ts: U32)
    requires s.keyHash != hash && ts + 0x2_0000 < U32_SPAN
    ensures
      var c := Rates(0x8000, 0);
      var a := Run(s, hash, c, Times(ts, 0x8000) + [ts + 0x2_0000]).1;
      Count(a[..0x8000], Allow) == 0x8000 && a[0x8000] == Drop
  {
    hide Count;
    var c := Rates(0x8000, 0);
    var first := Times(ts, 0x8000);
    RunSplits(s, hash, c, first, [ts + 0x2_0000]);
    FirstSecond(s, hash, c, ts, 0x8000);
    FirstSecondEnd(s, hash, c, ts);
    assert Run(s, hash, c, first + [ts + 0x2_0000]).1[..0x8000] == Run(s, hash, c, first).1;
    assert (0x2_0000 * 0x8000) % U32_SPAN == 0;
    assert [ts + 0x2_0000][1..] == [];
  }
}
