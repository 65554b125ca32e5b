/** The SEC EDGAR rate limiter: one token, refilled with time, shared by any number of callers. */
module TokenBucket {
  datatype State = State(tokens: real, last: real)

  function MinReal(a: real, b: real): real {
    if a < b then a else b
  }

  // ---------------------------------------------------------------- one pass under the lock

  // How much is refilled from one moment to a later one.
  function Gain(rate: real, from: real, to: real): real {
    (to - from) * rate
  }

  function Refilled(rate: real, s: State, now: real): real {
    MinReal(1.0, s.tokens + Gain(rate, s.last, now))
  }

  predicate Grants(rate: real, s: State, now: real) {
    Refilled(rate, s, now) >= 1.0
  }

  function Next(rate: real, s: State, now: real): State {
    State(Refilled(rate, s, now) - if Grants(rate, s, now) then 1.0 else 0.0, now)
  }

  function Wait(rate: real, s: State, now: real): real
    requires rate != 0.0
  {
    (1.0 - Refilled(rate, s, now)) / rate
  }

  class Bucket {
    const rate: real
    var tokens: real
    var last: real

    constructor (rate: real, now: real)
      ensures this.rate == rate && Current() == State(1.0, now)
    {
      this.rate := rate;
      tokens, last := 1.0, now;
    }

    function Current(): State
      reads this
    {
      State(tokens, last)
    }

    // The body of the lock in `acquire`: true when the caller may go on, else how long it must sleep.
    method Pass(now: real) returns (granted: bool, wait: real)
      requires rate > 0.0
      modifies this
      ensures granted == Grants(rate, old(Current()), now)
      ensures Current() == Next(rate, old(Current()), now)
      ensures !granted ==> wait == Wait(rate, old(Current()), now)
    {
      var elapsed := now - last;
      last := now;
      tokens := MinReal(1.0, tokens + elapsed * rate);
      if tokens >= 1.0 {
        tokens := tokens - 1.0;
        return true, 0.0;
      }
      return false, (1.0 - tokens) / rate;
    }

    /** `acquire`: pass after pass at the given clock readings, until one is granted. */
    method Acquire(clock: seq<real>) returns (passes: nat, granted: bool)
      requires rate > 0.0
      modifies this
      ensures passes <= |clock| && (granted ==> passes > 0) && (!granted ==> passes == |clock|)
      ensures Current() == After(rate, old(Current()), clock[..passes])
      ensures GrantTimes(rate, old(Current()), clock[..passes]) == if granted then [clock[passes - 1]] else []
    {
      passes, granted := 0, false;
      while passes < |clock| && !granted
        invariant passes <= |clock| && (granted ==> passes > 0)
        invariant Current() == After(rate, old(Current()), clock[..passes])
        invariant GrantTimes(rate, old(Current()), clock[..passes]) == if granted then [clock[passes - 1]] else []
      {
        hide Grants, Next;
        assert clock[..passes + 1][..passes] == clock[..passes];
        var g, _ := Pass(clock[passes]);
        granted, passes := g, passes + 1;
      }
    }
  }

  // ---------------------------------------------------------------- runs

  /** The state after passes at the given times, by whichever callers. */
  function After(rate: real, s: State, times: seq<real>): State {
    if times == [] then s
    else Next(rate, After(rate, s, times[..|times| - 1]), times[|times| - 1])
  }

  /** The times of the passes that were granted. */
  function GrantTimes(rate: real, s: State, times: seq<real>): seq<real> {
    if times == [] then [] else
    var n := |times| - 1;
    GrantTimes(rate, s, times[..n])
      + if Grants(rate, After(rate, s, times[..n]), times[n]) then [times[n]] else []
  }

  predicate Monotone(start: real, times: seq<real>) {
    && (forall i :: 0 <= i < |times| ==> start <= times[i])
    && (forall i, j :: 0 <= i < j < |times| ==> times[i] <= times[j])
  }

  // ---------------------------------------------------------------- the closed form

  // The time from which the next token is counted: the last grant, or one interval before the start.
  function Origin(rate: real, start: real, grants: seq<real>): real
    requires rate != 0.0
  {
    if grants == [] then start - 1.0 / rate else grants[|grants| - 1]
  }

  function Last(start: real, times: seq<real>): real {
    if times == [] then start else times[|times| - 1]
  }

  lemma GainAdds(rate: real, a: real, b: real, c: real)
    ensures Gain(rate, a, b) + Gain(rate, b, c) == Gain(rate, a, c)
  {
    assert (b - a) * rate + (c - b) * rate == (c - a) * rate;
  }

  lemma GainGrows(rate: real, a: real, b: real)
    requires rate > 0.0
    ensures a <= b <==> Gain(rate, a, b) >= 0.0
  {
    assert a <= b ==> (b - a) * rate >= 0.0;
    assert a > b ==> (a - b) * rate > 0.0;
    assert (a - b) * rate == -((b - a) * rate);
  }

  lemma IntervalGain(rate: real, start: real)
    requires rate > 0.0
    ensures Gain(rate, start - 1.0 / rate, start) == 1.0
  {
    assert (1.0 / rate) * rate == 1.0;
  }

  /**
   * However many passes failed in between, the bucket is a function of the last grant alone: a token is
   * there exactly when one interval has gone by since.
   */
  lemma {:induction false} ClosedForm(rate: real, start: real, times: seq<real>)
    requires rate > 0.0 && Monotone(start, times)
    ensures var s := After(rate, State(1.0, start), times);
      var o := Origin(rate, start, GrantTimes(rate, State(1.0, start), times));
      s.last == Last(start, times) && s.tokens == Gain(rate, o, s.last) && o <= s.last
      && (times != [] ==> s.tokens < 1.0)
  {
    if times == [] {
      IntervalGain(rate, start);
      GainGrows(rate, start - 1.0 / rate, start);
    } else {
      var n := |times| - 1;
      ClosedForm(rate, start, times[..n]);
      assert Last(start, times[..n]) <= times[n];
      var s, g := After(rate, State(1.0, start), times[..n]), GrantTimes(rate, State(1.0, start), times[..n]);
      hide After, GrantTimes;
      NextClosed(rate, s, Origin(rate, start, g), times[n]);
    }
  }

  lemma NextClosed(rate: real, s: State, o: real, now: real)
    requires rate > 0.0 && s.last <= now && o <= s.last && s.tokens == Gain(rate, o, s.last)
    ensures Refilled(rate, s, now) == MinReal(1.0, Gain(rate, o, now))
    ensures Grants(rate, s, now) <==> Gain(rate, o, now) >= 1.0
    ensures Next(rate, s, now).tokens == Gain(rate, if Grants(rate, s, now) then now else o, now)
    ensures Next(rate, s, now).tokens < 1.0 && o <= now
  {
    hide Gain;
    GainAdds(rate, o, s.last, now);
    GainGrows(rate, o, now);
    GainAdds(rate, now, now, now);
  }

  /** A pass is granted exactly when a full interval has passed since the last grant; it sees min(1, rate * elapsed). */
  lemma GrantedIff(rate: real, start: real, times: seq<real>, now: real)
    requires rate > 0.0 && Monotone(start, times) && Last(start, times) <= now
    ensures var s := After(rate, State(1.0, start), times);
      var o := Origin(rate, start, GrantTimes(rate, State(1.0, start), times));
      && Refilled(rate, s, now) == MinReal(1.0, Gain(rate, o, now))
      && (Grants(rate, s, now) <==> Gain(rate, o, now) >= 1.0)
  {
    hide After, GrantTimes, Refilled, Grants, Gain;
    ClosedForm(rate, start, times);
    NextClosed(rate, After(rate, State(1.0, start), times),
        Origin(rate, start, GrantTimes(rate, State(1.0, start), times)), now);
  }

  // ---------------------------------------------------------------- the rate bound

  predicate Spaced(rate: real, grants: seq<real>) {
    forall i, j :: 0 <= i <= j < |grants| ==> Gain(rate, grants[i], grants[j]) >= (j - i) as real
  }

  /** For any interleaving of callers, the k-th grant after another comes at least k intervals later. */
  lemma {:induction false} GrantsAreSpaced(rate: real, start: real, times: seq<real>)
    requires rate > 0.0 && Monotone(start, times)
    ensures Spaced(rate, GrantTimes(rate, State(1.0, start), times))
  {
    hide After, Grants, Gain, Monotone;
    if times != [] {
      var n := |times| - 1;
      PrefixMonotone(start, times, n);
      GrantsAreSpaced(rate, start, times[..n]);
      if Grants(rate, After(rate, State(1.0, start), times[..n]), times[n]) {
        GrantedIff(rate, start, times[..n], times[n]);
        SpacedSnoc(rate, GrantTimes(rate, State(1.0, start), times[..n]), times[n], start);
      }
    }
  }

  lemma SpacedSnoc(rate: real, grants: seq<real>, now: real, start: real)
    requires rate > 0.0 && Spaced(rate, grants)
    requires Gain(rate, Origin(rate, start, grants), now) >= 1.0
    ensures Spaced(rate, grants + [now])
  {
    hide Gain;
    var all, m := grants + [now], |grants|;
    forall i, j | 0 <= i <= j < |all| ensures Gain(rate, all[i], all[j]) >= (j - i) as real {
      if i < j == m {
        GainAdds(rate, all[i], all[m - 1], now);
        assert Gain(rate, grants[i], grants[m - 1]) >= (m - 1 - i) as real;
      } else if j < m {
        assert Gain(rate, grants[i], grants[j]) >= (j - i) as real;
      } else {
        GainAdds(rate, now, now, now);
      }
    }
  }

  /** Any window of length `t` holds at most 1 + rate * t grants. */
  lemma WindowBound(rate: real, start: real, times: seq<real>, i: nat, j: nat, t: real)
    requires rate > 0.0 && Monotone(start, times)
    requires i < j <= |GrantTimes(rate, State(1.0, start), times)|
    requires var g := GrantTimes(rate, State(1.0, start), times); g[j - 1] - g[i] <= t
    ensures (j - i) as real <= 1.0 + rate * t
  {
    hide GrantTimes;
    GrantsAreSpaced(rate, start, times);
    var g := GrantTimes(rate, State(1.0, start), times);
    assert Gain(rate, g[i], g[j - 1]) >= (j - 1 - i) as real;
    assert (t - (g[j - 1] - g[i])) * rate >= 0.0;
  }

  /**
   * The computed wait is exact: as long as nobody else is granted, the next pass succeeds if and only if it
   * comes no sooner than the wait after the failed one, whoever else has tried and failed in between.
   */
  lemma WaitIsExact(rate: real, start: real, times: seq<real>, now: real, others: seq<real>, later: real)
    requires rate > 0.0 && Monotone(start, times + [now] + others + [later])
    requires var s := State(1.0, start);
      && !Grants(rate, After(rate, s, times), now)
      && GrantTimes(rate, s, times + [now] + others) == GrantTimes(rate, s, times)
    ensures var s := State(1.0, start);
      Grants(rate, After(rate, s, times + [now] + others), later)
          == (later >= now + Wait(rate, After(rate, s, times), now))
  {
    hide After, GrantTimes, Grants, Monotone, Refilled, Gain;
    var before := times + [now] + others;
    AllMonotone(start, times, now, others, later);
    GrantedIff(rate, start, before, later);
    GrantedIff(rate, start, times, now);
    var o := Origin(rate, start, GrantTimes(rate, State(1.0, start), times));
    GainAdds(rate, o, now, later);
    WaitArithmetic(rate, Gain(rate, o, now), now, later);
  }

  lemma AllMonotone(start: real, times: seq<real>, now: real, others: seq<real>, later: real)
    requires Monotone(start, times + [now] + others + [later])
    ensures Monotone(start, times) && Last(start, times) <= now
    ensures Monotone(start, times + [now] + others) && Last(start, times + [now] + others) <= later
  {
    hide Monotone;
    var all := times + [now] + others + [later];
    assert all[..|times|] == times && all[|times|] == now;
    assert all[..|all| - 1] == times + [now] + others && all[|all| - 1] == later;
    PrefixMonotone(start, all, |times|);
    PrefixMonotone(start, all, |all| - 1);
  }

  lemma WaitArithmetic(rate: real, gain: real, now: real, later: real)
    requires rate > 0.0
    ensures gain + Gain(rate, now, later) >= 1.0 <==> later >= now + (1.0 - gain) / rate
  {
    var w := (1.0 - gain) / rate;
    assert w * rate == 1.0 - gain;
    GainGrows(rate, now + w, later);
    GainAdds(rate, now, now + w, later);
    assert Gain(rate, now, now + w) == w * rate;
  }

  lemma PrefixMonotone(start: real, times: seq<real>, n: nat)
    requires Monotone(start, times) && n < |times|
    ensures Monotone(start, times[..n]) && Last(start, times[..n]) <= times[n]
  {
  }
}
