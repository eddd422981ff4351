/** core/limit/tokenlimit.go: the script that keeps a token bucket in two stored keys that expire.
    Times are whole seconds.  Level is the bucket that never expires. */
module TokenLimits {
  import opened Integers
  import opened Options

  datatype Reply = Allowed | Refused | ScriptError

  /** A call that took n tokens; a refused call takes none. */
  datatype Grant = Grant(time: int, n: int)

  /** The tokens granted from s to e. */
  function Granted(log: seq<Grant>, s: int, e: int): int
  {
    if log == [] then 0
    else
      var last := log[|log| - 1];
      Granted(log[..|log| - 1], s, e) + if s <= last.time <= e then last.n else 0
  }

  lemma GrantedAppend(log: seq<Grant>, g: Grant, s: int, e: int)
    ensures Granted(log + [g], s, e) == Granted(log, s, e) + if s <= g.time <= e then g.n else 0
  {
  }

  lemma {:induction false} GrantedNone(log: seq<Grant>, now: int, s: int, e: int)
    requires (forall g | g in log :: g.time <= now) && (s > now || e < s)
    ensures Granted(log, s, e) == 0
  {
    if log != [] {
      assert log[|log| - 1] in log;
      GrantedNone(log[..|log| - 1], now, s, e);
    }
  }

  lemma {:induction false} GrantedUpTo(log: seq<Grant>, now: int, s: int, e: int)
    requires (forall g | g in log :: g.time <= now) && e >= now
    ensures Granted(log, s, e) == Granted(log, s, now)
  {
    if log != [] {
      assert log[|log| - 1] in log;
      GrantedUpTo(log[..|log| - 1], now, s, e);
    }
  }

  /** After the time to live, a bucket is full again: ttl seconds bring at least burst tokens. */
  lemma TtlFills(rate: int, burst: int, d: int)
    requires rate > 0 && burst >= 0 && 2 * burst >= rate && d >= 2 * burst / rate
    ensures d * rate >= burst
  {
    var ttl := 2 * burst / rate;
    assert 2 * burst == ttl * rate + 2 * burst % rate;
    assert ttl >= 1 by {
      if ttl <= 0 {
        Times(0, ttl, rate);
      }
    }
    Times(d, ttl, rate);
    Times(ttl, 1, rate);
  }

  /** The tokens at time now in a bucket that had some at time last, and never expires. */
  function LevelAt(rate: int, burst: int, level: Option<int>, last: int, now: int): int
  {
    if level.None? then burst else Min(burst, level.value + (now - last) * rate)
  }

  /** In every window, what was granted is at most the burst and what the rate brings in its time;
      in a window that ends now, the tokens left are part of that. */
  ghost predicate Bounded(rate: int, burst: int, log: seq<Grant>, level: Option<int>, last: int)
  {
    && (forall g | g in log :: g.time <= last)
    && (level.None? ==> log == [])
    && (level.Some? ==> forall s | s <= last :: Granted(log, s, last) + level.value <= burst + rate * (last - s))
    && (forall s, e | s <= e :: Granted(log, s, e) <= burst + rate * (e - s))
  }

  lemma BoundedKept(rate: int, burst: int, log: seq<Grant>, level: Option<int>, last: int, now: int, n: int)
    requires rate > 0 && burst >= 0 && Bounded(rate, burst, log, level, last) && now >= last
    requires n <= LevelAt(rate, burst, level, last, now) <= burst
    ensures Bounded(rate, burst, log + [Grant(now, n)], Some(LevelAt(rate, burst, level, last, now) - n), now)
  {
    var log', left := log + [Grant(now, n)], LevelAt(rate, burst, level, last, now) - n;
    forall s | s <= now ensures Granted(log', s, now) + left <= burst + rate * (now - s) {
      BoundedUpTo(rate, burst, log, level, last, now, n, s);
    }
    forall s, e | s <= e ensures Granted(log', s, e) <= burst + rate * (e - s) {
      GrantedAppend(log, Grant(now, n), s, e);
      assert Granted(log, s, e) <= burst + rate * (e - s);
      if s <= now <= e {
        BoundedUpTo(rate, burst, log, level, last, now, n, s);
        GrantedUpTo(log', now, s, e);
        Times(e - s, now - s, rate);
      }
    }
  }

  lemma BoundedUpTo(rate: int, burst: int, log: seq<Grant>, level: Option<int>, last: int, now: int, n: int, s: int)
    requires rate > 0 && burst >= 0 && Bounded(rate, burst, log, level, last) && s <= now && now >= last
    requires n <= LevelAt(rate, burst, level, last, now) <= burst
    ensures Granted(log + [Grant(now, n)], s, now) + LevelAt(rate, burst, level, last, now) - n
            <= burst + rate * (now - s)
  {
    GrantedAppend(log, Grant(now, n), s, now);
    GrantedUpTo(log, last, s, now);
    Times(now - s, 0, rate);
    if level.Some? && s <= last {
      assert Granted(log, s, last) + level.value <= burst + rate * (last - s);
      assert rate * (last - s) + (now - last) * rate == rate * (now - s);
    } else if level.Some? {
      GrantedNone(log, last, s, now);
    }
  }

  /** The window from s on is used up but for the tokens left. */
  predicate UsedUp(rate: int, burst: int, log: seq<Grant>, left: int, now: int, s: int)
  {
    s <= now && Granted(log, s, now) + left == burst + rate * (now - s)
  }

  /** As long as no tokens are given back, some window is used up but for the tokens left: the bucket keeps back no
      more than it must. */
  ghost predicate Tight(rate: int, burst: int, log: seq<Grant>, level: Option<int>, last: int)
  {
    (forall g | g in log :: g.n >= 0) && level.Some? ==>
      level.value <= burst && exists s :: UsedUp(rate, burst, log, level.value, last, s)
  }

  /** With n more tokens, no window that ends now gets more than the burst and what the rate brings in its time. */
  ghost predicate Fits(rate: int, burst: int, log: seq<Grant>, now: int, n: int)
  {
    forall s | s <= now :: Granted(log, s, now) + n <= burst + rate * (now - s)
  }

  lemma LevelUsedUp(rate: int, burst: int, log: seq<Grant>, level: Option<int>, last: int, now: int) returns (s: int)
    requires rate > 0 && now >= last && (forall g | g in log :: g.n >= 0 && g.time <= last)
    requires (level.None? ==> log == []) && Tight(rate, burst, log, level, last)
    ensures UsedUp(rate, burst, log, LevelAt(rate, burst, level, last, now), now, s)
  {
    s := now;
    if level.Some? && (now == last || level.value + (now - last) * rate < burst) {
      s :| UsedUp(rate, burst, log, level.value, last, s);
      GrantedUpTo(log, last, s, now);
      assert rate * (last - s) + (now - last) * rate == rate * (now - s);
    } else if level.Some? {
      GrantedNone(log, last, now, now);
    }
  }

  /** The bucket has n tokens iff they fit. */
  lemma LevelFits(rate: int, burst: int, log: seq<Grant>, level: Option<int>, last: int, now: int, n: int)
    requires rate > 0 && burst >= 0 && now >= last && (forall g | g in log :: g.n >= 0)
    requires Bounded(rate, burst, log, level, last) && Tight(rate, burst, log, level, last)
    requires 0 <= LevelAt(rate, burst, level, last, now) <= burst
    ensures LevelAt(rate, burst, level, last, now) >= n <==> Fits(rate, burst, log, now, n)
  {
    var l := LevelAt(rate, burst, level, last, now);
    var s := LevelUsedUp(rate, burst, log, level, last, now);
    forall s | s <= now ensures Granted(log, s, now) + l <= burst + rate * (now - s) {
      BoundedUpTo(rate, burst, log, level, last, now, 0, s);
      GrantedAppend(log, Grant(now, 0), s, now);
    }
  }

  lemma TightKept(rate: int, burst: int, log: seq<Grant>, level: Option<int>, last: int, now: int, n: int)
    requires rate > 0 && now >= last && (forall g | g in log :: g.time <= last)
    requires (level.None? ==> log == []) && Tight(rate, burst, log, level, last)
    requires LevelAt(rate, burst, level, last, now) <= burst
    ensures Tight(rate, burst, log + [Grant(now, n)], Some(LevelAt(rate, burst, level, last, now) - n), now)
  {
    var log', left := log + [Grant(now, n)], LevelAt(rate, burst, level, last, now) - n;
    if forall g | g in log' :: g.n >= 0 {
      assert forall g | g in log :: g in log';
      assert Grant(now, n) in log';
      var s := LevelUsedUp(rate, burst, log, level, last, now);
      GrantedAppend(log, Grant(now, n), s, now);
      assert UsedUp(rate, burst, log', left, now, s);
    }
  }

  /** What the script works out is the level of the bucket that never expires, whichever keys have expired. */
  lemma FilledIsLevel(rate: int, burst: int, level: Option<int>, last: int, now: int, tokens: Option<int>,
      ts: Option<int>)
    requires rate > 0 && 2 * burst >= rate && 0 <= last <= now
    requires level.Some? ==> 0 <= level.value
    requires level.None? ==> tokens.None?
    requires (tokens.Some? ==> tokens == level) && (ts.Some? ==> ts == Some(last))
    requires level.Some? && (tokens.None? || ts.None?) ==> now - last >= 2 * burst / rate
    ensures var lastTokens := if tokens.Some? then tokens.value else burst;
            var lastRefreshed := if ts.Some? then ts.value else 0;
            var delta := if now - lastRefreshed > 0 then now - lastRefreshed else 0;
            Min(burst, lastTokens + delta * rate) == LevelAt(rate, burst, level, last, now)
  {
    Times(now - last, 0, rate);
    Times(now, 0, rate);
    if level.Some? && (tokens.None? || ts.None?) {
      TtlFills(rate, burst, now - last);
      TtlFills(rate, burst, now);
    }
  }

  class TokenLimiter {
    const rate: int
    const burst: int
    var tokens: Option<int>         // KEYS[1]
    var ts: Option<int>             // KEYS[2]

    ghost var level: Option<int>    // what KEYS[1] and KEYS[2] held at last, expired or not
    ghost var last: int
    ghost var clock: int            // the latest time seen
    ghost var log: seq<Grant>

    /** The time to live that the script gives its keys. */
    function Ttl(): int
      requires rate > 0
    {
      2 * burst / rate
    }

    /** The tokens in the bucket that never expires; full before the first call. */
    ghost function Level(now: int): int
      reads this
    {
      LevelAt(rate, burst, level, last, now)
    }

    ghost predicate Valid()
      reads this
    {
      && rate > 0
      && 0 <= last <= clock
      && (level.Some? ==> 2 * burst >= rate && 0 <= level.value)
      && (level.None? ==> tokens.None? && ts.None?)
      && (tokens.Some? ==> tokens == level)
      && (ts.Some? ==> ts == Some(last))
      && (level.Some? && (tokens.None? || ts.None?) ==> clock - last >= Ttl())
      && (2 * burst >= rate ==> Bounded(rate, burst, log, level, last) && Tight(rate, burst, log, level, last))
    }

    constructor (rate: int, burst: int)
      requires rate > 0
      ensures Valid() && this.rate == rate && this.burst == burst && log == [] && clock == 0 && level == None
    {
      this.rate, this.burst := rate, burst;
      tokens, ts, level, last, clock, log := None, None, None, 0, 0, [];
      new;
      forall s, e | s <= e && 2 * burst >= rate ensures Granted(log, s, e) <= burst + rate * (e - s) {
        Times(e - s, 0, rate);
      }
    }

    /** The store drops keys, each on its own, once their time is over. */
    method Expire(dropTokens: bool, dropTs: bool, now: int)
      requires Valid() && now >= clock && now - last >= Ttl()
      modifies this`tokens, this`ts, this`clock
      ensures Valid() && clock == now
      ensures forall t | t >= now :: Level(t) == old(Level(t))
      ensures WindowsBounded()
    {
      if dropTokens {
        tokens := None;
      }
      if dropTs {
        ts := None;
      }
      clock := now;
    }

    /** In any window, at most the burst and what the rate brings in its time has been granted. */
    ghost predicate WindowsBounded()
      reads this
    {
      2 * burst >= rate ==> forall s, e | s <= e :: Granted(log, s, e) <= burst + rate * (e - s)
    }

    /** One run of the script.  It fails iff the keys would have no time to live.  Otherwise it answers by the bucket
        that never expires, and keeps every window bounded.  As long as no tokens are given back, it grants a request
        iff no window that ends now would get too much by it.  A request for a negative number gives tokens back; the
        bucket then holds more than the burst iff the request is below what was missing. */
    method Run(now: int, requested: int) returns (reply: Reply)
      requires Valid() && now >= clock
      modifies this
      ensures Valid() && clock == now && WindowsBounded()
      ensures reply == if 2 * burst < rate then ScriptError
                       else if old(Level(now)) >= requested then Allowed else Refused
      ensures reply != ScriptError && (forall g | g in old(log) :: g.n >= 0) ==>
                (reply == Allowed <==> Fits(rate, burst, old(log), now, requested))
      ensures log == if reply == ScriptError then old(log)
                     else old(log) + [Grant(now, if reply == Allowed then requested else 0)]
      ensures reply != ScriptError ==>
                tokens == Some(old(Level(now)) - if reply == Allowed then requested else 0) && tokens.value >= 0
      ensures reply != ScriptError ==> (tokens.value <= burst <==> requested >= old(Level(now)) - burst)
      ensures requested >= 0 && reply != ScriptError ==> tokens.value <= burst
    {
      hide Bounded, Tight, Fits, LevelAt, Min;
      var filledTokens := Fill(now);
      var allowed := filledTokens >= requested;
      var newTokens := filledTokens;
      if allowed {
        newTokens := filledTokens - requested;
      }
      clock := now;
      NoTtl(rate, burst);
      if Ttl() <= 0 {
        return ScriptError;
      }
      Decided(rate, burst, log, level, last, now, requested);
      Store(newTokens, now, filledTokens - newTokens);
      reply := if allowed then Allowed else Refused;
    }

    /** The tokens that the two keys come to, or the burst and the beginning of time for those that are gone. */
    method Fill(now: int) returns (filledTokens: int)
      requires Valid() && now >= clock
      ensures 2 * burst >= rate ==> filledTokens == Level(now)
    {
      hide Bounded, Tight;
      var lastTokens := if tokens.Some? then tokens.value else burst;
      var lastRefreshed := if ts.Some? then ts.value else 0;
      var delta := if now - lastRefreshed > 0 then now - lastRefreshed else 0;
      filledTokens := Min(burst, lastTokens + delta * rate);
      if 2 * burst >= rate {
        FilledIsLevel(rate, burst, level, last, now, tokens, ts);
      }
    }

    /** Writes both keys. */
    method Store(newTokens: int, now: int, ghost n: int)
      requires rate > 0 && 2 * burst >= rate && newTokens >= 0 && 0 <= now == clock
      requires Bounded(rate, burst, log + [Grant(now, n)], Some(newTokens), now)
      requires Tight(rate, burst, log + [Grant(now, n)], Some(newTokens), now)
      modifies this`tokens, this`ts, this`level, this`last, this`log
      ensures Valid() && WindowsBounded() && tokens == Some(newTokens) && log == old(log) + [Grant(now, n)]
    {
      hide Tight;
      tokens, ts := Some(newTokens), Some(now);
      level, last, log := Some(newTokens), now, log + [Grant(now, n)];
    }
  }

  /** What a decision by the level means. */
  lemma Decided(rate: int, burst: int, log: seq<Grant>, level: Option<int>, last: int, now: int, n: int)
    requires rate > 0 && burst >= 0 && now >= last && (level.Some? ==> level.value >= 0)
    requires Bounded(rate, burst, log, level, last) && Tight(rate, burst, log, level, last)
    ensures var l := LevelAt(rate, burst, level, last, now);
            var taken := if l >= n then n else 0;
            && 0 <= l <= burst
            && Bounded(rate, burst, log + [Grant(now, taken)], Some(l - taken), now)
            && Tight(rate, burst, log + [Grant(now, taken)], Some(l - taken), now)
            && ((forall g | g in log :: g.n >= 0) ==> (l >= n <==> Fits(rate, burst, log, now, n)))
  {
    hide Bounded, Tight, Fits, LevelAt;
    var l := LevelAt(rate, burst, level, last, now);
    var taken := if l >= n then n else 0;
    LevelInRange(rate, burst, level, last, now);
    LogUpTo(rate, burst, log, level, last);
    BoundedKept(rate, burst, log, level, last, now, taken);
    TightKept(rate, burst, log, level, last, now, taken);
    if forall g | g in log :: g.n >= 0 {
      LevelFits(rate, burst, log, level, last, now, n);
    }
  }

  lemma LogUpTo(rate: int, burst: int, log: seq<Grant>, level: Option<int>, last: int)
    requires Bounded(rate, burst, log, level, last)
    ensures (forall g | g in log :: g.time <= last) && (level.None? ==> log == [])
  {
  }

  lemma NoTtl(rate: int, burst: int)
    requires rate > 0
    ensures 2 * burst / rate <= 0 <==> 2 * burst < rate
  {
    var ttl := 2 * burst / rate;
    assert 2 * burst == ttl * rate + 2 * burst % rate;
    if ttl >= 1 {
      Times(ttl, 1, rate);
    } else {
      Times(0, ttl, rate);
    }
  }

  lemma LevelInRange(rate: int, burst: int, level: Option<int>, last: int, now: int)
    requires rate > 0 && burst >= 0 && now >= last && (level.Some? ==> 0 <= level.value)
    ensures 0 <= LevelAt(rate, burst, level, last, now) <= burst
  {
    Times(now - last, 0, rate);
  }
}
