/** The token-bucket rate limiter: lazy refill, and what it grants over any window of time. */
module TokenBucket {
  import opened Prelude
  import opened Reals

  datatype Config = Config(rate: real, capacity: real)
  {
    predicate Valid() {
      rate > 0.0 && capacity > 0.0
    }
  }

  /** The capacity defaults to the rate when absent or zero. */
  function ConfigFor(rate: real, capacity: Option<real>): Config {
    Config(rate, if capacity.None? || capacity.value == 0.0 then rate else capacity.value)
  }

  datatype Bucket = Bucket(tokens: real, lastUpdate: real)

  /** Tokens accrued between two instants. The run theory below holds for any accrual; the limiter's is linear. */
  type Accrual = real -> real

  function AtRate(rate: real): Accrual {
    (t: real) => t * rate
  }

  function Refilled(cap: real, accrued: Accrual, b: Bucket, now: real): Bucket {
    Bucket(Min(cap, b.tokens + (accrued(now) - accrued(b.lastUpdate))), now)
  }

  /** One pass of the acquire loop: a clock reading and the amount asked for. */
  datatype Pass = Pass(at: real, asked: real)

  predicate Grants(cap: real, accrued: Accrual, b: Bucket, p: Pass) {
    Refilled(cap, accrued, b, p.at).tokens >= p.asked
  }

  function Amount(cap: real, accrued: Accrual, b: Bucket, p: Pass): real {
    if Grants(cap, accrued, b, p) then p.asked else 0.0
  }

  /** The bucket after a run of passes (all callers together: a lock serialises them). */
  function Run(cap: real, accrued: Accrual, start: real, passes: seq<Pass>): Bucket {
    if passes == [] then Bucket(cap, start)
    else
      var before, p := Run(cap, accrued, start, Init(passes)), Last(passes);
      Bucket(Refilled(cap, accrued, before, p.at).tokens - Amount(cap, accrued, before, p), p.at)
  }

  /** The amounts granted by each pass. */
  function Granted(cap: real, accrued: Accrual, start: real, passes: seq<Pass>): (amounts: seq<real>)
    ensures |amounts| == |passes|
  {
    if passes == [] then []
    else
      Granted(cap, accrued, start, Init(passes)) +
      [Amount(cap, accrued, Run(cap, accrued, start, Init(passes)), Last(passes))]
  }

  /** The clock does not run backwards. */
  ghost predicate Timely(start: real, passes: seq<Pass>) {
    passes != [] ==>
      && Last(passes).at >= (if |passes| == 1 then start else passes[|passes| - 2].at)
      && Timely(start, Init(passes))
  }

  ghost predicate AsksOnly(permitted: real -> bool, passes: seq<Pass>) {
    forall i :: 0 <= i < |passes| ==> permitted(passes[i].asked)
  }

  predicate NonNegative(amount: real) {
    amount >= 0.0
  }

  /** Nothing negative is asked for and the clock does not run backwards. */
  ghost predicate Orderly(start: real, passes: seq<Pass>) {
    Timely(start, passes) && AsksOnly(NonNegative, passes)
  }

  /** The last pass of the journal asked for the amount, and whether it was granted. */
  ghost predicate Ends(cfg: Config, start: real, journal: seq<Pass>, amount: real, granted: bool) {
    && journal != [] && Last(journal).asked == amount
    && granted ==
       Grants(cfg.capacity, AtRate(cfg.rate), Run(cfg.capacity, AtRate(cfg.rate), start, Init(journal)), Last(journal))
  }

  /** The journal grew by n passes that asked for the amount, all of them refused. */
  ghost predicate Refused(cfg: Config, start: real, before: seq<Pass>, journal: seq<Pass>, amount: real, n: nat) {
    if n == 0 then journal == before
    else Ends(cfg, start, journal, amount, false) && Refused(cfg, start, before, Init(journal), amount, n - 1)
  }

  /** How acquire ends: the source raises in the second and third case, and waits on in the last. */
  datatype Acquisition = Acquired | ExceedsCapacity | DividesByZero | Cancelled

  /******* The limiter as an object *******/

  /** A monotonic clock; sleeping takes at least the time requested. */
  class Clock {
    var now: real

    method Monotonic() returns (t: real)
      modifies this
      ensures t == now >= old(now)
    {
      var passed: real := *;
      now := now + if passed >= 0.0 then passed else 0.0;
      t := now;
    }

    method Sleep(seconds: real)
      modifies this
      ensures now >= old(now) && now >= old(now) + seconds
    {
      var extra: real := *;
      now := now + (if seconds >= 0.0 then seconds else 0.0) + (if extra >= 0.0 then extra else 0.0);
    }
  }

  class AsyncTokenBucketRateLimiter {
    const config: Config
    const clock: Clock
    var tokens: real
    var lastUpdate: real
    ghost const start: real
    ghost var journal: seq<Pass>

    function View(): Bucket
      reads this
    {
      Bucket(tokens, lastUpdate)
    }

    ghost predicate Valid()
      reads this, clock
    {
      && Timely(start, journal)
      && View() == Run(config.capacity, AtRate(config.rate), start, journal)
      && lastUpdate <= clock.now
    }

    constructor (rate: real, capacity: Option<real>, clock: Clock)
      ensures Valid() && config == ConfigFor(rate, capacity) && this.clock == clock
      ensures journal == [] && start == clock.now
    {
      config := ConfigFor(rate, capacity);
      this.clock := clock;
      tokens, lastUpdate := ConfigFor(rate, capacity).capacity, clock.now;
      start, journal := clock.now, [];
    }

    /** Add tokens for the time elapsed. */
    method Refill(now: real)
      modifies this`tokens, this`lastUpdate
      ensures View() == Refilled(config.capacity, AtRate(config.rate), old(View()), now)
    {
      var elapsed := now - lastUpdate;
      ElapsedAccrues(config.rate, lastUpdate, now);
      tokens := Min(config.capacity, tokens + elapsed * config.rate);
      lastUpdate := now;
    }

    /** Sleep until the needed tokens have accrued; at a negative rate the sleep ends at once. */
    method Wait(needed: real)
      requires config.rate != 0.0 && lastUpdate <= clock.now
      modifies clock
      ensures clock.now >= old(clock.now)
      ensures config.rate > 0.0 ==> forall amount :: amount - tokens == needed ==> Ripe(amount)
    {
      var waitTime := needed / config.rate;
      clock.Sleep(waitTime);
      if config.rate > 0.0 {
        WaitIsLongEnough(config.rate, lastUpdate, clock.now, needed);
      }
    }

    /** Enough will have accrued for the amount by the time shown on the clock. */
    ghost predicate Ripe(amount: real)
      reads this, clock
    {
      HasAccrued(config.rate, View(), clock.now, amount)
    }

    /** One pass of the loop up to its return. */
    method TryOnce(amount: real) returns (granted: bool)
      requires Valid()
      modifies this, clock
      ensures Valid()
      ensures journal != [] && Init(journal) == old(journal) && Last(journal).asked == amount
      ensures granted == Grants(config.capacity, AtRate(config.rate), old(View()), Last(journal))
      ensures old(Ripe(amount)) && config.rate > 0.0 && amount <= config.capacity ==> granted
      ensures !granted ==> tokens < amount
      ensures old(tokens) < amount && config.rate <= 0.0 ==> !granted
    {
      ghost var slept, b := clock.now, View();
      var now := clock.Monotonic();
      ghost var p := Pass(now, amount);
      PassAfterSleep(config, b, slept, p);
      PassLogged(config.capacity, AtRate(config.rate), start, journal, p);
      Refill(now);
      granted := tokens >= amount;
      if granted {
        tokens := tokens - amount;
      }
      journal := journal + [p];
    }

    /** The caller cancels after so many sleeps. At a positive rate one sleep is always enough; otherwise the first
        refusal is final, and at a negative rate the loop never ends by itself. */
    method Acquire(amount: real, patience: nat) returns (outcome: Acquisition, sleeps: nat)
      requires Valid()
      modifies this, clock
      ensures Valid() && sleeps <= patience
      ensures outcome == ExceedsCapacity <==> amount > config.capacity
      ensures outcome == ExceedsCapacity ==> View() == old(View()) && journal == old(journal)
      ensures outcome == Acquired ==>
                && Ends(config, start, journal, amount, true)
                && Refused(config, start, old(journal), Init(journal), amount, sleeps)
                && sleeps <= if config.rate > 0.0 then 1 else 0
      ensures outcome == DividesByZero ==>
                config.rate == 0.0 && Refused(config, start, old(journal), journal, amount, 1)
      ensures outcome == Cancelled ==>
                && Refused(config, start, old(journal), journal, amount, patience + 1)
                && (config.rate < 0.0 || (config.rate > 0.0 && patience == 0))
    {
      sleeps := 0;
      if amount > config.capacity {
        return ExceedsCapacity, sleeps;
      }
      ghost var before := journal;
      while true
        invariant Valid() && sleeps <= patience
        invariant Refused(config, start, before, journal, amount, sleeps)
        invariant sleeps > 0 ==> config.rate != 0.0 && tokens < amount
        invariant sleeps > 0 && config.rate > 0.0 ==> sleeps == 1 && Ripe(amount)
        decreases patience - sleeps
      {
        var granted := TryOnce(amount);
        if granted {
          return Acquired, sleeps;
        }
        if config.rate == 0.0 {
          return DividesByZero, sleeps;
        }
        if sleeps == patience {
          return Cancelled, sleeps;
        }
        Wait(amount - tokens);
        sleeps := sleeps + 1;
      }
    }

    method AvailableTokens() returns (available: real)
      requires Valid()
      modifies clock
      ensures Valid() && clock.now >= old(clock.now)
      ensures available == Refilled(config.capacity, AtRate(config.rate), View(), clock.now).tokens
    {
      ghost var b := View();
      var now := clock.Monotonic();
      var elapsed := now - lastUpdate;
      available := Min(config.capacity, tokens + elapsed * config.rate);
      assert available == Refilled(config.capacity, AtRate(config.rate), b, now).tokens by {
        ElapsedAccrues(config.rate, lastUpdate, now);
      }
    }
  }

  lemma ElapsedAccrues(rate: real, from: real, to: real)
    ensures (to - from) * rate == AtRate(rate)(to) - AtRate(rate)(from)
  {
  }

  lemma WaitIsLongEnough(rate: real, from: real, to: real, needed: real)
    requires rate > 0.0 && to >= from + needed / rate
    ensures AtRate(rate)(to) - AtRate(rate)(from) >= needed
  {
    var wait := needed / rate;
    assert wait * rate == needed;
    NonNegativeProduct(to - from - wait, rate);
    ElapsedAccrues(rate, from, to);
  }

  lemma NoAccrual(rate: real, earlier: real, later: real)
    requires rate <= 0.0 && earlier <= later
    ensures AtRate(rate)(later) <= AtRate(rate)(earlier)
  {
    NonNegativeProduct(later - earlier, -rate);
    ElapsedAccrues(rate, earlier, later);
  }

  lemma LaterAccruesMore(rate: real, earlier: real, later: real)
    requires rate > 0.0 && earlier <= later
    ensures AtRate(rate)(earlier) <= AtRate(rate)(later)
  {
    NonNegativeProduct(later - earlier, rate);
    ElapsedAccrues(rate, earlier, later);
  }

  lemma PassLogged(cap: real, accrued: Accrual, start: real, passes: seq<Pass>, p: Pass)
    requires Timely(start, passes) && Run(cap, accrued, start, passes).lastUpdate <= p.at
    ensures Init(passes + [p]) == passes && Last(passes + [p]) == p && Timely(start, passes + [p])
    ensures
      var before := Run(cap, accrued, start, passes);
      Run(cap, accrued, start, passes + [p]) ==
        Bucket(Refilled(cap, accrued, before, p.at).tokens - Amount(cap, accrued, before, p), p.at)
  {
    LastUpdateIsLastPass(cap, accrued, start, passes);
    assert Init(passes + [p]) == passes && Last(passes + [p]) == p;
  }

  /** Without the cap the bucket would hold the amount by the given time. */
  ghost predicate HasAccrued(rate: real, b: Bucket, now: real, amount: real) {
    AtRate(rate)(now) - AtRate(rate)(b.lastUpdate) >= amount - b.tokens
  }

  /** What can be said about a pass from the time before it: at a positive rate it grants what had accrued, and at any
      other rate it does not grant what was missing. */
  lemma PassAfterSleep(cfg: Config, b: Bucket, slept: real, p: Pass)
    requires b.lastUpdate <= slept <= p.at
    ensures cfg.rate > 0.0 && HasAccrued(cfg.rate, b, slept, p.asked) && p.asked <= cfg.capacity ==>
            Grants(cfg.capacity, AtRate(cfg.rate), b, p)
    ensures cfg.rate <= 0.0 && b.tokens < p.asked ==> !Grants(cfg.capacity, AtRate(cfg.rate), b, p)
  {
    if cfg.rate > 0.0 {
      LaterAccruesMore(cfg.rate, slept, p.at);
    } else {
      NoAccrual(cfg.rate, b.lastUpdate, p.at);
    }
  }

  lemma AtRateMonotone(rate: real)
    requires rate > 0.0
    ensures Monotone(AtRate(rate))
  {
    forall a: real, b: real | a <= b
      ensures AtRate(rate)(a) <= AtRate(rate)(b)
    {
      LaterAccruesMore(rate, a, b);
    }
  }

  /** A fresh limiter grants up to its capacity at once: the one it was given, or the rate if none or zero was given. */
  lemma FirstGrant(rate: real, capacity: Option<real>, start: real, amount: real)
    ensures
      var cfg := ConfigFor(rate, capacity);
      Grants(cfg.capacity, AtRate(cfg.rate), Run(cfg.capacity, AtRate(cfg.rate), start, []), Pass(start, amount)) <==>
        match capacity
        case None => amount <= rate
        case Some(given) => if given == 0.0 then amount <= rate else amount <= given
    ensures ConfigFor(rate, capacity).rate == rate
  {
  }

  /******* Every run *******/

  ghost predicate Monotone(accrued: Accrual) {
    forall a, b :: a <= b ==> accrued(a) <= accrued(b)
  }

  /** Refilling at any instants in between makes no difference: lazy refills compose to one capped refill. */
  lemma RefillsCompose(cap: real, accrued: Accrual, b: Bucket, t1: real, t2: real)
    requires Monotone(accrued) && b.lastUpdate <= t1 <= t2
    ensures Refilled(cap, accrued, Refilled(cap, accrued, b, t1), t2) == Refilled(cap, accrued, b, t2)
  {
    assert accrued(b.lastUpdate) <= accrued(t1) <= accrued(t2);
  }

  lemma LastUpdateIsLastPass(cap: real, accrued: Accrual, start: real, passes: seq<Pass>)
    ensures Run(cap, accrued, start, passes).lastUpdate == if passes == [] then start else Last(passes).at
  {
  }

  lemma {:induction false} TokensInRange(cap: real, accrued: Accrual, start: real, passes: seq<Pass>)
    requires cap > 0.0 && Monotone(accrued) && Orderly(start, passes)
    ensures 0.0 <= Run(cap, accrued, start, passes).tokens <= cap
  {
    if passes != [] {
      TokensInRange(cap, accrued, start, Init(passes));
      LastUpdateIsLastPass(cap, accrued, start, Init(passes));
      assert accrued(Run(cap, accrued, start, Init(passes)).lastUpdate) <= accrued(Last(passes).at);
    }
  }

  /** Granting amount at time now would keep every window that ends now, from the creation of the limiter or
      from any pass on, within the capacity plus what accrues over the window. */
  ghost predicate WindowsAllow(cap: real, accrued: Accrual, start: real, passes: seq<Pass>, now: real, amount: real) {
    var granted := Granted(cap, accrued, start, passes);
    && amount <= cap
    && Sum(granted) + amount <= cap + (accrued(now) - accrued(start))
    && forall i :: 0 <= i < |passes| ==> Sum(granted[i..]) + amount <= cap + (accrued(now) - accrued(passes[i].at))
  }

  lemma SumSnoc(amounts: seq<real>, x: real, i: nat)
    requires i <= |amounts|
    ensures Sum((amounts + [x])[i..]) == Sum(amounts[i..]) + x
  {
    assert (amounts + [x])[i..] == amounts[i..] + [x];
    assert Init(amounts[i..] + [x]) == amounts[i..];
  }

  /** One more pass only shifts what the earlier windows leave, and adds the window that begins with it. */
  lemma WindowsShift(cap: real, accrued: Accrual, start: real, passes: seq<Pass>, now: real, amount: real)
    requires passes != []
    ensures
      var (at, spent) := (Last(passes).at, Last(Granted(cap, accrued, start, passes)));
      WindowsAllow(cap, accrued, start, passes, now, amount) <==>
        amount <= cap &&
          WindowsAllow(cap, accrued, start, Init(passes), at, amount + spent - (accrued(now) - accrued(at)))
  {
    var at, before := Last(passes).at, Init(passes);
    var granted, earlier := Granted(cap, accrued, start, passes), Granted(cap, accrued, start, before);
    var spent := Last(granted);
    var shifted := amount + spent - (accrued(now) - accrued(at));
    assert granted == earlier + [spent] && earlier[0..] == earlier && granted[0..] == granted;
    SumSnoc(earlier, spent, 0);
    SumSnoc(earlier, spent, |before|);
    assert earlier[|before|..] == [] && Sum(granted[|before|..]) == spent;
    forall i | 0 <= i < |before|
      ensures Sum(granted[i..]) + amount <= cap + (accrued(now) - accrued(passes[i].at)) <==>
              Sum(earlier[i..]) + shifted <= cap + (accrued(at) - accrued(before[i].at))
    {
      SumSnoc(earlier, spent, i);
    }
  }

  /** The lazily refilled level is exactly what the tightest window leaves. */
  lemma {:induction false} LevelIsTightestWindow(cap: real, accrued: Accrual, start: real, passes: seq<Pass>, now: real,
                                                 amount: real)
    ensures WindowsAllow(cap, accrued, start, passes, now, amount) <==>
            amount <= Refilled(cap, accrued, Run(cap, accrued, start, passes), now).tokens
    decreases |passes|
  {
    if passes != [] {
      var at, spent := Last(passes).at, Last(Granted(cap, accrued, start, passes));
      WindowsShift(cap, accrued, start, passes, now, amount);
      LevelIsTightestWindow(cap, accrued, start, Init(passes), at, amount + spent - (accrued(now) - accrued(at)));
    } else {
      assert Sum(Granted(cap, accrued, start, [])) == 0.0;
    }
  }

  /** Nothing is refused needlessly: a pass is refused iff granting it would break the bound on some window. */
  lemma RefusedIffAWindowIsFull(cap: real, accrued: Accrual, start: real, passes: seq<Pass>, p: Pass)
    ensures Grants(cap, accrued, Run(cap, accrued, start, passes), p) <==>
            WindowsAllow(cap, accrued, start, passes, p.at, p.asked)
  {
    LevelIsTightestWindow(cap, accrued, start, passes, p.at, p.asked);
  }

  lemma {:induction false} PrefixOfRun(cap: real, accrued: Accrual, start: real, passes: seq<Pass>, k: nat)
    requires k <= |passes| && Orderly(start, passes)
    ensures Granted(cap, accrued, start, passes[..k]) == Granted(cap, accrued, start, passes)[..k]
    ensures Orderly(start, passes[..k])
    decreases |passes|
  {
    if k < |passes| {
      PrefixOfRun(cap, accrued, start, Init(passes), k);
      assert Init(passes)[..k] == passes[..k];
      assert AsksOnly(NonNegative, passes[..k]);
    } else {
      assert passes[..k] == passes;
    }
  }

  lemma AccruedBound(cap: real, accrued: Accrual, start: real, passes: seq<Pass>, i: nat, j: nat)
    requires cap > 0.0 && Monotone(accrued) && Orderly(start, passes) && i <= j < |passes|
    ensures Sum(Granted(cap, accrued, start, passes)[i..j + 1]) <= cap + (accrued(passes[j].at) - accrued(passes[i].at))
  {
    var upTo := passes[..j + 1];
    PrefixOfRun(cap, accrued, start, passes, j + 1);
    TokensInRange(cap, accrued, start, upTo);
    LastUpdateIsLastPass(cap, accrued, start, upTo);
    LevelIsTightestWindow(cap, accrued, start, upTo, passes[j].at, 0.0);
    assert Granted(cap, accrued, start, passes)[i..j + 1] == Granted(cap, accrued, start, upTo)[i..];
    assert upTo[i] == passes[i];
  }

  lemma AccruedWindow(cap: real, accrued: Accrual, start: real, passes: seq<Pass>, i: nat, j: nat, t0: real, t1: real)
    requires cap > 0.0 && Monotone(accrued) && Orderly(start, passes)
    requires i <= j < |passes| && t0 <= passes[i].at && passes[j].at <= t1
    ensures Sum(Granted(cap, accrued, start, passes)[i..j + 1]) <= cap + (accrued(t1) - accrued(t0))
  {
    AccruedBound(cap, accrued, start, passes, i, j);
    assert accrued(passes[j].at) <= accrued(t1) && accrued(t0) <= accrued(passes[i].at);
  }

  ghost predicate WithinRate(cfg: Config, amounts: seq<real>, duration: real) {
    Sum(amounts) <= cfg.capacity + duration * cfg.rate
  }

  lemma AccruedIsWithinRate(cfg: Config, amounts: seq<real>, t0: real, t1: real)
    requires Sum(amounts) <= cfg.capacity + (AtRate(cfg.rate)(t1) - AtRate(cfg.rate)(t0))
    ensures WithinRate(cfg, amounts, t1 - t0)
  {
    ElapsedAccrues(cfg.rate, t0, t1);
  }

  /** Over every window [t0, t1] of every run, the tokens granted are at most capacity + rate * (t1 - t0). */
  lemma WindowBound(cfg: Config, start: real, passes: seq<Pass>, i: nat, j: nat, t0: real, t1: real)
    requires cfg.Valid() && Orderly(start, passes)
    requires i <= j < |passes| && t0 <= passes[i].at && passes[j].at <= t1
    ensures WithinRate(cfg, Granted(cfg.capacity, AtRate(cfg.rate), start, passes)[i..j + 1], t1 - t0)
  {
    var accrued := AtRate(cfg.rate);
    assert Monotone(accrued) by {
      AtRateMonotone(cfg.rate);
    }
    AccruedWindow(cfg.capacity, accrued, start, passes, i, j, t0, t1);
    AccruedIsWithinRate(cfg, Granted(cfg.capacity, accrued, start, passes)[i..j + 1], t0, t1);
  }

  /** Every run that asks only for permitted amounts keeps the level between 0 and the capacity. */
  ghost predicate StaysInRange(cap: real, accrued: Accrual, start: real, permitted: real -> bool) {
    forall passes | Timely(start, passes) && AsksOnly(permitted, passes) ::
      0.0 <= Run(cap, accrued, start, passes).tokens <= cap
  }

  /** The source does not reject negative amounts. Every run stays within the bucket if and only if none may be asked
      for; a single one on a fresh limiter overfills it. */
  lemma StaysInRangeIff(cap: real, accrued: Accrual, start: real, permitted: real -> bool)
    requires cap > 0.0 && Monotone(accrued)
    ensures StaysInRange(cap, accrued, start, permitted) <==> forall amount :: permitted(amount) ==> amount >= 0.0
  {
    if forall amount :: permitted(amount) ==> amount >= 0.0 {
      forall passes | Timely(start, passes) && AsksOnly(permitted, passes)
        ensures 0.0 <= Run(cap, accrued, start, passes).tokens <= cap
      {
        TokensInRange(cap, accrued, start, passes);
      }
    } else {
      var amount :| permitted(amount) && amount < 0.0;
      NegativeAmountOverfills(cap, accrued, start, amount);
      var passes := [Pass(start, amount)];
      assert Init(passes) == [];
      assert Timely(start, passes) && AsksOnly(permitted, passes);
    }
  }

  lemma NegativeAmountOverfills(cap: real, accrued: Accrual, start: real, amount: real)
    requires cap > 0.0 && amount < 0.0
    ensures Run(cap, accrued, start, [Pass(start, amount)]).tokens > cap
  {
    assert Init([Pass(start, amount)]) == [];
  }
}
