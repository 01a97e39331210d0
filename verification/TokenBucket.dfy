/**
 * The token bucket rate limiter: lock-protected attempts as values, bounds over every run of
 * attempts by any number of threads, and the polling loop that makes them.
 */
module TokenBuckets {

  datatype Bucket = Bucket(capacity: real, rate: real, tokens: real, lastUpdate: real)

  datatype Request = Request(now: real, amount: real)

  function Min(a: real, b: real): real {
    if a < b then a else b
  }

  /** elapsed * rate, written as the difference of what was supplied up to each moment. */
  function Supplied(from: real, to: real, rate: real): real {
    to * rate - from * rate
  }

  lemma SuppliedIs(from: real, to: real, rate: real)
    ensures Supplied(from, to, rate) == (to - from) * rate
  {
  }

  lemma SupplyGrows(from: real, to: real, rate: real)
    requires from <= to && 0.0 <= rate
    ensures 0.0 <= Supplied(from, to, rate)
  {
    Product(to - from, rate);
    SuppliedIs(from, to, rate);
  }

  lemma Product(x: real, y: real)
    requires x >= 0.0 && y >= 0.0
    ensures x * y >= 0.0
  {
  }

  function Refill(b: Bucket, now: real): Bucket {
    b.(tokens := Min(b.capacity, b.tokens + Supplied(b.lastUpdate, now, b.rate)), lastUpdate := now)
  }

  predicate Grants(b: Bucket, r: Request) {
    Refill(b, r.now).tokens >= r.amount
  }

  /** The critical section of one poll. */
  function Attempt(b: Bucket, r: Request): Bucket {
    var f := Refill(b, r.now);
    if Grants(b, r) then f.(tokens := f.tokens - r.amount) else f
  }

  /** Balance within bounds, rate not negative. */
  predicate Good(b: Bucket) {
    0.0 <= b.tokens <= b.capacity && 0.0 <= b.rate
  }

  /** Requests in time order, none before `from`. */
  predicate Ordered(rs: seq<Request>, from: real)
    decreases |rs|
  {
    rs == [] || (from <= rs[0].now && Ordered(rs[1..], rs[0].now))
  }

  /** Requests for amounts, not for giving tokens back. */
  predicate Proper(rs: seq<Request>) {
    forall i :: 0 <= i < |rs| ==> 0.0 <= rs[i].amount
  }

  function End(b: Bucket, rs: seq<Request>): Bucket
    decreases |rs|
  {
    if rs == [] then b else End(Attempt(b, rs[0]), rs[1..])
  }

  /** Tokens handed out over a run. */
  function Granted(b: Bucket, rs: seq<Request>): real
    decreases |rs|
  {
    if rs == [] then 0.0
    else (if Grants(b, rs[0]) then rs[0].amount else 0.0) + Granted(Attempt(b, rs[0]), rs[1..])
  }

  // ---------- One step ----------

  lemma RefillGood(b: Bucket, now: real)
    requires Good(b) && b.lastUpdate <= now
    ensures Good(Refill(b, now)) && b.tokens <= Refill(b, now).tokens
    ensures Refill(b, now).tokens <= b.tokens + Supplied(b.lastUpdate, now, b.rate)
  {
    SupplyGrows(b.lastUpdate, now, b.rate);
  }

  lemma AttemptGood(b: Bucket, r: Request)
    requires Good(b) && b.lastUpdate <= r.now && 0.0 <= r.amount
    ensures var a := Attempt(b, r);
            && Good(a) && a.lastUpdate == r.now && a.capacity == b.capacity && a.rate == b.rate
            && a.tokens + (if Grants(b, r) then r.amount else 0.0) <= b.tokens + Supplied(b.lastUpdate, r.now, b.rate)
  {
    RefillGood(b, r.now);
  }

  /** Observing the bucket on the way changes nothing: capped refills compose. */
  lemma RefillsCompose(b: Bucket, s: real, t: real)
    requires Good(b) && b.lastUpdate <= s <= t
    ensures Refill(Refill(b, s), t) == Refill(b, t)
  {
    SupplyGrows(b.lastUpdate, s, b.rate);
    SupplyGrows(s, t, b.rate);
  }

  /** A request is granted exactly when the bucket could hold so much and has it by then, what was supplied meanwhile included. */
  lemma GrantsIff(b: Bucket, r: Request)
    ensures Grants(b, r) <==> r.amount <= b.capacity && r.amount <= b.tokens + (r.now - b.lastUpdate) * b.rate
  {
    SuppliedIs(b.lastUpdate, r.now, b.rate);
  }

  /** What is left: the supply so far, at most a full bucket, less what was granted. */
  lemma AttemptIs(b: Bucket, r: Request)
    ensures var held := b.tokens + (r.now - b.lastUpdate) * b.rate;
            var a := Attempt(b, r);
            && a.tokens == (if held > b.capacity then b.capacity else held) - (if Grants(b, r) then r.amount else 0.0)
            && a.lastUpdate == r.now && a.capacity == b.capacity && a.rate == b.rate
  {
    SuppliedIs(b.lastUpdate, r.now, b.rate);
  }

  /**
   * Waiting for what is missing is enough, and no less is: undisturbed, a request the bucket can
   * hold is granted from the moment on that its wait, as the polling loop computes it, has passed.
   */
  lemma WaitIsExact(b: Bucket, amount: real, now: real)
    requires b.rate > 0.0 && amount <= b.capacity
    ensures Grants(b, Request(now, amount)) <==> now >= b.lastUpdate + (amount - b.tokens) / b.rate
  {
    GrantsIff(b, Request(now, amount));
    var wait, elapsed := (amount - b.tokens) / b.rate, now - b.lastUpdate;
    assert wait * b.rate == amount - b.tokens;
    Ordering(elapsed, wait, b.rate);
  }

  lemma Ordering(x: real, y: real, z: real)
    requires z > 0.0
    ensures x * z >= y * z <==> x >= y
  {
    assert x * z - y * z == (x - y) * z;
    if x >= y {
      Product(x - y, z);
    } else {
      assert (y - x) * z > 0.0;
      assert (y - x) * z == -((x - y) * z);
    }
  }

  // ---------- Runs ----------

  function LastTime(rs: seq<Request>, from: real): real
    decreases |rs|
  {
    if rs == [] then from else LastTime(rs[1..], rs[0].now)
  }

  /** The balance stays within [0, capacity], and what was granted plus what is left came from the start or the refill. */
  lemma {:induction false} RunBalance(b: Bucket, rs: seq<Request>)
    requires Good(b) && Ordered(rs, b.lastUpdate) && Proper(rs)
    ensures var e := End(b, rs);
            && Good(e) && e.capacity == b.capacity && e.rate == b.rate
            && e.lastUpdate == LastTime(rs, b.lastUpdate) >= b.lastUpdate
            && Granted(b, rs) + e.tokens <= b.tokens + Supplied(b.lastUpdate, e.lastUpdate, b.rate)
    decreases |rs|
  {
    if rs != [] {
      AttemptGood(b, rs[0]);
      RunBalance(Attempt(b, rs[0]), rs[1..]);
    }
  }

  lemma AttemptObserved(b: Bucket, s: real, r: Request)
    requires Good(b) && b.lastUpdate <= s <= r.now
    ensures Attempt(Refill(b, s), r) == Attempt(b, r) && Grants(Refill(b, s), r) == Grants(b, r)
  {
    RefillsCompose(b, s, r.now);
  }

  /** An earlier observation does not change the run that follows it. */
  lemma ObservedFirst(b: Bucket, s: real, rs: seq<Request>)
    requires Good(b) && b.lastUpdate <= s && rs != [] && Ordered(rs, s)
    ensures Granted(Refill(b, s), rs) == Granted(b, rs)
    ensures End(Refill(b, s), rs) == End(b, rs)
  {
    AttemptObserved(b, s, rs[0]);
  }

  /** Seen from its own start, a run hands out at most the capacity plus the refill over its duration. */
  lemma RunGrantsAtMost(b: Bucket, rs: seq<Request>)
    requires Good(b) && Ordered(rs, b.lastUpdate) && Proper(rs)
    ensures Granted(b, rs) <= b.capacity + Supplied(b.lastUpdate, LastTime(rs, b.lastUpdate), b.rate)
  {
    RunBalance(b, rs);
  }

  /**
   * The rate bound: in any window of any run, from its first request to its last, at most a
   * full bucket plus the refill over the window's duration is granted.
   */
  lemma RateBound(b: Bucket, before: seq<Request>, window: seq<Request>)
    requires Good(b) && Ordered(before, b.lastUpdate) && window != [] && Proper(before) && Proper(window)
    requires Ordered(window, LastTime(before, b.lastUpdate))
    ensures Granted(End(b, before), window) <=
            b.capacity + Supplied(window[0].now, LastTime(window, window[0].now), b.rate)
  {
    RunBalance(b, before);
    var s := End(b, before);
    ObservedFirst(s, window[0].now, window);
    RefillGood(s, window[0].now);
    RunGrantsAtMost(Refill(s, window[0].now), window);
  }

  /** The requests of a run that were granted. */
  function GrantedOnly(b: Bucket, rs: seq<Request>): seq<Request>
    decreases |rs|
  {
    if rs == [] then []
    else (if Grants(b, rs[0]) then [rs[0]] else []) + GrantedOnly(Attempt(b, rs[0]), rs[1..])
  }

  /** Refused requests leave no trace: dropping them gives the same balance at any later time and the same grants. */
  lemma {:induction false} RefusalsLeaveNoTrace(b: Bucket, rs: seq<Request>, t: real)
    requires Good(b) && Ordered(rs, b.lastUpdate) && Proper(rs) && LastTime(rs, b.lastUpdate) <= t
    ensures Refill(End(b, GrantedOnly(b, rs)), t) == Refill(End(b, rs), t)
    ensures Granted(b, GrantedOnly(b, rs)) == Granted(b, rs)
    decreases |rs|
  {
    if rs != [] {
      var a, rest := Attempt(b, rs[0]), rs[1..];
      AttemptGood(b, rs[0]);
      RefusalsLeaveNoTrace(a, rest, t);
      var kept := GrantedOnly(a, rest);
      if Grants(b, rs[0]) {
        assert ([rs[0]] + kept)[1..] == kept;
      } else {
        assert [] + kept == kept;
        KeptLater(a, rest);
        RunBalance(a, rest);
        LateStart(b, rs[0].now, kept, t);
      }
    }
  }

  /** The granted requests of a run are in order too, and end no later. */
  lemma {:induction false} KeptLater(b: Bucket, rs: seq<Request>)
    requires Ordered(rs, b.lastUpdate)
    ensures Ordered(GrantedOnly(b, rs), b.lastUpdate)
    ensures LastTime(GrantedOnly(b, rs), b.lastUpdate) <= LastTime(rs, b.lastUpdate)
    decreases |rs|
  {
    if rs != [] {
      var a := Attempt(b, rs[0]);
      KeptLater(a, rs[1..]);
      var kept := GrantedOnly(a, rs[1..]);
      if Grants(b, rs[0]) {
        assert ([rs[0]] + kept)[1..] == kept;
      } else {
        assert [] + kept == kept;
        OrderedEarlier(kept, rs[0].now, b.lastUpdate);
      }
    }
  }

  lemma OrderedEarlier(rs: seq<Request>, from: real, earlier: real)
    requires Ordered(rs, from) && earlier <= from
    ensures Ordered(rs, earlier) && LastTime(rs, earlier) <= LastTime(rs, from)
  {
  }

  /** Starting from a refill at `s` or from before it makes no difference to what follows `s`. */
  lemma LateStart(b: Bucket, s: real, rs: seq<Request>, t: real)
    requires Good(b) && b.lastUpdate <= s <= t && Ordered(rs, s)
    ensures Refill(End(Refill(b, s), rs), t) == Refill(End(b, rs), t)
    ensures Granted(Refill(b, s), rs) == Granted(b, rs)
  {
    if rs == [] {
      RefillsCompose(b, s, t);
    } else {
      ObservedFirst(b, s, rs);
    }
  }

  // ---------- The object ----------

  datatype Outcome = Acquired | TimedOut | DivisionByZero | StillWaiting

  class TokenBucket {
    const capacity: real
    const refillRate: real
    var tokens: real
    var lastUpdate: real
    var clock: real                      // the wall clock, which never goes back
    ghost const start: Bucket
    ghost var history: seq<Request>      // every attempt so far, by any thread

    ghost function View(): Bucket
      reads this
    {
      Bucket(capacity, refillRate, tokens, lastUpdate)
    }

    ghost predicate Valid()
      reads this
    {
      && Ordered(history, start.lastUpdate)
      && View() == End(start, history)
      && lastUpdate <= clock
      && lastUpdate == LastTime(history, start.lastUpdate)
    }

    constructor (capacity: real, refillRate: real, now: real)
      ensures Valid() && View() == start == Bucket(capacity, refillRate, capacity, now) && history == [] && clock == now
    {
      this.capacity, this.refillRate := capacity, refillRate;
      tokens, lastUpdate, clock := capacity, now, now;
      start, history := Bucket(capacity, refillRate, capacity, now), [];
    }

    /** Reads the clock, which may have moved on. */
    method Now() returns (now: real)
      modifies this`clock
      ensures old(clock) <= now == clock
    {
      var elapsed: real := *;
      if elapsed > 0.0 {
        clock := clock + elapsed;
      }
      return clock;
    }

    /** Its first part: what has been supplied since the last time, up to the capacity. */
    method RefillUpTo(now: real)
      modifies this`tokens, this`lastUpdate
      ensures View() == Refill(old(View()), now)
    {
      var elapsed := now - lastUpdate;
      SuppliedIs(lastUpdate, now, refillRate);
      lastUpdate := now;
      tokens := Min(capacity, tokens + elapsed * refillRate);
    }

    /** The critical section of acquire, under the lock. */
    method TryAcquire(amount: real) returns (granted: bool)
      requires Valid()
      modifies this
      ensures Valid() && old(clock) <= clock
      ensures history == old(history) + [Request(clock, amount)]
      ensures granted == Grants(old(View()), Request(clock, amount)) && View() == Attempt(old(View()), Request(clock, amount))
      ensures granted <==> amount <= capacity && amount <= old(tokens) + (clock - old(lastUpdate)) * refillRate
    {
      ghost var before := View();
      var now := Now();
      RefillUpTo(now);
      granted := tokens >= amount;
      if granted {
        tokens := tokens - amount;
      }
      GrantsIff(before, Request(now, amount));
      history := history + [Request(now, amount)];
      EndAppend(start, old(history), Request(now, amount));
    }

    /** Other threads' attempts, any number of them. */
    method Others()
      requires Valid()
      modifies this
      ensures Valid() && old(clock) <= clock && old(history) <= history
    {
      var n: nat :| true;
      for i := 0 to n
        invariant Valid() && old(clock) <= clock && old(history) <= history
      {
        var amount: real := *;
        var _ := TryAcquire(amount);
      }
    }

    /** The balance a caller would find now; looking stores nothing. */
    method AvailableTokens() returns (available: real)
      requires Valid()
      modifies this`clock
      ensures Valid() && available == Refill(View(), clock).tokens && View() == old(View())
    {
      var now := Now();
      var elapsed := now - lastUpdate;
      SuppliedIs(lastUpdate, now, refillRate);
      available := Min(capacity, tokens + elapsed * refillRate);
    }

    /** These attempts, by their place in the history, were for this amount and were refused. */
    ghost predicate Refused(mine: seq<nat>, amount: real)
      reads this
    {
      forall k :: 0 <= k < |mine| ==>
        mine[k] < |history| && history[mine[k]].amount == amount && !Grants(End(start, history[..mine[k]]), history[mine[k]])
    }

    /**
     * Polls until the tokens are there or the deadline would pass; other threads run while it
     * sleeps. `polls` bounds the number of rounds looked at, `refused` are the attempts of this
     * call that were refused, `begin` is when it began.
     */
    method Acquire(amount: real, timeout: real, polls: nat) returns (outcome: Outcome, ghost refused: seq<nat>, ghost begin: real)
      requires Valid()
      modifies this
      ensures Valid() && old(clock) <= begin <= clock && old(history) <= history
      ensures Refused(refused, amount)
      ensures refillRate >= 1000.0 ==> outcome == Acquired && history == old(history)
      ensures refillRate < 1000.0 && outcome == Acquired ==>
                && |history| > |old(history)|
                && Last(history).amount == amount
                && Grants(End(start, history[..|history| - 1]), Last(history))
      ensures outcome == TimedOut ==>
                && refused != [] && refused[|refused| - 1] == |history| - 1
                && refillRate != 0.0 && clock + (amount - tokens) / refillRate > begin + timeout
      ensures outcome == DivisionByZero ==> refillRate == 0.0
    {
      refused, begin := [], clock;
      if refillRate >= 1000.0 {
        return Acquired, refused, begin;
      }
      var now := Now();
      begin := now;
      var deadline := now + timeout;
      outcome := StillWaiting;
      var left := polls;
      while left > 0
        invariant Valid() && begin <= clock && old(history) <= history && outcome == StillWaiting
        invariant Refused(refused, amount)
      {
        left := left - 1;
        var granted;
        granted, refused := Poll(amount, refused);
        if granted {
          return Acquired, refused, begin;
        }
        if refillRate == 0.0 {
          return DivisionByZero, refused, begin;
        }
        var waitTime := (amount - tokens) / refillRate;
        var later := Now();
        if later + waitTime > deadline {
          return TimedOut, refused, begin;
        }
        Sleep(refused, amount);
      }
    }

    /** One attempt of a call, added to its refused ones unless it is granted. */
    method Poll(amount: real, ghost refused0: seq<nat>) returns (granted: bool, ghost refused: seq<nat>)
      requires Valid() && Refused(refused0, amount)
      modifies this
      ensures Valid() && old(clock) <= clock && Refused(refused, amount)
      ensures |history| == |old(history)| + 1 && old(history) <= history && Last(history).amount == amount
      ensures granted <==> Grants(End(start, history[..|history| - 1]), Last(history))
      ensures !granted ==> refused != [] && refused[|refused| - 1] == |history| - 1
    {
      ghost var before := history;
      granted := TryAcquire(amount);
      assert history[..|history| - 1] == before;
      StillRefused(start, before, history, refused0, amount);
      refused := if granted then refused0 else refused0 + [|before|];
    }

    /** Other threads run; what was refused stays refused. */
    method Sleep(ghost refused: seq<nat>, ghost amount: real)
      requires Valid() && Refused(refused, amount)
      modifies this
      ensures Valid() && old(clock) <= clock && old(history) <= history && Refused(refused, amount)
    {
      ghost var before := history;
      Others();
      StillRefused(start, before, history, refused, amount);
    }
  }

  lemma StillRefused(start: Bucket, before: seq<Request>, history: seq<Request>, mine: seq<nat>, amount: real)
    requires before <= history
    requires forall k :: 0 <= k < |mine| ==>
               mine[k] < |before| && before[mine[k]].amount == amount && !Grants(End(start, before[..mine[k]]), before[mine[k]])
    ensures forall k :: 0 <= k < |mine| ==>
              mine[k] < |history| && history[mine[k]].amount == amount && !Grants(End(start, history[..mine[k]]), history[mine[k]])
  {
    forall k | 0 <= k < |mine| ensures history[..mine[k]] == before[..mine[k]] && history[mine[k]] == before[mine[k]] {
    }
  }

  function Last(rs: seq<Request>): Request
    requires rs != []
  {
    rs[|rs| - 1]
  }

  lemma {:induction false} EndAppend(b: Bucket, rs: seq<Request>, r: Request)
    requires Ordered(rs, b.lastUpdate) && LastTime(rs, b.lastUpdate) <= r.now
    ensures End(b, rs + [r]) == Attempt(End(b, rs), r)
    ensures Ordered(rs + [r], b.lastUpdate) && LastTime(rs + [r], b.lastUpdate) == r.now
    decreases |rs|
  {
    if rs == [] {
      assert rs + [r] == [r] && [r][1..] == [];
    } else {
      EndAppend(Attempt(b, rs[0]), rs[1..], r);
      assert (rs + [r])[1..] == rs[1..] + [r];
    }
  }
}
