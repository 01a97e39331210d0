/**
 * Sliding windows: bursts counted per key over pruned deques, and CPU samples pruned at twice
 * the window, each against the full history of what was recorded.
 */
module Windows {

  // ---------- Times in a window ----------

  predicate Ascending(ts: seq<real>) {
    forall i, j :: 0 <= i < j < |ts| ==> ts[i] <= ts[j]
  }

  predicate AtMost(ts: seq<real>, bound: real) {
    forall i :: 0 <= i < |ts| ==> ts[i] <= bound
  }

  /** The recorded times not older than the cutoff. */
  function Recent(ts: seq<real>, cutoff: real): seq<real> {
    if ts == [] then []
    else
      var last := ts[|ts| - 1];
      Recent(ts[..|ts| - 1], cutoff) + if last >= cutoff then [last] else []
  }

  /** `while dq and dq[0] < cutoff: dq.popleft()`. */
  function Popped(dq: seq<real>, cutoff: real): seq<real> {
    if dq != [] && dq[0] < cutoff then Popped(dq[1..], cutoff) else dq
  }

  lemma RecentAppend(ts: seq<real>, t: real, cutoff: real)
    ensures Recent(ts + [t], cutoff) == Recent(ts, cutoff) + if t >= cutoff then [t] else []
  {
    assert (ts + [t])[..|ts|] == ts;
  }

  lemma RecentNothing(cutoff: real)
    ensures Recent([], cutoff) == []
  {
  }

  lemma {:induction false} RecentWhole(ts: seq<real>, cutoff: real)
    requires forall i :: 0 <= i < |ts| ==> ts[i] >= cutoff
    ensures Recent(ts, cutoff) == ts
  {
    if ts != [] {
      RecentWhole(ts[..|ts| - 1], cutoff);
    }
  }

  lemma {:induction false} RecentDropsFirst(ts: seq<real>, cutoff: real)
    requires ts != [] && ts[0] < cutoff
    ensures Recent(ts, cutoff) == Recent(ts[1..], cutoff)
  {
    var n := |ts| - 1;
    if n > 0 {
      RecentDropsFirst(ts[..n], cutoff);
      assert ts[..n][1..] == ts[1..][..n - 1];
    }
  }

  /** On ascending times, popping from the left is exactly filtering. */
  lemma {:induction false} PoppedIsRecent(dq: seq<real>, cutoff: real)
    requires Ascending(dq)
    ensures Popped(dq, cutoff) == Recent(dq, cutoff)
    decreases |dq|
  {
    if dq != [] && dq[0] < cutoff {
      RecentDropsFirst(dq, cutoff);
      PoppedIsRecent(dq[1..], cutoff);
    } else {
      RecentWhole(dq, cutoff);
    }
  }

  /** Exactly the times from the cutoff on are kept, as often as they were recorded. */
  lemma {:induction false} RecentIsFilter(ts: seq<real>, cutoff: real, t: real)
    ensures multiset(Recent(ts, cutoff))[t] == if t >= cutoff then multiset(ts)[t] else 0
  {
    if ts != [] {
      var before, last := ts[..|ts| - 1], ts[|ts| - 1];
      RecentIsFilter(before, cutoff, t);
      assert ts == before + [last];
      RecentAppend(before, last, cutoff);
      assert multiset(before + [last])[t] == multiset(before)[t] + if t == last then 1 else 0;
    }
  }

  /** Pruning early loses nothing a later cutoff would keep. */
  lemma {:induction false} RecentTwice(ts: seq<real>, early: real, late: real)
    requires early <= late
    ensures Recent(Recent(ts, early), late) == Recent(ts, late)
  {
    if ts != [] {
      var before, last := ts[..|ts| - 1], ts[|ts| - 1];
      RecentTwice(before, early, late);
      if last >= early {
        RecentAppend(Recent(before, early), last, late);
      } else {
        assert Recent(before, early) + [] == Recent(before, early);
      }
    }
  }

  lemma {:induction false} RecentOrdered(ts: seq<real>, cutoff: real, bound: real)
    requires Ascending(ts) && AtMost(ts, bound)
    ensures Ascending(Recent(ts, cutoff)) && AtMost(Recent(ts, cutoff), bound)
  {
    if ts != [] {
      RecentOrdered(ts[..|ts| - 1], cutoff, ts[|ts| - 1]);
    }
  }

  // ---------- Bursts per key ----------

  /** Something counted for a key at a time, or a key's flag cleared. */
  datatype Event = Hit(key: string, now: real) | Clear(key: string)

  datatype State = State(attempts: map<string, seq<real>>, emitted: set<string>)

  datatype Config = Config(window: real, threshold: real)

  function Held(s: State, key: string): seq<real> {
    if key in s.attempts then s.attempts[key] else []
  }

  /** What one event does to the pruned deques and flags, and whether it emits. */
  function Step(s: State, e: Event, c: Config): (State, bool) {
    match e
    case Clear(k) => (s.(emitted := s.emitted - {k}), false)
    case Hit(k, now) =>
      var dq := Popped(Held(s, k) + [now], now - c.window);
      var fires := |dq| as real >= c.threshold && k !in s.emitted;
      (State(s.attempts[k := dq], if fires then s.emitted + {k} else s.emitted), fires)
  }

  function Run(events: seq<Event>, c: Config): State {
    if events == [] then State(map[], {}) else Step(Run(events[..|events| - 1], c), events[|events| - 1], c).0
  }

  /** Whether the last event of a run emits. */
  predicate Emits(events: seq<Event>, c: Config)
    requires events != []
  {
    Step(Run(events[..|events| - 1], c), events[|events| - 1], c).1
  }

  // The same, from the full history alone.

  function History(events: seq<Event>, key: string): seq<real> {
    if events == [] then []
    else
      var e := events[|events| - 1];
      History(events[..|events| - 1], key) + if e.Hit? && e.key == key then [e.now] else []
  }

  function InWindow(events: seq<Event>, key: string, now: real, c: Config): nat {
    |Recent(History(events, key), now - c.window)|
  }

  /** The last event reaches the threshold for its key, which has not fired since it was last cleared. */
  predicate ShouldFire(events: seq<Event>, c: Config)
    decreases |events|, 1
  {
    events != [] &&
    var e := events[|events| - 1];
    && e.Hit?
    && InWindow(events, e.key, e.now, c) as real >= c.threshold
    && !FiredSinceClear(events[..|events| - 1], e.key, c)
  }

  predicate FiredSinceClear(events: seq<Event>, key: string, c: Config)
    decreases |events|, 2
  {
    events != [] &&
    var e := events[|events| - 1];
    if e == Clear(key) then false
    else (e.Hit? && e.key == key && ShouldFire(events, c)) || FiredSinceClear(events[..|events| - 1], key, c)
  }

  /** The clock never goes back. */
  predicate InOrder(events: seq<Event>) {
    forall i, j :: 0 <= i < j < |events| && events[i].Hit? && events[j].Hit? ==> events[i].now <= events[j].now
  }

  predicate HitsBy(events: seq<Event>, bound: real) {
    forall i :: 0 <= i < |events| && events[i].Hit? ==> events[i].now <= bound
  }

  lemma {:induction false} HistoryOrdered(events: seq<Event>, key: string, bound: real)
    requires InOrder(events) && HitsBy(events, bound)
    ensures Ascending(History(events, key)) && AtMost(History(events, key), bound)
  {
    if events != [] {
      var n := |events| - 1;
      var e := events[n];
      HistoryOrdered(events[..n], key, if e.Hit? then e.now else bound);
    }
  }

  /** The deque of a key is everything recorded for it inside the window of its last event. */
  ghost predicate Pruned(events: seq<Event>, key: string, c: Config) {
    var h := History(events, key);
    Held(Run(events, c), key) == if h == [] then [] else Recent(h, h[|h| - 1] - c.window)
  }

  lemma OrderPrefix(events: seq<Event>)
    requires InOrder(events) && events != []
    ensures var before, e := events[..|events| - 1], events[|events| - 1];
            InOrder(before) && (e.Hit? ==> HitsBy(before, e.now)) && events == before + [e]
  {
  }

  lemma {:induction false} AlwaysPruned(events: seq<Event>, key: string, c: Config)
    requires InOrder(events)
    ensures Pruned(events, key, c)
  {
    if events != [] {
      OrderPrefix(events);
      var before, e := events[..|events| - 1], events[|events| - 1];
      AlwaysPruned(before, key, c);
      StepPrunes(before, e, key, c);
    }
  }

  lemma Unfold(before: seq<Event>, e: Event, key: string, c: Config)
    ensures Run(before + [e], c) == Step(Run(before, c), e, c).0
    ensures History(before + [e], key) ==
            if e.Hit? && e.key == key then History(before, key) + [e.now] else History(before, key)
  {
    assert (before + [e])[..|before|] == before;
    assert History(before, key) + [] == History(before, key);
  }

  lemma StepPrunes(before: seq<Event>, e: Event, key: string, c: Config)
    requires InOrder(before) && (e.Hit? ==> HitsBy(before, e.now)) && Pruned(before, key, c)
    ensures Pruned(before + [e], key, c)
  {
    hide Step, Run, History, Recent;
    Unfold(before, e, key, c);
    if e.Hit? && e.key == key {
      HitPrunes(before, e, c);
      LastOf(History(before, key), e.now);
    } else {
      OthersUntouched(Run(before, c), e, key, c);
    }
  }

  lemma LastOf(h: seq<real>, t: real)
    ensures h + [t] != [] && (h + [t])[|h + [t]| - 1] == t
  {
  }

  lemma OthersUntouched(s: State, e: Event, key: string, c: Config)
    requires !(e.Hit? && e.key == key)
    ensures Held(Step(s, e, c).0, key) == Held(s, key)
  {
  }

  lemma HitPrunes(before: seq<Event>, e: Event, c: Config)
    requires e.Hit? && InOrder(before) && HitsBy(before, e.now) && Pruned(before, e.key, c)
    ensures Held(Step(Run(before, c), e, c).0, e.key) == Recent(History(before, e.key) + [e.now], e.now - c.window)
  {
    HistoryOrdered(before, e.key, e.now);
    PushPrunes(History(before, e.key), Held(Run(before, c), e.key), e.now, c.window);
  }

  lemma PushPrunes(h: seq<real>, dq: seq<real>, now: real, window: real)
    requires Ascending(h) && AtMost(h, now)
    requires dq == if h == [] then [] else Recent(h, h[|h| - 1] - window)
    ensures Popped(dq + [now], now - window) == Recent(h + [now], now - window)
  {
    hide Recent, Popped;
    var cutoff := now - window;
    RecentNothing(cutoff);
    RecentAppend(dq, now, cutoff);
    RecentAppend(h, now, cutoff);
    if h != [] {
      var earlier := h[|h| - 1] - window;
      RecentOrdered(h, earlier, now);
      RecentTwice(h, earlier, cutoff);
    }
    PoppedIsRecent(dq + [now], cutoff);
  }

  /** A key is flagged exactly when it fired since it was last cleared. */
  lemma {:induction false} EmittedIsFired(events: seq<Event>, key: string, c: Config)
    requires InOrder(events)
    ensures key in Run(events, c).emitted <==> FiredSinceClear(events, key, c)
    decreases |events|, 0
  {
    if events != [] {
      EmittedIsFired(events[..|events| - 1], key, c);
      EmitsExactly(events, c);
    }
  }

  /**
   * The machine on pruned deques emits at exactly the events the full history calls for: the
   * first to bring the window to the threshold, and then not again until the key is cleared.
   */
  lemma {:induction false} EmitsExactly(events: seq<Event>, c: Config)
    requires InOrder(events) && events != []
    ensures Emits(events, c) <==> ShouldFire(events, c)
    decreases |events| - 1, 1
  {
    var n := |events| - 1;
    var before, e := events[..n], events[n];
    OrderPrefix(events);
    if e.Hit? {
      EmittedIsFired(before, e.key, c);
      AlwaysPruned(before, e.key, c);
      HitPrunes(before, e, c);
      assert History(events, e.key) == History(before, e.key) + [e.now];
    }
  }

  // The same once more, in the events alone.

  /** The events counted for a key that lie in the window of `now`. */
  function Counted(events: seq<Event>, key: string, now: real, c: Config): set<nat> {
    set i: nat | i < |events| && events[i].Hit? && events[i].key == key && events[i].now >= now - c.window
  }

  lemma CountedNext(events: seq<Event>, key: string, now: real, c: Config)
    requires events != []
    ensures var n := |events| - 1;
            var e := events[n];
            |Counted(events, key, now, c)| ==
            |Counted(events[..n], key, now, c)| + if e.Hit? && e.key == key && e.now >= now - c.window then 1 else 0
  {
    var n := |events| - 1;
    var e := events[n];
    var more: set<nat> := if e.Hit? && e.key == key && e.now >= now - c.window then {n} else {};
    assert Counted(events, key, now, c) == Counted(events[..n], key, now, c) + more;
  }

  lemma {:induction false} CountedIs(events: seq<Event>, key: string, now: real, c: Config)
    ensures |Counted(events, key, now, c)| == InWindow(events, key, now, c)
  {
    if events != [] {
      var n := |events| - 1;
      var e := events[n];
      CountedIs(events[..n], key, now, c);
      CountedNext(events, key, now, c);
      if e.Hit? && e.key == key {
        RecentAppend(History(events[..n], key), e.now, now - c.window);
      } else {
        assert History(events, key) == History(events[..n], key);
      }
    }
  }

  /** Event `i` fired for the key, and the key was not cleared after it. */
  predicate FiredAt(events: seq<Event>, i: nat, key: string, c: Config)
    requires i < |events|
  {
    && events[i].Hit? && events[i].key == key && ShouldFire(events[..i + 1], c)
    && forall k :: i < k < |events| ==> events[k] != Clear(key)
  }

  lemma FiredEarlier(events: seq<Event>, i: nat, key: string, c: Config)
    requires i + 1 < |events|
    ensures var n := |events| - 1;
            FiredAt(events, i, key, c) <==> FiredAt(events[..n], i, key, c) && events[n] != Clear(key)
  {
    var n := |events| - 1;
    assert events[..n][..i + 1] == events[..i + 1];
    assert forall k :: 0 <= k < n ==> events[..n][k] == events[k];
  }

  lemma {:induction false} FiredSinceClearIff(events: seq<Event>, key: string, c: Config)
    ensures FiredSinceClear(events, key, c) <==> exists i :: 0 <= i < |events| && FiredAt(events, i, key, c)
  {
    hide ShouldFire;
    if events != [] {
      var n := |events| - 1;
      FiredSinceClearIff(events[..n], key, c);
      forall i | 0 <= i < n
        ensures FiredAt(events, i, key, c) <==> FiredAt(events[..n], i, key, c) && events[n] != Clear(key)
      {
        FiredEarlier(events, i, key, c);
      }
      assert events[..n + 1] == events;
      assert FiredAt(events, n, key, c) <==> events[n].Hit? && events[n].key == key && ShouldFire(events, c);
    }
  }

  /**
   * The law of a burst: an event emits exactly when so many of its key, itself included, lie in
   * the window up to it, and none that emitted before is without a clearing of the key since.
   */
  lemma BurstLaw(events: seq<Event>, c: Config)
    requires InOrder(events) && events != []
    ensures var n := |events| - 1;
            var e := events[n];
            Emits(events, c) <==>
              && e.Hit?
              && |set i: nat | i <= n && events[i].Hit? && events[i].key == e.key && events[i].now >= e.now - c.window| as real >= c.threshold
              && forall j :: 0 <= j < n && events[j].Hit? && events[j].key == e.key && Emits(events[..j + 1], c) ==>
                   exists k :: j < k < n && events[k] == Clear(e.key)
  {
    var n := |events| - 1;
    var e := events[n];
    EmitsExactly(events, c);
    if e.Hit? {
      CountedIs(events, e.key, e.now, c);
      assert Counted(events, e.key, e.now, c) ==
             set i: nat | i <= n && events[i].Hit? && events[i].key == e.key && events[i].now >= e.now - c.window;
      FiredSinceClearIff(events[..n], e.key, c);
      forall j | 0 <= j < n
        ensures FiredAt(events[..n], j, e.key, c) <==>
                && events[j].Hit? && events[j].key == e.key && Emits(events[..j + 1], c)
                && !exists k :: j < k < n && events[k] == Clear(e.key)
      {
        EmittedBefore(events, j, e.key, c);
      }
    }
  }

  lemma EmittedBefore(events: seq<Event>, j: nat, key: string, c: Config)
    requires InOrder(events) && j + 1 < |events|
    ensures var n := |events| - 1;
            FiredAt(events[..n], j, key, c) <==>
              && events[j].Hit? && events[j].key == key && Emits(events[..j + 1], c)
              && !exists k :: j < k < n && events[k] == Clear(key)
  {
    hide ShouldFire, Emits;
    var n := |events| - 1;
    assert events[..n][..j + 1] == events[..j + 1];
    EmitsExactly(events[..j + 1], c);
    assert forall k :: 0 <= k < n ==> events[..n][k] == events[k];
  }

  /** Asking for the count later on reads the full history's count. */
  lemma CurrentCount(events: seq<Event>, key: string, now: real, c: Config)
    requires InOrder(events)
    requires HitsBy(events, now)
    ensures |Recent(Held(Run(events, c), key), now - c.window)| == InWindow(events, key, now, c)
  {
    AlwaysPruned(events, key, c);
    HistoryOrdered(events, key, now);
    var h := History(events, key);
    if h != [] {
      RecentTwice(h, h[|h| - 1] - c.window, now - c.window);
    }
  }

  /** Two emissions for one key have a clearing of that key between them. */
  lemma {:induction false} ClearBetweenEmissions(events: seq<Event>, key: string, c: Config, i: nat)
    requires i < |events| && ShouldFire(events[..i + 1], c) && events[i].key == key
    requires forall k :: i < k < |events| ==> events[k] != Clear(key)
    ensures FiredSinceClear(events, key, c)
    decreases |events|
  {
    if i == |events| - 1 {
      assert events[..i + 1] == events;
    } else {
      assert events[..|events| - 1][..i + 1] == events[..i + 1];
      ClearBetweenEmissions(events[..|events| - 1], key, c, i);
    }
  }

  // ---------- The heuristics ----------

  /** `sum(1 for t in dq if t >= cutoff)`. */
  method CountRecent(dq: seq<real>, cutoff: real) returns (n: nat)
    ensures n == |Recent(dq, cutoff)|
  {
    n := 0;
    for i := 0 to |dq|
      invariant n == |Recent(dq[..i], cutoff)|
    {
      RecentAppend(dq[..i], dq[i], cutoff);
      assert dq[..i] + [dq[i]] == dq[..i + 1];
      if dq[i] >= cutoff {
        n := n + 1;
      }
    }
    assert dq[..|dq|] == dq;
  }

  class BruteForceHeuristic {
    const config: Config
    var attempts: map<string, seq<real>>
    var emitted: set<string>

    ghost function View(): State
      reads this
    {
      State(attempts, emitted)
    }

    constructor (failedLoginCount: int, windowSeconds: real)
      ensures config == Config(windowSeconds, failedLoginCount as real) && View() == Run([], config)
    {
      config := Config(windowSeconds, failedLoginCount as real);
      attempts, emitted := map[], {};
    }

    /** One failed login from a source; events without a source change nothing. */
    method ProcessLoginEvent(source: string, now: real) returns (fires: bool)
      modifies this
      ensures source == "" ==> !fires && View() == old(View())
      ensures source != "" ==> (View(), fires) == Step(old(View()), Hit(source, now), config)
    {
      if source == "" {
        return false;
      }
      var dq := if source in attempts then attempts[source] else [];
      dq := dq + [now];
      var cutoff := now - config.window;
      ghost var appended := dq;
      while dq != [] && dq[0] < cutoff
        invariant Popped(dq, cutoff) == Popped(appended, cutoff)
      {
        dq := dq[1..];
      }
      attempts := attempts[source := dq];
      if |dq| as real < config.threshold {
        return false;
      }
      if source in emitted {
        return false;
      }
      emitted := emitted + {source};
      return true;
    }

    method CurrentCount(source: string, now: real) returns (n: nat)
      ensures n == |Recent(Held(View(), source), now - config.window)|
    {
      if source !in attempts {
        return 0;
      }
      n := CountRecent(attempts[source], now - config.window);
    }

    method ClearSourceFlag(source: string)
      modifies this
      ensures View() == Step(old(View()), Clear(source), config).0
    {
      emitted := emitted - {source};
    }
  }

  datatype FileSignal = CanaryTripped | EntropySpike | MassModification

  class RansomwareHeuristic {
    const writeRate: real
    const entropyAlert: real
    var writes: map<string, seq<real>>
    var emittedRate: set<string>
    var emittedEntropy: set<string>

    ghost function View(): State
      reads this
    {
      State(writes, emittedRate)
    }

    constructor (writeRate: real, entropyAlert: real)
      ensures this.writeRate == writeRate && this.entropyAlert == entropyAlert
      ensures View() == Run([], Config(60.0, writeRate)) && emittedEntropy == {}
    {
      this.writeRate := writeRate;
      this.entropyAlert := entropyAlert;
      writes, emittedRate, emittedEntropy := map[], {}, {};
    }

    /**
     * One file write in a scope, counted in a 60-second window against a rate in writes per minute. A tripped canary answers at once and is not counted; entropy
     * is reported once per path, the write rate once per scope until its flag is cleared.
     */
    method ProcessFsEvent(scope: string, path: string, canary: bool, hasEntropy: bool, entropy: real, now: real)
      returns (signals: seq<FileSignal>)
      modifies this
      ensures canary ==> signals == [CanaryTripped] && View() == old(View()) && emittedEntropy == old(emittedEntropy)
      ensures !canary ==>
                var spike, (s, fires) := hasEntropy && entropy >= entropyAlert && path !in old(emittedEntropy),
                                         Step(old(View()), Hit(scope, now), Config(60.0, writeRate));
                && View() == s
                && emittedEntropy == (if spike then old(emittedEntropy) + {path} else old(emittedEntropy))
                && signals == (if spike then [EntropySpike] else []) + (if fires then [MassModification] else [])
    {
      signals := [];
      if canary {
        return [CanaryTripped];
      }
      var dq := if scope in writes then writes[scope] else [];
      dq := dq + [now];
      var cutoff := now - 60.0;
      ghost var appended := dq;
      while dq != [] && dq[0] < cutoff
        invariant Popped(dq, cutoff) == Popped(appended, cutoff)
      {
        dq := dq[1..];
      }
      writes := writes[scope := dq];
      if hasEntropy && entropy >= entropyAlert {
        if path !in emittedEntropy {
          emittedEntropy := emittedEntropy + {path};
          signals := signals + [EntropySpike];
        }
      }
      assert 60.0 / 60.0 == 1.0;
      var ratePerMin := |dq| as real * (60.0 / 60.0);
      if ratePerMin >= writeRate && scope !in emittedRate {
        emittedRate := emittedRate + {scope};
        signals := signals + [MassModification];
      }
    }

    /** Writes per minute in the current window. */
    method CurrentRate(scope: string, now: real) returns (rate: real)
      ensures rate == |Recent(Held(View(), scope), now - 60.0)| as real
    {
      if scope !in writes {
        return 0.0;
      }
      var n := CountRecent(writes[scope], now - 60.0);
      assert 60.0 / 60.0 == 1.0;
      return n as real * (60.0 / 60.0);
    }

    method ClearScopeFlag(scope: string)
      modifies this`emittedRate
      ensures View() == Step(old(View()), Clear(scope), Config(60.0, writeRate)).0
    {
      emittedRate := emittedRate - {scope};
    }
  }

  // ---------- CPU samples ----------

  datatype Sample = Sample(time: real, percent: real)

  function Since(samples: seq<Sample>, cutoff: real): seq<Sample> {
    if samples == [] then []
    else
      var last := samples[|samples| - 1];
      Since(samples[..|samples| - 1], cutoff) + if last.time >= cutoff then [last] else []
  }

  /** High throughout the window, and the window starts early enough to be a full one. */
  predicate SustainedAbove(samples: seq<Sample>, threshold: real, seconds: real, now: real) {
    var cutoff := now - seconds;
    var window := Since(samples, cutoff);
    && window != []
    && window[0].time <= cutoff + seconds * 0.25
    && forall i :: 0 <= i < |window| ==> window[i].percent >= threshold
  }

  lemma {:induction false} SinceTwice(samples: seq<Sample>, early: real, late: real)
    requires early <= late
    ensures Since(Since(samples, early), late) == Since(samples, late)
  {
    if samples != [] {
      var before, last := samples[..|samples| - 1], samples[|samples| - 1];
      SinceTwice(before, early, late);
      if last.time >= early {
        SinceAppend(Since(before, early), last, late);
      } else {
        assert Since(before, early) + [] == Since(before, early);
      }
    }
  }

  lemma SinceAppend(samples: seq<Sample>, s: Sample, cutoff: real)
    ensures Since(samples + [s], cutoff) == Since(samples, cutoff) + if s.time >= cutoff then [s] else []
  {
    assert (samples + [s])[..|samples|] == samples;
  }

  // What an answer of true is worth.

  lemma {:induction false} SinceHolds(samples: seq<Sample>, cutoff: real, i: nat)
    requires i < |samples| && samples[i].time >= cutoff
    ensures samples[i] in Since(samples, cutoff)
  {
    if i < |samples| - 1 {
      SinceHolds(samples[..|samples| - 1], cutoff, i);
    }
  }

  lemma {:induction false} SinceBetween(samples: seq<Sample>, cutoff: real, now: real)
    requires forall i :: 0 <= i < |samples| ==> samples[i].time <= now
    ensures forall i :: 0 <= i < |Since(samples, cutoff)| ==> cutoff <= Since(samples, cutoff)[i].time <= now
  {
    if samples != [] {
      SinceBetween(samples[..|samples| - 1], cutoff, now);
    }
  }

  /** The sample `i` is the first of the window. */
  predicate FirstSince(samples: seq<Sample>, i: nat, cutoff: real)
    requires i < |samples|
  {
    samples[i].time >= cutoff && forall j :: 0 <= j < i ==> samples[j].time < cutoff
  }

  lemma {:induction false} SinceNone(samples: seq<Sample>, cutoff: real)
    ensures Since(samples, cutoff) == [] <==> forall i :: 0 <= i < |samples| ==> samples[i].time < cutoff
  {
    if samples != [] {
      var before, last := samples[..|samples| - 1], samples[|samples| - 1];
      SinceNone(before, cutoff);
      assert forall i :: 0 <= i < |before| ==> before[i] == samples[i];
    }
  }

  lemma {:induction false} SinceFirst(samples: seq<Sample>, cutoff: real, i: nat)
    requires i < |samples| && FirstSince(samples, i, cutoff)
    ensures Since(samples, cutoff) != [] && Since(samples, cutoff)[0] == samples[i]
  {
    var n := |samples| - 1;
    if i < n {
      SinceFirst(samples[..n], cutoff, i);
    } else {
      SinceNone(samples[..n], cutoff);
    }
  }

  lemma {:induction false} SomeFirst(samples: seq<Sample>, cutoff: real, k: nat)
    requires k < |samples| && samples[k].time >= cutoff
    ensures exists i :: 0 <= i <= k && FirstSince(samples, i, cutoff)
  {
    if j: nat :| j < k && samples[j].time >= cutoff {
      SomeFirst(samples, cutoff, j);
    } else {
      assert FirstSince(samples, k, cutoff);
    }
  }

  lemma {:induction false} SinceOnly(samples: seq<Sample>, cutoff: real, s: Sample)
    requires s in Since(samples, cutoff)
    ensures s in samples && s.time >= cutoff
  {
    if samples != [] && s !in Since(samples[..|samples| - 1], cutoff) {
    } else if samples != [] {
      SinceOnly(samples[..|samples| - 1], cutoff, s);
    }
  }

  lemma WindowHigh(samples: seq<Sample>, cutoff: real, threshold: real)
    ensures (forall i :: 0 <= i < |Since(samples, cutoff)| ==> Since(samples, cutoff)[i].percent >= threshold) <==>
              forall i :: 0 <= i < |samples| && samples[i].time >= cutoff ==> samples[i].percent >= threshold
  {
    hide Since;
    var window := Since(samples, cutoff);
    forall i | 0 <= i < |samples| && samples[i].time >= cutoff ensures samples[i] in window {
      SinceHolds(samples, cutoff, i);
    }
    forall i | 0 <= i < |window| ensures window[i] in samples && window[i].time >= cutoff {
      SinceOnly(samples, cutoff, window[i]);
    }
  }

  lemma WindowEarly(samples: seq<Sample>, cutoff: real, bound: real)
    ensures var window := Since(samples, cutoff);
            window != [] && window[0].time <= bound <==>
              exists i :: 0 <= i < |samples| && FirstSince(samples, i, cutoff) && samples[i].time <= bound
  {
    hide Since;
    var window := Since(samples, cutoff);
    forall i | 0 <= i < |samples| && FirstSince(samples, i, cutoff) ensures window != [] && window[0] == samples[i] {
      SinceFirst(samples, cutoff, i);
    }
    SinceNone(samples, cutoff);
    if window != [] {
      var k :| 0 <= k < |samples| && samples[k].time >= cutoff;
      SomeFirst(samples, cutoff, k);
    }
  }

  /** The answer, in the samples alone: the first one in the window lies in its first quarter, and every one in it is high. */
  lemma SustainedIff(samples: seq<Sample>, threshold: real, seconds: real, now: real)
    ensures SustainedAbove(samples, threshold, seconds, now) <==>
              && (exists i :: 0 <= i < |samples| && FirstSince(samples, i, now - seconds)
                              && samples[i].time <= now - 0.75 * seconds)
              && forall i :: 0 <= i < |samples| && samples[i].time >= now - seconds ==> samples[i].percent >= threshold
  {
    hide Since, FirstSince;
    var cutoff := now - seconds;
    assert cutoff + seconds * 0.25 == now - 0.75 * seconds;
    WindowEarly(samples, cutoff, now - 0.75 * seconds);
    WindowHigh(samples, cutoff, threshold);
  }

  /** The time the samples of a window span. */
  function Span(window: seq<Sample>): real
    requires window != []
  {
    window[|window| - 1].time - window[0].time
  }

  /** What is promised: high throughout, over at least the configured time. */
  predicate SpansAll(samples: seq<Sample>, threshold: real, seconds: real, now: real) {
    var window := Since(samples, now - seconds);
    && window != []
    && Span(window) >= seconds
    && forall i :: 0 <= i < |window| ==> window[i].percent >= threshold
  }

  /** The promise is kept exactly when the answer is true and samples stand at both ends of the window. */
  lemma SpansAllIff(samples: seq<Sample>, threshold: real, seconds: real, now: real)
    requires seconds >= 0.0 && forall i :: 0 <= i < |samples| ==> samples[i].time <= now
    ensures SpansAll(samples, threshold, seconds, now) <==>
              && SustainedAbove(samples, threshold, seconds, now)
              && var window := Since(samples, now - seconds);
                 window[0].time == now - seconds && window[|window| - 1].time == now
  {
    SinceBetween(samples, now - seconds, now);
  }

  /** With the newest sample taken now, a true answer is worth three quarters of the time, all of it high. */
  lemma SustainedIsWorth(samples: seq<Sample>, threshold: real, seconds: real, now: real)
    requires seconds >= 0.0 && samples != [] && samples[|samples| - 1].time == now
    requires SustainedAbove(samples, threshold, seconds, now)
    ensures var window := Since(samples, now - seconds);
            && window[|window| - 1] == samples[|samples| - 1]
            && Span(window) >= 0.75 * seconds
            && (Span(window) >= seconds <==> window[0].time <= now - seconds)
    ensures forall i :: 0 <= i < |samples| && samples[i].time >= now - seconds ==> samples[i].percent >= threshold
  {
    forall i | 0 <= i < |samples| && samples[i].time >= now - seconds ensures samples[i].percent >= threshold {
      SinceHolds(samples, now - seconds, i);
    }
  }

  /** No more than that: samples 45 seconds apart pass for 60, and without a fresh one a single stale sample does. */
  lemma SustainedFallsShort()
    ensures var two := [Sample(55.0, 90.0), Sample(100.0, 90.0)];
            SustainedAbove(two, 85.0, 60.0, 100.0) && Span(Since(two, 40.0)) == 45.0
    ensures var one := [Sample(55.0, 90.0)];
            SustainedAbove(one, 85.0, 60.0, 100.0) && Span(Since(one, 40.0)) == 0.0
  {
    var x, y := Sample(55.0, 90.0), Sample(100.0, 90.0);
    SinceAppend([], x, 40.0);
    SinceAppend([] + [x], y, 40.0);
    assert [] + [x] == [x] && [x] + [y] == [x, y];
  }

  class CpuWindow {
    var samples: seq<Sample>
    ghost var history: seq<Sample>   // every sample ever added
    ghost const maxAge: real

    /** The window holds every sample not older than the last cutoff. */
    ghost predicate Valid()
      reads this
    {
      samples == if history == [] then [] else Since(history, history[|history| - 1].time - maxAge)
    }

    constructor (ghost maxAge: real)
      ensures Valid() && history == [] && this.maxAge == maxAge
    {
      samples, history, this.maxAge := [], [], maxAge;
    }

    method Add(ts: real, percent: real, age: real)
      requires Valid() && age == maxAge
      requires history != [] ==> history[|history| - 1].time <= ts
      modifies this
      ensures Valid() && history == old(history) + [Sample(ts, percent)]
    {
      var s := Sample(ts, percent);
      samples := samples + [s];
      var cutoff := ts - age;
      samples := Since(samples, cutoff);
      if history != [] {
        SinceTwice(history, history[|history| - 1].time - maxAge, cutoff);
        SinceAppend(old(samples), s, cutoff);
        SinceAppend(history, s, cutoff);
      }
      history := history + [s];
      assert old(samples) == [] && old(history) == [] ==> [] + [s] == [s];
    }

    /** Keeping twice the window is enough: the answer is that of the full history. */
    method Sustained(threshold: real, seconds: real, now: real) returns (b: bool)
      requires Valid() && seconds >= 0.0 && maxAge == seconds * 2.0
      requires history != [] ==> history[|history| - 1].time <= now
      ensures b == SustainedAbove(history, threshold, seconds, now)
    {
      var cutoff := now - seconds;
      if history != [] {
        SinceTwice(history, history[|history| - 1].time - maxAge, cutoff);
      }
      var window := Since(samples, cutoff);
      assert window == Since(history, cutoff);
      if window == [] {
        return false;
      }
      if window[0].time > cutoff + seconds * 0.25 {
        return false;
      }
      return forall i :: 0 <= i < |window| ==> window[i].percent >= threshold;
    }

    /** One round of sampling for a process: always recorded, reported once, when sustained. */
    method Observe(now: real, percent: real, threshold: real, seconds: real, reported: bool) returns (fires: bool)
      requires Valid() && seconds >= 0.0 && maxAge == seconds * 2.0
      requires history != [] ==> history[|history| - 1].time <= now
      modifies this
      ensures Valid() && history == old(history) + [Sample(now, percent)]
      ensures fires <==> !reported && SustainedAbove(history, threshold, seconds, now)
      ensures fires ==> Span(Since(history, now - seconds)) >= 0.75 * seconds
    {
      Add(now, percent, seconds * 2.0);
      if reported {
        return false;
      }
      fires := Sustained(threshold, seconds, now);
      if fires {
        SustainedIsWorth(history, threshold, seconds, now);
      }
    }
  }
}
