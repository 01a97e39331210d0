/**
 * Image loads: the reputation cache, the layered rules that turn one load into weak signals,
 * and what whole runs of loads can and cannot lead to.
 */
module DllLoads {
  import opened Options
  import opened Scoring
  import opened Scorers
  import Subjects

  /** One image load; an unknown hash or publisher is the empty string. */
  datatype Context = Context(hash: string, publisher: string, loader: Option<int>, target: Option<int>,
                             signed: Option<bool>, reflective: bool, hostNormallyInjected: bool,
                             cpuAnomaly: bool, networkAnomaly: bool)

  /** The surgical allowlist and the number of clean loads that make a key reputable. */
  datatype Policy = Policy(publishers: set<string>, hashes: set<string>, cleanThreshold: int)

  type CleanLoads = map<string, nat>

  function HashKey(hash: string): string {
    "hash:" + hash
  }

  function PublisherKey(publisher: string): string {
    "pub:" + publisher
  }

  function Loads(m: CleanLoads, key: string): nat {
    if key in m then m[key] else 0
  }

  function Recorded(m: CleanLoads, key: string): CleanLoads {
    m[key := Loads(m, key) + 1]
  }

  predicate CrossProcess(ctx: Context) {
    ctx.loader.Some? && ctx.target.Some? && ctx.loader != ctx.target
  }

  predicate Trusted(ctx: Context, p: Policy) {
    (ctx.publisher != "" && ctx.publisher in p.publishers) || (ctx.hash != "" && ctx.hash in p.hashes)
  }

  predicate Reputable(ctx: Context, m: CleanLoads, p: Policy) {
    (ctx.hash != "" && Loads(m, HashKey(ctx.hash)) >= p.cleanThreshold) ||
    (ctx.publisher != "" && Loads(m, PublisherKey(ctx.publisher)) >= p.cleanThreshold)
  }

  /** A load that may contribute signals at all. */
  predicate Suspect(ctx: Context, m: CleanLoads, p: Policy) {
    !Trusted(ctx, p) && !Reputable(ctx, m, p) && CrossProcess(ctx)
  }

  /** The clean loads after this one. */
  function Learned(m: CleanLoads, ctx: Context, p: Policy): CleanLoads {
    if ctx.publisher != "" && ctx.publisher in p.publishers then Recorded(m, PublisherKey(ctx.publisher))
    else if Trusted(ctx, p) then Recorded(m, HashKey(ctx.hash))
    else if Reputable(ctx, m, p) || CrossProcess(ctx) then m
    else
      var m1 := if ctx.hash != "" then Recorded(m, HashKey(ctx.hash)) else m;
      if ctx.publisher != "" then Recorded(m1, PublisherKey(ctx.publisher)) else m1
  }

  /** A kind of signal a suspect load contributes. */
  predicate Contributes(ctx: Context, kind: string) {
    || (kind == "dll_reflective" && ctx.reflective)
    || kind == "dll_cross_process"
    || (kind == "dll_abnormal_host" && !ctx.hostNormallyInjected)
    || (kind == "dll_unsigned" && ctx.signed == Some(false)
        && (!ctx.hostNormallyInjected || ctx.cpuAnomaly || ctx.networkAnomaly))
  }

  function Subject(ctx: Context): string {
    match ctx.target case Some(pid) => Subjects.PidSubject(pid) case None => "unknown"
  }

  /** The order in which a load's signals come. */
  function Rank(kind: string): nat {
    if kind == "dll_reflective" then 0
    else if kind == "dll_cross_process" then 1
    else if kind == "dll_abnormal_host" then 2
    else 3
  }

  /** One signal of each kind the load contributes, in order, all about its target; none unless it is suspect. */
  ghost predicate Judged(ctx: Context, m: CleanLoads, p: Policy, signals: seq<Signal>) {
    && (forall i :: 0 <= i < |signals| ==> signals[i].subject == Subject(ctx))
    && (forall i, j :: 0 <= i < j < |signals| ==> Rank(signals[i].kind) < Rank(signals[j].kind))
    && forall kind :: Holds(signals, kind) <==> Suspect(ctx, m, p) && Contributes(ctx, kind)
  }

  ghost predicate Holds(signals: seq<Signal>, kind: string) {
    exists i :: 0 <= i < |signals| && signals[i].kind == kind
  }

  predicate Dated(signals: seq<Signal>, weigh: string -> real, now: real) {
    forall i :: 0 <= i < |signals| ==> signals[i].weight == weigh(signals[i].kind) && signals[i].timestamp == now
  }

  class DllReputationCache {
    const cleanThreshold: int
    var cleanLoads: CleanLoads

    constructor (cleanThreshold: int)
      ensures this.cleanThreshold == cleanThreshold && cleanLoads == map[]
    {
      this.cleanThreshold, cleanLoads := cleanThreshold, map[];
    }

    method RecordCleanLoad(key: string)
      modifies this
      ensures cleanLoads == Recorded(old(cleanLoads), key)
    {
      cleanLoads := cleanLoads[key := (if key in cleanLoads then cleanLoads[key] else 0) + 1];
    }

    predicate IsReputable(key: string)
      reads this
    {
      (if key in cleanLoads then cleanLoads[key] else 0) >= cleanThreshold
    }
  }

  /** The layered rules; `weigh` and `now` complete the signals. */
  method ScoreDllLoad(ctx: Context, reputation: DllReputationCache, p: Policy, weigh: string -> real, now: real)
    returns (signals: seq<Signal>)
    requires p.cleanThreshold == reputation.cleanThreshold
    modifies reputation
    ensures Judged(ctx, old(reputation.cleanLoads), p, signals)
    ensures Dated(signals, weigh, now)
    ensures reputation.cleanLoads == Learned(old(reputation.cleanLoads), ctx, p)
  {
    signals := [];
    if ctx.publisher != "" && ctx.publisher in p.publishers {
      reputation.RecordCleanLoad(PublisherKey(ctx.publisher));
      return;
    }
    if ctx.hash != "" && ctx.hash in p.hashes {
      reputation.RecordCleanLoad(HashKey(ctx.hash));
      return;
    }
    if ctx.hash != "" && reputation.IsReputable(HashKey(ctx.hash)) {
      return;
    }
    if ctx.publisher != "" && reputation.IsReputable(PublisherKey(ctx.publisher)) {
      return;
    }
    if !CrossProcess(ctx) {
      if ctx.hash != "" {
        reputation.RecordCleanLoad(HashKey(ctx.hash));
      }
      if ctx.publisher != "" {
        reputation.RecordCleanLoad(PublisherKey(ctx.publisher));
      }
      return;
    }
    signals := Injected(ctx, weigh, now);
  }

  /** The signals of a load into another process. */
  method Injected(ctx: Context, weigh: string -> real, now: real) returns (signals: seq<Signal>)
    ensures forall i :: 0 <= i < |signals| ==> signals[i].subject == Subject(ctx)
    ensures forall i, j :: 0 <= i < j < |signals| ==> Rank(signals[i].kind) < Rank(signals[j].kind)
    ensures forall kind :: Holds(signals, kind) <==> Contributes(ctx, kind)
    ensures Dated(signals, weigh, now)
  {
    signals := [];
    var kinds: seq<string> := [];
    if ctx.reflective {
      kinds := kinds + ["dll_reflective"];
    }
    kinds := kinds + ["dll_cross_process"];
    if !ctx.hostNormallyInjected {
      kinds := kinds + ["dll_abnormal_host"];
    }
    if ctx.signed == Some(false) {
      if !ctx.hostNormallyInjected || ctx.cpuAnomaly || ctx.networkAnomaly {
        kinds := kinds + ["dll_unsigned"];
      }
    }
    assert forall kind :: kind in kinds <==> Contributes(ctx, kind);
    signals := seq(|kinds|, i requires 0 <= i < |kinds| => Signal(kinds[i], Subject(ctx), weigh(kinds[i]), now));
    forall kind ensures Holds(signals, kind) <==> Contributes(ctx, kind) {
      if kind in kinds {
        var i :| 0 <= i < |kinds| && kinds[i] == kind;
        assert signals[i].kind == kind;
      }
    }
  }

  // ---------- The rules, in the fields of the load ----------

  /** A load contributes signals exactly when it comes from another process and nothing vouches for it. */
  lemma JudgedIff(ctx: Context, m: CleanLoads, p: Policy, signals: seq<Signal>)
    requires Judged(ctx, m, p, signals)
    ensures signals != [] <==>
              && ctx.loader.Some? && ctx.target.Some? && ctx.loader.value != ctx.target.value
              && !(ctx.publisher != "" && ctx.publisher in p.publishers)
              && !(ctx.hash != "" && ctx.hash in p.hashes)
              && !(ctx.hash != "" && (if "hash:" + ctx.hash in m then m["hash:" + ctx.hash] else 0) >= p.cleanThreshold)
              && !(ctx.publisher != "" && (if "pub:" + ctx.publisher in m then m["pub:" + ctx.publisher] else 0) >= p.cleanThreshold)
  {
    SignalsIffSuspect(ctx, m, p, signals);
  }

  /** Which kinds those are: by how it was mapped, where, and whether an anomaly comes with a missing signature. */
  lemma JudgedKinds(ctx: Context, m: CleanLoads, p: Policy, signals: seq<Signal>, kind: string)
    requires Judged(ctx, m, p, signals) && signals != []
    ensures Holds(signals, kind) <==>
              || kind == "dll_cross_process"
              || (kind == "dll_reflective" && ctx.reflective)
              || (kind == "dll_abnormal_host" && !ctx.hostNormallyInjected)
              || (kind == "dll_unsigned" && ctx.signed == Some(false)
                  && (!ctx.hostNormallyInjected || ctx.cpuAnomaly || ctx.networkAnomaly))
  {
    SignalsIffSuspect(ctx, m, p, signals);
  }

  /** They come in this order, each at most once, and are about the process loaded into. */
  lemma InOrder(ctx: Context, m: CleanLoads, p: Policy, signals: seq<Signal>, i: nat, j: nat)
    requires Judged(ctx, m, p, signals) && i < j < |signals|
    ensures signals[j].kind != "dll_reflective" && signals[i].kind != "dll_unsigned"
    ensures signals[i].kind == "dll_abnormal_host" ==> signals[j].kind == "dll_unsigned"
    ensures signals[j].kind == "dll_cross_process" ==> signals[i].kind == "dll_reflective"
    ensures ctx.target.Some? && signals[i].subject == signals[j].subject == Subjects.PidSubject(ctx.target.value)
  {
    assert Holds(signals, signals[i].kind) && Holds(signals, signals[j].kind);
  }

  /** A load raises its own counts only: each by one, exactly when it is vouched for by the allowlist or is a self-load that counts. */
  lemma LearnedIs(m: CleanLoads, ctx: Context, p: Policy, key: string)
    ensures var here, after := if key in m then m[key] else 0, Learned(m, ctx, p);
            var byPublisher := ctx.publisher != "" && ctx.publisher in p.publishers;
            var byHash := !byPublisher && ctx.hash != "" && ctx.hash in p.hashes;
            var knownHash := ctx.hash != "" && (if "hash:" + ctx.hash in m then m["hash:" + ctx.hash] else 0) >= p.cleanThreshold;
            var knownPublisher := ctx.publisher != "" && (if "pub:" + ctx.publisher in m then m["pub:" + ctx.publisher] else 0) >= p.cleanThreshold;
            var foreign := ctx.loader.Some? && ctx.target.Some? && ctx.loader.value != ctx.target.value;
            var counts := !byPublisher && !byHash && !knownHash && !knownPublisher && !foreign;
            (if key in after then after[key] else 0) ==
            here + if || (key == "hash:" + ctx.hash && ctx.hash != "" && (byHash || counts))
                      || (key == "pub:" + ctx.publisher && ctx.publisher != "" && (byPublisher || counts)) then 1 else 0
  {
    assert HashKey(ctx.hash)[0] != PublisherKey(ctx.publisher)[0];
  }

  // ---------- Runs of loads ----------

  function Run(loads: seq<Context>, p: Policy): CleanLoads {
    if loads == [] then map[] else Learned(Run(loads[..|loads| - 1], p), loads[|loads| - 1], p)
  }

  /** A load adds to the reputation or contributes signals, never both. */
  lemma LearnsOrJudges(ctx: Context, m: CleanLoads, p: Policy, signals: seq<Signal>)
    requires Judged(ctx, m, p, signals)
    ensures signals != [] ==> Learned(m, ctx, p) == m
    ensures signals != [] <==> Suspect(ctx, m, p)
  {
    SignalsIffSuspect(ctx, m, p, signals);
  }

  lemma SignalsIffSuspect(ctx: Context, m: CleanLoads, p: Policy, signals: seq<Signal>)
    requires Judged(ctx, m, p, signals)
    ensures signals != [] <==> Suspect(ctx, m, p)
  {
    assert Contributes(ctx, "dll_cross_process");
    assert Holds(signals, "dll_cross_process") <==> Suspect(ctx, m, p);
    if signals != [] {
      assert Holds(signals, signals[0].kind);
    }
  }

  lemma LearnedLasts(m: CleanLoads, ctx: Context, p: Policy, key: string)
    ensures Loads(Learned(m, ctx, p), key) >= Loads(m, key)
  {
  }

  /** Clean loads are only ever added to, so what is reputable stays reputable over any run. */
  lemma {:induction false} ReputationLasts(before: seq<Context>, after: seq<Context>, p: Policy, key: string)
    ensures Loads(Run(before + after, p), key) >= Loads(Run(before, p), key)
    decreases |after|
  {
    if after == [] {
      assert before + after == before;
    } else {
      var n := |after| - 1;
      ReputationLasts(before, after[..n], p, key);
      assert before + after == before + after[..n] + [after[n]];
      RunNext(before + after[..n], after[n], p);
      LearnedLasts(Run(before + after[..n], p), after[n], p, key);
    }
  }

  lemma RunNext(loads: seq<Context>, ctx: Context, p: Policy)
    ensures Run(loads + [ctx], p) == Learned(Run(loads, p), ctx, p)
  {
    assert (loads + [ctx])[..|loads|] == loads;
  }

  /** Self-loads of a hash. */
  function CleanCount(loads: seq<Context>, hash: string): nat {
    if loads == [] then 0
    else
      var last := loads[|loads| - 1];
      CleanCount(loads[..|loads| - 1], hash) + if last.hash == hash && !CrossProcess(last) then 1 else 0
  }

  /** A load of the hash whose publisher is trusted or reputable: the rules end before the hash is counted. */
  predicate Shielded(ctx: Context, hash: string, m: CleanLoads, p: Policy) {
    ctx.hash == hash && ctx.publisher != "" &&
    (ctx.publisher in p.publishers || Loads(m, PublisherKey(ctx.publisher)) >= p.cleanThreshold)
  }

  ghost predicate SomeShielded(loads: seq<Context>, hash: string, m: CleanLoads, p: Policy) {
    exists i :: 0 <= i < |loads| && Shielded(loads[i], hash, m, p)
  }

  /** The cache never runs behind the clean loads seen, until the hash or the publisher of one of its loads is reputable. */
  lemma {:induction false} CleanLoadsCount(loads: seq<Context>, hash: string, p: Policy)
    requires hash != ""
    ensures var n := Loads(Run(loads, p), HashKey(hash));
            n >= CleanCount(loads, hash) || n >= p.cleanThreshold || SomeShielded(loads, hash, Run(loads, p), p)
  {
    if loads != [] {
      var before, last := loads[..|loads| - 1], loads[|loads| - 1];
      CleanLoadsCount(before, hash, p);
      var m := Run(before, p);
      LearnedLasts(m, last, p, HashKey(hash));
      if SomeShielded(before, hash, m, p) {
        var i :| 0 <= i < |before| && Shielded(before[i], hash, m, p);
        LearnedLasts(m, last, p, PublisherKey(before[i].publisher));
        assert Shielded(loads[i], hash, Run(loads, p), p);
      } else if Shielded(last, hash, m, p) {
        LearnedLasts(m, last, p, PublisherKey(last.publisher));
        assert Shielded(loads[|before|], hash, Run(loads, p), p);
      } else if last.hash == hash && !CrossProcess(last) {
        LearnsSelfLoad(m, last, p, hash);
      }
    }
  }

  /** A self-load that nothing shields counts for its hash, unless the hash is reputable. */
  lemma LearnsSelfLoad(m: CleanLoads, ctx: Context, p: Policy, hash: string)
    requires hash != "" && !Shielded(ctx, hash, m, p) && ctx.hash == hash && !CrossProcess(ctx)
    ensures Loads(m, HashKey(hash)) >= p.cleanThreshold || Loads(Learned(m, ctx, p), HashKey(hash)) == Loads(m, HashKey(hash)) + 1
  {
    assert HashKey(hash)[0] != PublisherKey(ctx.publisher)[0];
  }

  /** After enough clean loads of a hash, none of them shielded, no later load of it contributes anything, whatever happened in between. */
  lemma CleanLoadsEarnSilence(before: seq<Context>, after: seq<Context>, ctx: Context, p: Policy, signals: seq<Signal>)
    requires ctx.hash != "" && CleanCount(before, ctx.hash) >= p.cleanThreshold
    requires !SomeShielded(before, ctx.hash, Run(before, p), p)
    requires Judged(ctx, Run(before + after, p), p, signals)
    ensures signals == []
  {
    CleanLoadsCount(before, ctx.hash, p);
    ReputationLasts(before, after, p, HashKey(ctx.hash));
    LearnsOrJudges(ctx, Run(before + after, p), p, signals);
  }

  // The same for publishers.

  /** Self-loads from a publisher. */
  function PublisherCount(loads: seq<Context>, publisher: string): nat {
    if loads == [] then 0
    else
      var last := loads[|loads| - 1];
      PublisherCount(loads[..|loads| - 1], publisher) + if last.publisher == publisher && !CrossProcess(last) then 1 else 0
  }

  /** A load from the publisher of a hash that is trusted or reputable. */
  predicate HashShields(ctx: Context, publisher: string, m: CleanLoads, p: Policy) {
    ctx.publisher == publisher && ctx.hash != "" && (ctx.hash in p.hashes || Loads(m, HashKey(ctx.hash)) >= p.cleanThreshold)
  }

  ghost predicate SomeHashShields(loads: seq<Context>, publisher: string, m: CleanLoads, p: Policy) {
    exists i :: 0 <= i < |loads| && HashShields(loads[i], publisher, m, p)
  }

  lemma LearnsFromPublisher(m: CleanLoads, ctx: Context, p: Policy, publisher: string)
    requires publisher != "" && !HashShields(ctx, publisher, m, p) && ctx.publisher == publisher && !CrossProcess(ctx)
    ensures || Loads(m, PublisherKey(publisher)) >= p.cleanThreshold
            || Loads(Learned(m, ctx, p), PublisherKey(publisher)) == Loads(m, PublisherKey(publisher)) + 1
  {
    LearnedIs(m, ctx, p, PublisherKey(publisher));
  }

  /** The cache never runs behind the clean loads from a publisher either, until the publisher or the hash of one of them is reputable. */
  lemma {:induction false} PublisherLoadsCount(loads: seq<Context>, publisher: string, p: Policy)
    requires publisher != ""
    ensures var n := Loads(Run(loads, p), PublisherKey(publisher));
            n >= PublisherCount(loads, publisher) || n >= p.cleanThreshold || SomeHashShields(loads, publisher, Run(loads, p), p)
  {
    if loads != [] {
      var before, last := loads[..|loads| - 1], loads[|loads| - 1];
      PublisherLoadsCount(before, publisher, p);
      var m := Run(before, p);
      LearnedLasts(m, last, p, PublisherKey(publisher));
      if SomeHashShields(before, publisher, m, p) {
        var i :| 0 <= i < |before| && HashShields(before[i], publisher, m, p);
        LearnedLasts(m, last, p, HashKey(before[i].hash));
        assert HashShields(loads[i], publisher, Run(loads, p), p);
      } else if HashShields(last, publisher, m, p) {
        LearnedLasts(m, last, p, HashKey(last.hash));
        assert HashShields(loads[|before|], publisher, Run(loads, p), p);
      } else if last.publisher == publisher && !CrossProcess(last) {
        LearnsFromPublisher(m, last, p, publisher);
      }
    }
  }

  /** After enough clean loads from a publisher, none of them shielded, no later load from it contributes anything. */
  lemma PublisherEarnsSilence(before: seq<Context>, after: seq<Context>, ctx: Context, p: Policy, signals: seq<Signal>)
    requires ctx.publisher != "" && PublisherCount(before, ctx.publisher) >= p.cleanThreshold
    requires !SomeHashShields(before, ctx.publisher, Run(before, p), p)
    requires Judged(ctx, Run(before + after, p), p, signals)
    ensures signals == []
  {
    PublisherLoadsCount(before, ctx.publisher, p);
    ReputationLasts(before, after, p, PublisherKey(ctx.publisher));
    LearnsOrJudges(ctx, Run(before + after, p), p, signals);
  }

  /** All signals of a run, load by load. */
  ghost predicate RunJudged(loads: seq<Context>, p: Policy, signals: seq<seq<Signal>>)
  {
    |signals| == |loads| && forall k :: 0 <= k < |loads| ==> Judged(loads[k], Run(loads[..k], p), p, signals[k])
  }

  function Flatten(signals: seq<seq<Signal>>): seq<Signal> {
    if signals == [] then [] else Flatten(signals[..|signals| - 1]) + signals[|signals| - 1]
  }

  lemma {:induction false} FlattenFrom(signals: seq<seq<Signal>>, x: Signal)
    requires x in Flatten(signals)
    ensures exists k :: 0 <= k < |signals| && x in signals[k]
  {
    if signals != [] && x !in signals[|signals| - 1] {
      FlattenFrom(signals[..|signals| - 1], x);
      var k :| 0 <= k < |signals| - 1 && x in signals[..|signals| - 1][k];
      assert x in signals[k];
    }
  }

  /** However many images are loaded, without a reflective mapping they never lead to a response by themselves. */
  lemma LoadsAloneNeverRespond(loads: seq<Context>, p: Policy, signals: seq<seq<Signal>>, subject: string, threshold: real)
    requires RunJudged(loads, p, signals)
    requires forall k :: 0 <= k < |loads| ==> !loads[k].reflective
    ensures !Responds(AddAll(map[], Flatten(signals)), subject, threshold)
  {
    var all := Flatten(signals);
    forall i | 0 <= i < |all|
      ensures "dll_" <= all[i].kind && all[i].kind != "dll_reflective"
    {
      FlattenFrom(signals, all[i]);
      var k :| 0 <= k < |signals| && all[i] in signals[k];
      WeakKind(loads[k], Run(loads[..k], p), p, signals[k], all[i]);
    }
    WeakDllNeverResponds(all, subject, threshold);
  }

  lemma WeakKind(ctx: Context, m: CleanLoads, p: Policy, signals: seq<Signal>, s: Signal)
    requires Judged(ctx, m, p, signals) && s in signals && !ctx.reflective
    ensures "dll_" <= s.kind && s.kind != "dll_reflective"
  {
    assert Holds(signals, s.kind);
    assert "dll_" <= "dll_cross_process" && "dll_" <= "dll_abnormal_host" && "dll_" <= "dll_unsigned";
  }
}
