/**
 * Scores per subject: cached totals over timestamped signals, capacity eviction, prefix
 * reset of process ids, decay and stale eviction.
 */
module Scoring {

  datatype Signal = Signal(kind: string, subject: string, weight: real, timestamp: real)

  datatype Score = Score(total: real, signals: seq<Signal>, dllComponents: set<string>, lastUpdated: real)

  type Table = map<string, Score>

  predicate StartsWith(s: string, prefix: string) {
    prefix <= s
  }

  predicate DllKind(kind: string) {
    StartsWith(kind, "dll_")
  }

  function Total(signals: seq<Signal>): real {
    if signals == [] then 0.0 else Total(signals[..|signals| - 1]) + signals[|signals| - 1].weight
  }

  function DllKinds(signals: seq<Signal>): set<string> {
    if signals == [] then {}
    else
      var last := signals[|signals| - 1];
      DllKinds(signals[..|signals| - 1]) + if DllKind(last.kind) then {last.kind} else {}
  }

  lemma {:induction false} DllKindsAre(signals: seq<Signal>, kind: string)
    ensures kind in DllKinds(signals) <==> "dll_" <= kind && exists i :: 0 <= i < |signals| && signals[i].kind == kind
  {
    if signals != [] {
      var n := |signals| - 1;
      DllKindsAre(signals[..n], kind);
      if i :| 0 <= i < |signals[..n]| && signals[..n][i].kind == kind {
        assert signals[i].kind == kind;
      }
      if i :| 0 <= i < |signals| && signals[i].kind == kind && i < n {
        assert signals[..n][i].kind == kind;
      }
    }
  }

  /** The cached fields agree with the signals they summarize. */
  predicate Consistent(s: Score) {
    s.total == Total(s.signals) && s.dllComponents == DllKinds(s.signals)
  }

  predicate Filed(t: Table) {
    forall k {:trigger Fits(k, t[k])} :: k in t ==> Fits(k, t[k])
  }

  predicate Fits(k: string, s: Score) {
    Consistent(s) && s.signals != [] && AllAbout(k, s.signals)
  }

  predicate AllAbout(k: string, signals: seq<Signal>) {
    forall i :: 0 <= i < |signals| ==> signals[i].subject == k
  }

  function EmptyScore(): Score {
    Score(0.0, [], {}, 0.0)
  }

  function AddTo(s: Score, sig: Signal): Score {
    Score(s.total + sig.weight, s.signals + [sig],
          if DllKind(sig.kind) then s.dllComponents + {sig.kind} else s.dllComponents, sig.timestamp)
  }

  function Added(t: Table, sig: Signal): Table {
    t[sig.subject := AddTo(if sig.subject in t then t[sig.subject] else EmptyScore(), sig)]
  }

  lemma AddKeepsFiled(t: Table, sig: Signal)
    requires Filed(t)
    ensures Filed(Added(t, sig))
  {
    if sig.subject in t {
      assert Fits(sig.subject, t[sig.subject]);
      AddFits(t[sig.subject], sig);
    } else {
      AddFits(EmptyScore(), sig);
    }
  }

  lemma AddFits(s: Score, sig: Signal)
    requires Consistent(s) && AllAbout(sig.subject, s.signals)
    ensures Fits(sig.subject, AddTo(s, sig))
  {
    assert (s.signals + [sig])[..|s.signals|] == s.signals;
  }

  /** What adding does: one more signal for its subject, at the end, which sets the update time; nothing else changes. */
  lemma AddedIs(t: Table, sig: Signal)
    requires Filed(t)
    ensures var u := Added(t, sig);
            && u.Keys == t.Keys + {sig.subject}
            && u[sig.subject].signals == SignalsOf(t, sig.subject) + [sig]
            && u[sig.subject].lastUpdated == sig.timestamp
            && u[sig.subject].total == Total(SignalsOf(t, sig.subject)) + sig.weight
            && forall k :: k in t && k != sig.subject ==> u[k] == t[k]
  {
    if sig.subject in t {
      assert Fits(sig.subject, t[sig.subject]);
    }
  }

  /** The signals held for a key, none when it is absent. */
  function SignalsOf(t: Table, k: string): seq<Signal> {
    if k in t then t[k].signals else []
  }

  // ---------- Reset ----------

  /** The keys a reset of `subject` purges: itself and, for a process, its instances by start time. */
  predicate Purges(subject: string, key: string) {
    key == subject || (StartsWith(subject, "pid:") && StartsWith(key, subject + ":"))
  }

  function Without(t: Table, subject: string): Table {
    map k | k in t && !Purges(subject, k) :: t[k]
  }

  // ---------- Decay ----------

  function Active(signals: seq<Signal>, cutoff: real): (r: seq<Signal>)
    ensures |r| <= |signals|
  {
    if signals == [] then []
    else
      var last := signals[|signals| - 1];
      Active(signals[..|signals| - 1], cutoff) + if last.timestamp >= cutoff then [last] else []
  }

  function DecayedScore(s: Score, cutoff: real, now: real): Score {
    var active := Active(s.signals, cutoff);
    if |active| != |s.signals| then Score(Total(active), active, DllKinds(active), now) else s
  }

  predicate Dead(s: Score) {
    s.signals == [] || s.total <= 0.0
  }

  function Decayed(t: Table, cutoff: real, now: real): Table {
    map k | k in t && !Dead(DecayedScore(t[k], cutoff, now)) :: DecayedScore(t[k], cutoff, now)
  }

  lemma DecayKeepsFiled(t: Table, cutoff: real, now: real)
    requires Filed(t)
    ensures Filed(Decayed(t, cutoff, now))
  {
    forall k | k in Decayed(t, cutoff, now)
      ensures Fits(k, Decayed(t, cutoff, now)[k])
    {
      assert Fits(k, t[k]);
      ActiveAbout(k, t[k].signals, cutoff);
    }
  }

  lemma {:induction false} ActiveAbout(k: string, signals: seq<Signal>, cutoff: real)
    requires AllAbout(k, signals)
    ensures AllAbout(k, Active(signals, cutoff))
  {
    if signals != [] {
      ActiveAbout(k, signals[..|signals| - 1], cutoff);
    }
  }

  /** Exactly the signals not older than the cutoff stay. */
  lemma {:induction false} ActiveIsFilter(signals: seq<Signal>, cutoff: real, x: Signal)
    ensures multiset(Active(signals, cutoff))[x] == if x.timestamp >= cutoff then multiset(signals)[x] else 0
  {
    if signals != [] {
      var n := |signals| - 1;
      ActiveIsFilter(signals[..n], cutoff, x);
      assert signals == signals[..n] + [signals[n]];
    }
  }

  lemma {:induction false} ActiveWhole(signals: seq<Signal>, cutoff: real)
    ensures |Active(signals, cutoff)| == |signals| ==> Active(signals, cutoff) == signals
  {
    if signals != [] {
      ActiveWhole(signals[..|signals| - 1], cutoff);
    }
  }

  predicate Fresh(signals: seq<Signal>, cutoff: real) {
    forall i :: 0 <= i < |signals| ==> signals[i].timestamp >= cutoff
  }

  predicate AllFresh(t: Table, cutoff: real) {
    forall k {:trigger t[k]} :: k in t ==> Fresh(t[k].signals, cutoff)
  }

  lemma {:induction false} ActiveFresh(signals: seq<Signal>, cutoff: real)
    ensures Fresh(Active(signals, cutoff), cutoff)
  {
    if signals != [] {
      ActiveFresh(signals[..|signals| - 1], cutoff);
    }
  }

  /** A decay leaves nothing older than its cutoff, for any subject. */
  lemma DecayedFresh(t: Table, cutoff: real, now: real)
    ensures AllFresh(Decayed(t, cutoff, now), cutoff)
  {
    forall k | k in Decayed(t, cutoff, now)
      ensures Fresh(Decayed(t, cutoff, now)[k].signals, cutoff)
    {
      ActiveFresh(t[k].signals, cutoff);
      ActiveWhole(t[k].signals, cutoff);
    }
  }

  lemma {:induction false} ActiveTwice(signals: seq<Signal>, early: real, late: real)
    requires early <= late
    ensures Active(Active(signals, early), late) == Active(signals, late)
  {
    if signals != [] {
      var before, last := signals[..|signals| - 1], signals[|signals| - 1];
      ActiveTwice(before, early, late);
      if last.timestamp >= early {
        ActiveAppend(Active(before, early), last, late);
      } else {
        assert Active(before, early) + [] == Active(before, early);
      }
    }
  }

  lemma ActiveAppend(signals: seq<Signal>, s: Signal, cutoff: real)
    ensures Active(signals + [s], cutoff) == Active(signals, cutoff) + if s.timestamp >= cutoff then [s] else []
  {
    assert (signals + [s])[..|signals|] == signals;
  }

  // ---------- Eviction ----------

  /** The subjects updated since the cutoff. */
  function Recent(t: Table, cutoff: real): Table {
    map k | k in t && t[k].lastUpdated >= cutoff :: t[k]
  }

  predicate OldestIn(t: Table, key: string) {
    key in t && forall k :: k in t ==> t[key].lastUpdated <= t[k].lastUpdated
  }

  // ---------- Runs ----------

  /** `Evict` makes room by giving up a least recently updated subject, `Stale` drops those not updated since the cutoff. */
  datatype Op =
    | Add(signal: Signal)
    | Decay(cutoff: real, now: real)
    | Reset(subject: string)
    | Clear
    | Evict(victim: string)
    | Stale(cutoff: real)

  function Apply(t: Table, op: Op): Table {
    match op
    case Add(s) => Added(t, s)
    case Decay(c, n) => Decayed(t, c, n)
    case Reset(s) => Without(t, s)
    case Clear => map[]
    case Evict(k) => if OldestIn(t, k) then t - {k} else t
    case Stale(c) => Recent(t, c)
  }

  function Run(ops: seq<Op>): Table {
    if ops == [] then map[] else Apply(Run(ops[..|ops| - 1]), ops[|ops| - 1])
  }

  function WithoutDecays(ops: seq<Op>): seq<Op> {
    if ops == [] then []
    else
      WithoutDecays(ops[..|ops| - 1]) + if ops[|ops| - 1].Decay? then [] else [ops[|ops| - 1]]
  }

  /** Dropping subjects keeps the others as they are. */
  lemma DroppedKeepsFiled(t: Table, u: Table)
    requires Filed(t) && u.Keys <= t.Keys && forall k :: k in u ==> u[k] == t[k]
    ensures Filed(u)
  {
    forall k | k in u ensures Fits(k, u[k]) {
      assert Fits(k, t[k]);
    }
  }

  /** Totals and components agree with the signals after any sequence of operations, evictions included. */
  lemma {:induction false} RunFiled(ops: seq<Op>)
    ensures Filed(Run(ops))
  {
    if ops != [] {
      var before := Run(ops[..|ops| - 1]);
      RunFiled(ops[..|ops| - 1]);
      match ops[|ops| - 1] {
        case Add(s) => AddKeepsFiled(before, s);
        case Decay(c, n) => DecayKeepsFiled(before, c, n);
        case _ => DroppedKeepsFiled(before, Apply(before, ops[|ops| - 1]));
      }
    }
  }

  // Weights of one sign.

  predicate NotBelowZero(signals: seq<Signal>) {
    forall i :: 0 <= i < |signals| ==> signals[i].weight >= 0.0
  }

  predicate Positive(signals: seq<Signal>) {
    forall i :: 0 <= i < |signals| ==> signals[i].weight > 0.0
  }

  predicate NotAboveZero(signals: seq<Signal>) {
    forall i :: 0 <= i < |signals| ==> signals[i].weight <= 0.0
  }

  /** The signals that can make a difference to a total from the cutoff on. */
  function Live(signals: seq<Signal>, cutoff: real): seq<Signal> {
    if signals == [] then []
    else
      var last := signals[|signals| - 1];
      Live(signals[..|signals| - 1], cutoff) + if last.timestamp >= cutoff && last.weight > 0.0 then [last] else []
  }

  lemma LiveAppend(signals: seq<Signal>, s: Signal, cutoff: real)
    ensures Live(signals + [s], cutoff) == Live(signals, cutoff) + if s.timestamp >= cutoff && s.weight > 0.0 then [s] else []
  {
    assert (signals + [s])[..|signals|] == signals;
  }

  /** An earlier cutoff takes away nothing that is live at a later one. */
  lemma {:induction false} LiveActive(signals: seq<Signal>, early: real, late: real)
    requires early <= late
    ensures Live(Active(signals, early), late) == Live(signals, late)
  {
    if signals != [] {
      var before, last := signals[..|signals| - 1], signals[|signals| - 1];
      LiveActive(before, early, late);
      if last.timestamp >= early {
        LiveAppend(Active(before, early), last, late);
      } else {
        assert Active(before, early) + [] == Active(before, early);
      }
    }
  }

  /** Of positive signals all that are recent are live. */
  lemma {:induction false} LiveOfPositive(signals: seq<Signal>, cutoff: real)
    requires Positive(signals)
    ensures Live(signals, cutoff) == Active(signals, cutoff)
  {
    if signals != [] {
      LiveOfPositive(signals[..|signals| - 1], cutoff);
    }
  }

  /** Live signals alone make the total, which is positive exactly when there are any. */
  lemma {:induction false} TotalOfLive(signals: seq<Signal>, cutoff: real)
    requires NotBelowZero(signals)
    ensures Total(Active(signals, cutoff)) == Total(Live(signals, cutoff)) >= 0.0
    ensures Live(signals, cutoff) == [] <==> Total(Live(signals, cutoff)) <= 0.0
  {
    if signals != [] {
      var before, last := signals[..|signals| - 1], signals[|signals| - 1];
      TotalOfLive(before, cutoff);
      TotalAppend(Active(before, cutoff), last);
      TotalAppend(Live(before, cutoff), last);
      assert Active(before, cutoff) + [] == Active(before, cutoff);
      assert Live(before, cutoff) + [] == Live(before, cutoff);
    }
  }

  lemma TotalAppend(signals: seq<Signal>, s: Signal)
    ensures Total(signals + [s]) == Total(signals) + s.weight
  {
    assert (signals + [s])[..|signals|] == signals;
  }

  lemma {:induction false} ActiveKeepsSign(signals: seq<Signal>, cutoff: real)
    ensures NotBelowZero(signals) ==> NotBelowZero(Active(signals, cutoff))
    ensures Positive(signals) ==> Positive(Active(signals, cutoff))
    ensures NotAboveZero(signals) ==> NotAboveZero(Active(signals, cutoff))
  {
    if signals != [] {
      ActiveKeepsSign(signals[..|signals| - 1], cutoff);
    }
  }

  lemma {:induction false} TotalNotAboveZero(signals: seq<Signal>)
    requires NotAboveZero(signals)
    ensures Total(signals) <= 0.0
  {
    if signals != [] {
      TotalNotAboveZero(signals[..|signals| - 1]);
    }
  }

  // Runs over such weights.

  ghost predicate TableNotBelowZero(t: Table) {
    forall k {:trigger SignalsOf(t, k)} :: NotBelowZero(SignalsOf(t, k))
  }

  /** The two tables hold the same live signals from the cutoff on. */
  ghost predicate SameAfter(a: Table, b: Table, cutoff: real) {
    forall k {:trigger SignalsOf(a, k)} {:trigger SignalsOf(b, k)} ::
      Live(SignalsOf(a, k), cutoff) == Live(SignalsOf(b, k), cutoff)
  }

  /** What a decay leaves of one key that stays. */
  lemma DecayedSignals(t: Table, cutoff: real, now: real, k: string)
    requires Filed(t) && k in Decayed(t, cutoff, now)
    ensures k in t && Decayed(t, cutoff, now)[k].signals == Active(SignalsOf(t, k), cutoff)
    ensures Decayed(t, cutoff, now)[k].total == Total(Active(SignalsOf(t, k), cutoff))
  {
    assert Fits(k, t[k]);
    ActiveWhole(t[k].signals, cutoff);
  }

  /** What a decay leaves: a subject stays exactly when its recent signals add up to more than nothing, with those. */
  lemma DecayedIs(t: Table, cutoff: real, now: real, k: string)
    requires Filed(t)
    ensures k in Decayed(t, cutoff, now) <==> k in t && Total(Active(t[k].signals, cutoff)) > 0.0
    ensures k in Decayed(t, cutoff, now) ==>
              var s := Decayed(t, cutoff, now)[k];
              s.signals == Active(t[k].signals, cutoff) && s.total == Total(Active(t[k].signals, cutoff))
  {
    if k in t {
      assert Fits(k, t[k]);
      ActiveWhole(t[k].signals, cutoff);
    }
  }

  /** Of signals of positive or no weight, those whose recent ones make a difference. */
  lemma DecayedKeys(t: Table, cutoff: real, now: real, k: string)
    requires Filed(t) && TableNotBelowZero(t)
    ensures k in Decayed(t, cutoff, now) <==> Live(SignalsOf(t, k), cutoff) != []
  {
    TotalOfLive(SignalsOf(t, k), cutoff);
    if k in t {
      assert Fits(k, t[k]);
      ActiveWhole(t[k].signals, cutoff);
    }
  }

  /** A decay takes away nothing that is live later. */
  lemma DecayedLive(t: Table, early: real, now: real, k: string, cutoff: real)
    requires Filed(t) && TableNotBelowZero(t) && early <= cutoff
    ensures Live(SignalsOf(Decayed(t, early, now), k), cutoff) == Live(SignalsOf(t, k), cutoff)
  {
    DecayedKeys(t, early, now, k);
    LiveActive(SignalsOf(t, k), early, cutoff);
    if k in Decayed(t, early, now) {
      DecayedSignals(t, early, now, k);
    } else {
      NotLiveLater(SignalsOf(t, k), early, cutoff);
    }
  }

  lemma {:induction false} NotLiveLater(signals: seq<Signal>, early: real, late: real)
    requires early <= late && Live(signals, early) == []
    ensures Live(signals, late) == []
  {
    if signals != [] {
      NotLiveLater(signals[..|signals| - 1], early, late);
    }
  }

  lemma AddKeepsSame(a: Table, b: Table, sig: Signal, cutoff: real)
    requires SameAfter(a, b, cutoff)
    ensures SameAfter(Added(a, sig), Added(b, sig), cutoff)
  {
    forall k
      ensures Live(SignalsOf(Added(a, sig), k), cutoff) == Live(SignalsOf(Added(b, sig), k), cutoff)
    {
      AddedLive(a, sig, k, cutoff);
      AddedLive(b, sig, k, cutoff);
      assert Live(SignalsOf(a, k), cutoff) == Live(SignalsOf(b, k), cutoff);
    }
  }

  lemma AddedLive(t: Table, sig: Signal, k: string, cutoff: real)
    ensures Live(SignalsOf(Added(t, sig), k), cutoff) ==
            Live(SignalsOf(t, k), cutoff) +
            if k == sig.subject && sig.timestamp >= cutoff && sig.weight > 0.0 then [sig] else []
  {
    if k == sig.subject {
      assert SignalsOf(Added(t, sig), k) == SignalsOf(t, k) + [sig];
      LiveAppend(SignalsOf(t, k), sig, cutoff);
    } else {
      assert SignalsOf(Added(t, sig), k) == SignalsOf(t, k);
    }
  }

  lemma ResetKeepsSame(a: Table, b: Table, subject: string, cutoff: real)
    requires SameAfter(a, b, cutoff)
    ensures SameAfter(Without(a, subject), Without(b, subject), cutoff)
  {
    var a', b' := Without(a, subject), Without(b, subject);
    forall k
      ensures Live(SignalsOf(a', k), cutoff) == Live(SignalsOf(b', k), cutoff)
    {
      assert Live(SignalsOf(a, k), cutoff) == Live(SignalsOf(b, k), cutoff);
      assert SignalsOf(a', k) == if Purges(subject, k) then [] else SignalsOf(a, k);
      assert SignalsOf(b', k) == if Purges(subject, k) then [] else SignalsOf(b, k);
    }
  }

  lemma DecayKeepsSame(a: Table, b: Table, early: real, now: real, cutoff: real)
    requires SameAfter(a, b, cutoff) && early <= cutoff && Filed(a) && TableNotBelowZero(a)
    ensures SameAfter(Decayed(a, early, now), b, cutoff)
  {
    forall k
      ensures Live(SignalsOf(Decayed(a, early, now), k), cutoff) == Live(SignalsOf(b, k), cutoff)
    {
      assert Live(SignalsOf(a, k), cutoff) == Live(SignalsOf(b, k), cutoff);
      DecayedLive(a, early, now, k, cutoff);
    }
  }

  ghost predicate WeightsIn(ops: seq<Op>, allowed: real -> bool) {
    forall i :: 0 <= i < |ops| && ops[i].Add? ==> allowed(ops[i].signal.weight)
  }

  /** No subject is evicted, for room or for age: who is depends on update times, which decays change. */
  predicate NoEvictions(ops: seq<Op>) {
    forall i :: 0 <= i < |ops| ==> !ops[i].Evict? && !ops[i].Stale?
  }

  ghost predicate CutoffsBelow(ops: seq<Op>, cutoff: real) {
    forall i :: 0 <= i < |ops| && ops[i].Decay? ==> ops[i].cutoff <= cutoff
  }

  /** Signals of a run have allowed weights. */
  ghost predicate TableIn(t: Table, allowed: real -> bool) {
    forall k {:trigger SignalsOf(t, k)} :: AllIn(SignalsOf(t, k), allowed)
  }

  predicate AllIn(signals: seq<Signal>, allowed: real -> bool) {
    forall i :: 0 <= i < |signals| ==> allowed(signals[i].weight)
  }

  lemma {:induction false} ActiveIn(signals: seq<Signal>, cutoff: real, allowed: real -> bool)
    requires AllIn(signals, allowed)
    ensures AllIn(Active(signals, cutoff), allowed)
  {
    if signals != [] {
      ActiveIn(signals[..|signals| - 1], cutoff, allowed);
    }
  }

  lemma ApplyIn(t: Table, op: Op, allowed: real -> bool)
    requires TableIn(t, allowed) && (op.Add? ==> allowed(op.signal.weight))
    ensures TableIn(Apply(t, op), allowed)
  {
    forall k ensures AllIn(SignalsOf(Apply(t, op), k), allowed) {
      var held := SignalsOf(t, k);
      assert AllIn(held, allowed);
      match op {
        case Add(s) => assert SignalsOf(Added(t, s), k) == if k == s.subject then held + [s] else held;
        case Decay(c, n) => ActiveIn(held, c, allowed);
        case Reset(s) => assert SignalsOf(Without(t, s), k) == if Purges(s, k) then [] else held;
        case _ => assert SignalsOf(Apply(t, op), k) == held || SignalsOf(Apply(t, op), k) == [];
      }
    }
  }

  lemma {:induction false} RunIn(ops: seq<Op>, allowed: real -> bool)
    requires WeightsIn(ops, allowed)
    ensures TableIn(Run(ops), allowed)
  {
    if ops != [] {
      var before := ops[..|ops| - 1];
      assert WeightsIn(before, allowed);
      RunIn(before, allowed);
      ApplyIn(Run(before), ops[|ops| - 1], allowed);
    }
  }

  lemma {:induction false} WithoutDecaysIn(ops: seq<Op>, allowed: real -> bool)
    requires WeightsIn(ops, allowed)
    ensures WeightsIn(WithoutDecays(ops), allowed)
  {
    if ops != [] {
      assert WeightsIn(ops[..|ops| - 1], allowed);
      WithoutDecaysIn(ops[..|ops| - 1], allowed);
    }
  }

  lemma RunNotBelowZero(ops: seq<Op>)
    requires WeightsIn(ops, w => w >= 0.0)
    ensures TableNotBelowZero(Run(ops))
  {
    RunIn(ops, w => w >= 0.0);
    forall k ensures NotBelowZero(SignalsOf(Run(ops), k)) {
      assert AllIn(SignalsOf(Run(ops), k), w => w >= 0.0);
    }
  }

  lemma {:induction false} RunsAgree(ops: seq<Op>, cutoff: real)
    requires WeightsIn(ops, w => w >= 0.0) && CutoffsBelow(ops, cutoff) && NoEvictions(ops)
    ensures SameAfter(Run(ops), Run(WithoutDecays(ops)), cutoff)
  {
    if ops != [] {
      var before, op := ops[..|ops| - 1], ops[|ops| - 1];
      assert WeightsIn(before, w => w >= 0.0) && CutoffsBelow(before, cutoff) && NoEvictions(before);
      RunsAgree(before, cutoff);
      RunFiled(before);
      RunNotBelowZero(before);
      if op.Decay? {
        DecayKeepsSame(Run(before), Run(WithoutDecays(before)), op.cutoff, op.now, cutoff);
        assert WithoutDecays(ops) == WithoutDecays(before);
      } else {
        if op.Add? {
          AddKeepsSame(Run(before), Run(WithoutDecays(before)), op.signal, cutoff);
        } else if op.Reset? {
          ResetKeepsSame(Run(before), Run(WithoutDecays(before)), op.subject, cutoff);
        }
        var w := WithoutDecays(ops);
        assert w[..|w| - 1] == WithoutDecays(before);
      }
    }
  }

  /** Equal but for the update time. */
  predicate SameScore(a: Score, b: Score) {
    a.signals == b.signals && a.total == b.total && a.dllComponents == b.dllComponents
  }

  predicate SameTable(a: Table, b: Table) {
    a.Keys == b.Keys && forall k :: k in a ==> SameScore(a[k], b[k])
  }

  /**
   * With weights not below zero and no capacity eviction, a decay leaves the same subjects, with
   * the same totals and the same signals of positive weight, whether or not earlier decays ran.
   */
  lemma TotalsSurviveDecays(ops: seq<Op>, cutoff: real, now: real)
    requires WeightsIn(ops, w => w >= 0.0) && CutoffsBelow(ops, cutoff) && NoEvictions(ops)
    ensures var a, b := Decayed(Run(ops), cutoff, now), Decayed(Run(WithoutDecays(ops)), cutoff, now);
            a.Keys == b.Keys &&
            forall k :: k in a ==> a[k].total == b[k].total && Live(a[k].signals, cutoff) == Live(b[k].signals, cutoff)
  {
    var x, y := Run(ops), Run(WithoutDecays(ops));
    var a, b := Decayed(x, cutoff, now), Decayed(y, cutoff, now);
    RunsAgree(ops, cutoff);
    WithoutDecaysIn(ops, w => w >= 0.0);
    RunFiled(ops);
    RunFiled(WithoutDecays(ops));
    RunNotBelowZero(ops);
    RunNotBelowZero(WithoutDecays(ops));
    forall k
      ensures k in a <==> k in b
      ensures k in a ==> a[k].total == b[k].total && Live(a[k].signals, cutoff) == Live(b[k].signals, cutoff)
    {
      DecayAgreesAt(x, y, cutoff, now, k);
    }
  }

  lemma DecayAgreesAt(x: Table, y: Table, cutoff: real, now: real, k: string)
    requires Filed(x) && TableNotBelowZero(x) && Filed(y) && TableNotBelowZero(y)
    requires SameAfter(x, y, cutoff)
    ensures var a, b := Decayed(x, cutoff, now), Decayed(y, cutoff, now);
            && (k in a <==> k in b)
            && (k in a ==> a[k].total == b[k].total && Live(a[k].signals, cutoff) == Live(b[k].signals, cutoff))
  {
    assert Live(SignalsOf(x, k), cutoff) == Live(SignalsOf(y, k), cutoff);
    DecayedKeys(x, cutoff, now, k);
    DecayedKeys(y, cutoff, now, k);
    if k in Decayed(x, cutoff, now) {
      DecayedSignals(x, cutoff, now, k);
      DecayedSignals(y, cutoff, now, k);
      TotalOfLive(SignalsOf(x, k), cutoff);
      TotalOfLive(SignalsOf(y, k), cutoff);
      LiveActive(SignalsOf(x, k), cutoff, cutoff);
      LiveActive(SignalsOf(y, k), cutoff, cutoff);
    }
  }

  /** With positive weights nothing at all depends on earlier decays. */
  lemma EarlierDecaysDoNotMatter(ops: seq<Op>, cutoff: real, now: real)
    requires WeightsIn(ops, w => w > 0.0) && CutoffsBelow(ops, cutoff) && NoEvictions(ops)
    ensures SameTable(Decayed(Run(ops), cutoff, now), Decayed(Run(WithoutDecays(ops)), cutoff, now))
  {
    var x, y := Run(ops), Run(WithoutDecays(ops));
    var a, b := Decayed(x, cutoff, now), Decayed(y, cutoff, now);
    assert WeightsIn(ops, w => w >= 0.0);
    TotalsSurviveDecays(ops, cutoff, now);
    WithoutDecaysIn(ops, w => w > 0.0);
    RunFiled(ops);
    RunFiled(WithoutDecays(ops));
    forall k | k in a ensures SameScore(a[k], b[k]) {
      PositiveDecay(ops, cutoff, now, k);
      PositiveDecay(WithoutDecays(ops), cutoff, now, k);
      DecayKeepsFiled(x, cutoff, now);
      DecayKeepsFiled(y, cutoff, now);
      assert Fits(k, a[k]) && Fits(k, b[k]);
    }
  }

  lemma PositiveDecay(ops: seq<Op>, cutoff: real, now: real, k: string)
    requires WeightsIn(ops, w => w > 0.0) && Filed(Run(ops)) && k in Decayed(Run(ops), cutoff, now)
    ensures var s := Decayed(Run(ops), cutoff, now)[k].signals; Live(s, cutoff) == s
  {
    var held := SignalsOf(Run(ops), k);
    RunIn(ops, w => w > 0.0);
    assert AllIn(held, w => w > 0.0);
    DecayedSignals(Run(ops), cutoff, now, k);
    LiveOfPositive(held, cutoff);
    LiveActive(held, cutoff, cutoff);
  }

  /** With weights not above zero a decay leaves nothing, so nothing depends on earlier ones. */
  lemma NothingSurvives(ops: seq<Op>, cutoff: real, now: real)
    requires WeightsIn(ops, w => w <= 0.0)
    ensures Decayed(Run(ops), cutoff, now) == map[]
  {
    RunIn(ops, w => w <= 0.0);
    RunFiled(ops);
    forall k | k in Run(ops) ensures Dead(DecayedScore(Run(ops)[k], cutoff, now)) {
      var held := SignalsOf(Run(ops), k);
      assert AllIn(held, w => w <= 0.0) && Fits(k, Run(ops)[k]);
      ActiveKeepsSign(held, cutoff);
      TotalNotAboveZero(held);
      TotalNotAboveZero(Active(held, cutoff));
    }
  }

  /** A signal of weight `w` at most zero, an early decay with nothing old, then one of weight `v`. */
  function MixedRun(w: real, v: real): seq<Op> {
    [Add(Signal("a", "s", w, 0.0)), Decay(0.0, 0.0), Add(Signal("b", "s", v, 0.0))]
  }

  /** For every such pair the early decay changes what a later one leaves: it lost the first signal. */
  lemma MixedWeightsMakeDecaysMatter(w: real, v: real)
    requires w <= 0.0 < v
    ensures !SameTable(Decayed(Run(MixedRun(w, v)), 0.0, 0.0), Decayed(Run(WithoutDecays(MixedRun(w, v))), 0.0, 0.0))
  {
    var x, y := Signal("a", "s", w, 0.0), Signal("b", "s", v, 0.0);
    MixedRuns(w, v);
    ActiveAppend([], x, 0.0);
    ActiveAppend([], y, 0.0);
    ActiveAppend([] + [x], y, 0.0);
    TotalAppend([], x);
    TotalAppend([], y);
    TotalAppend([] + [x], y);
    var a := Decayed(Run(MixedRun(w, v)), 0.0, 0.0);
    var b := Decayed(Run(WithoutDecays(MixedRun(w, v))), 0.0, 0.0);
    assert "s" in a && |a["s"].signals| == 1;
    assert "s" in b ==> |b["s"].signals| == 2;
  }

  lemma RunAppend(ops: seq<Op>, op: Op)
    ensures Run(ops + [op]) == Apply(Run(ops), op)
    ensures WithoutDecays(ops + [op]) == WithoutDecays(ops) + if op.Decay? then [] else [op]
  {
    assert (ops + [op])[..|ops|] == ops;
  }

  lemma EarlyDecayEmpties(x: Signal)
    requires x.weight <= 0.0
    ensures Decayed(Added(map[], x), 0.0, 0.0) == map[]
  {
    ActiveAppend([], x, 0.0);
    TotalAppend([], x);
    assert [] + [x] == [x];
  }

  lemma MixedRuns(w: real, v: real)
    requires w <= 0.0 < v
    ensures var x, y := Signal("a", "s", w, 0.0), Signal("b", "s", v, 0.0);
            && Run(MixedRun(w, v)) == Added(map[], y)
            && Run(WithoutDecays(MixedRun(w, v))) == Added(Added(map[], x), y)
  {
    var x, y := Signal("a", "s", w, 0.0), Signal("b", "s", v, 0.0);
    var one: seq<Op> := [] + [Add(x)];
    var two := one + [Decay(0.0, 0.0)];
    assert MixedRun(w, v) == two + [Add(y)];
    RunAppend([], Add(x));
    RunAppend(one, Decay(0.0, 0.0));
    RunAppend(two, Add(y));
    EarlyDecayEmpties(x);
    assert WithoutDecays(two) == one;
    RunAppend(one, Add(y));
  }

  /** Earlier decays never change what a later one leaves, over all runs with these weights. */
  ghost predicate DecaysImmaterial(allowed: real -> bool) {
    forall ops, cutoff, now {:trigger Decayed(Run(ops), cutoff, now)} ::
      WeightsIn(ops, allowed) && CutoffsBelow(ops, cutoff) && NoEvictions(ops) ==>
        SameTable(Decayed(Run(ops), cutoff, now), Decayed(Run(WithoutDecays(ops)), cutoff, now))
  }

  lemma PositiveImmaterial(allowed: real -> bool)
    requires forall w :: allowed(w) ==> w > 0.0
    ensures DecaysImmaterial(allowed)
  {
    forall ops, cutoff, now {:trigger Decayed(Run(ops), cutoff, now)} | WeightsIn(ops, allowed) && CutoffsBelow(ops, cutoff) && NoEvictions(ops)
      ensures SameTable(Decayed(Run(ops), cutoff, now), Decayed(Run(WithoutDecays(ops)), cutoff, now))
    {
      EarlierDecaysDoNotMatter(ops, cutoff, now);
    }
  }

  lemma NotPositiveImmaterial(allowed: real -> bool)
    requires forall w :: allowed(w) ==> w <= 0.0
    ensures DecaysImmaterial(allowed)
  {
    forall ops, cutoff, now {:trigger Decayed(Run(ops), cutoff, now)} | WeightsIn(ops, allowed) && CutoffsBelow(ops, cutoff) && NoEvictions(ops)
      ensures SameTable(Decayed(Run(ops), cutoff, now), Decayed(Run(WithoutDecays(ops)), cutoff, now))
    {
      WithoutDecaysIn(ops, allowed);
      NothingSurvives(ops, cutoff, now);
      NothingSurvives(WithoutDecays(ops), cutoff, now);
    }
  }

  lemma MixedMaterial(allowed: real -> bool, w: real, v: real)
    requires allowed(w) && allowed(v) && w <= 0.0 < v
    ensures !DecaysImmaterial(allowed)
  {
    MixedWeightsMakeDecaysMatter(w, v);
    MixedRunIn(allowed, w, v);
    Counterexample(allowed, MixedRun(w, v), 0.0, 0.0);
  }

  lemma MixedRunIn(allowed: real -> bool, w: real, v: real)
    requires allowed(w) && allowed(v)
    ensures WeightsIn(MixedRun(w, v), allowed) && CutoffsBelow(MixedRun(w, v), 0.0) && NoEvictions(MixedRun(w, v))
  {
  }

  lemma Counterexample(allowed: real -> bool, ops: seq<Op>, cutoff: real, now: real)
    requires WeightsIn(ops, allowed) && CutoffsBelow(ops, cutoff) && NoEvictions(ops)
    requires !SameTable(Decayed(Run(ops), cutoff, now), Decayed(Run(WithoutDecays(ops)), cutoff, now))
    ensures !DecaysImmaterial(allowed)
  {
  }

  /** Exactly the classes of weights that are all positive, or that have no positive one. */
  lemma DecaysImmaterialIff(allowed: real -> bool)
    ensures DecaysImmaterial(allowed) <==> (forall w :: allowed(w) ==> w > 0.0) || (forall w :: allowed(w) ==> w <= 0.0)
  {
    if (forall w :: allowed(w) ==> w > 0.0) {
      PositiveImmaterial(allowed);
    } else if (forall w :: allowed(w) ==> w <= 0.0) {
      NotPositiveImmaterial(allowed);
    } else {
      var w :| allowed(w) && w <= 0.0;
      var v :| allowed(v) && v > 0.0;
      MixedMaterial(allowed, w, v);
    }
  }

  // ---------- What staleness means ----------

  /** A decay renews a subject's update time exactly when it prunes a signal of it. */
  lemma DecayRenewsIff(t: Table, cutoff: real, now: real, k: string)
    requires k in Decayed(t, cutoff, now)
    ensures k in t
    ensures Decayed(t, cutoff, now)[k].lastUpdated == if |Active(t[k].signals, cutoff)| != |t[k].signals| then now else t[k].lastUpdated
  {
  }

  const FIRST := Signal("a", "s", 1.0, 0.0)
  const SECOND := Signal("b", "s", 1.0, 10.0)

  /** A subject with two signals of positive weight, the last at time 10; then a decay or none, then eviction of what is older than 15. */
  function AgedRun(decays: bool): seq<Op> {
    var adds := [] + [Add(FIRST)] + [Add(SECOND)];
    (if decays then adds + [Decay(5.0, 20.0)] else adds) + [Stale(15.0)]
  }

  lemma AgedTable()
    ensures var t := Run([] + [Add(FIRST)] + [Add(SECOND)]);
            t.Keys == {"s"} && t["s"].signals == [FIRST, SECOND] && t["s"].lastUpdated == 10.0
  {
    RunAppend([], Add(FIRST));
    RunAppend([] + [Add(FIRST)], Add(SECOND));
    assert [] + [FIRST] + [SECOND] == [FIRST, SECOND];
  }

  lemma AgedActive()
    ensures Active([FIRST, SECOND], 5.0) == [SECOND] && Total([SECOND]) == 1.0
  {
    assert [FIRST, SECOND][..1] == [FIRST] && [FIRST][..0] == [] && [SECOND][..0] == [];
    assert Active([FIRST], 5.0) == [];
  }

  /** So a subject that got no new signal since the limit outlives it when a decay pruned it meanwhile ... */
  lemma DecayKeepsStale()
    ensures "s" in Run(AgedRun(true)) && Run(AgedRun(true))["s"].signals == [SECOND]
  {
    var adds := [] + [Add(FIRST)] + [Add(SECOND)];
    AgedTable();
    AgedActive();
    RunAppend(adds, Decay(5.0, 20.0));
    RunAppend(adds + [Decay(5.0, 20.0)], Stale(15.0));
  }

  /** ... and not otherwise. */
  lemma StaleGoesWithoutDecay()
    ensures "s" !in Run(AgedRun(false))
  {
    var adds := [] + [Add(FIRST)] + [Add(SECOND)];
    AgedTable();
    RunAppend(adds, Stale(15.0));
  }
}
