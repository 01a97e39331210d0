/**
 * The detection consumer's scoring loop: process exits clear one process's subjects, signals
 * are scored, and a subject at the threshold is responded to once. A ghost log records
 * responses and exits in order.
 */
module Consumers {
  import opened Scoring
  import opened Scorers
  import opened Subjects
  import opened Options
  import opened Beacon

  datatype Entry = Responded(subject: string, score: Score) | Exited(pid: int)

  /** A response that the rules allow: enough score and a corroborating signal. */
  predicate Justified(e: Entry, threshold: real) {
    e.Responded? ==> e.score.total >= threshold && Corroborated(e.score.signals)
  }

  /** Whether a subject was responded to since its process last exited. */
  function Answered(log: seq<Entry>, subject: string): bool {
    if log == [] then false
    else
      match log[|log| - 1]
      case Responded(s, _) => s == subject || Answered(log[..|log| - 1], subject)
      case Exited(p) => !Owns(p, subject) && Answered(log[..|log| - 1], subject)
  }

  /** Every response is justified and answers a subject not yet answered. */
  predicate Safe(log: seq<Entry>, threshold: real) {
    log == [] ||
    var before, last := log[..|log| - 1], log[|log| - 1];
    Safe(before, threshold) && Justified(last, threshold) && (last.Responded? ==> !Answered(before, last.subject))
  }

  lemma {:induction false} SafeEverywhere(log: seq<Entry>, threshold: real, i: nat)
    requires Safe(log, threshold) && i < |log|
    ensures Justified(log[i], threshold)
    ensures log[i].Responded? ==> !Answered(log[..i], log[i].subject)
  {
    if i < |log| - 1 {
      SafeEverywhere(log[..|log| - 1], threshold, i);
      assert log[..|log| - 1][..i] == log[..i];
    }
  }

  /** The response at `i` is about the subject, and no process that owns the subject exited after it. */
  predicate AnsweredAt(log: seq<Entry>, i: nat, subject: string)
    requires i < |log|
  {
    && log[i].Responded? && log[i].subject == subject
    && forall k :: i < k < |log| && log[k].Exited? ==> !Owns(log[k].pid, subject)
  }

  lemma AnsweredEarlier(log: seq<Entry>, i: nat, subject: string)
    requires i + 1 < |log|
    ensures var n := |log| - 1;
            AnsweredAt(log, i, subject) <==>
            AnsweredAt(log[..n], i, subject) && !(log[n].Exited? && Owns(log[n].pid, subject))
  {
    var n := |log| - 1;
    assert forall k :: 0 <= k < n ==> log[..n][k] == log[k];
  }

  /** Answered means responded to with no exit of an owning process since. */
  lemma {:induction false} AnsweredIff(log: seq<Entry>, subject: string)
    ensures Answered(log, subject) <==> exists i :: 0 <= i < |log| && AnsweredAt(log, i, subject)
  {
    hide Owns;
    if log != [] {
      var n := |log| - 1;
      AnsweredIff(log[..n], subject);
      forall i | 0 <= i < n
        ensures AnsweredAt(log, i, subject) <==>
                AnsweredAt(log[..n], i, subject) && !(log[n].Exited? && Owns(log[n].pid, subject))
      {
        AnsweredEarlier(log, i, subject);
      }
      assert AnsweredAt(log, n, subject) <==> log[n].Responded? && log[n].subject == subject;
    }
  }

  /** Between two responses to one subject lies an exit of the process that owns the subject. */
  lemma ExitBetweenResponses(log: seq<Entry>, threshold: real, i: nat, j: nat)
    requires Safe(log, threshold) && i < j < |log|
    requires log[i].Responded? && log[j].Responded? && log[i].subject == log[j].subject
    ensures exists k :: i < k < j && log[k].Exited? && Owns(log[k].pid, log[i].subject)
  {
    SafeEverywhere(log, threshold, j);
    if forall k :: i < k < j && log[k].Exited? ==> !Owns(log[k].pid, log[i].subject) {
      AnsweredIff(log[..j], log[i].subject);
      assert AnsweredAt(log[..j], i, log[i].subject);
    }
  }

  /** Only process subjects are ever responded to twice. */
  lemma OnlyProcessesTwice(log: seq<Entry>, threshold: real, i: nat, j: nat)
    requires Safe(log, threshold) && i < j < |log|
    requires log[i].Responded? && log[j].Responded? && log[i].subject == log[j].subject
    ensures StartsWith(log[i].subject, "pid:")
  {
    ExitBetweenResponses(log, threshold, i, j);
    var k :| i < k < j && log[k].Exited? && Owns(log[k].pid, log[i].subject);
    OwnsIsPurges(log[k].pid, log[i].subject);
  }

  /** Scoring one signal takes one table to another. */
  ghost predicate Scores(t: Table, sig: Signal, maxSubjects: int, t': Table) {
    exists evicted :: Evicts(t, sig, maxSubjects, evicted) && t' == Added(t - evicted, sig)
  }

  /** The settings that decide about responses. */
  datatype Rules = Rules(maxSubjects: int, threshold: real, autoRespond: bool)

  /** A table and the log of responses and exits beside it. */
  datatype Desk = Desk(table: Table, log: seq<Entry>)

  /** What handling one signal makes of both: it is scored, and answered exactly when that is allowed, enabled and the first time. */
  ghost predicate Handles(d: Desk, sig: Signal, rules: Rules, d': Desk) {
    && Scores(d.table, sig, rules.maxSubjects, d'.table) && sig.subject in d'.table
    && d'.log == if rules.autoRespond && Responds(d'.table, sig.subject, rules.threshold) && !Answered(d.log, sig.subject)
                 then d.log + [Responded(sig.subject, d'.table[sig.subject])] else d.log
  }

  /** The same for a batch of signals, in order: the states in between, first and last included. */
  ghost predicate Through(desks: seq<Desk>, signals: seq<Signal>, rules: Rules) {
    && |desks| == |signals| + 1
    && forall i :: 0 <= i < |signals| ==> Handles(desks[i], signals[i], rules, desks[i + 1])
  }

  lemma ThroughMore(desks: seq<Desk>, signals: seq<Signal>, n: nat, rules: Rules, d: Desk)
    requires n < |signals| && Through(desks, signals[..n], rules) && Handles(desks[n], signals[n], rules, d)
    ensures Through(desks + [d], signals[..n + 1], rules)
  {
    var more := desks + [d];
    forall i | 0 <= i < n + 1 ensures Handles(more[i], signals[..n + 1][i], rules, more[i + 1]) {
      if i < n {
        assert Handles(desks[i], signals[..n][i], rules, desks[i + 1]);
      }
    }
  }

  /** The tables of a batch stay in order, and what was answered stays answered. */
  lemma {:induction false} ThroughKeeps(desks: seq<Desk>, signals: seq<Signal>, rules: Rules, i: nat, j: nat)
    requires Through(desks, signals, rules) && Filed(desks[0].table) && i <= j < |desks|
    ensures Filed(desks[j].table)
    ensures forall s :: Answered(desks[i].log, s) ==> Answered(desks[j].log, s)
  {
    if j > 0 {
      ThroughKeeps(desks, signals, rules, if i < j then i else j - 1, j - 1);
      assert Handles(desks[j - 1], signals[j - 1], rules, desks[j]);
      HandlesKeeps(desks[j - 1], signals[j - 1], rules, desks[j]);
    }
  }

  lemma HandlesKeeps(d: Desk, sig: Signal, rules: Rules, d': Desk)
    requires Handles(d, sig, rules, d') && Filed(d.table)
    ensures Filed(d'.table)
    ensures forall s :: Answered(d.log, s) ==> Answered(d'.log, s)
  {
    var evicted :| Evicts(d.table, sig, rules.maxSubjects, evicted) && d'.table == Added(d.table - evicted, sig);
    Shrunk(d.table, d.table - evicted);
    AddKeepsFiled(d.table - evicted, sig);
    assert d'.log != d.log ==> d'.log[..|d'.log| - 1] == d.log;
  }

  /**
   * With responses enabled, whatever signals a batch brings: each that left its subject with a
   * response due has its subject answered at the end, since its process last exited.
   */
  lemma DueIsAnswered(desks: seq<Desk>, signals: seq<Signal>, rules: Rules, i: nat)
    requires Through(desks, signals, rules) && Filed(desks[0].table) && rules.autoRespond && i < |signals|
    requires Due(desks[i + 1].table, signals[i].subject, rules.threshold)
    ensures Answered(desks[|signals|].log, signals[i].subject)
  {
    ThroughKeeps(desks, signals, rules, 0, i + 1);
    ThroughKeeps(desks, signals, rules, i + 1, |signals|);
    assert Handles(desks[i], signals[i], rules, desks[i + 1]);
    RespondsIff(desks[i + 1].table, signals[i].subject, rules.threshold);
    AnsweredNow(desks[i], signals[i], rules, desks[i + 1]);
  }

  lemma AllDueAnswered(desks: seq<Desk>, signals: seq<Signal>, rules: Rules)
    requires Through(desks, signals, rules) && Filed(desks[0].table)
    ensures rules.autoRespond ==>
              forall i :: 0 <= i < |signals| && Due(desks[i + 1].table, signals[i].subject, rules.threshold) ==>
                Answered(desks[|signals|].log, signals[i].subject)
  {
    if rules.autoRespond {
      forall i | 0 <= i < |signals| && Due(desks[i + 1].table, signals[i].subject, rules.threshold)
        ensures Answered(desks[|signals|].log, signals[i].subject)
      {
        DueIsAnswered(desks, signals, rules, i);
      }
    }
  }

  lemma AnsweredNow(d: Desk, sig: Signal, rules: Rules, d': Desk)
    requires Handles(d, sig, rules, d') && rules.autoRespond && Responds(d'.table, sig.subject, rules.threshold)
    ensures Answered(d'.log, sig.subject)
  {
    assert d'.log != d.log ==> d'.log[..|d'.log| - 1] == d.log;
  }

  /** The log has only grown, by responses. */
  ghost predicate OnlyResponded(before: seq<Entry>, after: seq<Entry>) {
    && |before| <= |after| && after[..|before|] == before
    && forall i :: |before| <= i < |after| ==> after[i].Responded?
  }

  lemma OnlyRespondedMore(a: seq<Entry>, b: seq<Entry>, c: seq<Entry>)
    requires OnlyResponded(a, b) && OnlyResponded(b, c)
    ensures OnlyResponded(a, c)
  {
    assert c[..|a|] == c[..|b|][..|a|] == a;
    forall i | |a| <= i < |c| ensures c[i].Responded? {
      if i < |b| {
        assert c[i] == c[..|b|][i] == b[i];
      }
    }
  }

  class DetectionConsumer {
    const scorer: Scorer
    const beacons: C2BeaconDetector
    const autoRespond: bool
    var responded: set<string>
    var cpuFlags: set<int>                 // processes already reported for sustained CPU
    var startTimes: map<int, real>
    ghost var log: seq<Entry>

    ghost predicate Valid()
      reads this, scorer, beacons
    {
      Answering() && beacons.Valid()
    }

    ghost function View(): Desk
      reads this, scorer
    {
      Desk(scorer.subjects, log)
    }

    ghost function Settings(): Rules
      reads this, scorer
    {
      Rules(scorer.maxSubjects, scorer.threshold, autoRespond)
    }

    /** The part of validity that scoring and responding are about. */
    ghost predicate Answering()
      reads this, scorer
    {
      && scorer.Valid()
      && Safe(log, scorer.threshold)
      && forall s :: s in responded <==> Answered(log, s)
    }

    constructor (scorer: Scorer, beacons: C2BeaconDetector, autoRespond: bool)
      requires scorer.Valid() && beacons.Valid()
      ensures Valid() && log == [] && responded == {}
      ensures this.scorer == scorer && this.beacons == beacons && this.autoRespond == autoRespond
    {
      this.scorer, this.beacons, this.autoRespond := scorer, beacons, autoRespond;
      responded, cpuFlags, startTimes, log := {}, {}, map[], [];
    }

    /** A process exit clears what is known of that process, and of no other, everywhere. */
    method ProcessExit(pid: int)
      requires Valid()
      modifies this, scorer, beacons
      ensures Valid() && log == old(log) + [Exited(pid)]
      ensures scorer.subjects == map k | k in old(scorer.subjects) && !Owns(pid, k) :: old(scorer.subjects)[k]
      ensures forall s :: s in responded <==> s in old(responded) && !Owns(pid, s)
      ensures beacons.streams == map id | id in old(beacons.streams) && id.0 != pid :: old(beacons.streams)[id]
      ensures cpuFlags == old(cpuFlags) - {pid} && startTimes == old(startTimes) - {pid}
    {
      hide Owns, PidSubject, Answered;
      ghost var t := scorer.subjects;
      scorer.Reset(Some(PidSubject(pid)));
      WithoutOwned(t, pid);
      cpuFlags := cpuFlags - {pid};
      beacons.ResetPid(pid);
      startTimes := startTimes - {pid};
      ClearResponded(pid);
    }

    /** The exit's last step: the responded set. */
    method ClearResponded(pid: int)
      requires Valid()
      modifies this`responded, this`log
      ensures Valid() && log == old(log) + [Exited(pid)]
      ensures forall s :: s in responded <==> s in old(responded) && !Owns(pid, s)
    {
      var prefix := PidSubject(pid);
      responded := set s | s in responded && !(s == prefix || StartsWith(s, prefix + ":"));
      log := log + [Exited(pid)];
      assert log[..|log| - 1] == old(log);
    }

    /** One signal: scored, then answered if it takes its subject over the line for the first time. */
    method HandleSignal(sig: Signal) returns (raised: bool, answered: bool)
      requires Answering()
      modifies this`responded, this`log, scorer
      ensures Answering() && (raised <==> scorer.maxSubjects < 1)
      ensures raised ==> scorer.subjects == old(scorer.subjects) && log == old(log) && responded == old(responded)
      ensures !raised ==> Handles(old(View()), sig, Settings(), View())
      ensures answered <==> log != old(log)
      ensures old(responded) <= responded && OnlyResponded(old(log), log)
    {
      ghost var evicted;
      answered := false;
      raised, evicted := scorer.AddSignal(sig);
      if raised {
        return;
      }
      if autoRespond {
        answered := RespondOnce(sig);
      }
    }

    /** The response to a subject that is over the line, unless it was answered before. */
    method RespondOnce(sig: Signal) returns (answered: bool)
      requires Answering() && autoRespond && sig.subject in scorer.subjects
      modifies this`responded, this`log
      ensures Answering()
      ensures log == if Responds(scorer.subjects, sig.subject, scorer.threshold) && !Answered(old(log), sig.subject)
                     then old(log) + [Responded(sig.subject, scorer.subjects[sig.subject])] else old(log)
      ensures answered <==> log != old(log)
      ensures old(responded) <= responded && OnlyResponded(old(log), log)
    {
      answered := false;
      var go := scorer.ShouldRespond(sig.subject);
      if go && sig.subject !in responded {
        responded := responded + {sig.subject};
        log := log + [Responded(sig.subject, scorer.subjects[sig.subject])];
        assert log[..|log| - 1] == old(log);
        answered := true;
      }
    }

    /**
     * The signals of one event, in order. The first `handled` of them were scored, and answered
     * where that was due; the rest are abandoned when scoring raises, or the response to the last.
     */
    method HandleSignals(signals: seq<Signal>) returns (handled: nat, raised: bool, ghost desks: seq<Desk>)
      requires Answering()
      modifies this`responded, this`log, scorer
      ensures Answering() && handled <= |signals| && (!raised ==> handled == |signals|)
      ensures Through(desks, signals[..handled], Settings()) && desks[0] == old(View()) && desks[handled] == View()
      ensures autoRespond ==>
                forall i :: 0 <= i < handled && Due(desks[i + 1].table, signals[i].subject, scorer.threshold) ==>
                  Answered(log, signals[i].subject) && signals[i].subject in responded
      ensures OnlyResponded(old(log), log) && old(responded) <= responded
      ensures raised && scorer.maxSubjects >= 1 ==> LastAnswered(signals, handled, old(log))
    {
      hide Handles, Due, Answered, Safe;
      handled, raised, desks := 0, false, [View()];
      while handled < |signals| && !raised
        invariant Answering() && handled <= |signals|
        invariant Through(desks, signals[..handled], Settings()) && desks[0] == old(View()) && desks[handled] == View()
        invariant OnlyResponded(old(log), log) && old(responded) <= responded
        invariant raised && scorer.maxSubjects >= 1 ==> LastAnswered(signals, handled, old(log))
        decreases |signals| - handled, !raised
      {
        ghost var mid, n := View(), handled;
        handled, raised := HandleNext(signals, handled);
        OnlyRespondedMore(old(log), mid.log, log);
        if handled > n {
          ThroughMore(desks, signals, n, Settings(), View());
          desks := desks + [View()];
        }
      }
      AllDueAnswered(desks, signals[..handled], Settings());
    }

    /** One round of the loop; the response may raise. */
    method HandleNext(signals: seq<Signal>, n: nat) returns (handled: nat, raised: bool)
      requires Answering() && n < |signals|
      modifies this`responded, this`log, scorer
      ensures Answering() && OnlyResponded(old(log), log) && old(responded) <= responded
      ensures if scorer.maxSubjects < 1 then raised && handled == n && View() == old(View())
              else handled == n + 1 && Handles(old(View()), signals[n], Settings(), View())
      ensures raised && scorer.maxSubjects >= 1 ==> LastAnswered(signals, handled, old(log))
    {
      var answered;
      raised, answered := HandleSignal(signals[n]);
      handled := if raised then n else n + 1;
      if answered {
        raised := *;
      }
    }

    /** The last signal handled was the last to be answered. */
    ghost predicate LastAnswered(signals: seq<Signal>, handled: nat, before: seq<Entry>)
      reads this
    {
      && 0 < handled <= |signals| && |log| > |before|
      && log[|log| - 1].Responded? && log[|log| - 1].subject == signals[handled - 1].subject
    }

    /**
     * The periodic round: CPU signals, then decay and stale eviction, even when a signal raised;
     * neither clears the responded set. `scored` is the table in between, `n` how many were scored.
     */
    method PeriodicChecks(cpuSignals: seq<Signal>, now: real) returns (ghost scored: Table, ghost n: nat, ghost desks: seq<Desk>)
      requires Answering()
      modifies this`responded, this`log, scorer
      ensures Answering() && OnlyResponded(old(log), log) && old(responded) <= responded
      ensures n <= |cpuSignals| && Through(desks, cpuSignals[..n], Settings())
      ensures desks[0] == old(View()) && desks[n] == Desk(scored, log)
      ensures var d := Decayed(scored, now - 600.0, now);
              scorer.subjects == map k | k in d && now - d[k].lastUpdated <= 3600.0 :: d[k]
      ensures AllFresh(scorer.subjects, now - 600.0)
    {
      var handled, raised;
      handled, raised, desks := HandleSignals(cpuSignals);
      n, scored := handled, scorer.subjects;
      var _ := scorer.Decay(Some(600.0), now);
      DecayedFresh(scored, now - 600.0, now);
      var _ := scorer.EvictStale(3600.0, now);
    }
  }

  lemma WithoutOwned(t: Table, pid: int)
    ensures var subject := PidSubject(pid);
            (map k | k in t && !(k == subject || ("pid:" <= subject && subject + ":" <= k)) :: t[k]) ==
            map k | k in t && !Owns(pid, k) :: t[k]
  {
    forall k ensures Owns(pid, k) <==> Purges(PidSubject(pid), k) {
      OwnsIsPurges(pid, k);
    }
  }
}
