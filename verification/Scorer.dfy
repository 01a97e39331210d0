/** The scorer object: every method is proved to make exactly the table change `Scoring` defines. */
module Scorers {
  import opened Options
  import opened Sets
  import opened Scoring

  /** A signal that is not a DLL signal, or the strong reflective one. */
  predicate Corroborating(s: Signal) {
    !DllKind(s.kind) || s.kind == "dll_reflective"
  }

  predicate Corroborated(signals: seq<Signal>) {
    exists i :: 0 <= i < |signals| && Corroborating(signals[i])
  }

  predicate Responds(t: Table, subject: string, threshold: real) {
    subject in t && t[subject].total >= threshold && Corroborated(t[subject].signals)
  }

  /** A response is due: the signals held add up to the threshold, and one of them is no DLL signal, or the reflective one. */
  predicate Due(t: Table, subject: string, threshold: real) {
    && subject in t && Total(t[subject].signals) >= threshold
    && exists i :: 0 <= i < |t[subject].signals| &&
         (!("dll_" <= t[subject].signals[i].kind) || t[subject].signals[i].kind == "dll_reflective")
  }

  lemma RespondsIff(t: Table, subject: string, threshold: real)
    requires Filed(t)
    ensures Responds(t, subject, threshold) <==> Due(t, subject, threshold)
  {
    if subject in t {
      assert Fits(subject, t[subject]);
      var signals := t[subject].signals;
      if i :| 0 <= i < |signals| && (!("dll_" <= signals[i].kind) || signals[i].kind == "dll_reflective") {
        assert Corroborating(signals[i]);
      }
    }
  }

  /** An instance: one signal that is worth exactly the threshold is enough. */
  lemma FiresAlone(subject: string, now: real)
    ensures Responds(Added(map[], Signal("memory_shellcode", subject, 80.0, now)), subject, 80.0)
  {
    var sig := Signal("memory_shellcode", subject, 80.0, now);
    AddedIs(map[], sig);
    assert "memory_shellcode"[0] != "dll_"[0];
    assert Added(map[], sig)[subject].signals[0] == sig && Corroborating(sig);
  }

  /** Weak DLL signals alone never lead to a response, however many and however heavy they are. */
  lemma {:induction false} WeakDllNeverResponds(sigs: seq<Signal>, subject: string, threshold: real)
    requires forall i :: 0 <= i < |sigs| ==> "dll_" <= sigs[i].kind && sigs[i].kind != "dll_reflective"
    ensures !Responds(AddAll(map[], sigs), subject, threshold)
    ensures forall k :: k in AddAll(map[], sigs) ==> !Corroborated(AddAll(map[], sigs)[k].signals)
  {
    if sigs != [] {
      var before, last := AddAll(map[], sigs[..|sigs| - 1]), sigs[|sigs| - 1];
      WeakDllNeverResponds(sigs[..|sigs| - 1], subject, threshold);
      forall k | k in AddAll(map[], sigs)
        ensures !Corroborated(AddAll(map[], sigs)[k].signals)
      {
        if k == last.subject {
          var held := SignalsOf(before, k);
          assert AddAll(map[], sigs)[k].signals == held + [last];
        }
      }
    }
  }

  function AddAll(t: Table, sigs: seq<Signal>): Table {
    if sigs == [] then t else Added(AddAll(t, sigs[..|sigs| - 1]), sigs[|sigs| - 1])
  }

  // ---------- Table facts the methods rest on ----------

  lemma Shrunk(t: Table, u: Table)
    requires Filed(t) && u.Keys <= t.Keys && forall k :: k in u ==> u[k] == t[k]
    ensures Filed(u) && |u| <= |t|
  {
    SubsetSize(u.Keys, t.Keys);
    forall k | k in u ensures Fits(k, u[k]) {
      assert Fits(k, t[k]);
    }
  }

  lemma WithoutOne(t: Table, k: string)
    requires Filed(t) && k in t
    ensures Filed(t - {k}) && |t - {k}| == |t| - 1
  {
    assert (t - {k}).Keys == t.Keys - {k};
    assert |t.Keys - {k}| == |t.Keys| - 1;
    Shrunk(t, t - {k});
  }

  lemma AddedSize(t: Table, sig: Signal)
    requires Filed(t)
    ensures Filed(Added(t, sig)) && |Added(t, sig)| == |t| + if sig.subject in t then 0 else 1
  {
    AddKeepsFiled(t, sig);
    assert Added(t, sig).Keys == t.Keys + {sig.subject};
  }

  lemma PurgedTable(t: Table, subject: string)
    requires Filed(t)
    ensures !StartsWith(subject, "pid:") ==> t - {subject} == Without(t, subject)
    ensures StartsWith(subject, "pid:") ==>
              var u := t - {subject};
              u - (set k | k in u && StartsWith(k, subject + ":")) == Without(t, subject)
    ensures Filed(Without(t, subject)) && |Without(t, subject)| <= |t|
  {
    Shrunk(t, Without(t, subject));
  }

  /** A decay in progress: the keys in `rest` are still to be visited. */
  function Partly(t: Table, rest: set<string>, cutoff: real, now: real): Table {
    map k | k in t :: if k in rest then t[k] else DecayedScore(t[k], cutoff, now)
  }

  function DeadKeys(t: Table, rest: set<string>, cutoff: real, now: real): set<string> {
    set k | k in t && k !in rest && Dead(DecayedScore(t[k], cutoff, now))
  }

  /** The keys of one table missing from another. */
  function Gone(t: Table, u: Table): set<string> {
    set k | k in t && k !in u
  }

  lemma VisitOne(t: Table, rest: set<string>, k: string, cutoff: real, now: real)
    requires k in rest && rest <= t.Keys
    ensures var s := DecayedScore(t[k], cutoff, now);
            && Partly(t, rest, cutoff, now)[k := s] == Partly(t, rest - {k}, cutoff, now)
            && DeadKeys(t, rest - {k}, cutoff, now) ==
               DeadKeys(t, rest, cutoff, now) + if Dead(s) then {k} else {}
  {
  }

  lemma AllVisited(t: Table, cutoff: real, now: real)
    ensures Partly(t, {}, cutoff, now) - DeadKeys(t, {}, cutoff, now) == Decayed(t, cutoff, now)
  {
  }

  lemma DecayShrinks(t: Table, cutoff: real, now: real)
    requires Filed(t)
    ensures Filed(Decayed(t, cutoff, now)) && |Decayed(t, cutoff, now)| <= |t|
  {
    DecayKeepsFiled(t, cutoff, now);
    SubsetSize(Decayed(t, cutoff, now).Keys, t.Keys);
  }

  /** What is given up to add a signal: one least recently updated subject, exactly when the table is full and the subject new. */
  ghost predicate Evicts(t: Table, sig: Signal, maxSubjects: int, evicted: set<string>) {
    && (evicted != {} <==> |t| >= maxSubjects && sig.subject !in t)
    && (evicted != {} ==>
          exists v :: evicted == {v} && v in t && forall k :: k in t ==> t[v].lastUpdated <= t[k].lastUpdated)
  }

  class Scorer {
    const threshold: real
    const signalTtl: real
    const maxSubjects: int
    var subjects: Table

    ghost predicate Valid()
      reads this
    {
      Filed(subjects) && (subjects == map[] || |subjects| <= maxSubjects)
    }

    constructor (threshold: real, signalTtl: real, maxSubjects: int)
      ensures Valid() && subjects == map[]
      ensures this.threshold == threshold && this.signalTtl == signalTtl && this.maxSubjects == maxSubjects
    {
      this.threshold, this.signalTtl, this.maxSubjects := threshold, signalTtl, maxSubjects;
      subjects := map[];
    }

    /** A subject with the smallest update time. */
    method Oldest() returns (key: string)
      requires subjects != map[]
      ensures key in subjects && forall k :: k in subjects ==> subjects[key].lastUpdated <= subjects[k].lastUpdated
    {
      assert |subjects.Keys| > 0;
      key :| key in subjects;
      var rest := subjects.Keys - {key};
      while rest != {}
        invariant key in subjects && rest <= subjects.Keys
        invariant forall k :: k in subjects ==> k in rest || subjects[key].lastUpdated <= subjects[k].lastUpdated
        decreases rest
      {
        var k :| k in rest;
        rest := rest - {k};
        if subjects[k].lastUpdated < subjects[key].lastUpdated {
          key := k;
        }
      }
    }

    /**
     * Adds a signal; a full table gives up one subject for a new one. With room for none at all,
     * looking for the oldest of no subjects raises.
     */
    method AddSignal(sig: Signal) returns (raised: bool, ghost evicted: set<string>)
      requires Valid()
      modifies this
      ensures Valid() && (raised <==> maxSubjects < 1)
      ensures raised ==> subjects == old(subjects)
      ensures !raised ==> Evicts(old(subjects), sig, maxSubjects, evicted) && subjects == Added(old(subjects) - evicted, sig)
    {
      raised, evicted := false, {};
      if |subjects| >= maxSubjects && sig.subject !in subjects {
        if subjects == map[] {
          raised := true;
          return;
        }
        var oldest := Oldest();
        evicted := {oldest};
        WithoutOne(subjects, oldest);
        subjects := subjects - {oldest};
      } else {
        assert subjects - evicted == subjects;
      }
      AddedSize(subjects, sig);
      subjects := Added(subjects, sig);
    }

    method ShouldRespond(subject: string) returns (b: bool)
      requires Valid()
      ensures b <==>
                && subject in subjects && Total(subjects[subject].signals) >= threshold
                && exists i :: 0 <= i < |subjects[subject].signals| &&
                     (!("dll_" <= subjects[subject].signals[i].kind) || subjects[subject].signals[i].kind == "dll_reflective")
      ensures b == Responds(subjects, subject, threshold)
    {
      RespondsIff(subjects, subject, threshold);
      if subject !in subjects || subjects[subject].total < threshold {
        return false;
      }
      var signals := subjects[subject].signals;
      return exists i :: 0 <= i < |signals| && Corroborating(signals[i]);
    }

    /** Purges everything, or one subject and, for "pid:<id>", its instances by start time. */
    method Reset(subject: Option<string>)
      requires Valid()
      modifies this
      ensures Valid()
      ensures subject.None? ==> subjects == map[]
      ensures subject.Some? ==>
                subjects == map k | k in old(subjects)
                                    && !(k == subject.value || ("pid:" <= subject.value && subject.value + ":" <= k)) :: old(subjects)[k]
    {
      if subject.None? {
        subjects := map[];
        return;
      }
      PurgedTable(subjects, subject.value);
      assert Without(old(subjects), subject.value) ==
             map k | k in old(subjects)
                     && !(k == subject.value || ("pid:" <= subject.value && subject.value + ":" <= k)) :: old(subjects)[k];
      subjects := subjects - {subject.value};
      if StartsWith(subject.value, "pid:") {
        var prefix := subject.value + ":";
        subjects := subjects - (set k | k in subjects && StartsWith(k, prefix));
      }
    }

    /** The loop body of decay for one subject. */
    static method DecayScore(s: Score, cutoff: real, now: real) returns (r: Score)
      ensures r == DecayedScore(s, cutoff, now)
    {
      r := s;
      var active := Active(s.signals, cutoff);
      if |active| != |s.signals| {
        r := r.(signals := active);
        r := r.(total := Total(active));
        r := r.(dllComponents := DllKinds(active));
        r := r.(lastUpdated := now);
      }
    }

    /** The loops of decay: every score updated, then the dead ones dropped. */
    static method DecayScores(t: Table, cutoff: real, now: real) returns (kept: Table, dead: set<string>)
      ensures kept == Decayed(t, cutoff, now)
      ensures dead == Gone(t, kept)
    {
      var visited := t;
      dead := {};
      var rest := t.Keys;
      assert visited == Partly(t, rest, cutoff, now);
      while rest != {}
        invariant rest <= t.Keys
        invariant visited == Partly(t, rest, cutoff, now)
        invariant dead == DeadKeys(t, rest, cutoff, now)
        decreases rest
      {
        var k :| k in rest;
        VisitOne(t, rest, k, cutoff, now);
        rest := rest - {k};
        var s := DecayScore(visited[k], cutoff, now);
        visited := visited[k := s];
        if s.signals == [] || s.total <= 0.0 {
          dead := dead + {k};
        }
      }
      AllVisited(t, cutoff, now);
      kept := visited - dead;
      assert dead == Gone(t, kept);
    }

    /** The same on a table whose entries are in order, which they stay. */
    static method DecayTable(t: Table, cutoff: real, now: real) returns (kept: Table, dead: set<string>)
      requires Filed(t)
      ensures kept == Decayed(t, cutoff, now) && dead == Gone(t, kept)
      ensures Filed(kept) && |kept| <= |t|
    {
      kept, dead := DecayScores(t, cutoff, now);
      DecayShrinks(t, cutoff, now);
    }

    /** How long signals live: as asked, or the scorer's own. */
    function TimeToLive(ttl: Option<real>): real {
      if ttl.Some? then ttl.value else signalTtl
    }

    /** Prunes signals older than the time to live, recomputes totals, drops dead subjects. */
    method Decay(ttl: Option<real>, now: real) returns (pruned: set<string>)
      requires Valid()
      modifies this
      ensures Valid()
      ensures subjects == Decayed(old(subjects), now - (if ttl.Some? then ttl.value else signalTtl), now)
      ensures pruned == Gone(old(subjects), subjects)
    {
      var kept;
      kept, pruned := DecayTable(subjects, now - TimeToLive(ttl), now);
      subjects := kept;
    }

    /** Drops the subjects not updated since the age limit. */
    method EvictStale(maxAge: real, now: real) returns (evicted: nat)
      requires Valid()
      modifies this
      ensures Valid() && evicted == |old(subjects)| - |subjects|
      ensures subjects == map k | k in old(subjects) && now - old(subjects)[k].lastUpdated <= maxAge :: old(subjects)[k]
    {
      var cutoff := now - maxAge;
      ghost var before := subjects;
      var dead := set k | k in subjects && subjects[k].lastUpdated < cutoff;
      evicted := |dead|;
      subjects := subjects - dead;
      assert subjects.Keys == before.Keys - dead && dead <= before.Keys;
      assert |before.Keys - dead| == |before.Keys| - |dead|;
    }
  }
}
