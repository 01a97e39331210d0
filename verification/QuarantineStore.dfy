/**
 * The store object. Every method is proved to take exactly its steps of the vault's machine, with
 * any steps of other callers and other programs before each of them.
 */
module QuarantineStores {
  import opened Options
  import opened Quarantine

  function Caller(a: Action): Option<nat> {
    match a
    case Adder(t, _) => Some(t)
    case ReadRow(t, _, _) => Some(t)
    case CopyBack(t, _) => Some(t)
    case Unlink(t, _) => Some(t)
    case Decide(t, _) => Some(t)
    case _ => None
  }

  /** A caller's own steps in a stretch of a run. */
  function Own(es: seq<Action>, t: nat): seq<Action> {
    if es == [] then []
    else Own(es[..|es| - 1], t) + if Caller(es[|es| - 1]) == Some(t) then [es[|es| - 1]] else []
  }

  lemma OwnAppend(es: seq<Action>, a: Action, t: nat)
    ensures Own(es + [a], t) == Own(es, t) + if Caller(a) == Some(t) then [a] else []
  {
    assert (es + [a])[..|es|] == es;
  }

  /** How an add's own steps go on once its source was hashed: it comes to its copy, to the removal or to the row. */
  ghost predicate AddGoesOn(before: seq<Action>, after: seq<Action>, t: nat, env: AddEnv, k: nat) {
    var copied := before + [Adder(t, Duplicate(env.copy, env.cleaned))];
    if k == 3 then after == copied else TakeGoesOn(copied, after, t, env, k)
  }

  ghost predicate TakeGoesOn(before: seq<Action>, after: seq<Action>, t: nat, env: AddEnv, k: nat) {
    var taken := before + [Adder(t, Take(env.unlinked, env.cleaned))];
    if k == 4 then after == taken else k == 5 && after == taken + [Adder(t, File(env.inserted, env.cleaned))]
  }

  /**
   * How a caller's own steps go on, and what it answers, once its row was read: `act` on the file,
   * and when that works (`ok`) the decision.
   */
  ghost predicate GoesOn(before: seq<Action>, after: seq<Action>, act: Action, t: nat, ok: bool, decided: bool, r: Outcome) {
    if ok then after == before + [act] + [Decide(t, decided)] && r == (if decided then Done else Raised)
    else after == before + [act] && r == Refused
  }

  /** A step of another caller leaves a call alone. */
  lemma OtherCaller(v: State, a: Action, hash: Bytes -> string, t: nat)
    requires Caller(a) != Some(t)
    ensures var w := Step(v, a, hash);
            && (t in w.calls <==> t in v.calls) && (t in v.calls ==> w.calls[t] == v.calls[t])
            && (t in w.adds <==> t in v.adds) && (t in v.adds ==> w.adds[t] == v.adds[t])
  {
    if a.Adder? {
      AddLeaves(v, a.caller, a.part, hash);
      OtherAdds(v, a.caller, a.part, hash, t);
    }
  }

  lemma OtherAdds(v: State, u: nat, part: Part, hash: Bytes -> string, t: nat)
    requires t != u
    ensures var w := AddEffect(v, u, part, hash); (t in w.adds <==> t in v.adds) && (t in v.adds ==> w.adds[t] == v.adds[t])
  {
  }

  class QuarantineStore {
    const dir: string
    const hash: Bytes -> string
    var files: map<string, Bytes>
    var records: map<string, Record>
    var calls: map<nat, Call>          // restores and deletes in progress, this thread's and others'
    var adds: map<nat, Adding>         // adds in progress
    var origins: map<string, Adding>
    var clock: nat
    ghost const start: State
    ghost var trace: seq<Action>       // every step so far, by anyone

    ghost function View(): State
      reads this
    {
      State(dir, files, records, calls, adds, origins, clock)
    }

    ghost predicate Valid()
      reads this
    {
      View() == Run(start, trace, hash)
    }

    constructor (dir: string, files: map<string, Bytes>, hash: Bytes -> string)
      ensures Valid() && View() == start == State(dir, files, map[], map[], map[], map[], 0) && Inv(start) && Fresh(start)
      ensures trace == [] && this.hash == hash
    {
      this.dir, this.hash, this.files := dir, hash, files;
      records, calls, adds, origins, clock := map[], map[], map[], map[], 0;
      start, trace := State(dir, files, map[], map[], map[], map[], 0), [];
    }

    /** Records a step the fields have just taken. */
    ghost method Log(v: State, a: Action)
      requires v == Run(start, trace, hash) && View() == Step(v, a, hash)
      modifies this`trace
      ensures Valid() && trace == old(trace) + [a]
    {
      trace := trace + [a];
      assert trace[..|trace| - 1] == old(trace);
    }

    /** Between two steps of one caller, any number of steps of others and of other programs. */
    method Others(t: nat)
      requires Valid()
      modifies this`files, this`records, this`calls, this`adds, this`origins, this`clock, this`trace
      ensures Valid() && old(trace) <= trace
      ensures Own(trace, t) == Own(old(trace), t)
      ensures (t in calls <==> t in old(calls)) && (t in calls ==> calls[t] == old(calls)[t])
      ensures (t in adds <==> t in old(adds)) && (t in adds ==> adds[t] == old(adds)[t])
    {
      var n: nat :| true;
      for i := 0 to n
        invariant Valid() && old(trace) <= trace
        invariant Own(trace, t) == Own(old(trace), t)
        invariant (t in calls <==> t in old(calls)) && (t in calls ==> calls[t] == old(calls)[t])
        invariant (t in adds <==> t in old(adds)) && (t in adds ==> adds[t] == old(adds)[t])
      {
        var a: Action := *;
        if Caller(a) != Some(t) {
          Other(a, t);
        }
      }
    }

    method Other(a: Action, ghost t: nat)
      requires Valid() && Caller(a) != Some(t)
      modifies this`files, this`records, this`calls, this`adds, this`origins, this`clock, this`trace
      ensures Valid() && trace == old(trace) + [a] && Own(trace, t) == Own(old(trace), t)
      ensures (t in calls <==> t in old(calls)) && (t in calls ==> calls[t] == old(calls)[t])
      ensures (t in adds <==> t in old(adds)) && (t in adds ==> adds[t] == old(adds)[t])
    {
      var v := State(dir, files, records, calls, adds, origins, clock);
      var w := Step(v, a, hash);
      OtherCaller(v, a, hash, t);
      StepKeepsDir(v, a, hash);
      Become(w);
      Log(v, a);
      OwnAppend(old(trace), a, t);
    }

    method Become(w: State)
      requires w.dir == dir
      modifies this`files, this`records, this`calls, this`adds, this`origins, this`clock
      ensures View() == w
    {
      files, records, calls := w.files, w.records, w.calls;
      adds, origins, clock := w.adds, w.origins, w.clock;
    }

    // Adding.

    /** The source must be a file. */
    method FindSource(t: nat, src: string, id: string) returns (ok: bool)
      requires Valid() && t !in calls && t !in adds
      modifies this`adds, this`clock, this`trace
      ensures Valid() && Did(t, old(trace), Begin(src, id))
      ensures ok <==> src in files
      ensures ok ==> t in adds && adds[t] == Adding(src, id, "", Found, None, [], 0)
      ensures !ok ==> t !in adds
    {
      ghost var v := View();
      ok := src in files;
      if ok {
        adds := adds[t := Adding(src, id, "", Found, None, [], 0)];
      }
      clock := clock + 1;
      LogPart(v, t, Begin(src, id));
    }

    /** Hashes the source; a file that cannot be read has no hash. */
    method HashSource(t: nat, readable: bool)
      requires Valid() && t in adds && adds[t].phase.Found?
      modifies this`adds, this`clock, this`trace
      ensures Valid() && Did(t, old(trace), Measure(readable))
      ensures t in adds && adds[t].phase.Measured? && adds[t].src == old(adds)[t].src && adds[t].id == old(adds)[t].id
    {
      ghost var v := View();
      var c := adds[t];
      var read := if readable && c.src in files then Some(files[c.src]) else None;
      adds := adds[t := c.(sha := Sha(read, hash), hashed := read, phase := Measured)];
      clock := clock + 1;
      LogPart(v, t, Measure(readable));
    }

    /** Copies the source to the vault; a failed copy is cleaned up, and the add ends. */
    method CopySource(t: nat, copy: Copy, cleaned: bool) returns (ok: bool, r: Outcome)
      requires Valid() && t in adds && adds[t].phase.Measured?
      modifies this`files, this`adds, this`clock, this`trace
      ensures Valid() && Did(t, old(trace), Duplicate(copy, cleaned))
      ensures ok <==> old(adds[t].src in files) && copy.Copied?
      ensures ok ==> t in adds && adds[t].phase.Duplicated? && adds[t].src == old(adds)[t].src && adds[t].id == old(adds)[t].id
      ensures !ok ==> t !in adds && (r.Refused? || (r.Raised? && !cleaned))
    {
      ghost var v := View();
      var c := adds[t];
      var dest := Stored(dir, c.id, c.src);
      ok, r := false, Done;
      if c.src in files && copy.Copied? {
        files := files[dest := files[c.src]];
        adds := adds[t := c.(copied := files[c.src], copiedAt := clock, phase := Duplicated)];
        assert files[c.src] == v.files[c.src];
        ok := true;
      } else {
        if c.src in files {
          files := Put(files, dest, copy.left);
        }
        r := Discard(t, cleaned);
      }
      clock := clock + 1;
      LogPart(v, t, Duplicate(copy, cleaned));
    }

    /** The cleanup of a failed add; removing the copy may raise. */
    method Discard(t: nat, cleaned: bool) returns (r: Outcome)
      requires t in adds
      modifies this`files, this`adds
      ensures View() == CleanUp(old(View()), t, cleaned)
      ensures r.Refused? || (r.Raised? && !cleaned)
    {
      var dest := Stored(dir, adds[t].id, adds[t].src);
      r := Refused;
      if dest in files {
        if cleaned {
          files := files - {dest};
        } else {
          r := Raised;
        }
      }
      adds := adds - {t};
    }

    /** Removes the source. */
    method RemoveSource(t: nat, unlinked: bool, cleaned: bool) returns (r: Outcome)
      requires Valid() && t in adds && adds[t].phase.Duplicated?
      modifies this`files, this`adds, this`clock, this`trace
      ensures Valid() && Did(t, old(trace), Take(unlinked, cleaned))
      ensures unlinked ==> t in adds && adds[t].phase.Moved? && adds[t].id == old(adds)[t].id
      ensures !unlinked ==> t !in adds && (r.Refused? || (r.Raised? && !cleaned))
    {
      ghost var v := View();
      r := Done;
      if unlinked {
        files := files - {adds[t].src};
        adds := adds[t := adds[t].(phase := Moved)];
      } else {
        r := Discard(t, cleaned);
      }
      clock := clock + 1;
      LogPart(v, t, Take(unlinked, cleaned));
    }

    /** Inserts the row; when that fails the copy goes. */
    method InsertRow(t: nat, inserted: bool, cleaned: bool) returns (r: Outcome)
      requires Valid() && t in adds && adds[t].phase.Moved?
      modifies this`files, this`records, this`adds, this`origins, this`clock, this`trace
      ensures Valid() && Did(t, old(trace), File(inserted, cleaned)) && t !in adds
      ensures r.Done? <==> inserted && old(adds[t].id !in records)
      ensures r.Raised? ==> !cleaned
    {
      ghost var v := View();
      r := FileRow(t, inserted, cleaned);
      clock := clock + 1;
      LogPart(v, t, File(inserted, cleaned));
    }

    method FileRow(t: nat, inserted: bool, cleaned: bool) returns (r: Outcome)
      requires t in adds && adds[t].phase.Moved?
      modifies this`files, this`records, this`adds, this`origins
      ensures View() == FileStep(old(View()), t, inserted, cleaned) && t !in adds
      ensures r.Done? <==> inserted && old(adds[t].id !in records)
      ensures r.Raised? ==> !cleaned
    {
      var c := adds[t];
      r := Done;
      if inserted && c.id !in records {
        records := records[c.id := Record(c.src, Stored(dir, c.id, c.src), c.sha, Pending)];
        origins, adds := origins[c.id := c], adds - {t};
      } else {
        r := Discard(t, cleaned);
      }
    }

    /** One more step of this caller, a part of an add. */
    twostate predicate Did(t: nat, before: seq<Action>, part: Part)
      reads this
    {
      trace == before + [Adder(t, part)] && Own(trace, t) == Own(before, t) + [Adder(t, part)]
    }

    ghost method LogPart(v: State, t: nat, part: Part)
      requires v == Run(start, trace, hash) && View() == AddEffect(v, t, part, hash).(clock := v.clock + 1)
      modifies this`trace
      ensures Valid() && Did(t, old(trace), part)
    {
      Log(v, Adder(t, part));
      OwnAppend(old(trace), Adder(t, part), t);
    }

    /**
     * Moves a file into the vault: five steps, with others' in between. `k` is how many of them
     * it comes to, and `at` is where its copy stands.
     */
    method Add(t: nat, src: string, id: string, env: AddEnv) returns (r: Outcome, ghost k: nat, ghost at: nat)
      requires Valid() && t !in calls && t !in adds
      modifies this
      ensures Valid() && old(trace) <= trace && t !in adds
      ensures var begun := Own(old(trace), t) + [Adder(t, Begin(src, id))];
              if src !in old(files) then k == 1 && Own(trace, t) == begun
              else
                && AddGoesOn(begun + [Adder(t, Measure(env.readable))], Own(trace, t), t, env, k)
                && at < |trace| && (k > 3 <==> env.copy.Copied? && src in Run(start, trace[..at], hash).files)
      ensures k > 3 ==> (k == 5 <==> env.unlinked)
      ensures r.Done? ==> k == 5 && env.inserted
      ensures r.Raised? ==> !env.cleaned
    {
      at := 0;
      var ok := FindSource(t, src, id);
      if !ok {
        return Refused, 1, at;
      }
      Others(t);
      HashSource(t, env.readable);
      Others(t);
      at := |trace|;
      ghost var before := trace;
      r, k := CopyOn(t, src, id, env);
      assert trace[..at] == before;
    }

    /** From the copy on. */
    method CopyOn(t: nat, ghost src: string, ghost id: string, env: AddEnv) returns (r: Outcome, ghost k: nat)
      requires Valid() && t in adds && adds[t].phase.Measured? && adds[t].src == src && adds[t].id == id
      modifies this
      ensures Valid() && old(trace) < trace && t !in adds && AddGoesOn(Own(old(trace), t), Own(trace, t), t, env, k)
      ensures k > 3 <==> env.copy.Copied? && old(src in files)
      ensures k > 3 ==> (k == 5 <==> env.unlinked)
      ensures r.Done? ==> k == 5 && env.inserted
      ensures r.Raised? ==> !env.cleaned
    {
      var ok;
      ok, r := CopySource(t, env.copy, env.cleaned);
      if !ok {
        return r, 3;
      }
      Others(t);
      r, k := TakeOn(t, env);
    }

    /** From the removal on. */
    method TakeOn(t: nat, env: AddEnv) returns (r: Outcome, ghost k: nat)
      requires Valid() && t in adds && adds[t].phase.Duplicated?
      modifies this
      ensures Valid() && old(trace) <= trace && t !in adds && TakeGoesOn(Own(old(trace), t), Own(trace, t), t, env, k)
      ensures k == 5 <==> env.unlinked
      ensures r.Done? ==> k == 5 && env.inserted
      ensures r.Raised? ==> !env.cleaned
    {
      r := RemoveSource(t, env.unlinked, env.cleaned);
      if !env.unlinked {
        return r, 4;
      }
      Others(t);
      r := InsertRow(t, env.inserted, env.cleaned);
      k := 5;
    }

    // Restoring and deleting.

    /** The row as it is now, for a caller that goes on unless it is missing or, for a restore, DELETED. */
    method Get(t: nat, restore: bool, id: string) returns (row: Option<Record>)
      requires Valid() && t !in calls && t !in adds
      modifies this`calls, this`clock, this`trace
      ensures Valid() && trace == old(trace) + [ReadRow(t, restore, id)] && Own(trace, t) == Own(old(trace), t) + [ReadRow(t, restore, id)]
      ensures row.Some? <==> id in records && !(restore && IsDeleted(View(), id))
      ensures row.Some? ==> row.value == records[id] && calls == old(calls)[t := Call(restore, id, row.value, old(clock), false)]
      ensures row.None? ==> calls == old(calls)
    {
      ghost var v := View();
      row := None;
      if id in records && !(restore && records[id].decision.Deleted?) {
        row := Some(records[id]);
        calls := calls[t := Call(restore, id, records[id], clock, false)];
      }
      clock := clock + 1;
      Log(v, ReadRow(t, restore, id));
      OwnAppend(old(trace), ReadRow(t, restore, id), t);
    }

    /** Copies the vault's file back; the call ends when it is missing or the copy fails. */
    method PutBack(t: nat, copy: Copy) returns (ok: bool)
      requires Valid() && t in calls && calls[t].restore && !calls[t].acted
      modifies this`files, this`calls, this`clock, this`trace
      ensures Valid() && trace == old(trace) + [CopyBack(t, copy)] && Own(trace, t) == Own(old(trace), t) + [CopyBack(t, copy)]
      ensures ok <==> old(calls[t].row.stored in files) && copy.Copied?
      ensures ok ==> calls == old(calls)[t := old(calls)[t].(acted := true)]
      ensures !ok ==> t !in calls
    {
      ghost var v := View();
      var row := calls[t].row;
      ok := false;
      if row.stored !in files {
        calls := calls - {t};
      } else if copy.Failed? {
        files, calls := Put(files, row.original, copy.left), calls - {t};
      } else {
        files := files[row.original := files[row.stored]];
        calls := calls[t := calls[t].(acted := true)];
        ok := true;
      }
      clock := clock + 1;
      Log(v, CopyBack(t, copy));
      OwnAppend(old(trace), CopyBack(t, copy), t);
    }

    /** Removes the vault's file if it is there; the call ends when that fails. */
    method Remove(t: nat, unlinked: bool) returns (ok: bool)
      requires Valid() && t in calls && !calls[t].restore && !calls[t].acted
      modifies this`files, this`calls, this`clock, this`trace
      ensures Valid() && trace == old(trace) + [Unlink(t, unlinked)] && Own(trace, t) == Own(old(trace), t) + [Unlink(t, unlinked)]
      ensures ok <==> old(calls[t].row.stored !in files) || unlinked
      ensures ok ==> calls == old(calls)[t := old(calls)[t].(acted := true)]
      ensures !ok ==> t !in calls
    {
      ghost var v := View();
      var stored := calls[t].row.stored;
      ok := true;
      if stored in files {
        if unlinked {
          files := files - {stored};
        } else {
          calls := calls - {t};
          ok := false;
        }
      }
      if ok {
        calls := calls[t := calls[t].(acted := true)];
        assert files == v.files - {stored};
      }
      clock := clock + 1;
      Log(v, Unlink(t, unlinked));
      OwnAppend(old(trace), Unlink(t, unlinked), t);
    }

    /** Updates the row and ends the call. */
    method SetDecision(t: nat, decided: bool) returns (r: Outcome)
      requires Valid() && t in calls && calls[t].acted
      modifies this`records, this`calls, this`clock, this`trace
      ensures Valid() && trace == old(trace) + [Decide(t, decided)] && Own(trace, t) == Own(old(trace), t) + [Decide(t, decided)]
      ensures r == (if decided then Done else Raised) && calls == old(calls) - {t}
    {
      ghost var v := View();
      UpdateRow(t, decided);
      clock := clock + 1;
      r := if decided then Done else Raised;
      Log(v, Decide(t, decided));
      OwnAppend(old(trace), Decide(t, decided), t);
    }

    method UpdateRow(t: nat, decided: bool)
      requires t in calls && calls[t].acted
      modifies this`records, this`calls
      ensures View() == DecideStep(old(View()), t, decided)
    {
      var c := calls[t];
      if decided && c.id in records {
        records := records[c.id := records[c.id].(decision := if c.restore then Restored else Deleted)];
      }
      calls := calls - {t};
    }

    /** Puts a file back: three steps of this caller, with others' steps before each of the last two; `at` is where its copy stands. */
    method Restore(t: nat, id: string, copy: Copy, decided: bool) returns (r: Outcome, ghost at: nat)
      requires Valid() && t !in calls && t !in adds
      modifies this
      ensures Valid() && old(trace) <= trace && t !in calls
      ensures var goes := id in old(records) && !old(records)[id].decision.Deleted?;
              if !goes then r == Refused && Own(trace, t) == Own(old(trace), t) + [ReadRow(t, true, id)]
              else
                && |old(trace)| < at < |trace|
                && GoesOn(Own(old(trace), t) + [ReadRow(t, true, id)], Own(trace, t), CopyBack(t, copy), t,
                          copy.Copied? && old(records)[id].stored in Run(start, trace[..at], hash).files, decided, r)
    {
      at := 0;
      var row := Get(t, true, id);
      if row.None? {
        return Refused, at;
      }
      Others(t);
      at := |trace|;
      ghost var before := trace;
      r := CopyAndDecide(t, copy, decided);
      assert trace[..at] == before;
    }

    /** The last two steps of a restore. */
    method CopyAndDecide(t: nat, copy: Copy, decided: bool) returns (r: Outcome)
      requires Valid() && t in calls && calls[t].restore && !calls[t].acted
      modifies this
      ensures Valid() && old(trace) < trace && t !in calls
      ensures GoesOn(Own(old(trace), t), Own(trace, t), CopyBack(t, copy), t,
                     copy.Copied? && old(calls[t].row.stored in files), decided, r)
    {
      var ok := PutBack(t, copy);
      if !ok {
        return Refused;
      }
      Others(t);
      r := SetDecision(t, decided);
    }

    /** Removes a file for good, in three steps as well. */
    method Delete(t: nat, id: string, unlinked: bool, decided: bool) returns (r: Outcome, ghost at: nat)
      requires Valid() && t !in calls && t !in adds
      modifies this
      ensures Valid() && old(trace) <= trace && t !in calls
      ensures if id !in old(records) then r == Refused && Own(trace, t) == Own(old(trace), t) + [ReadRow(t, false, id)]
              else
                && |old(trace)| < at < |trace|
                && GoesOn(Own(old(trace), t) + [ReadRow(t, false, id)], Own(trace, t), Unlink(t, unlinked), t,
                          unlinked || old(records)[id].stored !in Run(start, trace[..at], hash).files, decided, r)
    {
      at := 0;
      var row := Get(t, false, id);
      if row.None? {
        return Refused, at;
      }
      Others(t);
      at := |trace|;
      ghost var before := trace;
      r := RemoveAndDecide(t, unlinked, decided);
      assert trace[..at] == before;
    }

    /** The last two steps of a delete. */
    method RemoveAndDecide(t: nat, unlinked: bool, decided: bool) returns (r: Outcome)
      requires Valid() && t in calls && !calls[t].restore && !calls[t].acted
      modifies this
      ensures Valid() && old(trace) < trace && t !in calls
      ensures GoesOn(Own(old(trace), t), Own(trace, t), Unlink(t, unlinked), t,
                     unlinked || old(calls[t].row.stored !in files), decided, r)
    {
      var ok := Remove(t, unlinked);
      if !ok {
        return Refused;
      }
      Others(t);
      r := SetDecision(t, decided);
    }

    method CheckRestored(sha: string) returns (found: bool)
      ensures found <==> sha != "" && exists id {:trigger records[id]} :: id in records && records[id].sha == sha && records[id].decision == Restored
      ensures found <==> IsRestored(records, sha)
    {
      if sha == "" {
        return false;
      }
      found := exists id :: id in records && records[id].sha == sha && records[id].decision.Restored?;
    }
  }
}
