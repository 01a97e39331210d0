/**
 * The quarantine vault as a machine of atomic steps. An add finds its source, hashes it, copies
 * it, removes it and files a row in five separate steps; a restore or a delete reads its row,
 * works on the file and updates the row in three. Steps of different callers, and what other
 * programs do to files outside the vault, interleave; the theorems are about all such runs.
 */
module Quarantine {
  import opened Options
  import opened Words

  type Bytes = seq<Byte>

  datatype Decision = Pending | Restored | Deleted

  datatype Record = Record(original: string, stored: string, sha: string, decision: Decision)

  /** A call in progress: the row as it was read, at which step, and whether the file was dealt with. */
  datatype Call = Call(restore: bool, id: string, row: Record, begun: nat, acted: bool)

  /** How far an add has come: source found, hashed, copied to the vault, removed. */
  datatype Phase = Found | Measured | Duplicated | Moved

  /**
   * An add in progress: its source, id and hash. `hashed` and `copied` say which bytes were hashed
   * and which were copied, and `copiedAt` at which step; no step looks at them.
   */
  datatype Adding = Adding(src: string, id: string, sha: string, phase: Phase, hashed: Option<Bytes>, copied: Bytes, copiedAt: nat)

  /** `origins` remembers the add each row came from; no step looks at it. */
  datatype State = State(dir: string, files: map<string, Bytes>, records: map<string, Record>,
                         calls: map<nat, Call>, adds: map<nat, Adding>, origins: map<string, Adding>, clock: nat)

  /** How a file copy ends: a failed one may have left something at its target. */
  datatype Copy = Copied | Failed(left: Option<Bytes>)

  /** The parts of an add, with what the calls they make answer. */
  datatype Part =
    | Begin(src: string, id: string)
    | Measure(readable: bool)
    | Duplicate(copy: Copy, cleaned: bool)
    | Take(unlinked: bool, cleaned: bool)
    | File(inserted: bool, cleaned: bool)

  datatype Action =
    | Adder(caller: nat, part: Part)
    | ReadRow(caller: nat, restore: bool, id: string)
    | CopyBack(caller: nat, copy: Copy)
    | Unlink(caller: nat, unlinked: bool)
    | Decide(caller: nat, decided: bool)
    | Touch(path: string, contents: Option<Bytes>) // any other program, writing or removing a file

  datatype Outcome = Done | Refused | Raised

  /** The last component of a path. */
  function FileName(path: string): string {
    if path == "" || path[|path| - 1] == '/' then ""
    else FileName(path[..|path| - 1]) + [path[|path| - 1]]
  }

  function Stored(dir: string, id: string, src: string): string {
    dir + "/" + id + "_" + FileName(src)
  }

  predicate Outside(dir: string, path: string) {
    !(dir + "/" <= path)
  }

  function Put(files: map<string, Bytes>, path: string, left: Option<Bytes>): map<string, Bytes> {
    match left case None => files case Some(b) => files[path := b]
  }

  function Decided(records: map<string, Record>, id: string, decision: Decision): map<string, Record> {
    if id in records then records[id := records[id].(decision := decision)] else records
  }

  // ---------- The steps ----------

  /** The hash of what was read, empty when nothing was. */
  function Sha(read: Option<Bytes>, hash: Bytes -> string): string {
    match read case None => "" case Some(b) => hash(b)
  }

  /** Where an add's copy goes. */
  function Dest(v: State, c: Adding): string {
    Stored(v.dir, c.id, c.src)
  }

  /** An add that fails removes its copy and ends; when that fails too, the copy stays. */
  function CleanUp(v: State, t: nat, cleaned: bool): State
    requires t in v.adds
  {
    v.(files := if cleaned then v.files - {Dest(v, v.adds[t])} else v.files, adds := v.adds - {t})
  }

  /** An add finds its source. */
  function BeginStep(v: State, t: nat, src: string, id: string): State {
    if t in v.calls || t in v.adds || src !in v.files then v
    else v.(adds := v.adds[t := Adding(src, id, "", Found, None, [], 0)])
  }

  /** It hashes the source as it is now, if it can be read. */
  function MeasureStep(v: State, t: nat, readable: bool, hash: Bytes -> string): State {
    if t !in v.adds || !v.adds[t].phase.Found? then v
    else
      var c := v.adds[t];
      var read := if readable && c.src in v.files then Some(v.files[c.src]) else None;
      v.(adds := v.adds[t := c.(sha := Sha(read, hash), hashed := read, phase := Measured)])
  }

  /** It copies the source as it is now to the vault. */
  function DuplicateStep(v: State, t: nat, copy: Copy, cleaned: bool): State {
    if t !in v.adds || !v.adds[t].phase.Measured? then v
    else
      var c := v.adds[t];
      if c.src !in v.files then CleanUp(v, t, cleaned)
      else if copy.Failed? then CleanUp(v.(files := Put(v.files, Dest(v, c), copy.left)), t, cleaned)
      else
        v.(files := v.files[Dest(v, c) := v.files[c.src]],
           adds := v.adds[t := c.(copied := v.files[c.src], copiedAt := v.clock, phase := Duplicated)])
  }

  /** It removes the source, whatever it is by now. */
  function TakeStep(v: State, t: nat, unlinked: bool, cleaned: bool): State {
    if t !in v.adds || !v.adds[t].phase.Duplicated? then v
    else if !unlinked then CleanUp(v, t, cleaned)
    else v.(files := v.files - {v.adds[t].src}, adds := v.adds[t := v.adds[t].(phase := Moved)])
  }

  /** It files the row. */
  function FileStep(v: State, t: nat, inserted: bool, cleaned: bool): State {
    if t !in v.adds || !v.adds[t].phase.Moved? then v
    else
      var c := v.adds[t];
      if !inserted || c.id in v.records then CleanUp(v, t, cleaned)
      else
        v.(records := v.records[c.id := Record(c.src, Dest(v, c), c.sha, Pending)],
           origins := v.origins[c.id := c], adds := v.adds - {t})
  }

  /** A caller reads its row; a restore goes no further when it is DELETED. */
  function ReadStep(v: State, t: nat, restore: bool, id: string): State {
    if t in v.calls || t in v.adds || id !in v.records || (restore && v.records[id].decision.Deleted?) then v
    else v.(calls := v.calls[t := Call(restore, id, v.records[id], v.clock, false)])
  }

  /** A restore copies the vault's file to the original path, if it is still there. */
  function CopyStep(v: State, t: nat, copy: Copy): State {
    if t !in v.calls || !v.calls[t].restore || v.calls[t].acted then v
    else
      var row := v.calls[t].row;
      if row.stored !in v.files then v.(calls := v.calls - {t})
      else if copy.Failed? then v.(files := Put(v.files, row.original, copy.left), calls := v.calls - {t})
      else v.(files := v.files[row.original := v.files[row.stored]], calls := v.calls[t := v.calls[t].(acted := true)])
  }

  /** A delete removes the vault's file, if it is still there. */
  function UnlinkStep(v: State, t: nat, unlinked: bool): State {
    if t !in v.calls || v.calls[t].restore || v.calls[t].acted then v
    else
      var stored := v.calls[t].row.stored;
      if stored in v.files && !unlinked then v.(calls := v.calls - {t})
      else v.(files := v.files - {stored}, calls := v.calls[t := v.calls[t].(acted := true)])
  }

  /** A caller updates the row, whatever it says by now. */
  function DecideStep(v: State, t: nat, decided: bool): State {
    if t !in v.calls || !v.calls[t].acted then v
    else
      var c := v.calls[t];
      v.(records := if decided then Decided(v.records, c.id, if c.restore then Restored else Deleted) else v.records,
         calls := v.calls - {t})
  }

  function AddEffect(v: State, t: nat, part: Part, hash: Bytes -> string): State {
    match part
    case Begin(src, id) => BeginStep(v, t, src, id)
    case Measure(readable) => MeasureStep(v, t, readable, hash)
    case Duplicate(copy, cleaned) => DuplicateStep(v, t, copy, cleaned)
    case Take(unlinked, cleaned) => TakeStep(v, t, unlinked, cleaned)
    case File(inserted, cleaned) => FileStep(v, t, inserted, cleaned)
  }

  function Effect(v: State, a: Action, hash: Bytes -> string): State {
    match a
    case Adder(t, part) => AddEffect(v, t, part, hash)
    case ReadRow(t, restore, id) => ReadStep(v, t, restore, id)
    case CopyBack(t, copy) => CopyStep(v, t, copy)
    case Unlink(t, unlinked) => UnlinkStep(v, t, unlinked)
    case Decide(t, decided) => DecideStep(v, t, decided)
    case Touch(path, contents) => v.(files := if contents.Some? then v.files[path := contents.value] else v.files - {path})
  }

  function Step(v: State, a: Action, hash: Bytes -> string): State {
    Effect(v, a, hash).(clock := v.clock + 1)
  }

  function Run(v: State, es: seq<Action>, hash: Bytes -> string): State {
    if es == [] then v else Step(Run(v, es[..|es| - 1], hash), es[|es| - 1], hash)
  }

  // ---------- What holds whatever the environment does ----------

  /** Calls are none of an add's business, and rows only when it files a new one. */
  lemma AddLeaves(v: State, t: nat, part: Part, hash: Bytes -> string)
    ensures var w := AddEffect(v, t, part, hash);
            && w.calls == v.calls && w.dir == v.dir && w.clock == v.clock
            && (!part.File? ==> w.records == v.records && w.origins == v.origins)
            && (forall id {:trigger v.records[id]} :: id in v.records ==> id in w.records && w.records[id] == v.records[id])
            && (forall id {:trigger v.origins[id]} :: id in v.records && id in v.origins ==> id in w.origins && w.origins[id] == v.origins[id])
  {
  }

  /** A row is never removed and its identity never changes. */
  lemma StepKeepsRow(v: State, a: Action, hash: Bytes -> string, id: string)
    requires id in v.records
    ensures var w := Step(v, a, hash);
            && id in w.records && w.dir == v.dir
            && w.records[id].(decision := Pending) == v.records[id].(decision := Pending)
  {
    if a.Adder? {
      AddLeaves(v, a.caller, a.part, hash);
    }
  }

  lemma StepKeepsDir(v: State, a: Action, hash: Bytes -> string)
    ensures Step(v, a, hash).dir == v.dir
  {
    if a.Adder? {
      AddLeaves(v, a.caller, a.part, hash);
    }
  }

  lemma {:induction false} RunKeepsRow(v: State, es: seq<Action>, hash: Bytes -> string, id: string)
    requires id in v.records
    ensures var w := Run(v, es, hash);
            && id in w.records && w.dir == v.dir
            && w.records[id].(decision := Pending) == v.records[id].(decision := Pending)
  {
    if es != [] {
      RunKeepsRow(v, es[..|es| - 1], hash, id);
      StepKeepsRow(Run(v, es[..|es| - 1], hash), es[|es| - 1], hash, id);
    }
  }

  predicate IsDeleted(v: State, id: string) {
    id in v.records && v.records[id].decision.Deleted?
  }

  /** The step writes this decision into the row: a restore's or a delete's last one. */
  predicate Writes(v: State, a: Action, id: string, restore: bool) {
    a.Decide? && a.decided && a.caller in v.calls && v.calls[a.caller].acted &&
    v.calls[a.caller].id == id && v.calls[a.caller].restore == restore
  }

  /** Only a delete's decision makes a row DELETED, and only a restore's decision makes it anything else again. */
  lemma WhoDecides(v: State, a: Action, hash: Bytes -> string, id: string)
    requires id in v.records
    ensures !IsDeleted(v, id) && IsDeleted(Step(v, a, hash), id) ==> Writes(v, a, id, false)
    ensures IsDeleted(v, id) && !IsDeleted(Step(v, a, hash), id) ==> Writes(v, a, id, true)
    ensures Writes(v, a, id, false) ==> IsDeleted(Step(v, a, hash), id)
    ensures Writes(v, a, id, true) ==> !IsDeleted(Step(v, a, hash), id)
  {
    if a.Adder? {
      AddLeaves(v, a.caller, a.part, hash);
    }
  }

  // ---------- When DELETED is absorbing ----------

  /** The state after `n` steps of a run. */
  function After(v: State, es: seq<Action>, n: nat, hash: Bytes -> string): State
    requires n <= |es|
  {
    Run(v, es[..n], hash)
  }

  lemma AfterNext(v: State, es: seq<Action>, n: nat, hash: Bytes -> string)
    requires n < |es|
    ensures After(v, es, n + 1, hash) == Step(After(v, es, n, hash), es[n], hash)
  {
    assert es[..n + 1][..n] == es[..n];
  }

  /** Nothing is in progress yet. */
  predicate Fresh(v: State) {
    v.calls == map[] && v.adds == map[] && v.clock == 0
  }

  /** A call in progress began with the step it remembers; a restore's row was not DELETED then. */
  ghost predicate Began(v: State, es: seq<Action>, n: nat, hash: Bytes -> string, t: nat, c: Call)
    requires n <= |es|
  {
    && c.begun < n && es[c.begun] == ReadRow(t, c.restore, c.id)
    && c.id in After(v, es, c.begun, hash).records
    && (c.restore ==> !IsDeleted(After(v, es, c.begun, hash), c.id))
  }

  /** A call that was not in progress before a step was begun by it. */
  lemma NewCall(v: State, a: Action, hash: Bytes -> string, t: nat)
    requires t in Step(v, a, hash).calls && t !in v.calls
    ensures var c := Step(v, a, hash).calls[t];
            && a == ReadRow(t, c.restore, c.id) && c.id in v.records && c.begun == v.clock && !c.acted
            && c.row == v.records[c.id] && (c.restore ==> !IsDeleted(v, c.id))
  {
    if a.Adder? {
      AddLeaves(v, a.caller, a.part, hash);
    }
  }

  /** One that was stays the same, but for having acted. */
  lemma OldCall(v: State, a: Action, hash: Bytes -> string, t: nat)
    requires t in Step(v, a, hash).calls && t in v.calls
    ensures Step(v, a, hash).calls[t].(acted := false) == v.calls[t].(acted := false)
  {
    if a.Adder? {
      AddLeaves(v, a.caller, a.part, hash);
    }
  }

  /** A call in progress after a step was so before, or the step began it. */
  lemma StepCalls(v: State, a: Action, hash: Bytes -> string, t: nat)
    requires t in Step(v, a, hash).calls
    ensures var c := Step(v, a, hash).calls[t];
            if a.ReadRow? && a.caller == t && t !in v.calls then
              && a == ReadRow(t, c.restore, c.id) && c.id in v.records && c.begun == v.clock && !c.acted
              && c.row == v.records[c.id] && (c.restore ==> !IsDeleted(v, c.id))
            else t in v.calls && c.(acted := false) == v.calls[t].(acted := false)
  {
    if t in v.calls {
      OldCall(v, a, hash, t);
    } else {
      NewCall(v, a, hash, t);
    }
  }

  lemma {:induction false} CallsBegan(v: State, es: seq<Action>, n: nat, hash: Bytes -> string)
    requires Fresh(v) && n <= |es|
    ensures After(v, es, n, hash).clock == n
    ensures forall t {:trigger After(v, es, n, hash).calls[t]} :: t in After(v, es, n, hash).calls ==>
              Began(v, es, n, hash, t, After(v, es, n, hash).calls[t])
  {
    if n > 0 {
      var before, a := After(v, es, n - 1, hash), es[n - 1];
      CallsBegan(v, es, n - 1, hash);
      AfterNext(v, es, n - 1, hash);
      var after := After(v, es, n, hash);
      forall t | t in after.calls ensures Began(v, es, n, hash, t, after.calls[t]) {
        StepCalls(before, a, hash, t);
        if a.ReadRow? && a.caller == t && t !in before.calls {
          assert after.calls[t].begun == n - 1;
        } else {
          assert Began(v, es, n - 1, hash, t, before.calls[t]);
        }
      }
    }
  }

  /** A row that is DELETED at one point of the run and not at a later one. */
  ghost predicate Revived(v: State, es: seq<Action>, hash: Bytes -> string, id: string) {
    exists i, j :: 0 <= i < j <= |es| && IsDeleted(After(v, es, i, hash), id) && !IsDeleted(After(v, es, j, hash), id)
  }

  /** A restore of the row read it at `r` and decided at `w`, and a DELETED decision fell in between, at `d`. */
  ghost predicate OvertakenAt(v: State, es: seq<Action>, hash: Bytes -> string, id: string, r: nat, d: nat, w: nat) {
    && r < d < w < |es|
    && es[w].Decide? && es[r] == ReadRow(es[w].caller, true, id)
    && Writes(After(v, es, d, hash), es[d], id, false)
    && Writes(After(v, es, w, hash), es[w], id, true)
    && After(v, es, w, hash).calls[es[w].caller].begun == r
  }

  ghost predicate Overtaken(v: State, es: seq<Action>, hash: Bytes -> string, id: string) {
    exists r: nat, d: nat, w: nat :: OvertakenAt(v, es, hash, id, r, d, w)
  }

  /** Between a point where the row is not DELETED and a later one where it is (or the other way round) lies the step that changes it. */
  lemma ChangeBetween(v: State, es: seq<Action>, hash: Bytes -> string, id: string, lo: nat, hi: nat) returns (k: nat)
    requires lo <= hi <= |es| && IsDeleted(After(v, es, lo, hash), id) != IsDeleted(After(v, es, hi, hash), id)
    ensures lo <= k < hi
    ensures IsDeleted(After(v, es, k, hash), id) == IsDeleted(After(v, es, lo, hash), id)
    ensures IsDeleted(After(v, es, k + 1, hash), id) != IsDeleted(After(v, es, lo, hash), id)
  {
    var deleted := seq(|es| + 1, n requires 0 <= n < |es| + 1 => IsDeleted(After(v, es, n, hash), id));
    k := LastChangeBetween(deleted, lo, hi);
    assert deleted[k + 1] == deleted[hi] && deleted[k] != deleted[k + 1];
  }

  lemma RowStaysNext(v: State, es: seq<Action>, hash: Bytes -> string, id: string, n: nat)
    requires n < |es| && id in After(v, es, n, hash).records
    ensures id in After(v, es, n + 1, hash).records
  {
    AfterNext(v, es, n, hash);
    StepKeepsRow(After(v, es, n, hash), es[n], hash, id);
  }

  lemma {:induction false} RowsStay(v: State, es: seq<Action>, hash: Bytes -> string, id: string, m: nat, n: nat)
    requires m <= n <= |es| && id in After(v, es, m, hash).records
    ensures id in After(v, es, n, hash).records
    decreases n
  {
    if m < n {
      RowsStay(v, es, hash, id, m, n - 1);
      RowStaysNext(v, es, hash, id, n - 1);
    }
  }

  lemma RevivedIsOvertaken(v: State, es: seq<Action>, hash: Bytes -> string, id: string)
    requires Fresh(v) && Revived(v, es, hash, id)
    ensures Overtaken(v, es, hash, id)
  {
    var i, j :| 0 <= i < j <= |es| && IsDeleted(After(v, es, i, hash), id) && !IsDeleted(After(v, es, j, hash), id);
    var w := ChangeBetween(v, es, hash, id, i, j);
    AfterNext(v, es, w, hash);
    WhoDecides(After(v, es, w, hash), es[w], hash, id);
    CallsBegan(v, es, w, hash);
    var c := After(v, es, w, hash).calls[es[w].caller];
    assert Began(v, es, w, hash, es[w].caller, c);
    var d := ChangeBetween(v, es, hash, id, c.begun, w);
    RowsStay(v, es, hash, id, c.begun, d);
    AfterNext(v, es, d, hash);
    WhoDecides(After(v, es, d, hash), es[d], hash, id);
    assert d != c.begun;
    assert OvertakenAt(v, es, hash, id, c.begun, d, w);
  }

  lemma OvertakenIsRevived(v: State, es: seq<Action>, hash: Bytes -> string, id: string, r: nat, d: nat, w: nat)
    requires Fresh(v) && OvertakenAt(v, es, hash, id, r, d, w)
    ensures Revived(v, es, hash, id)
  {
    CallsBegan(v, es, d, hash);
    var c := After(v, es, d, hash).calls[es[d].caller];
    assert Began(v, es, d, hash, es[d].caller, c);
    RowsStay(v, es, hash, id, c.begun, d);
    RowsStay(v, es, hash, id, d, w);
    AfterNext(v, es, d, hash);
    AfterNext(v, es, w, hash);
    WhoDecides(After(v, es, d, hash), es[d], hash, id);
    WhoDecides(After(v, es, w, hash), es[w], hash, id);
    assert IsDeleted(After(v, es, d + 1, hash), id) && !IsDeleted(After(v, es, w + 1, hash), id);
  }

  /**
   * DELETED is absorbing for a row, over a run of any interleaving and any environment, exactly
   * when no DELETED decision on it falls between a restore's reading of it and that restore's decision.
   */
  lemma DeletedIsAbsorbingIff(v: State, es: seq<Action>, hash: Bytes -> string, id: string)
    requires Fresh(v)
    ensures !Revived(v, es, hash, id) <==> !Overtaken(v, es, hash, id)
  {
    if Revived(v, es, hash, id) {
      RevivedIsOvertaken(v, es, hash, id);
    }
    if Overtaken(v, es, hash, id) {
      var r: nat, d: nat, w: nat :| OvertakenAt(v, es, hash, id, r, d, w);
      OvertakenIsRevived(v, es, hash, id, r, d, w);
    }
  }

  // ---------- What the vault keeps ----------

  /** The row's file is the one its id names in the vault, and its original lies outside. */
  ghost predicate Placed(v: State, id: string, row: Record) {
    |id| == 16 && row.stored == Stored(v.dir, id, row.original) && Outside(v.dir, row.original)
  }

  predicate Deleting(c: Call, id: string) {
    !c.restore && c.acted && c.id == id
  }

  ghost predicate BeingDeleted(v: State, id: string) {
    exists t {:trigger v.calls[t]} :: t in v.calls && Deleting(v.calls[t], id)
  }

  predicate InVault(v: State, id: string) {
    id in v.records && v.records[id].stored in v.files
  }

  /** An add in progress has an id of its own, a source outside, and, once made, its copy in the vault. */
  ghost predicate AddPlaced(v: State, t: nat)
    requires t in v.adds
  {
    var c := v.adds[t];
    && |c.id| == 16 && c.id !in v.records && Outside(v.dir, c.src)
    && (forall u {:trigger v.adds[u]} :: u in v.adds && u != t ==> v.adds[u].id != c.id)
    && (c.phase.Duplicated? || c.phase.Moved? ==> Dest(v, c) in v.files && v.files[Dest(v, c)] == c.copied)
  }

  ghost predicate Inv(v: State) {
    && (forall t {:trigger AddPlaced(v, t)} :: t in v.adds ==> AddPlaced(v, t))
    && (forall id {:trigger v.records[id]} :: id in v.records ==> Placed(v, id, v.records[id]))
    && (forall t {:trigger v.calls[t]} :: t in v.calls ==>
          v.calls[t].id in v.records && v.calls[t].row.(decision := Pending) == v.records[v.calls[t].id].(decision := Pending))
    && (forall id {:trigger IsDeleted(v, id)} :: IsDeleted(v, id) ==> !InVault(v, id))
    && (forall t {:trigger v.calls[t]} :: t in v.calls && Deleting(v.calls[t], v.calls[t].id) ==> !InVault(v, v.calls[t].id))
  }

  /** Ids are fresh and 16 characters long, sources lie outside the vault, and no other program touches it. */
  ghost predicate Fits(v: State, a: Action) {
    match a
    case Adder(_, Begin(src, id)) =>
      && |id| == 16 && id !in v.records && Outside(v.dir, src)
      && forall t {:trigger v.adds[t]} :: t in v.adds ==> v.adds[t].id != id
    case Touch(path, _) => Outside(v.dir, path)
    case _ => true
  }

  /** Two ids of one length never share a file, whatever the names behind them. */
  lemma StoredInjective(dir: string, id: string, src: string, id': string, src': string)
    requires |id| == |id'| && Stored(dir, id, src) == Stored(dir, id', src')
    ensures id == id'
  {
    var n := |dir| + 1;
    assert Stored(dir, id, src)[n..n + |id|] == id;
    assert Stored(dir, id', src')[n..n + |id|] == id';
  }

  lemma {:induction false} FileNameIs(parent: string, name: string)
    requires '/' !in name
    ensures FileName(parent + "/" + name) == name
    decreases |name|
  {
    var path := parent + "/" + name;
    if name != [] {
      var front := name[..|name| - 1];
      FileNameIs(parent, front);
      assert path[..|path| - 1] == parent + "/" + front;
    }
  }

  /** A vault file is named after its id and the last component of the path it came from. */
  lemma StoredIs(dir: string, id: string, parent: string, name: string)
    requires '/' !in name
    ensures Stored(dir, id, parent + "/" + name) == dir + "/" + id + "_" + name
  {
    FileNameIs(parent, name);
  }

  lemma StoredInside(dir: string, id: string, src: string)
    ensures !Outside(dir, Stored(dir, id, src))
  {
    assert Stored(dir, id, src) == dir + "/" + (id + "_" + FileName(src));
  }

  /** The path holds the same in both states. */
  predicate Same(v: State, w: State, path: string) {
    (path in w.files <==> path in v.files) && (path in v.files ==> w.files[path] == v.files[path])
  }

  lemma DuplicateTouches(v: State, t: nat, copy: Copy, cleaned: bool, path: string)
    requires t in v.adds ==> path != Dest(v, v.adds[t])
    ensures Same(v, DuplicateStep(v, t, copy, cleaned), path)
  {
  }

  lemma TakeTouches(v: State, t: nat, unlinked: bool, cleaned: bool, path: string)
    requires t in v.adds ==> path != v.adds[t].src && path != Dest(v, v.adds[t])
    ensures Same(v, TakeStep(v, t, unlinked, cleaned), path)
  {
  }

  /** Files an add may change: its source and its copy. */
  lemma AddTouches(v: State, t: nat, part: Part, hash: Bytes -> string, path: string)
    requires t in v.adds ==> path != v.adds[t].src && path != Dest(v, v.adds[t])
    ensures Same(v, AddEffect(v, t, part, hash), path)
  {
    match part
    case Duplicate(copy, cleaned) => DuplicateTouches(v, t, copy, cleaned, path);
    case Take(unlinked, cleaned) => TakeTouches(v, t, unlinked, cleaned, path);
    case _ =>
  }

  lemma AddKeepsVault(v: State, a: Action, hash: Bytes -> string, id: string)
    requires Inv(v) && a.Adder? && id in v.records
    ensures var w, stored := Step(v, a, hash), v.records[id].stored;
            (stored in w.files <==> stored in v.files) && (stored in v.files ==> w.files[stored] == v.files[stored])
  {
    var row := v.records[id];
    assert Placed(v, id, row);
    StoredInside(v.dir, id, row.original);
    if a.caller in v.adds {
      var c := v.adds[a.caller];
      assert AddPlaced(v, a.caller);
      if Dest(v, c) == row.stored {
        StoredInjective(v.dir, c.id, c.src, id, row.original);
      }
    }
    AddTouches(v, a.caller, a.part, hash, row.stored);
  }

  /** The files a step of a restore, a delete or another program may change. */
  predicate Aims(v: State, a: Action, path: string) {
    match a
    case CopyBack(t, _) => t in v.calls && v.calls[t].row.original == path
    case Unlink(t, _) => t in v.calls && v.calls[t].row.stored == path
    case Touch(p, _) => p == path
    case _ => false
  }

  lemma AimsElsewhere(v: State, a: Action, hash: Bytes -> string, path: string)
    requires !a.Adder? && !Aims(v, a, path)
    ensures var w := Step(v, a, hash);
            (path in w.files <==> path in v.files) && (path in v.files ==> w.files[path] == v.files[path])
  {
  }

  /** Files of the vault change in one way only: a row's own file is removed by a delete of that row. */
  lemma StepKeepsVault(v: State, a: Action, hash: Bytes -> string, id: string)
    requires Inv(v) && Fits(v, a) && id in v.records
    ensures var w, stored := Step(v, a, hash), v.records[id].stored;
            && (stored in w.files ==> stored in v.files && w.files[stored] == v.files[stored])
            && (stored in v.files && stored !in w.files ==>
                  a.Unlink? && a.caller in v.calls && v.calls[a.caller].id == id && a.caller in w.calls && Deleting(w.calls[a.caller], id))
  {
    if a.Adder? {
      AddKeepsVault(v, a, hash, id);
    } else {
      OnlyItsDeleteAims(v, a, id);
      if Aims(v, a, v.records[id].stored) {
        assert Step(v, a, hash) == UnlinkStep(v, a.caller, a.unlinked).(clock := v.clock + 1);
      } else {
        AimsElsewhere(v, a, hash, v.records[id].stored);
      }
    }
  }

  /** Of those, only a delete of the row aims at the row's file. */
  lemma OnlyItsDeleteAims(v: State, a: Action, id: string)
    requires Inv(v) && Fits(v, a) && id in v.records && !a.Adder?
    ensures Aims(v, a, v.records[id].stored) ==> a.Unlink? && v.calls[a.caller].id == id
  {
    var row := v.records[id];
    assert Placed(v, id, row);
    StoredInside(v.dir, id, row.original);
    if (a.CopyBack? || a.Unlink?) && a.caller in v.calls {
      var o := v.calls[a.caller];
      assert Placed(v, o.id, v.records[o.id]);
      if o.row.stored == row.stored {
        StoredInjective(v.dir, o.id, o.row.original, id, row.original);
      }
    }
  }

  lemma StepKeepsPlaced(v: State, a: Action, hash: Bytes -> string)
    requires Inv(v) && Fits(v, a)
    ensures var w := Step(v, a, hash);
            && (forall id {:trigger w.records[id]} :: id in w.records ==> Placed(w, id, w.records[id]))
            && (forall t {:trigger w.calls[t]} :: t in w.calls ==>
                  w.calls[t].id in w.records && w.calls[t].row.(decision := Pending) == w.records[w.calls[t].id].(decision := Pending))
  {
    var w := Step(v, a, hash);
    forall id | id in w.records ensures Placed(w, id, w.records[id]) {
      if id in v.records {
        StepKeepsRow(v, a, hash, id);
      } else {
        NewRow(v, a, hash, id);
        assert AddPlaced(v, a.caller);
      }
    }
    forall t | t in w.calls
      ensures w.calls[t].id in w.records && w.calls[t].row.(decision := Pending) == w.records[w.calls[t].id].(decision := Pending)
    {
      StepCalls(v, a, hash, t);
      StepKeepsRow(v, a, hash, w.calls[t].id);
    }
  }

  /** What a part of an add makes of the adds in progress: of its own, and of the others nothing. */
  lemma PartAdds(v: State, t: nat, part: Part, hash: Bytes -> string, u: nat)
    requires u in AddEffect(v, t, part, hash).adds
    ensures var c := AddEffect(v, t, part, hash).adds[u];
            if u in v.adds then c.src == v.adds[u].src && c.id == v.adds[u].id && (u == t || c == v.adds[u])
            else u == t && part == Begin(c.src, c.id) && c.phase.Found? && c.src in v.files
  {
  }

  /** An add in progress after a step was so before, further on or not, or the step began it. */
  lemma StepAdds(v: State, a: Action, hash: Bytes -> string, t: nat)
    requires t in Step(v, a, hash).adds
    ensures var c := Step(v, a, hash).adds[t];
            if t in v.adds then
              && c.src == v.adds[t].src && c.id == v.adds[t].id
              && ((a.Adder? && a.caller == t) || c == v.adds[t])
            else a == Adder(t, Begin(c.src, c.id)) && c.phase.Found? && c.src in v.files
  {
    if a.Adder? {
      PartAdds(v, a.caller, a.part, hash, t);
    }
  }

  lemma NobodyAimsAtCopy(v: State, a: Action, t: nat)
    requires Inv(v) && Fits(v, a) && t in v.adds && !a.Adder?
    ensures !Aims(v, a, Dest(v, v.adds[t]))
  {
    var c := v.adds[t];
    assert AddPlaced(v, t);
    StoredInside(v.dir, c.id, c.src);
    if (a.CopyBack? || a.Unlink?) && a.caller in v.calls {
      var o := v.calls[a.caller];
      assert Placed(v, o.id, v.records[o.id]);
      if o.row.stored == Dest(v, c) {
        StoredInjective(v.dir, o.id, o.row.original, c.id, c.src);
      }
    }
  }

  /** Its copy, once made, is left alone by everybody else. */
  lemma CopyStays(v: State, a: Action, hash: Bytes -> string, t: nat)
    requires Inv(v) && Fits(v, a) && t in v.adds && !(a.Adder? && a.caller == t)
    ensures var w, dest := Step(v, a, hash), Dest(v, v.adds[t]);
            (dest in w.files <==> dest in v.files) && (dest in v.files ==> w.files[dest] == v.files[dest])
  {
    var dest := Dest(v, v.adds[t]);
    if !a.Adder? {
      NobodyAimsAtCopy(v, a, t);
      AimsElsewhere(v, a, hash, dest);
    } else {
      AddsApart(v, a, t);
      AddTouches(v, a.caller, a.part, hash, dest);
    }
  }

  lemma AddsApart(v: State, a: Action, t: nat)
    requires Inv(v) && t in v.adds && a.Adder? && a.caller != t
    ensures a.caller in v.adds ==> Dest(v, v.adds[t]) != v.adds[a.caller].src && Dest(v, v.adds[t]) != Dest(v, v.adds[a.caller])
  {
    if a.caller in v.adds {
      var c, o := v.adds[t], v.adds[a.caller];
      assert AddPlaced(v, t) && AddPlaced(v, a.caller);
      StoredInside(v.dir, c.id, c.src);
      if Dest(v, o) == Dest(v, c) {
        StoredInjective(v.dir, o.id, o.src, c.id, c.src);
      }
    }
  }

  lemma TakeKeepsCopy(v: State, t: nat, unlinked: bool, cleaned: bool)
    requires Inv(v) && t in v.adds && t in TakeStep(v, t, unlinked, cleaned).adds
    ensures var w := TakeStep(v, t, unlinked, cleaned);
            var c := w.adds[t];
            c.phase.Duplicated? || c.phase.Moved? ==> Dest(v, c) in w.files && w.files[Dest(v, c)] == c.copied
  {
    assert AddPlaced(v, t);
    StoredInside(v.dir, v.adds[t].id, v.adds[t].src);
  }

  lemma DuplicateMakesCopy(v: State, t: nat, copy: Copy, cleaned: bool)
    requires Inv(v) && t in v.adds && t in DuplicateStep(v, t, copy, cleaned).adds
    ensures var w := DuplicateStep(v, t, copy, cleaned);
            var c := w.adds[t];
            c.phase.Duplicated? || c.phase.Moved? ==> Dest(v, c) in w.files && w.files[Dest(v, c)] == c.copied
  {
    assert AddPlaced(v, t);
  }

  lemma OwnStepKeepsCopy(v: State, t: nat, part: Part, hash: Bytes -> string)
    requires Inv(v) && t in v.adds && t in AddEffect(v, t, part, hash).adds
    ensures var w := AddEffect(v, t, part, hash);
            var c := w.adds[t];
            c.phase.Duplicated? || c.phase.Moved? ==> Dest(v, c) in w.files && w.files[Dest(v, c)] == c.copied
  {
    match part
    case Take(unlinked, cleaned) => TakeKeepsCopy(v, t, unlinked, cleaned);
    case Duplicate(copy, cleaned) => DuplicateMakesCopy(v, t, copy, cleaned);
    case _ => assert AddPlaced(v, t);
  }

  /** A step makes at most one row, and then of an add that ends with it. */
  lemma NewRow(v: State, a: Action, hash: Bytes -> string, id: string)
    requires id in Step(v, a, hash).records && id !in v.records
    ensures a.Adder? && a.part.File? && a.caller in v.adds && v.adds[a.caller].id == id && a.caller !in Step(v, a, hash).adds
    ensures var w, c := Step(v, a, hash), v.adds[a.caller];
            && c.phase.Moved? && w.files == v.files && w.origins == v.origins[id := c]
            && w.records[id] == Record(c.src, Dest(v, c), c.sha, Pending)
  {
    if a.Adder? {
      AddLeaves(v, a.caller, a.part, hash);
      assert a.part.File?;
    }
  }

  lemma StepKeepsAdds(v: State, a: Action, hash: Bytes -> string, t: nat)
    requires Inv(v) && Fits(v, a) && t in Step(v, a, hash).adds
    ensures AddPlaced(Step(v, a, hash), t)
  {
    var w := Step(v, a, hash);
    var c := w.adds[t];
    StepKeepsDir(v, a, hash);
    StepAdds(v, a, hash, t);
    if t in v.adds {
      assert AddPlaced(v, t);
      if a.Adder? && a.caller == t {
        OwnStepKeepsCopy(v, t, a.part, hash);
      } else {
        CopyStays(v, a, hash, t);
      }
    }
    assert c.id !in w.records by {
      if c.id in w.records && c.id !in v.records {
        NewRow(v, a, hash, c.id);
      }
    }
    forall u | u in w.adds && u != t ensures w.adds[u].id != c.id {
      StepAdds(v, a, hash, u);
      if u in v.adds {
        assert AddPlaced(v, u);
      }
    }
  }

  lemma StepKeepsInv(v: State, a: Action, hash: Bytes -> string)
    requires Inv(v) && Fits(v, a)
    ensures Inv(Step(v, a, hash))
  {
    var w := Step(v, a, hash);
    StepKeepsPlaced(v, a, hash);
    forall t {:trigger AddPlaced(w, t)} | t in w.adds ensures AddPlaced(w, t) {
      StepKeepsAdds(v, a, hash, t);
    }
    forall id {:trigger IsDeleted(w, id)} | IsDeleted(w, id) ensures !InVault(w, id) {
      DeletedHasNoFile(v, a, hash, id);
    }
    forall t | t in w.calls && Deleting(w.calls[t], w.calls[t].id) ensures !InVault(w, w.calls[t].id) {
      DeletingHasNoFile(v, a, hash, t);
    }
  }

  lemma DeletedHasNoFile(v: State, a: Action, hash: Bytes -> string, id: string)
    requires Inv(v) && Fits(v, a) && IsDeleted(Step(v, a, hash), id)
    ensures !InVault(Step(v, a, hash), id)
  {
    if id in v.records {
      StepKeepsVault(v, a, hash, id);
      StepKeepsRow(v, a, hash, id);
      WhoDecides(v, a, hash, id);
      assert IsDeleted(v, id) || Deleting(v.calls[a.caller], v.calls[a.caller].id);
    }
  }

  lemma DeletingHasNoFile(v: State, a: Action, hash: Bytes -> string, t: nat)
    requires Inv(v) && Fits(v, a)
    requires var w := Step(v, a, hash); t in w.calls && Deleting(w.calls[t], w.calls[t].id)
    ensures var w := Step(v, a, hash); !InVault(w, w.calls[t].id)
  {
    StepCalls(v, a, hash, t);
    var c := v.calls[t];
    StepKeepsRow(v, a, hash, c.id);
    if c.acted {
      StepKeepsVault(v, a, hash, c.id);
      assert Deleting(c, c.id);
    } else {
      ActsByUnlink(v, a, hash, t);
    }
  }

  lemma ActsByUnlink(v: State, a: Action, hash: Bytes -> string, t: nat)
    requires t in v.calls && !v.calls[t].acted && !v.calls[t].restore
    requires t in Step(v, a, hash).calls && Step(v, a, hash).calls[t].acted
    ensures v.calls[t].row.stored !in Step(v, a, hash).files
  {
    if a.Adder? {
      AddLeaves(v, a.caller, a.part, hash);
    }
  }

  /** The row's file, while it is in the vault, holds `b`. */
  ghost predicate Contents(v: State, id: string, b: Bytes) {
    id in v.records && (v.records[id].stored in v.files ==> v.files[v.records[id].stored] == b)
  }

  /** The row is DELETED, or its file is in the vault, or a delete that removed it is about to decide. */
  ghost predicate Kept(v: State, id: string) {
    id in v.records && (IsDeleted(v, id) || InVault(v, id) || BeingDeleted(v, id))
  }

  /** The one kind of step that loses a file: a delete's table update fails, or a restore's undoes DELETED, with no other delete at work. */
  ghost predicate Loses(v: State, a: Action, id: string) {
    && a.Decide? && a.caller in v.calls && v.calls[a.caller].acted && v.calls[a.caller].id == id
    && (if v.calls[a.caller].restore then a.decided && IsDeleted(v, id) else !a.decided && !IsDeleted(v, id))
    && forall t {:trigger v.calls[t]} :: t in v.calls && t != a.caller ==> !Deleting(v.calls[t], id)
  }

  /** One step keeps a row's bytes accounted for exactly when it is not of that kind. */
  lemma StepKeepsBytes(v: State, a: Action, hash: Bytes -> string, id: string, b: Bytes)
    requires Inv(v) && Fits(v, a) && Contents(v, id, b) && Kept(v, id)
    ensures Contents(Step(v, a, hash), id, b)
    ensures Kept(Step(v, a, hash), id) <==> !Loses(v, a, id)
  {
    StepKeepsVault(v, a, hash, id);
    StepKeepsRow(v, a, hash, id);
    if Loses(v, a, id) {
      LosingLoses(v, a, hash, id);
    } else {
      OthersKeep(v, a, hash, id);
    }
  }

  lemma LosingLoses(v: State, a: Action, hash: Bytes -> string, id: string)
    requires Inv(v) && Fits(v, a) && Loses(v, a, id)
    ensures !Kept(Step(v, a, hash), id)
  {
    var c := v.calls[a.caller];
    assert !InVault(v, id) by {
      assert IsDeleted(v, id) || Deleting(c, c.id);
    }
    WhoDecides(v, a, hash, id);
  }

  /** A delete past its removal stays so until it decides. */
  lemma StillDeleting(v: State, a: Action, hash: Bytes -> string, id: string, t: nat)
    requires t in v.calls && Deleting(v.calls[t], id) && !(a.Decide? && a.caller == t)
    ensures BeingDeleted(Step(v, a, hash), id)
  {
    if a.Adder? {
      AddLeaves(v, a.caller, a.part, hash);
    }
    assert Deleting(Step(v, a, hash).calls[t], id);
  }

  /** A delete past its removal decides DELETED, or loses the file, or leaves it to another one. */
  lemma KeptThroughDelete(v: State, a: Action, hash: Bytes -> string, id: string)
    requires Inv(v) && BeingDeleted(v, id) && !IsDeleted(v, id) && !Loses(v, a, id)
    ensures Kept(Step(v, a, hash), id)
  {
    var t :| t in v.calls && Deleting(v.calls[t], id);
    StepKeepsRow(v, a, hash, id);
    if !(a.Decide? && a.caller == t) {
      StillDeleting(v, a, hash, id, t);
    } else if a.decided {
      WhoDecides(v, a, hash, id);
    } else {
      var o :| o in v.calls && o != t && Deleting(v.calls[o], id);
      StillDeleting(v, a, hash, id, o);
    }
  }

  lemma KeptThroughRestore(v: State, a: Action, hash: Bytes -> string, id: string)
    requires IsDeleted(v, id) && !Loses(v, a, id)
    ensures Kept(Step(v, a, hash), id)
  {
    StepKeepsRow(v, a, hash, id);
    WhoDecides(v, a, hash, id);
    if !IsDeleted(Step(v, a, hash), id) {
      var o :| o in v.calls && o != a.caller && Deleting(v.calls[o], id);
      StillDeleting(v, a, hash, id, o);
    }
  }

  lemma OthersKeep(v: State, a: Action, hash: Bytes -> string, id: string)
    requires Inv(v) && Fits(v, a) && Kept(v, id) && !Loses(v, a, id)
    ensures Kept(Step(v, a, hash), id)
  {
    if IsDeleted(v, id) {
      KeptThroughRestore(v, a, hash, id);
    } else if InVault(v, id) {
      StepKeepsVault(v, a, hash, id);
      StepKeepsRow(v, a, hash, id);
    } else {
      KeptThroughDelete(v, a, hash, id);
    }
  }

  /** A run in an environment that keeps to `Fits`. */
  ghost predicate FitsRun(v: State, es: seq<Action>, hash: Bytes -> string) {
    es != [] ==> FitsRun(v, es[..|es| - 1], hash) && Fits(Run(v, es[..|es| - 1], hash), es[|es| - 1])
  }

  ghost predicate NeverLoses(v: State, es: seq<Action>, hash: Bytes -> string, id: string) {
    es != [] ==> NeverLoses(v, es[..|es| - 1], hash, id) && !Loses(Run(v, es[..|es| - 1], hash), es[|es| - 1], id)
  }

  lemma {:induction false} RunKeepsInv(v: State, es: seq<Action>, hash: Bytes -> string)
    requires Inv(v) && FitsRun(v, es, hash)
    ensures Inv(Run(v, es, hash))
  {
    if es != [] {
      RunKeepsInv(v, es[..|es| - 1], hash);
      StepKeepsInv(Run(v, es[..|es| - 1], hash), es[|es| - 1], hash);
    }
  }

  /**
   * Conservation, over any interleaving: a row's file never holds anything but its bytes, and
   * as long as no step loses it the row is DELETED, or the file is there, or it is being deleted.
   */
  lemma {:induction false} RunKeepsBytes(v: State, es: seq<Action>, hash: Bytes -> string, id: string, b: Bytes)
    requires Inv(v) && FitsRun(v, es, hash) && Contents(v, id, b)
    ensures Contents(Run(v, es, hash), id, b)
    ensures Kept(v, id) && NeverLoses(v, es, hash, id) ==> Kept(Run(v, es, hash), id)
  {
    if es != [] {
      var front, a := es[..|es| - 1], es[|es| - 1];
      RunKeepsBytes(v, front, hash, id, b);
      RunKeepsInv(v, front, hash);
      var w := Run(v, front, hash);
      StepKeepsVault(w, a, hash, id);
      StepKeepsRow(w, a, hash, id);
      if Kept(w, id) {
        StepKeepsBytes(w, a, hash, id, b);
      }
    }
  }

  ghost predicate UpdatesSucceed(es: seq<Action>) {
    forall i :: 0 <= i < |es| && es[i].Decide? ==> es[i].decided
  }

  /** With table updates that succeed, only an overtaken restore can lose a file. */
  lemma {:induction false} NeverLosesIf(v: State, es: seq<Action>, hash: Bytes -> string, id: string, n: nat)
    requires Fresh(v) && UpdatesSucceed(es) && !Overtaken(v, es, hash, id) && n <= |es|
    ensures NeverLoses(v, es[..n], hash, id)
  {
    if n > 0 {
      NeverLosesIf(v, es, hash, id, n - 1);
      assert es[..n][..n - 1] == es[..n - 1];
      var s, a := After(v, es, n - 1, hash), es[n - 1];
      if Loses(s, a, id) {
        CallsBegan(v, es, n - 1, hash);
        var c := s.calls[a.caller];
        assert Began(v, es, n - 1, hash, a.caller, c);
        OvertakenBy(v, es, hash, id, c.begun, n - 1);
        assert false;
      }
    }
  }

  lemma OvertakenBy(v: State, es: seq<Action>, hash: Bytes -> string, id: string, r: nat, w: nat)
    requires Fresh(v) && r < w < |es| && es[w].Decide? && es[r] == ReadRow(es[w].caller, true, id)
    requires id in After(v, es, r, hash).records && !IsDeleted(After(v, es, r, hash), id) && IsDeleted(After(v, es, w, hash), id)
    requires Writes(After(v, es, w, hash), es[w], id, true) && After(v, es, w, hash).calls[es[w].caller].begun == r
    ensures Overtaken(v, es, hash, id)
  {
    var d := ChangeBetween(v, es, hash, id, r, w);
    RowsStay(v, es, hash, id, r, d);
    AfterNext(v, es, d, hash);
    WhoDecides(After(v, es, d, hash), es[d], hash, id);
    assert d != r;
    assert OvertakenAt(v, es, hash, id, r, d, w);
  }

  // ---------- What an add does ----------

  /** Until it removes the source, an add never changes it. */
  lemma AddLeavesSource(v: State, t: nat, part: Part, hash: Bytes -> string)
    requires Inv(v) && t in v.adds && !(part.Take? && part.unlinked)
    ensures var w, src := AddEffect(v, t, part, hash), v.adds[t].src;
            (src in w.files <==> src in v.files) && (src in v.files ==> w.files[src] == v.files[src])
  {
    assert AddPlaced(v, t);
    StoredInside(v.dir, v.adds[t].id, v.adds[t].src);
  }

  /** A copy that fails, or finds no source, ends the add: of the vault's files only its own is touched, which is gone if it could be. */
  lemma FailedAddLeaves(v: State, t: nat, copy: Copy, cleaned: bool)
    requires t in v.adds && v.adds[t].phase.Measured? && (copy.Failed? || v.adds[t].src !in v.files)
    ensures var w, c := DuplicateStep(v, t, copy, cleaned), v.adds[t];
            && w.adds == v.adds - {t} && w.records == v.records && w.calls == v.calls
            && (forall path :: path != Dest(v, c) ==> Same(v, w, path))
            && (cleaned ==> Dest(v, c) !in w.files)
            && (!cleaned && c.src in v.files && copy.left.Some? ==> Dest(v, c) in w.files && w.files[Dest(v, c)] == copy.left.value)
            && (!cleaned && (c.src !in v.files || copy.left.None?) ==> Same(v, w, Dest(v, c)))
  {
  }

  /** A restore whose copy fails ends; only the original path is touched, and holds what the copy left there. */
  lemma FailedRestoreLeaves(v: State, t: nat, copy: Copy)
    requires t in v.calls && v.calls[t].restore && !v.calls[t].acted && copy.Failed? && v.calls[t].row.stored in v.files
    ensures var w, row := CopyStep(v, t, copy), v.calls[t].row;
            && w.calls == v.calls - {t} && w.records == v.records && w.adds == v.adds
            && (forall path :: path != row.original ==> Same(v, w, path))
            && (copy.left.Some? ==> row.original in w.files && w.files[row.original] == copy.left.value)
            && (copy.left.None? ==> Same(v, w, row.original))
  {
  }

  /**
   * Removing the source loses what it holds by then exactly when that is not what was copied:
   * the vault's copy is all that is left of it.
   */
  lemma TakeLosesIff(v: State, t: nat)
    requires Inv(v) && t in v.adds && v.adds[t].phase.Duplicated?
    ensures var w, c := TakeStep(v, t, true, true), v.adds[t];
            && c.src !in w.files
            && Dest(v, c) in w.files
            && (c.src in v.files ==> (w.files[Dest(v, c)] == v.files[c.src] <==> v.files[c.src] == c.copied))
  {
    assert AddPlaced(v, t);
    StoredInside(v.dir, v.adds[t].id, v.adds[t].src);
  }

  /** The row's file is the copy, if the row could be filed; if not, and the cleanup works, nothing of it is left. */
  lemma FileKeepsIff(v: State, t: nat, inserted: bool, cleaned: bool, b: Bytes)
    requires Inv(v) && t in v.adds && v.adds[t].phase.Moved?
    ensures var w, c := FileStep(v, t, inserted, cleaned), v.adds[t];
            && (InVault(w, c.id) && Contents(w, c.id, b) <==> inserted && b == c.copied)
            && (inserted ==> w.records[c.id].original == c.src)
            && (!inserted ==> w.records == v.records && (cleaned ==> Dest(v, c) !in w.files))
  {
    assert AddPlaced(v, t);
  }

  /** The contents of a path, if there are any. */
  function At(v: State, path: string): Option<Bytes> {
    if path in v.files then Some(v.files[path]) else None
  }

  /** A copy in the vault was made at the step the add remembers, from what the source held then. */
  ghost predicate MadeFrom(v: State, es: seq<Action>, n: nat, hash: Bytes -> string, t: nat, c: Adding)
    requires n <= |es|
  {
    c.phase.Duplicated? || c.phase.Moved? ==>
      && c.copiedAt < n && es[c.copiedAt].Adder? && es[c.copiedAt].caller == t && es[c.copiedAt].part.Duplicate?
      && At(After(v, es, c.copiedAt, hash), c.src) == Some(c.copied)
  }

  lemma PartMakes(v: State, t: nat, part: Part, hash: Bytes -> string)
    requires t in AddEffect(v, t, part, hash).adds
    ensures var c := AddEffect(v, t, part, hash).adds[t];
            c.phase.Duplicated? || c.phase.Moved? ==>
              || (part.Duplicate? && c.copiedAt == v.clock && At(v, c.src) == Some(c.copied))
              || (t in v.adds && (v.adds[t].phase.Duplicated? || v.adds[t].phase.Moved?)
                  && c.src == v.adds[t].src && c.copied == v.adds[t].copied && c.copiedAt == v.adds[t].copiedAt)
  {
  }

  lemma {:induction false} CopiesMade(v: State, es: seq<Action>, n: nat, hash: Bytes -> string)
    requires Fresh(v) && n <= |es|
    ensures forall t {:trigger After(v, es, n, hash).adds[t]} :: t in After(v, es, n, hash).adds ==>
              MadeFrom(v, es, n, hash, t, After(v, es, n, hash).adds[t])
  {
    if n > 0 {
      var before, a := After(v, es, n - 1, hash), es[n - 1];
      CopiesMade(v, es, n - 1, hash);
      CallsBegan(v, es, n - 1, hash);
      AfterNext(v, es, n - 1, hash);
      var after := After(v, es, n, hash);
      forall t | t in after.adds ensures MadeFrom(v, es, n, hash, t, after.adds[t]) {
        StepAdds(before, a, hash, t);
        if t in before.adds {
          assert MadeFrom(v, es, n - 1, hash, t, before.adds[t]);
        }
        if a.Adder? && a.caller == t {
          PartMakes(before, t, a.part, hash);
        }
      }
    }
  }

  /** What a path holds before each step of a run, and after the last. */
  ghost function Held(v: State, es: seq<Action>, hash: Bytes -> string, path: string): (r: seq<Option<Bytes>>)
    ensures |r| == |es| + 1
  {
    seq(|es| + 1, n requires 0 <= n < |es| + 1 => At(After(v, es, n, hash), path))
  }

  /** The last change before `n` is the one at `k`. */
  predicate LastChange<T(==)>(held: seq<T>, k: nat, n: nat)
    requires n < |held|
  {
    k < n && held[k] != held[k + 1] && forall m :: k < m <= n ==> held[m] == held[n]
  }

  /** Between two different entries lies a last change. */
  lemma {:induction false} LastChangeBetween<T>(held: seq<T>, lo: nat, n: nat) returns (k: nat)
    requires lo <= n < |held| && held[lo] != held[n]
    ensures lo <= k && LastChange(held, k, n)
    decreases n
  {
    if held[n - 1] != held[n] {
      k := n - 1;
    } else {
      k := LastChangeBetween(held, lo, n - 1);
    }
  }

  /** Step `n` removes the source of an add that has copied it, and there is something to remove. */
  predicate Takes(s: State, a: Action) {
    && a.Adder? && a.part.Take? && a.part.unlinked
    && a.caller in s.adds && s.adds[a.caller].phase.Duplicated? && s.adds[a.caller].src in s.files
  }

  /** What it removes is not what was copied. */
  predicate LosesWrite(s: State, a: Action) {
    Takes(s, a) && s.files[s.adds[a.caller].src] != s.adds[a.caller].copied
  }

  /** Exactly when: after the copy some step changed the source, and the last to do so made it something else. */
  lemma LosesWriteIff(v: State, es: seq<Action>, hash: Bytes -> string, n: nat)
    requires Fresh(v) && n < |es| && Takes(After(v, es, n, hash), es[n])
    ensures var c := After(v, es, n, hash).adds[es[n].caller];
            var held := Held(v, es, hash, c.src);
            LosesWrite(After(v, es, n, hash), es[n]) <==>
              exists k: nat :: c.copiedAt <= k && LastChange(held, k, n) && held[k + 1] != Some(c.copied)
  {
    CopiesMade(v, es, n, hash);
    var c := After(v, es, n, hash).adds[es[n].caller];
    assert MadeFrom(v, es, n, hash, es[n].caller, c);
    var held := Held(v, es, hash, c.src);
    assert held[n] == Some(After(v, es, n, hash).files[c.src]);
    if held[n] != Some(c.copied) {
      var k := LastChangeBetween(held, c.copiedAt, n);
      assert held[k + 1] == held[n];
    }
  }

  // ---------- Where a row comes from ----------

  /**
   * Hashes are the hashes of what was hashed, and a row's file holds what was copied: the add a
   * row came from says both.
   */
  ghost predicate Sourced(v: State, hash: Bytes -> string) {
    && (forall t {:trigger v.adds[t]} :: t in v.adds ==> v.adds[t].sha == Sha(v.adds[t].hashed, hash))
    && (forall id {:trigger v.records[id]} :: id in v.records ==> RowSourced(v, hash, id))
  }

  ghost predicate RowSourced(v: State, hash: Bytes -> string, id: string)
    requires id in v.records
  {
    && id in v.origins && Contents(v, id, v.origins[id].copied)
    && v.records[id].sha == Sha(v.origins[id].hashed, hash) && v.records[id].original == v.origins[id].src
  }

  lemma PartMeasures(v: State, t: nat, part: Part, hash: Bytes -> string)
    requires t in AddEffect(v, t, part, hash).adds && (t in v.adds ==> v.adds[t].sha == Sha(v.adds[t].hashed, hash))
    ensures var c := AddEffect(v, t, part, hash).adds[t]; c.sha == Sha(c.hashed, hash)
  {
  }

  lemma StepKeepsOrigin(v: State, a: Action, hash: Bytes -> string, id: string)
    requires id in v.records && id in v.origins
    ensures var w := Step(v, a, hash); id in w.origins && w.origins[id] == v.origins[id]
  {
    if a.Adder? {
      AddLeaves(v, a.caller, a.part, hash);
    }
  }

  lemma StepKeepsRowSourced(v: State, a: Action, hash: Bytes -> string, id: string)
    requires Inv(v) && Fits(v, a) && Sourced(v, hash) && id in Step(v, a, hash).records
    ensures RowSourced(Step(v, a, hash), hash, id)
  {
    if id in v.records {
      StepKeepsRow(v, a, hash, id);
      StepKeepsVault(v, a, hash, id);
      assert RowSourced(v, hash, id);
      StepKeepsOrigin(v, a, hash, id);
    } else {
      NewRow(v, a, hash, id);
      assert AddPlaced(v, a.caller);
    }
  }

  lemma StepKeepsSourced(v: State, a: Action, hash: Bytes -> string)
    requires Inv(v) && Fits(v, a) && Sourced(v, hash)
    ensures Sourced(Step(v, a, hash), hash)
  {
    var w := Step(v, a, hash);
    forall t | t in w.adds ensures w.adds[t].sha == Sha(w.adds[t].hashed, hash) {
      StepAdds(v, a, hash, t);
      if a.Adder? && a.caller == t {
        PartMeasures(v, t, a.part, hash);
      }
    }
    forall id | id in w.records ensures RowSourced(w, hash, id) {
      StepKeepsRowSourced(v, a, hash, id);
    }
  }

  /** From an empty table, over any interleaving. */
  lemma {:induction false} RunSourced(v: State, es: seq<Action>, hash: Bytes -> string)
    requires Fresh(v) && v.records == map[] && FitsRun(v, es, hash)
    ensures Inv(Run(v, es, hash)) && Sourced(Run(v, es, hash), hash)
  {
    if es != [] {
      var front, a := es[..|es| - 1], es[|es| - 1];
      RunSourced(v, front, hash);
      StepKeepsInv(Run(v, front, hash), a, hash);
      StepKeepsSourced(Run(v, front, hash), a, hash);
    }
  }

  ghost predicate CollisionFree(hash: Bytes -> string) {
    forall b, c {:trigger hash(b), hash(c)} :: hash(b) == hash(c) ==> b == c
  }

  /**
   * A row's hash, when there is one, is the hash of its file exactly when the source still had
   * that hash when it was copied: with a hash that tells files apart, when it held the same bytes.
   */
  lemma RowHashIff(v: State, es: seq<Action>, hash: Bytes -> string, id: string)
    requires Fresh(v) && v.records == map[] && FitsRun(v, es, hash)
    requires InVault(Run(v, es, hash), id)
    ensures var w := Run(v, es, hash);
            id in w.origins &&
            var c, held := w.origins[id], w.files[w.records[id].stored];
            && (w.records[id].sha == hash(held) <==> Sha(c.hashed, hash) == hash(c.copied))
            && (CollisionFree(hash) && c.hashed.Some? ==> (w.records[id].sha == hash(held) <==> c.hashed == Some(c.copied)))
  {
    RunSourced(v, es, hash);
    assert RowSourced(Run(v, es, hash), hash, id);
  }

  // ---------- Restoring ----------

  /** What a run leaves of a row: whatever happens, its file holds `b` or nothing. */
  lemma RowRun(v: State, id: string, b: Bytes, es: seq<Action>, hash: Bytes -> string)
    requires Inv(v) && Contents(v, id, b) && FitsRun(v, es, hash)
    ensures var w := Run(v, es, hash);
            && Inv(w) && Contents(w, id, b) && w.records[id].original == v.records[id].original && w.dir == v.dir
            && (Kept(v, id) && NeverLoses(v, es, hash, id) ==> Kept(w, id))
  {
    RunKeepsInv(v, es, hash);
    RunKeepsBytes(v, es, hash, id, b);
    RunKeepsRow(v, es, hash, id);
  }

  /** The state in which an add has just filed its row. */
  function Filed(v: State, t: nat, hash: Bytes -> string): State {
    Step(v, Adder(t, File(true, true)), hash)
  }

  lemma FiledRow(v: State, t: nat, hash: Bytes -> string)
    requires Inv(v) && t in v.adds && v.adds[t].phase.Moved?
    ensures var u, c := Filed(v, t, hash), v.adds[t];
            Inv(u) && c.id in u.records && InVault(u, c.id) && Contents(u, c.id, c.copied) && u.records[c.id].original == c.src
  {
    FileKeepsIff(v, t, true, true, v.adds[t].copied);
    StepKeepsInv(v, Adder(t, File(true, true)), hash);
  }

  /** Whatever happens in between, a restore that gets to copy puts exactly the bytes the add copied at the original path. */
  lemma RestoreGivesBack(v: State, t: nat, es: seq<Action>, hash: Bytes -> string, u: nat)
    requires Inv(v) && t in v.adds && v.adds[t].phase.Moved? && FitsRun(Filed(v, t, hash), es, hash)
    requires var w := Run(Filed(v, t, hash), es, hash);
             u in w.calls && w.calls[u].restore && !w.calls[u].acted && w.calls[u].id == v.adds[t].id && InVault(w, v.adds[t].id)
    ensures var x := Step(Run(Filed(v, t, hash), es, hash), CopyBack(u, Copied), hash);
            At(x, v.adds[t].src) == Some(v.adds[t].copied)
  {
    FiledRow(v, t, hash);
    RowRun(Filed(v, t, hash), v.adds[t].id, v.adds[t].copied, es, hash);
  }

  /** The three steps of a restore with no other caller in between. */
  function RestoredAlone(v: State, t: nat, id: string, decided: bool, hash: Bytes -> string): State {
    Step(Step(Step(v, ReadRow(t, true, id), hash), CopyBack(t, Copied), hash), Decide(t, decided), hash)
  }

  lemma RestoreAlone(v: State, t: nat, id: string, decided: bool, hash: Bytes -> string)
    requires t !in v.calls && t !in v.adds && InVault(v, id) && !IsDeleted(v, id)
    ensures var row := v.records[id];
            RestoredAlone(v, t, id, decided, hash) ==
            v.(files := v.files[row.original := v.files[row.stored]],
               records := if decided then Decided(v.records, id, Restored) else v.records, clock := v.clock + 3)
  {
    var v1 := Step(v, ReadRow(t, true, id), hash);
    var v2 := Step(v1, CopyBack(t, Copied), hash);
    assert v1.calls == v.calls[t := Call(true, id, v.records[id], v.clock, false)];
    assert v2.calls - {t} == v.calls;
  }

  /**
   * Round trip over any run in between: an added file, whose row is not DELETED or being deleted
   * after a run without losses, is put back with the bytes that were copied, whatever is there by then.
   */
  lemma RestoreUndoesAdd(v: State, t: nat, es: seq<Action>, hash: Bytes -> string, u: nat, decided: bool)
    requires Inv(v) && t in v.adds && v.adds[t].phase.Moved?
    requires FitsRun(Filed(v, t, hash), es, hash) && NeverLoses(Filed(v, t, hash), es, hash, v.adds[t].id)
    ensures var w, c := Run(Filed(v, t, hash), es, hash), v.adds[t];
            u !in w.calls && u !in w.adds && !IsDeleted(w, c.id) && !BeingDeleted(w, c.id) ==>
              var x := RestoredAlone(w, u, c.id, decided, hash);
              && At(x, c.src) == Some(c.copied)
              && InVault(x, c.id) && Contents(x, c.id, c.copied)
              && (decided ==> x.records[c.id].decision.Restored?)
  {
    var w, c := Run(Filed(v, t, hash), es, hash), v.adds[t];
    FiledRow(v, t, hash);
    RowRun(Filed(v, t, hash), c.id, c.copied, es, hash);
    if u !in w.calls && u !in w.adds && !IsDeleted(w, c.id) && !BeingDeleted(w, c.id) {
      RestoreAlone(w, u, c.id, decided, hash);
      assert Placed(w, c.id, w.records[c.id]);
      StoredInside(w.dir, c.id, c.src);
    }
  }

  /** The first two steps of a restore, whatever the state: its copy is made and its decision is to come. */
  lemma RestoreUnderWay(v: State, t: nat, id: string, hash: Bytes -> string)
    requires t !in v.calls && t !in v.adds && InVault(v, id) && !IsDeleted(v, id)
    ensures var w := Step(Step(v, ReadRow(t, true, id), hash), CopyBack(t, Copied), hash);
            w.calls == v.calls[t := Call(true, id, v.records[id], v.clock, true)] && w.records == v.records && w.adds == v.adds
  {
  }

  /**
   * Any such restore can be overtaken: a delete of the row that completes now, by any other
   * caller, is undone by the restore's decision, and the row ends up RESTORED without a file.
   */
  lemma RestoreCanBeOvertaken(v: State, t: nat, u: nat, id: string, hash: Bytes -> string)
    requires t in v.calls && v.calls[t].restore && v.calls[t].acted && v.calls[t].id == id
    requires u !in v.calls && u !in v.adds && id in v.records
    ensures var w := Step(Step(Step(v, ReadRow(u, false, id), hash), Unlink(u, true), hash), Decide(u, true), hash);
            var x := Step(w, Decide(t, true), hash);
            IsDeleted(w, id) && id in x.records && x.records[id].decision.Restored? && !InVault(x, id)
  {
    var v1 := Step(v, ReadRow(u, false, id), hash);
    assert v1.calls == v.calls[u := Call(false, id, v.records[id], v.clock, false)];
    var v2 := Step(v1, Unlink(u, true), hash);
    assert v2.calls[u].acted && v2.calls[t] == v.calls[t] && v2.files == v.files - {v.records[id].stored};
  }

  // ---------- Feedback by content ----------

  ghost predicate IsRestored(records: map<string, Record>, sha: string) {
    sha != "" && exists id {:trigger records[id]} :: id in records && records[id].sha == sha && records[id].decision.Restored?
  }

  /** The step copies these bytes back for a row. */
  ghost predicate GivesBack(v: State, a: Action, id: string, b: Bytes) {
    && a.CopyBack? && a.copy.Copied? && a.caller in v.calls
    && v.calls[a.caller].restore && !v.calls[a.caller].acted && v.calls[a.caller].id == id
    && At(v, v.calls[a.caller].row.stored) == Some(b)
  }

  /** Some step of the run does. */
  ghost predicate GivenBack(v: State, es: seq<Action>, hash: Bytes -> string, id: string, b: Bytes) {
    es != [] &&
    (GivesBack(Run(v, es[..|es| - 1], hash), es[|es| - 1], id, b) || GivenBack(v, es[..|es| - 1], hash, id, b))
  }

  /** A row is RESTORED by its restore's decision, after that restore copied; no other step does it. */
  lemma RestoredBy(v: State, a: Action, hash: Bytes -> string, id: string)
    requires id in Step(v, a, hash).records && Step(v, a, hash).records[id].decision.Restored?
    ensures id in v.records
    ensures v.records[id].decision.Restored? || Writes(v, a, id, true)
  {
    if id !in v.records {
      NewRow(v, a, hash, id);
    } else if a.Adder? {
      AddLeaves(v, a.caller, a.part, hash);
    }
  }

  /** A restore has acted because it copied its row's file back. */
  lemma ActedBy(v: State, a: Action, hash: Bytes -> string, t: nat)
    requires Inv(v) && Sourced(v, hash) && t in Step(v, a, hash).calls
    requires Step(v, a, hash).calls[t].restore && Step(v, a, hash).calls[t].acted
    ensures t in v.calls && v.calls[t].id == Step(v, a, hash).calls[t].id && v.calls[t].id in v.origins
    ensures v.calls[t].acted || GivesBack(v, a, v.calls[t].id, v.origins[v.calls[t].id].copied)
  {
    StepCalls(v, a, hash, t);
    var c := v.calls[t];
    assert c.id in v.records && v.records[c.id].stored == c.row.stored;
    assert RowSourced(v, hash, c.id);
    if !c.acted {
      ActsByCopy(v, a, hash, t);
    }
  }

  lemma ActsByCopy(v: State, a: Action, hash: Bytes -> string, t: nat)
    requires t in v.calls && !v.calls[t].acted && v.calls[t].restore
    requires t in Step(v, a, hash).calls && Step(v, a, hash).calls[t].acted
    ensures a.CopyBack? && a.caller == t && a.copy.Copied? && v.calls[t].row.stored in v.files
  {
    if a.Adder? {
      AddLeaves(v, a.caller, a.part, hash);
    }
  }

  /** Restored rows, and restores about to decide, go back to a copy of what was added. */
  ghost predicate TracedBack(v: State, es: seq<Action>, hash: Bytes -> string) {
    var w := Run(v, es, hash);
    && (forall id {:trigger w.records[id]} :: id in w.records && w.records[id].decision.Restored? ==>
          id in w.origins && GivenBack(v, es, hash, id, w.origins[id].copied))
    && (forall t {:trigger w.calls[t]} :: t in w.calls && w.calls[t].restore && w.calls[t].acted ==>
          w.calls[t].id in w.origins && GivenBack(v, es, hash, w.calls[t].id, w.origins[w.calls[t].id].copied))
  }

  lemma TracesRow(v: State, es: seq<Action>, a: Action, hash: Bytes -> string, id: string)
    requires TracedBack(v, es, hash) && Sourced(Run(v, es, hash), hash)
    requires var w := Step(Run(v, es, hash), a, hash); id in w.records && w.records[id].decision.Restored?
    ensures var w := Step(Run(v, es, hash), a, hash); id in w.origins && GivenBack(v, es, hash, id, w.origins[id].copied)
  {
    var s := Run(v, es, hash);
    RestoredBy(s, a, hash, id);
    assert RowSourced(s, hash, id);
    StepKeepsOrigin(s, a, hash, id);
    if !s.records[id].decision.Restored? {
      assert s.calls[a.caller].id == id;
    }
  }

  lemma TracesCall(v: State, es: seq<Action>, a: Action, hash: Bytes -> string, t: nat)
    requires Inv(Run(v, es, hash)) && Sourced(Run(v, es, hash), hash) && TracedBack(v, es, hash)
    requires var w := Step(Run(v, es, hash), a, hash); t in w.calls && w.calls[t].restore && w.calls[t].acted
    ensures var s, w := Run(v, es, hash), Step(Run(v, es, hash), a, hash);
            && w.calls[t].id in w.origins
            && var id, b := w.calls[t].id, w.origins[w.calls[t].id].copied;
               GivenBack(v, es, hash, id, b) || GivesBack(s, a, id, b)
  {
    var s := Run(v, es, hash);
    ActedBy(s, a, hash, t);
    StepCalls(s, a, hash, t);
    assert s.calls[t].id in s.records;
    StepKeepsOrigin(s, a, hash, s.calls[t].id);
  }

  lemma GivenBackNext(v: State, es: seq<Action>, a: Action, hash: Bytes -> string, id: string, b: Bytes)
    requires GivenBack(v, es, hash, id, b) || GivesBack(Run(v, es, hash), a, id, b)
    ensures GivenBack(v, es + [a], hash, id, b)
  {
    assert (es + [a])[..|es|] == es;
  }

  lemma StepTracesBack(v: State, es: seq<Action>, a: Action, hash: Bytes -> string)
    requires Inv(Run(v, es, hash)) && Sourced(Run(v, es, hash), hash) && TracedBack(v, es, hash)
    ensures TracedBack(v, es + [a], hash)
  {
    assert (es + [a])[..|es|] == es;
    var w := Step(Run(v, es, hash), a, hash);
    forall id | id in w.records && w.records[id].decision.Restored?
      ensures id in w.origins && GivenBack(v, es + [a], hash, id, w.origins[id].copied)
    {
      TracesRow(v, es, a, hash, id);
      GivenBackNext(v, es, a, hash, id, w.origins[id].copied);
    }
    forall t | t in w.calls && w.calls[t].restore && w.calls[t].acted
      ensures w.calls[t].id in w.origins && GivenBack(v, es + [a], hash, w.calls[t].id, w.origins[w.calls[t].id].copied)
    {
      TracesCall(v, es, a, hash, t);
      GivenBackNext(v, es, a, hash, w.calls[t].id, w.origins[w.calls[t].id].copied);
    }
  }

  lemma {:induction false} RunTracesBack(v: State, es: seq<Action>, hash: Bytes -> string)
    requires Fresh(v) && v.records == map[] && FitsRun(v, es, hash)
    ensures Inv(Run(v, es, hash)) && Sourced(Run(v, es, hash), hash) && TracedBack(v, es, hash)
  {
    RunSourced(v, es, hash);
    if es != [] {
      var front, a := es[..|es| - 1], es[|es| - 1];
      RunTracesBack(v, front, hash);
      StepTracesBack(v, front, a, hash);
      assert front + [a] == es;
    }
  }

  /** The source had another hash when it was copied than when it was hashed. */
  predicate Swapped(c: Adding, hash: Bytes -> string) {
    Sha(c.hashed, hash) != hash(c.copied)
  }

  /** The row is RESTORED, and the bytes its add copied were put back. */
  ghost predicate RowGivenBack(v: State, es: seq<Action>, hash: Bytes -> string, id: string) {
    var w := Run(v, es, hash);
    && id in w.records && w.records[id].decision.Restored? && id in w.origins
    && GivenBack(v, es, hash, id, w.origins[id].copied)
  }

  lemma RestoredRowGivenBack(v: State, es: seq<Action>, hash: Bytes -> string, id: string)
    requires Fresh(v) && v.records == map[] && FitsRun(v, es, hash)
    requires id in Run(v, es, hash).records && Run(v, es, hash).records[id].decision.Restored?
    ensures RowGivenBack(v, es, hash, id)
    ensures var w := Run(v, es, hash); hash(w.origins[id].copied) == w.records[id].sha <==> !Swapped(w.origins[id], hash)
  {
    RunTracesBack(v, es, hash);
    assert RowSourced(Run(v, es, hash), hash, id);
  }

  /** Some restore of the run copied back a file of this hash. */
  ghost predicate HashGivenBack(v: State, es: seq<Action>, hash: Bytes -> string, sha: string) {
    exists id, b :: GivenBack(v, es, hash, id, b) && hash(b) == sha
  }

  /**
   * A hash counts as restored only because the file of a RESTORED row of that hash was copied
   * back. That file has the hash exactly when its source was not swapped; so, over any
   * interleaving, a hash that is reported was given back if one such row was not.
   */
  lemma RestoredMeansGivenBack(v: State, es: seq<Action>, hash: Bytes -> string, sha: string)
    requires Fresh(v) && v.records == map[] && FitsRun(v, es, hash) && IsRestored(Run(v, es, hash).records, sha)
    ensures exists id {:trigger RowGivenBack(v, es, hash, id)} ::
              RowGivenBack(v, es, hash, id) && Run(v, es, hash).records[id].sha == sha
    ensures forall id {:trigger RowGivenBack(v, es, hash, id)} ::
              (&& RowGivenBack(v, es, hash, id) && Run(v, es, hash).records[id].sha == sha
               && !Swapped(Run(v, es, hash).origins[id], hash)) ==> HashGivenBack(v, es, hash, sha)
  {
    var records := Run(v, es, hash).records;
    var id :| id in records && records[id].sha == sha && records[id].decision.Restored?;
    RestoredRowGivenBack(v, es, hash, id);
    forall o | RowGivenBack(v, es, hash, o) && Run(v, es, hash).records[o].sha == sha && !Swapped(Run(v, es, hash).origins[o], hash)
      ensures HashGivenBack(v, es, hash, sha)
    {
      RestoredRowGivenBack(v, es, hash, o);
      assert GivenBack(v, es, hash, o, Run(v, es, hash).origins[o].copied);
    }
  }

  /** What other programs make of it: a source overwritten between its hashing and its copying. */
  function SwappedAdd(v: State, t: nat, src: string, id: string, b: Bytes, hash: Bytes -> string): State {
    var v1 := Step(Step(v, Adder(t, Begin(src, id)), hash), Adder(t, Measure(true)), hash);
    var v2 := Step(Step(v1, Touch(src, Some(b)), hash), Adder(t, Duplicate(Copied, true)), hash);
    Step(Step(v2, Adder(t, Take(true, true)), hash), Adder(t, File(true, true)), hash)
  }

  lemma SwappedCopy(v: State, t: nat, src: string, id: string, b: Bytes, hash: Bytes -> string)
    requires Fits(v, Adder(t, Begin(src, id))) && src in v.files && t !in v.calls && t !in v.adds
    ensures var v1 := Step(Step(v, Adder(t, Begin(src, id)), hash), Adder(t, Measure(true)), hash);
            var w := Step(Step(v1, Touch(src, Some(b)), hash), Adder(t, Duplicate(Copied, true)), hash);
            && PastCopy(w, t, src, id, b) && w.adds[t].sha == hash(v.files[src])
            && w.records == v.records && w.calls == v.calls && w.dir == v.dir && w.adds - {t} == v.adds
  {
    var v1 := Step(Step(v, Adder(t, Begin(src, id)), hash), Adder(t, Measure(true)), hash);
    assert v1.adds == v.adds[t := Adding(src, id, hash(v.files[src]), Measured, Some(v.files[src]), [], 0)];
  }

  /** Past its copy, with nothing in between, an add files it. */
  lemma PastCopyFiles(v: State, t: nat, src: string, id: string, b: Bytes, hash: Bytes -> string)
    requires PastCopy(v, t, src, id, b) && id !in v.records && Outside(v.dir, src)
    ensures var w := Step(Step(v, Adder(t, Take(true, true)), hash), Adder(t, File(true, true)), hash);
            && w.records == v.records[id := Record(src, Stored(v.dir, id, src), v.adds[t].sha, Pending)]
            && At(w, Stored(v.dir, id, src)) == Some(b) && w.calls == v.calls && w.adds == v.adds - {t}
  {
    StoredInside(v.dir, id, src);
    var w := Step(v, Adder(t, Take(true, true)), hash);
    assert w.adds == v.adds[t := v.adds[t].(phase := Moved)] && At(w, Stored(v.dir, id, src)) == Some(b);
  }

  lemma SwappedAddFiles(v: State, t: nat, src: string, id: string, b: Bytes, hash: Bytes -> string)
    requires Fits(v, Adder(t, Begin(src, id))) && src in v.files && t !in v.calls && t !in v.adds
    ensures var w := SwappedAdd(v, t, src, id, b, hash);
            && w.records == v.records[id := Record(src, Stored(v.dir, id, src), hash(v.files[src]), Pending)]
            && At(w, Stored(v.dir, id, src)) == Some(b) && w.calls == v.calls && w.adds == v.adds
  {
    SwappedCopy(v, t, src, id, b, hash);
    var v1 := Step(Step(v, Adder(t, Begin(src, id)), hash), Adder(t, Measure(true)), hash);
    PastCopyFiles(Step(Step(v1, Touch(src, Some(b)), hash), Adder(t, Duplicate(Copied, true)), hash), t, src, id, b, hash);
  }

  /**
   * Then the row is filed under the hash of what was overwritten; restoring it puts the other
   * bytes back, and reports as restored a hash no file of which was ever given back by it.
   */
  lemma SwappedSourceIsReported(v: State, t: nat, src: string, id: string, b: Bytes, hash: Bytes -> string)
    requires Fits(v, Adder(t, Begin(src, id))) && src in v.files && t !in v.calls && t !in v.adds
    requires hash(v.files[src]) != hash(b) && hash(v.files[src]) != ""
    ensures var w := RestoredAlone(SwappedAdd(v, t, src, id, b, hash), t, id, true, hash);
            At(w, src) == Some(b) && IsRestored(w.records, hash(v.files[src])) && hash(w.files[src]) != hash(v.files[src])
  {
    var u := SwappedAdd(v, t, src, id, b, hash);
    SwappedAddFiles(v, t, src, id, b, hash);
    RestoreAlone(u, t, id, true, hash);
    var w := RestoredAlone(u, t, id, true, hash);
    assert w.records[id].sha == hash(v.files[src]) && w.records[id].decision.Restored?;
  }

  /** A DELETED decision withdraws the feedback, unless another row of that hash is restored. */
  lemma DeleteWithdraws(records: map<string, Record>, id: string, sha: string)
    requires id in records && records[id].sha == sha
    ensures IsRestored(Decided(records, id, Deleted), sha) <==>
            sha != "" && exists o {:trigger records[o]} ::
              o in records && o != id && records[o].sha == sha && records[o].decision.Restored?
  {
    var after := Decided(records, id, Deleted);
    forall o | o in records && o != id ensures after[o] == records[o] {
    }
  }

  // ---------- An add with nothing in between ----------

  /** Which of the calls made while adding succeed. */
  datatype AddEnv = AddEnv(readable: bool, copy: Copy, unlinked: bool, cleaned: bool, inserted: bool)

  /** Its five parts, one after the other. */
  function AddedAlone(v: State, t: nat, src: string, id: string, env: AddEnv, hash: Bytes -> string): State {
    FileStep(TakeStep(CopiedAlone(v, t, src, id, env, hash), t, env.unlinked, env.cleaned), t, env.inserted, env.cleaned)
  }

  /** The first three parts. */
  function CopiedAlone(v: State, t: nat, src: string, id: string, env: AddEnv, hash: Bytes -> string): State {
    DuplicateStep(MeasureStep(BeginStep(v, t, src, id), t, env.readable, hash), t, env.copy, env.cleaned)
  }

  /** The add is past its copy, and the source as it was copied. */
  ghost predicate PastCopy(v: State, t: nat, src: string, id: string, b: Bytes) {
    && t in v.adds && v.adds[t].phase.Duplicated? && v.adds[t].src == src && v.adds[t].id == id && v.adds[t].copied == b
    && At(v, Stored(v.dir, id, src)) == Some(b)
  }

  lemma CopyAlone(v: State, t: nat, src: string, id: string, env: AddEnv, hash: Bytes -> string)
    requires Fits(v, Adder(t, Begin(src, id))) && src in v.files && t !in v.calls && t !in v.adds
    ensures var w := CopiedAlone(v, t, src, id, env, hash);
            && w.records == v.records && w.dir == v.dir && At(w, src) == Some(v.files[src])
            && if env.copy.Copied? then PastCopy(w, t, src, id, v.files[src]) else t !in w.adds
  {
    StoredInside(v.dir, id, src);
    var v1 := MeasureStep(BeginStep(v, t, src, id), t, env.readable, hash);
    assert v1.files == v.files && v1.records == v.records && v1.adds[t].src == src && v1.adds[t].id == id;
  }

  /** The other two. */
  lemma TakeAlone(v: State, t: nat, src: string, id: string, b: Bytes, env: AddEnv)
    requires id !in v.records && Outside(v.dir, src) && At(v, src) == Some(b)
    requires if env.copy.Copied? then PastCopy(v, t, src, id, b) else t !in v.adds
    ensures var w := FileStep(TakeStep(v, t, env.unlinked, env.cleaned), t, env.inserted, env.cleaned);
            if !env.copy.Copied? || !env.unlinked then w.records == v.records && At(w, src) == Some(b)
            else if !env.inserted then w.records == v.records && src !in w.files
            else
              && w.records == v.records[id := w.records[id]] && InVault(w, id) && Contents(w, id, b)
              && src !in w.files && w.records[id].original == src
  {
    StoredInside(v.dir, id, src);
    var u := TakeStep(v, t, env.unlinked, env.cleaned);
    assert u.records == v.records;
    assert t in u.adds <==> env.copy.Copied? && env.unlinked;
  }

  /** The file's bytes can still be had: where they were, or through a row. */
  ghost predicate Recoverable(v: State, src: string, id: string, b: Bytes) {
    At(v, src) == Some(b) || (InVault(v, id) && Contents(v, id, b) && v.records[id].original == src)
  }

  /**
   * With nothing in between, adding moves the file or leaves it where it was, with the table
   * unchanged, unless the row could not be inserted: then, and only then, neither place has it any more.
   */
  lemma AddMovesOrLeaves(v: State, t: nat, src: string, id: string, env: AddEnv, hash: Bytes -> string)
    requires Inv(v) && Fits(v, Adder(t, Begin(src, id))) && src in v.files && t !in v.calls && t !in v.adds
    ensures var w := AddedAlone(v, t, src, id, env, hash);
            var b := v.files[src];
            && (Recoverable(w, src, id, b) <==> !(env.copy.Copied? && env.unlinked && !env.inserted))
            && (id in w.records <==> env.copy.Copied? && env.unlinked && env.inserted)
            && (id in w.records ==> InVault(w, id) && Contents(w, id, b) && src !in w.files && w.records[id].original == src)
            && (id !in w.records ==> w.records == v.records)
            && (!env.unlinked || env.copy.Failed? ==> At(w, src) == Some(b))
  {
    var v2 := CopiedAlone(v, t, src, id, env, hash);
    CopyAlone(v, t, src, id, env, hash);
    TakeAlone(v2, t, src, id, v.files[src], env);
  }

  /** With the cleanup working, a failed insertion leaves the bytes nowhere at all. */
  lemma FailedInsertLosesTheFile(b: Bytes, hash: Bytes -> string)
    ensures var v := State("q", map["a" := b], map[], map[], map[], map[], 0);
            var env := AddEnv(true, Copied, true, true, false);
            var w := AddedAlone(v, 0, "a", "0123456789abcdef", env, hash);
            Inv(v) && Fits(v, Adder(0, Begin("a", "0123456789abcdef"))) && w.files == map[] && w.records == map[]
  {
    var v := State("q", map["a" := b], map[], map[], map[], map[], 0);
    var id := "0123456789abcdef";
    StoredInside("q", id, "a");
    var v2 := DuplicateStep(MeasureStep(BeginStep(v, 0, "a", id), 0, true, hash), 0, Copied, true);
    assert v2.files == map["a" := b][Stored("q", id, "a") := b] && v2.adds.Keys == {0};
    var v3 := TakeStep(v2, 0, true, true);
    assert v3.files == map[Stored("q", id, "a") := b];
  }
}
