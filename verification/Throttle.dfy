/**
 * The alert throttle: duplicates of an alert inside its cooldown are counted instead of shown,
 * and the count is reported with the next one that is shown.
 */
module Throttle {
  import opened Options
  import opened Multiples
  import Subjects

  datatype Kind = Alert | Info | Resolved

  datatype Notification = Notification(title: string, body: string, kind: Kind, processName: Option<string>, pid: Option<int>)

  /** What makes two alerts duplicates: the title, who it is about, and how the body begins. */
  function DedupKey(n: Notification): string {
    var who := if n.processName.Some? && n.processName.value != "" then n.processName.value
               else if n.pid.Some? then Subjects.Decimal(n.pid.value)
               else "None";
    n.title + ":" + who + ":" + if |n.body| < 40 then n.body else n.body[..40]
  }

  /** An alert as the throttle sees it; `taken` says whether a channel takes what is passed on. */
  datatype Submission = Submission(key: string, at: real, taken: bool)

  datatype State = State(recent: map<string, real>, suppressed: map<string, nat>)

  function Get<V>(m: map<string, V>, key: string, otherwise: V): V {
    if key in m then m[key] else otherwise
  }

  predicate Admits(s: State, cooldown: real, a: Submission) {
    a.at - Get(s.recent, a.key, 0.0) >= cooldown
  }

  function Step(s: State, cooldown: real, a: Submission): State {
    if Admits(s, cooldown, a) then State(s.recent[a.key := a.at], s.suppressed - {a.key})
    else s.(suppressed := s.suppressed[a.key := Get(s.suppressed, a.key, 0) + 1])
  }

  function Run(cooldown: real, log: seq<Submission>): State {
    if log == [] then State(map[], map[])
    else Step(Run(cooldown, log[..|log| - 1]), cooldown, log[|log| - 1])
  }

  // ---------- The reference: one key at a time, without tables ----------

  /** When `key` was last shown; the epoch if it never was. */
  function LastShown(cooldown: real, log: seq<Submission>, key: string): real {
    if log == [] then 0.0
    else
      var last, a := LastShown(cooldown, log[..|log| - 1], key), log[|log| - 1];
      if a.key == key && a.at - last >= cooldown then a.at else last
  }

  /** The `i`th alert is shown. */
  predicate Shown(cooldown: real, log: seq<Submission>, i: nat)
    requires i < |log|
  {
    log[i].at - LastShown(cooldown, log[..i], log[i].key) >= cooldown
  }

  function Submitted(log: seq<Submission>, key: string): nat {
    if log == [] then 0
    else Submitted(log[..|log| - 1], key) + if log[|log| - 1].key == key then 1 else 0
  }

  function ShownCount(cooldown: real, log: seq<Submission>, key: string): nat {
    if log == [] then 0
    else
      ShownCount(cooldown, log[..|log| - 1], key) +
      if log[|log| - 1].key == key && Shown(cooldown, log, |log| - 1) then 1 else 0
  }

  /** How many suppressed alerts the `i`th one reports, by the tables. */
  function Reported(cooldown: real, log: seq<Submission>, i: nat): nat
    requires i < |log|
  {
    var s := Run(cooldown, log[..i]);
    if Admits(s, cooldown, log[i]) then Get(s.suppressed, log[i].key, 0) else 0
  }

  function ReportedSum(cooldown: real, log: seq<Submission>, key: string): nat {
    if log == [] then 0
    else
      ReportedSum(cooldown, log[..|log| - 1], key) +
      if log[|log| - 1].key == key then Reported(cooldown, log, |log| - 1) else 0
  }

  /** The tables remember, for every key, exactly when it was last shown: keys never interfere. */
  lemma {:induction false} RecentIsLastShown(cooldown: real, log: seq<Submission>, key: string)
    ensures Get(Run(cooldown, log).recent, key, 0.0) == LastShown(cooldown, log, key)
  {
    if log != [] {
      RecentIsLastShown(cooldown, log[..|log| - 1], key);
    }
  }

  lemma AdmittedIsShown(cooldown: real, log: seq<Submission>, i: nat)
    requires i < |log|
    ensures Admits(Run(cooldown, log[..i]), cooldown, log[i]) <==> Shown(cooldown, log, i)
  {
    RecentIsLastShown(cooldown, log[..i], log[i].key);
  }

  /** Conservation: every alert was shown, has been reported with one that was, or is still counted. */
  lemma {:induction false} EveryAlertIsAccountedFor(cooldown: real, log: seq<Submission>, key: string)
    ensures Submitted(log, key) ==
            ShownCount(cooldown, log, key) + ReportedSum(cooldown, log, key) + Get(Run(cooldown, log).suppressed, key, 0)
  {
    if log != [] {
      EveryAlertIsAccountedFor(cooldown, log[..|log| - 1], key);
      AdmittedIsShown(cooldown, log, |log| - 1);
    }
  }

  /** Alerts of a key that a channel took, each with the suppressed ones it reports. */
  function Delivered(cooldown: real, log: seq<Submission>, key: string): nat {
    if log == [] then 0
    else
      var n := |log| - 1;
      Delivered(cooldown, log[..n], key) +
      if log[n].key == key && Shown(cooldown, log, n) && log[n].taken then 1 + Reported(cooldown, log, n) else 0
  }

  /** The same for alerts that were passed on and no channel took. */
  function Lost(cooldown: real, log: seq<Submission>, key: string): nat {
    if log == [] then 0
    else
      var n := |log| - 1;
      Lost(cooldown, log[..n], key) +
      if log[n].key == key && Shown(cooldown, log, n) && !log[n].taken then 1 + Reported(cooldown, log, n) else 0
  }

  /** Conservation for what is delivered: every alert was, or is still counted, or was lost with one no channel took. */
  lemma {:induction false} EveryAlertIsDeliveredPendingOrLost(cooldown: real, log: seq<Submission>, key: string)
    ensures Submitted(log, key) ==
            Delivered(cooldown, log, key) + Lost(cooldown, log, key) + Get(Run(cooldown, log).suppressed, key, 0)
  {
    if log != [] {
      EveryAlertIsDeliveredPendingOrLost(cooldown, log[..|log| - 1], key);
      AdmittedIsShown(cooldown, log, |log| - 1);
    }
  }

  /** A channel took every alert of the key that was passed on. */
  predicate AllTaken(cooldown: real, log: seq<Submission>, key: string) {
    forall i :: 0 <= i < |log| && log[i].key == key && Shown(cooldown, log, i) ==> log[i].taken
  }

  lemma AllTakenNext(cooldown: real, log: seq<Submission>, key: string)
    requires log != []
    ensures var n := |log| - 1;
            AllTaken(cooldown, log, key) <==>
              AllTaken(cooldown, log[..n], key) && (log[n].key == key && Shown(cooldown, log, n) ==> log[n].taken)
  {
    var n := |log| - 1;
    var front := log[..n];
    forall i | 0 <= i < n ensures Shown(cooldown, front, i) == Shown(cooldown, log, i) && front[i] == log[i] {
      assert front[..i] == log[..i];
    }
  }

  /** Nothing was lost exactly when that is so. */
  lemma {:induction false} LostIff(cooldown: real, log: seq<Submission>, key: string)
    ensures Lost(cooldown, log, key) == 0 <==> AllTaken(cooldown, log, key)
  {
    if log != [] {
      LostIff(cooldown, log[..|log| - 1], key);
      AllTakenNext(cooldown, log, key);
    }
  }

  /** Nothing is pending for a key right after one of its alerts is shown. */
  lemma ShownReportsAll(cooldown: real, log: seq<Submission>)
    requires log != [] && Shown(cooldown, log, |log| - 1)
    ensures var key := log[|log| - 1].key;
            Submitted(log, key) == ShownCount(cooldown, log, key) + ReportedSum(cooldown, log, key)
  {
    EveryAlertIsAccountedFor(cooldown, log, log[|log| - 1].key);
    AdmittedIsShown(cooldown, log, |log| - 1);
  }

  /** Between any two points of a run the clock moved on by a cooldown for every alert shown, however it was set. */
  lemma {:induction false} ShownAreSpread(cooldown: real, log: seq<Submission>, m: nat, key: string)
    requires m <= |log|
    ensures ShownCount(cooldown, log, key) >= ShownCount(cooldown, log[..m], key)
    ensures LastShown(cooldown, log, key) - LastShown(cooldown, log[..m], key) >=
            Times(ShownCount(cooldown, log, key) - ShownCount(cooldown, log[..m], key), cooldown)
  {
    if m == |log| {
      assert log[..m] == log;
    } else {
      assert log[..|log| - 1][..m] == log[..m];
      ShownAreSpread(cooldown, log[..|log| - 1], m, key);
    }
  }

  /** Two shown alerts of one key are at least a cooldown apart, with no assumption on the clock. */
  lemma ShownAreApart(cooldown: real, log: seq<Submission>, i: nat, j: nat)
    requires i < j < |log| && log[i].key == log[j].key && cooldown >= 0.0
    requires Shown(cooldown, log, i) && Shown(cooldown, log, j)
    ensures log[j].at - log[i].at >= cooldown
  {
    var key := log[i].key;
    var upto := log[..j];
    var first := log[..i + 1];
    assert upto[..i + 1] == first;
    assert first[..i] == log[..i];
    ShownAreSpread(cooldown, upto, i + 1, key);
    TimesNotNegative(ShownCount(cooldown, upto, key) - ShownCount(cooldown, first, key), cooldown);
  }

  lemma {:induction false} TimesNotNegative(n: nat, c: real)
    requires c >= 0.0
    ensures Times(n, c) >= 0.0
  {
    if n > 0 {
      TimesNotNegative(n - 1, c);
    }
  }

  // ---------- Which alerts are shown ----------

  lemma ShownInFront(cooldown: real, log: seq<Submission>, n: nat, i: nat)
    requires i < n <= |log|
    ensures log[..n][i] == log[i] && (Shown(cooldown, log[..n], i) <==> Shown(cooldown, log, i))
  {
    assert log[..n][..i] == log[..i];
  }

  /** The alert `i` of the key was shown. */
  predicate ShownOf(cooldown: real, log: seq<Submission>, key: string, i: nat)
    requires i < |log|
  {
    log[i].key == key && Shown(cooldown, log, i)
  }

  /** The last time shown is that of an alert shown, or the epoch, and no alert shown is later. */
  lemma {:induction false} LastShownIs(cooldown: real, log: seq<Submission>, key: string)
    requires cooldown >= 0.0
    ensures LastShown(cooldown, log, key) >= 0.0
    ensures forall i :: 0 <= i < |log| && ShownOf(cooldown, log, key, i) ==> log[i].at <= LastShown(cooldown, log, key)
    ensures || LastShown(cooldown, log, key) == 0.0
            || exists i :: 0 <= i < |log| && ShownOf(cooldown, log, key, i) && log[i].at == LastShown(cooldown, log, key)
  {
    if log != [] {
      var n := |log| - 1;
      LastShownIs(cooldown, log[..n], key);
      forall i | 0 <= i < n ensures ShownOf(cooldown, log[..n], key, i) <==> ShownOf(cooldown, log, key, i) {
        ShownInFront(cooldown, log, n, i);
      }
      if log[n].key == key && Shown(cooldown, log, n) {
        assert ShownOf(cooldown, log, key, n);
      }
    }
  }

  /** An alert is suppressed exactly when one of its key was shown less than a cooldown before, or the clock is that close to the epoch. */
  lemma SuppressedIff(cooldown: real, log: seq<Submission>, i: nat)
    requires cooldown >= 0.0 && i < |log|
    ensures !Shown(cooldown, log, i) <==>
              || log[i].at < cooldown
              || exists j :: 0 <= j < i && ShownOf(cooldown, log, log[i].key, j) && log[i].at - log[j].at < cooldown
  {
    var front, key := log[..i], log[i].key;
    LastShownIs(cooldown, front, key);
    forall j | 0 <= j < i
      ensures front[j] == log[j] && (ShownOf(cooldown, front, key, j) <==> ShownOf(cooldown, log, key, j))
    {
      ShownInFront(cooldown, log, i, j);
    }
  }

  // ---------- Which alerts are duplicates ----------

  /** Two bodies begin alike: in their first 40 characters, or as a whole when one is shorter. */
  predicate BeginAlike(a: string, b: string) {
    a == b || (|a| >= 40 && |b| >= 40 && a[..40] == b[..40])
  }

  /** Alerts about named processes are duplicates exactly when title, name and beginning agree, the process id being immaterial. */
  lemma NamedDuplicates(a: Notification, b: Notification)
    requires a.processName.Some? && a.processName.value != "" && b.processName.Some? && b.processName.value != ""
    requires ':' !in a.title && ':' !in b.title && ':' !in a.processName.value && ':' !in b.processName.value
    ensures DedupKey(a) == DedupKey(b) <==>
              a.title == b.title && a.processName == b.processName && BeginAlike(a.body, b.body)
  {
    KeySplits(a.title, a.processName.value, a.body, b.title, b.processName.value, b.body);
  }

  /** Alerts about processes known by id only, exactly when title, id and beginning agree. */
  lemma NumberedDuplicates(a: Notification, b: Notification)
    requires a.processName in {None, Some("")} && b.processName in {None, Some("")} && a.pid.Some? && b.pid.Some?
    requires ':' !in a.title && ':' !in b.title
    ensures DedupKey(a) == DedupKey(b) <==> a.title == b.title && a.pid == b.pid && BeginAlike(a.body, b.body)
  {
    var p, q := Subjects.Decimal(a.pid.value), Subjects.Decimal(b.pid.value);
    KeySplits(a.title, p, a.body, b.title, q, b.body);
    if p == q {
      Subjects.DecimalInjective(a.pid.value, b.pid.value);
    }
  }

  /** Alerts with one title about one process, whatever it is called, exactly when the beginnings agree. */
  lemma OneSubject(a: Notification, b: Notification)
    requires a.title == b.title && a.processName == b.processName && a.pid == b.pid
    ensures DedupKey(a) == DedupKey(b) <==> BeginAlike(a.body, b.body)
  {
    var who := if a.processName.Some? && a.processName.value != "" then a.processName.value
               else if a.pid.Some? then Subjects.Decimal(a.pid.value) else "None";
    var head := a.title + ":" + who + ":";
    var x, y := if |a.body| < 40 then a.body else a.body[..40], if |b.body| < 40 then b.body else b.body[..40];
    assert DedupKey(a) == head + x && DedupKey(b) == head + y;
    assert (head + x)[|head|..] == x && (head + y)[|head|..] == y;
  }

  /** What stands before a first colon and what stands after it can be told apart. */
  lemma ColonSplits(s: string, x: string, t: string, y: string)
    requires ':' !in s && ':' !in t && s + (":" + x) == t + (":" + y)
    ensures s == t && x == y
  {
    Subjects.FieldOf(s, ":" + x);
    Subjects.FieldOf(t, ":" + y);
    assert (s + (":" + x))[|s| + 1..] == x && (t + (":" + y))[|t| + 1..] == y;
  }

  /** So can three parts with a colon after each of the first two, which have none themselves. */
  lemma KeySplits(s: string, x: string, v: string, t: string, y: string, w: string)
    requires ':' !in s && ':' !in t && ':' !in x && ':' !in y
    ensures var b, d := if |v| < 40 then v else v[..40], if |w| < 40 then w else w[..40];
            s + ":" + x + ":" + b == t + ":" + y + ":" + d <==> s == t && x == y && BeginAlike(v, w)
  {
    var b, d := if |v| < 40 then v else v[..40], if |w| < 40 then w else w[..40];
    if s + ":" + x + ":" + b == t + ":" + y + ":" + d {
      Regroup(s, x, b);
      Regroup(t, y, d);
      ColonSplits(s, x + (":" + b), t, y + (":" + d));
      ColonSplits(x, b, y, d);
    }
  }

  lemma Regroup(s: string, x: string, b: string)
    ensures s + ":" + x + ":" + b == s + (":" + (x + (":" + b)))
  {
  }

  /** Colons in names, and numbers as names, make alerts duplicates that are not about the same thing: two instances. */
  lemma KeysCollide()
    ensures DedupKey(Notification("T", "b:c", Alert, Some("a"), None)) == DedupKey(Notification("T", "c", Alert, Some("a:b"), None))
    ensures DedupKey(Notification("T", "x", Alert, Some("7"), None)) == DedupKey(Notification("T", "x", Alert, None, Some(7)))
  {
    assert "T" + ":" + "a" + ":" + "b:c" == "T:a:b:c" == "T" + ":" + "a:b" + ":" + "c";
    assert Subjects.Decimal(7) == ['0' + 7 as char] == "7";
  }

  /** The number in the text tells how many were suppressed. */
  lemma ReportTells(body: string, m: nat, n: nat)
    requires body + "\n(+" + Subjects.Decimal(m) + " burst events suppressed)" == body + "\n(+" + Subjects.Decimal(n) + " burst events suppressed)"
    ensures m == n
  {
    var head, tail := body + "\n(+", " burst events suppressed)";
    var x, y := Subjects.Decimal(m), Subjects.Decimal(n);
    assert head + x + tail == head + y + tail;
    assert |x| == |y| && (head + x + tail)[|head|..|head| + |x|] == x && (head + y + tail)[|head|..|head| + |y|] == y;
    Subjects.DecimalInjective(m, n);
  }

  class Notifier {
    const cooldown: real
    var recent: map<string, real>
    var suppressed: map<string, nat>
    ghost var log: seq<Submission>

    /** The tables are what the whole history makes of them. */
    ghost predicate Valid()
      reads this
    {
      State(recent, suppressed) == Run(cooldown, log)
    }

    constructor (cooldown: real)
      ensures Valid() && log == [] && this.cooldown == cooldown
    {
      this.cooldown := cooldown;
      recent, suppressed, log := map[], map[], [];
    }

    /** `out` is what goes on to the channels; `toast` and `balloon` are what they answer. */
    method Send(n: Notification, now: real, toast: bool, balloon: bool) returns (sent: bool, out: Option<Notification>)
      requires Valid()
      modifies this
      ensures Valid()
      ensures log == if n.kind.Alert? then old(log) + [Submission(DedupKey(n), now, toast || balloon)] else old(log)
      ensures n.kind.Alert? ==>
        && (out.Some? <==> Shown(cooldown, log, |log| - 1))
        && (out.Some? ==>
              var count := Reported(cooldown, log, |log| - 1);
              out.value == if count == 0 then n
                           else n.(body := n.body + "\n(+" + Subjects.Decimal(count) + " burst events suppressed)"))
      ensures !n.kind.Alert? ==> out == Some(n) && recent == old(recent) && suppressed == old(suppressed)
      ensures sent <==> out.Some? && (toast || balloon)
    {
      var shown := n;
      if n.kind.Alert? {
        var key := DedupKey(n);
        var last := Get(recent, key, 0.0);
        ghost var before := log;
        log := log + [Submission(key, now, toast || balloon)];
        assert log[..|log| - 1] == before;
        AdmittedIsShown(cooldown, log, |log| - 1);
        if now - last < cooldown {
          suppressed := suppressed[key := Get(suppressed, key, 0) + 1];
          return false, None;
        }
        var count := Get(suppressed, key, 0);
        suppressed := suppressed - {key};
        if count > 0 {
          shown := shown.(body := shown.body + "\n(+" + Subjects.Decimal(count) + " burst events suppressed)");
        }
        recent := recent[key := now];
      }
      return toast || balloon, Some(shown);
    }
  }
}
