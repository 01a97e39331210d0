/**
 * Rule conditions: selections over an event, the recursive-descent evaluator with its
 * mutable cursor, and the grammar it turns out to decide.
 */
module Conditions {

  datatype Result<T> = Ok(value: T) | SyntaxError

  // ---------- Selections ----------

  /** A criterion's right-hand side: one value, or a list of which any may match. */
  datatype Expected = One(value: string) | AnyOf(values: seq<string>)

  datatype Criterion = Criterion(field: string, modifier: string, expected: Expected)

  /** An external hook is a selection that never matches. */
  datatype Selection = Selection(criteria: seq<Criterion>, alwaysFalse: bool)

  /** The textual value of each field an event has. */
  type Event = map<string, string>

  predicate EndsWith(s: string, t: string) {
    |t| <= |s| && s[|s| - |t|..] == t
  }

  predicate Contains(s: string, t: string) {
    exists i :: 0 <= i <= |s| && t <= s[i..]
  }

  const SUPPORTED: set<string> := {"equals", "endswith", "startswith", "contains"}

  function MatchValue(ev: Event, field: string, expected: string, modifier: string, lower: string -> string): Result<bool> {
    if field !in ev then Ok(false)
    else
      var a, e := lower(ev[field]), lower(expected);
      if modifier == "equals" then Ok(a == e)
      else if modifier == "endswith" then Ok(EndsWith(a, e))
      else if modifier == "startswith" then Ok(e <= a)
      else if modifier == "contains" then Ok(Contains(a, e))
      else SyntaxError
  }

  /** `any(...)` over a list of values, stopping at the first match or error. */
  function MatchAny(ev: Event, c: Criterion, values: seq<string>, lower: string -> string): Result<bool> {
    if values == [] then Ok(false)
    else
      var first := MatchValue(ev, c.field, values[0], c.modifier, lower);
      if first == Ok(false) then MatchAny(ev, c, values[1..], lower) else first
  }

  function MatchCriterion(ev: Event, c: Criterion, lower: string -> string): Result<bool> {
    match c.expected
    case One(v) => MatchValue(ev, c.field, v, c.modifier, lower)
    case AnyOf(vs) => MatchAny(ev, c, vs, lower)
  }

  function MatchAll(ev: Event, criteria: seq<Criterion>, lower: string -> string): Result<bool> {
    if criteria == [] then Ok(true)
    else
      var first := MatchCriterion(ev, criteria[0], lower);
      if first == Ok(true) then MatchAll(ev, criteria[1..], lower) else first
  }

  function Matches(sel: Selection, ev: Event, lower: string -> string): Result<bool> {
    if sel.alwaysFalse then Ok(false) else MatchAll(ev, sel.criteria, lower)
  }

  // ---------- What a criterion says ----------

  /** Two lower-cased texts stand in the relation a modifier names; an unknown one names none. */
  ghost predicate Fits(a: string, e: string, modifier: string) {
    || (modifier == "equals" && a == e)
    || (modifier == "endswith" && exists p :: a == p + e)
    || (modifier == "startswith" && exists s :: a == e + s)
    || (modifier == "contains" && exists p, s :: a == p + e + s)
  }

  /** The event has the field, and its value fits the one compared with, or one of the list. */
  ghost predicate Holds(ev: Event, c: Criterion, lower: string -> string) {
    c.field in ev &&
    match c.expected
    case One(v) => Fits(lower(ev[c.field]), lower(v), c.modifier)
    case AnyOf(vs) => exists i :: 0 <= i < |vs| && Fits(lower(ev[c.field]), lower(vs[i]), c.modifier)
  }

  lemma EndsWithIff(s: string, t: string)
    ensures EndsWith(s, t) <==> exists p :: s == p + t
  {
    if EndsWith(s, t) {
      assert s == s[..|s| - |t|] + t;
    }
    if p :| s == p + t {
      assert s[|p|..] == t;
    }
  }

  lemma StartsWithIff(s: string, t: string)
    ensures t <= s <==> exists q :: s == t + q
  {
    if t <= s {
      assert s == t + s[|t|..];
    }
  }

  lemma ContainsIff(s: string, t: string)
    ensures Contains(s, t) <==> exists p, q :: s == p + t + q
  {
    if i :| 0 <= i <= |s| && t <= s[i..] {
      assert s == s[..i] + t + s[i + |t|..];
    }
    if p, q :| s == p + t + q {
      assert s[|p|..] == t + q;
    }
  }

  /** What each modifier means, on a field the event has. */
  lemma ValueFits(ev: Event, field: string, expected: string, modifier: string, lower: string -> string)
    ensures MatchValue(ev, field, expected, modifier, lower) == Ok(true) <==>
              field in ev && Fits(lower(ev[field]), lower(expected), modifier)
    ensures MatchValue(ev, field, expected, modifier, lower) == SyntaxError <==>
              field in ev && modifier !in {"equals", "endswith", "startswith", "contains"}
  {
    if field in ev {
      var a, e := lower(ev[field]), lower(expected);
      EndsWithIff(a, e);
      StartsWithIff(a, e);
      ContainsIff(a, e);
    }
  }

  lemma {:induction false} AnyFits(ev: Event, c: Criterion, values: seq<string>, lower: string -> string)
    ensures MatchAny(ev, c, values, lower) == Ok(true) <==>
              c.field in ev && exists i :: 0 <= i < |values| && Fits(lower(ev[c.field]), lower(values[i]), c.modifier)
  {
    if values != [] {
      var rest := values[1..];
      ValueFits(ev, c.field, values[0], c.modifier, lower);
      AnyFits(ev, c, rest, lower);
      if c.field in ev {
        assert forall i :: 0 < i < |values| ==> values[i] == rest[i - 1];
        assert forall i :: 0 <= i < |rest| ==> rest[i] == values[i + 1];
        if c.modifier !in SUPPORTED {
          assert forall v :: !Fits(lower(ev[c.field]), lower(v), c.modifier);
        }
      }
    }
  }

  lemma HoldsIff(ev: Event, c: Criterion, lower: string -> string)
    ensures MatchCriterion(ev, c, lower) == Ok(true) <==> Holds(ev, c, lower)
  {
    match c.expected {
      case One(v) => ValueFits(ev, c.field, v, c.modifier, lower);
      case AnyOf(vs) => AnyFits(ev, c, vs, lower);
    }
  }

  /** A selection is no hook and all of its criteria hold. */
  ghost predicate SelectionHolds(sel: Selection, ev: Event, lower: string -> string) {
    !sel.alwaysFalse && forall c :: c in sel.criteria ==> Holds(ev, c, lower)
  }

  /** A selection matches exactly when it holds. */
  lemma {:induction false} MatchesIff(sel: Selection, ev: Event, lower: string -> string)
    ensures Matches(sel, ev, lower) == Ok(true) <==> SelectionHolds(sel, ev, lower)
    decreases |sel.criteria|
  {
    if !sel.alwaysFalse && sel.criteria != [] {
      var rest := sel.criteria[1..];
      assert sel.criteria == [sel.criteria[0]] + rest;
      HoldsIff(ev, sel.criteria[0], lower);
      MatchesIff(Selection(rest, false), ev, lower);
    }
  }

  predicate Supported(sel: Selection) {
    forall c :: c in sel.criteria ==> c.modifier in SUPPORTED
  }

  lemma {:induction false} SupportedMatches(sel: Selection, ev: Event, lower: string -> string)
    requires Supported(sel)
    ensures Matches(sel, ev, lower).Ok?
    decreases |sel.criteria|
  {
    if !sel.alwaysFalse && sel.criteria != [] {
      var c := sel.criteria[0];
      assert c in sel.criteria;
      if c.expected.AnyOf? {
        SupportedAny(ev, c, c.expected.values, lower);
      }
      SupportedMatches(Selection(sel.criteria[1..], false), ev, lower);
    }
  }

  lemma {:induction false} SupportedAny(ev: Event, c: Criterion, values: seq<string>, lower: string -> string)
    requires c.modifier in SUPPORTED
    ensures MatchAny(ev, c, values, lower).Ok?
  {
    if values != [] {
      SupportedAny(ev, c, values[1..], lower);
    }
  }

  // ---------- When a selection raises ----------

  /** The values a criterion compares with; an empty list has none. */
  function Values(c: Criterion): seq<string> {
    match c.expected case One(v) => [v] case AnyOf(vs) => vs
  }

  /** Reached on an event that has its field, the criterion raises. */
  predicate Bad(c: Criterion) {
    c.modifier !in SUPPORTED && Values(c) != []
  }

  lemma {:induction false} AnyRaises(ev: Event, c: Criterion, values: seq<string>, lower: string -> string)
    ensures MatchAny(ev, c, values, lower).SyntaxError? <==> c.modifier !in SUPPORTED && values != [] && c.field in ev
  {
    if values != [] {
      AnyRaises(ev, c, values[1..], lower);
    }
  }

  lemma CriterionRaises(ev: Event, c: Criterion, lower: string -> string)
    ensures MatchCriterion(ev, c, lower).SyntaxError? <==> Bad(c) && c.field in ev
  {
    if c.expected.AnyOf? {
      AnyRaises(ev, c, c.expected.values, lower);
    }
  }

  /** The evaluation gets to criterion `i`: all before it hold. */
  ghost predicate Reaches(ev: Event, criteria: seq<Criterion>, i: nat, lower: string -> string)
    requires i <= |criteria|
  {
    forall j :: 0 <= j < i ==> Holds(ev, criteria[j], lower)
  }

  /** Criterion `i` raises on the event, and the evaluation gets to it. */
  ghost predicate RaisesAt(ev: Event, criteria: seq<Criterion>, i: nat, lower: string -> string)
    requires i < |criteria|
  {
    Bad(criteria[i]) && criteria[i].field in ev && Reaches(ev, criteria, i, lower)
  }

  lemma {:induction false} AllRaises(ev: Event, criteria: seq<Criterion>, lower: string -> string)
    ensures MatchAll(ev, criteria, lower).SyntaxError? <==>
            exists i :: 0 <= i < |criteria| && RaisesAt(ev, criteria, i, lower)
  {
    if criteria != [] {
      var rest := criteria[1..];
      CriterionRaises(ev, criteria[0], lower);
      HoldsIff(ev, criteria[0], lower);
      AllRaises(ev, rest, lower);
      if MatchAll(ev, criteria, lower).SyntaxError? {
        if MatchCriterion(ev, criteria[0], lower).SyntaxError? {
          assert RaisesAt(ev, criteria, 0, lower);
        } else {
          var i :| 0 <= i < |rest| && RaisesAt(ev, rest, i, lower);
          RaisesLater(ev, criteria, i, lower);
        }
      }
      if i :| 0 <= i < |criteria| && RaisesAt(ev, criteria, i, lower) {
        if i > 0 {
          assert Holds(ev, criteria[0], lower);
          RaisesLater(ev, criteria, i - 1, lower);
        }
      }
    }
  }

  lemma RaisesLater(ev: Event, criteria: seq<Criterion>, i: nat, lower: string -> string)
    requires i + 1 < |criteria| && Holds(ev, criteria[0], lower)
    ensures RaisesAt(ev, criteria[1..], i, lower) <==> RaisesAt(ev, criteria, i + 1, lower)
  {
    var rest := criteria[1..];
    assert rest[i] == criteria[i + 1];
    if Reaches(ev, rest, i, lower) {
      forall j | 0 <= j < i + 1 ensures Holds(ev, criteria[j], lower) {
        if j > 0 {
          assert rest[j - 1] == criteria[j];
        }
      }
    }
    if Reaches(ev, criteria, i + 1, lower) {
      forall j | 0 <= j < i ensures Holds(ev, rest[j], lower) {
        assert rest[j] == criteria[j + 1];
      }
    }
  }

  /** No event makes the selection raise. */
  ghost predicate Harmless(sel: Selection, lower: string -> string) {
    forall ev :: Matches(sel, ev, lower).Ok?
  }

  /** Some criterion is bad and none before it has an empty list of values. */
  predicate CanRaise(sel: Selection) {
    !sel.alwaysFalse &&
    exists i :: 0 <= i < |sel.criteria| && Bad(sel.criteria[i]) && forall j :: 0 <= j < i ==> Values(sel.criteria[j]) != []
  }

  /** No two criteria are about one field. */
  predicate FieldsDiffer(sel: Selection) {
    forall i, j :: 0 <= i < j < |sel.criteria| ==> sel.criteria[i].field != sel.criteria[j].field
  }

  /** An event that gives each field the first value its criterion compares with. */
  function Model(criteria: seq<Criterion>): Event {
    if criteria == [] then map[]
    else
      var last := criteria[|criteria| - 1];
      Model(criteria[..|criteria| - 1])[last.field := if Values(last) != [] then Values(last)[0] else ""]
  }

  lemma {:induction false} ModelAt(criteria: seq<Criterion>, i: nat)
    requires i < |criteria| && Values(criteria[i]) != []
    requires forall j :: i < j < |criteria| ==> criteria[i].field != criteria[j].field
    ensures criteria[i].field in Model(criteria) && Model(criteria)[criteria[i].field] == Values(criteria[i])[0]
  {
    if i < |criteria| - 1 {
      ModelAt(criteria[..|criteria| - 1], i);
    }
  }

  /** A field that has the value compared with meets every supported modifier. */
  lemma OwnValueMatches(ev: Event, c: Criterion, lower: string -> string)
    requires c.modifier in SUPPORTED && Values(c) != [] && c.field in ev && ev[c.field] == Values(c)[0]
    ensures Holds(ev, c, lower)
  {
    var a := lower(ev[c.field]);
    assert a == [] + a == a + [] == [] + a + [];
    assert Fits(a, a, c.modifier);
  }

  /** A bad criterion that no empty list stands in front of makes some event raise. */
  lemma FirstBadRaises(sel: Selection, i: nat, lower: string -> string)
    requires !sel.alwaysFalse && FieldsDiffer(sel) && i < |sel.criteria| && Bad(sel.criteria[i])
    requires forall j :: 0 <= j < i ==> !Bad(sel.criteria[j]) && Values(sel.criteria[j]) != []
    ensures Matches(sel, Model(sel.criteria), lower).SyntaxError?
  {
    var ev := Model(sel.criteria);
    ModelAt(sel.criteria, i);
    forall j | 0 <= j < i ensures Holds(ev, sel.criteria[j], lower) {
      ModelAt(sel.criteria, j);
      OwnValueMatches(ev, sel.criteria[j], lower);
    }
    assert RaisesAt(ev, sel.criteria, i, lower);
    AllRaises(ev, sel.criteria, lower);
  }

  /** An empty list matches nothing, so what stands behind it is never reached. */
  lemma EmptyListStops(ev: Event, criteria: seq<Criterion>, i: nat, lower: string -> string)
    requires i <= |criteria| && Reaches(ev, criteria, i, lower)
    ensures forall j :: 0 <= j < i ==> Values(criteria[j]) != []
  {
    forall j | 0 <= j < i ensures Values(criteria[j]) != [] {
      assert Holds(ev, criteria[j], lower);
    }
  }

  lemma RaisesOnlyIfCan(sel: Selection, ev: Event, lower: string -> string)
    requires Matches(sel, ev, lower).SyntaxError?
    ensures CanRaise(sel)
  {
    AllRaises(ev, sel.criteria, lower);
    var i :| 0 <= i < |sel.criteria| && RaisesAt(ev, sel.criteria, i, lower);
    EmptyListStops(ev, sel.criteria, i, lower);
  }

  lemma {:induction false} FirstBad(criteria: seq<Criterion>, i: nat) returns (k: nat)
    requires i < |criteria| && Bad(criteria[i])
    ensures k <= i && Bad(criteria[k]) && forall j :: 0 <= j < k ==> !Bad(criteria[j])
  {
    if j: nat :| j < i && Bad(criteria[j]) {
      k := FirstBad(criteria, j);
    } else {
      k := i;
    }
  }

  /** Read off the rule: with one criterion per field, some event makes a selection raise exactly when it can. */
  lemma HarmlessIff(sel: Selection, lower: string -> string)
    ensures !CanRaise(sel) ==> Harmless(sel, lower)
    ensures FieldsDiffer(sel) ==> (Harmless(sel, lower) <==> !CanRaise(sel))
  {
    forall ev | Matches(sel, ev, lower).SyntaxError? ensures CanRaise(sel) {
      RaisesOnlyIfCan(sel, ev, lower);
    }
    if FieldsDiffer(sel) && CanRaise(sel) {
      var i :| 0 <= i < |sel.criteria| && Bad(sel.criteria[i]) && forall j :: 0 <= j < i ==> Values(sel.criteria[j]) != [];
      var k := FirstBad(sel.criteria, i);
      FirstBadRaises(sel, k, lower);
    }
  }

  /** Whatever the fields, a bad first criterion decides. */
  lemma BadFirstRaises(sel: Selection, lower: string -> string)
    requires !sel.alwaysFalse && sel.criteria != [] && Bad(sel.criteria[0])
    ensures !Harmless(sel, lower)
  {
    var ev: Event := map[sel.criteria[0].field := ""];
    assert RaisesAt(ev, sel.criteria, 0, lower);
    AllRaises(ev, sel.criteria, lower);
    assert Matches(sel, ev, lower).SyntaxError?;
  }

  /** On an event without fields no selection raises. */
  lemma EmptyEventIsSafe(sel: Selection, lower: string -> string)
    ensures Matches(sel, map[], lower).Ok?
  {
    AllRaises(map[], sel.criteria, lower);
  }

  // ---------- What the parser computes ----------

  /** The value of every selection on one event. */
  type Env = map<string, Result<bool>>

  function EnvOf(selections: map<string, Selection>, ev: Event, lower: string -> string): Env {
    map n | n in selections :: Matches(selections[n], ev, lower)
  }

  datatype Parse = Parsed(val: bool, pos: nat) | Failed

  function ParseOr(ts: seq<string>, pos: nat, env: Env): (r: Parse)
    requires pos <= |ts|
    ensures r.Parsed? ==> pos < r.pos <= |ts|
    decreases |ts| - pos, 5
  {
    match ParseAnd(ts, pos, env)
    case Failed => Failed
    case Parsed(v, p) => OrRest(ts, p, v, env)
  }

  function OrRest(ts: seq<string>, pos: nat, val: bool, env: Env): (r: Parse)
    requires pos <= |ts|
    ensures r.Parsed? ==> pos <= r.pos <= |ts|
    decreases |ts| - pos, 6
  {
    if pos < |ts| && ts[pos] == "or" then
      match ParseAnd(ts, pos + 1, env)
      case Failed => Failed
      case Parsed(w, p) => OrRest(ts, p, val || w, env)
    else Parsed(val, pos)
  }

  function ParseAnd(ts: seq<string>, pos: nat, env: Env): (r: Parse)
    requires pos <= |ts|
    ensures r.Parsed? ==> pos < r.pos <= |ts|
    decreases |ts| - pos, 3
  {
    match ParseNot(ts, pos, env)
    case Failed => Failed
    case Parsed(v, p) => AndRest(ts, p, v, env)
  }

  function AndRest(ts: seq<string>, pos: nat, val: bool, env: Env): (r: Parse)
    requires pos <= |ts|
    ensures r.Parsed? ==> pos <= r.pos <= |ts|
    decreases |ts| - pos, 4
  {
    if pos < |ts| && ts[pos] == "and" then
      match ParseNot(ts, pos + 1, env)
      case Failed => Failed
      case Parsed(w, p) => AndRest(ts, p, val && w, env)
    else Parsed(val, pos)
  }

  function ParseNot(ts: seq<string>, pos: nat, env: Env): (r: Parse)
    requires pos <= |ts|
    ensures r.Parsed? ==> pos < r.pos <= |ts|
    decreases |ts| - pos, 2
  {
    if pos < |ts| && ts[pos] == "not" then
      match ParseNot(ts, pos + 1, env)
      case Failed => Failed
      case Parsed(v, p) => Parsed(!v, p)
    else ParseAtom(ts, pos, env)
  }

  function ParseAtom(ts: seq<string>, pos: nat, env: Env): (r: Parse)
    requires pos <= |ts|
    ensures r.Parsed? ==> pos < r.pos <= |ts|
    decreases |ts| - pos, 1
  {
    if pos == |ts| then Failed
    else if ts[pos] == "(" then
      match ParseOr(ts, pos + 1, env)
      case Failed => Failed
      case Parsed(v, p) => if p < |ts| && ts[p] == ")" then Parsed(v, p + 1) else Failed
    else if ts[pos] in env && env[ts[pos]].Ok? then Parsed(env[ts[pos]].value, pos + 1)
    else Failed
  }

  function Eval(ts: seq<string>, env: Env): Result<bool> {
    match ParseOr(ts, 0, env)
    case Failed => SyntaxError
    case Parsed(v, p) => if p == |ts| then Ok(v) else SyntaxError
  }

  // ---------- The evaluator object ----------

  class Condition {
    const tokens: seq<string>
    const selections: map<string, Selection>
    const lower: string -> string
    var pos: nat

    constructor (tokens: seq<string>, selections: map<string, Selection>, lower: string -> string)
      ensures this.tokens == tokens && this.selections == selections && this.lower == lower
    {
      this.tokens, this.selections, this.lower := tokens, selections, lower;
      pos := 0;
    }

    /** How a parsing method's outcome and the cursor it leaves reflect the specification. */
    ghost predicate Reflects(p: Parse, r: Result<bool>)
      reads this
    {
      match p
      case Failed => r == SyntaxError
      case Parsed(v, q) => r == Ok(v) && pos == q
    }

    function Peek(): string
      reads this
    {
      if pos < |tokens| then tokens[pos] else ""
    }

    /** The same answer for the same event, whatever an earlier evaluation left in the cursor. */
    method Evaluate(ev: Event) returns (r: Result<bool>)
      modifies this
      ensures r == Eval(tokens, EnvOf(selections, ev, lower))
    {
      pos := 0;
      r := EvalOr(ev);
      if r.Ok? && pos != |tokens| {
        r := SyntaxError;
      }
    }

    method EvalOr(ev: Event) returns (r: Result<bool>)
      requires pos <= |tokens|
      modifies this
      ensures Reflects(ParseOr(tokens, old(pos), EnvOf(selections, ev, lower)), r)
      decreases |tokens| - pos, 4
    {
      ghost var env := EnvOf(selections, ev, lower);
      r := EvalAnd(ev);
      while r.Ok? && pos < |tokens| && tokens[pos] == "or"
        invariant r.Ok? ==> old(pos) < pos <= |tokens| && OrRest(tokens, pos, r.value, env) == ParseOr(tokens, old(pos), env)
        invariant r.SyntaxError? ==> ParseOr(tokens, old(pos), env) == Failed
        decreases r.Ok?, |tokens| - pos
      {
        pos := pos + 1;
        var rhs := EvalAnd(ev);
        r := if rhs.Ok? then Ok(r.value || rhs.value) else SyntaxError;
      }
    }

    method EvalAnd(ev: Event) returns (r: Result<bool>)
      requires pos <= |tokens|
      modifies this
      ensures Reflects(ParseAnd(tokens, old(pos), EnvOf(selections, ev, lower)), r)
      decreases |tokens| - pos, 3
    {
      ghost var env := EnvOf(selections, ev, lower);
      r := EvalNot(ev);
      while r.Ok? && pos < |tokens| && tokens[pos] == "and"
        invariant r.Ok? ==> old(pos) < pos <= |tokens| && AndRest(tokens, pos, r.value, env) == ParseAnd(tokens, old(pos), env)
        invariant r.SyntaxError? ==> ParseAnd(tokens, old(pos), env) == Failed
        decreases r.Ok?, |tokens| - pos
      {
        pos := pos + 1;
        var rhs := EvalNot(ev);
        r := if rhs.Ok? then Ok(r.value && rhs.value) else SyntaxError;
      }
    }

    method EvalNot(ev: Event) returns (r: Result<bool>)
      requires pos <= |tokens|
      modifies this
      ensures Reflects(ParseNot(tokens, old(pos), EnvOf(selections, ev, lower)), r)
      decreases |tokens| - pos, 2
    {
      if Peek() == "not" {
        pos := pos + 1;
        r := EvalNot(ev);
        r := if r.Ok? then Ok(!r.value) else SyntaxError;
      } else {
        r := EvalAtom(ev);
      }
    }

    method EvalAtom(ev: Event) returns (r: Result<bool>)
      requires pos <= |tokens|
      modifies this
      ensures Reflects(ParseAtom(tokens, old(pos), EnvOf(selections, ev, lower)), r)
      decreases |tokens| - pos, 1
    {
      if Peek() == "(" {
        pos := pos + 1;
        r := EvalOr(ev);
        if r.Ok? {
          if pos == |tokens| || tokens[pos] != ")" {
            r := SyntaxError;
          }
          pos := pos + 1;
        }
        return;
      }
      if pos == |tokens| {
        pos := pos + 1;
        return SyntaxError;
      }
      var ident := tokens[pos];
      pos := pos + 1;
      if ident !in selections {
        return SyntaxError;
      }
      r := Matches(selections[ident], ev, lower);
    }
  }
}
