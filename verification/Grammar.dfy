/**
 * The grammar of rule conditions and its meaning, independent of the parser, and the proof
 * that the evaluator accepts exactly that grammar and computes exactly that meaning.
 */
module Grammar {
  import opened Conditions

  datatype Expr =
    | Sel(name: string)
    | Group(body: Expr)
    | Not(arg: Expr)
    | And(left: Expr, right: Expr)
    | Or(left: Expr, right: Expr)

  /** A name that can stand for a selection: known, evaluated without error, and not read as an operator first. */
  predicate Usable(name: string, env: Env) {
    name in env && env[name].Ok? && name != "not" && name != "("
  }

  /** Printed without adding parentheses, the expression reads back as itself: not over and over or. */
  predicate WellFormed(e: Expr, env: Env) {
    match e
    case Sel(n) => Usable(n, env)
    case Group(b) => WellFormed(b, env)
    case Not(a) => WellFormed(a, env) && !a.And? && !a.Or?
    case And(l, r) => WellFormed(l, env) && WellFormed(r, env) && !l.Or? && !r.Or?
    case Or(l, r) => WellFormed(l, env) && WellFormed(r, env)
  }

  function Print(e: Expr): (ts: seq<string>)
    ensures ts != []
  {
    match e
    case Sel(n) => [n]
    case Group(b) => ["("] + Print(b) + [")"]
    case Not(a) => ["not"] + Print(a)
    case And(l, r) => Print(l) + ["and"] + Print(r)
    case Or(l, r) => Print(l) + ["or"] + Print(r)
  }

  function Denote(e: Expr, env: Env): bool
    requires WellFormed(e, env)
  {
    match e
    case Sel(n) => env[n].value
    case Group(b) => Denote(b, env)
    case Not(a) => !Denote(a, env)
    case And(l, r) => Denote(l, env) && Denote(r, env)
    case Or(l, r) => Denote(l, env) || Denote(r, env)
  }

  /** The tokens from `pos` on begin with `part`. */
  predicate Starts(ts: seq<string>, pos: nat, part: seq<string>) {
    pos + |part| <= |ts| && ts[pos..pos + |part|] == part
  }

  lemma StartsSplit(ts: seq<string>, pos: nat, a: seq<string>, op: string, b: seq<string>)
    requires Starts(ts, pos, a + [op] + b)
    ensures Starts(ts, pos, a) && pos + |a| < |ts| && ts[pos + |a|] == op && Starts(ts, pos + |a| + 1, b)
  {
    var whole := a + [op] + b;
    assert ts[pos + |a|] == ts[pos..pos + |whole|][|a|] == whole[|a|];
    assert ts[pos..pos + |a|] == ts[pos..pos + |whole|][..|a|] == whole[..|a|] == a;
    assert ts[pos + |a| + 1..pos + |whole|] == ts[pos..pos + |whole|][|a| + 1..] == whole[|a| + 1..] == b;
  }

  lemma GroupSplit(ts: seq<string>, pos: nat, body: seq<string>)
    requires Starts(ts, pos, ["("] + body + [")"])
    ensures var close := pos + 1 + |body|;
            close < |ts| && ts[pos] == "(" && Starts(ts, pos + 1, body) && ts[close] == ")"
  {
    StartsSplit(ts, pos, ["("] + body, ")", []);
    assert ["("] + body == [] + ["("] + body;
    StartsSplit(ts, pos, [], "(", body);
  }

  // ---------- Every sentence is accepted, with its meaning ----------

  /** What the and-loop does from `pos` when everything before it came to `val`. */
  function AndFrom(ts: seq<string>, pos: nat, val: bool, env: Env): Parse
    requires pos <= |ts|
  {
    match ParseNot(ts, pos, env)
    case Failed => Failed
    case Parsed(w, p) => AndRest(ts, p, val && w, env)
  }

  function OrFrom(ts: seq<string>, pos: nat, val: bool, env: Env): Parse
    requires pos <= |ts|
  {
    match ParseAnd(ts, pos, env)
    case Failed => Failed
    case Parsed(w, p) => OrRest(ts, p, val || w, env)
  }

  lemma RestContinues(ts: seq<string>, pos: nat, val: bool, env: Env)
    requires pos < |ts|
    ensures ts[pos] == "and" ==> AndRest(ts, pos, val, env) == AndFrom(ts, pos + 1, val, env)
    ensures ts[pos] == "or" ==> OrRest(ts, pos, val, env) == OrFrom(ts, pos + 1, val, env)
  {
  }

  lemma {:induction false} ReadsNot(ts: seq<string>, pos: nat, e: Expr, env: Env)
    requires WellFormed(e, env) && !e.And? && !e.Or? && Starts(ts, pos, Print(e))
    ensures ParseNot(ts, pos, env) == Parsed(Denote(e, env), pos + |Print(e)|)
    decreases e, 0
  {
    assert ts[pos] == Print(e)[0];
    match e {
      case Sel(n) =>
      case Not(a) =>
        StartsSplit(ts, pos, [], "not", Print(a));
        ReadsNot(ts, pos + 1, a, env);
      case Group(b) =>
        GroupSplit(ts, pos, Print(b));
        ReadsOr(ts, pos + 1, b, env);
    }
  }

  lemma {:induction false} ReadsAnd(ts: seq<string>, pos: nat, val: bool, e: Expr, env: Env)
    requires WellFormed(e, env) && !e.Or? && Starts(ts, pos, Print(e))
    ensures AndFrom(ts, pos, val, env) == AndRest(ts, pos + |Print(e)|, val && Denote(e, env), env)
    decreases e, 1
  {
    if e.And? {
      ReadsAndPair(ts, pos, val, e.left, e.right, env);
    } else {
      ReadsNot(ts, pos, e, env);
    }
  }

  lemma {:induction false} ReadsAndPair(ts: seq<string>, pos: nat, val: bool, l: Expr, r: Expr, env: Env)
    requires WellFormed(l, env) && WellFormed(r, env) && !l.Or? && !r.Or?
    requires Starts(ts, pos, Print(l) + ["and"] + Print(r))
    ensures AndFrom(ts, pos, val, env) ==
            AndRest(ts, pos + |Print(l) + ["and"] + Print(r)|, val && Denote(l, env) && Denote(r, env), env)
    decreases And(l, r), 0
  {
    hide AndFrom, AndRest;
    var mid := pos + |Print(l)|;
    StartsSplit(ts, pos, Print(l), "and", Print(r));
    ReadsAnd(ts, pos, val, l, env);
    RestContinues(ts, mid, val && Denote(l, env), env);
    ReadsAnd(ts, mid + 1, val && Denote(l, env), r, env);
  }

  lemma {:induction false} ReadsOrFrom(ts: seq<string>, pos: nat, val: bool, e: Expr, env: Env)
    requires WellFormed(e, env) && Starts(ts, pos, Print(e))
    requires pos + |Print(e)| < |ts| ==> ts[pos + |Print(e)|] != "and"
    ensures OrFrom(ts, pos, val, env) == OrRest(ts, pos + |Print(e)|, val || Denote(e, env), env)
    decreases e, 2
  {
    if e.Or? {
      ReadsOrPair(ts, pos, val, e.left, e.right, env);
    } else {
      ReadsAnd(ts, pos, true, e, env);
    }
  }

  lemma {:induction false} ReadsOrPair(ts: seq<string>, pos: nat, val: bool, l: Expr, r: Expr, env: Env)
    requires WellFormed(l, env) && WellFormed(r, env) && Starts(ts, pos, Print(l) + ["or"] + Print(r))
    requires var end := pos + |Print(l) + ["or"] + Print(r)|; end < |ts| ==> ts[end] != "and"
    ensures OrFrom(ts, pos, val, env) ==
            OrRest(ts, pos + |Print(l) + ["or"] + Print(r)|, val || Denote(l, env) || Denote(r, env), env)
    decreases Or(l, r), 1
  {
    var mid := pos + |Print(l)|;
    StartsSplit(ts, pos, Print(l), "or", Print(r));
    ReadsOrFrom(ts, pos, val, l, env);
    RestContinues(ts, mid, val || Denote(l, env), env);
    ReadsOrFrom(ts, mid + 1, val || Denote(l, env), r, env);
  }

  lemma {:induction false} ReadsOr(ts: seq<string>, pos: nat, e: Expr, env: Env)
    requires WellFormed(e, env) && Starts(ts, pos, Print(e))
    requires pos + |Print(e)| < |ts| ==> ts[pos + |Print(e)|] != "and" && ts[pos + |Print(e)|] != "or"
    ensures ParseOr(ts, pos, env) == Parsed(Denote(e, env), pos + |Print(e)|)
    decreases e, 3
  {
    ReadsOrFrom(ts, pos, false, e, env);
  }

  /** Evaluating the printed tokens gives the expression's truth value and uses them all. */
  lemma EvalMeansDenote(e: Expr, env: Env)
    requires WellFormed(e, env)
    ensures Eval(Print(e), env) == Ok(Denote(e, env))
  {
    var ts := Print(e);
    assert ts[0..|ts|] == ts;
    ReadsOr(ts, 0, e, env);
  }

  // ---------- Only sentences are accepted ----------

  /** The expression a stretch of tokens spells. */
  ghost predicate Spells(ts: seq<string>, from: nat, to: nat, e: Expr, env: Env, val: bool) {
    && from <= to <= |ts|
    && WellFormed(e, env)
    && Print(e) == ts[from..to]
    && Denote(e, env) == val
  }

  lemma SplitAt(ts: seq<string>, from: nat, pos: nat, to: nat)
    requires from <= pos < to <= |ts|
    ensures ts[from..to] == ts[from..pos] + [ts[pos]] + ts[pos + 1..to]
  {
  }

  lemma {:induction false} SpellAtom(ts: seq<string>, pos: nat, env: Env) returns (e: Expr)
    requires pos <= |ts| && ParseAtom(ts, pos, env).Parsed? && (pos < |ts| ==> ts[pos] != "not")
    ensures var r := ParseAtom(ts, pos, env); Spells(ts, pos, r.pos, e, env, r.val) && !e.And? && !e.Or?
    decreases |ts| - pos, 1
  {
    var r := ParseAtom(ts, pos, env);
    if ts[pos] == "(" {
      var b := SpellOr(ts, pos + 1, env);
      e := Group(b);
      assert ts[pos..r.pos] == ["("] + ts[pos + 1..r.pos - 1] + [")"];
    } else {
      e := Sel(ts[pos]);
      assert ts[pos..pos + 1] == [ts[pos]];
    }
  }

  lemma {:induction false} SpellNot(ts: seq<string>, pos: nat, env: Env) returns (e: Expr)
    requires pos <= |ts| && ParseNot(ts, pos, env).Parsed?
    ensures var r := ParseNot(ts, pos, env); Spells(ts, pos, r.pos, e, env, r.val) && !e.And? && !e.Or?
    decreases |ts| - pos, 2
  {
    if pos < |ts| && ts[pos] == "not" {
      var a := SpellNot(ts, pos + 1, env);
      e := Not(a);
      var r := ParseNot(ts, pos, env);
      assert ts[pos..r.pos] == ["not"] + ts[pos + 1..r.pos];
    } else {
      e := SpellAtom(ts, pos, env);
    }
  }

  lemma {:induction false} SpellAndRest(ts: seq<string>, from: nat, pos: nat, so: Expr, val: bool, env: Env) returns (e: Expr)
    requires Spells(ts, from, pos, so, env, val) && !so.Or? && AndRest(ts, pos, val, env).Parsed?
    ensures var r := AndRest(ts, pos, val, env); Spells(ts, from, r.pos, e, env, r.val) && !e.Or?
    decreases |ts| - pos, 3
  {
    if pos < |ts| && ts[pos] == "and" {
      var a := SpellNot(ts, pos + 1, env);
      var r := ParseNot(ts, pos + 1, env);
      SplitAt(ts, from, pos, r.pos);
      e := SpellAndRest(ts, from, r.pos, And(so, a), val && r.val, env);
    } else {
      e := so;
    }
  }

  lemma {:induction false} SpellAnd(ts: seq<string>, pos: nat, env: Env) returns (e: Expr)
    requires pos <= |ts| && ParseAnd(ts, pos, env).Parsed?
    ensures var r := ParseAnd(ts, pos, env); Spells(ts, pos, r.pos, e, env, r.val) && !e.Or?
    decreases |ts| - pos, 4
  {
    var a := SpellNot(ts, pos, env);
    var r := ParseNot(ts, pos, env);
    e := SpellAndRest(ts, pos, r.pos, a, r.val, env);
  }

  lemma {:induction false} SpellOrRest(ts: seq<string>, from: nat, pos: nat, so: Expr, val: bool, env: Env) returns (e: Expr)
    requires Spells(ts, from, pos, so, env, val) && OrRest(ts, pos, val, env).Parsed?
    ensures var r := OrRest(ts, pos, val, env); Spells(ts, from, r.pos, e, env, r.val)
    decreases |ts| - pos, 5
  {
    if pos < |ts| && ts[pos] == "or" {
      var a := SpellAnd(ts, pos + 1, env);
      var r := ParseAnd(ts, pos + 1, env);
      SplitAt(ts, from, pos, r.pos);
      e := SpellOrRest(ts, from, r.pos, Or(so, a), val || r.val, env);
    } else {
      e := so;
    }
  }

  lemma {:induction false} SpellOr(ts: seq<string>, pos: nat, env: Env) returns (e: Expr)
    requires pos <= |ts| && ParseOr(ts, pos, env).Parsed?
    ensures var r := ParseOr(ts, pos, env); Spells(ts, pos, r.pos, e, env, r.val)
    decreases |ts| - pos, 6
  {
    var a := SpellAnd(ts, pos, env);
    var r := ParseAnd(ts, pos, env);
    e := SpellOrRest(ts, pos, r.pos, a, r.val, env);
  }

  /** The token list is a sentence with this truth value. */
  ghost predicate Means(ts: seq<string>, e: Expr, env: Env, val: bool) {
    WellFormed(e, env) && Print(e) == ts && Denote(e, env) == val
  }

  /** The evaluator decides the grammar: it answers a value exactly for the sentences that mean it. */
  lemma EvalDecidesGrammar(ts: seq<string>, env: Env, val: bool)
    ensures Eval(ts, env) == Ok(val) <==> exists e :: Means(ts, e, env, val)
  {
    if Eval(ts, env) == Ok(val) {
      var e := SpellOr(ts, 0, env);
      assert ts[0..|ts|] == ts;
      assert Means(ts, e, env, val);
    }
    forall e | Means(ts, e, env, val)
      ensures Eval(ts, env) == Ok(val)
    {
      EvalMeansDenote(e, env);
    }
  }

  // ---------- What a rule says of an event ----------

  /** A condition about these selections, grouped by the three precedences. */
  predicate Sentence(e: Expr, names: set<string>) {
    match e
    case Sel(n) => n in names && n !in {"not", "("}
    case Group(b) => Sentence(b, names)
    case Not(a) => Sentence(a, names) && !a.And? && !a.Or?
    case And(l, r) => Sentence(l, names) && Sentence(r, names) && !l.Or? && !r.Or?
    case Or(l, r) => Sentence(l, names) && Sentence(r, names)
  }

  /** It is true of an event. */
  ghost predicate Says(e: Expr, selections: map<string, Selection>, ev: Event, lower: string -> string) {
    match e
    case Sel(n) => n in selections && SelectionHolds(selections[n], ev, lower)
    case Group(b) => Says(b, selections, ev, lower)
    case Not(a) => !Says(a, selections, ev, lower)
    case And(l, r) => Says(l, selections, ev, lower) && Says(r, selections, ev, lower)
    case Or(l, r) => Says(l, selections, ev, lower) || Says(r, selections, ev, lower)
  }

  lemma {:induction false} SentenceMeans(e: Expr, selections: map<string, Selection>, ev: Event, lower: string -> string)
    requires forall n :: n in selections ==> Supported(selections[n])
    ensures var env := EnvOf(selections, ev, lower);
            && (WellFormed(e, env) <==> Sentence(e, selections.Keys))
            && (WellFormed(e, env) ==> (Denote(e, env) <==> Says(e, selections, ev, lower)))
  {
    match e {
      case Sel(n) =>
        if n in selections {
          SupportedMatches(selections[n], ev, lower);
          MatchesIff(selections[n], ev, lower);
        }
      case Group(b) => SentenceMeans(b, selections, ev, lower);
      case Not(a) => SentenceMeans(a, selections, ev, lower);
      case And(l, r) =>
        SentenceMeans(l, selections, ev, lower);
        SentenceMeans(r, selections, ev, lower);
      case Or(l, r) =>
        SentenceMeans(l, selections, ev, lower);
        SentenceMeans(r, selections, ev, lower);
    }
  }

  /** The tokens spell a condition with this truth value on the event. */
  ghost predicate Tells(ts: seq<string>, e: Expr, selections: map<string, Selection>, ev: Event, lower: string -> string, val: bool) {
    Print(e) == ts && Sentence(e, selections.Keys) && Says(e, selections, ev, lower) == val
  }

  /**
   * Evaluating a rule with supported modifiers answers a value exactly when its condition is a
   * sentence about its selections, and then whether that sentence is true of the event.
   */
  lemma RuleLaw(ts: seq<string>, selections: map<string, Selection>, ev: Event, lower: string -> string, val: bool)
    requires forall n :: n in selections ==> Supported(selections[n])
    ensures Eval(ts, EnvOf(selections, ev, lower)) == Ok(val) <==> exists e :: Tells(ts, e, selections, ev, lower, val)
  {
    var env := EnvOf(selections, ev, lower);
    EvalDecidesGrammar(ts, env, val);
    forall e ensures Means(ts, e, env, val) <==> Tells(ts, e, selections, ev, lower, val) {
      SentenceMeans(e, selections, ev, lower);
    }
  }

  /** The spelling and precedence of the operators: not before and before or, parentheses before all. */
  lemma Operators(x: string, y: string, z: string, env: Env)
    requires Usable(x, env) && Usable(y, env) && Usable(z, env)
    ensures var a, b, c := env[x].value, env[y].value, env[z].value;
            && Eval([x, "or", y, "and", z], env) == Ok(a || (b && c))
            && Eval([x, "and", y, "or", z], env) == Ok((a && b) || c)
            && Eval(["(", x, "or", y, ")", "and", z], env) == Ok((a || b) && c)
            && Eval(["not", x, "and", y], env) == Ok(!a && b)
            && Eval(["not", "(", x, "and", y, ")"], env) == Ok(!(a && b))
  {
    var a, b, c := Sel(x), Sel(y), Sel(z);
    Combined(b, c, env);
    Combined(a, b, env);
    Combined(a, And(b, c), env);
    Combined(And(a, b), c, env);
    Combined(Group(Or(a, b)), c, env);
    Combined(Not(a), b, env);
    EvalMeansDenote(Or(a, And(b, c)), env);
    EvalMeansDenote(Or(And(a, b), c), env);
    EvalMeansDenote(And(Group(Or(a, b)), c), env);
    EvalMeansDenote(And(Not(a), b), env);
    EvalMeansDenote(Not(Group(And(a, b))), env);
    assert Print(And(b, c)) == [y] + ["and"] + [z] == [y, "and", z];
    assert Print(And(a, b)) == [x] + ["and"] + [y] == [x, "and", y];
    assert Print(Or(a, b)) == [x] + ["or"] + [y] == [x, "or", y];
    assert Print(Group(Or(a, b))) == ["("] + [x, "or", y] + [")"] == ["(", x, "or", y, ")"];
    assert Print(Not(a)) == ["not"] + [x] == ["not", x];
    assert [x] + ["or"] + [y, "and", z] == [x, "or", y, "and", z];
    assert [x, "and", y] + ["or"] + [z] == [x, "and", y, "or", z];
    assert ["(", x, "or", y, ")"] + ["and"] + [z] == ["(", x, "or", y, ")", "and", z];
    assert ["not", x] + ["and"] + [y] == ["not", x, "and", y];
    assert ["not"] + (["("] + [x, "and", y] + [")"]) == ["not", "(", x, "and", y, ")"];
  }

  /** Two expressions by "and" and "or", as tokens and in meaning. */
  lemma Combined(l: Expr, r: Expr, env: Env)
    requires WellFormed(l, env) && WellFormed(r, env)
    ensures WellFormed(Or(l, r), env) && Print(Or(l, r)) == Print(l) + ["or"] + Print(r)
    ensures Denote(Or(l, r), env) == (Denote(l, env) || Denote(r, env))
    ensures WellFormed(Group(Or(l, r)), env) && Print(Group(Or(l, r))) == ["("] + Print(Or(l, r)) + [")"]
    ensures Denote(Group(Or(l, r)), env) == Denote(Or(l, r), env)
    ensures !l.Or? && !r.Or? ==>
              && WellFormed(And(l, r), env) && Print(And(l, r)) == Print(l) + ["and"] + Print(r)
              && Denote(And(l, r), env) == (Denote(l, env) && Denote(r, env))
              && WellFormed(Not(Group(And(l, r))), env)
              && Print(Not(Group(And(l, r)))) == ["not"] + (["("] + Print(And(l, r)) + [")"])
              && Denote(Not(Group(And(l, r))), env) == !Denote(And(l, r), env)
  {
    assert WellFormed(Or(l, r), env) && Print(Or(l, r)) == Print(l) + ["or"] + Print(r);
    if !l.Or? && !r.Or? {
      assert WellFormed(And(l, r), env);
      assert WellFormed(Group(And(l, r)), env) && Print(Group(And(l, r))) == ["("] + Print(And(l, r)) + [")"];
      assert Denote(Group(And(l, r)), env) == Denote(And(l, r), env);
    }
  }

  /** An instance: a suffix criterion fires on the suffix and not on the prefix. */
  lemma SuffixRule(lower: string -> string)
    requires forall s :: lower(s) == s
    ensures var c := Criterion("image", "endswith", One("mshta.exe"));
            var selections := map["selection" := Selection([c], false)];
            && Eval(["selection"], EnvOf(selections, map["image" := "C:/mshta.exe"], lower)) == Ok(true)
            && Eval(["selection"], EnvOf(selections, map["image" := "mshta.exe.txt"], lower)) == Ok(false)
  {
    var c := Criterion("image", "endswith", One("mshta.exe"));
    var selections := map["selection" := Selection([c], false)];
    assert c.modifier in SUPPORTED;
    assert "C:/mshta.exe" == "C:/" + "mshta.exe";
    assert forall p: string :: "mshta.exe.txt" == p + "mshta.exe" ==> (p + "mshta.exe")[12] == 'e';
    var yes: Event := map["image" := "C:/mshta.exe"];
    var no: Event := map["image" := "mshta.exe.txt"];
    assert Holds(yes, c, lower) && !Holds(no, c, lower);
    assert Tells(["selection"], Sel("selection"), selections, yes, lower, true);
    assert Tells(["selection"], Sel("selection"), selections, no, lower, false);
    RuleLaw(["selection"], selections, yes, lower, true);
    RuleLaw(["selection"], selections, no, lower, false);
  }

  // ---------- The cursor follows the rule, not the event ----------

  ghost predicate AllOk(a: Env) {
    forall n :: n in a ==> a[n].Ok?
  }

  ghost predicate SameNames(a: Env, b: Env) {
    a.Keys == b.Keys && AllOk(a) && AllOk(b)
  }

  ghost predicate SameEnd(x: Parse, y: Parse) {
    x.Parsed? == y.Parsed? && (x.Parsed? ==> x.pos == y.pos)
  }

  // The selections a parse looks up.

  function VisitOr(ts: seq<string>, pos: nat, env: Env): set<string>
    requires pos <= |ts|
    decreases |ts| - pos, 5
  {
    VisitAnd(ts, pos, env) +
    match ParseAnd(ts, pos, env)
    case Failed => {}
    case Parsed(_, p) => VisitOrRest(ts, p, env)
  }

  function VisitOrRest(ts: seq<string>, pos: nat, env: Env): set<string>
    requires pos <= |ts|
    decreases |ts| - pos, 6
  {
    if pos < |ts| && ts[pos] == "or" then
      VisitAnd(ts, pos + 1, env) +
      match ParseAnd(ts, pos + 1, env)
      case Failed => {}
      case Parsed(_, p) => VisitOrRest(ts, p, env)
    else {}
  }

  function VisitAnd(ts: seq<string>, pos: nat, env: Env): set<string>
    requires pos <= |ts|
    decreases |ts| - pos, 3
  {
    VisitNot(ts, pos, env) +
    match ParseNot(ts, pos, env)
    case Failed => {}
    case Parsed(_, p) => VisitAndRest(ts, p, env)
  }

  function VisitAndRest(ts: seq<string>, pos: nat, env: Env): set<string>
    requires pos <= |ts|
    decreases |ts| - pos, 4
  {
    if pos < |ts| && ts[pos] == "and" then
      VisitNot(ts, pos + 1, env) +
      match ParseNot(ts, pos + 1, env)
      case Failed => {}
      case Parsed(_, p) => VisitAndRest(ts, p, env)
    else {}
  }

  function VisitNot(ts: seq<string>, pos: nat, env: Env): set<string>
    requires pos <= |ts|
    decreases |ts| - pos, 2
  {
    if pos == |ts| then {}
    else if ts[pos] == "not" then VisitNot(ts, pos + 1, env)
    else if ts[pos] == "(" then VisitOr(ts, pos + 1, env)
    else {ts[pos]}
  }

  /** Every selection looked up evaluates without error. */
  ghost predicate Clean(names: set<string>, env: Env) {
    forall n :: n in names && n in env ==> env[n].Ok?
  }

  /** The second parse succeeds exactly if the first does and all it looks up is clean, and then ends in the same place. */
  ghost predicate Follows(x: Parse, y: Parse, names: set<string>, env: Env) {
    && (y.Parsed? <==> x.Parsed? && Clean(names, env))
    && (y.Parsed? ==> y.pos == x.pos)
  }

  lemma {:induction false} FollowsOr(ts: seq<string>, pos: nat, a: Env, b: Env)
    requires pos <= |ts| && a.Keys == b.Keys && AllOk(a)
    ensures Follows(ParseOr(ts, pos, a), ParseOr(ts, pos, b), VisitOr(ts, pos, a), b)
    decreases |ts| - pos, 5
  {
    FollowsAnd(ts, pos, a, b);
    var x, y := ParseAnd(ts, pos, a), ParseAnd(ts, pos, b);
    if x.Parsed? {
      CleanUnion(VisitAnd(ts, pos, a), VisitOrRest(ts, x.pos, a), b);
      if y.Parsed? {
        FollowsOrRest(ts, x.pos, x.val, y.val, a, b);
      }
    }
  }

  lemma {:induction false} FollowsOrRest(ts: seq<string>, pos: nat, v: bool, w: bool, a: Env, b: Env)
    requires pos <= |ts| && a.Keys == b.Keys && AllOk(a)
    ensures Follows(OrRest(ts, pos, v, a), OrRest(ts, pos, w, b), VisitOrRest(ts, pos, a), b)
    decreases |ts| - pos, 6
  {
    if pos < |ts| && ts[pos] == "or" {
      FollowsAnd(ts, pos + 1, a, b);
      var x, y := ParseAnd(ts, pos + 1, a), ParseAnd(ts, pos + 1, b);
      if x.Parsed? {
        CleanUnion(VisitAnd(ts, pos + 1, a), VisitOrRest(ts, x.pos, a), b);
        if y.Parsed? {
          FollowsOrRest(ts, x.pos, v || x.val, w || y.val, a, b);
        }
      }
    }
  }

  lemma {:induction false} FollowsAnd(ts: seq<string>, pos: nat, a: Env, b: Env)
    requires pos <= |ts| && a.Keys == b.Keys && AllOk(a)
    ensures Follows(ParseAnd(ts, pos, a), ParseAnd(ts, pos, b), VisitAnd(ts, pos, a), b)
    decreases |ts| - pos, 3
  {
    FollowsNot(ts, pos, a, b);
    var x, y := ParseNot(ts, pos, a), ParseNot(ts, pos, b);
    if x.Parsed? {
      CleanUnion(VisitNot(ts, pos, a), VisitAndRest(ts, x.pos, a), b);
      if y.Parsed? {
        FollowsAndRest(ts, x.pos, x.val, y.val, a, b);
      }
    }
  }

  lemma {:induction false} FollowsAndRest(ts: seq<string>, pos: nat, v: bool, w: bool, a: Env, b: Env)
    requires pos <= |ts| && a.Keys == b.Keys && AllOk(a)
    ensures Follows(AndRest(ts, pos, v, a), AndRest(ts, pos, w, b), VisitAndRest(ts, pos, a), b)
    decreases |ts| - pos, 4
  {
    if pos < |ts| && ts[pos] == "and" {
      FollowsNot(ts, pos + 1, a, b);
      var x, y := ParseNot(ts, pos + 1, a), ParseNot(ts, pos + 1, b);
      if x.Parsed? {
        CleanUnion(VisitNot(ts, pos + 1, a), VisitAndRest(ts, x.pos, a), b);
        if y.Parsed? {
          FollowsAndRest(ts, x.pos, v && x.val, w && y.val, a, b);
        }
      }
    }
  }

  lemma {:induction false} FollowsNot(ts: seq<string>, pos: nat, a: Env, b: Env)
    requires pos <= |ts| && a.Keys == b.Keys && AllOk(a)
    ensures Follows(ParseNot(ts, pos, a), ParseNot(ts, pos, b), VisitNot(ts, pos, a), b)
    decreases |ts| - pos, 2
  {
    if pos < |ts| && ts[pos] == "not" {
      FollowsNot(ts, pos + 1, a, b);
    } else if pos < |ts| && ts[pos] == "(" {
      FollowsOr(ts, pos + 1, a, b);
    }
  }

  lemma CleanUnion(m: set<string>, n: set<string>, env: Env)
    ensures Clean(m + n, env) <==> Clean(m, env) && Clean(n, env)
  {
  }

  /** Where nothing raises, the cursor after parsing is the same for every event. */
  lemma SameOr(ts: seq<string>, pos: nat, a: Env, b: Env)
    requires pos <= |ts| && SameNames(a, b)
    ensures SameEnd(ParseOr(ts, pos, a), ParseOr(ts, pos, b))
  {
    FollowsOr(ts, pos, a, b);
  }

  /** The selections a rule's condition looks up: those it does on an event without fields. */
  function Visited(ts: seq<string>, selections: map<string, Selection>, lower: string -> string): set<string> {
    VisitOr(ts, 0, EnvOf(selections, map[], lower))
  }

  /** On any event, a condition is accepted if it is on the empty one and no selection it looks up raises. */
  lemma AcceptedIff(ts: seq<string>, selections: map<string, Selection>, lower: string -> string, ev: Event)
    ensures Eval(ts, EnvOf(selections, ev, lower)).Ok? <==>
              && Eval(ts, EnvOf(selections, map[], lower)).Ok?
              && forall n :: n in Visited(ts, selections, lower) && n in selections ==> Matches(selections[n], ev, lower).Ok?
  {
    var a, b := EnvOf(selections, map[], lower), EnvOf(selections, ev, lower);
    forall n | n in a ensures a[n].Ok? {
      EmptyEventIsSafe(selections[n], lower);
    }
    assert a.Keys == b.Keys;
    FollowsOr(ts, 0, a, b);
    assert Clean(Visited(ts, selections, lower), b) <==>
           forall n :: n in Visited(ts, selections, lower) && n in selections ==> Matches(selections[n], ev, lower).Ok?;
  }

  /** A condition is rejected on every event or on none. */
  ghost predicate RejectionFollowsRule(ts: seq<string>, selections: map<string, Selection>, lower: string -> string) {
    forall e1, e2 :: Eval(ts, EnvOf(selections, e1, lower)).Ok? == Eval(ts, EnvOf(selections, e2, lower)).Ok?
  }

  /** Everything the condition looks up is harmless. */
  ghost predicate LooksUpHarmless(ts: seq<string>, selections: map<string, Selection>, lower: string -> string) {
    forall n :: n in Visited(ts, selections, lower) && n in selections ==> Harmless(selections[n], lower)
  }

  /** Exactly when: it is rejected on the empty event already, or no selection it looks up ever raises. */
  lemma RejectionFollowsRuleIff(ts: seq<string>, selections: map<string, Selection>, lower: string -> string)
    ensures RejectionFollowsRule(ts, selections, lower) <==>
              !Eval(ts, EnvOf(selections, map[], lower)).Ok? || LooksUpHarmless(ts, selections, lower)
  {
    if RejectionFollowsRule(ts, selections, lower) && Eval(ts, EnvOf(selections, map[], lower)).Ok? {
      forall n, ev | n in Visited(ts, selections, lower) && n in selections
        ensures Matches(selections[n], ev, lower).Ok?
      {
        AcceptedIff(ts, selections, lower, ev);
        assert Eval(ts, EnvOf(selections, map[], lower)).Ok? == Eval(ts, EnvOf(selections, ev, lower)).Ok?;
      }
    } else if !Eval(ts, EnvOf(selections, map[], lower)).Ok? || LooksUpHarmless(ts, selections, lower) {
      forall e1, e2 ensures Eval(ts, EnvOf(selections, e1, lower)).Ok? == Eval(ts, EnvOf(selections, e2, lower)).Ok? {
        AcceptedIff(ts, selections, lower, e1);
        AcceptedIff(ts, selections, lower, e2);
      }
    }
  }

  /** With one criterion per field, the condition can be read off the rule: no bad criterion is reachable. */
  lemma RejectionReadOffTheRule(ts: seq<string>, selections: map<string, Selection>, lower: string -> string)
    requires forall n :: n in selections ==> FieldsDiffer(selections[n])
    ensures RejectionFollowsRule(ts, selections, lower) <==>
              || !Eval(ts, EnvOf(selections, map[], lower)).Ok?
              || forall n :: n in Visited(ts, selections, lower) && n in selections ==> !CanRaise(selections[n])
  {
    RejectionFollowsRuleIff(ts, selections, lower);
    forall n | n in selections ensures Harmless(selections[n], lower) <==> !CanRaise(selections[n]) {
      HarmlessIff(selections[n], lower);
    }
  }

  /** With supported modifiers only, a condition is rejected for every event or for none. */
  lemma RejectionIgnoresEvent(ts: seq<string>, selections: map<string, Selection>, lower: string -> string, e1: Event, e2: Event)
    requires forall n :: n in selections ==> Supported(selections[n])
    ensures Eval(ts, EnvOf(selections, e1, lower)).Ok? == Eval(ts, EnvOf(selections, e2, lower)).Ok?
  {
    forall n | n in selections
      ensures Matches(selections[n], e1, lower).Ok? && Matches(selections[n], e2, lower).Ok?
    {
      SupportedMatches(selections[n], e1, lower);
      SupportedMatches(selections[n], e2, lower);
    }
    SameOr(ts, 0, EnvOf(selections, e1, lower), EnvOf(selections, e2, lower));
  }

  /** With an unsupported modifier, the same rule passes on one event and is rejected on another. */
  lemma UnsupportedModifierDependsOnEvent(lower: string -> string)
    ensures var c := Criterion("image", "regex", One("x"));
            var selections := map["selection" := Selection([c], false)];
            && Eval(["selection"], EnvOf(selections, map[], lower)) == Ok(false)
            && Eval(["selection"], EnvOf(selections, map["image" := "x"], lower)) == SyntaxError
  {
    var c := Criterion("image", "regex", One("x"));
    var sel := Selection([c], false);
    var none: Event := map[];
    var some: Event := map["image" := "x"];
    assert MatchCriterion(none, c, lower) == Ok(false);
    assert MatchCriterion(some, c, lower) == SyntaxError;
    assert Matches(sel, none, lower) == Ok(false) && Matches(sel, some, lower) == SyntaxError;
  }

  // ---------- External hooks ----------

  datatype Definition = Mapping(criteria: seq<Criterion>) | Hook

  /** How a rule registers its detection entries: hooks become selections that never match. */
  function Register(detection: map<string, Definition>): map<string, Selection> {
    map n | n in detection && n != "condition" ::
      match detection[n]
      case Mapping(cs) => Selection(cs, false)
      case Hook => Selection([], true)
  }

  /** "e and not hook" means e, for every condition e that is accepted. */
  lemma HookIsTransparent(e: Expr, hook: string, detection: map<string, Definition>, ev: Event, lower: string -> string)
    requires hook in detection && detection[hook] == Hook && hook !in {"condition", "not", "("}
    requires WellFormed(e, EnvOf(Register(detection), ev, lower))
    ensures var env := EnvOf(Register(detection), ev, lower);
            && (!e.Or? ==> Eval(Print(e) + ["and", "not", hook], env) == Eval(Print(e), env))
            && Eval(["("] + Print(e) + [")", "and", "not", hook], env) == Eval(Print(e), env)
  {
    var env := EnvOf(Register(detection), ev, lower);
    GuardIsTrue(e, hook, env);
  }

  lemma GuardIsTrue(e: Expr, hook: string, env: Env)
    requires WellFormed(e, env) && Usable(hook, env) && env[hook] == Ok(false)
    ensures !e.Or? ==> Eval(Print(e) + ["and", "not", hook], env) == Eval(Print(e), env)
    ensures Eval(["("] + Print(e) + [")", "and", "not", hook], env) == Eval(Print(e), env)
  {
    EvalMeansDenote(e, env);
    GuardedBy(Group(e), hook, env);
    assert Print(Group(e)) + ["and", "not", hook] == ["("] + Print(e) + [")", "and", "not", hook];
    if !e.Or? {
      GuardedBy(e, hook, env);
    }
  }

  lemma GuardedBy(e: Expr, hook: string, env: Env)
    requires WellFormed(e, env) && !e.Or? && Usable(hook, env) && env[hook] == Ok(false)
    ensures Eval(Print(e) + ["and", "not", hook], env) == Ok(Denote(e, env))
  {
    var guard := Not(Sel(hook));
    assert WellFormed(Sel(hook), env) && !Denote(Sel(hook), env) && Print(Sel(hook)) == [hook];
    assert Print(guard) == ["not", hook] && Denote(guard, env);
    Combined(e, guard, env);
    assert Print(And(e, guard)) == Print(e) + ["and", "not", hook];
    EvalMeansDenote(And(e, guard), env);
  }
}
