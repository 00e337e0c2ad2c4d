/** `CFGtoCNF.convert`: the five stages in order, then the removal of duplicate
    rules. The theorem here is the one `_is_cnf` checks: on a grammar as the
    reader produces it, the result is in Chomsky normal form, and it has the
    epsilon rule for the start symbol exactly when the original grammar had one. */
module CnfConvert {
  import opened Grammar
  import opened Cnf
  import opened CnfEpsilon
  import opened CnfUnit
  import opened CnfTerminals
  import opened CnfBinarize

  // ---------------------------------------------------------------------------
  // What holds between the stages.

  /** `s` occurs in no body other than the epsilon body. */
  predicate NoBodyUse(cfg: seq<Rule>, s: Symbol) {
    forall x :: x in cfg && x.body != EpsilonBody ==> s !in x.body
  }

  /** Only the start symbol has the epsilon rule, and only when the original
      grammar had it. */
  predicate EpsilonOnlyAtStart(cfg: seq<Rule>, initial: Symbol, hasLambdaStart: bool) {
    forall x :: x in cfg && x.body == EpsilonBody ==> x.head == initial && hasLambdaStart
  }

  /** The shape a rule has once the terminals are split off: a non-empty body, a
      single symbol that is not a non-terminal, the epsilon body only under the
      start symbol, and only non-terminals in a longer body. */
  predicate ShapeOk(x: Rule, initial: Symbol, hasLambdaStart: bool) {
    |x.body| >= 1 &&
    (|x.body| == 1 ==> !IsUpper(x.body[0])) &&
    (x.body == EpsilonBody ==> x.head == initial && hasLambdaStart) &&
    (|x.body| >= 2 ==> forall k :: 0 <= k < |x.body| ==> IsUpper(x.body[k]))
  }

  predicate Shaped(cfg: seq<Rule>, initial: Symbol, hasLambdaStart: bool) {
    forall x :: x in cfg ==> ShapeOk(x, initial, hasLambdaStart)
  }

  lemma ClassifiedNotEmpty(s: Symbol)
    requires IsLower(s) || IsUpper(s)
    ensures s != ""
  {
  }

  // ---------------------------------------------------------------------------
  // One lemma per stage.

  /** After `add_new_start` the rules are still classified, the start symbol is in
      no body, and if the original grammar had `start -> ''` then the (possibly
      new) start symbol has the epsilon rule or a rule whose body is all nullable. */
  lemma AfterNewStart(rules: seq<Rule>, start: Symbol)
    requires Classified(rules) && !OccursInBody(rules, StartName(start))
    ensures Classified(AddNewStart(Init(rules, start)).cfg)
    ensures NoBodyUse(AddNewStart(Init(rules, start)).cfg, AddNewStart(Init(rules, start)).initial)
    ensures AddNewStart(Init(rules, start)).hasLambdaStart ==>
      var c1 := AddNewStart(Init(rules, start));
      Rule(c1.initial, EpsilonBody) in c1.cfg ||
      exists x :: x in c1.cfg && x.head == c1.initial && x.body != EpsilonBody && AllIn(x.body, Nullable(c1.cfg))
  {
    var c0 := Init(rules, start);
    var c1 := AddNewStart(c0);
    if OccursInBody(rules, start) {
      var x := Rule(c1.initial, [start]);
      assert c1.cfg == [x] + rules;
      var i :| 0 <= i < |rules| && start in rules[i].body;
      assert ClassifiedRule(rules[i]);
      if rules[i].body != EpsilonBody {
        var j :| 0 <= j < |rules[i].body| && rules[i].body[j] == start;
        ClassifiedNotEmpty(start);
      }
      assert ClassifiedRule(x);
      assert forall y :: y in c1.cfg <==> y == x || y in rules;
      if c1.hasLambdaStart && x.body != EpsilonBody {
        assert Rule(start, EpsilonBody) in c1.cfg;
        assert AllIn(x.body, Nullable(c1.cfg));
      }
    }
  }

  /** After `remove_epsilon` the rules are still classified, the start symbol is
      still in no body, and the epsilon rule is the start symbol's alone. */
  lemma AfterEpsilon(c1: Conv)
    requires Classified(c1.cfg) && NoBodyUse(c1.cfg, c1.initial)
    ensures Classified(RemoveEpsilon(c1).cfg)
    ensures NoBodyUse(RemoveEpsilon(c1).cfg, c1.initial)
    ensures EpsilonOnlyAtStart(RemoveEpsilon(c1).cfg, c1.initial, c1.hasLambdaStart)
  {
    var c2 := RemoveEpsilon(c1);
    var n := Nullable(c1.cfg);
    forall x | x in c2.cfg
      ensures ClassifiedRule(x)
      ensures x.body != EpsilonBody ==> c1.initial !in x.body
    {
      if x !in c1.cfg && x != Rule(c1.initial, EpsilonBody) {
        assert Derived(c1.cfg, n, x);
        var k :| 0 <= k < |c1.cfg| && c1.cfg[k].body != EpsilonBody && c1.cfg[k].head == x.head &&
          Deletion(c1.cfg[k].body, n, x.body);
        var y := c1.cfg[k];
        assert y in c1.cfg;
        DeletionClassified(y, n, x, c1.initial);
      }
    }
  }

  /** A rule obtained by deleting nullable symbols from a classified body is
      classified, and does not bring back a symbol the body did not use. */
  lemma DeletionClassified(y: Rule, n: set<Symbol>, x: Rule, s: Symbol)
    requires ClassifiedRule(y) && y.body != EpsilonBody && s !in y.body
    requires Deletion(y.body, n, x.body) && x.body != []
    ensures ClassifiedRule(x) && s !in x.body
  {
    DeletionSymbols(y.body, n, x.body);
    forall j | 0 <= j < |x.body|
      ensures (IsLower(x.body[j]) || IsUpper(x.body[j])) && x.body[j] != ""
    {
      assert x.body[j] in y.body;
      ClassifiedNotEmpty(x.body[j]);
    }
  }

  /** A unit path ends in a symbol that is the whole body of some unit rule. */
  lemma UnitPathEnd(cfg: seq<Rule>, a: Symbol, b: Symbol)
    requires UnitPath(cfg, a, b)
    ensures exists y :: y in cfg && y.body == [b]
    ensures IsUpper(b)
  {
    var path :| |path| >= 2 && path[0] == a && path[|path| - 1] == b && UnitChain(cfg, path);
    assert UnitStep(cfg, path[|path| - 2], path[|path| - 1]);
  }

  /** After `eliminate_unary` no unit rule is left, the rules are still classified,
      and the epsilon rule is still the start symbol's alone. */
  lemma AfterUnit(cfg2: seq<Rule>, cfg3: seq<Rule>, initial: Symbol, hasLambdaStart: bool)
    requires Classified(cfg2) && NoBodyUse(cfg2, initial) && EpsilonOnlyAtStart(cfg2, initial, hasLambdaStart)
    requires forall x :: x in cfg3 ==> x in cfg2 || exists b :: UnitPath(cfg2, x.head, b) && Rule(b, x.body) in cfg2
    ensures Classified(cfg3)
    ensures EpsilonOnlyAtStart(cfg3, initial, hasLambdaStart)
  {
    forall x | x in cfg3 && x !in cfg2
      ensures ClassifiedRule(x)
      ensures x.body == EpsilonBody ==> x.head == initial && hasLambdaStart
    {
      var b :| UnitPath(cfg2, x.head, b) && Rule(b, x.body) in cfg2;
      assert ClassifiedRule(Rule(b, x.body));
      if x.body == EpsilonBody {
        UnitPathEnd(cfg2, x.head, b);
        assert false;
      }
    }
  }

  /** After `split_terminals` every rule has the shape `_is_cnf` needs, except that
      bodies may still be longer than two. */
  lemma AfterTerminals(cfg3: seq<Rule>, initial: Symbol, hasLambdaStart: bool)
    requires Classified(cfg3) && EpsilonOnlyAtStart(cfg3, initial, hasLambdaStart)
    requires forall x :: x in cfg3 ==> !IsUnit(x)
    ensures Shaped(SplitTerminals(cfg3), initial, hasLambdaStart)
  {
    var cfg4 := SplitTerminals(cfg3);
    SplitTerminalsKeeps(cfg3);
    SplitTerminalsRewrites(cfg3);
    SplitTerminalsAdds(cfg3);
    forall x | x in cfg4
      ensures ShapeOk(x, initial, hasLambdaStart)
    {
      var j :| 0 <= j < |cfg4| && cfg4[j] == x;
      if j < |cfg3| {
        var y := cfg3[j];
        assert y in cfg3;
        RewrittenShape(y, x, initial, hasLambdaStart);
      } else {
        AddedShape(cfg3, x, initial, hasLambdaStart);
      }
    }
  }

  /** A classified rule that is not a unit rule keeps its shape through the
      terminal split. */
  lemma RewrittenShape(y: Rule, x: Rule, initial: Symbol, hasLambdaStart: bool)
    requires ClassifiedRule(y) && !IsUnit(y) && (y.body == EpsilonBody ==> y.head == initial && hasLambdaStart)
    requires x.head == y.head && |x.body| == |y.body| && (|y.body| < 2 ==> x == y)
    requires forall k :: 0 <= k < |y.body| && |y.body| >= 2 ==>
      (IsLower(y.body[k]) || IsUpper(y.body[k]) ==> IsUpper(x.body[k]))
    ensures ShapeOk(x, initial, hasLambdaStart)
  {
    if |y.body| >= 2 {
      assert y.body != EpsilonBody;
      forall k | 0 <= k < |x.body|
        ensures IsUpper(x.body[k])
      {
        assert IsLower(y.body[k]) || IsUpper(y.body[k]);
      }
    }
  }

  /** A rule `T_X -> x` appended by the terminal split has the shape `_is_cnf` needs. */
  lemma AddedShape(cfg3: seq<Rule>, x: Rule, initial: Symbol, hasLambdaStart: bool)
    requires |x.body| == 1 && LongTerminal(cfg3, x.body[0])
    ensures ShapeOk(x, initial, hasLambdaStart)
  {
    var s := x.body[0];
    LowerNotUpper(s);
    ClassifiedNotEmpty(s);
  }

  /** After `break_long_productions` every rule passes `_is_cnf`. */
  lemma AfterBreak(cfg4: seq<Rule>, initial: Symbol, hasLambdaStart: bool)
    requires Shaped(cfg4, initial, hasLambdaStart)
    ensures forall x :: x in BreakLong(cfg4) ==>
      CnfRule(x, initial) && (x.body == EpsilonBody ==> hasLambdaStart)
  {
    var cfg5 := BreakLong(cfg4);
    forall x | x in cfg5
      ensures CnfRule(x, initial) && (x.body == EpsilonBody ==> hasLambdaStart)
    {
      if !(x in cfg4 && |x.body| <= 2) {
        LongSymbolUpper(cfg4, initial, hasLambdaStart, x.body[0]);
        if LongSymbol(cfg4, x.body[1]) {
          LongSymbolUpper(cfg4, initial, hasLambdaStart, x.body[1]);
        } else {
          var m: nat :| x.body[1] == YName(m);
          YNameIsUpper(m);
        }
      }
    }
  }

  lemma LongSymbolUpper(cfg4: seq<Rule>, initial: Symbol, hasLambdaStart: bool, s: Symbol)
    requires Shaped(cfg4, initial, hasLambdaStart) && LongSymbol(cfg4, s)
    ensures IsUpper(s)
  {
    var i :| 0 <= i < |cfg4| && |cfg4[i].body| > 2 && s in cfg4[i].body;
    assert ShapeOk(cfg4[i], initial, hasLambdaStart);
    var k :| 0 <= k < |cfg4[i].body| && cfg4[i].body[k] == s;
  }

  /** The epsilon rule of the start symbol survives every stage after
      `remove_epsilon`. */
  lemma EpsilonSurvives(cfg3: seq<Rule>, initial: Symbol)
    requires Rule(initial, EpsilonBody) in cfg3
    ensures Rule(initial, EpsilonBody) in BreakLong(SplitTerminals(cfg3))
  {
    var cfg4 := SplitTerminals(cfg3);
    SplitTerminalsKeeps(cfg3);
    var i :| 0 <= i < |cfg3| && cfg3[i] == Rule(initial, EpsilonBody);
    assert cfg4[i] == cfg3[i];
  }

  // ---------------------------------------------------------------------------
  // The whole conversion.

  /** `CFGtoCNF(rules, start).convert()`. The start symbol is replaced exactly when
      the old one occurs in a body, and no rule is listed twice. On a grammar
      whose bodies are the epsilon body or lexically classified symbols, and where
      the name `add_new_start` would invent is not already in a body, the result
      passes `_is_cnf`, and has the epsilon rule for its start symbol exactly when
      the original grammar had `start -> ''`. */
  method Convert(rules: seq<Rule>, start: Symbol) returns (r: Conv, ghost c2: Conv, ghost cfg3: seq<Rule>)
    ensures c2 == RemoveEpsilon(AddNewStart(Init(rules, start)))
    ensures UnitEliminated(c2.cfg, cfg3)
    ensures r == c2.(cfg := Dedup(BreakLong(SplitTerminals(cfg3))))
    ensures r.hasLambdaStart <==> Rule(start, EpsilonBody) in rules
    ensures r.initial == if OccursInBody(rules, start) then StartName(start) else start
    ensures NoDuplicates(r.cfg)
    ensures Classified(rules) && !OccursInBody(rules, StartName(start)) ==> IsCnf(r)
    ensures Classified(rules) && !OccursInBody(rules, StartName(start)) ==>
      (Rule(r.initial, EpsilonBody) in r.cfg <==> Rule(start, EpsilonBody) in rules)
  {
    var c0 := Init(rules, start);
    var c1 := AddNewStart(c0);
    var noEpsilon := RemoveEpsilon(c1);
    c2 := noEpsilon;
    var unitFree := EliminateUnary(noEpsilon.cfg);
    cfg3 := unitFree;
    var cfg4 := SplitTerminals(unitFree);
    var cfg5 := BreakLong(cfg4);
    r := noEpsilon.(cfg := Dedup(cfg5));
    if Classified(rules) && !OccursInBody(rules, StartName(start)) {
      var initial, lam := c1.initial, c1.hasLambdaStart;
      AfterNewStart(rules, start);
      AfterEpsilon(c1);
      AfterUnit(c2.cfg, cfg3, initial, lam);
      AfterTerminals(cfg3, initial, lam);
      AfterBreak(cfg4, initial, lam);
      if lam {
        assert !IsUnit(Rule(initial, EpsilonBody));
        EpsilonSurvives(cfg3, initial);
      }
    }
  }
}
