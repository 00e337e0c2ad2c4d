/** `break_long_productions`: a rule with more than two body symbols becomes a chain
    of binary rules linked by fresh non-terminals `Y1`, `Y2`, ... numbered by one
    counter over the whole rule list. */
module CnfBinarize {
  import opened Grammar

  /** The `counter`-th fresh non-terminal. */
  function YName(counter: nat): Symbol {
    "Y" + NatToString(counter)
  }

  ghost predicate IsYName(s: Symbol) {
    exists n: nat :: s == YName(n)
  }

  /** The fresh names are non-terminals. */
  lemma YNameIsUpper(n: nat)
    ensures IsUpper(YName(n))
  {
    var y := YName(n);
    assert IsUpperChar(y[0]);
    forall i | 0 <= i < |y|
      ensures !IsLowerChar(y[i])
    {
      if i > 0 {
        assert y[i] == NatToString(n)[i - 1];
      }
    }
  }

  /** The fresh names the loop makes for a body of `n + 2` symbols when the counter
      stands at `counter`: `Y<counter+1>`, ..., `Y<counter+n>`. */
  function FreshNames(counter: nat, n: nat): seq<Symbol> {
    seq(n, i requires 0 <= i < n => YName(counter + i + 1))
  }

  /** The binary rules that replace `prev -> rhs`, linked by `names`: one binary rule
      per symbol of `rhs` but one, the first under `prev`. */
  function ChainWith(prev: Symbol, rhs: seq<Symbol>, names: seq<Symbol>): (rules: seq<Rule>)
    requires |rhs| >= 2 && |names| == |rhs| - 2
    ensures |rules| == |rhs| - 1
    ensures rules[0].head == prev
    ensures forall k :: 0 <= k < |rules| ==> |rules[k].body| == 2
    decreases |rhs|
  {
    if |rhs| == 2 then [Rule(prev, rhs)]
    else [Rule(prev, [rhs[0], names[0]])] + ChainWith(names[0], rhs[1..], names[1..])
  }

  /** The chain replacing `prev -> rhs` with the counter at `counter`. */
  function Chain(prev: Symbol, rhs: seq<Symbol>, counter: nat): (rules: seq<Rule>)
    requires |rhs| >= 2
    ensures |rules| == |rhs| - 1
    ensures rules[0].head == prev
    ensures forall k :: 0 <= k < |rules| ==> |rules[k].body| == 2
  {
    ChainWith(prev, rhs, FreshNames(counter, |rhs| - 2))
  }

  /** The `k`-th rule of a linked chain: headed by `prev` or the `k`-th name, its
      body the `k`-th symbol of `rhs` followed by the next name, or, in the last
      rule, by the last symbol of `rhs`. */
  lemma {:induction false} ChainWithRule(prev: Symbol, rhs: seq<Symbol>, names: seq<Symbol>, k: nat)
    requires |rhs| >= 2 && |names| == |rhs| - 2 && k < |rhs| - 1
    ensures ChainWith(prev, rhs, names)[k] ==
      Rule(if k == 0 then prev else names[k - 1], [rhs[k], if k < |rhs| - 2 then names[k] else rhs[|rhs| - 1]])
    decreases |rhs|
  {
    if |rhs| == 2 {
      assert rhs == [rhs[0], rhs[1]];
    } else if k > 0 {
      var tail, more := rhs[1..], names[1..];
      ChainWithRule(names[0], tail, more, k - 1);
      assert tail[k - 1] == rhs[k] && tail[|tail| - 1] == rhs[|rhs| - 1];
      if k > 1 {
        assert more[k - 2] == names[k - 1];
      }
      if k < |rhs| - 2 {
        assert more[k - 1] == names[k];
      }
    }
  }

  /** The `k`-th rule of a chain: headed by `prev` or by `Y<counter+k>`, its body the
      `k`-th symbol of `rhs` followed by `Y<counter+k+1>`, or, in the last rule, by
      the last symbol of `rhs`. */
  lemma ChainRule(prev: Symbol, rhs: seq<Symbol>, counter: nat, k: nat)
    requires |rhs| >= 2 && k < |rhs| - 1
    ensures Chain(prev, rhs, counter)[k].head == if k == 0 then prev else YName(counter + k)
    ensures Chain(prev, rhs, counter)[k].body ==
      [rhs[k], if k < |rhs| - 2 then YName(counter + k + 1) else rhs[|rhs| - 1]]
  {
    var names := FreshNames(counter, |rhs| - 2);
    ChainWithRule(prev, rhs, names, k);
    if k > 0 {
      assert names[k - 1] == YName(counter + (k - 1) + 1);
    }
  }

  /** The chain is linked: each rule after the first is headed by the fresh name
      that ends the rule before it. */
  lemma ChainHeads(prev: Symbol, rhs: seq<Symbol>, counter: nat)
    requires |rhs| >= 2
    ensures forall k :: 1 <= k < |Chain(prev, rhs, counter)| ==>
      Chain(prev, rhs, counter)[k].head == Chain(prev, rhs, counter)[k - 1].body[1]
  {
    var names := FreshNames(counter, |rhs| - 2);
    var rules := Chain(prev, rhs, counter);
    forall k | 1 <= k < |rules|
      ensures rules[k].head == rules[k - 1].body[1]
    {
      ChainWithRule(prev, rhs, names, k);
      ChainWithRule(prev, rhs, names, k - 1);
    }
  }

  /** The symbols a chain of binary rules derives when each linking name is
      expanded by the rule after it. */
  function Expand(rules: seq<Rule>): seq<Symbol>
    requires |rules| > 0
    requires forall k :: 0 <= k < |rules| ==> |rules[k].body| == 2
  {
    if |rules| == 1 then rules[0].body
    else [rules[0].body[0]] + Expand(rules[1..])
  }

  /** Round trip: expanding the chain gives back the long body it replaced. */
  lemma ChainExpands(prev: Symbol, rhs: seq<Symbol>, counter: nat)
    requires |rhs| >= 2
    ensures Expand(Chain(prev, rhs, counter)) == rhs
  {
    ChainWithExpands(prev, rhs, FreshNames(counter, |rhs| - 2));
  }

  lemma {:induction false} ChainWithExpands(prev: Symbol, rhs: seq<Symbol>, names: seq<Symbol>)
    requires |rhs| >= 2 && |names| == |rhs| - 2
    ensures Expand(ChainWith(prev, rhs, names)) == rhs
    decreases |rhs|
  {
    if |rhs| > 2 {
      var rules := ChainWith(prev, rhs, names);
      assert rules[1..] == ChainWith(names[0], rhs[1..], names[1..]);
      ChainWithExpands(names[0], rhs[1..], names[1..]);
      assert rhs == [rhs[0]] + rhs[1..];
    }
  }

  /** Every symbol in a chain comes from the long body or is a fresh name. */
  lemma ChainSymbols(prev: Symbol, rhs: seq<Symbol>, counter: nat)
    requires |rhs| >= 2
    ensures forall x :: x in Chain(prev, rhs, counter) ==>
      |x.body| == 2 && x.body[0] in rhs && (x.body[1] in rhs || IsYName(x.body[1]))
  {
    var rules := Chain(prev, rhs, counter);
    forall x | x in rules
      ensures |x.body| == 2 && x.body[0] in rhs && (x.body[1] in rhs || IsYName(x.body[1]))
    {
      var k :| 0 <= k < |rules| && rules[k] == x;
      ChainRule(prev, rhs, counter, k);
    }
  }

  /** The fresh names a rule uses up. */
  function Extra(r: Rule): nat {
    if |r.body| > 2 then |r.body| - 2 else 0
  }

  /** The counter when the loop reaches rule `i`, having started at `counter`. */
  function CounterAt(cfg: seq<Rule>, i: nat, counter: nat): nat
    requires i <= |cfg|
  {
    if i == 0 then counter else CounterAt(cfg[1..], i - 1, counter + Extra(cfg[0]))
  }

  /** `x` is one of the rules replacing rule `i` when the loop started with the
      counter at `counter`. */
  predicate InChainOf(cfg: seq<Rule>, i: int, counter: nat, x: Rule) {
    0 <= i < |cfg| && |cfg[i].body| > 2 && x in ChainOf(cfg[i], CounterAt(cfg, i, counter))
  }

  /** `x` is in the chain of some long rule of `cfg`. */
  predicate FromChain(cfg: seq<Rule>, counter: nat, x: Rule) {
    exists i :: 0 <= i < |cfg| && InChainOf(cfg, i, counter, x)
  }

  /** The chain replacing the long rule `r`. */
  function ChainOf(r: Rule, counter: nat): seq<Rule>
    requires |r.body| > 2
  {
    Chain(r.head, r.body, counter)
  }

  /** `s` occurs in a body of more than two symbols. */
  predicate LongSymbol(cfg: seq<Rule>, s: Symbol) {
    exists i :: 0 <= i < |cfg| && |cfg[i].body| > 2 && s in cfg[i].body
  }

  /** The loop of `break_long_productions` from the rules `cfg` on, with the counter
      at `counter`. Every rule of at most two symbols is kept; every longer one is
      replaced by its chain, numbered from the counter where the loop met it; and
      every rule produced is a kept one or a binary rule whose first symbol comes
      from a long body and whose second comes from one or is a fresh name. */
  function BreakFrom(cfg: seq<Rule>, counter: nat): (out: seq<Rule>)
    ensures forall x :: x in out ==> |x.body| <= 2
    ensures forall r :: r in cfg && |r.body| <= 2 ==> r in out
    ensures forall i, x :: InChainOf(cfg, i, counter, x) ==> x in out
    ensures forall x :: x in out ==>
      (x in cfg && |x.body| <= 2) ||
      (|x.body| == 2 && LongSymbol(cfg, x.body[0]) && (LongSymbol(cfg, x.body[1]) || IsYName(x.body[1])))
    ensures forall x :: x in out ==> (x in cfg && |x.body| <= 2) || FromChain(cfg, counter, x)
    decreases |cfg|
  {
    if |cfg| == 0 then []
    else
      var r := cfg[0];
      var next := counter + Extra(r);
      var rest := BreakFrom(cfg[1..], next);
      var block := Block(r, counter);
      BlockShape(r, counter);
      StepOrigins(cfg, block, rest);
      StepChains(cfg, counter, next, block, rest);
      StepChainOrigins(cfg, counter, next, block, rest);
      assert forall x :: x in cfg <==> x == r || x in cfg[1..];
      block + rest
  }

  /** The block that replaces one rule: the rule itself or its chain. */
  function Block(r: Rule, counter: nat): seq<Rule> {
    if |r.body| <= 2 then [r] else Chain(r.head, r.body, counter)
  }

  lemma BlockShape(r: Rule, counter: nat)
    ensures forall x :: x in Block(r, counter) ==> |x.body| <= 2
    ensures |r.body| <= 2 ==> r in Block(r, counter)
    ensures forall x :: x in Block(r, counter) ==>
      (x == r && |x.body| <= 2) ||
      (|x.body| == 2 && |r.body| > 2 && x.body[0] in r.body && (x.body[1] in r.body || IsYName(x.body[1])))
  {
    if |r.body| > 2 {
      ChainSymbols(r.head, r.body, counter);
    }
  }

  lemma LongSymbolTail(cfg: seq<Rule>)
    requires |cfg| > 0
    ensures forall s :: LongSymbol(cfg[1..], s) ==> LongSymbol(cfg, s)
    ensures forall s :: |cfg[0].body| > 2 && s in cfg[0].body ==> LongSymbol(cfg, s)
  {
    forall s | LongSymbol(cfg[1..], s)
      ensures LongSymbol(cfg, s)
    {
      var i :| 0 <= i < |cfg[1..]| && |cfg[1..][i].body| > 2 && s in cfg[1..][i].body;
      assert cfg[i + 1] == cfg[1..][i];
    }
  }

  lemma StepOrigins(cfg: seq<Rule>, block: seq<Rule>, rest: seq<Rule>)
    requires |cfg| > 0
    requires forall x :: x in block ==>
      (x == cfg[0] && |x.body| <= 2) ||
      (|x.body| == 2 && |cfg[0].body| > 2 && x.body[0] in cfg[0].body &&
       (x.body[1] in cfg[0].body || IsYName(x.body[1])))
    requires forall x :: x in rest ==>
      (x in cfg[1..] && |x.body| <= 2) ||
      (|x.body| == 2 && LongSymbol(cfg[1..], x.body[0]) && (LongSymbol(cfg[1..], x.body[1]) || IsYName(x.body[1])))
    ensures forall x :: x in block + rest ==>
      (x in cfg && |x.body| <= 2) ||
      (|x.body| == 2 && LongSymbol(cfg, x.body[0]) && (LongSymbol(cfg, x.body[1]) || IsYName(x.body[1])))
  {
    LongSymbolTail(cfg);
    assert forall x :: x in cfg[1..] ==> x in cfg;
  }

  lemma StepChains(cfg: seq<Rule>, counter: nat, next: nat, block: seq<Rule>, rest: seq<Rule>)
    requires |cfg| > 0 && next == counter + Extra(cfg[0]) && block == Block(cfg[0], counter)
    requires forall i, x :: InChainOf(cfg[1..], i, next, x) ==> x in rest
    ensures forall i, x :: InChainOf(cfg, i, counter, x) ==> x in block + rest
  {
    forall i, x | InChainOf(cfg, i, counter, x)
      ensures x in block + rest
    {
      if i == 0 {
        ChainOfFirst(cfg, counter, x);
      } else {
        ChainOfLater(cfg, i, counter, next, x);
      }
    }
  }

  lemma StepChainOrigins(cfg: seq<Rule>, counter: nat, next: nat, block: seq<Rule>, rest: seq<Rule>)
    requires |cfg| > 0 && next == counter + Extra(cfg[0]) && block == Block(cfg[0], counter)
    requires forall x :: x in rest ==> (x in cfg[1..] && |x.body| <= 2) || FromChain(cfg[1..], next, x)
    ensures forall x :: x in block + rest ==> (x in cfg && |x.body| <= 2) || FromChain(cfg, counter, x)
  {
    forall x | x in block + rest
      ensures (x in cfg && |x.body| <= 2) || FromChain(cfg, counter, x)
    {
      if x in block {
        if |cfg[0].body| > 2 {
          assert InChainOf(cfg, 0, counter, x);
        }
      } else if x in cfg[1..] && |x.body| <= 2 {
        assert x in cfg;
      } else {
        var i :| 0 <= i < |cfg[1..]| && InChainOf(cfg[1..], i, next, x);
        ChainOfEarlier(cfg, i + 1, counter, next, x);
      }
    }
  }

  lemma ChainOfEarlier(cfg: seq<Rule>, i: int, counter: nat, next: nat, x: Rule)
    requires 0 < i && |cfg| > 0 && next == counter + Extra(cfg[0]) && InChainOf(cfg[1..], i - 1, next, x)
    ensures InChainOf(cfg, i, counter, x)
  {
    assert cfg[1..][i - 1] == cfg[i];
    assert CounterAt(cfg, i, counter) == CounterAt(cfg[1..], i - 1, next);
  }

  lemma ChainOfFirst(cfg: seq<Rule>, counter: nat, x: Rule)
    requires InChainOf(cfg, 0, counter, x)
    ensures x in Block(cfg[0], counter)
  {
  }

  lemma ChainOfLater(cfg: seq<Rule>, i: int, counter: nat, next: nat, x: Rule)
    requires 0 < i && |cfg| > 0 && next == counter + Extra(cfg[0]) && InChainOf(cfg, i, counter, x)
    ensures InChainOf(cfg[1..], i - 1, next, x)
  {
    var tail := cfg[1..];
    var r := cfg[i];
    assert tail[i - 1] == r;
    assert CounterAt(cfg, i, counter) == CounterAt(tail, i - 1, next);
  }

  /** `break_long_productions`: the counter starts at zero. */
  function BreakLong(cfg: seq<Rule>): (out: seq<Rule>)
    ensures forall x :: x in out ==> |x.body| <= 2
    ensures forall r :: r in cfg && |r.body| <= 2 ==> r in out
    ensures forall i, x :: InChainOf(cfg, i, 0, x) ==> x in out
    ensures forall x :: x in out ==>
      (x in cfg && |x.body| <= 2) ||
      (|x.body| == 2 && LongSymbol(cfg, x.body[0]) && (LongSymbol(cfg, x.body[1]) || IsYName(x.body[1])))
    ensures forall x :: x in out ==> (x in cfg && |x.body| <= 2) || FromChain(cfg, 0, x)
  {
    BreakFrom(cfg, 0)
  }
}
