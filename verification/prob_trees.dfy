/** What the probabilistic CKY table means.

    Each entry is the maximum of the candidates the loops offer it (the fold
    lemmas), and, when every rule probability is positive, the largest product of
    rule probabilities over the derivation trees of its span (the Viterbi lemmas).
    With probabilities in `(0, 1]` every entry, and so every answer, stays in
    `[0, 1]`. */
module ProbTrees {
  import opened Grammar
  import opened Wrappers
  import opened ProbCky

  /** A derivation tree; each node names the index of the rule it uses. */
  datatype PTree = PLeaf(ix: nat) | PNode(ix: nat, left: PTree, right: PTree)

  ghost function Root(g: seq<ProbRule>, t: PTree): Symbol
    requires t.ix < |g|
  {
    g[t.ix].rule.head
  }

  /** Leaves use one-symbol rules, inner nodes binary rules whose body is the
      roots of the two subtrees. */
  ghost predicate PValid(g: seq<ProbRule>, t: PTree) {
    t.ix < |g| &&
    match t
    case PLeaf(x) => |g[x].rule.body| == 1
    case PNode(x, l, r) =>
      |g[x].rule.body| == 2 && PValid(g, l) && PValid(g, r) &&
      g[x].rule.body[0] == Root(g, l) && g[x].rule.body[1] == Root(g, r)
  }

  ghost function PYield(g: seq<ProbRule>, t: PTree): (y: seq<Symbol>)
    requires PValid(g, t)
    ensures |y| >= 1
  {
    match t
    case PLeaf(x) => g[x].rule.body
    case PNode(_, l, r) => PYield(g, l) + PYield(g, r)
  }

  /** The probability of a derivation: the product of its rules' probabilities. */
  ghost function TreeProb(g: seq<ProbRule>, t: PTree): real
    requires PValid(g, t)
  {
    match t
    case PLeaf(x) => g[x].prob
    case PNode(x, l, r) => g[x].prob * TreeProb(g, l) * TreeProb(g, r)
  }

  /** `t` derives the span `[i, j)` of `w` from `a`. */
  ghost predicate DerivesSpan(g: seq<ProbRule>, w: seq<Symbol>, i: nat, j: nat, a: Symbol, t: PTree)
    requires i <= j <= |w|
  {
    PValid(g, t) && Root(g, t) == a && PYield(g, t) == w[i..j]
  }

  ghost predicate PositiveProbs(g: seq<ProbRule>) {
    forall x :: 0 <= x < |g| ==> g[x].prob > 0.0
  }

  ghost predicate UnitIntervalProbs(g: seq<ProbRule>) {
    forall x :: 0 <= x < |g| ==> 0.0 < g[x].prob <= 1.0
  }

  // ---------------------------------------------------------------------------
  // The folds compute maxima.

  /** After the first `m` rules, the diagonal entry is at least `0` and at least
      every matching rule's probability, and it is `0` or one of them. */
  lemma {:induction false} BestTermIsMax(g: seq<ProbRule>, s: Symbol, a: Symbol, m: nat)
    requires m <= |g|
    ensures BestTerm(g, s, a, m) >= 0.0
    ensures forall x :: 0 <= x < m && TermMatch(g[x], s, a) ==> g[x].prob <= BestTerm(g, s, a, m)
    ensures BestTerm(g, s, a, m) == 0.0 ||
      exists x :: 0 <= x < m && TermMatch(g[x], s, a) && g[x].prob == BestTerm(g, s, a, m)
  {
    if m > 0 {
      BestTermIsMax(g, s, a, m - 1);
    }
  }

  /** The split `k` and rule `x` come no later than the loop position `(kEnd, m)`. */
  predicate Visited(g: seq<ProbRule>, i: nat, k: nat, x: int, kEnd: nat, m: nat) {
    i < k && 0 <= x < |g| && (k < kEnd || (k == kEnd && x < m))
  }

  /** After the loop position `(k, m)`, the running entry is at least `0` and at
      least every candidate visited so far, and it is `0` or one of them. */
  lemma {:induction false} SpanAccIsMax(g: seq<ProbRule>, w: seq<Symbol>, i: nat, j: nat, a: Symbol, k: nat, m: nat)
    requires i < k < j <= |w| && m <= |g|
    ensures SpanAcc(g, w, i, j, a, k, m) >= 0.0
    ensures forall k', x :: Visited(g, i, k', x, k, m) && BinApplies(g, w, i, k', j, g[x], a) ==>
      BinCandidate(g, w, i, k', j, g[x]) <= SpanAcc(g, w, i, j, a, k, m)
    ensures SpanAcc(g, w, i, j, a, k, m) == 0.0 ||
      exists k', x :: Visited(g, i, k', x, k, m) && BinApplies(g, w, i, k', j, g[x], a) &&
        BinCandidate(g, w, i, k', j, g[x]) == SpanAcc(g, w, i, j, a, k, m)
    decreases k, m
  {
    var v := SpanAcc(g, w, i, j, a, k, m);
    if m == 0 {
      if k > i + 1 {
        SpanAccIsMax(g, w, i, j, a, k - 1, |g|);
        forall k', x | Visited(g, i, k', x, k, m)
          ensures Visited(g, i, k', x, k - 1, |g|)
        {
        }
        if v != 0.0 {
          var k', x :| Visited(g, i, k', x, k - 1, |g|) && BinApplies(g, w, i, k', j, g[x], a) &&
            BinCandidate(g, w, i, k', j, g[x]) == v;
          assert Visited(g, i, k', x, k, m);
        }
      }
    } else {
      SpanAccIsMax(g, w, i, j, a, k, m - 1);
      var prev := SpanAcc(g, w, i, j, a, k, m - 1);
      forall k', x | Visited(g, i, k', x, k, m) && BinApplies(g, w, i, k', j, g[x], a)
        ensures BinCandidate(g, w, i, k', j, g[x]) <= v
      {
        if !(k' == k && x == m - 1) {
          assert Visited(g, i, k', x, k, m - 1);
        }
      }
      if v != 0.0 {
        if v == prev {
          var k', x :| Visited(g, i, k', x, k, m - 1) && BinApplies(g, w, i, k', j, g[x], a) &&
            BinCandidate(g, w, i, k', j, g[x]) == v;
          assert Visited(g, i, k', x, k, m);
        } else {
          assert Visited(g, i, k, m - 1, k, m);
        }
      }
    }
  }

  /** The entry of a span of length one: the largest probability of a rule
      `a -> [w[i]]`, or `0` when there is none. */
  lemma DiagonalEntryIsMax(g: seq<ProbRule>, w: seq<Symbol>, i: nat, a: Symbol)
    requires i < |w|
    ensures Entry(g, w, i, i + 1, a) >= 0.0
    ensures forall x :: 0 <= x < |g| && TermMatch(g[x], w[i], a) ==> g[x].prob <= Entry(g, w, i, i + 1, a)
    ensures Entry(g, w, i, i + 1, a) == 0.0 ||
      exists x :: 0 <= x < |g| && TermMatch(g[x], w[i], a) && g[x].prob == Entry(g, w, i, i + 1, a)
  {
    BestTermIsMax(g, w[i], a, |g|);
  }

  /** The entry of a longer span: the largest `prob * p(B) * p(C)` over the splits
      `k` and the rules `a -> B C` whose child entries are both positive, or `0`. */
  lemma SpanEntryIsMax(g: seq<ProbRule>, w: seq<Symbol>, i: nat, j: nat, a: Symbol)
    requires i + 1 < j <= |w|
    ensures Entry(g, w, i, j, a) >= 0.0
    ensures forall k, x :: i < k < j && 0 <= x < |g| && BinApplies(g, w, i, k, j, g[x], a) ==>
      BinCandidate(g, w, i, k, j, g[x]) <= Entry(g, w, i, j, a)
    ensures Entry(g, w, i, j, a) == 0.0 ||
      exists k, x :: i < k < j && 0 <= x < |g| && BinApplies(g, w, i, k, j, g[x], a) &&
        BinCandidate(g, w, i, k, j, g[x]) == Entry(g, w, i, j, a)
  {
    SpanAccIsMax(g, w, i, j, a, j - 1, |g|);
  }

  lemma EntryNonNegative(g: seq<ProbRule>, w: seq<Symbol>, i: nat, j: nat, a: Symbol)
    requires i < j <= |w|
    ensures Entry(g, w, i, j, a) >= 0.0
  {
    if j == i + 1 {
      DiagonalEntryIsMax(g, w, i, a);
    } else {
      SpanEntryIsMax(g, w, i, j, a);
    }
  }

  // ---------------------------------------------------------------------------
  // The table is the Viterbi table.

  lemma MulMono(p: real, a: real, b: real, c: real, d: real)
    requires p > 0.0 && 0.0 < a <= c && 0.0 < b <= d
    ensures 0.0 < p * a * b <= p * c * d
  {
    assert p * a > 0.0;
    assert p * a <= p * c;
    assert (p * a) * b <= (p * c) * b;
    assert (p * c) * b <= (p * c) * d;
  }

  /** A derivation tree splits its span where its left subtree's yield ends. */
  lemma SplitYield(g: seq<ProbRule>, w: seq<Symbol>, i: nat, j: nat, t: PTree) returns (k: nat)
    requires i <= j <= |w| && t.PNode? && PValid(g, t) && PYield(g, t) == w[i..j]
    ensures i < k < j
    ensures PYield(g, t.left) == w[i..k] && PYield(g, t.right) == w[k..j]
  {
    var yl, yr := PYield(g, t.left), PYield(g, t.right);
    k := i + |yl|;
    var y := w[i..j];
    assert yl + yr == y;
    assert yl == y[..|yl|] && yr == y[|yl|..];
    assert y[..|yl|] == w[i..k] && y[|yl|..] == w[k..j];
  }

  /** With positive rule probabilities, no derivation of a span beats its entry. */
  lemma {:induction false} TreeBelowEntry(g: seq<ProbRule>, w: seq<Symbol>, i: nat, j: nat, t: PTree)
    requires PositiveProbs(g) && i < j <= |w| && PValid(g, t) && PYield(g, t) == w[i..j]
    ensures 0.0 < TreeProb(g, t) <= Entry(g, w, i, j, Root(g, t))
    decreases t
  {
    match t
    case PLeaf(x) =>
      assert |w[i..j]| == 1;
      assert TermMatch(g[x], w[i], Root(g, t));
      DiagonalEntryIsMax(g, w, i, Root(g, t));
    case PNode(x, l, r) =>
      var k := SplitYield(g, w, i, j, t);
      TreeBelowEntry(g, w, i, k, l);
      TreeBelowEntry(g, w, k, j, r);
      NodeBelowEntry(g, w, i, k, j, x, TreeProb(g, l), TreeProb(g, r));
  }

  /** A binary rule applied to two children whose probabilities lie below their
      entries gives a candidate below the parent's entry. */
  lemma NodeBelowEntry(g: seq<ProbRule>, w: seq<Symbol>, i: nat, k: nat, j: nat, x: nat, pl: real, pr: real)
    requires i < k < j <= |w| && x < |g| && g[x].prob > 0.0 && |g[x].rule.body| == 2
    requires 0.0 < pl <= Entry(g, w, i, k, g[x].rule.body[0])
    requires 0.0 < pr <= Entry(g, w, k, j, g[x].rule.body[1])
    ensures 0.0 < g[x].prob * pl * pr <= Entry(g, w, i, j, g[x].rule.head)
  {
    var eb, ec := Entry(g, w, i, k, g[x].rule.body[0]), Entry(g, w, k, j, g[x].rule.body[1]);
    MulMono(g[x].prob, pl, pr, eb, ec);
    assert BinApplies(g, w, i, k, j, g[x], g[x].rule.head);
    SpanEntryIsMax(g, w, i, j, g[x].rule.head);
  }

  /** A positive entry is the probability of some derivation of its span. */
  lemma {:induction false} EntryAttained(g: seq<ProbRule>, w: seq<Symbol>, i: nat, j: nat, a: Symbol)
    requires i < j <= |w| && Entry(g, w, i, j, a) > 0.0
    ensures exists t :: DerivesSpan(g, w, i, j, a, t) && TreeProb(g, t) == Entry(g, w, i, j, a)
    decreases j - i
  {
    if j == i + 1 {
      DiagonalEntryIsMax(g, w, i, a);
      var x :| 0 <= x < |g| && TermMatch(g[x], w[i], a) && g[x].prob == Entry(g, w, i, j, a);
      var t := PLeaf(x);
      assert DerivesSpan(g, w, i, j, a, t) && TreeProb(g, t) == Entry(g, w, i, j, a);
    } else {
      SpanEntryIsMax(g, w, i, j, a);
      var k, x :| i < k < j && 0 <= x < |g| && BinApplies(g, w, i, k, j, g[x], a) &&
        BinCandidate(g, w, i, k, j, g[x]) == Entry(g, w, i, j, a);
      var b, c := g[x].rule.body[0], g[x].rule.body[1];
      EntryAttained(g, w, i, k, b);
      EntryAttained(g, w, k, j, c);
      var l :| DerivesSpan(g, w, i, k, b, l) && TreeProb(g, l) == Entry(g, w, i, k, b);
      var r :| DerivesSpan(g, w, k, j, c, r) && TreeProb(g, r) == Entry(g, w, k, j, c);
      NodeAttained(g, w, i, k, j, x, l, r);
    }
  }

  /** A node over two best subtrees for a best binary candidate is a best tree. */
  lemma NodeAttained(g: seq<ProbRule>, w: seq<Symbol>, i: nat, k: nat, j: nat, x: nat, l: PTree, r: PTree)
    requires i < k < j <= |w| && x < |g| && |g[x].rule.body| == 2
    requires DerivesSpan(g, w, i, k, g[x].rule.body[0], l)
    requires DerivesSpan(g, w, k, j, g[x].rule.body[1], r)
    requires TreeProb(g, l) == Entry(g, w, i, k, g[x].rule.body[0])
    requires TreeProb(g, r) == Entry(g, w, k, j, g[x].rule.body[1])
    ensures DerivesSpan(g, w, i, j, g[x].rule.head, PNode(x, l, r))
    ensures TreeProb(g, PNode(x, l, r)) == BinCandidate(g, w, i, k, j, g[x])
  {
    assert w[i..j] == w[i..k] + w[k..j];
  }

  /** With probabilities in `(0, 1]`, every derivation has a probability in `(0, 1]`. */
  lemma {:induction false} TreeProbInUnitInterval(g: seq<ProbRule>, t: PTree)
    requires UnitIntervalProbs(g) && PValid(g, t)
    ensures 0.0 < TreeProb(g, t) <= 1.0
    decreases t
  {
    match t
    case PLeaf(_) =>
    case PNode(x, l, r) =>
      TreeProbInUnitInterval(g, l);
      TreeProbInUnitInterval(g, r);
      var p, pl, pr := g[x].prob, TreeProb(g, l), TreeProb(g, r);
      assert 0.0 < p <= 1.0;
      assert TreeProb(g, t) == p * pl * pr;
      MulMono(p, pl, pr, 1.0, 1.0);
      assert p * 1.0 * 1.0 == p;
  }

  /** With probabilities in `(0, 1]`, every table entry lies in `[0, 1]`, and it is
      positive exactly when its span has a derivation. */
  lemma EntryInUnitInterval(g: seq<ProbRule>, w: seq<Symbol>, i: nat, j: nat, a: Symbol)
    requires UnitIntervalProbs(g) && i < j <= |w|
    ensures 0.0 <= Entry(g, w, i, j, a) <= 1.0
    ensures Entry(g, w, i, j, a) > 0.0 <==> exists t :: DerivesSpan(g, w, i, j, a, t)
  {
    EntryNonNegative(g, w, i, j, a);
    if Entry(g, w, i, j, a) > 0.0 {
      EntryAttained(g, w, i, j, a);
      var t :| DerivesSpan(g, w, i, j, a, t) && TreeProb(g, t) == Entry(g, w, i, j, a);
      TreeProbInUnitInterval(g, t);
    }
    if exists t :: DerivesSpan(g, w, i, j, a, t) {
      var t :| DerivesSpan(g, w, i, j, a, t);
      TreeBelowEntry(g, w, i, j, t);
    }
  }

  /** `parse` on a non-empty word: with positive rule probabilities, the sentinel
      exactly when the start symbol has no derivation of the word, and otherwise
      the probability of its most probable derivation. */
  lemma ParseIsBestDerivation(p: Parser, w: seq<Symbol>)
    requires PositiveProbs(p.grammar) && |w| > 0
    ensures ParseValue(p, w).NotMember? <==>
      !exists t :: DerivesSpan(p.grammar, w, 0, |w|, p.startSymbol, t)
    ensures ParseValue(p, w).Probability? ==>
      (exists t :: DerivesSpan(p.grammar, w, 0, |w|, p.startSymbol, t) &&
        TreeProb(p.grammar, t) == ParseValue(p, w).p) &&
      (forall t :: DerivesSpan(p.grammar, w, 0, |w|, p.startSymbol, t) ==>
        TreeProb(p.grammar, t) <= ParseValue(p, w).p)
  {
    var g, n, s := p.grammar, |w|, p.startSymbol;
    if Entry(g, w, 0, n, s) > 0.0 {
      EntryAttained(g, w, 0, n, s);
    }
    forall t | DerivesSpan(g, w, 0, n, s, t)
      ensures 0.0 < TreeProb(g, t) <= Entry(g, w, 0, n, s)
    {
      TreeBelowEntry(g, w, 0, n, t);
    }
  }

  /** `parse` on a non-empty word, with probabilities in `(0, 1]`: the sentinel or
      a probability in `(0, 1]`. The empty word gives `0.0` instead. */
  lemma ParseInUnitInterval(p: Parser, w: seq<Symbol>)
    requires UnitIntervalProbs(p.grammar)
    ensures |w| == 0 ==> ParseValue(p, w) == Probability(0.0)
    ensures |w| > 0 && ParseValue(p, w).Probability? ==> 0.0 < ParseValue(p, w).p <= 1.0
  {
    if |w| > 0 {
      EntryInUnitInterval(p.grammar, w, 0, |w|, p.startSymbol);
    }
  }

  // ---------------------------------------------------------------------------
  // A worked grammar.

  /** `S -> A B` 1.0, `A -> a` 1.0, `B -> b` 0.6, `B -> c` 0.4. */
  function ExampleGrammar(): seq<ProbRule> {
    [ProbRule(Rule("S", ["A", "B"]), 1.0), ProbRule(Rule("A", ["a"]), 1.0),
     ProbRule(Rule("B", ["b"]), 0.6), ProbRule(Rule("B", ["c"]), 0.4)]
  }

  /** The parser the constructor builds for that grammar without a start symbol:
      the start is `S`, the head of the first rule. */
  lemma ExampleParser()
    ensures NewParser(ExampleGrammar(), None).Ok?
    ensures NewParser(ExampleGrammar(), None).value.startSymbol == "S"
  {
  }

  /** The entry of `S` on a two-symbol word, from the entries of `A` and `B`:
      only the first rule has head `S`. */
  lemma ExampleStartEntry(w: seq<Symbol>)
    requires |w| == 2
    ensures Entry(ExampleGrammar(), w, 0, 2, "S") ==
      if Entry(ExampleGrammar(), w, 0, 1, "A") > 0.0 && Entry(ExampleGrammar(), w, 1, 2, "B") > 0.0
      then 1.0 * Entry(ExampleGrammar(), w, 0, 1, "A") * Entry(ExampleGrammar(), w, 1, 2, "B")
      else 0.0
  {
    var g := ExampleGrammar();
    assert SpanAcc(g, w, 0, 2, "S", 1, 4) == SpanAcc(g, w, 0, 2, "S", 1, 3);
    assert SpanAcc(g, w, 0, 2, "S", 1, 3) == SpanAcc(g, w, 0, 2, "S", 1, 2);
    assert SpanAcc(g, w, 0, 2, "S", 1, 2) == SpanAcc(g, w, 0, 2, "S", 1, 1);
    assert SpanAcc(g, w, 0, 2, "S", 1, 0) == 0.0;
    EntryNonNegative(g, w, 0, 1, "A");
    EntryNonNegative(g, w, 1, 2, "B");
  }

  /** The diagonal entries the example words need. */
  lemma ExampleDiagonal(w: seq<Symbol>)
    requires |w| == 2 && w[0] == "a"
    ensures Entry(ExampleGrammar(), w, 0, 1, "A") == 1.0
    ensures w[1] == "b" ==> Entry(ExampleGrammar(), w, 1, 2, "B") == 0.6
    ensures w[1] == "c" ==> Entry(ExampleGrammar(), w, 1, 2, "B") == 0.4
    ensures w[1] == "d" ==> Entry(ExampleGrammar(), w, 1, 2, "B") == 0.0
  {
    var g := ExampleGrammar();
    assert BestTerm(g, "a", "A", 1) == 0.0;
    assert BestTerm(g, "a", "A", 2) == 1.0;
    assert BestTerm(g, "a", "A", 4) == 1.0;
    assert BestTerm(g, w[1], "B", 1) == 0.0;
    assert BestTerm(g, w[1], "B", 2) == 0.0;
    assert BestTerm(g, w[1], "B", 3) == if w[1] == "b" then 0.6 else 0.0;
  }

  /** `"ab"` gives 0.6. */
  lemma ExampleParsesB()
    ensures ParseValue(NewParser(ExampleGrammar(), None).value, ["a", "b"]) == Probability(0.6)
  {
    var w: seq<Symbol> := ["a", "b"];
    ExampleDiagonal(w);
    ExampleStartEntry(w);
  }

  /** `"ac"` gives 0.4. */
  lemma ExampleParsesC()
    ensures ParseValue(NewParser(ExampleGrammar(), None).value, ["a", "c"]) == Probability(0.4)
  {
    var w: seq<Symbol> := ["a", "c"];
    ExampleDiagonal(w);
    ExampleStartEntry(w);
  }

  /** `"ad"` gives the sentinel: nothing derives `d`. */
  lemma ExampleParsesD()
    ensures ParseValue(NewParser(ExampleGrammar(), None).value, ["a", "d"]) == NotMember
  {
    var w: seq<Symbol> := ["a", "d"];
    ExampleDiagonal(w);
    ExampleStartEntry(w);
  }
}
