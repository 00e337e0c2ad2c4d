/** The probabilistic (Viterbi) CKY parser of extensio_2.py.

    The table is indexed by half-open spans `[i, j)`, `0 <= i < j <= n`; each cell
    maps a symbol to the best probability found so far, and a symbol missing from a
    cell reads as `0`, as `dict.get(A, 0)` does. Probabilities are exact reals. */
module ProbCky {
  import opened Grammar
  import opened Wrappers

  /** A production with its probability: `((head, body), prob)`. */
  datatype ProbRule = ProbRule(rule: Rule, prob: real)

  /** The parser state built by the constructor. */
  datatype Parser = Parser(grammar: seq<ProbRule>, rulesDict: map<Rule, real>, startSymbol: Symbol)

  /** The constructor reads `grammar[0]` when no start symbol is given; on an empty
      grammar that raises `IndexError`. */
  datatype InitError = EmptyGrammarWithoutStart

  /** What `parse` returns: a probability, or the `False` sentinel. */
  datatype ParseResult = Probability(p: real) | NotMember

  function Max(a: real, b: real): real { if a >= b then a else b }

  /** `grammar[i]` is the last occurrence of its production in the grammar. */
  predicate LastOccurrence(g: seq<ProbRule>, i: int)
    requires 0 <= i < |g|
  {
    forall k :: i < k < |g| ==> g[k].rule != g[i].rule
  }

  /** `_build_rules_dict`: each production maps to the probability of its last occurrence. */
  function BuildRulesDict(g: seq<ProbRule>): (d: map<Rule, real>)
    ensures d.Keys == set i | 0 <= i < |g| :: g[i].rule
    ensures forall i :: 0 <= i < |g| && LastOccurrence(g, i) ==> d[g[i].rule] == g[i].prob
  {
    if |g| == 0 then map[]
    else
      var front := g[..|g| - 1];
      var last := g[|g| - 1];
      assert forall i :: 0 <= i < |g| - 1 ==> g[i] == front[i];
      BuildRulesDict(front)[last.rule := last.prob]
  }

  /** `__init__`: the start symbol is the given one, or the head of the first rule. */
  function NewParser(g: seq<ProbRule>, start: Option<Symbol>): (r: Result<Parser, InitError>)
    ensures r.Ok? <==> (start.Some? || |g| > 0)
    ensures r.Ok? ==> r.value.grammar == g && r.value.rulesDict == BuildRulesDict(g)
    ensures r.Ok? && start.Some? ==> r.value.startSymbol == start.value
    ensures r.Ok? && start.None? ==> r.value.startSymbol == g[0].rule.head
  {
    var d := BuildRulesDict(g);
    match start
    case Some(s) => Ok(Parser(g, d, s))
    case None => if |g| == 0 then Err(EmptyGrammarWithoutStart) else Ok(Parser(g, d, g[0].rule.head))
  }

  /** Reading a cell: a missing symbol counts as probability `0`. */
  function Get(cell: map<Symbol, real>, a: Symbol): real {
    if a in cell then cell[a] else 0.0
  }

  /** The rule `pr` is a terminal rule for `a` reading the input symbol `s`. */
  predicate TermMatch(pr: ProbRule, s: Symbol, a: Symbol) {
    pr.rule.head == a && |pr.rule.body| == 1 && pr.rule.body[0] == s
  }

  /** The diagonal entry of `a` for the input symbol `s` after the first `m` rules. */
  function BestTerm(g: seq<ProbRule>, s: Symbol, a: Symbol, m: nat): real
    requires m <= |g|
  {
    if m == 0 then 0.0
    else
      var prev := BestTerm(g, s, a, m - 1);
      if TermMatch(g[m - 1], s, a) then Max(prev, g[m - 1].prob) else prev
  }

  /** The entry of `a` in the cell of the span `[i, j)` once the table is complete. */
  function Entry(g: seq<ProbRule>, w: seq<Symbol>, i: nat, j: nat, a: Symbol): real
    requires i < j <= |w|
    decreases j - i, 1, 0, 0
  {
    if j == i + 1 then BestTerm(g, w[i], a, |g|)
    else SpanAcc(g, w, i, j, a, j - 1, |g|)
  }

  /** The candidate a binary rule offers for `a` at the split `k`, when it applies:
      the rule is `a -> B C` and both children have a positive entry. */
  predicate BinApplies(g: seq<ProbRule>, w: seq<Symbol>, i: nat, k: nat, j: nat, pr: ProbRule, a: Symbol)
    requires i < k < j <= |w|
    decreases j - i, 0, 0, 0
  {
    pr.rule.head == a && |pr.rule.body| == 2 &&
    Entry(g, w, i, k, pr.rule.body[0]) > 0.0 && Entry(g, w, k, j, pr.rule.body[1]) > 0.0
  }

  function BinCandidate(g: seq<ProbRule>, w: seq<Symbol>, i: nat, k: nat, j: nat, pr: ProbRule): real
    requires i < k < j <= |w| && |pr.rule.body| == 2
    decreases j - i, 0, 0, 0
  {
    pr.prob * Entry(g, w, i, k, pr.rule.body[0]) * Entry(g, w, k, j, pr.rule.body[1])
  }

  /** The entry of `a` on the span `[i, j)` after every split before `k` and the
      first `m` rules at the split `k`, in the order the loops visit them. */
  function SpanAcc(g: seq<ProbRule>, w: seq<Symbol>, i: nat, j: nat, a: Symbol, k: nat, m: nat): real
    requires i < k < j <= |w| && m <= |g|
    decreases j - i, 0, k, m
  {
    if m == 0 then
      (if k == i + 1 then 0.0 else SpanAcc(g, w, i, j, a, k - 1, |g|))
    else
      var prev := SpanAcc(g, w, i, j, a, k, m - 1);
      if BinApplies(g, w, i, k, j, g[m - 1], a) then Max(prev, BinCandidate(g, w, i, k, j, g[m - 1])) else prev
  }

  /** What `parse` returns for the word `w`. */
  function ParseValue(p: Parser, w: seq<Symbol>): ParseResult {
    if |w| == 0 then Probability(0.0)
    else
      var prob := Entry(p.grammar, w, 0, |w|, p.startSymbol);
      if prob > 0.0 then Probability(prob) else NotMember
  }

  /** A table of `n` rows of `n + 1` cells. */
  predicate Shaped(table: seq<seq<map<Symbol, real>>>, n: nat) {
    |table| == n && forall a :: 0 <= a < n ==> |table[a]| == n + 1
  }

  /** The cell of the span `[a, b)` is finished. */
  ghost predicate CellDone(g: seq<ProbRule>, w: seq<Symbol>, table: seq<seq<map<Symbol, real>>>, a: nat, b: nat)
    requires Shaped(table, |w|) && a < b <= |w|
  {
    forall x :: Get(table[a][b], x) == Entry(g, w, a, b, x)
  }

  /** The cells of the spans shorter than `len` are finished. */
  ghost predicate ShorterDone(g: seq<ProbRule>, w: seq<Symbol>, table: seq<seq<map<Symbol, real>>>, len: nat)
    requires Shaped(table, |w|)
  {
    forall a, b :: 0 <= a < b <= |w| && b - a < len ==> CellDone(g, w, table, a, b)
  }

  /** Fills the cells of length one: the entry of `A` at position `i` becomes the
      largest probability of a rule `A -> [w[i]]`. */
  method FillDiagonal(g: seq<ProbRule>, w: seq<Symbol>) returns (table: seq<seq<map<Symbol, real>>>)
    ensures Shaped(table, |w|)
    ensures ShorterDone(g, w, table, 2)
  {
    var n := |w|;
    table := seq(n, _ => seq(n + 1, _ => map[]));
    var i := 0;
    while i < n
      invariant i <= n && Shaped(table, n)
      invariant forall a, b :: 0 <= a < i && b == a + 1 ==> CellDone(g, w, table, a, b)
    {
      // Only the cell of [i, i + 1) changes in this pass, so it is built in a local.
      var cell: map<Symbol, real> := map[];
      var m := 0;
      while m < |g|
        invariant m <= |g|
        invariant forall x :: Get(cell, x) == BestTerm(g, w[i], x, m)
      {
        var pr := g[m];
        if |pr.rule.body| == 1 && pr.rule.body[0] == w[i] {
          var a := pr.rule.head;
          cell := cell[a := Max(Get(cell, a), pr.prob)];
        }
        m := m + 1;
      }
      StoreCell(g, w, table, i, i + 1, cell, table[i := table[i][i + 1 := cell]]);
      table := table[i := table[i][i + 1 := cell]];
      i := i + 1;
    }
  }

  /** Storing a finished cell keeps every other finished cell. */
  lemma StoreCell(g: seq<ProbRule>, w: seq<Symbol>, table: seq<seq<map<Symbol, real>>>, i: nat, j: nat,
                  cell: map<Symbol, real>, t: seq<seq<map<Symbol, real>>>)
    requires Shaped(table, |w|) && i < j <= |w|
    requires forall x :: Get(cell, x) == Entry(g, w, i, j, x)
    requires t == table[i := table[i][j := cell]]
    ensures Shaped(t, |w|)
    ensures CellDone(g, w, t, i, j)
    ensures forall a, b {:trigger CellDone(g, w, t, a, b)} :: 0 <= a < b <= |w| && CellDone(g, w, table, a, b) ==>
      CellDone(g, w, t, a, b)
  {
    assert t[i][j] == cell;
    forall a, b | 0 <= a < b <= |w| && CellDone(g, w, table, a, b)
      ensures CellDone(g, w, t, a, b)
    {
      if a != i || b != j {
        assert t[a][b] == table[a][b];
      }
    }
  }

  /** Computes the cell of the span `[i, j)`, `j > i + 1`, from the finished shorter
      cells: for each split `k` and binary rule `A -> B C` with both child entries
      positive, the entry of `A` is raised to `prob * p(B) * p(C)` if that is larger. */
  method FillCell(g: seq<ProbRule>, w: seq<Symbol>, table: seq<seq<map<Symbol, real>>>, i: nat, j: nat)
    returns (cell: map<Symbol, real>)
    requires i + 1 < j <= |w| && Shaped(table, |w|)
    requires ShorterDone(g, w, table, j - i)
    ensures forall x :: Get(cell, x) == Entry(g, w, i, j, x)
  {
    cell := map[];
    var k := i + 1;
    while k < j
      invariant i + 1 <= k <= j
      invariant forall x :: Get(cell, x) == if k == i + 1 then 0.0 else SpanAcc(g, w, i, j, x, k - 1, |g|)
    {
      var m := 0;
      while m < |g|
        invariant m <= |g|
        invariant forall x :: Get(cell, x) == SpanAcc(g, w, i, j, x, k, m)
      {
        var pr := g[m];
        if |pr.rule.body| == 2 {
          var b, c := pr.rule.body[0], pr.rule.body[1];
          assert CellDone(g, w, table, i, k) && CellDone(g, w, table, k, j);
          var probB := Get(table[i][k], b);
          var probC := Get(table[k][j], c);
          if probB > 0.0 && probC > 0.0 {
            var candidate := pr.prob * probB * probC;
            cell := cell[pr.rule.head := Max(Get(cell, pr.rule.head), candidate)];
          }
        }
        m := m + 1;
      }
      k := k + 1;
    }
  }

  /** `parse`: `0.0` on the empty word; otherwise the start symbol's entry on the
      whole word when it is positive, and the `False` sentinel when it is not. */
  method Parse(p: Parser, w: seq<Symbol>) returns (result: ParseResult)
    ensures result == ParseValue(p, w)
  {
    var n := |w|;
    if n == 0 {
      return Probability(0.0);
    }
    var table := FillDiagonal(p.grammar, w);
    var len := 2;
    while len <= n
      invariant 2 <= len <= n + 1 && Shaped(table, n)
      invariant ShorterDone(p.grammar, w, table, len)
    {
      var i := 0;
      while i < n - len + 1
        invariant 0 <= i <= n - len + 1 && Shaped(table, n)
        invariant ShorterDone(p.grammar, w, table, len)
        invariant forall a, b :: 0 <= a < i && b == a + len ==> CellDone(p.grammar, w, table, a, b)
      {
        var j := i + len;
        var cell := FillCell(p.grammar, w, table, i, j);
        StoreCell(p.grammar, w, table, i, j, cell, table[i := table[i][j := cell]]);
        table := table[i := table[i][j := cell]];
        i := i + 1;
      }
      len := len + 1;
    }
    assert CellDone(p.grammar, w, table, 0, n);
    var probability := Get(table[0][n], p.startSymbol);
    result := if probability > 0.0 then Probability(probability) else NotMember;
  }
}
