/** The boolean CKY recogniser of extensio_base.py.

    The table is indexed by inclusive spans `(i, j)` of the word, `0 <= i <= j < n`.
    `Cell` is the table the algorithm fills, defined span by span; `ParseQuiet` is
    the loop that fills it, proved to produce exactly `Cell`. */
module Cky {
  import opened Grammar

  /** The state the constructor sets up: the rules, the start symbol and whether
      a literal `(start, [""])` rule is present. */
  datatype Recognizer = Recognizer(rules: seq<Rule>, startSymbol: Symbol, startGeneratesEpsilon: bool)

  function NewRecognizer(rules: seq<Rule>, start: Symbol): (c: Recognizer)
    ensures c.rules == rules && c.startSymbol == start
    ensures c.startGeneratesEpsilon <==> Rule(start, EpsilonBody) in rules
  {
    Recognizer(rules, start, exists i :: 0 <= i < |rules| && rules[i] == Rule(start, EpsilonBody))
  }

  /** The recogniser built without a start symbol: the start is `S`, and the
      epsilon flag records whether `S -> ''` is a rule. */
  function NewRecognizerDefault(rules: seq<Rule>): (c: Recognizer)
    ensures c.rules == rules && c.startSymbol == "S"
    ensures c.startGeneratesEpsilon <==> Rule("S", [""]) in rules
  {
    NewRecognizer(rules, DefaultStart)
  }

  /** A rule that seeds a diagonal cell for the input symbol `s`. */
  predicate TerminalMatch(r: Rule, s: Symbol) {
    |r.body| == 1 && r.body[0] == s && IsLower(r.body[0])
  }

  /** A binary rule whose two body symbols lie in the left and the right cell. */
  predicate BinaryMatch(r: Rule, left: set<Symbol>, right: set<Symbol>) {
    |r.body| == 2 && r.body[0] in left && r.body[1] in right
  }

  /** Heads of the first `m` rules that seed a diagonal cell for `s`. */
  function DiagUpTo(rules: seq<Rule>, s: Symbol, m: nat): set<Symbol>
    requires m <= |rules|
  {
    set x | 0 <= x < m && TerminalMatch(rules[x], s) :: rules[x].head
  }

  function Diag(rules: seq<Rule>, s: Symbol): set<Symbol> {
    DiagUpTo(rules, s, |rules|)
  }

  /** The cell of the inclusive span `(i, j)` once the table is complete. */
  function Cell(rules: seq<Rule>, w: seq<Symbol>, i: nat, j: nat): (cell: set<Symbol>)
    requires i <= j < |w|
    decreases j - i, 1
  {
    if i == j then Diag(rules, w[i])
    else SplitsUpTo(rules, w, i, j, j)
  }

  /** Heads contributed by the splits `k` in `[i, kEnd)` of the span `(i, j)`. */
  function SplitsUpTo(rules: seq<Rule>, w: seq<Symbol>, i: nat, j: nat, kEnd: nat): (heads: set<Symbol>)
    requires i < j < |w| && i <= kEnd <= j
    decreases j - i, 0, kEnd
  {
    if kEnd == i then {}
    else SplitsUpTo(rules, w, i, j, kEnd - 1) + RulesAt(rules, w, i, kEnd - 1, j, |rules|)
  }

  /** Heads contributed by the first `m` rules at the split `k` of the span `(i, j)`. */
  function RulesAt(rules: seq<Rule>, w: seq<Symbol>, i: nat, k: nat, j: nat, m: nat): set<Symbol>
    requires i <= k < j < |w| && m <= |rules|
    decreases j - i, 0, 0
  {
    var left := Cell(rules, w, i, k);
    var right := Cell(rules, w, k + 1, j);
    set x | 0 <= x < m && BinaryMatch(rules[x], left, right) :: rules[x].head
  }

  /** The rule `rules[m]` at the split `k` puts its head into the cell `(i, j)`. */
  predicate SplitWitness(rules: seq<Rule>, w: seq<Symbol>, i: nat, j: nat, k: nat, m: int)
    requires i <= k < j < |w|
  {
    0 <= m < |rules| && BinaryMatch(rules[m], Cell(rules, w, i, k), Cell(rules, w, k + 1, j))
  }

  /** Membership of `x` in a finished cell of length two or more: some binary rule
      `x -> B C` and some split `k` put `B` on the left and `C` on the right. */
  lemma CellBinary(rules: seq<Rule>, w: seq<Symbol>, i: nat, j: nat, x: Symbol)
    requires i < j < |w|
    ensures x in Cell(rules, w, i, j) <==>
      exists k, m :: i <= k < j && SplitWitness(rules, w, i, j, k, m) && rules[m].head == x
  {
    SplitsMember(rules, w, i, j, j, x);
  }

  lemma {:induction false} SplitsMember(rules: seq<Rule>, w: seq<Symbol>, i: nat, j: nat, kEnd: nat, x: Symbol)
    requires i < j < |w| && i <= kEnd <= j
    ensures x in SplitsUpTo(rules, w, i, j, kEnd) <==>
      exists k, m :: i <= k < kEnd && SplitWitness(rules, w, i, j, k, m) && rules[m].head == x
    decreases kEnd
  {
    if kEnd > i {
      SplitsMember(rules, w, i, j, kEnd - 1, x);
      var k := kEnd - 1;
      var here := RulesAt(rules, w, i, k, j, |rules|);
      assert SplitsUpTo(rules, w, i, j, kEnd) == SplitsUpTo(rules, w, i, j, k) + here;
      if x in here {
        var m :| 0 <= m < |rules| && BinaryMatch(rules[m], Cell(rules, w, i, k), Cell(rules, w, k + 1, j)) && rules[m].head == x;
        assert SplitWitness(rules, w, i, j, k, m);
      }
      if exists k', m :: i <= k' < kEnd && SplitWitness(rules, w, i, j, k', m) && rules[m].head == x {
        var k', m :| i <= k' < kEnd && SplitWitness(rules, w, i, j, k', m) && rules[m].head == x;
        if k' == k {
          assert 0 <= m < |rules| && BinaryMatch(rules[m], Cell(rules, w, i, k), Cell(rules, w, k + 1, j));
          assert rules[m].head in here;
        }
      }
    }
  }

  /** Every symbol in a cell is the head of some rule. */
  lemma CellHeads(rules: seq<Rule>, w: seq<Symbol>, i: nat, j: nat, x: Symbol)
    requires i <= j < |w| && x in Cell(rules, w, i, j)
    ensures IsHead(rules, x)
  {
    if i == j {
      var y :| 0 <= y < |rules| && TerminalMatch(rules[y], w[i]) && rules[y].head == x;
    } else {
      CellBinary(rules, w, i, j, x);
    }
  }

  /** The value `parse_quiet` returns, read off the finished table. */
  function Accepts(c: Recognizer, w: seq<Symbol>): bool {
    if |w| == 0 then c.startGeneratesEpsilon
    else c.startSymbol in Cell(c.rules, w, 0, |w| - 1)
  }

  /** A table of `n` rows of `n` cells. */
  predicate Square<T>(table: seq<seq<T>>, n: nat) {
    |table| == n && forall a :: 0 <= a < n ==> |table[a]| == n
  }

  /** The cells of the spans shorter than `len` are finished. */
  predicate ShorterDone(rules: seq<Rule>, w: seq<Symbol>, table: seq<seq<set<Symbol>>>, len: nat)
    requires Square(table, |w|)
  {
    forall a, b :: 0 <= a <= b < |w| && b - a + 1 < len ==> table[a][b] == Cell(rules, w, a, b)
  }

  /** Fills the diagonal: cell `(i, i)` gets every head of a rule `A -> [c]` whose
      `c` is the `i`-th input symbol and is lower case. */
  method FillDiagonal(rules: seq<Rule>, w: seq<Symbol>) returns (table: seq<seq<set<Symbol>>>)
    ensures Square(table, |w|)
    ensures ShorterDone(rules, w, table, 2)
    ensures forall a, b :: 0 <= a < b < |w| ==> table[a][b] == {}
  {
    var n := |w|;
    table := seq(n, _ => seq(n, _ => {}));
    var i := 0;
    while i < n
      invariant i <= n && Square(table, n)
      invariant forall a :: 0 <= a < i ==> table[a][a] == Diag(rules, w[a])
      invariant forall a, b :: 0 <= a < n && 0 <= b < n && (a != b || a >= i) ==> table[a][b] == {}
    {
      var m := 0;
      while m < |rules|
        invariant m <= |rules| && Square(table, n)
        invariant table[i][i] == DiagUpTo(rules, w[i], m)
        invariant forall a :: 0 <= a < i ==> table[a][a] == Diag(rules, w[a])
        invariant forall a, b :: 0 <= a < n && 0 <= b < n && (a != b || a > i) ==> table[a][b] == {}
      {
        var r := rules[m];
        if |r.body| == 1 && r.body[0] == w[i] && IsLower(r.body[0]) {
          table := table[i := table[i][i := table[i][i] + {r.head}]];
        }
        DiagStep(rules, w[i], m);
        m := m + 1;
      }
      i := i + 1;
    }
  }

  lemma DiagStep(rules: seq<Rule>, s: Symbol, m: nat)
    requires m < |rules|
    ensures DiagUpTo(rules, s, m + 1) ==
      DiagUpTo(rules, s, m) + (if TerminalMatch(rules[m], s) then {rules[m].head} else {})
  {
    var lhs := DiagUpTo(rules, s, m + 1);
    var rhs := DiagUpTo(rules, s, m) + (if TerminalMatch(rules[m], s) then {rules[m].head} else {});
    forall x | x in lhs ensures x in rhs {
      var y :| 0 <= y < m + 1 && TerminalMatch(rules[y], s) && rules[y].head == x;
      if y < m { assert x in DiagUpTo(rules, s, m); }
    }
  }

  lemma RulesAtStep(rules: seq<Rule>, w: seq<Symbol>, i: nat, k: nat, j: nat, m: nat)
    requires i <= k < j < |w| && m < |rules|
    ensures RulesAt(rules, w, i, k, j, m + 1) ==
      RulesAt(rules, w, i, k, j, m) +
      (if BinaryMatch(rules[m], Cell(rules, w, i, k), Cell(rules, w, k + 1, j)) then {rules[m].head} else {})
  {
    var left := Cell(rules, w, i, k);
    var right := Cell(rules, w, k + 1, j);
    var lhs := RulesAt(rules, w, i, k, j, m + 1);
    var rhs := RulesAt(rules, w, i, k, j, m) + (if BinaryMatch(rules[m], left, right) then {rules[m].head} else {});
    forall x | x in lhs ensures x in rhs {
      var y :| 0 <= y < m + 1 && BinaryMatch(rules[y], left, right) && rules[y].head == x;
      if y < m { assert x in RulesAt(rules, w, i, k, j, m); }
    }
  }

  /** Computes the cell of the span `(i, j)`, `i < j`, from the finished shorter cells:
      for each split `k` and each rule `A -> B C`, adds `A` when `B` is in cell `(i, k)`
      and `C` in cell `(k + 1, j)`. */
  method FillCell(rules: seq<Rule>, w: seq<Symbol>, table: seq<seq<set<Symbol>>>, i: nat, j: nat)
    returns (cell: set<Symbol>)
    requires i < j < |w| && Square(table, |w|)
    requires ShorterDone(rules, w, table, j - i + 1)
    ensures cell == Cell(rules, w, i, j)
  {
    cell := {};
    var k := i;
    while k < j
      invariant i <= k <= j
      invariant cell == SplitsUpTo(rules, w, i, j, k)
    {
      var left, right := table[i][k], table[k + 1][j];
      FinishedCell(rules, w, table, j - i + 1, i, k);
      FinishedCell(rules, w, table, j - i + 1, k + 1, j);
      var before := cell;
      var m := 0;
      while m < |rules|
        invariant m <= |rules|
        invariant cell == before + RulesAt(rules, w, i, k, j, m)
      {
        var r := rules[m];
        if |r.body| == 2 {
          var b, c := r.body[0], r.body[1];
          if b in left && c in right {
            cell := cell + {r.head};
          }
        }
        RulesAtStep(rules, w, i, k, j, m);
        m := m + 1;
      }
      SplitsUpToStep(rules, w, i, j, k);
      k := k + 1;
    }
  }

  lemma FinishedCell(rules: seq<Rule>, w: seq<Symbol>, table: seq<seq<set<Symbol>>>, len: nat, a: nat, b: nat)
    requires Square(table, |w|) && ShorterDone(rules, w, table, len)
    requires a <= b < |w| && b - a + 1 < len
    ensures table[a][b] == Cell(rules, w, a, b)
  {
  }

  lemma SplitsUpToStep(rules: seq<Rule>, w: seq<Symbol>, i: nat, j: nat, k: nat)
    requires i <= k < j < |w|
    ensures SplitsUpTo(rules, w, i, j, k + 1) ==
      SplitsUpTo(rules, w, i, j, k) + RulesAt(rules, w, i, k, j, |rules|)
  {
  }

  /** `parse_quiet`: the empty word is decided by the epsilon flag; otherwise the
      table is filled by increasing span length and the start symbol is looked up
      in the full-span cell. */
  method ParseQuiet(c: Recognizer, w: seq<Symbol>) returns (accepted: bool)
    ensures accepted == Accepts(c, w)
  {
    if |w| == 0 {
      return c.startGeneratesEpsilon;
    }
    var n := |w|;
    var table := FillDiagonal(c.rules, w);
    var len := 2;
    while len <= n
      invariant 2 <= len <= n + 1 && Square(table, n)
      invariant ShorterDone(c.rules, w, table, len)
    {
      var i := 0;
      while i < n - len + 1
        invariant 0 <= i <= n - len + 1 && Square(table, n)
        invariant ShorterDone(c.rules, w, table, len)
        invariant forall a :: 0 <= a < i ==> table[a][a + len - 1] == Cell(c.rules, w, a, a + len - 1)
      {
        var j := i + len - 1;
        // The cell of (i, j) is not read while it is being filled, so filling it
        // in a local and storing it afterwards is the same as adding in place.
        var cell := FillCell(c.rules, w, table, i, j);
        table := table[i := table[i][j := cell]];
        i := i + 1;
      }
      len := len + 1;
    }
    accepted := c.startSymbol in table[0][n - 1];
  }

  /** `parse`: the same answer as `parse_quiet` on every word. */
  method Parse(c: Recognizer, w: seq<Symbol>) returns (accepted: bool)
    ensures accepted == Accepts(c, w)
  {
    accepted := ParseQuiet(c, w);
  }
}
