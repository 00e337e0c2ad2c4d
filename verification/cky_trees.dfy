/** What the boolean CKY table means: a symbol lies in the cell of a span exactly
    when it derives that span through a tree of terminal rules `A -> c` (with `c`
    lower case) and binary rules `A -> B C`. */
module CkyTrees {
  import opened Grammar
  import opened Cky

  /** A derivation tree whose leaves use terminal rules and whose inner nodes use
      binary rules. */
  datatype Tree = Leaf(head: Symbol, terminal: Symbol) | Node(head: Symbol, left: Tree, right: Tree)

  /** Every node of the tree is licensed by a rule of the grammar. */
  ghost predicate Valid(rules: seq<Rule>, t: Tree) {
    match t
    case Leaf(a, c) => Rule(a, [c]) in rules && IsLower(c)
    case Node(a, l, r) => Rule(a, [l.head, r.head]) in rules && Valid(rules, l) && Valid(rules, r)
  }

  /** The input symbols a tree derives, left to right. */
  function Yield(t: Tree): (y: seq<Symbol>)
    ensures |y| >= 1
  {
    match t
    case Leaf(_, c) => [c]
    case Node(_, l, r) => Yield(l) + Yield(r)
  }

  /** `a` derives the word `w` with the grammar's terminal and binary rules. */
  ghost predicate Derives(rules: seq<Rule>, a: Symbol, w: seq<Symbol>) {
    exists t :: Valid(rules, t) && t.head == a && Yield(t) == w
  }

  /** Completeness of the table: the root of every tree deriving a span is in its cell. */
  lemma {:induction false} CellComplete(rules: seq<Rule>, w: seq<Symbol>, i: nat, j: nat, t: Tree)
    requires i <= j < |w| && Valid(rules, t) && Yield(t) == w[i..j + 1]
    ensures t.head in Cell(rules, w, i, j)
    decreases t
  {
    match t
    case Leaf(a, c) =>
      assert c == w[i];
      var x :| 0 <= x < |rules| && rules[x] == Rule(a, [c]);
      assert TerminalMatch(rules[x], w[i]);
      assert a in DiagUpTo(rules, w[i], |rules|);
    case Node(a, l, r) =>
      var yl, yr := Yield(l), Yield(r);
      var k := i + |yl| - 1;
      assert yl == w[i..k + 1] && yr == w[k + 1..j + 1] by {
        var y := w[i..j + 1];
        assert yl + yr == y;
        assert yl == y[..|yl|] && yr == y[|yl|..];
        assert y[..|yl|] == w[i..k + 1] && y[|yl|..] == w[k + 1..j + 1];
      }
      CellComplete(rules, w, i, k, l);
      CellComplete(rules, w, k + 1, j, r);
      var x :| 0 <= x < |rules| && rules[x] == Rule(a, [l.head, r.head]);
      assert SplitWitness(rules, w, i, j, k, x);
      CellBinary(rules, w, i, j, a);
  }

  /** Soundness of the table: every symbol in a cell derives the cell's span. */
  lemma {:induction false} CellSound(rules: seq<Rule>, w: seq<Symbol>, i: nat, j: nat, a: Symbol)
    requires i <= j < |w| && a in Cell(rules, w, i, j)
    ensures Derives(rules, a, w[i..j + 1])
    decreases j - i
  {
    if i == j {
      DiagSound(rules, w[i], a);
      assert w[i..j + 1] == [w[i]];
    } else {
      var k, b, c := CellSplit(rules, w, i, j, a);
      CellSound(rules, w, i, k, b);
      CellSound(rules, w, k + 1, j, c);
      NodeDerives(rules, a, b, c, w[i..k + 1], w[k + 1..j + 1]);
      assert w[i..j + 1] == w[i..k + 1] + w[k + 1..j + 1];
    }
  }

  /** A head in a longer cell comes from a binary rule whose body symbols lie in
      the cells of some split. */
  lemma CellSplit(rules: seq<Rule>, w: seq<Symbol>, i: nat, j: nat, a: Symbol) returns (k: nat, b: Symbol, c: Symbol)
    requires i < j < |w| && a in Cell(rules, w, i, j)
    ensures i <= k < j && Rule(a, [b, c]) in rules
    ensures b in Cell(rules, w, i, k) && c in Cell(rules, w, k + 1, j)
  {
    CellBinary(rules, w, i, j, a);
    var m;
    k, m :| i <= k < j && SplitWitness(rules, w, i, j, k, m) && rules[m].head == a;
    b, c := rules[m].body[0], rules[m].body[1];
    assert rules[m] == Rule(a, [b, c]);
  }

  /** A head in the diagonal cell of `c` derives `c` with one terminal rule. */
  lemma DiagSound(rules: seq<Rule>, c: Symbol, a: Symbol)
    requires a in Diag(rules, c)
    ensures Derives(rules, a, [c])
  {
    var x :| 0 <= x < |rules| && TerminalMatch(rules[x], c) && rules[x].head == a;
    assert rules[x] == Rule(a, [c]);
    var t := Leaf(a, c);
    assert Valid(rules, t) && Yield(t) == [c];
  }

  /** A binary rule `a -> b c` joins a derivation from `b` and one from `c`. */
  lemma NodeDerives(rules: seq<Rule>, a: Symbol, b: Symbol, c: Symbol, u: seq<Symbol>, v: seq<Symbol>)
    requires Rule(a, [b, c]) in rules && Derives(rules, b, u) && Derives(rules, c, v)
    ensures Derives(rules, a, u + v)
  {
    var l :| Valid(rules, l) && l.head == b && Yield(l) == u;
    var r :| Valid(rules, r) && r.head == c && Yield(r) == v;
    var t := Node(a, l, r);
    assert Valid(rules, t) && Yield(t) == u + v;
  }

  /** A symbol is in a cell exactly when it derives the cell's span. */
  lemma CellIffDerives(rules: seq<Rule>, w: seq<Symbol>, i: nat, j: nat, a: Symbol)
    requires i <= j < |w|
    ensures a in Cell(rules, w, i, j) <==> Derives(rules, a, w[i..j + 1])
  {
    if a in Cell(rules, w, i, j) {
      CellSound(rules, w, i, j, a);
    }
    if Derives(rules, a, w[i..j + 1]) {
      var t :| Valid(rules, t) && t.head == a && Yield(t) == w[i..j + 1];
      CellComplete(rules, w, i, j, t);
    }
  }

  /** The recogniser accepts the empty word exactly when a literal `(start, [""])`
      rule is present, and a non-empty word exactly when the start symbol derives
      it with the terminal and binary rules. */
  lemma AcceptsIffDerives(rules: seq<Rule>, start: Symbol, w: seq<Symbol>)
    ensures Accepts(NewRecognizer(rules, start), w) <==>
      if |w| == 0 then Rule(start, EpsilonBody) in rules else Derives(rules, start, w)
  {
    if |w| > 0 {
      CellIffDerives(rules, w, 0, |w| - 1, start);
      assert w[0..|w|] == w;
    }
  }

  /** The grammar `S -> A B`, `A -> a`, `B -> b`. */
  function ExampleGrammar(): seq<Rule> {
    [Rule("S", ["A", "B"]), Rule("A", ["a"]), Rule("B", ["b"])]
  }

  lemma ExampleLowerCase()
    ensures IsLower("a") && IsLower("b")
  {
    assert IsLowerChar("a"[0]) && IsLowerChar("b"[0]);
  }

  /** With that grammar, `"ab"` is accepted. */
  lemma ExampleAccepts()
    ensures Accepts(NewRecognizer(ExampleGrammar(), "S"), ["a", "b"])
  {
    var g := ExampleGrammar();
    ExampleLowerCase();
    var t := Node("S", Leaf("A", "a"), Leaf("B", "b"));
    assert g[1] == Rule("A", ["a"]) && g[2] == Rule("B", ["b"]) && g[0] == Rule("S", ["A", "B"]);
    assert Valid(g, t);
    assert Yield(t) == ["a", "b"];
    AcceptsIffDerives(g, "S", ["a", "b"]);
  }

  /** With that grammar, `"ba"` is rejected: the only rule for `S` needs an `A`
      first, and `A` derives only `a`. */
  lemma ExampleRejectsSwapped()
    ensures !Accepts(NewRecognizer(ExampleGrammar(), "S"), ["b", "a"])
  {
    var g := ExampleGrammar();
    var ba: seq<Symbol> := ["b", "a"];
    if Accepts(NewRecognizer(g, "S"), ba) {
      AcceptsIffDerives(g, "S", ba);
      var u :| Valid(g, u) && u.head == "S" && Yield(u) == ba;
      match u
      case Leaf(_, _) =>
        assert false;
      case Node(_, l, r) =>
        assert Rule("S", [l.head, r.head]) in g;
        assert l.head == "A";
        assert |Yield(l)| == 1;
        NoBinaryForA(g, l);
        assert false;
    }
  }

  lemma NoBinaryForA(g: seq<Rule>, l: Tree)
    requires g == ExampleGrammar() && Valid(g, l) && l.head == "A"
    ensures l.Leaf? && l.terminal == "a"
  {
    match l
    case Leaf(_, c) =>
      assert Rule("A", [c]) in g;
    case Node(_, _, _) =>
      assert false;
  }

  /** With that grammar, the empty word is rejected: there is no `(S, [""])` rule. */
  lemma ExampleRejectsEmpty()
    ensures !Accepts(NewRecognizer(ExampleGrammar(), "S"), [])
  {
    var g := ExampleGrammar();
    assert Rule("S", EpsilonBody) !in g by {
      assert g[0] != Rule("S", EpsilonBody);
    }
  }
}
