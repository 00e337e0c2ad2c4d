/** `eliminate_unary`: every unit rule `A -> B` is replaced by copies, under `A`,
    of the non-unit rules of every symbol reachable from `A` through unit rules.

    The pairs `(A, B)` still to process form a worklist. Here a pair is processed
    at most once; the program as written re-queues a pair that has already been
    processed, which never ends on a grammar with a unit cycle (see the end of this
    module). */
module CnfUnit {
  import opened Grammar
  import opened Cnf

  type Pair = (Symbol, Symbol)

  /** `a -> b` is a unit rule of `cfg`. */
  predicate UnitStep(cfg: seq<Rule>, a: Symbol, b: Symbol) {
    Rule(a, [b]) in cfg && IsUpper(b)
  }

  /** Consecutive symbols of `path` are joined by unit rules. */
  ghost predicate UnitChain(cfg: seq<Rule>, path: seq<Symbol>) {
    forall i :: 0 <= i < |path| - 1 ==> UnitStep(cfg, path[i], path[i + 1])
  }

  /** `b` is reachable from `a` through one or more unit rules. */
  ghost predicate UnitPath(cfg: seq<Rule>, a: Symbol, b: Symbol) {
    exists path :: |path| >= 2 && path[0] == a && path[|path| - 1] == b && UnitChain(cfg, path)
  }

  lemma UnitPathStep(cfg: seq<Rule>, a: Symbol, b: Symbol)
    requires UnitStep(cfg, a, b)
    ensures UnitPath(cfg, a, b)
  {
    var path := [a, b];
    assert UnitChain(cfg, path);
  }

  lemma UnitPathExtend(cfg: seq<Rule>, a: Symbol, b: Symbol, c: Symbol)
    requires UnitPath(cfg, a, b) && UnitStep(cfg, b, c)
    ensures UnitPath(cfg, a, c)
  {
    var path :| |path| >= 2 && path[0] == a && path[|path| - 1] == b && UnitChain(cfg, path);
    var longer := path + [c];
    assert UnitChain(cfg, longer) by {
      forall i | 0 <= i < |longer| - 1
        ensures UnitStep(cfg, longer[i], longer[i + 1])
      {
        if i < |path| - 1 {
          assert longer[i] == path[i] && longer[i + 1] == path[i + 1];
        }
      }
    }
  }

  /** The symbols that are the body of some unit rule. */
  function UnitTargets(cfg: seq<Rule>): (ts: set<Symbol>)
    ensures forall r :: r in cfg && IsUnit(r) ==> r.body[0] in ts
  {
    set i | 0 <= i < |cfg| && IsUnit(cfg[i]) :: cfg[i].body[0]
  }

  /** Every pair the worklist can ever hold. */
  function PairUniverse(cfg: seq<Rule>): (u: set<Pair>)
    ensures forall a, c :: a in Heads(cfg) && c in UnitTargets(cfg) ==> (a, c) in u
  {
    set a, c | a in Heads(cfg) && c in UnitTargets(cfg) :: (a, c)
  }

  /** `unit_pairs` as first built: one pair per unit rule. */
  method InitialPairs(cfg: seq<Rule>) returns (pairs: seq<Pair>)
    ensures forall r :: r in cfg && IsUnit(r) ==> (r.head, r.body[0]) in pairs
    ensures forall q :: q in pairs ==> UnitStep(cfg, q.0, q.1) && q in PairUniverse(cfg)
  {
    pairs := [];
    var i := 0;
    while i < |cfg|
      invariant i <= |cfg|
      invariant forall k :: 0 <= k < i && IsUnit(cfg[k]) ==> (cfg[k].head, cfg[k].body[0]) in pairs
      invariant forall q :: q in pairs ==> UnitStep(cfg, q.0, q.1) && q in PairUniverse(cfg)
    {
      var r := cfg[i];
      if IsUnit(r) && (r.head, r.body[0]) !in pairs {
        assert r == Rule(r.head, [r.body[0]]);
        assert r.head in Heads(cfg);
        pairs := pairs + [(r.head, r.body[0])];
      }
      i := i + 1;
    }
    forall r | r in cfg && IsUnit(r)
      ensures (r.head, r.body[0]) in pairs
    {
      var k :| 0 <= k < |cfg| && cfg[k] == r;
    }
  }

  /** The scan of the rules for one popped pair `(a, b)`: the non-unit rules of `b`
      are copied under `a`, and `(a, c)` is queued for each unit rule `b -> c` unless
      it is already processed or queued. */
  method ScanRules(cfg: seq<Rule>, a: Symbol, b: Symbol, acc: seq<Rule>, pending: seq<Pair>, visited: set<Pair>)
    returns (acc': seq<Rule>, pending': seq<Pair>)
    ensures forall x :: x in acc ==> x in acc'
    ensures forall x :: x in acc' && x !in acc ==> x.head == a && Rule(b, x.body) in cfg && !IsUnit(x)
    ensures forall r :: r in cfg && r.head == b && !IsUnit(r) ==> Rule(a, r.body) in acc'
    ensures forall q :: q in pending ==> q in pending'
    ensures forall q :: q in pending' && q !in pending ==> q.0 == a && UnitStep(cfg, b, q.1)
    ensures forall r :: r in cfg && r.head == b && IsUnit(r) ==>
      (a, r.body[0]) in visited || (a, r.body[0]) in pending'
  {
    acc', pending' := acc, pending;
    var j := 0;
    while j < |cfg|
      invariant j <= |cfg|
      invariant forall x :: x in acc ==> x in acc'
      invariant forall x :: x in acc' && x !in acc ==> x.head == a && Rule(b, x.body) in cfg && !IsUnit(x)
      invariant forall k :: 0 <= k < j && cfg[k].head == b && !IsUnit(cfg[k]) ==> Rule(a, cfg[k].body) in acc'
      invariant forall q :: q in pending ==> q in pending'
      invariant forall q :: q in pending' && q !in pending ==> q.0 == a && UnitStep(cfg, b, q.1)
      invariant forall k :: 0 <= k < j && cfg[k].head == b && IsUnit(cfg[k]) ==>
        (a, cfg[k].body[0]) in visited || (a, cfg[k].body[0]) in pending'
    {
      var r := cfg[j];
      if r.head == b && !IsUnit(r) {
        if Rule(a, r.body) !in acc' {
          assert r == Rule(b, r.body);
          acc' := acc' + [Rule(a, r.body)];
        }
      }
      if r.head == b && IsUnit(r) {
        var q := (a, r.body[0]);
        if q !in visited && q !in pending' {
          assert r == Rule(b, [q.1]);
          pending' := pending' + [q];
        }
      }
      j := j + 1;
    }
    forall r | r in cfg && r.head == b
      ensures !IsUnit(r) ==> Rule(a, r.body) in acc'
      ensures IsUnit(r) ==> (a, r.body[0]) in visited || (a, r.body[0]) in pending'
    {
      var k :| 0 <= k < |cfg| && cfg[k] == r;
    }
  }

  /** A visited set that is closed under unit rules and holds every first pair holds
      every pair of unit-reachable symbols. */
  lemma {:induction false} ClosedHoldsPaths(cfg: seq<Rule>, visited: set<Pair>, a: Symbol, path: seq<Symbol>)
    requires forall x, y :: UnitStep(cfg, x, y) ==> (x, y) in visited
    requires forall q, c :: q in visited && UnitStep(cfg, q.1, c) ==> (q.0, c) in visited
    requires |path| >= 2 && path[0] == a && UnitChain(cfg, path)
    ensures (a, path[|path| - 1]) in visited
    decreases |path|
  {
    if |path| == 2 {
      assert UnitStep(cfg, path[0], path[1]);
    } else {
      var prefix := path[..|path| - 1];
      assert UnitChain(cfg, prefix) by {
        forall i | 0 <= i < |prefix| - 1
          ensures UnitStep(cfg, prefix[i], prefix[i + 1])
        {
          assert prefix[i] == path[i] && prefix[i + 1] == path[i + 1];
        }
      }
      ClosedHoldsPaths(cfg, visited, a, prefix);
      assert UnitStep(cfg, path[|path| - 2], path[|path| - 1]);
    }
  }

  /** Every queued pair lies in the finite universe and is unit-reachable. */
  ghost predicate PendingOk(cfg: seq<Rule>, u: set<Pair>, pending: seq<Pair>) {
    forall q :: q in pending ==> q in u && UnitPath(cfg, q.0, q.1)
  }

  /** Every processed pair lies in the finite universe and is unit-reachable. */
  ghost predicate VisitedOk(cfg: seq<Rule>, u: set<Pair>, visited: set<Pair>) {
    visited <= u && forall q :: q in visited ==> UnitPath(cfg, q.0, q.1)
  }

  /** The pair of every unit rule, and every unit successor of a processed pair, is
      processed or queued. */
  ghost predicate Covered(cfg: seq<Rule>, pending: seq<Pair>, visited: set<Pair>) {
    (forall x, y :: UnitStep(cfg, x, y) ==> (x, y) in visited || (x, y) in pending) &&
    (forall q, c :: q in visited && UnitStep(cfg, q.1, c) ==> (q.0, c) in visited || (q.0, c) in pending)
  }

  /** The rule list holds the original rules and the copies for every processed
      pair, and nothing else. */
  ghost predicate AccOk(cfg: seq<Rule>, visited: set<Pair>, acc: seq<Rule>) {
    (forall x :: x in cfg ==> x in acc) &&
    (forall q, r :: q in visited && r in cfg && r.head == q.1 && !IsUnit(r) ==> Rule(q.0, r.body) in acc) &&
    (forall x :: x in acc ==> x in cfg || (!IsUnit(x) && exists b :: UnitPath(cfg, x.head, b) && Rule(b, x.body) in cfg))
  }

  /** What the worklist loop keeps. */
  ghost predicate Worklist(cfg: seq<Rule>, u: set<Pair>, pending: seq<Pair>, visited: set<Pair>, acc: seq<Rule>) {
    PendingOk(cfg, u, pending) && VisitedOk(cfg, u, visited) && Covered(cfg, pending, visited) && AccOk(cfg, visited, acc)
  }

  /** One iteration of the worklist loop: pop the first pair and, unless it was
      processed already, process it. */
  method ProcessPair(cfg: seq<Rule>, u: set<Pair>, pending: seq<Pair>, visited: set<Pair>, acc: seq<Rule>)
    returns (pending': seq<Pair>, visited': set<Pair>, acc': seq<Rule>)
    requires u == PairUniverse(cfg) && |pending| > 0 && Worklist(cfg, u, pending, visited, acc)
    ensures Worklist(cfg, u, pending', visited', acc')
    ensures |u - visited'| < |u - visited| || (visited' == visited && |pending'| < |pending|)
  {
    var p := pending[0];
    var rest := pending[1..];
    assert forall q :: q in pending ==> q == p || q in rest;
    assert forall q :: q in rest ==> q in pending;
    if p in visited {
      pending', visited', acc' := rest, visited, acc;
    } else {
      acc', pending' := ScanRules(cfg, p.0, p.1, acc, rest, visited + {p});
      visited' := visited + {p};
      ProperSubsetSmaller(u - visited', u - visited);
      ProcessedPair(cfg, u, pending, visited, acc, p, rest, acc', pending');
    }
  }

  /** The worklist facts after processing the fresh pair `p`. */
  lemma ProcessedPair(cfg: seq<Rule>, u: set<Pair>, pending: seq<Pair>, visited: set<Pair>, acc: seq<Rule>,
                      p: Pair, rest: seq<Pair>, acc': seq<Rule>, pending': seq<Pair>)
    requires u == PairUniverse(cfg) && Worklist(cfg, u, pending, visited, acc)
    requires p in pending && p !in visited && forall q :: q in pending ==> q == p || q in rest
    requires forall q :: q in rest ==> q in pending
    requires forall x :: x in acc ==> x in acc'
    requires forall x :: x in acc' && x !in acc ==> x.head == p.0 && Rule(p.1, x.body) in cfg && !IsUnit(x)
    requires forall r :: r in cfg && r.head == p.1 && !IsUnit(r) ==> Rule(p.0, r.body) in acc'
    requires forall q :: q in rest ==> q in pending'
    requires forall q :: q in pending' && q !in rest ==> q.0 == p.0 && UnitStep(cfg, p.1, q.1)
    requires forall r :: r in cfg && r.head == p.1 && IsUnit(r) ==>
      (p.0, r.body[0]) in visited + {p} || (p.0, r.body[0]) in pending'
    ensures Worklist(cfg, u, pending', visited + {p}, acc')
  {
    PendingStep(cfg, u, pending, p, rest, pending');
    CoveredStep(cfg, pending, visited, p, rest, pending');
    AccStep(cfg, u, pending, visited, acc, p, acc');
  }

  lemma PendingStep(cfg: seq<Rule>, u: set<Pair>, pending: seq<Pair>, p: Pair, rest: seq<Pair>, pending': seq<Pair>)
    requires u == PairUniverse(cfg) && PendingOk(cfg, u, pending)
    requires p in pending && forall q :: q in rest ==> q in pending
    requires forall q :: q in pending' && q !in rest ==> q.0 == p.0 && UnitStep(cfg, p.1, q.1)
    ensures PendingOk(cfg, u, pending')
  {
    var (a, b) := p;
    forall q | q in pending'
      ensures q in u && UnitPath(cfg, q.0, q.1)
    {
      if q !in rest {
        UnitPathExtend(cfg, a, b, q.1);
        assert a in Heads(cfg) by {
          var path :| |path| >= 2 && path[0] == a && path[|path| - 1] == b && UnitChain(cfg, path);
          assert UnitStep(cfg, path[0], path[1]);
          var k :| 0 <= k < |cfg| && cfg[k] == Rule(a, [path[1]]);
        }
        var k :| 0 <= k < |cfg| && cfg[k] == Rule(b, [q.1]);
        assert IsUnit(cfg[k]);
      }
    }
  }

  lemma CoveredStep(cfg: seq<Rule>, pending: seq<Pair>, visited: set<Pair>, p: Pair, rest: seq<Pair>, pending': seq<Pair>)
    requires Covered(cfg, pending, visited)
    requires forall q :: q in pending ==> q == p || q in rest
    requires forall q :: q in rest ==> q in pending'
    requires forall r :: r in cfg && r.head == p.1 && IsUnit(r) ==>
      (p.0, r.body[0]) in visited + {p} || (p.0, r.body[0]) in pending'
    ensures Covered(cfg, pending', visited + {p})
  {
    forall q, c | q in visited + {p} && UnitStep(cfg, q.1, c)
      ensures (q.0, c) in visited + {p} || (q.0, c) in pending'
    {
      if q == p {
        assert IsUnit(Rule(p.1, [c]));
      }
    }
  }

  lemma AccStep(cfg: seq<Rule>, u: set<Pair>, pending: seq<Pair>, visited: set<Pair>, acc: seq<Rule>, p: Pair, acc': seq<Rule>)
    requires AccOk(cfg, visited, acc) && p in pending && PendingOk(cfg, u, pending)
    requires forall x :: x in acc ==> x in acc'
    requires forall x :: x in acc' && x !in acc ==> x.head == p.0 && Rule(p.1, x.body) in cfg && !IsUnit(x)
    requires forall r :: r in cfg && r.head == p.1 && !IsUnit(r) ==> Rule(p.0, r.body) in acc'
    ensures AccOk(cfg, visited + {p}, acc')
  {
    forall x | x in acc' && x !in acc
      ensures !IsUnit(x) && exists b' :: UnitPath(cfg, x.head, b') && Rule(b', x.body) in cfg
    {
      assert UnitPath(cfg, x.head, p.1);
    }
  }

  /** What `eliminate_unary` leaves of `cfg`: no unit rule; every non-unit rule;
      for every `b` reachable from `a` through unit rules, each non-unit rule
      `b -> w` as `a -> w`; and nothing else. */
  ghost predicate UnitEliminated(cfg: seq<Rule>, out: seq<Rule>) {
    (forall x :: x in out ==> !IsUnit(x)) &&
    (forall x :: x in cfg && !IsUnit(x) ==> x in out) &&
    (forall a, x :: x in cfg && !IsUnit(x) && UnitPath(cfg, a, x.head) ==> Rule(a, x.body) in out) &&
    (forall x :: x in out ==> x in cfg || exists b :: UnitPath(cfg, x.head, b) && Rule(b, x.body) in cfg)
  }

  /** `eliminate_unary`, with each pair processed once. No unit rule is left; every
      non-unit rule stays; for every `b` reachable from `a` through unit rules, each
      non-unit rule `b -> w` gives `a -> w`; and nothing else appears. */
  method EliminateUnary(cfg: seq<Rule>) returns (out: seq<Rule>)
    ensures forall x :: x in out ==> !IsUnit(x)
    ensures forall x :: x in cfg && !IsUnit(x) ==> x in out
    ensures forall a, x :: x in cfg && !IsUnit(x) && UnitPath(cfg, a, x.head) ==> Rule(a, x.body) in out
    ensures forall x :: x in out ==> x in cfg || exists b :: UnitPath(cfg, x.head, b) && Rule(b, x.body) in cfg
  {
    var u := PairUniverse(cfg);
    var pending := InitialPairs(cfg);
    var visited: set<Pair> := {};
    var acc := cfg;
    forall q | q in pending
      ensures UnitPath(cfg, q.0, q.1)
    {
      UnitPathStep(cfg, q.0, q.1);
    }
    forall x, y | UnitStep(cfg, x, y)
      ensures (x, y) in pending
    {
      var k :| 0 <= k < |cfg| && cfg[k] == Rule(x, [y]);
      assert IsUnit(cfg[k]);
    }
    while |pending| > 0
      invariant Worklist(cfg, u, pending, visited, acc)
      decreases |u - visited|, |pending|
    {
      pending, visited, acc := ProcessPair(cfg, u, pending, visited, acc);
    }
    forall a, y | UnitPath(cfg, a, y)
      ensures (a, y) in visited
    {
      var path :| |path| >= 2 && path[0] == a && path[|path| - 1] == y && UnitChain(cfg, path);
      ClosedHoldsPaths(cfg, visited, a, path);
    }
    out := Filter(acc, x => !IsUnit(x));
    forall a, x | x in cfg && !IsUnit(x) && UnitPath(cfg, a, x.head)
      ensures Rule(a, x.body) in out
    {
      assert (a, x.head) in visited;
      assert Rule(a, x.body) in acc;
    }
  }

  // ---------------------------------------------------------------------------
  // The worklist as written.

  /** One iteration of the `while unit_pairs` loop of the program as written, on
      the worklist alone: `(a, b)` is popped, and `(a, c)` is added for every unit
      rule `b -> c` unless it is currently in the worklist, even when it was popped
      before. (The rules the iteration appends are not unit rules, so the worklist
      never depends on them.) */
  function PopAsWritten(cfg: seq<Rule>, pending: set<Pair>, p: Pair): (next: set<Pair>)
    requires p in pending
    ensures forall c :: UnitStep(cfg, p.1, c) ==> (p.0, c) in next
    ensures forall q :: q in next ==> q in pending || (q.0 == p.0 && UnitStep(cfg, p.1, q.1))
  {
    var added := set r | r in cfg && r.head == p.1 && IsUnit(r) :: (p.0, r.body[0]);
    forall q | q in added
      ensures q.0 == p.0 && UnitStep(cfg, p.1, q.1)
    {
      var r :| r in cfg && r.head == p.1 && IsUnit(r) && q == (p.0, r.body[0]);
      assert r == Rule(p.1, [q.1]);
    }
    forall c | UnitStep(cfg, p.1, c)
      ensures (p.0, c) in added
    {
      assert IsUnit(Rule(p.1, [c]));
    }
    (pending - {p}) + added
  }

  /** `unit_pairs` as first built, as a set. */
  function InitialAsWritten(cfg: seq<Rule>): (pending: set<Pair>)
    ensures forall q :: q in pending <==> UnitStep(cfg, q.0, q.1)
  {
    var pending := set r | r in cfg && IsUnit(r) :: (r.head, r.body[0]);
    forall q | q in pending
      ensures UnitStep(cfg, q.0, q.1)
    {
      var r :| r in cfg && IsUnit(r) && q == (r.head, r.body[0]);
      assert r == Rule(q.0, [q.1]);
    }
    forall a, b | UnitStep(cfg, a, b)
      ensures (a, b) in pending
    {
      assert IsUnit(Rule(a, [b]));
    }
    pending
  }

  /** `A -> B`, `B -> A`, `B -> b`: a grammar with a unit cycle. */
  function CycleGrammar(): seq<Rule> {
    [Rule("A", ["B"]), Rule("B", ["A"]), Rule("B", ["b"])]
  }

  /** In the cycle grammar every worklist pair ends in `A` or `B`, and both have a
      unit rule. */
  predicate CycleInvariant(pending: set<Pair>) {
    pending != {} && forall q :: q in pending ==> q.1 == "A" || q.1 == "B"
  }

  lemma CycleSymbolsUpper()
    ensures IsUpper("A") && IsUpper("B") && !IsUpper("b")
  {
    assert IsUpperChar("A"[0]) && IsUpperChar("B"[0]);
    assert !IsUpperChar("b"[0]);
  }

  /** The worklist of the cycle grammar starts non-empty. */
  lemma CycleStartsNonEmpty()
    ensures CycleInvariant(InitialAsWritten(CycleGrammar()))
  {
    var g := CycleGrammar();
    CycleSymbolsUpper();
    var ab: Pair := ("A", "B");
    assert UnitStep(g, ab.0, ab.1);
    assert ab in InitialAsWritten(g);
    forall q | q in InitialAsWritten(g)
      ensures q.1 == "A" || q.1 == "B"
    {
      assert Rule(q.0, [q.1]) in g;
    }
  }

  /** Whatever pair is popped, the worklist of the cycle grammar is non-empty
      afterwards: the loop of the program as written never ends on it. */
  lemma CycleNeverEmpties(pending: set<Pair>, p: Pair)
    requires CycleInvariant(pending) && p in pending
    ensures CycleInvariant(PopAsWritten(CycleGrammar(), pending, p))
  {
    var g := CycleGrammar();
    CycleSymbolsUpper();
    var next := PopAsWritten(g, pending, p);
    if p.1 == "A" {
      assert UnitStep(g, "A", "B");
      assert (p.0, "B") in next;
    } else {
      assert UnitStep(g, "B", "A");
      assert (p.0, "A") in next;
    }
    forall q | q in next
      ensures q.1 == "A" || q.1 == "B"
    {
      if q !in pending {
        assert UnitStep(g, p.1, q.1);
        assert Rule(p.1, [q.1]) in g;
      }
    }
  }
}
