/** `remove_epsilon`: the nullable symbols, and the rules obtained by deleting
    nullable occurrences from the bodies, with `start -> ''` kept only when the
    original grammar had it. */
module CnfEpsilon {
  import opened Grammar
  import opened Cnf

  // ---------------------------------------------------------------------------
  // Nullable symbols.

  predicate AllIn(body: seq<Symbol>, n: set<Symbol>) {
    forall s :: s in body ==> s in n
  }

  /** `n` is closed under the rules: a head is in `n` as soon as its body is the
      epsilon body or consists of symbols of `n` only. */
  predicate Closed(rules: seq<Rule>, n: set<Symbol>) {
    forall r :: r in rules && (r.body == EpsilonBody || AllIn(r.body, n)) ==> r.head in n
  }

  /** The heads of the rules with body `['']` or `[]`. */
  function Seeds(rules: seq<Rule>): (n: set<Symbol>)
    ensures n <= Heads(rules)
  {
    set i | 0 <= i < |rules| && (rules[i].body == EpsilonBody || rules[i].body == []) :: rules[i].head
  }

  /** One sweep of the propagation loop over `rules[i..]`; a head added early in the
      sweep already counts for the rules after it. */
  function Pass(rules: seq<Rule>, acc: set<Symbol>, i: nat): (n: set<Symbol>)
    requires i <= |rules|
    ensures acc <= n <= acc + Heads(rules)
    ensures forall j :: i <= j < |rules| && AllIn(rules[j].body, acc) ==> rules[j].head in n
    decreases |rules| - i
  {
    if i == |rules| then acc
    else
      var r := rules[i];
      var next := if AllIn(r.body, acc) && r.head !in acc then acc + {r.head} else acc;
      Pass(rules, next, i + 1)
  }

  /** The propagation loop: sweeps until a sweep adds nothing. */
  function Propagate(rules: seq<Rule>, n: set<Symbol>): (m: set<Symbol>)
    requires n <= Heads(rules)
    ensures n <= m <= Heads(rules)
    ensures forall j :: 0 <= j < |rules| && AllIn(rules[j].body, m) ==> rules[j].head in m
    decreases |Heads(rules) - n|
  {
    var next := Pass(rules, n, 0);
    if next == n then n
    else
      ProperSubsetSmaller(Heads(rules) - next, Heads(rules) - n);
      Propagate(rules, next)
  }

  /** The nullable set of `remove_epsilon`: closed under the rules and made of heads. */
  function Nullable(rules: seq<Rule>): (n: set<Symbol>)
    ensures Closed(rules, n)
    ensures n <= Heads(rules)
  {
    var n := Propagate(rules, Seeds(rules));
    assert forall r :: r in rules && r.body == EpsilonBody ==> r.head in Seeds(rules);
    n
  }

  lemma {:induction false} PassBelow(rules: seq<Rule>, acc: set<Symbol>, i: nat, m: set<Symbol>)
    requires i <= |rules| && Closed(rules, m) && acc <= m
    ensures Pass(rules, acc, i) <= m
    decreases |rules| - i
  {
    if i < |rules| {
      var r := rules[i];
      var next := if AllIn(r.body, acc) && r.head !in acc then acc + {r.head} else acc;
      assert r in rules;
      PassBelow(rules, next, i + 1, m);
    }
  }

  lemma {:induction false} PropagateBelow(rules: seq<Rule>, n: set<Symbol>, m: set<Symbol>)
    requires n <= Heads(rules) && Closed(rules, m) && n <= m
    ensures Propagate(rules, n) <= m
    decreases |Heads(rules) - n|
  {
    var next := Pass(rules, n, 0);
    PassBelow(rules, n, 0, m);
    if next != n {
      ProperSubsetSmaller(Heads(rules) - next, Heads(rules) - n);
      PropagateBelow(rules, next, m);
    }
  }

  /** The nullable set is the least closed set. */
  lemma NullableIsLeast(rules: seq<Rule>, m: set<Symbol>)
    requires Closed(rules, m)
    ensures Nullable(rules) <= m
  {
    forall s | s in Seeds(rules)
      ensures s in m
    {
      var i :| 0 <= i < |rules| && (rules[i].body == EpsilonBody || rules[i].body == []) && rules[i].head == s;
      assert rules[i] in rules;
    }
    PropagateBelow(rules, Seeds(rules), m);
  }

  // ---------------------------------------------------------------------------
  // Deleting nullable occurrences.

  /** How many symbols of `rhs` are nullable: the length of `positions`. */
  function NullCount(rhs: seq<Symbol>, n: set<Symbol>): nat {
    if |rhs| == 0 then 0 else (if rhs[0] in n then 1 else 0) + NullCount(rhs[1..], n)
  }

  /** `product([True, False], repeat=k)` in its order: all choices of `k` booleans,
      the first one varying slowest, `True` before `False`. */
  function Combos(k: nat): (cs: seq<seq<bool>>)
    ensures |cs| > 0
    ensures forall j :: 0 <= j < |cs| ==> |cs[j]| == k
  {
    if k == 0 then [[]]
    else Prefixed(true, Combos(k - 1)) + Prefixed(false, Combos(k - 1))
  }

  /** Each choice of `p` with `b` put in front. */
  function Prefixed(b: bool, p: seq<seq<bool>>): (q: seq<seq<bool>>)
    ensures |q| == |p|
  {
    seq(|p|, i requires 0 <= i < |p| => [b] + p[i])
  }

  /** Every sequence of `k` booleans is enumerated. */
  lemma {:induction false} CombosComplete(k: nat, bits: seq<bool>)
    requires |bits| == k
    ensures bits in Combos(k)
  {
    if k > 0 {
      var p := Combos(k - 1);
      CombosComplete(k - 1, bits[1..]);
      PrefixedMember(bits[0], p, bits[1..]);
      assert bits == [bits[0]] + bits[1..];
      assert Combos(k) == Prefixed(true, p) + Prefixed(false, p);
    }
  }

  lemma PrefixedMember(b: bool, p: seq<seq<bool>>, x: seq<bool>)
    requires x in p
    ensures [b] + x in Prefixed(b, p)
  {
    var i :| 0 <= i < |p| && p[i] == x;
    assert Prefixed(b, p)[i] == [b] + x;
  }

  /** `rhs` with the nullable positions whose bit is `True` deleted: the bits are
      matched to the nullable positions in order, as `zip(bits, positions)` does. */
  function EraseWith(rhs: seq<Symbol>, n: set<Symbol>, bits: seq<bool>): seq<Symbol>
    requires |bits| == NullCount(rhs, n)
  {
    if |rhs| == 0 then []
    else if rhs[0] in n then
      (if bits[0] then [] else [rhs[0]]) + EraseWith(rhs[1..], n, bits[1..])
    else
      [rhs[0]] + EraseWith(rhs[1..], n, bits)
  }

  /** `e` is `rhs` with some occurrences of nullable symbols deleted. */
  predicate Deletion(rhs: seq<Symbol>, n: set<Symbol>, e: seq<Symbol>)
    decreases |rhs|
  {
    if |rhs| == 0 then e == []
    else
      (|e| > 0 && e[0] == rhs[0] && Deletion(rhs[1..], n, e[1..])) ||
      (rhs[0] in n && Deletion(rhs[1..], n, e))
  }

  lemma {:induction false} EraseWithIsDeletion(rhs: seq<Symbol>, n: set<Symbol>, bits: seq<bool>)
    requires |bits| == NullCount(rhs, n)
    ensures Deletion(rhs, n, EraseWith(rhs, n, bits))
    decreases |rhs|
  {
    if |rhs| > 0 {
      if rhs[0] in n {
        EraseWithIsDeletion(rhs[1..], n, bits[1..]);
        var e := EraseWith(rhs, n, bits);
        if bits[0] {
          assert e == EraseWith(rhs[1..], n, bits[1..]);
        } else {
          assert e[1..] == EraseWith(rhs[1..], n, bits[1..]);
        }
      } else {
        EraseWithIsDeletion(rhs[1..], n, bits);
        var e := EraseWith(rhs, n, bits);
        assert e[1..] == EraseWith(rhs[1..], n, bits);
      }
    }
  }

  lemma {:induction false} DeletionBits(rhs: seq<Symbol>, n: set<Symbol>, e: seq<Symbol>) returns (bits: seq<bool>)
    requires Deletion(rhs, n, e)
    ensures |bits| == NullCount(rhs, n) && EraseWith(rhs, n, bits) == e
    decreases |rhs|
  {
    if |rhs| == 0 {
      bits := [];
    } else if |e| > 0 && e[0] == rhs[0] && Deletion(rhs[1..], n, e[1..]) {
      var rest := DeletionBits(rhs[1..], n, e[1..]);
      assert e == [e[0]] + e[1..];
      if rhs[0] in n {
        bits := [false] + rest;
        assert bits[1..] == rest;
      } else {
        bits := rest;
      }
    } else {
      var rest := DeletionBits(rhs[1..], n, e);
      bits := [true] + rest;
      assert bits[1..] == rest;
    }
  }

  /** The bodies the enumeration of `remove_epsilon` produces for `rhs` are exactly
      the ways of deleting some nullable occurrences from it. */
  lemma ErasuresAreDeletions(rhs: seq<Symbol>, n: set<Symbol>, e: seq<Symbol>)
    ensures Deletion(rhs, n, e) <==>
      exists j :: 0 <= j < |Combos(NullCount(rhs, n))| && EraseWith(rhs, n, Combos(NullCount(rhs, n))[j]) == e
  {
    var cs := Combos(NullCount(rhs, n));
    if Deletion(rhs, n, e) {
      var bits := DeletionBits(rhs, n, e);
      CombosComplete(NullCount(rhs, n), bits);
      var j :| 0 <= j < |cs| && cs[j] == bits;
      assert EraseWith(rhs, n, cs[j]) == e;
    }
    if exists j :: 0 <= j < |cs| && EraseWith(rhs, n, cs[j]) == e {
      var j :| 0 <= j < |cs| && EraseWith(rhs, n, cs[j]) == e;
      EraseWithIsDeletion(rhs, n, cs[j]);
    }
  }

  lemma {:induction false} DeletionKeepsAll(rhs: seq<Symbol>, n: set<Symbol>)
    ensures Deletion(rhs, n, rhs)
    decreases |rhs|
  {
    if |rhs| > 0 {
      DeletionKeepsAll(rhs[1..], n);
    }
  }

  /** A deletion only keeps symbols of the original body. */
  lemma {:induction false} DeletionSymbols(rhs: seq<Symbol>, n: set<Symbol>, e: seq<Symbol>)
    requires Deletion(rhs, n, e)
    ensures forall s :: s in e ==> s in rhs
    decreases |rhs|
  {
    if |rhs| > 0 {
      if |e| > 0 && e[0] == rhs[0] && Deletion(rhs[1..], n, e[1..]) {
        DeletionSymbols(rhs[1..], n, e[1..]);
        assert forall s :: s in e ==> s == e[0] || s in e[1..];
      } else {
        DeletionSymbols(rhs[1..], n, e);
      }
    }
  }

  /** Deleting every occurrence is possible exactly when all symbols are nullable. */
  lemma {:induction false} DeleteEverything(rhs: seq<Symbol>, n: set<Symbol>)
    ensures Deletion(rhs, n, []) <==> AllIn(rhs, n)
    decreases |rhs|
  {
    if |rhs| > 0 {
      DeleteEverything(rhs[1..], n);
      assert forall s :: s in rhs <==> s == rhs[0] || s in rhs[1..];
    }
  }

  // ---------------------------------------------------------------------------
  // The rule loop.

  /** After the loop, the deletion `e` of a body under `lhs` is available: a
      non-empty one as a rule, an empty one as `lhs -> ''` when `lam`. */
  predicate Reached(cfg: seq<Rule>, lam: bool, lhs: Symbol, e: seq<Symbol>, out: seq<Rule>) {
    (e != [] ==> Rule(lhs, e) in cfg || Rule(lhs, e) in out) &&
    (e == [] && lam ==> Rule(lhs, EpsilonBody) in out)
  }

  /** The inner loop over the boolean choices for one rule `lhs -> rhs`. */
  function AddErasures(cfg: seq<Rule>, lam: bool, lhs: Symbol, rhs: seq<Symbol>, n: set<Symbol>,
                       combos: seq<seq<bool>>, acc: seq<Rule>): (out: seq<Rule>)
    requires forall j :: 0 <= j < |combos| ==> |combos[j]| == NullCount(rhs, n)
    ensures forall x :: x in acc ==> x in out
    ensures forall x :: x in out && x !in acc ==>
      x.head == lhs &&
      ((x.body == EpsilonBody && lam) ||
       (x.body != [] && exists j :: 0 <= j < |combos| && x.body == EraseWith(rhs, n, combos[j])))
    ensures forall j :: 0 <= j < |combos| ==> Reached(cfg, lam, lhs, EraseWith(rhs, n, combos[j]), out)
    decreases |combos|
  {
    if |combos| == 0 then acc
    else
      var e := EraseWith(rhs, n, combos[0]);
      var next :=
        if e == [] then (if lam then acc + [Rule(lhs, EpsilonBody)] else acc)
        else if Rule(lhs, e) in cfg || Rule(lhs, e) in acc then acc
        else acc + [Rule(lhs, e)];
      var out := AddErasures(cfg, lam, lhs, rhs, n, combos[1..], next);
      assert forall j :: 1 <= j < |combos| ==> combos[j] == combos[1..][j - 1];
      assert Reached(cfg, lam, lhs, e, out);
      out
  }

  /** `e` is a deletion of the body of some non-epsilon rule of `cfg` with `x`'s head. */
  predicate Derived(cfg: seq<Rule>, n: set<Symbol>, x: Rule) {
    exists k :: 0 <= k < |cfg| && cfg[k].body != EpsilonBody && cfg[k].head == x.head && Deletion(cfg[k].body, n, x.body)
  }

  /** The outer loop over `cfg[i..]`, collecting `new_rules`. */
  function NewRules(cfg: seq<Rule>, initial: Symbol, hasLambdaStart: bool, n: set<Symbol>,
                    i: nat, acc: seq<Rule>): (out: seq<Rule>)
    requires i <= |cfg|
    ensures forall x :: x in acc ==> x in out
    ensures forall x :: x in out && x !in acc ==>
      (x == Rule(initial, EpsilonBody) && hasLambdaStart) || (Derived(cfg, n, x) && (x.body == [] ==> x in cfg))
    ensures forall k, e :: i <= k < |cfg| && cfg[k].body != EpsilonBody && Deletion(cfg[k].body, n, e) ==>
      Reached(cfg, cfg[k].head == initial && hasLambdaStart, cfg[k].head, e, out)
    decreases |cfg| - i
  {
    if i == |cfg| then acc
    else
      var r := cfg[i];
      if r.body == EpsilonBody then
        NewRules(cfg, initial, hasLambdaStart, n, i + 1, acc)
      else
        var lam := r.head == initial && hasLambdaStart;
        var cs := Combos(NullCount(r.body, n));
        var acc1 := AddErasures(cfg, lam, r.head, r.body, n, cs, acc);
        var acc2 := if NullCount(r.body, n) == 0 && r !in acc1 then acc1 + [r] else acc1;
        var out := NewRules(cfg, initial, hasLambdaStart, n, i + 1, acc2);
        NewRulesStep(cfg, initial, hasLambdaStart, n, i, acc, acc1, acc2, out);
        out
  }

  lemma NewRulesStep(cfg: seq<Rule>, initial: Symbol, hasLambdaStart: bool, n: set<Symbol>,
                     i: nat, acc: seq<Rule>, acc1: seq<Rule>, acc2: seq<Rule>, out: seq<Rule>)
    requires i < |cfg| && cfg[i].body != EpsilonBody
    requires acc1 == AddErasures(cfg, cfg[i].head == initial && hasLambdaStart, cfg[i].head, cfg[i].body, n,
                                 Combos(NullCount(cfg[i].body, n)), acc)
    requires acc2 == if NullCount(cfg[i].body, n) == 0 && cfg[i] !in acc1 then acc1 + [cfg[i]] else acc1
    requires forall x :: x in acc2 ==> x in out
    ensures forall x :: x in acc2 && x !in acc ==>
      (x == Rule(initial, EpsilonBody) && hasLambdaStart) || (Derived(cfg, n, x) && (x.body == [] ==> x in cfg))
    ensures forall e :: Deletion(cfg[i].body, n, e) ==>
      Reached(cfg, cfg[i].head == initial && hasLambdaStart, cfg[i].head, e, out)
  {
    var r := cfg[i];
    var cs := Combos(NullCount(r.body, n));
    forall x | x in acc2 && x !in acc
      ensures (x == Rule(initial, EpsilonBody) && hasLambdaStart) || (Derived(cfg, n, x) && (x.body == [] ==> x in cfg))
    {
      if x in acc1 {
        if !(x.body == EpsilonBody && r.head == initial && hasLambdaStart) {
          var j :| 0 <= j < |cs| && x.body == EraseWith(r.body, n, cs[j]);
          EraseWithIsDeletion(r.body, n, cs[j]);
          assert Derived(cfg, n, x);
        }
      } else {
        assert x == r;
        DeletionKeepsAll(r.body, n);
        assert Derived(cfg, n, x);
      }
    }
    forall e | Deletion(r.body, n, e)
      ensures Reached(cfg, r.head == initial && hasLambdaStart, r.head, e, out)
    {
      ErasuresAreDeletions(r.body, n, e);
      var j :| 0 <= j < |cs| && EraseWith(r.body, n, cs[j]) == e;
      assert Reached(cfg, r.head == initial && hasLambdaStart, r.head, e, acc1);
    }
  }

  /** The rules `remove_epsilon` keeps in its final filter. */
  predicate KeptAfterEpsilon(c: Conv, x: Rule) {
    x.body != EpsilonBody || (x.head == c.initial && c.hasLambdaStart)
  }

  /** `remove_epsilon`. Every non-epsilon rule stays; every non-empty deletion of
      nullable occurrences from a body is added; nothing else is added except
      `start -> ''`, the only epsilon rule left. That rule needs the original grammar
      to have had the literal rule `start -> ''`, and is there when it did and the
      start symbol has it or a rule whose body is all nullable. */
  function RemoveEpsilon(c: Conv): (r: Conv)
    ensures r.initial == c.initial && r.hasLambdaStart == c.hasLambdaStart
    ensures forall x :: x in c.cfg && x.body != EpsilonBody ==> x in r.cfg
    ensures forall x, e ::
      x in c.cfg && x.body != EpsilonBody && Deletion(x.body, Nullable(c.cfg), e) && e != [] && e != EpsilonBody
      ==> Rule(x.head, e) in r.cfg
    ensures forall x :: x in r.cfg ==>
      x in c.cfg || x == Rule(c.initial, EpsilonBody) || (x.body != [] && Derived(c.cfg, Nullable(c.cfg), x))
    ensures forall x :: x in r.cfg && x.body == EpsilonBody ==> x.head == c.initial && c.hasLambdaStart
    ensures c.hasLambdaStart &&
      (Rule(c.initial, EpsilonBody) in c.cfg ||
       exists x :: x in c.cfg && x.head == c.initial && x.body != EpsilonBody && AllIn(x.body, Nullable(c.cfg)))
      ==> Rule(c.initial, EpsilonBody) in r.cfg
  {
    var n := Nullable(c.cfg);
    var added := NewRules(c.cfg, c.initial, c.hasLambdaStart, n, 0, []);
    var all := c.cfg + added;
    var out := Filter(all, x => KeptAfterEpsilon(c, x));
    RemoveEpsilonFacts(c, n, added, out);
    c.(cfg := out)
  }

  lemma RemoveEpsilonFacts(c: Conv, n: set<Symbol>, added: seq<Rule>, out: seq<Rule>)
    requires n == Nullable(c.cfg)
    requires added == NewRules(c.cfg, c.initial, c.hasLambdaStart, n, 0, [])
    requires forall x :: x in out <==> x in c.cfg + added && KeptAfterEpsilon(c, x)
    ensures forall x, e ::
      x in c.cfg && x.body != EpsilonBody && Deletion(x.body, n, e) && e != [] && e != EpsilonBody
      ==> Rule(x.head, e) in out
    ensures c.hasLambdaStart &&
      (Rule(c.initial, EpsilonBody) in c.cfg ||
       exists x :: x in c.cfg && x.head == c.initial && x.body != EpsilonBody && AllIn(x.body, n))
      ==> Rule(c.initial, EpsilonBody) in out
  {
    DeletionsAdded(c, n, added, out);
    StartEpsilonAdded(c, n, added, out);
  }

  lemma DeletionsAdded(c: Conv, n: set<Symbol>, added: seq<Rule>, out: seq<Rule>)
    requires forall k, e :: 0 <= k < |c.cfg| && c.cfg[k].body != EpsilonBody && Deletion(c.cfg[k].body, n, e) ==>
      Reached(c.cfg, c.cfg[k].head == c.initial && c.hasLambdaStart, c.cfg[k].head, e, added)
    requires forall x :: x in out <==> x in c.cfg + added && KeptAfterEpsilon(c, x)
    ensures forall x, e ::
      x in c.cfg && x.body != EpsilonBody && Deletion(x.body, n, e) && e != [] && e != EpsilonBody
      ==> Rule(x.head, e) in out
  {
    forall x, e | x in c.cfg && x.body != EpsilonBody && Deletion(x.body, n, e) && e != [] && e != EpsilonBody
      ensures Rule(x.head, e) in out
    {
      var k :| 0 <= k < |c.cfg| && c.cfg[k] == x;
      assert Reached(c.cfg, x.head == c.initial && c.hasLambdaStart, x.head, e, added);
    }
  }

  lemma StartEpsilonAdded(c: Conv, n: set<Symbol>, added: seq<Rule>, out: seq<Rule>)
    requires forall k, e :: 0 <= k < |c.cfg| && c.cfg[k].body != EpsilonBody && Deletion(c.cfg[k].body, n, e) ==>
      Reached(c.cfg, c.cfg[k].head == c.initial && c.hasLambdaStart, c.cfg[k].head, e, added)
    requires forall x :: x in out <==> x in c.cfg + added && KeptAfterEpsilon(c, x)
    ensures c.hasLambdaStart &&
      (Rule(c.initial, EpsilonBody) in c.cfg ||
       exists x :: x in c.cfg && x.head == c.initial && x.body != EpsilonBody && AllIn(x.body, n))
      ==> Rule(c.initial, EpsilonBody) in out
  {
    if c.hasLambdaStart && exists x :: x in c.cfg && x.head == c.initial && x.body != EpsilonBody && AllIn(x.body, n) {
      var x :| x in c.cfg && x.head == c.initial && x.body != EpsilonBody && AllIn(x.body, n);
      var k :| 0 <= k < |c.cfg| && c.cfg[k] == x;
      DeleteEverything(x.body, n);
      assert Reached(c.cfg, true, x.head, [], added);
    }
  }
}
