/** The state of the CNF converter and the steps of it that are not a stage of
    their own: the CNF test, the fresh start symbol and the final removal of
    duplicate rules. */
module Cnf {
  import opened Grammar

  /** The converter's fields: the current rule list, the current start symbol, and
      whether the original grammar had the literal rule `start -> ''`. */
  datatype Conv = Conv(cfg: seq<Rule>, initial: Symbol, hasLambdaStart: bool)

  /** The converter as constructed from a rule list and a start symbol. */
  function Init(rules: seq<Rule>, start: Symbol): (c: Conv)
    ensures c.cfg == rules && c.initial == start
    ensures c.hasLambdaStart <==> exists i :: 0 <= i < |rules| && rules[i].head == start && rules[i].body == EpsilonBody
  {
    Conv(rules, start, Rule(start, EpsilonBody) in rules)
  }

  /** The converter built without a start symbol: the start is `S`, and the flag
      records whether `S -> ''` is a rule. */
  function InitDefault(rules: seq<Rule>): (c: Conv)
    ensures c.cfg == rules && c.initial == "S"
    ensures c.hasLambdaStart <==> Rule("S", [""]) in rules
  {
    Init(rules, DefaultStart)
  }

  /** One rule passes every test of `_is_cnf`. */
  predicate CnfRule(r: Rule, initial: Symbol) {
    !(r.head != initial && r.body == EpsilonBody) &&
    !(|r.body| == 1 && IsUpper(r.body[0])) &&
    !(|r.body| == 2 && !(IsUpper(r.body[0]) && IsUpper(r.body[1]))) &&
    !(|r.body| > 2 || |r.body| == 0)
  }

  /** `_is_cnf`: every rule passes. */
  predicate IsCnf(c: Conv) {
    forall r :: r in c.cfg ==> CnfRule(r, c.initial)
  }

  /** The rule shapes `_is_cnf` admits: `start -> ''`, a one-symbol body that is not a
      non-terminal (and is the epsilon body only under the start symbol), or two
      non-terminals. */
  lemma CnfRuleShape(r: Rule, initial: Symbol)
    ensures CnfRule(r, initial) <==>
      (|r.body| == 1 && !IsUpper(r.body[0]) && (r.body == EpsilonBody ==> r.head == initial)) ||
      (|r.body| == 2 && IsUpper(r.body[0]) && IsUpper(r.body[1]))
  {
  }

  /** The start symbol `add_new_start` introduces. */
  function StartName(initial: Symbol): (s: Symbol)
    ensures |s| > |initial| && s[..|initial|] == initial
  {
    initial + "_START"
  }

  /** `add_new_start`: when the start symbol occurs in some body, a new start symbol
      with the single rule `new -> old` is put in front; otherwise nothing changes.
      Afterwards the start symbol occurs in no body, as long as the new name was not
      already used in one. */
  function AddNewStart(c: Conv): (r: Conv)
    ensures r.hasLambdaStart == c.hasLambdaStart
    ensures !OccursInBody(c.cfg, c.initial) ==> r == c
    ensures OccursInBody(c.cfg, c.initial) ==>
      r.initial == StartName(c.initial) && r.cfg == [Rule(r.initial, [c.initial])] + c.cfg
    ensures !OccursInBody(c.cfg, StartName(c.initial)) ==> !OccursInBody(r.cfg, r.initial)
  {
    if OccursInBody(c.cfg, c.initial) then
      var s := StartName(c.initial);
      var r := c.(cfg := [Rule(s, [c.initial])] + c.cfg, initial := s);
      assert c.initial != s;
      assert forall i :: 1 <= i < |r.cfg| ==> r.cfg[i] == c.cfg[i - 1];
      r
    else c
  }

  // ---------------------------------------------------------------------------
  // `list(dict.fromkeys(...))`

  predicate NoDuplicates(s: seq<Rule>) {
    forall i, j :: 0 <= i < j < |s| ==> s[i] != s[j]
  }

  /** The position where `x` first occurs in `s`. */
  function FirstIndex(s: seq<Rule>, x: Rule): (k: nat)
    requires x in s
    ensures k < |s| && s[k] == x && x !in s[..k]
  {
    if s[0] == x then 0 else 1 + FirstIndex(s[1..], x)
  }

  /** `dict.fromkeys`: every rule once, in the order of first occurrence. */
  function Dedup(s: seq<Rule>): (r: seq<Rule>)
    ensures NoDuplicates(r)
    ensures forall x :: x in r <==> x in s
    ensures forall i, j :: 0 <= i < j < |r| ==> FirstIndex(s, r[i]) < FirstIndex(s, r[j])
  {
    if |s| == 0 then []
    else
      var init := s[..|s| - 1];
      var last := s[|s| - 1];
      var d := Dedup(init);
      assert s == init + [last];
      FirstIndexExtend(init, last);
      if last in d then d
      else
        assert FirstIndex(s, last) == |s| - 1 by {
          FirstIndexNew(init, last);
        }
        d + [last]
  }

  lemma FirstIndexExtend(init: seq<Rule>, last: Rule)
    ensures forall x :: x in init ==> FirstIndex(init + [last], x) == FirstIndex(init, x)
  {
    forall x | x in init
      ensures FirstIndex(init + [last], x) == FirstIndex(init, x)
    {
      FirstIndexPrefix(init, [last], x);
    }
  }

  lemma {:induction false} FirstIndexPrefix(a: seq<Rule>, b: seq<Rule>, x: Rule)
    requires x in a
    ensures FirstIndex(a + b, x) == FirstIndex(a, x)
  {
    if a[0] != x {
      assert (a + b)[1..] == a[1..] + b;
      FirstIndexPrefix(a[1..], b, x);
    }
  }

  lemma FirstIndexNew(init: seq<Rule>, last: Rule)
    requires last !in init
    ensures FirstIndex(init + [last], last) == |init|
  {
  }

  // ---------------------------------------------------------------------------
  // List comprehensions with a condition.

  /** `r` is `s` with some elements left out and the rest kept in order. */
  predicate IsSubsequence<T(==)>(r: seq<T>, s: seq<T>)
    decreases |s|
  {
    |r| == 0 ||
    (|s| > 0 && ((r[0] == s[0] && IsSubsequence(r[1..], s[1..])) || IsSubsequence(r, s[1..])))
  }

  lemma MultisetOfCons<T>(s: seq<T>)
    requires |s| > 0
    ensures multiset(s) == multiset{s[0]} + multiset(s[1..])
  {
    assert s == [s[0]] + s[1..];
  }

  /** `[x for x in s if keep(x)]`. */
  function Filter(s: seq<Rule>, keep: Rule -> bool): (r: seq<Rule>)
    ensures |r| <= |s|
    ensures forall x :: x in r <==> x in s && keep(x)
    ensures IsSubsequence(r, s)
    ensures forall y :: multiset(r)[y] == if keep(y) then multiset(s)[y] else 0
  {
    if |s| == 0 then []
    else
      var rest := Filter(s[1..], keep);
      assert forall x :: x in s <==> x == s[0] || x in s[1..];
      MultisetOfCons(s);
      if keep(s[0]) then
        assert ([s[0]] + rest)[1..] == rest;
        MultisetOfCons([s[0]] + rest);
        [s[0]] + rest
      else rest
  }

  // ---------------------------------------------------------------------------
  // Finite sets.

  lemma {:induction false} SubsetNoLarger<T>(a: set<T>, b: set<T>)
    requires a <= b
    ensures |a| <= |b|
    decreases a
  {
    if a != {} {
      var x :| x in a;
      SubsetNoLarger(a - {x}, b - {x});
    }
  }

  lemma ProperSubsetSmaller<T>(a: set<T>, b: set<T>)
    requires a < b
    ensures |a| < |b|
  {
    var x :| x in b && x !in a;
    SubsetNoLarger(a, b - {x});
  }
}
