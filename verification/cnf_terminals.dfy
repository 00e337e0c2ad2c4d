/** `split_terminals`: in every body of two or more symbols each terminal `x` is
    replaced by the auxiliary non-terminal `T_X`, and one rule `T_X -> x` per
    terminal replaced is appended. */
module CnfTerminals {
  import opened Grammar
  import opened Cnf

  /** The auxiliary non-terminal standing for the terminal `s`. */
  function Aux(s: Symbol): Symbol {
    "T_" + Upper(s)
  }

  /** Every auxiliary name is a non-terminal. */
  lemma AuxIsUpper(s: Symbol)
    ensures IsUpper(Aux(s))
  {
    var a := Aux(s);
    assert IsUpperChar(a[0]);
    forall i | 0 <= i < |a|
      ensures !IsLowerChar(a[i])
    {
      if i >= 2 {
        assert a[i] == Upper(s)[i - 2];
      }
    }
  }

  /** Distinct terminals get distinct auxiliary names. */
  lemma AuxInjective(s: Symbol, t: Symbol)
    requires IsLower(s) && IsLower(t) && Aux(s) == Aux(t)
    ensures s == t
  {
    var us, ut := Upper(s), Upper(t);
    assert us == Aux(s)[2..] && ut == Aux(t)[2..];
    assert |s| == |t|;
    forall i | 0 <= i < |s|
      ensures s[i] == t[i]
    {
      UpperCharInjective(s[i], t[i]);
    }
  }

  lemma UpperCharInjective(c: char, d: char)
    requires !IsUpperChar(c) && !IsUpperChar(d) && UpperChar(c) == UpperChar(d)
    ensures c == d
  {
  }

  lemma AuxNamesDistinct(t: seq<Symbol>)
    requires Distinct(t) && forall k :: 0 <= k < |t| ==> IsLower(t[k])
    ensures forall k, k' :: 0 <= k < k' < |t| ==> Aux(t[k]) != Aux(t[k'])
  {
    forall k, k' | 0 <= k < k' < |t|
      ensures Aux(t[k]) != Aux(t[k'])
    {
      if Aux(t[k]) == Aux(t[k']) {
        AuxInjective(t[k], t[k']);
      }
    }
  }

  predicate Distinct(s: seq<Symbol>) {
    forall i, j :: 0 <= i < j < |s| ==> s[i] != s[j]
  }

  /** `s` is a terminal of some body of two or more symbols. */
  predicate LongTerminal(cfg: seq<Rule>, s: Symbol) {
    exists i :: 0 <= i < |cfg| && |cfg[i].body| >= 2 && s in cfg[i].body && IsLower(s)
  }

  /** The terminals of `body` not yet in `seen`, appended in order of appearance. */
  function CollectBody(body: seq<Symbol>, seen: seq<Symbol>): (r: seq<Symbol>)
    ensures forall s :: s in r <==> s in seen || (s in body && IsLower(s))
    ensures Distinct(seen) ==> Distinct(r)
  {
    if |body| == 0 then seen
    else
      var s := body[0];
      assert forall x :: x in body <==> x == s || x in body[1..];
      CollectBody(body[1..], if IsLower(s) && s !in seen then seen + [s] else seen)
  }

  /** The keys of `aux_map`, in the order they are first met. */
  function Collect(cfg: seq<Rule>, seen: seq<Symbol>): (r: seq<Symbol>)
    ensures forall s :: s in r <==> s in seen || LongTerminal(cfg, s)
    ensures Distinct(seen) ==> Distinct(r)
  {
    if |cfg| == 0 then seen
    else
      var next := if |cfg[0].body| >= 2 then CollectBody(cfg[0].body, seen) else seen;
      var r := Collect(cfg[1..], next);
      assert forall s :: LongTerminal(cfg, s) <==>
        (|cfg[0].body| >= 2 && s in cfg[0].body && IsLower(s)) || LongTerminal(cfg[1..], s) by {
        forall s | LongTerminal(cfg[1..], s)
          ensures LongTerminal(cfg, s)
        {
          var i :| 0 <= i < |cfg[1..]| && |cfg[1..][i].body| >= 2 && s in cfg[1..][i].body && IsLower(s);
          assert cfg[i + 1] == cfg[1..][i];
        }
        forall s | LongTerminal(cfg, s) && !(|cfg[0].body| >= 2 && s in cfg[0].body && IsLower(s))
          ensures LongTerminal(cfg[1..], s)
        {
          var i :| 0 <= i < |cfg| && |cfg[i].body| >= 2 && s in cfg[i].body && IsLower(s);
          assert i > 0 && cfg[1..][i - 1] == cfg[i];
        }
      }
      r
  }

  /** A body with each terminal replaced by its auxiliary name. */
  function Replace(body: seq<Symbol>): seq<Symbol> {
    seq(|body|, k requires 0 <= k < |body| => if IsLower(body[k]) then Aux(body[k]) else body[k])
  }

  function Rewrite(r: Rule): Rule {
    if |r.body| >= 2 then Rule(r.head, Replace(r.body)) else r
  }

  /** The appended rules `T_X -> x`, one per collected terminal. */
  function AuxRules(t: seq<Symbol>): (added: seq<Rule>)
    requires Distinct(t) && forall k :: 0 <= k < |t| ==> IsLower(t[k])
    ensures |added| == |t|
    ensures forall j :: 0 <= j < |added| ==> added[j] == Rule(Aux(t[j]), [t[j]])
    ensures forall s :: s in t ==> Rule(Aux(s), [s]) in added
    ensures forall j, j' :: 0 <= j < j' < |added| ==> added[j].head != added[j'].head
  {
    var added := seq(|t|, k requires 0 <= k < |t| => Rule(Aux(t[k]), [t[k]]));
    forall s | s in t
      ensures Rule(Aux(s), [s]) in added
    {
      var k :| 0 <= k < |t| && t[k] == s;
      assert added[k] == Rule(Aux(s), [s]);
    }
    AuxNamesDistinct(t);
    added
  }

  /** The terminals `split_terminals` replaces, in order of first appearance. */
  function Terminals(cfg: seq<Rule>): (t: seq<Symbol>)
    ensures Distinct(t)
    ensures forall k :: 0 <= k < |t| ==> IsLower(t[k])
    ensures forall s :: s in t <==> LongTerminal(cfg, s)
  {
    var t := Collect(cfg, []);
    forall k | 0 <= k < |t|
      ensures IsLower(t[k])
    {
      assert LongTerminal(cfg, t[k]);
    }
    t
  }

  /** The long-body part of `split_terminals`: no terminal survives in a body of
      two or more symbols, and what replaced one is the terminal's auxiliary name. */
  lemma RewriteFacts(r: Rule)
    requires |r.body| >= 2
    ensures forall k :: 0 <= k < |r.body| ==>
      !IsLower(Rewrite(r).body[k]) &&
      (IsLower(r.body[k]) || IsUpper(r.body[k]) ==> IsUpper(Rewrite(r).body[k])) &&
      (Rewrite(r).body[k] == r.body[k] || (IsLower(r.body[k]) && Rewrite(r).body[k] == Aux(r.body[k])))
  {
    forall k | 0 <= k < |r.body|
      ensures !IsLower(Rewrite(r).body[k])
      ensures IsLower(r.body[k]) || IsUpper(r.body[k]) ==> IsUpper(Rewrite(r).body[k])
    {
      AuxIsUpper(r.body[k]);
      LowerNotUpper(Aux(r.body[k]));
    }
  }

  /** `split_terminals`: the rules rewritten in place, then one `T_X -> x` per
      terminal collected. */
  function SplitTerminals(cfg: seq<Rule>): (out: seq<Rule>)
    ensures |out| == |cfg| + |Terminals(cfg)|
  {
    seq(|cfg|, i requires 0 <= i < |cfg| => Rewrite(cfg[i])) + AuxRules(Terminals(cfg))
  }

  /** Each rule keeps its place, its head and its length, and a body of fewer than
      two symbols is untouched. */
  lemma SplitTerminalsKeeps(cfg: seq<Rule>)
    ensures forall i :: 0 <= i < |cfg| ==>
      SplitTerminals(cfg)[i].head == cfg[i].head && |SplitTerminals(cfg)[i].body| == |cfg[i].body|
    ensures forall i :: 0 <= i < |cfg| && |cfg[i].body| < 2 ==> SplitTerminals(cfg)[i] == cfg[i]
  {
    var out := SplitTerminals(cfg);
    assert forall i :: 0 <= i < |cfg| ==> out[i] == Rewrite(cfg[i]);
  }

  /** The rules appended are one `T_X -> x` for each distinct terminal of a long
      body, each with a head of its own. */
  lemma SplitTerminalsAdds(cfg: seq<Rule>)
    ensures var out := SplitTerminals(cfg);
      forall j :: |cfg| <= j < |out| ==>
        |out[j].body| == 1 && LongTerminal(cfg, out[j].body[0]) && out[j].head == Aux(out[j].body[0])
    ensures forall s :: LongTerminal(cfg, s) ==> Rule(Aux(s), [s]) in SplitTerminals(cfg)[|cfg|..]
    ensures var out := SplitTerminals(cfg);
      forall j, j' :: |cfg| <= j < j' < |out| ==> out[j].head != out[j'].head
  {
    var out := SplitTerminals(cfg);
    assert out[|cfg|..] == AuxRules(Terminals(cfg));
    AddedPart(cfg, Terminals(cfg), out);
  }

  /** In a body of two or more symbols no terminal is left, every lexically
      classified symbol becomes a non-terminal, and every replaced symbol has a rule
      giving back the terminal it replaced. */
  lemma SplitTerminalsRewrites(cfg: seq<Rule>)
    ensures forall i, k :: 0 <= i < |cfg| && |cfg[i].body| >= 2 && 0 <= k < |cfg[i].body| ==>
      |SplitTerminals(cfg)[i].body| == |cfg[i].body| &&
      !IsLower(SplitTerminals(cfg)[i].body[k]) &&
      (IsLower(cfg[i].body[k]) || IsUpper(cfg[i].body[k]) ==> IsUpper(SplitTerminals(cfg)[i].body[k])) &&
      (SplitTerminals(cfg)[i].body[k] == cfg[i].body[k] ||
       Rule(SplitTerminals(cfg)[i].body[k], [cfg[i].body[k]]) in SplitTerminals(cfg))
  {
    var out := SplitTerminals(cfg);
    SplitTerminalsKeeps(cfg);
    SplitTerminalsAdds(cfg);
    assert forall i :: 0 <= i < |cfg| ==> out[i] == Rewrite(cfg[i]);
    RewrittenPart(cfg, out);
  }

  /** The appended part of `split_terminals`. */
  lemma AddedPart(cfg: seq<Rule>, t: seq<Symbol>, out: seq<Rule>)
    requires t == Terminals(cfg) && |out| >= |cfg| && out[|cfg|..] == AuxRules(t)
    ensures forall j :: |cfg| <= j < |out| ==>
      |out[j].body| == 1 && LongTerminal(cfg, out[j].body[0]) && out[j].head == Aux(out[j].body[0])
    ensures forall s :: LongTerminal(cfg, s) ==> Rule(Aux(s), [s]) in out[|cfg|..]
    ensures forall j, j' :: |cfg| <= j < j' < |out| ==> out[j].head != out[j'].head
  {
    var added := AuxRules(t);
    forall j | |cfg| <= j < |out|
      ensures out[j] == added[j - |cfg|]
    {
    }
    forall j | |cfg| <= j < |out|
      ensures LongTerminal(cfg, out[j].body[0])
    {
      assert t[j - |cfg|] in t;
    }
  }

  /** The rewritten part of `split_terminals`, rule by rule. */
  lemma RewrittenPart(cfg: seq<Rule>, out: seq<Rule>)
    requires |out| >= |cfg| && forall i :: 0 <= i < |cfg| ==> out[i] == Rewrite(cfg[i])
    requires forall i :: 0 <= i < |cfg| ==> |out[i].body| == |cfg[i].body|
    requires forall s :: LongTerminal(cfg, s) ==> Rule(Aux(s), [s]) in out[|cfg|..]
    ensures forall i, k :: 0 <= i < |cfg| && |cfg[i].body| >= 2 && 0 <= k < |cfg[i].body| ==>
      !IsLower(out[i].body[k]) &&
      (IsLower(cfg[i].body[k]) || IsUpper(cfg[i].body[k]) ==> IsUpper(out[i].body[k])) &&
      (out[i].body[k] == cfg[i].body[k] || Rule(out[i].body[k], [cfg[i].body[k]]) in out)
  {
    forall s | LongTerminal(cfg, s)
      ensures Rule(Aux(s), [s]) in out
    {
      var j :| 0 <= j < |out[|cfg|..]| && out[|cfg|..][j] == Rule(Aux(s), [s]);
      assert out[|cfg| + j] == Rule(Aux(s), [s]);
    }
    forall i | 0 <= i < |cfg| && |cfg[i].body| >= 2
      ensures forall k :: 0 <= k < |cfg[i].body| ==>
        !IsLower(out[i].body[k]) &&
        (IsLower(cfg[i].body[k]) || IsUpper(cfg[i].body[k]) ==> IsUpper(out[i].body[k])) &&
        (out[i].body[k] == cfg[i].body[k] || Rule(out[i].body[k], [cfg[i].body[k]]) in out)
    {
      RewrittenBody(cfg, i, out);
    }
  }

  /** Inside the output of `split_terminals`, a rewritten long body has no
      terminal left and each replaced symbol has its `T_X -> x` rule. */
  lemma RewrittenBody(cfg: seq<Rule>, i: int, out: seq<Rule>)
    requires 0 <= i < |cfg| && |cfg[i].body| >= 2 && |out| > i && out[i] == Rewrite(cfg[i])
    requires forall s :: LongTerminal(cfg, s) ==> Rule(Aux(s), [s]) in out
    ensures forall k :: 0 <= k < |cfg[i].body| ==>
      !IsLower(out[i].body[k]) &&
      (IsLower(cfg[i].body[k]) || IsUpper(cfg[i].body[k]) ==> IsUpper(out[i].body[k])) &&
      (out[i].body[k] == cfg[i].body[k] || Rule(out[i].body[k], [cfg[i].body[k]]) in out)
  {
    RewriteFacts(cfg[i]);
    forall k | 0 <= k < |cfg[i].body| && IsLower(cfg[i].body[k])
      ensures LongTerminal(cfg, cfg[i].body[k])
    {
      assert cfg[i].body[k] in cfg[i].body;
    }
  }
}
