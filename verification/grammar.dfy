/** Symbols, rules and the lexical classification of symbols shared by the
    recognisers, the CNF converter and the grammar reader.

    A symbol is a string. The grammar never tags symbols explicitly: a symbol is
    a terminal when Python's `str.islower()` holds of it and a non-terminal when
    `str.isupper()` holds. Both are modelled over the ASCII letters, the only
    cased characters this model knows about. */
module Grammar {

  type Symbol = string

  /** A production `head -> body`; the body `[""]` is the epsilon body. */
  datatype Rule = Rule(head: Symbol, body: seq<Symbol>)

  /** The body the grammar files write as `ε` or as nothing. */
  const EpsilonBody: seq<Symbol> := [""]

  /** The start symbol the recogniser and the converter use when the caller does
      not name one. */
  const DefaultStart: Symbol := "S"

  predicate IsLowerChar(c: char) { 'a' <= c <= 'z' }

  predicate IsUpperChar(c: char) { 'A' <= c <= 'Z' }

  /** Python `str.islower()`: at least one cased character and no upper-case one. */
  predicate IsLower(s: Symbol) {
    (exists i :: 0 <= i < |s| && IsLowerChar(s[i])) &&
    (forall i :: 0 <= i < |s| ==> !IsUpperChar(s[i]))
  }

  /** Python `str.isupper()`: at least one cased character and no lower-case one. */
  predicate IsUpper(s: Symbol) {
    (exists i :: 0 <= i < |s| && IsUpperChar(s[i])) &&
    (forall i :: 0 <= i < |s| ==> !IsLowerChar(s[i]))
  }

  function UpperChar(c: char): (u: char)
    ensures !IsLowerChar(u)
    ensures IsLowerChar(c) ==> IsUpperChar(u)
    ensures !IsLowerChar(c) ==> u == c
  {
    if IsLowerChar(c) then (c as int - 'a' as int + 'A' as int) as char else c
  }

  /** Python `str.upper()` on the ASCII letters. */
  function Upper(s: Symbol): (u: Symbol)
    ensures |u| == |s|
    ensures forall i :: 0 <= i < |s| ==> u[i] == UpperChar(s[i])
  {
    if |s| == 0 then "" else [UpperChar(s[0])] + Upper(s[1..])
  }

  /** A terminal can never be a non-terminal. */
  lemma LowerNotUpper(s: Symbol)
    ensures !(IsLower(s) && IsUpper(s))
  {
  }

  /** A unit production: a one-symbol body that is a non-terminal. */
  predicate IsUnit(r: Rule) {
    |r.body| == 1 && IsUpper(r.body[0])
  }

  /** The symbol `s` occurs in the body of some rule. */
  predicate OccursInBody(rules: seq<Rule>, s: Symbol) {
    exists i :: 0 <= i < |rules| && s in rules[i].body
  }

  /** The symbol `s` is the head of some rule. */
  predicate IsHead(rules: seq<Rule>, s: Symbol) {
    exists i :: 0 <= i < |rules| && rules[i].head == s
  }

  function Heads(rules: seq<Rule>): (hs: set<Symbol>)
    ensures forall s :: s in hs <==> IsHead(rules, s)
  {
    set i | 0 <= i < |rules| :: rules[i].head
  }

  /** The shape of every rule the grammar reader produces: the body is the epsilon
      body or a non-empty sequence of non-empty symbols. */
  predicate WellFormedBody(body: seq<Symbol>) {
    body == EpsilonBody || (|body| > 0 && forall i :: 0 <= i < |body| ==> body[i] != "")
  }

  /** A well-formed rule each of whose body symbols (unless the body is the epsilon
      body) is lexically a terminal or a non-terminal. */
  predicate ClassifiedRule(r: Rule) {
    WellFormedBody(r.body) &&
    (r.body == EpsilonBody || forall j :: 0 <= j < |r.body| ==> IsLower(r.body[j]) || IsUpper(r.body[j]))
  }

  predicate Classified(rules: seq<Rule>) {
    forall r :: r in rules ==> ClassifiedRule(r)
  }

  /** Decimal rendering of a natural number, as Python's `str` of an int. */
  function NatToString(n: nat): (s: string)
    ensures |s| > 0
    ensures forall i :: 0 <= i < |s| ==> '0' <= s[i] <= '9'
  {
    if n < 10 then [DigitChar(n)] else NatToString(n / 10) + [DigitChar(n % 10)]
  }

  function DigitChar(d: nat): (c: char)
    requires d < 10
    ensures '0' <= c <= '9'
  {
    ('0' as int + d) as char
  }
}
