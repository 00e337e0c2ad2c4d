/** The per-line logic of the grammar reader and the word reader of utils.py,
    without the file handle: a grammar file is given as its sequence of lines and a
    word file as its text.

    A line `HEAD -> a B | ε` (or with `→`) yields one rule per `|`-separated
    alternative; in probabilistic mode each alternative ends in a probability token,
    which is kept as text. */
module GrammarReader {
  import opened Grammar
  import opened Wrappers

  // ---------------------------------------------------------------------------
  // Python string primitives.

  /** Python's `str.isspace()` for one character. */
  predicate IsSpace(c: char) {
    ('\t' <= c <= '\r') || ('\U{1C}' <= c <= '\U{1F}') || c == ' ' || c == '\U{85}' ||
    c == '\U{A0}' || c == '\U{1680}' || ('\U{2000}' <= c <= '\U{200A}') ||
    c == '\U{2028}' || c == '\U{2029}' || c == '\U{202F}' || c == '\U{205F}' || c == '\U{3000}'
  }

  predicate AllSpace(s: string) {
    forall i :: 0 <= i < |s| ==> IsSpace(s[i])
  }

  predicate NoSpace(s: string) {
    forall i :: 0 <= i < |s| ==> !IsSpace(s[i])
  }

  /** Python's `str.lstrip()`: the result does not start with whitespace. */
  function LStrip(s: string): (r: string)
    ensures |r| <= |s|
    ensures |r| > 0 ==> !IsSpace(r[0])
  {
    if |s| > 0 && IsSpace(s[0]) then LStrip(s[1..]) else s
  }

  /** What `lstrip` removes is a whitespace prefix. */
  lemma {:induction false} LStripRemovesSpace(s: string)
    ensures var r := LStrip(s); r == s[|s| - |r|..] && AllSpace(s[..|s| - |r|])
  {
    if |s| > 0 && IsSpace(s[0]) {
      LStripRemovesSpace(s[1..]);
      var r := LStrip(s);
      assert s[1..][|s| - 1 - |r|..] == s[|s| - |r|..];
      assert s[..|s| - |r|] == [s[0]] + s[1..][..|s| - 1 - |r|];
    }
  }

  /** Python's `str.rstrip()`: the result does not end with whitespace and starts
      like the input. */
  function RStrip(s: string): (r: string)
    ensures |r| <= |s|
    ensures |r| > 0 ==> !IsSpace(r[|r| - 1]) && r[0] == s[0]
  {
    if |s| > 0 && IsSpace(s[|s| - 1]) then RStrip(s[..|s| - 1]) else s
  }

  /** What `rstrip` removes is a whitespace suffix. */
  lemma {:induction false} RStripRemovesSpace(s: string)
    ensures var r := RStrip(s); r == s[..|r|] && AllSpace(s[|r|..])
  {
    if |s| > 0 && IsSpace(s[|s| - 1]) {
      var t := s[..|s| - 1];
      RStripRemovesSpace(t);
      var r := RStrip(s);
      assert t[..|r|] == s[..|r|];
      assert s[|r|..] == t[|r|..] + [s[|s| - 1]];
    }
  }

  /** Python's `str.strip()`: the result neither starts nor ends with whitespace. */
  function Strip(s: string): (r: string)
    ensures |r| <= |s|
    ensures |r| > 0 ==> !IsSpace(r[0]) && !IsSpace(r[|r| - 1])
  {
    RStrip(LStrip(s))
  }

  /** What `strip` removes is whitespace: the input is the result padded on both
      sides with whitespace only. */
  lemma StripPadded(s: string)
    ensures exists a :: Padded(s, Strip(s), a)
  {
    var l := LStrip(s);
    var r := RStrip(l);
    var a := |s| - |l|;
    LStripRemovesSpace(s);
    RStripRemovesSpace(l);
    assert Strip(s) == r;
    assert s[a..a + |r|] == r;
    assert s[a + |r|..] == l[|r|..];
    assert Padded(s, r, a);
  }

  /** `s` is `r` with whitespace before it (the first `a` characters) and after it. */
  predicate Padded(s: string, r: string, a: int) {
    0 <= a && a + |r| <= |s| && s[a..a + |r|] == r && AllSpace(s[..a]) && AllSpace(s[a + |r|..])
  }

  /** `sep` occurs in `s`: Python's `sep in s`. */
  predicate Contains(s: string, sep: string) {
    exists i :: 0 <= i <= |s| && OccursAt(s, sep, i)
  }

  /** `sep` starts at position `i` of `s`. */
  predicate OccursAt(s: string, sep: string, i: int) {
    0 <= i && i + |sep| <= |s| && s[i..i + |sep|] == sep
  }

  /** Number of positions of `s` where `sep` starts. */
  function Occurrences(s: string, sep: string): nat
    requires |sep| > 0
  {
    if |s| < |sep| then 0
    else (if s[..|sep|] == sep then 1 else 0) + Occurrences(s[1..], sep)
  }

  /** No proper suffix of `sep` is also a prefix, so two occurrences never overlap;
      true of `→`, `->` and `|`. */
  predicate NoSelfOverlap(sep: string) {
    forall d :: 0 < d < |sep| ==> sep[d..] != sep[..|sep| - d]
  }

  /** `pieces` glued back together with `sep` between neighbours. */
  function Join(pieces: seq<string>, sep: string): string
    requires |pieces| > 0
  {
    if |pieces| == 1 then pieces[0] else pieces[0] + sep + Join(pieces[1..], sep)
  }

  /** Python's `s.split(sep)`: cuts at each occurrence of `sep`, scanning left to
      right; there is always at least one piece. */
  function Split(s: string, sep: string): (pieces: seq<string>)
    requires |sep| > 0
    ensures |pieces| > 0
    decreases |s|
  {
    if |s| < |sep| then
      [s]
    else if s[..|sep|] == sep then
      [""] + Split(s[|sep|..], sep)
    else
      var rest := Split(s[1..], sep);
      [[s[0]] + rest[0]] + rest[1..]
  }

  /** Round trip: joining the pieces of `split` with the separator gives the input
      back, and no piece contains the separator. */
  lemma SplitJoin(s: string, sep: string)
    requires |sep| > 0
    ensures Join(Split(s, sep), sep) == s
    ensures forall i :: 0 <= i < |Split(s, sep)| ==> !Contains(Split(s, sep)[i], sep)
  {
    SplitJoinsBack(s, sep);
    SplitPiecesClean(s, sep);
  }

  lemma {:induction false} SplitJoinsBack(s: string, sep: string)
    requires |sep| > 0
    ensures Join(Split(s, sep), sep) == s
    decreases |s|
  {
    if |s| >= |sep| {
      if s[..|sep|] == sep {
        var t := s[|sep|..];
        SplitJoinsBack(t, sep);
        JoinAfterEmpty(Split(t, sep), sep);
        assert s == s[..|sep|] + t;
      } else {
        var t := s[1..];
        SplitJoinsBack(t, sep);
        JoinExtendFirst(Split(t, sep), s[0], sep);
        assert s == [s[0]] + t;
      }
    }
  }

  lemma JoinAfterEmpty(pieces: seq<string>, sep: string)
    requires |pieces| > 0
    ensures Join([""] + pieces, sep) == sep + Join(pieces, sep)
  {
    assert ([""] + pieces)[1..] == pieces;
  }

  lemma JoinExtendFirst(pieces: seq<string>, c: char, sep: string)
    requires |pieces| > 0
    ensures Join([[c] + pieces[0]] + pieces[1..], sep) == [c] + Join(pieces, sep)
  {
    var q := [[c] + pieces[0]] + pieces[1..];
    if |pieces| > 1 {
      assert q[1..] == pieces[1..];
    }
  }

  lemma {:induction false} SplitPiecesClean(s: string, sep: string)
    requires |sep| > 0
    ensures forall i :: 0 <= i < |Split(s, sep)| ==> !Contains(Split(s, sep)[i], sep)
    decreases |s|
  {
    var pieces := Split(s, sep);
    if |s| < |sep| {
      assert pieces == [s];
      assert !Contains(s, sep);
    } else if s[..|sep|] == sep {
      var rest := Split(s[|sep|..], sep);
      SplitPiecesClean(s[|sep|..], sep);
      assert !Contains("", sep);
      forall i | 1 <= i < |pieces|
        ensures !Contains(pieces[i], sep)
      {
        assert pieces[i] == rest[i - 1];
      }
    } else {
      var rest := Split(s[1..], sep);
      SplitPiecesClean(s[1..], sep);
      SplitJoinsBack(s[1..], sep);
      PrefixOfJoin(rest, sep);
      FirstPieceClean(s, sep, rest[0]);
      forall i | 1 <= i < |pieces|
        ensures !Contains(pieces[i], sep)
      {
        assert pieces[i] == rest[i];
      }
    }
  }

  lemma PrefixOfJoin(pieces: seq<string>, sep: string)
    requires |pieces| > 0
    ensures |pieces[0]| <= |Join(pieces, sep)| && Join(pieces, sep)[..|pieces[0]|] == pieces[0]
  {
    if |pieces| > 1 {
      assert Join(pieces, sep) == pieces[0] + (sep + Join(pieces[1..], sep));
    }
  }

  /** Extending a sep-free prefix `p` of `s[1..]` by `s[0]` stays sep-free when `s`
      does not start with `sep`. */
  lemma FirstPieceClean(s: string, sep: string, p: string)
    requires |sep| > 0 && |s| >= |sep| && s[..|sep|] != sep
    requires |p| <= |s| - 1 && s[1..][..|p|] == p && !Contains(p, sep)
    ensures !Contains([s[0]] + p, sep)
  {
    var q := [s[0]] + p;
    if Contains(q, sep) {
      var i :| 0 <= i <= |q| && OccursAt(q, sep, i);
      assert i + |sep| <= |q| && q[i..i + |sep|] == sep;
      if i == 0 {
        assert false;
      } else {
        assert q[1..] == p;
        assert q[i..i + |sep|] == q[1..][i - 1..i - 1 + |sep|];
        assert OccursAt(p, sep, i - 1);
        assert false;
      }
    }
  }

  /** With a separator that cannot overlap itself, `split` makes one piece more
      than there are occurrences of the separator. */
  lemma {:induction false} SplitCount(s: string, sep: string)
    requires |sep| > 0 && NoSelfOverlap(sep)
    ensures |Split(s, sep)| == Occurrences(s, sep) + 1
    decreases |s|
  {
    if |s| >= |sep| {
      if s[..|sep|] == sep {
        SplitCount(s[|sep|..], sep);
        SkipInsideOccurrence(s, sep, 1);
      } else {
        SplitCount(s[1..], sep);
      }
    }
  }

  /** Right after an occurrence at the front, no occurrence starts before its end. */
  lemma {:induction false} SkipInsideOccurrence(s: string, sep: string, d: nat)
    requires |sep| > 0 && NoSelfOverlap(sep) && |s| >= |sep| && s[..|sep|] == sep
    requires 1 <= d <= |sep|
    ensures Occurrences(s[d..], sep) == Occurrences(s[|sep|..], sep)
    decreases |sep| - d
  {
    if d < |sep| {
      var t := s[d..];
      if |t| >= |sep| {
        assert t[..|sep| - d] == sep[d..];
        assert t[..|sep|][..|sep| - d] == t[..|sep| - d];
        assert t[..|sep|] != sep by {
          assert sep[..|sep| - d] != sep[d..];
        }
        assert t[1..] == s[d + 1..];
      }
      SkipInsideOccurrence(s, sep, d + 1);
    }
  }

  lemma {:induction false} OccurrencesContains(s: string, sep: string)
    requires |sep| > 0
    ensures Occurrences(s, sep) > 0 <==> Contains(s, sep)
    decreases |s|
  {
    if |s| >= |sep| {
      OccurrencesContains(s[1..], sep);
      ContainsStep(s, sep);
      if s[..|sep|] == sep {
        assert OccursAt(s, sep, 0);
      }
    }
  }

  /** `sep` occurs in `s` exactly when it starts `s` or occurs in `s[1..]`. */
  lemma ContainsStep(s: string, sep: string)
    requires |s| >= |sep| > 0
    ensures Contains(s, sep) <==> s[..|sep|] == sep || Contains(s[1..], sep)
  {
    var t := s[1..];
    if Contains(t, sep) {
      var i :| 0 <= i <= |t| && OccursAt(t, sep, i);
      assert s[i + 1..i + 1 + |sep|] == t[i..i + |sep|];
      assert OccursAt(s, sep, i + 1);
    }
    if s[..|sep|] == sep {
      assert OccursAt(s, sep, 0);
    }
    if Contains(s, sep) && s[..|sep|] != sep {
      var i :| 0 <= i <= |s| && OccursAt(s, sep, i);
      assert i > 0;
      assert t[i - 1..i - 1 + |sep|] == s[i..i + |sep|];
      assert OccursAt(t, sep, i - 1);
    }
  }

  /** The length of the first token of `s`: the run of non-whitespace at its front. */
  function TokenLength(s: string): (n: nat)
    ensures n <= |s| && NoSpace(s[..n]) && (n == |s| || IsSpace(s[n]))
  {
    if |s| == 0 || IsSpace(s[0]) then 0
    else
      var n := 1 + TokenLength(s[1..]);
      assert s[..n] == [s[0]] + s[1..][..n - 1];
      n
  }

  function RemoveSpaces(s: string): string {
    if |s| == 0 then ""
    else (if IsSpace(s[0]) then "" else [s[0]]) + RemoveSpaces(s[1..])
  }

  function Concat(ts: seq<string>): string {
    if |ts| == 0 then "" else ts[0] + Concat(ts[1..])
  }

  lemma RemoveSpacesAppend(a: string, b: string)
    ensures RemoveSpaces(a + b) == RemoveSpaces(a) + RemoveSpaces(b)
  {
    if |a| > 0 {
      assert (a + b)[1..] == a[1..] + b;
      RemoveSpacesAppend(a[1..], b);
    } else {
      assert a + b == b;
    }
  }

  lemma RemoveSpacesOfToken(t: string)
    requires NoSpace(t)
    ensures RemoveSpaces(t) == t
  {
    if |t| > 0 {
      RemoveSpacesOfToken(t[1..]);
    }
  }

  /** Python's `s.split()`: the maximal whitespace-free runs of `s`, in order. Every
      token is non-empty and free of whitespace, and together they are `s` with its
      whitespace removed. */
  function SplitWs(s: string): (tokens: seq<string>)
    ensures forall i :: 0 <= i < |tokens| ==> tokens[i] != "" && NoSpace(tokens[i])
    ensures Concat(tokens) == RemoveSpaces(s)
    decreases |s|
  {
    if |s| == 0 then []
    else if IsSpace(s[0]) then SplitWs(s[1..])
    else
      var n := TokenLength(s);
      assert s == s[..n] + s[n..];
      RemoveSpacesAppend(s[..n], s[n..]);
      RemoveSpacesOfToken(s[..n]);
      [s[..n]] + SplitWs(s[n..])
  }

  /** `gaps[0] + tokens[0] + gaps[1] + ... + tokens[n - 1] + gaps[n]`. */
  function Interleave(gaps: seq<string>, tokens: seq<string>): string
    requires |gaps| == |tokens| + 1
  {
    if |tokens| == 0 then gaps[0] else gaps[0] + tokens[0] + Interleave(gaps[1..], tokens[1..])
  }

  /** `s` is whitespace runs alternating with the non-empty, whitespace-free
      `tokens`: the runs between two tokens are non-empty, the outer two may be
      empty. So `tokens` are the maximal non-whitespace runs of `s`. */
  predicate WsRuns(s: string, gaps: seq<string>, tokens: seq<string>) {
    |gaps| == |tokens| + 1 &&
    (forall i :: 0 <= i < |tokens| ==> tokens[i] != "" && NoSpace(tokens[i])) &&
    (forall i :: 0 <= i < |gaps| ==> AllSpace(gaps[i])) &&
    (forall i :: 0 < i < |tokens| ==> gaps[i] != "") &&
    Interleave(gaps, tokens) == s
  }

  /** `s.split()` gives exactly the maximal non-whitespace runs of `s`, in order. */
  lemma SplitWsIffRuns(s: string, tokens: seq<string>)
    ensures tokens == SplitWs(s) <==> exists gaps :: WsRuns(s, gaps, tokens)
  {
    var gaps := SplitWsRuns(s);
    if exists gaps :: WsRuns(s, gaps, tokens) {
      var gaps' :| WsRuns(s, gaps', tokens);
      WsRunsUnique(s, gaps', tokens);
    }
  }

  /** The runs `s.split()` finds, with the whitespace between them. */
  lemma {:induction false} SplitWsRuns(s: string) returns (gaps: seq<string>)
    ensures WsRuns(s, gaps, SplitWs(s))
    decreases |s|
  {
    if |s| == 0 {
      gaps := [""];
    } else if IsSpace(s[0]) {
      var rest := SplitWsRuns(s[1..]);
      gaps := [[s[0]] + rest[0]] + rest[1..];
      SpaceRuns(s, rest, SplitWs(s));
    } else {
      var n := TokenLength(s);
      var rest := SplitWsRuns(s[n..]);
      gaps := [""] + rest;
      TokenRuns(s, n, rest, SplitWs(s[n..]));
    }
  }

  /** Whitespace in front of `s` joins its first gap. */
  lemma SpaceRuns(s: string, rest: seq<string>, tokens: seq<string>)
    requires |s| > 0 && IsSpace(s[0]) && WsRuns(s[1..], rest, tokens)
    ensures WsRuns(s, [[s[0]] + rest[0]] + rest[1..], tokens)
  {
    var gaps := [[s[0]] + rest[0]] + rest[1..];
    InterleavePrepend(s[0], rest, tokens);
    assert s == [s[0]] + s[1..];
    assert forall i :: 0 < i < |gaps| ==> gaps[i] == rest[i];
  }

  /** A maximal token in front of `s` becomes its first token, after an empty gap. */
  lemma TokenRuns(s: string, n: nat, rest: seq<string>, more: seq<string>)
    requires 0 < n <= |s| && NoSpace(s[..n]) && (n == |s| || IsSpace(s[n]))
    requires WsRuns(s[n..], rest, more)
    ensures WsRuns(s, [""] + rest, [s[..n]] + more)
  {
    var tokens := [s[..n]] + more;
    var gaps := [""] + rest;
    assert tokens[1..] == more && gaps[1..] == rest;
    assert s == s[..n] + s[n..];
    assert forall i :: 0 < i < |gaps| ==> gaps[i] == rest[i - 1];
  }

  lemma InterleavePrepend(c: char, gaps: seq<string>, tokens: seq<string>)
    requires |gaps| == |tokens| + 1
    ensures Interleave([[c] + gaps[0]] + gaps[1..], tokens) == [c] + Interleave(gaps, tokens)
  {
    var gaps' := [[c] + gaps[0]] + gaps[1..];
    assert gaps'[1..] == gaps[1..];
  }

  /** Only the runs `s.split()` finds split `s` into whitespace and tokens. */
  lemma {:induction false} WsRunsUnique(s: string, gaps: seq<string>, tokens: seq<string>)
    requires WsRuns(s, gaps, tokens)
    ensures tokens == SplitWs(s)
    decreases |s|
  {
    if gaps[0] != "" {
      var gaps' := LeadingSpace(s, gaps, tokens);
      WsRunsUnique(s[1..], gaps', tokens);
    } else if |tokens| > 0 {
      var n := |tokens[0]|;
      LeadingToken(s, gaps, tokens);
      WsRunsUnique(s[n..], gaps[1..], tokens[1..]);
      assert tokens == [s[..n]] + tokens[1..];
    }
  }

  /** A non-empty first gap starts `s` with whitespace; the rest of `s` has the same
      tokens. */
  lemma LeadingSpace(s: string, gaps: seq<string>, tokens: seq<string>) returns (gaps': seq<string>)
    requires WsRuns(s, gaps, tokens) && gaps[0] != ""
    ensures |s| > 0 && IsSpace(s[0]) && WsRuns(s[1..], gaps', tokens)
  {
    var c := gaps[0][0];
    gaps' := [gaps[0][1..]] + gaps[1..];
    assert gaps[0] == [c] + gaps'[0] && gaps'[1..] == gaps[1..];
    assert gaps == [[c] + gaps'[0]] + gaps'[1..];
    InterleavePrepend(c, gaps', tokens);
    assert forall i :: 0 < i < |gaps'| ==> gaps'[i] == gaps[i];
  }

  /** An empty first gap starts `s` with the first token, which is a maximal run;
      the rest of `s` has the remaining gaps and tokens. */
  lemma LeadingToken(s: string, gaps: seq<string>, tokens: seq<string>)
    requires WsRuns(s, gaps, tokens) && gaps[0] == "" && |tokens| > 0
    ensures |s| > 0 && !IsSpace(s[0]) && TokenLength(s) == |tokens[0]|
    ensures s[..|tokens[0]|] == tokens[0] && WsRuns(s[|tokens[0]|..], gaps[1..], tokens[1..])
  {
    var rest := Interleave(gaps[1..], tokens[1..]);
    assert s == tokens[0] + rest;
    GapFirst(gaps[1..], tokens[1..]);
    TokenThenSpace(s, tokens[0], rest);
    WsRunsTail(gaps, tokens);
  }

  /** A string of runs starts with whitespace unless it is empty. */
  lemma GapFirst(gaps: seq<string>, tokens: seq<string>)
    requires |gaps| == |tokens| + 1 && AllSpace(gaps[0]) && (|tokens| > 0 ==> gaps[0] != "")
    ensures var r := Interleave(gaps, tokens); |r| > 0 ==> IsSpace(r[0])
  {
  }

  lemma TokenThenSpace(s: string, t: string, rest: string)
    requires s == t + rest && t != "" && NoSpace(t) && (|rest| > 0 ==> IsSpace(rest[0]))
    ensures |s| > 0 && !IsSpace(s[0]) && TokenLength(s) == |t| && s[..|t|] == t && s[|t|..] == rest
  {
    assert s[..|t|] == t;
    assert |rest| > 0 ==> s[|t|] == rest[0];
  }

  lemma WsRunsTail(gaps: seq<string>, tokens: seq<string>)
    requires |gaps| == |tokens| + 1 && |tokens| > 0 && WsRuns(Interleave(gaps, tokens), gaps, tokens)
    ensures WsRuns(Interleave(gaps[1..], tokens[1..]), gaps[1..], tokens[1..])
  {
    assert forall i :: 0 < i < |gaps| - 1 ==> gaps[1..][i] == gaps[i + 1];
  }

  // ---------------------------------------------------------------------------
  // Grammar lines.

  const UnicodeArrow: string := "\U{2192}"
  const AsciiArrow: string := "->"
  const Bar: string := "|"
  const EpsilonToken: string := "\U{03B5}"

  lemma SeparatorsDoNotOverlap()
    ensures NoSelfOverlap(UnicodeArrow) && NoSelfOverlap(AsciiArrow) && NoSelfOverlap(Bar)
  {
    assert AsciiArrow[1..][0] != AsciiArrow[..1][0];
  }

  /** The `ValueError` raised when unpacking a split line into its two sides. */
  datatype LineError = SeparatorRepeated(line: string)

  /** A probabilistic rule as the reader builds it; the probability stays the text
      token `float()` would read. */
  datatype ProbRuleText = ProbRuleText(rule: Rule, probToken: string)

  /** The separator a stripped line is split on: `→` wins over `->`. */
  function ChosenSeparator(l: string): Option<string> {
    if Contains(l, UnicodeArrow) then Some(UnicodeArrow)
    else if Contains(l, AsciiArrow) then Some(AsciiArrow)
    else None
  }

  /** The stripped line is blank or a comment. */
  predicate Skipped(l: string) {
    l == "" || l[0] == '#'
  }

  /** The two sides of a line, `None` when the line yields no rules. */
  function Sides(line: string): Result<Option<(string, string)>, LineError> {
    var l := Strip(line);
    if Skipped(l) then Ok(None)
    else
      match ChosenSeparator(l)
      case None => Ok(None)
      case Some(sep) =>
        var parts := Split(l, sep);
        if |parts| == 2 then Ok(Some((parts[0], parts[1]))) else Err(SeparatorRepeated(line))
  }

  /** The body of one alternative: `['']` for an empty or `ε` alternative, otherwise
      its whitespace-separated tokens. */
  function Body(alternative: string): (body: seq<Symbol>)
    ensures WellFormedBody(body)
    ensures body != EpsilonBody ==> Concat(body) == RemoveSpaces(Strip(alternative))
    ensures var parts := SplitWs(Strip(alternative));
      (parts == [] || parts == [EpsilonToken]) <==> body == EpsilonBody
    ensures body != EpsilonBody ==> body == SplitWs(Strip(alternative))
  {
    var parts := SplitWs(Strip(alternative));
    if parts == [] || parts == [EpsilonToken] then EpsilonBody else parts
  }

  function RulesOf(head: Symbol, alternatives: seq<string>): (rules: seq<Rule>)
    ensures |rules| == |alternatives|
    ensures forall i :: 0 <= i < |rules| ==> rules[i] == Rule(head, Body(alternatives[i]))
  {
    if |alternatives| == 0 then []
    else [Rule(head, Body(alternatives[0]))] + RulesOf(head, alternatives[1..])
  }

  /** The rules of one line of a plain grammar file. */
  function ParseLine(line: string): Result<seq<Rule>, LineError> {
    match Sides(line)
    case Err(e) => Err(e)
    case Ok(None) => Ok([])
    case Ok(Some((left, right))) => Ok(RulesOf(Strip(left), Split(right, Bar)))
  }

  /** A probabilistic alternative holds a probability token and something before it. */
  predicate Complete(alternative: string) {
    |SplitWs(Strip(alternative))| >= 2
  }

  /** A rule read for `head`: well-formed body and a non-empty probability token. */
  predicate ReadFrom(head: Symbol, x: ProbRuleText) {
    x.rule.head == head && WellFormedBody(x.rule.body) && x.probToken != "" && NoSpace(x.probToken)
  }

  /** The rules of a probabilistic alternative: none when it has fewer than two
      tokens; otherwise the last token is the probability and the rest the body. */
  function ProbRulesOf(head: Symbol, alternatives: seq<string>): (rules: seq<ProbRuleText>)
    ensures |rules| <= |alternatives|
    ensures forall x :: x in rules ==> ReadFrom(head, x)
    ensures (forall i :: 0 <= i < |alternatives| ==> Complete(alternatives[i])) ==>
      |rules| == |alternatives|
    ensures (forall i :: 0 <= i < |alternatives| ==> !Complete(alternatives[i])) ==> rules == []
  {
    if |alternatives| == 0 then []
    else
      var rest := ProbRulesOf(head, alternatives[1..]);
      assert forall i :: 1 <= i < |alternatives| ==> alternatives[i] == alternatives[1..][i - 1];
      if !Complete(alternatives[0]) then rest
      else [ProbRuleOf(head, alternatives[0])] + rest
  }

  /** The rule of a complete probabilistic alternative: all tokens but the last form
      the body (`['']` for a lone `ε`), the last is the probability. */
  function ProbRuleOf(head: Symbol, alternative: string): (x: ProbRuleText)
    requires Complete(alternative)
    ensures ReadFrom(head, x)
    ensures var parts := SplitWs(Strip(alternative));
      x.probToken == parts[|parts| - 1] &&
      x.rule.body == if parts[..|parts| - 1] == [EpsilonToken] then EpsilonBody else parts[..|parts| - 1]
    ensures (if x.rule.body == EpsilonBody then [EpsilonToken] else x.rule.body) + [x.probToken] ==
      SplitWs(Strip(alternative))
  {
    var parts := SplitWs(Strip(alternative));
    var symbols := parts[..|parts| - 1];
    var body := if symbols == [EpsilonToken] then EpsilonBody else symbols;
    ProbRuleText(Rule(head, body), parts[|parts| - 1])
  }

  /** The positions where `flags` holds, in increasing order. */
  function TrueAt(flags: seq<bool>): (ix: seq<nat>)
    ensures forall k :: 0 <= k < |ix| ==> ix[k] < |flags| && flags[ix[k]]
    ensures forall k, k' :: 0 <= k < k' < |ix| ==> ix[k] < ix[k']
    ensures forall i :: 0 <= i < |flags| && flags[i] ==> i in ix
  {
    if |flags| == 0 then []
    else
      var last := |flags| - 1;
      var front := TrueAt(flags[..last]);
      if flags[last] then front + [last] else front
  }

  /** Which alternatives are complete. */
  function CompleteFlags(alternatives: seq<string>): (flags: seq<bool>)
    ensures |flags| == |alternatives|
  {
    seq(|alternatives|, i requires 0 <= i < |alternatives| => Complete(alternatives[i]))
  }

  /** A reference reading of a probabilistic line: one rule per complete
      alternative, read from it, in the order of the alternatives. */
  function ReadComplete(head: Symbol, alternatives: seq<string>): seq<ProbRuleText> {
    var flags := CompleteFlags(alternatives);
    var ix := TrueAt(flags);
    seq(|ix|, k requires 0 <= k < |ix| => assert flags[ix[k]]; ReadAt(head, alternatives, ix[k]))
  }

  /** The rule read from the `i`-th alternative. */
  function ReadAt(head: Symbol, alternatives: seq<string>, i: nat): ProbRuleText
    requires i < |alternatives| && Complete(alternatives[i])
  {
    ProbRuleOf(head, alternatives[i])
  }

  /** The reader's loop over the alternatives gives the reference reading: the
      `k`-th rule is read from the `k`-th complete alternative, and there is one rule
      per complete alternative. */
  lemma {:induction false} ProbRulesOfComplete(head: Symbol, alternatives: seq<string>)
    ensures ProbRulesOf(head, alternatives) == ReadComplete(head, alternatives)
    decreases |alternatives|
  {
    if |alternatives| > 0 {
      var last := |alternatives| - 1;
      var front := alternatives[..last];
      ProbRulesOfComplete(head, front);
      SnocSplit(alternatives);
      ProbRulesOfAppend(head, front, [alternatives[last]]);
      ProbRulesOfOne(head, alternatives[last]);
      ReadCompleteSnoc(head, alternatives);
    }
  }

  lemma SnocSplit<T>(s: seq<T>)
    requires |s| > 0
    ensures s == s[..|s| - 1] + [s[|s| - 1]]
  {
  }

  lemma ProbRulesOfOne(head: Symbol, a: string)
    ensures ProbRulesOf(head, [a]) == if Complete(a) then [ProbRuleOf(head, a)] else []
  {
    assert [a][1..] == [];
  }

  /** One loop step: the first alternative's rule, if any, then the rest's. */
  lemma ProbRulesOfCons(head: Symbol, alternatives: seq<string>)
    requires |alternatives| > 0
    ensures ProbRulesOf(head, alternatives) ==
      (if Complete(alternatives[0]) then [ProbRuleOf(head, alternatives[0])] else []) +
      ProbRulesOf(head, alternatives[1..])
  {
  }

  lemma ReadCompleteSnoc(head: Symbol, alternatives: seq<string>)
    requires |alternatives| > 0
    ensures var last := |alternatives| - 1; var a := alternatives[last];
      ReadComplete(head, alternatives) ==
      ReadComplete(head, alternatives[..last]) + (if Complete(a) then [ProbRuleOf(head, a)] else [])
  {
    if Complete(alternatives[|alternatives| - 1]) {
      ReadCompleteSnocRead(head, alternatives);
    } else {
      ReadCompleteSnocSkip(head, alternatives);
    }
  }

  lemma ReadCompleteSnocRead(head: Symbol, alternatives: seq<string>)
    requires |alternatives| > 0 && Complete(alternatives[|alternatives| - 1])
    ensures var last := |alternatives| - 1;
      ReadComplete(head, alternatives) ==
      ReadComplete(head, alternatives[..last]) + [ProbRuleOf(head, alternatives[last])]
  {
    var last := |alternatives| - 1;
    ReadCompleteFront(head, alternatives);
    ReadCompleteLast(head, alternatives);
    SnocJoin(ReadComplete(head, alternatives), ReadComplete(head, alternatives[..last]),
      ProbRuleOf(head, alternatives[last]));
  }

  lemma ReadCompleteSnocSkip(head: Symbol, alternatives: seq<string>)
    requires |alternatives| > 0 && !Complete(alternatives[|alternatives| - 1])
    ensures ReadComplete(head, alternatives) == ReadComplete(head, alternatives[..|alternatives| - 1])
  {
    ReadCompleteFront(head, alternatives);
  }

  /** Reading one more alternative keeps the rules read before. */
  lemma ReadCompleteFront(head: Symbol, alternatives: seq<string>)
    requires |alternatives| > 0
    ensures var front := ReadComplete(head, alternatives[..|alternatives| - 1]);
      |ReadComplete(head, alternatives)| == |front| + (if Complete(alternatives[|alternatives| - 1]) then 1 else 0) &&
      forall k :: 0 <= k < |front| ==> ReadComplete(head, alternatives)[k] == front[k]
  {
    var last := |alternatives| - 1;
    var front := alternatives[..last];
    CompleteFlagsFront(alternatives);
    TrueAtSnoc(CompleteFlags(alternatives));
    var ix, fx := TrueAt(CompleteFlags(alternatives)), TrueAt(CompleteFlags(front));
    forall k | 0 <= k < |fx|
      ensures ReadComplete(head, alternatives)[k] == ReadComplete(head, front)[k]
    {
      assert ix[k] == fx[k] && fx[k] < last;
      assert alternatives[fx[k]] == front[fx[k]];
    }
  }

  /** A complete last alternative gives the last rule. */
  lemma ReadCompleteLast(head: Symbol, alternatives: seq<string>)
    requires |alternatives| > 0 && Complete(alternatives[|alternatives| - 1])
    ensures |ReadComplete(head, alternatives)| > 0
    ensures var rules := ReadComplete(head, alternatives);
      rules[|rules| - 1] == ProbRuleOf(head, alternatives[|alternatives| - 1])
  {
    CompleteFlagsFront(alternatives);
    TrueAtSnoc(CompleteFlags(alternatives));
  }

  /** A sequence that starts with `front` and ends with `x` is `front + [x]`. */
  lemma SnocJoin<T>(whole: seq<T>, front: seq<T>, x: T)
    requires |whole| == |front| + 1 && whole[|front|] == x
    requires forall k :: 0 <= k < |front| ==> whole[k] == front[k]
    ensures whole == front + [x]
  {
  }

  lemma CompleteFlagsFront(alternatives: seq<string>)
    requires |alternatives| > 0
    ensures var last := |alternatives| - 1;
      CompleteFlags(alternatives)[..last] == CompleteFlags(alternatives[..last]) &&
      CompleteFlags(alternatives)[last] == Complete(alternatives[last])
  {
  }

  lemma TrueAtSnoc(flags: seq<bool>)
    requires |flags| > 0
    ensures var last := |flags| - 1;
      TrueAt(flags) == TrueAt(flags[..last]) + (if flags[last] then [last] else [])
  {
  }

  /** Reading the alternatives of `a + b` reads those of `a`, then those of `b`. */
  lemma ProbRulesOfAppend(head: Symbol, a: seq<string>, b: seq<string>)
    ensures ProbRulesOf(head, a + b) == ProbRulesOf(head, a) + ProbRulesOf(head, b)
  {
    ProbRulesOfConcatMap(head, a + b);
    ProbRulesOfConcatMap(head, a);
    ProbRulesOfConcatMap(head, b);
    ConcatMapAppend(AltRules(head), a, b);
  }

  /** The rules one probabilistic alternative contributes. */
  function AltRules(head: Symbol): string -> seq<ProbRuleText> {
    a => if Complete(a) then [ProbRuleOf(head, a)] else []
  }

  function ConcatMap<A, B>(f: A -> seq<B>, xs: seq<A>): seq<B> {
    if |xs| == 0 then [] else f(xs[0]) + ConcatMap(f, xs[1..])
  }

  lemma {:induction false} ConcatMapAppend<A, B>(f: A -> seq<B>, a: seq<A>, b: seq<A>)
    ensures ConcatMap(f, a + b) == ConcatMap(f, a) + ConcatMap(f, b)
    decreases |a|
  {
    if |a| == 0 {
      assert a + b == b;
    } else {
      assert (a + b)[0] == a[0];
      assert (a + b)[1..] == a[1..] + b;
      ConcatMapAppend(f, a[1..], b);
    }
  }

  lemma {:induction false} ProbRulesOfConcatMap(head: Symbol, alternatives: seq<string>)
    ensures ProbRulesOf(head, alternatives) == ConcatMap(AltRules(head), alternatives)
    decreases |alternatives|
  {
    if |alternatives| > 0 {
      ProbRulesOfCons(head, alternatives);
      ProbRulesOfConcatMap(head, alternatives[1..]);
    }
  }

  /** The rules of one line of a probabilistic grammar file. */
  function ParseProbLine(line: string): Result<seq<ProbRuleText>, LineError> {
    match Sides(line)
    case Err(e) => Err(e)
    case Ok(None) => Ok([])
    case Ok(Some((left, right))) => Ok(ProbRulesOf(Strip(left), Split(right, Bar)))
  }

  /** Two distinct occurrences count at least twice. */
  lemma {:induction false} TwoOccurrences(s: string, sep: string, a: int, b: int)
    requires |sep| > 0 && a < b && OccursAt(s, sep, a) && OccursAt(s, sep, b)
    ensures Occurrences(s, sep) >= 2
    decreases |s|
  {
    assert s[1..][b - 1..b - 1 + |sep|] == s[b..b + |sep|];
    if a == 0 {
      assert s[..|sep|] == s[a..a + |sep|];
      assert OccursAt(s[1..], sep, b - 1);
      OccurrencesContains(s[1..], sep);
    } else {
      assert s[1..][a - 1..a - 1 + |sep|] == s[a..a + |sep|];
      TwoOccurrences(s[1..], sep, a - 1, b - 1);
    }
  }

  lemma ChosenSeparatorFacts(l: string)
    requires ChosenSeparator(l).Some?
    ensures var sep := ChosenSeparator(l).value;
      |sep| > 0 && NoSelfOverlap(sep) && Occurrences(l, sep) > 0
  {
    SeparatorsDoNotOverlap();
    OccurrencesContains(l, ChosenSeparator(l).value);
  }

  /** A line raises exactly when it is neither blank nor a comment and its separator
      (`→` if present, else `->`) occurs more than once. Both kinds of file agree,
      since the probability token is kept as text and never passed to `float`. */
  lemma LineFailsIffSeparatorRepeated(line: string)
    ensures var l := Strip(line);
      ParseLine(line).Err? <==>
        !Skipped(l) && ChosenSeparator(l).Some? && Occurrences(l, ChosenSeparator(l).value) >= 2
    ensures ParseProbLine(line).Err? <==> ParseLine(line).Err?
  {
    var l := Strip(line);
    if !Skipped(l) && ChosenSeparator(l).Some? {
      ChosenSeparatorFacts(l);
      SplitCount(l, ChosenSeparator(l).value);
    }
  }

  /** A line yields no rules, in either kind of file, exactly when it is blank, a
      comment, or holds neither arrow; any other line yields a rule or raises. */
  lemma LineWithoutRules(line: string)
    ensures var l := Strip(line);
      ParseLine(line) == Ok([]) <==> Skipped(l) || ChosenSeparator(l).None?
    ensures var l := Strip(line);
      Skipped(l) || ChosenSeparator(l).None? ==> ParseProbLine(line) == Ok([])
  {
    var l := Strip(line);
    if !Skipped(l) && ChosenSeparator(l).Some? {
      var sep := ChosenSeparator(l).value;
      var parts := Split(l, sep);
      if |parts| == 2 {
        assert |Split(parts[1], Bar)| > 0;
      }
    }
  }

  /** A line whose separator occurs once, at position `p`: one rule per `|`-separated
      alternative of the text after the separator, each headed by the stripped text
      before it, each body read from its alternative. */
  lemma LineWithOneSeparator(line: string, sep: string, p: int)
    requires !Skipped(Strip(line)) && ChosenSeparator(Strip(line)) == Some(sep)
    requires OccursAt(Strip(line), sep, p) && Occurrences(Strip(line), sep) == 1
    ensures ParseLine(line).Ok?
    ensures var l := Strip(line); var rules := ParseLine(line).value;
      var alternatives := Split(l[p + |sep|..], Bar);
      |rules| == Occurrences(l[p + |sep|..], Bar) + 1 &&
      |rules| == |alternatives| &&
      forall i :: 0 <= i < |rules| ==> rules[i] == Rule(Strip(l[..p]), Body(alternatives[i]))
  {
    var l := Strip(line);
    LineAtOnlySeparator(line, sep, p);
    SeparatorsDoNotOverlap();
    SplitCount(l[p + |sep|..], Bar);
  }

  lemma LineAtOnlySeparator(line: string, sep: string, p: int)
    requires !Skipped(Strip(line)) && ChosenSeparator(Strip(line)) == Some(sep)
    requires OccursAt(Strip(line), sep, p) && Occurrences(Strip(line), sep) == 1
    ensures var l := Strip(line);
      ParseLine(line) == Ok(RulesOf(Strip(l[..p]), Split(l[p + |sep|..], Bar)))
  {
    var l := Strip(line);
    ChosenSeparatorFacts(l);
    SplitAtOnlyOccurrence(l, sep, p);
    assert Sides(line) == Ok(Some((l[..p], l[p + |sep|..])));
  }

  /** A separator that occurs exactly once, at `p`, splits `l` into the text before
      and the text after it. */
  lemma SplitAtOnlyOccurrence(l: string, sep: string, p: int)
    requires |sep| > 0 && NoSelfOverlap(sep)
    requires OccursAt(l, sep, p) && Occurrences(l, sep) == 1
    ensures Split(l, sep) == [l[..p], l[p + |sep|..]]
  {
    SplitCount(l, sep);
    SplitJoin(l, sep);
    var parts := Split(l, sep);
    assert |parts| == 2;
    assert parts[1..] == [parts[1]];
    assert l == Join(parts, sep) == parts[0] + sep + parts[1];
    var n := |parts[0]|;
    assert OccursAt(l, sep, n) by {
      assert l[n..n + |sep|] == sep;
    }
    if n < p {
      TwoOccurrences(l, sep, n, p);
    } else if p < n {
      TwoOccurrences(l, sep, p, n);
    }
    assert parts[0] == l[..p];
    assert parts[1] == l[p + |sep|..];
  }

  /** The loop of `llegir_gramatica` over the per-line results: the rules of every
      line in order, and the first line that raises stops the reading with its
      error. */
  function ReadLines<T>(results: seq<Result<seq<T>, LineError>>): (r: Result<seq<T>, LineError>)
    ensures r.Ok? <==> forall i :: 0 <= i < |results| ==> results[i].Ok?
    ensures r.Err? ==>
      exists i :: 0 <= i < |results| && results[i] == Err(r.error) &&
        forall j :: 0 <= j < i ==> results[j].Ok?
  {
    if |results| == 0 then Ok([])
    else
      var rest := ReadLines(results[1..]);
      match results[0]
      case Err(e) => Err(e)
      case Ok(rs) =>
        assert forall i :: 1 <= i < |results| ==> results[i] == results[1..][i - 1];
        match rest
        case Err(e) => Err(e)
        case Ok(more) => Ok(rs + more)
  }

  function Concat2<T>(xss: seq<seq<T>>): seq<T> {
    if |xss| == 0 then [] else xss[0] + Concat2(xss[1..])
  }

  /** When no line raises, the rules read are the rules of each line, line after line. */
  lemma {:induction false} ReadLinesConcat<T>(results: seq<Result<seq<T>, LineError>>)
    requires forall i :: 0 <= i < |results| ==> results[i].Ok?
    ensures ReadLines(results) == Ok(Concat2(seq(|results|, i requires 0 <= i < |results| => results[i].value)))
  {
    if |results| > 0 {
      var rest := results[1..];
      ReadLinesConcat(rest);
      var values := seq(|results|, i requires 0 <= i < |results| => results[i].value);
      assert values[1..] == seq(|rest|, i requires 0 <= i < |rest| => rest[i].value);
    }
  }

  /** `llegir_gramatica` over the lines of a file. */
  function ReadGrammar(lines: seq<string>): Result<seq<Rule>, LineError> {
    ReadLines(seq(|lines|, i requires 0 <= i < |lines| => ParseLine(lines[i])))
  }

  /** The rules of each line, when no line raises. */
  function LineRules(lines: seq<string>): (blocks: seq<seq<Rule>>)
    requires forall i :: 0 <= i < |lines| ==> ParseLine(lines[i]).Ok?
    ensures |blocks| == |lines|
  {
    seq(|lines|, i requires 0 <= i < |lines| => ParseLine(lines[i]).value)
  }

  /** A grammar file's rules are the rules of its lines, line after line. */
  lemma ReadGrammarIsLineByLine(lines: seq<string>)
    requires forall i :: 0 <= i < |lines| ==> ParseLine(lines[i]).Ok?
    ensures ReadGrammar(lines) == Ok(Concat2(LineRules(lines)))
  {
    var results := seq(|lines|, i requires 0 <= i < |lines| => ParseLine(lines[i]));
    ReadLinesConcat(results);
    assert seq(|results|, i requires 0 <= i < |results| => results[i].value) == LineRules(lines);
  }

  /** `llegir_gramatica(path, probabilistica=True)` over the lines of a file. */
  function ReadProbGrammar(lines: seq<string>): Result<seq<ProbRuleText>, LineError> {
    ReadLines(seq(|lines|, i requires 0 <= i < |lines| => ParseProbLine(lines[i])))
  }

  /** The probabilistic rules of each line, when no line raises. */
  function ProbLineRules(lines: seq<string>): (blocks: seq<seq<ProbRuleText>>)
    requires forall i :: 0 <= i < |lines| ==> ParseProbLine(lines[i]).Ok?
    ensures |blocks| == |lines|
  {
    seq(|lines|, i requires 0 <= i < |lines| => ParseProbLine(lines[i]).value)
  }

  /** A probabilistic grammar file's rules are those of its lines, line after line. */
  lemma ReadProbGrammarIsLineByLine(lines: seq<string>)
    requires forall i :: 0 <= i < |lines| ==> ParseProbLine(lines[i]).Ok?
    ensures ReadProbGrammar(lines) == Ok(Concat2(ProbLineRules(lines)))
  {
    var results := seq(|lines|, i requires 0 <= i < |lines| => ParseProbLine(lines[i]));
    ReadLinesConcat(results);
    assert seq(|results|, i requires 0 <= i < |results| => results[i].value) == ProbLineRules(lines);
  }

  /** `llegir_paraula`: the stripped text, one symbol per character. */
  function ReadWord(text: string): (word: seq<Symbol>)
    ensures forall i :: 0 <= i < |word| ==> |word[i]| == 1
    ensures Concat(word) == Strip(text)
  {
    var t := Strip(text);
    var word := seq(|t|, i requires 0 <= i < |t| => [t[i]]);
    ConcatSingles(t, word);
    word
  }

  lemma ConcatSingles(t: string, word: seq<Symbol>)
    requires |word| == |t| && forall i :: 0 <= i < |t| ==> word[i] == [t[i]]
    ensures Concat(word) == t
  {
    if |t| > 0 {
      ConcatSingles(t[1..], word[1..]);
    }
  }
}
