/** What the lexer of src/parser.rs guarantees: the ordered choice reads the first
    spelling that occurs and never shadows one keyword by another, spans cover exactly
    the token text, whitespace never yields a token, and any input made of spellings
    and whitespace lexes back to exactly its tokens. */
module LexerProperties {
  import opened Tokens
  import opened Lexer

  lemma SkipWhitespaceIdempotent(s: string, i: nat)
    requires i <= |s|
    ensures SkipWhitespace(s, SkipWhitespace(s, i)) == SkipWhitespace(s, i)
  {
  }

  /** Skipping from the start of a run of whitespace `g` stops right after it when no
      whitespace follows. */
  lemma SkipWhitespaceOver(s: string, i: nat, g: string)
    requires i + |g| <= |s| && s[i..i + |g|] == g && AllWhitespace(g)
    requires i + |g| == |s| || !IsWhitespace(s[i + |g|])
    ensures SkipWhitespace(s, i) == i + |g|
  {
    forall k | i <= k < i + |g| ensures IsWhitespace(s[k]) {
      assert s[k] == g[k - i];
    }
  }

  /** No spelling is a prefix of a different one; `register` and `restricted` part
      at their third character. */
  lemma SpellingsPrefixFree(t: Token, u: Token)
    requires Lexable(t) && Lexable(u)
    requires |Spelling(t)| <= |Spelling(u)| && Spelling(u)[..|Spelling(t)|] == Spelling(t)
    ensures t == u
  {
    assert Spelling(u)[0] == Spelling(t)[0];
    if |Spelling(t)| > 2 {
      assert Spelling(u)[2] == Spelling(t)[2];
    }
  }

  /** At most one spelling occurs at any index, so the order in which the choice tries
      its alternatives never decides which token is read. */
  lemma AtMostOneSpelling(s: string, j: nat, t: Token, u: Token)
    requires Lexable(t) && MatchesAt(s, j, Spelling(t))
    requires Lexable(u) && MatchesAt(s, j, Spelling(u))
    ensures t == u
  {
    var a, b := Spelling(t), Spelling(u);
    if |a| <= |b| {
      SharedPrefix(s, j, a, b);
      SpellingsPrefixFree(t, u);
    } else {
      SharedPrefix(s, j, b, a);
      SpellingsPrefixFree(u, t);
    }
  }

  /** Two texts occurring at the same index: the shorter is a prefix of the longer. */
  lemma SharedPrefix(s: string, j: nat, a: string, b: string)
    requires |a| <= |b| && MatchesAt(s, j, a) && MatchesAt(s, j, b)
    ensures b[..|a|] == a
  {
    forall k | 0 <= k < |a| ensures b[k] == a[k] {
      assert b[k] == s[j..j + |b|][k] == s[j + k];
      assert a[k] == s[j..j + |a|][k] == s[j + k];
    }
  }

  /** Whenever the spelling of `t` occurs at `j`, the ordered choice reads `t` there,
      whatever alternatives are tried before it: `restricted` is read although
      `register` is tried first. */
  lemma MatchTokenUnique(s: string, j: nat, t: Token)
    requires Lexable(t) && MatchesAt(s, j, Spelling(t))
    ensures MatchToken(s, j) == Matched(t, j + |Spelling(t)|)
  {
    var r := MatchToken(s, j);
    AtMostOneSpelling(s, j, t, r.token);
  }

  /** The ordered choice reads the first alternative, in the order tried, whose
      spelling occurs at `j`. */
  lemma {:induction false} MatchFirstTakesFirst(s: string, j: nat, alts: seq<Token>, q: nat)
    requires AllLexable(alts) && q < |alts| && MatchesAt(s, j, Spelling(alts[q]))
    requires forall p :: 0 <= p < q ==> !MatchesAt(s, j, Spelling(alts[p]))
    ensures MatchFirst(s, j, alts) == Matched(alts[q], j + |Spelling(alts[q])|)
    decreases q
  {
    if q > 0 {
      var tail := alts[1..];
      assert forall p :: 0 <= p < |tail| ==> tail[p] == alts[p + 1];
      MatchFirstTakesFirst(s, j, tail, q - 1);
    }
  }

  /** One round of the repetition when an alternative matches after the whitespace.
      The token `t` and its end `e` are named by the caller so that the equations
      mention no `MatchToken(..).token` term, which keeps the solver fast. */
  lemma LexFromStep(s: string, i: nat, t: Token, e: nat)
    requires i <= |s| && MatchToken(s, SkipWhitespace(s, i)) == Matched(t, e)
    ensures e <= |s|
    ensures LexFrom(s, i).tokens == [(t, Span(SkipWhitespace(s, i), e))] + LexFrom(s, SkipWhitespace(s, e)).tokens
    ensures LexFrom(s, i).rest == LexFrom(s, SkipWhitespace(s, e)).rest
  {
  }

  /** The repetition when no alternative matches after the whitespace: nothing is read
      and the whitespace is given back. */
  lemma LexFromNone(s: string, i: nat)
    requires i <= |s| && MatchToken(s, SkipWhitespace(s, i)).NoMatch?
    ensures LexFrom(s, i).tokens == [] && LexFrom(s, i).rest == i
  {
  }

  /** The repetition ends where no alternative matches after whitespace; a run without
      tokens consumes nothing (the failed attempt is undone), and a run with tokens
      ends after the whitespace that follows its last token. */
  lemma {:induction false} LexFromStops(s: string, i: nat)
    requires i <= |s|
    ensures MatchToken(s, SkipWhitespace(s, LexFrom(s, i).rest)).NoMatch?
    ensures LexFrom(s, i).tokens == [] ==> LexFrom(s, i).rest == i
    ensures LexFrom(s, i).tokens != [] ==> LexFrom(s, i).rest == SkipWhitespace(s, LexFrom(s, i).rest)
    decreases |s| - i
  {
    var j := SkipWhitespace(s, i);
    var m := MatchToken(s, j);
    if m.Matched? {
      var n := SkipWhitespace(s, m.end);
      LexFromStops(s, n);
      var next := LexFrom(s, n);
      assert LexFrom(s, i).rest == next.rest;
      assert LexFrom(s, i).tokens == [(m.token, Span(j, m.end))] + next.tokens;
      if next.tokens == [] {
        SkipWhitespaceIdempotent(s, m.end);
      }
    }
  }

  /** Skipping whitespace before the repetition does not change the tokens it reads. */
  lemma LexFromAfterWhitespace(s: string, i: nat)
    requires i <= |s|
    ensures LexFrom(s, SkipWhitespace(s, i)).tokens == LexFrom(s, i).tokens
    ensures LexFrom(s, i).tokens != [] ==> LexFrom(s, SkipWhitespace(s, i)).rest == LexFrom(s, i).rest
    ensures LexFrom(s, i).tokens == [] ==> LexFrom(s, SkipWhitespace(s, i)).rest == SkipWhitespace(s, i)
  {
    SkipWhitespaceIdempotent(s, i);
  }

  /** Every span lies within `[lo, hi)` and covers exactly the spelling of its token. */
  predicate SpansWithin(s: string, ts: seq<(Token, Span)>, lo: nat, hi: nat) {
    forall k :: 0 <= k < |ts| ==> lo <= ts[k].1.start && ts[k].1.end <= hi && SpannedAt(s, ts[k].0, ts[k].1)
  }

  /** The spans come in input order without overlapping. */
  predicate InOrder(ts: seq<(Token, Span)>) {
    forall k, q :: 0 <= k < q < |ts| ==> ts[k].1.end <= ts[q].1.start
  }

  /** A token placed before the tokens of a later stretch keeps both properties. */
  lemma SpansCons(s: string, x: (Token, Span), ts: seq<(Token, Span)>, lo: nat, mid: nat, hi: nat)
    requires SpannedAt(s, x.0, x.1) && lo <= x.1.start && x.1.end <= mid
    requires SpansWithin(s, ts, mid, hi) && InOrder(ts) && mid <= hi
    ensures SpansWithin(s, [x] + ts, lo, hi) && InOrder([x] + ts)
  {
    var xs := [x] + ts;
    assert forall q :: 0 < q < |xs| ==> xs[q] == ts[q - 1];
  }

  /** Every span lies inside the part of the input read, covers exactly the spelling of
      its token, and the spans come in input order without overlapping. */
  lemma {:induction false} LexFromSpans(s: string, i: nat)
    requires i <= |s|
    ensures SpansWithin(s, LexFrom(s, i).tokens, i, LexFrom(s, i).rest)
    ensures InOrder(LexFrom(s, i).tokens)
    decreases |s| - i
  {
    var j := SkipWhitespace(s, i);
    var m := MatchToken(s, j);
    if m.Matched? {
      var t, e := m.token, m.end;
      var n := SkipWhitespace(s, e);
      LexFromStep(s, i, t, e);
      LexFromSpans(s, n);
      SpansCons(s, (t, Span(j, e)), LexFrom(s, n).tokens, i, n, LexFrom(s, n).rest);
    } else {
      LexFromNone(s, i);
    }
  }

  /** The same for a whole input. */
  lemma LexSpans(s: string)
    ensures forall k :: 0 <= k < |Lex(s).tokens| ==>
      Lex(s).tokens[k].1.end <= Lex(s).rest && SpannedAt(s, Lex(s).tokens[k].0, Lex(s).tokens[k].1)
    ensures forall k, q :: 0 <= k < q < |Lex(s).tokens| ==> Lex(s).tokens[k].1.end <= Lex(s).tokens[q].1.start
  {
    LexFromSpans(s, 0);
    assert Lex(s) == LexFrom(s, 0);
  }

  /** The lexer never produces a number or an identifier token. */
  lemma LexOnlyKeywords(s: string)
    ensures forall k :: 0 <= k < |Lex(s).tokens| ==> !Lex(s).tokens[k].0.Num? && !Lex(s).tokens[k].0.Ident?
  {
    LexSpans(s);
  }

  /** Lexing a whole input stops where no spelling follows the whitespace; with no
      token read it stops at the very start. */
  lemma LexStops(s: string)
    ensures MatchToken(s, SkipWhitespace(s, Lex(s).rest)).NoMatch?
    ensures Lex(s).tokens == [] ==> Lex(s).rest == 0
    ensures Lex(s).tokens != [] ==> SkipWhitespace(s, Lex(s).rest) == Lex(s).rest
  {
    LexFromStops(s, 0);
    assert Lex(s) == LexFrom(s, 0);
  }

  /** The text left once every whitespace character is deleted. */
  function RemoveWhitespace(s: string): string {
    if s == [] then []
    else (if IsWhitespace(s[0]) then [] else [s[0]]) + RemoveWhitespace(s[1..])
  }

  lemma {:induction false} RemoveWhitespaceAppend(a: string, b: string)
    ensures RemoveWhitespace(a + b) == RemoveWhitespace(a) + RemoveWhitespace(b)
  {
    if a != [] {
      var h := if IsWhitespace(a[0]) then [] else [a[0]];
      assert RemoveWhitespace(a) == h + RemoveWhitespace(a[1..]);
      assert (a + b)[0] == a[0];
      assert (a + b)[1..] == a[1..] + b;
      assert RemoveWhitespace(a + b) == h + RemoveWhitespace(a[1..] + b);
      RemoveWhitespaceAppend(a[1..], b);
    } else {
      assert a + b == b;
    }
  }

  /** Deleting whitespace from a slice cut at four points, piece by piece. */
  lemma RemoveWhitespaceSlices(s: string, i: nat, j: nat, e: nat, n: nat, r: nat)
    requires i <= j <= e <= n <= r <= |s|
    ensures RemoveWhitespace(s[i..r])
         == RemoveWhitespace(s[i..j]) + RemoveWhitespace(s[j..e]) + RemoveWhitespace(s[e..n]) + RemoveWhitespace(s[n..r])
  {
    assert s[i..r] == s[i..n] + s[n..r];
    assert s[i..n] == s[i..e] + s[e..n];
    assert s[i..e] == s[i..j] + s[j..e];
    RemoveWhitespaceAppend(s[i..n], s[n..r]);
    RemoveWhitespaceAppend(s[i..e], s[e..n]);
    RemoveWhitespaceAppend(s[i..j], s[j..e]);
  }

  lemma {:induction false} RemoveWhitespaceOfWhitespace(a: string)
    requires AllWhitespace(a)
    ensures RemoveWhitespace(a) == []
  {
    if a != [] {
      RemoveWhitespaceOfWhitespace(a[1..]);
    }
  }

  lemma {:induction false} RemoveWhitespaceOfText(a: string)
    requires forall k :: 0 <= k < |a| ==> !IsWhitespace(a[k])
    ensures RemoveWhitespace(a) == a
  {
    if a != [] {
      RemoveWhitespaceOfText(a[1..]);
    }
  }

  /** The spellings of a token list, concatenated (a kind without a spelling adds nothing). */
  function Texts(ts: seq<(Token, Span)>): string {
    if ts == [] then []
    else (if Lexable(ts[0].0) then Spelling(ts[0].0) else []) + Texts(ts[1..])
  }

  lemma TextsCons(x: (Token, Span), ts: seq<(Token, Span)>)
    ensures Texts([x] + ts) == (if Lexable(x.0) then Spelling(x.0) else []) + Texts(ts)
  {
    assert ([x] + ts)[1..] == ts;
  }

  /** The whitespace skipped before a token leaves nothing once whitespace is deleted. */
  lemma SkipWhitespaceRemoved(s: string, i: nat)
    requires i <= |s|
    ensures RemoveWhitespace(s[i..SkipWhitespace(s, i)]) == []
  {
    RemoveWhitespaceOfWhitespace(s[i..SkipWhitespace(s, i)]);
  }

  /** The text of a matched token keeps all of its characters. */
  lemma MatchedRemoved(s: string, j: nat)
    requires MatchToken(s, j).Matched?
    ensures RemoveWhitespace(s[j..MatchToken(s, j).end]) == Spelling(MatchToken(s, j).token)
  {
    RemoveWhitespaceOfText(s[j..MatchToken(s, j).end]);
  }

  lemma CoverageStep(s: string, i: nat, j: nat, e: nat, n: nat, r: nat, w: string, rest: string)
    requires i <= j <= e <= n <= r <= |s|
    requires RemoveWhitespace(s[i..j]) == [] && RemoveWhitespace(s[j..e]) == w
    requires RemoveWhitespace(s[e..n]) == [] && RemoveWhitespace(s[n..r]) == rest
    ensures RemoveWhitespace(s[i..r]) == w + rest
  {
    RemoveWhitespaceSlices(s, i, j, e, n, r);
  }

  /** The text the repetition consumed, with whitespace deleted, is exactly the
      concatenated spellings of its tokens: whitespace never yields a token, and
      nothing but whitespace lies between tokens. */
  lemma {:induction false} LexFromCoverage(s: string, i: nat)
    requires i <= |s|
    ensures RemoveWhitespace(s[i..LexFrom(s, i).rest]) == Texts(LexFrom(s, i).tokens)
    decreases |s| - i
  {
    var j := SkipWhitespace(s, i);
    var m := MatchToken(s, j);
    if m.Matched? {
      var e := m.end;
      var n := SkipWhitespace(s, e);
      LexFromStep(s, i, m.token, e);
      LexFromCoverage(s, n);
      var next := LexFrom(s, n);
      TextsCons((m.token, Span(j, e)), next.tokens);
      SkipWhitespaceRemoved(s, i);
      MatchedRemoved(s, j);
      SkipWhitespaceRemoved(s, e);
      CoverageStep(s, i, j, e, n, next.rest, Spelling(m.token), Texts(next.tokens));
    } else {
      LexFromNone(s, i);
      assert s[i..i] == [];
    }
  }

  /** Lexing a whole input: the characters outside the spans are all whitespace. */
  lemma LexCoverage(s: string)
    ensures RemoveWhitespace(s[..Lex(s).rest]) == Texts(Lex(s).tokens)
  {
    LexFromCoverage(s, 0);
    assert Lex(s) == LexFrom(s, 0);
    assert s[..Lex(s).rest] == s[0..Lex(s).rest];
  }

  /** The token kinds of a lexer result, in order. */
  function Kinds(ts: seq<(Token, Span)>): seq<Token> {
    if ts == [] then [] else [ts[0].0] + Kinds(ts[1..])
  }

  /** The text `gaps[0] t0 gaps[1] t1 ... gaps[n]`: tokens spelled out with the given
      runs of whitespace around them. */
  function Layout(toks: seq<Token>, gaps: seq<string>): string
    requires |gaps| == |toks| + 1 && forall k :: 0 <= k < |toks| ==> Lexable(toks[k])
  {
    if toks == [] then gaps[0] else gaps[0] + Spelling(toks[0]) + Layout(toks[1..], gaps[1..])
  }

  /** One whitespace run (possibly empty) around each token, and only lexable kinds. */
  predicate LayoutOk(toks: seq<Token>, gaps: seq<string>) {
    |gaps| == |toks| + 1
    && (forall k :: 0 <= k < |toks| ==> Lexable(toks[k]))
    && (forall k :: 0 <= k < |gaps| ==> AllWhitespace(gaps[k]))
  }

  /** Cutting the text after `i` into three consecutive pieces. */
  lemma SplitAt(s: string, i: nat, a: string, b: string, c: string)
    requires i <= |s| && s[i..] == a + b + c
    ensures i + |a| + |b| + |c| == |s|
    ensures s[i..i + |a|] == a && s[i + |a|..i + |a| + |b|] == b && s[i + |a| + |b|..] == c
  {
    assert s[i..i + |a|] == s[i..][..|a|];
    assert s[i + |a|..i + |a| + |b|] == s[i..][|a|..|a| + |b|];
    assert s[i + |a| + |b|..] == s[i..][|a| + |b|..];
  }

  lemma KindsCons(x: (Token, Span), ts: seq<(Token, Span)>)
    ensures Kinds([x] + ts) == [x.0] + Kinds(ts)
  {
    assert ([x] + ts)[1..] == ts;
  }

  lemma LayoutTail(toks: seq<Token>, gaps: seq<string>)
    requires LayoutOk(toks, gaps) && toks != []
    ensures LayoutOk(toks[1..], gaps[1..])
    ensures Layout(toks, gaps) == gaps[0] + Spelling(toks[0]) + Layout(toks[1..], gaps[1..])
  {
    assert forall k :: 0 <= k < |gaps| - 1 ==> gaps[1..][k] == gaps[k + 1];
  }

  /** A token whose spelling follows a run of whitespace is read right after that run.
      The end index `e` is a parameter pinned by the requires: naming it keeps the
      solver from rebuilding `i + |g| + |Spelling(t)|` in every term. */
  lemma FirstToken(s: string, i: nat, g: string, t: Token, e: nat)
    requires Lexable(t) && AllWhitespace(g) && e == i + |g| + |Spelling(t)| && e <= |s|
    requires s[i..i + |g|] == g && s[i + |g|..e] == Spelling(t)
    ensures SkipWhitespace(s, i) == i + |g|
    ensures MatchToken(s, SkipWhitespace(s, i)) == Matched(t, e)
  {
    var j := i + |g|;
    FirstTokenStart(s, i, g, j, Spelling(t));
    MatchTokenUnique(s, j, t);
  }

  lemma FirstTokenStart(s: string, i: nat, g: string, j: nat, w: string)
    requires AllWhitespace(g) && j == i + |g| && |w| > 0 && !IsWhitespace(w[0])
    requires j + |w| <= |s| && s[i..j] == g && s[j..j + |w|] == w
    ensures SkipWhitespace(s, i) == j
  {
    assert s[j] == w[0];
    SkipWhitespaceOver(s, i, g);
  }

  /** The pieces of a layout, as slices of the text that holds it from index `i`. */
  lemma LayoutSplit(s: string, i: nat, toks: seq<Token>, gaps: seq<string>, g: string, t: Token, e: nat)
    requires LayoutOk(toks, gaps) && toks != [] && g == gaps[0] && t == toks[0]
    requires i <= |s| && s[i..] == Layout(toks, gaps) && Lexable(t) && e == i + |g| + |Spelling(t)|
    ensures AllWhitespace(g) && LayoutOk(toks[1..], gaps[1..]) && e <= |s|
    ensures s[i..i + |g|] == g && s[i + |g|..e] == Spelling(t)
    ensures s[e..] == Layout(toks[1..], gaps[1..])
  {
    LayoutTail(toks, gaps);
    SplitAt(s, i, g, Spelling(t), Layout(toks[1..], gaps[1..]));
  }

  /** Whitespace running to the end of the text is skipped to the end. */
  lemma SkipToEnd(s: string, e: nat, h: string)
    requires e <= |s| && s[e..] == h && AllWhitespace(h)
    ensures SkipWhitespace(s, e) == |s|
  {
    assert s[e..e + |h|] == h;
    SkipWhitespaceOver(s, e, h);
  }

  /** What one round of the repetition reads from a layout: its first token `t`, right
      after the leading whitespace `g`, leaving the layout of the remaining tokens.
      `g`, `t` and `e` are pinned by the requires; passing them named keeps sequence
      elements and sums out of the terms, which keeps the solver fast. */
  lemma LayoutStep(s: string, i: nat, toks: seq<Token>, gaps: seq<string>, g: string, t: Token, e: nat)
    requires LayoutOk(toks, gaps) && toks != [] && g == gaps[0] && t == toks[0]
    requires i <= |s| && s[i..] == Layout(toks, gaps) && Lexable(t) && e == i + |g| + |Spelling(t)|
    ensures e <= |s| && LayoutOk(toks[1..], gaps[1..]) && s[e..] == Layout(toks[1..], gaps[1..])
    ensures MatchToken(s, SkipWhitespace(s, i)) == Matched(t, e)
    ensures toks[1..] == [] ==> SkipWhitespace(s, e) == |s|
  {
    LayoutSplit(s, i, toks, gaps, g, t, e);
    FirstToken(s, i, g, t, e);
    if toks[1..] == [] {
      assert Layout(toks[1..], gaps[1..]) == gaps[1];
      SkipToEnd(s, e, gaps[1]);
    }
  }

  lemma ConsSplit<T>(xs: seq<T>)
    requires xs != []
    ensures xs == [xs[0]] + xs[1..]
  {
  }

  /** A layout read from `i` lexes to exactly its token kinds, in order. With at least
      one token the repetition consumes the text to the end; with none it stops at `i`,
      since the failed attempt gives back the whitespace it skipped. */
  lemma {:induction false} LexFromLayout(s: string, i: nat, toks: seq<Token>, gaps: seq<string>)
    requires LayoutOk(toks, gaps) && i <= |s| && s[i..] == Layout(toks, gaps)
    ensures Kinds(LexFrom(s, i).tokens) == toks
    ensures LexFrom(s, i).rest == if toks == [] then i else |s|
    decreases |toks|
  {
    var g := gaps[0];
    if toks == [] {
      assert s[i..] == g + [] + [];
      SplitAt(s, i, g, [], []);
      SkipWhitespaceOver(s, i, g);
      LexFromNone(s, i);
    } else {
      var t := toks[0];
      var e := i + |g| + |Spelling(t)|;
      LayoutStep(s, i, toks, gaps, g, t, e);
      LexFromStep(s, i, t, e);
      LexFromLayout(s, e, toks[1..], gaps[1..]);
      LexFromAfterWhitespace(s, e);
      KindsCons((t, Span(i + |g|, e)), LexFrom(s, SkipWhitespace(s, e)).tokens);
      ConsSplit(toks);
    }
  }

  /** Any input made of the seven spellings, with whitespace before, between and after
      them (none required between tokens), lexes to exactly those tokens in order and
      is consumed whole; an input of whitespace alone consumes nothing. */
  lemma LexLayout(toks: seq<Token>, gaps: seq<string>)
    requires LayoutOk(toks, gaps)
    ensures Kinds(Lex(Layout(toks, gaps)).tokens) == toks
    ensures Lex(Layout(toks, gaps)).rest == if toks == [] then 0 else |Layout(toks, gaps)|
  {
    var s := Layout(toks, gaps);
    assert s[0..] == s;
    LexFromLayout(s, 0, toks, gaps);
    assert Lex(s) == LexFrom(s, 0);
  }

  /** Empty or whitespace-only input yields no tokens. */
  lemma LexWhitespaceOnly(g: string)
    requires AllWhitespace(g)
    ensures Lex(g) == Lexed([], 0)
  {
    SkipWhitespaceOver(g, 0, g);
    assert g[0..|g|] == g;
  }

  /** Each spelling, padded with any whitespace, lexes to its one token, whose span is
      that of the spelling alone. The text `s` and the end `e` of the spelling are
      pinned by the requires; they are parameters because stating the contract on
      `Lex(before + Spelling(t) + after)` directly makes the proof several times
      more expensive. */
  lemma LexPadded(s: string, before: string, t: Token, after: string, e: nat)
    requires Lexable(t) && AllWhitespace(before) && AllWhitespace(after)
    requires s == before + Spelling(t) + after && e == |before| + |Spelling(t)|
    ensures Lex(s).tokens == [(t, Span(|before|, e))]
    ensures Lex(s).rest == |s|
  {
    PaddedToken(s, before, t, after, e);
    LexLast(s, |before|, t, e);
  }

  /** Each spelling lexed on its own gives exactly its token, spanning the whole text. */
  lemma LexAlone(t: Token)
    requires Lexable(t)
    ensures Lex(Spelling(t)).tokens == [(t, Span(0, |Spelling(t)|))]
    ensures Lex(Spelling(t)).rest == |Spelling(t)|
  {
    assert [] + Spelling(t) + [] == Spelling(t);
    LexPadded(Spelling(t), [], t, [], |Spelling(t)|);
  }

  /** Where the repetition finds the one token of a padded spelling. */
  lemma PaddedToken(s: string, g: string, t: Token, h: string, e: nat)
    requires Lexable(t) && AllWhitespace(g) && AllWhitespace(h) && s == g + Spelling(t) + h
    requires e == |g| + |Spelling(t)|
    ensures SkipWhitespace(s, 0) == |g|
    ensures MatchToken(s, |g|) == Matched(t, e)
    ensures SkipWhitespace(s, e) == |s|
  {
    assert s[0..] == s;
    SplitAt(s, 0, g, Spelling(t), h);
    FirstToken(s, 0, g, t, e);
    SkipToEnd(s, e, h);
  }

  /** A round that reads `t` and leaves only whitespace ends the repetition. */
  lemma LexLast(s: string, j: nat, t: Token, e: nat)
    requires SkipWhitespace(s, 0) == j && MatchToken(s, j) == Matched(t, e)
    requires SkipWhitespace(s, e) == |s|
    ensures Lex(s).tokens == [(t, Span(j, e))]
    ensures Lex(s).rest == |s|
  {
    LexFromStep(s, 0, t, e);
    LexFromNone(s, |s|);
    assert Lex(s) == LexFrom(s, 0);
  }

  /** The printer on the seven lexable kinds: each renders as its own spelling,
      except that the two braces render as each other's. */
  lemma PrintSpelling(t: Token)
    requires Lexable(t)
    ensures !t.LBrace? && !t.RBrace? ==> Print(t) == Spelling(t)
    ensures t.LBrace? ==> Print(t) == Spelling(RBrace)
    ensures t.RBrace? ==> Print(t) == Spelling(LBrace)
  {
  }

  /** Printing a lexed token gives back the source text under its span, for every
      kind but the braces; a lexed brace prints as the opposite brace. */
  lemma LexPrintRoundTrip(s: string)
    ensures forall k :: 0 <= k < |Lex(s).tokens| ==>
      var (t, sp) := Lex(s).tokens[k];
      sp.start < sp.end <= |s|
      && (!t.LBrace? && !t.RBrace? ==> Print(t) == s[sp.start..sp.end])
      && (t.LBrace? ==> s[sp.start..sp.end] == "{" && Print(t) == "}")
      && (t.RBrace? ==> s[sp.start..sp.end] == "}" && Print(t) == "{")
  {
    LexSpans(s);
  }

  /** The brace swap on the smallest input: `{` lexes to `LBrace`, which prints as `}`,
      and the printed text lexes back to the other brace. */
  lemma BraceRoundTripFails()
    ensures Lex("{").tokens == [(LBrace, Span(0, 1))] && Lex("{").rest == 1
    ensures Print(LBrace) == "}" && Print(LBrace) != "{"
    ensures Lex(Print(LBrace)).tokens == [(RBrace, Span(0, 1))] && Lex(Print(LBrace)).rest == 1
  {
    LexAlone(LBrace);
    LexAlone(RBrace);
  }

  /** The corrected printer renders every lexable kind as the spelling the lexer reads. */
  lemma PrintIntendedSpelling(t: Token)
    requires Lexable(t)
    ensures PrintIntended(t) == Spelling(t)
  {
  }

  /** With the corrected printer, printing every lexed token gives back the source
      text under its span. */
  lemma LexPrintIntendedRoundTrip(s: string)
    ensures forall k :: 0 <= k < |Lex(s).tokens| ==>
      var (t, sp) := Lex(s).tokens[k];
      sp.start < sp.end <= |s| && PrintIntended(t) == s[sp.start..sp.end]
  {
    LexSpans(s);
  }

  /** With the corrected printer, lexing the printed text of a lexable token gives that
      token back, spanning the whole text. */
  lemma PrintIntendedLexRoundTrip(t: Token)
    requires Lexable(t)
    ensures Lex(PrintIntended(t)).tokens == [(t, Span(0, |PrintIntended(t)|))]
    ensures Lex(PrintIntended(t)).rest == |PrintIntended(t)|
  {
    LexAlone(t);
  }
}
