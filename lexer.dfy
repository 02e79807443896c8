/** The keyword and punctuation lexer of src/parser.rs (`fn lexer`): an ordered
    choice of seven spellings, each token paired with the span of its own text,
    whitespace skipped around every token, repeated until no spelling matches. */
module Lexer {
  import opened Tokens

  /** A half-open range `[start, end)` of character indices into the input. */
  datatype Span = Span(start: nat, end: nat)

  /** The outcome of one attempt of the ordered choice: the token read, and the index
      just past its text. */
  datatype Match = NoMatch | Matched(token: Token, end: nat)

  /** What the repetition leaves: the tokens in source order, and the index at which
      it stopped. */
  datatype Lexed = Lexed(tokens: seq<(Token, Span)>, rest: nat)

  /** Rust's `char::is_whitespace`: the Unicode White_Space characters. */
  predicate IsWhitespace(c: char) {
    var n := c as int;
    (0x09 <= n <= 0x0D) || n == 0x20 || n == 0x85 || n == 0xA0 || n == 0x1680
    || (0x2000 <= n <= 0x200A) || n == 0x2028 || n == 0x2029 || n == 0x202F
    || n == 0x205F || n == 0x3000
  }

  predicate AllWhitespace(s: string) {
    forall k :: 0 <= k < |s| ==> IsWhitespace(s[k])
  }

  /** The token kinds the lexer has an alternative for: all but `Num` and `Ident`. */
  predicate Lexable(t: Token) {
    !t.Num? && !t.Ident?
  }

  /** The text each alternative reads. No spelling is empty and none holds whitespace. */
  function Spelling(t: Token): (w: string)
    requires Lexable(t)
    ensures |w| > 0 && forall k :: 0 <= k < |w| ==> !IsWhitespace(w[k])
  {
    if t.LBrace? then "{"
    else if t.RBrace? then "}"
    else if t.Alias? then "alias"
    else if t.Empty? then "_"
    else if t.Colon? then ":"
    else if t.Register? then "register"
    else "restricted"
  }

  /** The text `w` occurs in `s` starting at index `j`. */
  predicate MatchesAt(s: string, j: nat, w: string) {
    j + |w| <= |s| && s[j..j + |w|] == w
  }

  /** The alternatives of the ordered choice, in the order they are tried. */
  const Alternatives: seq<Token> := [LBrace, RBrace, Alias, Empty, Register, Colon, Restriced]

  predicate AllLexable(alts: seq<Token>) {
    forall k :: 0 <= k < |alts| ==> Lexable(alts[k])
  }

  /** `just(w0).map(|_| t0).or(just(w1).map(|_| t1)).or(...)` at index `j`: the first alternative
      whose spelling occurs there, each failed attempt tried again from `j`. */
  function MatchFirst(s: string, j: nat, alts: seq<Token>): (r: Match)
    requires AllLexable(alts)
    ensures r.Matched? ==> r.token in alts && Lexable(r.token)
                           && MatchesAt(s, j, Spelling(r.token)) && r.end == j + |Spelling(r.token)|
    ensures r.NoMatch? ==> forall k :: 0 <= k < |alts| ==> !MatchesAt(s, j, Spelling(alts[k]))
    decreases |alts|
  {
    if alts == [] then NoMatch
    else if MatchesAt(s, j, Spelling(alts[0])) then Matched(alts[0], j + |Spelling(alts[0])|)
    else MatchFirst(s, j, alts[1..])
  }

  /** One attempt of the ordered choice at index `j`. */
  function MatchToken(s: string, j: nat): (r: Match)
    ensures r.Matched? ==> Lexable(r.token) && j < r.end <= |s| && r.end == j + |Spelling(r.token)|
    ensures r.Matched? ==> s[j..r.end] == Spelling(r.token)
    ensures r.NoMatch? ==> forall t :: Lexable(t) ==> !MatchesAt(s, j, Spelling(t))
  {
    var r := MatchFirst(s, j, Alternatives);
    assert forall t :: Lexable(t) ==> Alternatives[AlternativeIndex(t)] == t;
    r
  }

  /** Where each lexable kind sits among the alternatives: every kind has one. */
  function AlternativeIndex(t: Token): (k: nat)
    requires Lexable(t)
    ensures k < |Alternatives| && Alternatives[k] == t
  {
    if t.LBrace? then 0
    else if t.RBrace? then 1
    else if t.Alias? then 2
    else if t.Empty? then 3
    else if t.Register? then 4
    else if t.Colon? then 5
    else 6
  }

  /** The index of the first non-whitespace character at or after `i`. */
  function SkipWhitespace(s: string, i: nat): (j: nat)
    requires i <= |s|
    ensures i <= j <= |s|
    ensures forall k :: i <= k < j ==> IsWhitespace(s[k])
    ensures j == |s| || !IsWhitespace(s[j])
    decreases |s| - i
  {
    if i < |s| && IsWhitespace(s[i]) then SkipWhitespace(s, i + 1) else i
  }

  /** The token `t` sits in `s` at `sp`, which covers exactly its spelling. */
  predicate SpannedAt(s: string, t: Token, sp: Span) {
    Lexable(t) && sp.start < sp.end <= |s| && s[sp.start..sp.end] == Spelling(t)
  }

  /** The repetition from index `i`: skip whitespace, try the alternatives, record the
      token with the span of its text alone, skip trailing whitespace, and go on. An
      attempt that fails is undone, leading whitespace included. */
  function LexFrom(s: string, i: nat): (r: Lexed)
    requires i <= |s|
    ensures i <= r.rest <= |s|
    decreases |s| - i
  {
    var j := SkipWhitespace(s, i);
    var m := MatchToken(s, j);
    if m.NoMatch? then Lexed([], i)
    else
      var next := LexFrom(s, SkipWhitespace(s, m.end));
      Lexed([(m.token, Span(j, m.end))] + next.tokens, next.rest)
  }

  /** `lexer()` run on the whole input, keeping the tokens of the longest lexable prefix. */
  function Lex(s: string): (r: Lexed)
    ensures r.rest <= |s|
    ensures r.tokens == [] <==> MatchToken(s, SkipWhitespace(s, 0)).NoMatch?
    ensures r.tokens != [] ==> r.tokens[0].1.start == SkipWhitespace(s, 0)
  {
    LexFrom(s, 0)
  }
}
