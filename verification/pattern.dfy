/**
 * Wildcard patterns of src/pattern.rs: compilation of `a.*.c.>` style text
 * into tokens, the two-index matcher, and the specificity comparison.
 */
module Patterns {
  import opened Results
  import opened Text
  import opened Subjects

  /** `Token`: a literal, `*` (exactly one token) or `>` (one or more trailing tokens). */
  datatype Token = Literal(text: string) | SingleWildcard | MultiWildcard

  /** `Pattern`: the source text and its compiled tokens. */
  datatype Pattern = Pattern(raw: string, tokens: seq<Token>)

  /** The text a token is compiled from. */
  function TokenText(t: Token): string {
    match t
    case Literal(s) => s
    case SingleWildcard => "*"
    case MultiWildcard => ">"
  }

  function Texts(tokens: seq<Token>): (r: seq<string>)
    ensures |r| == |tokens|
    ensures forall i :: 0 <= i < |tokens| ==> r[i] == TokenText(tokens[i])
  {
    seq(|tokens|, i requires 0 <= i < |tokens| => TokenText(tokens[i]))
  }

  /** Prints a token sequence back to pattern text. */
  function Render(tokens: seq<Token>): string {
    Join(Texts(tokens), ".")
  }

  /** The shape every compiled pattern has: `>` only last, literals are tokens. */
  predicate WellFormed(tokens: seq<Token>) {
    && |tokens| >= 1
    && (forall i :: 0 <= i < |tokens| && tokens[i].MultiWildcard? ==> i == |tokens| - 1)
    && (forall i :: 0 <= i < |tokens| && tokens[i].Literal? ==> IsToken(tokens[i].text))
  }

  /** One arm of the `match *part` in `parse_tokens`, for piece `i` of `n`. */
  function CompileToken(piece: string, i: nat, n: nat): Result<Token, SubjectError> {
    if piece == "" then Err(InvalidPattern)
    else if piece == "*" then Ok(SingleWildcard)
    else if piece == ">" then (if i != n - 1 then Err(InvalidPattern) else Ok(MultiWildcard))
    else if AllTokenChars(piece) then Ok(Literal(piece))
    else Err(InvalidPattern)
  }

  /** A piece that the compiler accepts at position `i` of `n`. */
  predicate PieceOk(piece: string, i: nat, n: nat) {
    || piece == "*"
    || (piece == ">" && i == n - 1)
    || IsToken(piece)
  }

  lemma CompileTokenOk(piece: string, i: nat, n: nat)
    ensures CompileToken(piece, i, n).Ok? <==> PieceOk(piece, i, n)
    ensures CompileToken(piece, i, n).Ok? ==> TokenText(CompileToken(piece, i, n).value) == piece
  {
    if piece == "*" || piece == ">" {
      assert !IsTokenChar(piece[0]);
    }
  }

  /** The `for (i, part) in parts` loop of `parse_tokens`, from piece `i` on. */
  function CompilePieces(pieces: seq<string>, i: nat): (r: Result<seq<Token>, SubjectError>)
    requires i <= |pieces|
    ensures r.Ok? <==> forall k :: i <= k < |pieces| ==> PieceOk(pieces[k], k, |pieces|)
    ensures r.Ok? ==> |r.value| == |pieces| - i
    ensures r.Ok? ==> forall k :: 0 <= k < |r.value| ==> CompileToken(pieces[i + k], i + k, |pieces|) == Ok(r.value[k])
    ensures r.Err? ==> r.error == InvalidPattern
    decreases |pieces| - i
  {
    if i == |pieces| then Ok([])
    else
      CompileTokenOk(pieces[i], i, |pieces|);
      match CompileToken(pieces[i], i, |pieces|)
      case Err(e) => Err(e)
      case Ok(t) =>
        match CompilePieces(pieces, i + 1)
        case Err(e) => Err(e)
        case Ok(rest) => Ok([t] + rest)
  }

  /**
   * `Pattern::parse_tokens`: rejects the empty text, an empty piece, a `>`
   * that is not last and a literal with a non-token character, each with
   * `InvalidPattern`; otherwise one token per dot-separated piece.
   */
  function ParseTokens(s: string): (r: Result<seq<Token>, SubjectError>)
    ensures r.Ok? ==> WellFormed(r.value) && Render(r.value) == s
    ensures r.Ok? ==> |r.value| == |Split(s, '.')|
    ensures r.Err? ==> r.error == InvalidPattern
  {
    if s == "" then Err(InvalidPattern)
    else
      var pieces := Split(s, '.');
      var r := CompilePieces(pieces, 0);
      assert r.Ok? ==> Texts(r.value) == pieces && WellFormed(r.value) by {
        if r.Ok? {
          forall k | 0 <= k < |pieces|
            ensures Texts(r.value)[k] == pieces[k]
            ensures r.value[k].MultiWildcard? ==> k == |pieces| - 1
            ensures r.value[k].Literal? ==> IsToken(r.value[k].text)
          {
            CompileTokenOk(pieces[k], k, |pieces|);
          }
        }
      }
      r
  }

  /** The accepted pattern texts, piece by piece. */
  lemma ParseTokensSucceedsIff(s: string)
    ensures ParseTokens(s).Ok? <==>
      s != "" && forall k :: 0 <= k < |Split(s, '.')| ==> PieceOk(Split(s, '.')[k], k, |Split(s, '.')|)
  {
  }

  /** Round trip: a well-formed token sequence prints to text that compiles back to it. */
  lemma ParseRender(tokens: seq<Token>)
    requires WellFormed(tokens)
    ensures ParseTokens(Render(tokens)).Ok? && ParseTokens(Render(tokens)).value == tokens
  {
    var texts := Texts(tokens);
    RenderedPieces(tokens);
    assert Render(tokens) != "" by {
      if |texts| == 1 {
        assert Render(tokens) == texts[0];
      } else {
        assert Render(tokens) == texts[0] + "." + Join(texts[1..], ".");
      }
    }
    CompileTexts(tokens);
  }

  /** The printed text splits back into the token texts, none of them empty. */
  lemma RenderedPieces(tokens: seq<Token>)
    requires WellFormed(tokens)
    ensures Split(Render(tokens), '.') == Texts(tokens)
    ensures Texts(tokens)[0] != ""
  {
    var texts := Texts(tokens);
    forall i | 0 <= i < |texts|
      ensures '.' !in texts[i]
    {
      if tokens[i].Literal? {
        TokenHasNoDot(tokens[i].text);
      }
    }
    SplitJoin(texts, '.');
  }

  /** The token texts of a well-formed sequence compile back to the tokens. */
  lemma CompileTexts(tokens: seq<Token>)
    requires WellFormed(tokens)
    ensures CompilePieces(Texts(tokens), 0).Ok? && CompilePieces(Texts(tokens), 0).value == tokens
  {
    var texts := Texts(tokens);
    var n := |tokens|;
    forall k | 0 <= k < n
      ensures PieceOk(texts[k], k, n)
      ensures CompileToken(texts[k], k, n) == Ok(tokens[k])
    {
      CompileTokenOk(texts[k], k, n);
    }
    var r := CompilePieces(texts, 0);
    assert r.Ok?;
    assert r.value == tokens;
  }

  /** `Pattern::new`: compile and keep the text. */
  function NewPattern(s: string): (r: Result<Pattern, SubjectError>)
    ensures r.Ok? ==> r.value.raw == s && WellFormed(r.value.tokens) && Render(r.value.tokens) == s
    ensures r.Err? ==> r.error == InvalidPattern
  {
    var tokens :- ParseTokens(s);
    Ok(Pattern(s, tokens))
  }

  // ---------------------------------------------------------------------------
  // Matching
  // ---------------------------------------------------------------------------

  /** How one non-`>` token treats one subject piece. */
  predicate TokenMatches(t: Token, piece: string) {
    match t
    case Literal(l) => l == piece
    case SingleWildcard => true
    case MultiWildcard => true
  }

  /** Index of the first `>`, or the token count when there is none. */
  function FirstMulti(tokens: seq<Token>): (k: nat)
    ensures k <= |tokens|
    ensures forall i :: 0 <= i < k ==> !tokens[i].MultiWildcard?
    ensures k < |tokens| ==> tokens[k].MultiWildcard?
  {
    if |tokens| == 0 then 0
    else if tokens[0].MultiWildcard? then 0
    else 1 + FirstMulti(tokens[1..])
  }

  /**
   * The matching relation, stated positionally: up to the first `>` every
   * token matches the piece at its position; a `>` then needs at least one
   * piece left, and without `>` the counts must be equal.
   */
  predicate MatchSpec(tokens: seq<Token>, pieces: seq<string>) {
    var k := FirstMulti(tokens);
    if k < |tokens| then
      |pieces| > k && forall i :: 0 <= i < k ==> TokenMatches(tokens[i], pieces[i])
    else
      |pieces| == |tokens| && forall i :: 0 <= i < |tokens| ==> TokenMatches(tokens[i], pieces[i])
  }

  /**
   * The `while` loop of `matches_parts`. Its two indices always advance
   * together, so one index `i` stands for both.
   */
  function MatchFrom(tokens: seq<Token>, pieces: seq<string>, i: nat): (b: bool)
    requires i <= |tokens| && i <= |pieces|
    requires forall j :: 0 <= j < i ==> !tokens[j].MultiWildcard? && TokenMatches(tokens[j], pieces[j])
    ensures b <==> MatchSpec(tokens, pieces)
    decreases |tokens| - i
  {
    if i < |tokens| && i < |pieces| then
      match tokens[i]
      case MultiWildcard => true
      case SingleWildcard => MatchFrom(tokens, pieces, i + 1)
      case Literal(l) => if l != pieces[i] then false else MatchFrom(tokens, pieces, i + 1)
    else
      i == |tokens| && i == |pieces|
  }

  /** `Pattern::matches_parts`. */
  function MatchesParts(p: Pattern, pieces: seq<string>): (b: bool)
    ensures b <==> MatchSpec(p.tokens, pieces)
  {
    MatchFrom(p.tokens, pieces, 0)
  }

  /** `Pattern::matches_str`: split the text on '.' and match the pieces. */
  function MatchesStr(p: Pattern, s: string): (b: bool)
    ensures b <==> MatchSpec(p.tokens, Split(s, '.'))
  {
    MatchesParts(p, Split(s, '.'))
  }

  /** `Pattern::matches`: matches the subject's raw text. */
  function Matches(p: Pattern, x: Subject): (b: bool)
    ensures b <==> MatchSpec(p.tokens, Split(x.raw, '.'))
  {
    MatchesStr(p, x.raw)
  }

  predicate AllLiteral(tokens: seq<Token>) {
    forall i :: 0 <= i < |tokens| ==> tokens[i].Literal?
  }

  /** An all-literal pattern matches exactly the identical piece sequence. */
  lemma LiteralMatchesExactly(p: Pattern, pieces: seq<string>)
    requires AllLiteral(p.tokens)
    ensures MatchesParts(p, pieces) <==> pieces == Texts(p.tokens)
  {
    if MatchesParts(p, pieces) {
      assert |pieces| == |p.tokens|;
      forall i | 0 <= i < |pieces|
        ensures pieces[i] == Texts(p.tokens)[i]
      {
        assert TokenMatches(p.tokens[i], pieces[i]);
      }
    }
  }

  /** Without `>`, the counts must agree and every token matches its piece. */
  lemma NoMultiMatches(p: Pattern, pieces: seq<string>)
    requires forall i :: 0 <= i < |p.tokens| ==> !p.tokens[i].MultiWildcard?
    ensures MatchesParts(p, pieces) <==>
      |pieces| == |p.tokens| && forall i :: 0 <= i < |pieces| ==> TokenMatches(p.tokens[i], pieces[i])
  {
  }

  /** A `*` matches any one piece: replacing the piece at its position does not change the outcome. */
  lemma SingleWildcardAnyPiece(p: Pattern, pieces: seq<string>, i: nat, other: string)
    requires i < |p.tokens| && i < |pieces| && p.tokens[i].SingleWildcard?
    ensures MatchesParts(p, pieces) <==> MatchesParts(p, pieces[i := other])
  {
    var q := pieces[i := other];
    assert forall j :: 0 <= j < |p.tokens| && j < |pieces| ==>
      (TokenMatches(p.tokens[j], pieces[j]) <==> TokenMatches(p.tokens[j], q[j]));
  }

  /**
   * A trailing `>` at index k matches exactly the piece sequences with at
   * least k + 1 pieces whose first k pieces match.
   */
  lemma TrailingMultiMatches(p: Pattern, pieces: seq<string>)
    requires WellFormed(p.tokens) && p.tokens[|p.tokens| - 1].MultiWildcard?
    ensures var k := |p.tokens| - 1;
      MatchesParts(p, pieces) <==>
        |pieces| >= k + 1 && forall i :: 0 <= i < k ==> TokenMatches(p.tokens[i], pieces[i])
  {
    assert FirstMulti(p.tokens) == |p.tokens| - 1;
  }

  /** `>` never matches zero pieces: the prefix alone is rejected. */
  lemma MultiNeedsOnePiece(p: Pattern, pieces: seq<string>)
    requires WellFormed(p.tokens) && p.tokens[|p.tokens| - 1].MultiWildcard?
    requires |pieces| == |p.tokens| - 1
    ensures !MatchesParts(p, pieces)
  {
    TrailingMultiMatches(p, pieces);
  }

  // ---------------------------------------------------------------------------
  // Specificity
  // ---------------------------------------------------------------------------

  predicate HasMulti(tokens: seq<Token>) {
    exists i :: 0 <= i < |tokens| && tokens[i].MultiWildcard?
  }

  /** `filter(SingleWildcard).count()`. */
  function CountSingle(tokens: seq<Token>): nat {
    if |tokens| == 0 then 0
    else (if tokens[0].SingleWildcard? then 1 else 0) + CountSingle(tokens[1..])
  }

  /** `position(SingleWildcard | MultiWildcard)`. */
  function FirstWildcard(tokens: seq<Token>): (r: Option<nat>)
    ensures r.None? ==> AllLiteral(tokens)
    ensures r.Some? ==> r.value < |tokens| && !tokens[r.value].Literal?
    ensures r.Some? ==> forall i :: 0 <= i < r.value ==> tokens[i].Literal?
  {
    if |tokens| == 0 then None
    else if !tokens[0].Literal? then Some(0)
    else match FirstWildcard(tokens[1..])
      case None => None
      case Some(k) => Some(k + 1)
  }

  /** The last step of the comparison: a later first wildcard wins, no wildcard beats any. */
  predicate LaterFirstWildcard(a: Option<nat>, b: Option<nat>) {
    match (a, b)
    case (None, Some(_)) => true
    case (Some(x), Some(y)) => x > y
    case _ => false
  }

  /**
   * `Pattern::is_more_specific_than`: without `>` beats with `>`; then fewer
   * `*` wins; then the later first wildcard wins.
   */
  predicate IsMoreSpecificThan(a: Pattern, b: Pattern) {
    var am, bm := HasMulti(a.tokens), HasMulti(b.tokens);
    if am != bm then !am
    else
      var ac, bc := CountSingle(a.tokens), CountSingle(b.tokens);
      if ac != bc then ac < bc
      else LaterFirstWildcard(FirstWildcard(a.tokens), FirstWildcard(b.tokens))
  }

  /** Two patterns the comparison cannot separate. */
  predicate EquallySpecific(a: Pattern, b: Pattern) {
    !IsMoreSpecificThan(a, b) && !IsMoreSpecificThan(b, a)
  }

  /** The comparison is the lexicographic order on (has `>`, number of `*`, first wildcard). */
  lemma SpecificityIsLexicographic(a: Pattern, b: Pattern)
    ensures IsMoreSpecificThan(a, b) <==>
      || (!HasMulti(a.tokens) && HasMulti(b.tokens))
      || (HasMulti(a.tokens) == HasMulti(b.tokens) && CountSingle(a.tokens) < CountSingle(b.tokens))
      || (HasMulti(a.tokens) == HasMulti(b.tokens) && CountSingle(a.tokens) == CountSingle(b.tokens)
          && LaterFirstWildcard(FirstWildcard(a.tokens), FirstWildcard(b.tokens)))
  {
  }

  lemma SpecificityIrreflexive(a: Pattern)
    ensures !IsMoreSpecificThan(a, a)
  {
  }

  lemma SpecificityAsymmetric(a: Pattern, b: Pattern)
    ensures IsMoreSpecificThan(a, b) ==> !IsMoreSpecificThan(b, a)
  {
  }

  lemma SpecificityTransitive(a: Pattern, b: Pattern, c: Pattern)
    requires IsMoreSpecificThan(a, b) && IsMoreSpecificThan(b, c)
    ensures IsMoreSpecificThan(a, c)
  {
  }

  /** Being equally specific is transitive, so the comparison is a strict weak order. */
  lemma EquallySpecificTransitive(a: Pattern, b: Pattern, c: Pattern)
    requires EquallySpecific(a, b) && EquallySpecific(b, c)
    ensures EquallySpecific(a, c)
  {
  }

  /** If neither a beats b nor b beats c, then a does not beat c. */
  lemma NotMoreSpecificTransitive(a: Pattern, b: Pattern, c: Pattern)
    requires !IsMoreSpecificThan(a, b) && !IsMoreSpecificThan(b, c)
    ensures !IsMoreSpecificThan(a, c)
  {
  }
}
