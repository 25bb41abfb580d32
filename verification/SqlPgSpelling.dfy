/** The PostgreSQL scan of a raw statement in src-tauri/src/sqlguard.rs, over every way of writing its tokens:
    words in any letter case, names in quotes, three kinds of strings, two kinds of comments. */
module SqlPgSpelling {
  import opened Text
  import SqlBlank
  import P = SqlBlankPieces
  import opened SqlGuard
  import SqlGuardMeaning

  datatype Piece =
    | Space(c: char)
    | LineComment(body: string)
    | BlockComment(inside: seq<P.Inner>)
    | String(body: string)
    | EscapeString(mark: char, body: string)
    | DollarString(tag: string, body: string)
    | Name(name: string)
    | Letters(text: string)
    | Period
    | Mark(c: char)

  function Spell(p: Piece): string {
    match p
    case Space(c) => [c]
    case LineComment(body) => "--" + body
    case BlockComment(inside) => "/*" + (P.InnerText(inside) + "*/")
    case String(body) => ['\''] + (body + ['\''])
    case EscapeString(mark, body) => [mark, '\''] + (body + ['\''])
    case DollarString(tag, body) => P.Fence(tag) + (body + P.Fence(tag))
    case Name(name) => "\"" + (Doubled(name) + "\"")
    case Letters(text) => text
    case Period => "."
    case Mark(c) => [c]
  }

  function Render(ps: seq<Piece>): string { if ps == [] then [] else Spell(ps[0]) + Render(ps[1..]) }

  /** White space, comments and other marks are no tokens, and letter case is lost. */
  function Yield(p: Piece): seq<PgToken> {
    match p
    case String(_) => [Other]
    case EscapeString(_, _) => [Other]
    case DollarString(_, _) => [Other]
    case Name(name) => [PgToken.Quoted(LowerAll(name))]
    case Letters(text) => [PgToken.Word(LowerAll(text))]
    case Period => [Dot]
    case _ => []
  }

  function Yields(ps: seq<Piece>): seq<PgToken> { if ps == [] then [] else Yield(ps[0]) + Yields(ps[1..]) }

  predicate NotNext(rest: string, c: char) { rest != [] ==> rest[0] != c }

  /** The piece reads as what it is called when `rest` follows. */
  ghost predicate Reads(p: Piece, rest: string) {
    match p
    case Space(c) => IsWhitespace(c)
    case LineComment(body) => '\n' !in body && (rest != [] ==> rest[0] == '\n')
    case BlockComment(inside) => P.InnerReads(inside, "*/", true)
    case String(body) => P.Escaped(body, '\'', false) && NotNext(rest, '\'')
    case EscapeString(mark, body) => (mark == 'E' || mark == 'e') && P.Escaped(body, '\'', true) && NotNext(rest, '\'')
    case DollarString(tag, body) => P.AllWord(tag) && P.Fenced(body, P.Fence(tag))
    case Name(_) => NotNext(rest, '"')
    case Letters(text) =>
      && text != [] && P.AllWord(text) && (rest != [] ==> !IsWordChar(rest[0]))
      && (text == ['E'] || text == ['e'] ==> NotNext(rest, '\''))
    case Period => true
    case Mark(c) =>
      && !IsWhitespace(c) && !IsWordChar(c) && c != '\'' && c != '"' && c != '.'
      && (c == '-' ==> NotNext(rest, '-')) && (c == '/' ==> NotNext(rest, '*'))
      && (c == '$' ==> forall n :: !P.FenceAt([c] + rest, n))
  }

  ghost predicate AllRead(ps: seq<Piece>) {
    ps == [] || (Reads(ps[0], Render(ps[1..])) && AllRead(ps[1..]))
  }

  // ---- One turn of the scan reads one piece ----

  predicate Turn(s: string, n: nat, y: seq<PgToken>) { s != [] && PgLength(s) == n && PgYield(s) == y }

  lemma TurnOfLine(body: string, rest: string)
    requires Reads(LineComment(body), rest)
    ensures Turn("--" + body + rest, 2 + |body|, [])
  {
    var s := "--" + body + rest;
    assert s[1..] == "-" + body + rest && '\n' !in "-" + body;
    P.LineLengthOf("-" + body, rest);
  }

  lemma BlockTurn(s: string)
    requires SqlBlank.Starts2(s, '/', '*')
    ensures Turn(s, 2 + SqlBlank.BlockLength(s[2..], 1, true), [])
  {
    hide SqlBlank.BlockLength;
  }

  lemma BlockEnds(inside: seq<P.Inner>, rest: string)
    requires P.InnerReads(inside, "*/", true)
    ensures var t := P.InnerText(inside); SqlBlank.BlockLength(t + ("*/" + rest), 1, true) == |t| + 2
  {
    hide SqlBlank.BlockLength, P.InnerReads, P.InnerText;
    P.InnerReadsOn(inside, rest, true);
    P.BlockLengthOf(inside, "*/" + rest, 1, true);
    P.CloserLength(rest, 1, true);
    SqlBlank.BlockDone(rest, 0, true);
  }

  lemma TurnOfBlock(inside: seq<P.Inner>, rest: string)
    requires Reads(BlockComment(inside), rest)
    ensures Turn("/*" + (P.InnerText(inside) + "*/") + rest, |P.InnerText(inside)| + 4, [])
  {
    var t := P.InnerText(inside);
    var s := "/*" + (t + "*/") + rest;
    assert s[2..] == t + ("*/" + rest) && s[0] == '/' && s[1] == '*';
    BlockEnds(inside, rest);
    hide SqlBlank.BlockLength, P.InnerReads, P.InnerText, Turn;
    BlockTurn(s);
  }

  lemma TurnOfString(body: string, rest: string)
    requires Reads(String(body), rest)
    ensures Turn(['\''] + (body + ['\'']) + rest, |body| + 2, [Other])
  {
    var s := ['\''] + (body + ['\'']) + rest;
    assert s[1..] == body + (['\''] + rest);
    P.QuoteLengthOf(body, '\'', rest, false);
    hide SqlBlank.QuoteLength, P.Escaped;
  }

  lemma TurnOfEscape(mark: char, body: string, rest: string)
    requires Reads(EscapeString(mark, body), rest)
    ensures Turn([mark, '\''] + (body + ['\'']) + rest, |body| + 3, [Other])
  {
    var s := [mark, '\''] + (body + ['\'']) + rest;
    assert s[2..] == body + (['\''] + rest) && s[0] == mark && s[1] == '\'';
    P.QuoteLengthOf(body, '\'', rest, true);
    hide SqlBlank.QuoteLength, P.Escaped;
  }

  lemma DollarTurn(s: string, n: nat, m: nat)
    requires s != [] && s[0] == '$' && SqlBlank.TagLength(s) == n > 0 && SqlBlank.ThroughNeedle(s[n..], s[..n]) == m
    ensures Turn(s, n + m, [Other])
  {
    hide SqlBlank.TagLength, SqlBlank.ThroughNeedle;
  }

  lemma FenceIsTag(tag: string, more: string)
    requires P.AllWord(tag)
    ensures SqlBlank.TagLength(P.Fence(tag) + more) == |tag| + 2
  {
    var s := P.Fence(tag) + more;
    assert s[1..] == tag + (['$'] + more) && s[0] == '$';
    P.WordRunOf(tag, ['$'] + more);
  }

  lemma TurnOfDollar(tag: string, body: string, rest: string)
    requires Reads(DollarString(tag, body), rest)
    ensures Turn(P.Fence(tag) + (body + P.Fence(tag)) + rest, |P.Fence(tag) + (body + P.Fence(tag))|, [Other])
  {
    var fence := P.Fence(tag);
    var s := fence + (body + fence) + rest;
    FenceIsTag(tag, body + fence + rest);
    assert s == fence + (body + fence + rest) && s[0] == '$' && |fence| == |tag| + 2;
    assert s[..|fence|] == fence && s[|fence|..] == body + (fence + rest);
    P.NeedleOf(body, fence, rest);
    hide SqlBlank.TagLength, SqlBlank.ThroughNeedle, Turn, P.Fence;
    DollarTurn(s, |fence|, |body| + |fence|);
  }

  lemma NameTurn(u: string, name: string, n: nat)
    requires QuotedName(u) == name && SqlBlank.QuoteLength(u, '"', false) == n
    ensures Turn("\"" + u, 1 + n, [PgToken.Quoted(LowerAll(name))])
  {
    assert ("\"" + u)[1..] == u;
    hide QuotedName, SqlBlank.QuoteLength, LowerAll;
  }

  lemma TurnOfName(name: string, rest: string)
    requires Reads(Name(name), rest)
    ensures Turn("\"" + (Doubled(name) + "\"") + rest, |Doubled(name)| + 2, [PgToken.Quoted(LowerAll(name))])
  {
    hide QuotedName, SqlBlank.QuoteLength, LowerAll, Doubled, Turn;
    var d := Doubled(name);
    SqlGuardMeaning.QuotedOf(name, rest);
    NameTurn(d + ("\"" + rest), name, |d| + 1);
    assert "\"" + (d + "\"") + rest == "\"" + (d + ("\"" + rest));
  }

  lemma TurnOfLetters(text: string, rest: string)
    requires Reads(Letters(text), rest)
    ensures Turn(text + rest, |text|, [PgToken.Word(LowerAll(text))])
  {
    var s := text + rest;
    P.WordRunOf(text, rest);
    assert s[0] == text[0] && s[..|text|] == text && (|text| > 1 ==> s[1] == text[1]);
    assert IsWordChar(text[0]) && (|text| > 1 ==> IsWordChar(text[1]));
    hide SqlBlank.WordRun, LowerAll;
    assert |text| == 1 ==> text == [text[0]];
    assert !EscapeLiteral(s);
  }

  lemma TurnOfMark(c: char, rest: string)
    requires Reads(Mark(c), rest)
    ensures Turn([c] + rest, 1, [])
  {
    P.TagIsFence([c] + rest);
    hide SqlBlank.TagLength, P.FenceAt;
  }

  lemma TurnOfPiece(p: Piece, rest: string)
    requires Reads(p, rest)
    ensures Spell(p) != [] && Turn(Spell(p) + rest, |Spell(p)|, Yield(p))
  {
    match p
    case Space(c) =>
    case LineComment(body) => TurnOfLine(body, rest);
    case BlockComment(inside) => TurnOfBlock(inside, rest);
    case String(body) => TurnOfString(body, rest);
    case EscapeString(mark, body) => TurnOfEscape(mark, body, rest);
    case DollarString(tag, body) => TurnOfDollar(tag, body, rest);
    case Name(name) => TurnOfName(name, rest);
    case Letters(text) => TurnOfLetters(text, rest);
    case Period =>
    case Mark(c) => TurnOfMark(c, rest);
  }

  /** A statement is read as its tokens, however they are written. */
  lemma {:induction false} TokensAreRead(ps: seq<Piece>)
    requires AllRead(ps)
    ensures PgTokens(Render(ps)) == Yields(ps)
  {
    if ps != [] {
      hide PgTokens, PgLength, PgYield, Reads, Spell, Yield;
      var rest := Render(ps[1..]);
      TurnOfPiece(ps[0], rest);
      TokensAreRead(ps[1..]);
      SqlGuardMeaning.PgStep(Spell(ps[0]) + rest);
      assert (Spell(ps[0]) + rest)[|Spell(ps[0])|..] == rest;
    }
  }
}
