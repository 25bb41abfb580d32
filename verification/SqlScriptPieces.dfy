/** The splitter against a grammar: a script put together from statements and delimiters is split into
    those statements, whatever their literals and comments contain. */
module SqlScriptPieces {
  import opened Common
  import opened SqlLexer
  import opened SqlChunking
  import opened SqlDirective

  // ---- Reading with room to spare ----

  /** The lexer after `b` has joined the buffer. */
  function Fed1(lx: Lexer, b: byte): Lexer {
    var l := if lx.stmtLine == 0 && !IsSpace(b) then lx.(stmtLine := lx.line, stmtOffset := lx.absolute) else lx;
    Consumed(l.(current := l.current + [b]), b)
  }

  function Fed(lx: Lexer, bs: seq<byte>): Lexer
    decreases |bs|
  {
    if bs == [] then lx else Fed(Fed1(lx, bs[0]), bs[1..])
  }

  lemma FedOne(lx: Lexer, b: byte)
    ensures Fed(lx, [b]) == Fed1(lx, b)
  {
    assert [b][1..] == [];
  }

  lemma {:induction false} FedAppend(lx: Lexer, a: seq<byte>, b: seq<byte>)
    ensures Fed(lx, a + b) == Fed(Fed(lx, a), b)
    decreases |a|
  {
    hide Fed1;
    if a == [] {
      assert a + b == b;
    } else {
      assert (a + b)[1..] == a[1..] + b;
      FedAppend(Fed1(lx, a[0]), a[1..], b);
    }
  }

  lemma {:induction false} FedKeeps(lx: Lexer, bs: seq<byte>)
    ensures var l := Fed(lx, bs);
            && l.mode == lx.mode && l.escaped == lx.escaped && l.delimiter == lx.delimiter
            && l.hasCode == lx.hasCode && l.limit == lx.limit && l.current == lx.current + bs
    decreases |bs|
  {
    if bs != [] {
      FedKeeps(Fed1(lx, bs[0]), bs[1..]);
      assert lx.current + [bs[0]] + bs[1..] == lx.current + bs;
    } else {
      assert lx.current + [] == lx.current;
    }
  }

  /** Mode and flags do not matter to what is read. */
  lemma {:induction false} FedIgnores(lx: Lexer, mode: Mode, escaped: bool, code: bool, bs: seq<byte>)
    ensures Fed(lx.(mode := mode, escaped := escaped, hasCode := code), bs)
         == Fed(lx, bs).(mode := mode, escaped := escaped, hasCode := code)
    decreases |bs|
  {
    if bs != [] { FedIgnores(Fed1(lx, bs[0]), mode, escaped, code, bs[1..]); }
  }

  lemma TakenIsFed(lx: Lexer, b: byte)
    requires |lx.current| < lx.limit
    ensures Taken(lx, b) == Ok(Fed1(lx, b)) && Fed(lx, [b]) == Fed1(lx, b)
  {
    FedOne(lx, b);
  }

  lemma Taken2IsFed(lx: Lexer, a: byte, b: byte)
    requires |lx.current| + 1 < lx.limit
    ensures Taken2(lx, a, b) == Ok(Fed(lx, [a, b]))
  {
    TakenIsFed(lx, a);
    TakenIsFed(Fed1(lx, a), b);
    assert [a] + [b] == [a, b];
    FedAppend(lx, [a], [b]);
  }

  // ---- Pieces ----

  datatype Piece =
    | Code(b: byte)
    | Quoted(quote: byte, body: seq<byte>)
    | Block(body: seq<byte>)
    | LineNote(open: seq<byte>, body: seq<byte>)

  function Spell(p: Piece): seq<byte> {
    match p
    case Code(b) => [b]
    case Quoted(q, body) => [q] + (body + [q])
    case Block(body) => [SLASH, STAR] + (body + [STAR, SLASH])
    case LineNote(open, body) => open + (body + [LF])
  }

  function Render(ps: seq<Piece>): seq<byte> { if ps == [] then [] else Spell(ps[0]) + Render(ps[1..]) }

  /** Quotes doubled, and a backslash with what it escapes; in backticks a backslash is itself. */
  predicate Escaped(body: seq<byte>, q: byte)
    decreases |body|
  {
    || body == []
    || (body[0] == BACKSLASH && q != BACKTICK && |body| >= 2 && Escaped(body[2..], q))
    || (body[0] == q && |body| >= 2 && body[1] == q && Escaped(body[2..], q))
    || (body[0] != q && (body[0] != BACKSLASH || q == BACKTICK) && Escaped(body[1..], q))
  }

  predicate NoBlockEnd(body: seq<byte>) { forall i | 0 <= i < |body| - 1 :: !(body[i] == STAR && body[i + 1] == SLASH) }

  const QUOTES: set<byte> := {SQUOTE, DQUOTE, BACKTICK}

  predicate OpensComment(s: seq<byte>) {
    [HASH] <= s || [SLASH, STAR] <= s || ([DASH, DASH] <= s && |s| > 2 && s[2] in BLANKS)
  }

  /** Digits, letters and the underscore. */
  predicate WordByte(b: byte) { b == 95 || 48 <= b <= 57 || 97 <= (if b < 97 then b + 32 else b) <= 122 }

  /** Two bytes of one word. */
  predicate Joined(a: Option<byte>, b: Option<byte>) {
    a.Some? && b.Some? && WordByte(a.value) && WordByte(b.value)
  }

  function First(s: seq<byte>): Option<byte> { if s == [] then None else Some(s[0]) }

  /** The delimiter is written here, and no word runs into it or out of it. */
  predicate Stands(d: Delimiter, previous: Option<byte>, s: seq<byte>) {
    d <= s && !Joined(previous, First(d)) && !Joined(Some(d[|d| - 1]), First(s[|d|..]))
  }

  /** No comment, quoted part or directive line starts at `s`. */
  ghost predicate Clear(lx: Lexer, s: seq<byte>) {
    s != [] && !OpensComment(s) && s[0] !in QUOTES && !(lx.lineStart && Announces(FirstLine(s)))
  }

  /** A byte that is code: nothing else starts at `s`, nor does a delimiter stand there. */
  ghost predicate IsCode(lx: Lexer, s: seq<byte>) { Clear(lx, s) && !Stands(lx.delimiter, lx.previous, s) }

  /** The piece reads as what it is called when `rest` follows. */
  ghost predicate Reads(p: Piece, lx: Lexer, rest: seq<byte>) {
    match p
    case Code(b) => IsCode(lx, [b] + rest)
    case Quoted(q, body) => q in QUOTES && Escaped(body, q) && (rest != [] ==> rest[0] != q)
    case Block(body) => NoBlockEnd(body)
    case LineNote(open, body) =>
      LF !in body && (open == [HASH] || (open == [DASH, DASH] && (body + [LF])[0] in BLANKS))
  }

  /** White space and comments are not code, but a versioned comment is. */
  predicate HasCode(p: Piece) {
    match p
    case Code(b) => b !in BLANKS
    case Quoted(_, _) => true
    case Block(body) => body != [] && body[0] == BANG
    case LineNote(_, _) => false
  }

  predicate AnyCode(ps: seq<Piece>) { ps != [] && (HasCode(ps[0]) || AnyCode(ps[1..])) }

  function After(lx: Lexer, p: Piece): Lexer { Fed(lx, Spell(p)).(hasCode := lx.hasCode || HasCode(p)) }

  function AfterAll(lx: Lexer, ps: seq<Piece>): Lexer
    decreases |ps|
  {
    if ps == [] then lx else AfterAll(After(lx, ps[0]), ps[1..])
  }

  ghost predicate AllRead(ps: seq<Piece>, lx: Lexer, rest: seq<byte>)
    decreases |ps|
  {
    ps == [] || (Reads(ps[0], lx, Render(ps[1..]) + rest) && AllRead(ps[1..], After(lx, ps[0]), rest))
  }

  // ---- The lexer takes the pieces for what they are ----

  lemma OneStep(lx: Lexer, s: seq<byte>, next: Lexer, n: nat)
    requires s != [] && 1 <= n <= |s| && Step(lx, s, true) == Go(next, n, [])
    ensures Run(lx, s, true) == Run(next, s[n..], true)
  {
    RunStep(lx, s, true);
    PrependNothing(Run(next, s[n..], true));
  }

  lemma DelimiterStands(lx: Lexer, s: seq<byte>)
    ensures DelimiterAt(lx, s) <==> Stands(lx.delimiter, lx.previous, s)
  {
  }

  lemma CommentOpens(s: seq<byte>)
    requires s != []
    ensures OpensComment(s) <==> s[0] == HASH || DashComment(s) || OpensBlock(s)
  {
    if |s| >= 2 { assert [s[0], s[1]] <= s; }
  }

  lemma ClearStep(lx: Lexer, s: seq<byte>)
    requires lx.mode.Normal? && Clear(lx, s)
    ensures Step(lx, s, true) == if Stands(lx.delimiter, lx.previous, s) then StepDelimiter(lx)
                                 else Read(Taken(lx, s[0]), 1, Normal, s[0] !in BLANKS)
  {
    hide Announces, FirstLine, OpensComment, Stands, DelimiterAt, DashComment, OpensBlock, Step, StepDelimiter, Read;
    OtherLines(lx, s, true);
    CommentOpens(s);
    DelimiterStands(lx, s);
  }

  lemma CodeRun(lx: Lexer, b: byte, rest: seq<byte>)
    requires lx.mode.Normal? && Reads(Code(b), lx, rest) && |lx.current| < lx.limit
    ensures Run(lx, [b] + rest, true) == Run(After(lx, Code(b)), rest, true)
  {
    hide Announces, FirstLine, OpensComment, Stands, Step, Run;
    var s := [b] + rest;
    ClearStep(lx, s);
    TakenIsFed(lx, b);
    FedKeeps(lx, [b]);
    assert After(lx, Code(b)).mode == Normal;
    OneStep(lx, s, After(lx, Code(b)), 1);
    assert s[1..] == rest;
  }

  /** Inside quotes, up to the closing one. */
  lemma {:induction false} QuotedRun(lx: Lexer, q: byte, body: seq<byte>, rest: seq<byte>)
    requires IsQuote(q) && lx.mode == QuoteMode(q) && !lx.escaped && Escaped(body, q) && (rest != [] ==> rest[0] != q)
    requires |lx.current| + |body| < lx.limit
    ensures Run(lx, body + ([q] + rest), true) == Run(Fed(lx, body + [q]).(mode := Normal), rest, true)
    decreases |body|
  {
    var s := body + ([q] + rest);
    if body == [] {
      TakenIsFed(lx, q);
      assert s == [q] + rest && s[1..] == rest && body + [q] == [q];
      OneStep(lx, s, Fed(lx, [q]).(mode := Normal), 1);
    } else {
      QuotedStep(lx, q, body, rest);
    }
  }

  lemma {:induction false} QuotedStep(lx: Lexer, q: byte, body: seq<byte>, rest: seq<byte>)
    requires IsQuote(q) && lx.mode == QuoteMode(q) && !lx.escaped && body != [] && Escaped(body, q)
    requires (rest != [] ==> rest[0] != q) && |lx.current| + |body| < lx.limit
    ensures Run(lx, body + ([q] + rest), true) == Run(Fed(lx, body + [q]).(mode := Normal), rest, true)
    decreases |body|, 0
  {
    hide Run, Step, Fed;
    var n := Width(body, q);
    var l := Fed(lx, body[..n]);
    QuotedTurn(lx, q, body, [q] + rest);
    FedKeeps(lx, body[..n]);
    QuotedRun(l, q, body[n..], rest);
    assert body[..n] + (body[n..] + [q]) == body + [q];
    FedAppend(lx, body[..n], body[n..] + [q]);
  }

  /** How many bytes of a body belong together. */
  function Width(body: seq<byte>, q: byte): nat
    requires body != []
  {
    if (body[0] == BACKSLASH && q != BACKTICK) || body[0] == q then 2 else 1
  }

  /** The first character of a body, with its backslash or its double. */
  lemma QuotedTurn(lx: Lexer, q: byte, body: seq<byte>, rest: seq<byte>)
    requires IsQuote(q) && lx.mode == QuoteMode(q) && !lx.escaped && body != [] && Escaped(body, q)
    requires |lx.current| + |body| <= lx.limit
    ensures var n := Width(body, q);
            && 1 <= n <= |body| && Escaped(body[n..], q)
            && Run(lx, body + rest, true) == Run(Fed(lx, body[..n]), body[n..] + rest, true)
  {
    hide Run, Fed, Fed1, Escaped, Width;
    EscapedStep(body, q);
    var s := body + rest;
    var n := Width(body, q);
    assert s[n..] == body[n..] + rest && s[0] == body[0] && (n == 2 ==> s[1] == body[1]);
    if body[0] == q {
      assert body[..2] == [q, q];
      DoubledRun(lx, q, s);
    } else if n == 2 {
      assert body[..2] == [s[0], s[1]];
      EscapeRun(lx, q, s);
    } else {
      assert body[..1] == [s[0]];
      PlainRun(lx, q, s);
    }
  }

  lemma EscapedStep(body: seq<byte>, q: byte)
    requires IsQuote(q) && body != [] && Escaped(body, q)
    ensures var n := Width(body, q);
            && 1 <= n <= 2 && n <= |body| && Escaped(body[n..], q)
            && (body[0] == q ==> n == 2 && body[1] == q)
            && (body[0] != q ==> (n == 2 <==> body[0] == BACKSLASH && q != BACKTICK))
  {
  }

  lemma DoubledRun(lx: Lexer, q: byte, s: seq<byte>)
    requires IsQuote(q) && lx.mode == QuoteMode(q) && !lx.escaped && |s| >= 2 && s[0] == s[1] == q
    requires |lx.current| + 1 < lx.limit
    ensures Run(lx, s, true) == Run(Fed(lx, [q, q]), s[2..], true)
  {
    Taken2IsFed(lx, q, q);
    FedKeeps(lx, [q, q]);
    OneStep(lx, s, Fed(lx, [q, q]), 2);
  }

  lemma PlainRun(lx: Lexer, q: byte, s: seq<byte>)
    requires IsQuote(q) && lx.mode == QuoteMode(q) && !lx.escaped && s != [] && s[0] != q
    requires (s[0] != BACKSLASH || q == BACKTICK) && |lx.current| < lx.limit
    ensures Run(lx, s, true) == Run(Fed(lx, [s[0]]), s[1..], true)
  {
    TakenIsFed(lx, s[0]);
    FedKeeps(lx, [s[0]]);
    OneStep(lx, s, Fed(lx, [s[0]]), 1);
  }

  /** A backslash and the byte it escapes. */
  lemma EscapeRun(lx: Lexer, q: byte, s: seq<byte>)
    requires IsQuote(q) && q != BACKTICK && lx.mode == QuoteMode(q) && !lx.escaped && |s| >= 2 && s[0] == BACKSLASH
    requires |lx.current| + 1 < lx.limit
    ensures Run(lx, s, true) == Run(Fed(lx, [s[0], s[1]]), s[2..], true)
  {
    hide Run, Fed, Fed1;
    var l := Fed1(lx, s[0]);
    FedOne(lx, s[0]);
    FedKeeps(lx, [s[0]]);
    EscapeOpens(lx, q, s);
    assert s[1..][0] == s[1] && s[1..][1..] == s[2..];
    EscapedByte(l.(escaped := true), s[1..]);
    assert l.(escaped := true).(escaped := false) == l;
    FedOne(l, s[1]);
    FedAppend(lx, [s[0]], [s[1]]);
    assert [s[0]] + [s[1]] == [s[0], s[1]];
  }

  lemma EscapeOpens(lx: Lexer, q: byte, s: seq<byte>)
    requires IsQuote(q) && q != BACKTICK && lx.mode == QuoteMode(q) && !lx.escaped && s != [] && s[0] == BACKSLASH
    requires |lx.current| < lx.limit
    ensures Run(lx, s, true) == Run(Fed1(lx, s[0]).(escaped := true), s[1..], true)
  {
    hide Run;
    TakenIsFed(lx.(escaped := true), s[0]);
    OneStep(lx, s, Fed1(lx, s[0]).(escaped := true), 1);
  }

  lemma EscapedByte(lx: Lexer, s: seq<byte>)
    requires (lx.mode.SingleQuote? || lx.mode.DoubleQuote? || lx.mode.Backtick?) && lx.escaped && s != []
    requires |lx.current| < lx.limit
    ensures Run(lx, s, true) == Run(Fed1(lx.(escaped := false), s[0]), s[1..], true)
  {
    hide Run;
    TakenIsFed(lx.(escaped := false), s[0]);
    OneStep(lx, s, Fed1(lx.(escaped := false), s[0]), 1);
  }

  lemma BlockCloses(lx: Lexer, s: seq<byte>)
    requires lx.mode.BlockComment? && |s| >= 2 && s[0] == STAR && s[1] == SLASH && |lx.current| + 1 < lx.limit
    ensures Run(lx, s, true) == Run(Fed(lx, [STAR, SLASH]).(mode := Normal), s[2..], true)
  {
    hide Run, Fed;
    Taken2IsFed(lx, STAR, SLASH);
    OneStep(lx, s, Fed(lx, [STAR, SLASH]).(mode := Normal), 2);
  }

  lemma BlockByte(lx: Lexer, s: seq<byte>)
    requires lx.mode.BlockComment? && s != [] && !(|s| >= 2 && s[0] == STAR && s[1] == SLASH)
    requires |lx.current| < lx.limit
    ensures Run(lx, s, true) == Run(Fed(lx, [s[0]]), s[1..], true)
  {
    hide Run, Fed;
    TakenIsFed(lx, s[0]);
    FedKeeps(lx, [s[0]]);
    OneStep(lx, s, Fed(lx, [s[0]]), 1);
  }

  lemma {:induction false} BlockRun(lx: Lexer, body: seq<byte>, rest: seq<byte>)
    requires lx.mode.BlockComment? && NoBlockEnd(body) && |lx.current| + |body| + 1 < lx.limit
    ensures Run(lx, body + ([STAR, SLASH] + rest), true) ==
            Run(Fed(lx, body + [STAR, SLASH]).(mode := Normal), rest, true)
    decreases |body|
  {
    hide Run, Fed;
    var s := body + ([STAR, SLASH] + rest);
    if body == [] {
      assert s[2..] == rest && body + [STAR, SLASH] == [STAR, SLASH];
      BlockCloses(lx, s);
    } else {
      var l := Fed(lx, [body[0]]);
      FedKeeps(lx, [body[0]]);
      assert s[1..] == body[1..] + ([STAR, SLASH] + rest);
      assert s[0] == body[0] && (if |body| > 1 then s[1] == body[1] else s[1] == STAR);
      BlockByte(lx, s);
      BlockRun(l, body[1..], rest);
      assert [body[0]] + (body[1..] + [STAR, SLASH]) == body + [STAR, SLASH];
      FedAppend(lx, [body[0]], body[1..] + [STAR, SLASH]);
    }
  }

  lemma {:induction false} LineRun(lx: Lexer, body: seq<byte>, rest: seq<byte>)
    requires lx.mode.LineComment? && LF !in body && |lx.current| + |body| < lx.limit
    ensures Run(lx, body + ([LF] + rest), true) == Run(Fed(lx, body + [LF]).(mode := Normal), rest, true)
    decreases |body|
  {
    var s := body + ([LF] + rest);
    if body == [] {
      TakenIsFed(lx, LF);
      assert s[1..] == rest && body + [LF] == [LF];
      OneStep(lx, s, Fed(lx, [LF]).(mode := Normal), 1);
    } else {
      var l := Fed(lx, [body[0]]);
      TakenIsFed(lx, body[0]);
      FedKeeps(lx, [body[0]]);
      assert s[1..] == body[1..] + ([LF] + rest) && body[0] in body;
      OneStep(lx, s, l, 1);
      LineRun(l, body[1..], rest);
      assert [body[0]] + (body[1..] + [LF]) == body + [LF];
      FedAppend(lx, [body[0]], body[1..] + [LF]);
    }
  }

  lemma QuoteOpens(lx: Lexer, s: seq<byte>)
    requires lx.mode.Normal? && s != [] && IsQuote(s[0]) && |lx.current| < lx.limit
    ensures Run(lx, s, true) == Run(Fed1(lx, s[0]).(mode := QuoteMode(s[0]), hasCode := true), s[1..], true)
  {
    TakenIsFed(lx, s[0]);
    OneStep(lx, s, Fed1(lx, s[0]).(mode := QuoteMode(s[0]), hasCode := true), 1);
  }

  lemma QuotedPiece(lx: Lexer, q: byte, body: seq<byte>, rest: seq<byte>)
    requires lx.mode.Normal? && !lx.escaped && Reads(Quoted(q, body), lx, rest)
    requires |lx.current| + |body| + 2 <= lx.limit
    ensures Run(lx, Spell(Quoted(q, body)) + rest, true) == Run(After(lx, Quoted(q, body)), rest, true)
  {
    hide Run, Fed, Escaped;
    var s := [q] + (body + [q]) + rest;
    QuoteOpens(lx, s);
    assert s[0] == q && s[1..] == body + ([q] + rest);
    var l := Fed1(lx, q).(mode := QuoteMode(q), hasCode := true);
    QuotedRun(l, q, body, rest);
    FedIgnores(Fed1(lx, q), QuoteMode(q), lx.escaped, true, body + [q]);
    FedOne(lx, q);
    FedAppend(lx, [q], body + [q]);
    FedKeeps(lx, [q] + (body + [q]));
  }

  lemma BlockOpens(lx: Lexer, s: seq<byte>)
    requires lx.mode.Normal? && OpensBlock(s) && |lx.current| + 1 < lx.limit
    ensures Run(lx, s, true)
         == Run(Fed(lx, [SLASH, STAR]).(mode := BlockComment, hasCode := lx.hasCode || OpensVersioned(s)), s[2..], true)
  {
    Taken2IsFed(lx, SLASH, STAR);
    FedKeeps(lx, [SLASH, STAR]);
    OneStep(lx, s, Fed(lx, [SLASH, STAR]).(mode := BlockComment, hasCode := lx.hasCode || OpensVersioned(s)), 2);
  }

  lemma BlockText(body: seq<byte>, rest: seq<byte>)
    ensures var s := [SLASH, STAR] + (body + [STAR, SLASH]) + rest;
            && OpensBlock(s) && s[2..] == body + ([STAR, SLASH] + rest) && (OpensVersioned(s) <==> HasCode(Block(body)))
  {
    var s := [SLASH, STAR] + (body + [STAR, SLASH]) + rest;
    assert s[2] == if body == [] then STAR else body[0];
  }

  lemma BlockPiece(lx: Lexer, body: seq<byte>, rest: seq<byte>)
    requires lx.mode.Normal? && Reads(Block(body), lx, rest) && |lx.current| + |body| + 4 <= lx.limit
    ensures Run(lx, Spell(Block(body)) + rest, true) == Run(After(lx, Block(body)), rest, true)
  {
    hide Run, Fed, OpensBlock, OpensVersioned, HasCode;
    var s := [SLASH, STAR] + (body + [STAR, SLASH]) + rest;
    var code := lx.hasCode || HasCode(Block(body));
    BlockText(body, rest);
    BlockOpens(lx, s);
    FedKeeps(lx, [SLASH, STAR]);
    BlockRun(Fed(lx, [SLASH, STAR]).(mode := BlockComment, hasCode := code), body, rest);
    FedIgnores(Fed(lx, [SLASH, STAR]), BlockComment, lx.escaped, code, body + [STAR, SLASH]);
    FedAppend(lx, [SLASH, STAR], body + [STAR, SLASH]);
    FedKeeps(lx, [SLASH, STAR] + (body + [STAR, SLASH]));
  }

  lemma LineOpens(lx: Lexer, s: seq<byte>)
    requires lx.mode.Normal? && s != [] && (s[0] == HASH || DashComment(s)) && |lx.current| < lx.limit
    ensures Run(lx, s, true) == Run(Fed1(lx, s[0]).(mode := LineComment), s[1..], true)
  {
    TakenIsFed(lx, s[0]);
    OneStep(lx, s, Fed1(lx, s[0]).(mode := LineComment), 1);
  }

  lemma NoteText(open: seq<byte>, body: seq<byte>, rest: seq<byte>)
    requires LF !in body && (open == [HASH] || (open == [DASH, DASH] && (body + [LF])[0] in BLANKS))
    ensures var s, tail := open + (body + [LF]) + rest, open[1..] + body;
            && s != [] && s[0] == open[0] && (s[0] == HASH || DashComment(s)) && LF !in tail
            && s[1..] == tail + ([LF] + rest) && open + (body + [LF]) == [open[0]] + (tail + [LF])
  {
    var s := open + (body + [LF]) + rest;
    if open == [DASH, DASH] { assert s[2] == (body + [LF])[0]; }
    assert open == [open[0]] + open[1..];
    assert open[1..] == [] || open[1..] == [DASH];
  }

  lemma LinePiece(lx: Lexer, open: seq<byte>, body: seq<byte>, rest: seq<byte>)
    requires lx.mode.Normal? && Reads(LineNote(open, body), lx, rest) && |lx.current| + |open| + |body| + 1 <= lx.limit
    ensures Run(lx, Spell(LineNote(open, body)) + rest, true) == Run(After(lx, LineNote(open, body)), rest, true)
  {
    NoteText(open, body, rest);
    hide Run, Fed, DashComment, IsSpace;
    LineToEnd(lx, open + (body + [LF]) + rest, open[1..] + body, rest);
    FedKeeps(lx, open + (body + [LF]));
  }

  lemma LineToEnd(lx: Lexer, s: seq<byte>, tail: seq<byte>, rest: seq<byte>)
    requires lx.mode.Normal? && s != [] && (s[0] == HASH || DashComment(s)) && LF !in tail
    requires s[1..] == tail + ([LF] + rest) && |lx.current| + |tail| + 2 <= lx.limit
    ensures Run(lx, s, true) == Run(Fed(lx, [s[0]] + (tail + [LF])), rest, true)
  {
    hide Run, Fed, Fed1, DashComment, IsSpace;
    var l := Fed1(lx, s[0]);
    FedOne(lx, s[0]);
    FedKeeps(lx, [s[0]]);
    LineOpens(lx, s);
    LineRun(l.(mode := LineComment), tail, rest);
    FedIgnores(l, LineComment, lx.escaped, lx.hasCode, tail + [LF]);
    FedAppend(lx, [s[0]], tail + [LF]);
    FedKeeps(lx, [s[0]] + (tail + [LF]));
  }

  lemma PieceRun(lx: Lexer, p: Piece, rest: seq<byte>)
    requires lx.mode.Normal? && !lx.escaped && Reads(p, lx, rest) && |lx.current| + |Spell(p)| <= lx.limit
    ensures Run(lx, Spell(p) + rest, true) == Run(After(lx, p), rest, true)
  {
    hide Run, After;
    match p
    case Code(b) => CodeRun(lx, b, rest);
    case Quoted(q, body) => QuotedPiece(lx, q, body, rest);
    case Block(body) => BlockPiece(lx, body, rest);
    case LineNote(open, body) => LinePiece(lx, open, body, rest);
  }

  lemma AfterKeeps(lx: Lexer, p: Piece)
    ensures var l := After(lx, p);
            && l.mode == lx.mode && l.escaped == lx.escaped && l.delimiter == lx.delimiter && l.limit == lx.limit
            && l.current == lx.current + Spell(p) && l.hasCode == (lx.hasCode || HasCode(p))
  {
    FedKeeps(lx, Spell(p));
  }

  lemma {:induction false} AfterAllKeeps(lx: Lexer, ps: seq<Piece>)
    ensures var l := AfterAll(lx, ps);
            && l.mode == lx.mode && l.escaped == lx.escaped && l.delimiter == lx.delimiter && l.limit == lx.limit
            && l.current == lx.current + Render(ps) && l.hasCode == (lx.hasCode || AnyCode(ps))
    decreases |ps|
  {
    hide After, Spell, HasCode;
    if ps == [] {
      assert lx.current + [] == lx.current;
    } else {
      AfterKeeps(lx, ps[0]);
      AfterAllKeeps(After(lx, ps[0]), ps[1..]);
      Common.Assoc(lx.current, Spell(ps[0]), Render(ps[1..]));
    }
  }

  lemma {:induction false} PiecesRun(lx: Lexer, ps: seq<Piece>, rest: seq<byte>)
    requires lx.mode.Normal? && !lx.escaped && AllRead(ps, lx, rest) && |lx.current| + |Render(ps)| <= lx.limit
    ensures Run(lx, Render(ps) + rest, true) == Run(AfterAll(lx, ps), rest, true)
    decreases |ps|
  {
    hide Run, After, Spell, Reads;
    if ps == [] {
      assert Render(ps) + rest == rest;
    } else {
      Common.Assoc(Spell(ps[0]), Render(ps[1..]), rest);
      PieceRun(lx, ps[0], Render(ps[1..]) + rest);
      AfterKeeps(lx, ps[0]);
      PiecesRun(After(lx, ps[0]), ps[1..], rest);
    }
  }

  // ---- A script ----

  /** A delimiter stands here, and nothing that would be read before it. */
  ghost predicate EndsHere(lx: Lexer, s: seq<byte>) { Clear(lx, s) && Stands(lx.delimiter, lx.previous, s) }

  lemma SemicolonEnds(lx: Lexer, s: seq<byte>)
    requires lx.delimiter == [SEMICOLON] && s != [] && s[0] == SEMICOLON
    ensures EndsHere(lx, s)
  {
    hide LineEnd;
    assert [SEMICOLON] <= s;
    if FirstLine(s) != [] { assert FirstLine(s)[0] == s[0]; }
    if FirstLine(s) != [] && |FirstLine(s)| >= 9 { assert FirstLine(s)[..9][0] == SEMICOLON; }
  }

  function Next(lx: Lexer): Lexer { ConsumedAll(Reset(lx), lx.delimiter) }

  lemma {:induction false} ConsumedAllKeeps(lx: Lexer, bs: seq<byte>)
    ensures var l := ConsumedAll(lx, bs);
            && l.mode == lx.mode && l.escaped == lx.escaped && l.delimiter == lx.delimiter && l.limit == lx.limit
            && l.current == lx.current && l.hasCode == lx.hasCode
    decreases |bs|
  {
    if bs != [] { ConsumedAllKeeps(Consumed(lx, bs[0]), bs[1..]); }
  }

  lemma DelimiterRun(lx: Lexer, s: seq<byte>)
    requires lx.mode.Normal? && EndsHere(lx, s)
    ensures |lx.delimiter| <= |s|
    ensures Run(lx, s, true) == Prepend(if lx.hasCode then [Emit(lx)] else [], Run(Next(lx), s[|lx.delimiter|..], true))
  {
    hide Announces, FirstLine, OpensComment, Step, Run, ConsumedAll, Emit;
    ClearStep(lx, s);
    RunStep(lx, s, true);
  }

  /** Between statements. */
  predicate Fresh(lx: Lexer) { lx.mode.Normal? && !lx.escaped && lx.current == [] && !lx.hasCode }

  /** The statements of a section, with the delimiter between them. */
  function ScriptText(stmts: seq<seq<Piece>>, delimiter: seq<byte>): seq<byte>
    requires stmts != []
  {
    if |stmts| == 1 then Render(stmts[0]) else Render(stmts[0]) + (delimiter + ScriptText(stmts[1..], delimiter))
  }

  /** What follows the first statement. */
  function Tail(stmts: seq<seq<Piece>>, delimiter: seq<byte>, rest: seq<byte>): seq<byte>
    requires stmts != []
  {
    if |stmts| == 1 then rest else delimiter + (ScriptText(stmts[1..], delimiter) + rest)
  }

  /** When `rest` follows, every statement fits the limit, its pieces read as what they are called, and the
      delimiter behind it ends it. */
  ghost predicate ScriptReads(stmts: seq<seq<Piece>>, lx: Lexer, rest: seq<byte>)
    requires stmts != []
    decreases |stmts|
  {
    var tail, l := Tail(stmts, lx.delimiter, rest), AfterAll(lx, stmts[0]);
    && |Render(stmts[0])| <= lx.limit && AllRead(stmts[0], lx, tail)
    && (|stmts| > 1 ==> EndsHere(l, tail) && ScriptReads(stmts[1..], Next(l), rest))
  }

  /** The lexer behind the last statement. */
  function AfterSection(stmts: seq<seq<Piece>>, lx: Lexer): Lexer
    requires stmts != []
    decreases |stmts|
  {
    var l := AfterAll(lx, stmts[0]);
    if |stmts| == 1 then l else AfterSection(stmts[1..], Next(l))
  }

  /** The statements with code, trimmed. */
  function Expected(stmts: seq<seq<Piece>>): seq<seq<byte>> {
    if stmts == [] then [] else (if AnyCode(stmts[0]) then [Trimmed(Render(stmts[0]))] else []) + Expected(stmts[1..])
  }

  /** A trimmed text is what the white space at both ends leaves. */
  lemma TrimmedMeans(s: seq<byte>)
    ensures exists a, b :: 0 <= a <= b <= |s| && Cut(s, a, b)
  {
    var a := LeadingSpaces(s);
    if a == |s| {
      assert Cut(s, a, a);
    } else {
      var b := TrailingStart(s);
      assert !IsSpace(s[a]);
      assert Cut(s, a, b);
    }
  }

  /** `s[a..b]` is trimmed, and only white space was dropped. */
  predicate Cut(s: seq<byte>, a: nat, b: nat)
    requires a <= b <= |s|
  {
    && Trimmed(s) == s[a..b] && Blank(s[..a]) && Blank(s[b..])
    && (a < b ==> s[a] !in BLANKS && s[b - 1] !in BLANKS) && (a == b ==> Blank(s))
  }

  function Sqls(out: seq<Statement>): seq<seq<byte>> { if out == [] then [] else [out[0].sql] + Sqls(out[1..]) }

  lemma {:induction false} SqlsAppend(a: seq<Statement>, b: seq<Statement>)
    ensures Sqls(a + b) == Sqls(a) + Sqls(b)
  {
    if a == [] {
      assert a + b == b;
    } else {
      assert (a + b)[1..] == a[1..] + b;
      SqlsAppend(a[1..], b);
    }
  }

  lemma OneSql(st: Statement)
    ensures Sqls([st]) == [st.sql] && Sqls([]) == []
  {
    assert [st][1..] == [];
  }

  lemma RunNothing(lx: Lexer)
    ensures Run(lx, [], true) == Done(lx, [], [])
  {
  }

  lemma FirstStatement(stmts: seq<seq<Piece>>, lx: Lexer, rest: seq<byte>)
    requires stmts != [] && Fresh(lx) && ScriptReads(stmts, lx, rest)
    ensures var l := AfterAll(lx, stmts[0]);
            && Run(lx, ScriptText(stmts, lx.delimiter) + rest, true) == Run(l, Tail(stmts, lx.delimiter, rest), true)
            && l.mode.Normal? && l.hasCode == AnyCode(stmts[0]) && l.current == Render(stmts[0])
            && l.delimiter == lx.delimiter && l.limit == lx.limit && !l.escaped
  {
    hide Run, AllRead, AfterAll, Render, AnyCode, EndsHere, Next;
    var tail := Tail(stmts, lx.delimiter, rest);
    TailFollows(stmts, lx.delimiter, rest);
    PiecesRun(lx, stmts[0], tail);
    AfterAllKeeps(lx, stmts[0]);
    assert [] + Render(stmts[0]) == Render(stmts[0]);
  }

  lemma TailFollows(stmts: seq<seq<Piece>>, delimiter: seq<byte>, rest: seq<byte>)
    requires stmts != []
    ensures ScriptText(stmts, delimiter) + rest == Render(stmts[0]) + Tail(stmts, delimiter, rest)
    ensures |stmts| > 1 ==> delimiter <= Tail(stmts, delimiter, rest)
    ensures |stmts| > 1 ==> Tail(stmts, delimiter, rest)[|delimiter|..] == ScriptText(stmts[1..], delimiter) + rest
  {
    hide Render;
    if |stmts| > 1 {
      var more := ScriptText(stmts[1..], delimiter);
      Common.Assoc(Render(stmts[0]), delimiter + more, rest);
      Common.Assoc(delimiter, more, rest);
    }
  }

  lemma NextIsFresh(lx: Lexer)
    requires lx.mode.Normal?
    ensures Fresh(Next(lx)) && Next(lx).delimiter == lx.delimiter && Next(lx).limit == lx.limit
  {
    ConsumedAllKeeps(Reset(lx), lx.delimiter);
  }

  lemma PrependTwice(a: seq<Statement>, b: seq<Statement>, p: Progress)
    ensures Prepend(a, Prepend(b, p)) == Prepend(a + b, p)
  {
    if p.Done? { Common.Assoc(a, b, p.out); }
  }

  lemma MoreReads(stmts: seq<seq<Piece>>, lx: Lexer, rest: seq<byte>)
    requires |stmts| > 1 && ScriptReads(stmts, lx, rest)
    ensures EndsHere(AfterAll(lx, stmts[0]), Tail(stmts, lx.delimiter, rest))
            && ScriptReads(stmts[1..], Next(AfterAll(lx, stmts[0])), rest)
  {
  }

  lemma ConcludedTail(out: seq<Statement>, p: Progress)
    ensures Concluded(p).Ok? ==> Concluded(Prepend(out, p)) == Ok(out + Concluded(p).value)
  {
    if p.Done? && p.lx.hasCode { Common.Assoc(out, p.out, [Emit(p.lx)]); }
  }

  ghost predicate Stopped(stmts: seq<seq<Piece>>, lx: Lexer, l: Lexer) {
    && stmts != [] && l.mode.Normal? && !l.escaped && l.delimiter == lx.delimiter && l.limit == lx.limit
    && var last := stmts[|stmts| - 1]; l.hasCode == AnyCode(last) && l.current == Render(last)
  }

  /** From between statements, the statements of a section come out, but for the last, which is still open. */
  lemma {:induction false} SectionRun(stmts: seq<seq<Piece>>, lx: Lexer, rest: seq<byte>) returns (out: seq<Statement>)
    requires stmts != [] && Fresh(lx) && ScriptReads(stmts, lx, rest)
    ensures Stopped(stmts, lx, AfterSection(stmts, lx))
    ensures Run(lx, ScriptText(stmts, lx.delimiter) + rest, true)
         == Prepend(out, Run(AfterSection(stmts, lx), rest, true))
    ensures Sqls(out) == Expected(stmts[..|stmts| - 1])
    decreases |stmts|
  {
    hide Run, AllRead, AfterAll, Next, Fresh, ScriptReads, Expected, ScriptText, Render, AnyCode;
    var l := AfterAll(lx, stmts[0]);
    FirstStatement(stmts, lx, rest);
    if |stmts| == 1 {
      out := [];
      assert stmts[..0] == [];
      ExpectedNothing();
      PrependNothing(Run(l, rest, true));
    } else {
      var first := if l.hasCode then [Emit(l)] else [];
      var tail, more := Tail(stmts, lx.delimiter, rest), stmts[1..];
      MoreReads(stmts, lx, rest);
      TailFollows(stmts, lx.delimiter, rest);
      DelimiterRun(l, tail);
      NextIsFresh(l);
      var later := SectionRun(more, Next(l), rest);
      PrependTwice(first, later, Run(AfterSection(stmts, lx), rest, true));
      out := first + later;
      SqlsAppend(first, later);
      OneSql(Emit(l));
      ExpectedFirst(stmts);
    }
  }

  lemma ExpectedNothing()
    ensures Expected([]) == [] && Sqls([]) == []
  {
  }

  lemma ExpectedFirst(stmts: seq<seq<Piece>>)
    requires |stmts| > 1
    ensures var init, more := stmts[..|stmts| - 1], stmts[1..];
            && Expected(init) == Expected([stmts[0]]) + Expected(more[..|more| - 1])
            && Expected([stmts[0]]) == (if AnyCode(stmts[0]) then [Trimmed(Render(stmts[0]))] else [])
  {
    hide Trimmed, Render, AnyCode;
    assert stmts[..|stmts| - 1][1..] == stmts[1..][..|stmts| - 2];
    assert [stmts[0]][1..] == [];
    ExpectedNothing();
  }

  lemma {:induction false} ExpectedLast(stmts: seq<seq<Piece>>)
    requires stmts != []
    ensures Expected(stmts) == Expected(stmts[..|stmts| - 1]) + Expected([stmts[|stmts| - 1]])
  {
    hide Trimmed, Render, AnyCode;
    if |stmts| == 1 {
      assert stmts == [stmts[0]] && stmts[..0] == [];
      ExpectedNothing();
    } else {
      ExpectedLast(stmts[1..]);
      ExpectedFirst(stmts);
      assert stmts[1..][|stmts| - 2] == stmts[|stmts| - 1];
    }
  }

  // ---- Scripts of one section ----

  lemma Concluding(out: seq<Statement>, l: Lexer, last: seq<Piece>)
    requires l.mode.Normal? && l.hasCode == AnyCode(last) && l.current == Render(last)
    ensures var r := Concluded(Prepend(out, Run(l, [], true)));
            r.Ok? && Sqls(r.value) == Sqls(out) + Expected([last])
  {
    hide Render, AnyCode;
    RunNothing(l);
    OneSql(Emit(l));
    SqlsAppend(out, [Emit(l)]);
    ExpectedNothing();
    assert out + [] == out && [last][1..] == [] && Sqls(out) + [] == Sqls(out);
    assert [Trimmed(Render(last))] + [] == [Trimmed(Render(last))];
  }

  /** From between statements, a script is split into its statements. */
  lemma ScriptSplits(stmts: seq<seq<Piece>>, lx: Lexer)
    requires stmts != [] && Fresh(lx) && ScriptReads(stmts, lx, [])
    ensures var r := Concluded(Run(lx, ScriptText(stmts, lx.delimiter), true));
            r.Ok? && Sqls(r.value) == Expected(stmts)
  {
    hide Run, AfterSection, Fresh, ScriptReads, Expected, ScriptText, Render, AnyCode, Concluded;
    var out := SectionRun(stmts, lx, []);
    assert ScriptText(stmts, lx.delimiter) + [] == ScriptText(stmts, lx.delimiter);
    Concluding(out, AfterSection(stmts, lx), stmts[|stmts| - 1]);
    ExpectedLast(stmts);
  }

  /** Every statement fits the limit, and its pieces read as what they are called. */
  ghost predicate StatementsRead(stmts: seq<seq<Piece>>, lx: Lexer)
    requires stmts != []
    decreases |stmts|
  {
    && |Render(stmts[0])| <= lx.limit && AllRead(stmts[0], lx, Tail(stmts, lx.delimiter, []))
    && (|stmts| > 1 ==> StatementsRead(stmts[1..], Next(AfterAll(lx, stmts[0]))))
  }

  /** A semicolon ends whatever statement stands before it. */
  lemma {:induction false} SemicolonsEnd(stmts: seq<seq<Piece>>, lx: Lexer)
    requires stmts != [] && lx.delimiter == [SEMICOLON] && lx.mode.Normal? && StatementsRead(stmts, lx)
    ensures ScriptReads(stmts, lx, [])
    decreases |stmts|
  {
    hide AllRead, Next, EndsHere, Render;
    if |stmts| > 1 {
      var l := AfterAll(lx, stmts[0]);
      AfterAllKeeps(lx, stmts[0]);
      NextIsFresh(l);
      SemicolonEnds(l, Tail(stmts, lx.delimiter, []));
      SemicolonsEnd(stmts[1..], Next(l));
    }
  }

  /** Splitting undoes putting together: fed in any safe pieces, a script of statements joined by semicolons
      gives back the statements that have code, trimmed and in order. */
  lemma SplitUndoesScript(stmts: seq<seq<Piece>>, limit: nat, pieces: seq<seq<byte>>)
    requires stmts != [] && StatementsRead(stmts, Init(limit))
    requires Concat(pieces) == ScriptText(stmts, [SEMICOLON]) && SafeCuts(Init(limit), pieces)
    ensures var r := Session(Init(limit), pieces);
            r.Ok? && Sqls(r.value) == Expected(stmts)
  {
    hide Run, ScriptReads, StatementsRead, ScriptText;
    SemicolonsEnd(stmts, Init(limit));
    ScriptSplits(stmts, Init(limit));
    ChunkingInvariance(Init(limit), pieces);
  }
}
