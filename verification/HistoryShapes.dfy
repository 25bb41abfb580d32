/** What a fingerprint does not see: case, comments, literals, runs of white space, lengths of lists. */
module HistoryShapes {
  import opened Common
  import opened Text
  import opened HistoryFingerprint
  import opened HistoryNormalForm

  // ---- Letter case ----

  lemma LowerTail(s: string, n: nat)
    requires n <= |s|
    ensures LowerAll(s)[n..] == LowerAll(s[n..])
  {
  }

  lemma {:induction false} BlockEndLower(s: string)
    ensures BlockEnd(LowerAll(s)) == BlockEnd(s)
  {
    if |s| >= 2 {
      LowerTail(s, 1);
      BlockEndLower(s[1..]);
    }
  }

  lemma {:induction false} LineLower(s: string)
    ensures LineLength(LowerAll(s)) == LineLength(s)
  {
    if s != [] {
      LowerTail(s, 1);
      LineLower(s[1..]);
    }
  }

  lemma {:induction false} QuoteEndLower(s: string, q: char)
    requires IsQuote(q)
    ensures QuoteEnd(LowerAll(s), q) == QuoteEnd(s, q)
    decreases |s|
  {
    if s != [] {
      LowerTail(s, 1);
      if s[0] == '\\' && |s| > 1 {
        LowerTail(s, 2);
        QuoteEndLower(s[2..], q);
      } else {
        QuoteEndLower(s[1..], q);
      }
    }
  }

  lemma {:induction false} DigitsLower(s: string)
    ensures DigitRun(LowerAll(s)) == DigitRun(s)
  {
    if s != [] {
      LowerTail(s, 1);
      DigitsLower(s[1..]);
    }
  }

  lemma StandsAloneLower(s: string)
    ensures NumberLen(LowerAll(s)) == NumberLen(s) && (StandsAlone(LowerAll(s)) <==> StandsAlone(s))
  {
    DigitsLower(s);
    DigitsFit(s);
    var d := DigitRun(s);
    if d < |s| {
      LowerTail(s, d + 1);
      DigitsLower(s[d + 1..]);
    }
  }

  lemma RegionLower(s: string, word: bool)
    requires s != []
    ensures Region(LowerAll(s), word) == Region(s, word)
  {
    LowerTail(s, 1);
    QuoteFits(s[1..], s[0]);
    if |s| > 1 {
      LowerTail(s, 2);
      BlockEndLower(s[2..]);
      LineLower(s[2..]);
    }
    if IsQuote(s[0]) { QuoteEndLower(s[1..], s[0]); }
    StandsAloneLower(s);
  }

  lemma {:induction false} RawLower(s: string, word: bool)
    ensures Raw(LowerAll(s), word) == Raw(s, word)
    decreases |s|
  {
    if s != [] {
      var n := Region(s, word);
      RegionLower(s, word);
      if n > 0 {
        LowerTail(s, n);
        RawLower(s[n..], false);
      } else {
        LowerTail(s, 1);
        RawLower(s[1..], IsWordChar(s[0]));
      }
    }
  }

  /** Statements that are the same in lower case have one fingerprint. */
  lemma CaseDoesNotMatter(s: string, t: string)
    requires LowerAll(s) == LowerAll(t)
    ensures Fingerprint(s) == Fingerprint(t)
  {
    RawLower(s, false);
    RawLower(t, false);
  }

  // ---- Pieces ----

  datatype Piece =
    | Code(c: char)
    | Blank(white: string)
    | Quoted(quote: char, body: string)
    | Number(whole: string, decimals: string)
    | Block(body: string)
    | Line(body: string)

  function Spell(p: Piece): string {
    match p
    case Code(c) => [c]
    case Blank(white) => white
    case Quoted(q, body) => [q] + (body + [q])
    case Number(whole, decimals) => whole + (if decimals == [] then "" else "." + decimals)
    case Block(body) => "/*" + (body + "*/")
    case Line(body) => "--" + body
  }

  function Render(ps: seq<Piece>): string { if ps == [] then [] else Spell(ps[0]) + Render(ps[1..]) }

  /** What is left of a piece. */
  function Image(p: Piece): char {
    match p
    case Code(c) => Lower(c)
    case Quoted(_, _) => '?'
    case Number(_, _) => '?'
    case _ => ' '
  }

  function Shape(ps: seq<Piece>): string { if ps == [] then [] else [Image(ps[0])] + Shape(ps[1..]) }

  predicate AllWhite(s: string) { forall i | 0 <= i < |s| :: IsWhitespace(s[i]) }

  /** No quote but behind a backslash, and no backslash left over. */
  predicate Escaped(body: string, q: char)
    decreases |body|
  {
    || body == []
    || (body[0] == '\\' && |body| >= 2 && Escaped(body[2..], q))
    || (body[0] != '\\' && body[0] != q && Escaped(body[1..], q))
  }

  predicate NoBlockEnd(body: string) { forall i | 0 <= i < |body| - 1 :: !(body[i] == '*' && body[i + 1] == '/') }

  /** The piece reads as what it is called when `rest` follows; `word` says that a word character stands
      before it. */
  predicate Reads(p: Piece, rest: string, word: bool) {
    match p
    case Code(c) => !IsWhitespace(c) && Region([c] + rest, word) == 0
    case Blank(white) => white != [] && AllWhite(white)
    case Quoted(q, body) => IsQuote(q) && Escaped(body, q)
    case Number(whole, decimals) =>
      && !word && whole != [] && AllDigits(whole) && AllDigits(decimals)
      && (rest != [] ==> !IsWordChar(rest[0]))
      && (decimals == [] && |rest| > 1 ==> !(rest[0] == '.' && IsDigit(rest[1])))
    case Block(body) => NoBlockEnd(body)
    case Line(body) => '\n' !in body && (rest != [] ==> rest[0] == '\n')
  }

  predicate WordAfter(p: Piece) { p.Code? && IsWordChar(p.c) }

  predicate AllRead(ps: seq<Piece>, word: bool) {
    ps == [] || (Reads(ps[0], Render(ps[1..]), word) && AllRead(ps[1..], WordAfter(ps[0])))
  }

  // ---- The scanner takes the pieces for what they are ----

  lemma {:induction false} QuoteEndOf(body: string, q: char, rest: string)
    requires IsQuote(q) && Escaped(body, q)
    ensures QuoteEnd(body + [q] + rest, q) == Some(|body| + 1)
    decreases |body|
  {
    var s := body + [q] + rest;
    if body != [] {
      if body[0] == '\\' {
        assert s[2..] == body[2..] + [q] + rest;
        QuoteEndOf(body[2..], q, rest);
      } else {
        assert s[1..] == body[1..] + [q] + rest;
        QuoteEndOf(body[1..], q, rest);
      }
    }
  }

  lemma {:induction false} BlockEndOf(body: string, rest: string)
    requires NoBlockEnd(body)
    ensures BlockEnd(body + "*/" + rest) == Some(|body| + 2)
  {
    var s := body + "*/" + rest;
    if body != [] {
      assert s[1..] == body[1..] + "*/" + rest;
      BlockEndOf(body[1..], rest);
    }
  }

  lemma {:induction false} LineLenOf(body: string, rest: string)
    requires '\n' !in body && (rest != [] ==> rest[0] == '\n')
    ensures LineLength(body + rest) == |body|
  {
    if body == [] {
      assert body + rest == rest;
    } else {
      assert (body + rest)[1..] == body[1..] + rest;
      LineLenOf(body[1..], rest);
    }
  }

  lemma {:induction false} DigitsOf(s: string, rest: string)
    requires AllDigits(s) && (rest != [] ==> !IsDigit(rest[0]))
    ensures DigitRun(s + rest) == |s|
  {
    if s == [] {
      assert s + rest == rest;
    } else {
      assert (s + rest)[1..] == s[1..] + rest;
      DigitsOf(s[1..], rest);
    }
  }

  lemma WholeLenOf(whole: string, rest: string)
    requires AllDigits(whole) && (rest != [] ==> !IsDigit(rest[0]))
    requires |rest| > 1 ==> !(rest[0] == '.' && IsDigit(rest[1]))
    ensures NumberLen(whole + rest) == |whole|
  {
    DigitsOf(whole, rest);
    hide AllDigits, DigitRun, IsDigit;
    NumberLenAt(whole + rest, |whole|);
  }

  lemma NumberLenAt(s: string, d: nat)
    requires DigitRun(s) == d <= |s|
    ensures d + 1 < |s| && s[d] == '.' && IsDigit(s[d + 1]) ==> NumberLen(s) == d + 1 + DigitRun(s[d + 1..])
    ensures !(d + 1 < |s| && s[d] == '.' && IsDigit(s[d + 1])) ==> NumberLen(s) == d
  {
  }

  lemma DecimalsLenOf(whole: string, decimals: string, rest: string)
    requires AllDigits(whole) && AllDigits(decimals) && decimals != [] && (rest != [] ==> !IsDigit(rest[0]))
    ensures NumberLen(whole + ("." + decimals + rest)) == |whole| + 1 + |decimals|
  {
    var tail := "." + decimals + rest;
    DigitsOf(whole, tail);
    DigitsOf(decimals, rest);
    assert IsDigit(decimals[0]);
    hide AllDigits, DigitRun, IsDigit;
    assert (whole + tail)[|whole| + 1..] == decimals + rest;
    NumberLenAt(whole + tail, |whole|);
  }

  lemma NumberLenOf(p: Piece, rest: string)
    requires p.Number? && Reads(p, rest, false)
    ensures NumberLen(Spell(p) + rest) == |Spell(p)|
  {
    var s := Spell(p) + rest;
    assert rest != [] ==> !IsDigit(rest[0]);
    if p.decimals == [] {
      assert s == p.whole + rest;
      WholeLenOf(p.whole, rest);
    } else {
      assert s == p.whole + ("." + p.decimals + rest);
      hide NumberLen;
      DecimalsLenOf(p.whole, p.decimals, rest);
    }
  }

  lemma RegionOfQuoted(q: char, body: string, rest: string, word: bool)
    requires IsQuote(q) && Escaped(body, q)
    ensures Region(Spell(Quoted(q, body)) + rest, word) == |body| + 2
  {
    hide Region, QuoteEnd, Escaped;
    var s := Spell(Quoted(q, body)) + rest;
    SpellQuoted(q, body, rest);
    QuoteEndOf(body, q, rest);
    RegionAtQuote(s, word, |body| + 1);
  }

  lemma SpellQuoted(q: char, body: string, rest: string)
    ensures var s := [q] + (body + [q]) + rest; s[1..] == body + [q] + rest && s[0] == q
  {
  }

  lemma RegionAtQuote(s: string, word: bool, n: nat)
    requires s != [] && IsQuote(s[0]) && QuoteEnd(s[1..], s[0]) == Some(n)
    ensures Region(s, word) == n + 1
  {
    hide QuoteEnd;
  }

  lemma RegionOfBlock(body: string, rest: string, word: bool)
    requires NoBlockEnd(body)
    ensures Region(Spell(Block(body)) + rest, word) == |body| + 4
  {
    var s := Spell(Block(body)) + rest;
    assert s[2..] == body + "*/" + rest && s[0] == '/' && s[1] == '*';
    BlockEndOf(body, rest);
    hide BlockEnd, NoBlockEnd, Spell;
  }

  lemma RegionOfLine(body: string, rest: string, word: bool)
    requires '\n' !in body && (rest != [] ==> rest[0] == '\n')
    ensures Region(Spell(Line(body)) + rest, word) == |body| + 2
  {
    var s := Spell(Line(body)) + rest;
    assert s[2..] == body + rest && s[0] == '-' && s[1] == '-';
    LineLenOf(body, rest);
    hide LineLength, Spell;
  }

  lemma RegionOfNumber(p: Piece, rest: string)
    requires p.Number? && Reads(p, rest, false)
    ensures Spell(p) != [] && IsDigit(Spell(p)[0]) && Region(Spell(p) + rest, false) == |Spell(p)|
  {
    var s := Spell(p) + rest;
    NumberLenOf(p, rest);
    assert IsDigit(s[0]) && s[0] == Spell(p)[0];
    assert rest != [] ==> s[|Spell(p)|] == rest[0];
    hide NumberLen, Spell;
  }

  lemma RegionOfPiece(p: Piece, rest: string, word: bool)
    requires Reads(p, rest, word) && !p.Code? && !p.Blank?
    ensures Spell(p) != [] && Region(Spell(p) + rest, word) == |Spell(p)| && Mark(Spell(p)[0]) == Image(p)
  {
    hide Region;
    match p
    case Quoted(q, body) => RegionOfQuoted(q, body, rest, word);
    case Number(whole, decimals) => RegionOfNumber(p, rest);
    case Block(body) => RegionOfBlock(body, rest, word);
    case Line(body) => RegionOfLine(body, rest, word);
    case _ =>
  }

  lemma {:induction false} RawOfWhite(white: string, rest: string, word: bool)
    requires white != [] && AllWhite(white)
    ensures Raw(white + rest, word) == white + Raw(rest, false)
  {
    var s := white + rest;
    WhiteIsCopied(white[0]);
    hide Raw, Region, IsWhitespace, IsWordChar, Lower, Opens;
    assert s[1..] == white[1..] + rest && s[0] == white[0];
    RegionOfOther(s, word);
    RawCopy(s, word);
    if |white| > 1 {
      RawOfWhite(white[1..], rest, false);
      FrontOne(white, |white|, Raw(rest, false));
      assert white[1..][..|white| - 1] == white[1..] && white[..|white|] == white;
    } else {
      assert white[1..] + rest == rest;
    }
  }

  lemma WhiteIsCopied(c: char)
    requires IsWhitespace(c)
    ensures !Opens(c) && Lower(c) == c && !IsWordChar(c)
  {
  }

  /** A piece as the scanner pushes it. */
  function Pushed(p: Piece): string { if p.Blank? then p.white else [Image(p)] }

  function PushedAll(ps: seq<Piece>): string { if ps == [] then [] else Pushed(ps[0]) + PushedAll(ps[1..]) }

  lemma {:induction false} RawOfPieces(ps: seq<Piece>, word: bool)
    requires AllRead(ps, word)
    ensures Raw(Render(ps), word) == PushedAll(ps)
  {
    if ps != [] {
      var rest := Render(ps[1..]);
      var s := Spell(ps[0]) + rest;
      RawOfPieces(ps[1..], WordAfter(ps[0]));
      assert s[|Spell(ps[0])|..] == rest;
      match ps[0]
      case Code(c) =>
        RawCopy(s, word);
      case Blank(white) =>
        RawOfWhite(white, rest, word);
      case _ =>
        RegionOfPiece(ps[0], rest, word);
        RawRegion(s, word);
    }
  }

  lemma RawRegion(s: string, word: bool)
    requires s != [] && Region(s, word) > 0
    ensures Raw(s, word) == [Mark(s[0])] + Raw(s[Region(s, word)..], false)
  {
  }

  lemma {:induction false} SqueezeWhite(white: string, rest: string, started: bool, pending: bool)
    requires white != [] && AllWhite(white)
    ensures Squeeze(white + rest, started, pending) == Squeeze(rest, started, true)
  {
    assert (white + rest)[1..] == white[1..] + rest;
    if |white| > 1 { SqueezeWhite(white[1..], rest, started, true); } else { assert white[1..] + rest == rest; }
  }

  lemma {:induction false} SqueezeOfPieces(ps: seq<Piece>, word: bool, started: bool, pending: bool)
    requires AllRead(ps, word)
    ensures Squeeze(PushedAll(ps), started, pending) == Squeeze(Shape(ps), started, pending)
  {
    if ps != [] {
      assert (Pushed(ps[0]) + PushedAll(ps[1..]))[|Pushed(ps[0])|..] == PushedAll(ps[1..]);
      assert ([Image(ps[0])] + Shape(ps[1..]))[1..] == Shape(ps[1..]);
      if ps[0].Blank? {
        SqueezeWhite(ps[0].white, PushedAll(ps[1..]), started, pending);
        SqueezeOfPieces(ps[1..], false, started, true);
      } else if IsWhitespace(Image(ps[0])) {
        SqueezeOfPieces(ps[1..], WordAfter(ps[0]), started, true);
      } else {
        SqueezeOfPieces(ps[1..], WordAfter(ps[0]), true, false);
      }
    }
  }

  /** The fingerprint of a statement is made from its shape alone. */
  lemma FingerprintOfPieces(ps: seq<Piece>)
    requires AllRead(ps, false)
    ensures Fingerprint(Render(ps)) == Collapse(Squeeze(Shape(ps), false, false), false)
  {
    RawOfPieces(ps, false);
    SqueezeOfPieces(ps, false, false, false);
  }

  predicate IsLiteral(p: Piece) { p.Quoted? || p.Number? }

  predicate IsGap(p: Piece) { p.Blank? || p.Block? || p.Line? }

  /** Two code characters that differ in case, two literals, or two of comments and white space. */
  predicate Alike(p: Piece, q: Piece) {
    || (p.Code? && q.Code? && Lower(p.c) == Lower(q.c))
    || (IsLiteral(p) && IsLiteral(q))
    || (IsGap(p) && IsGap(q))
  }

  /** A statement without the gaps at its ends, and with one blank for each run of gaps inside; `started` says
      that code stands before, `pending` that a gap does. */
  function Skeleton(ps: seq<Piece>, started: bool, pending: bool): seq<Piece> {
    if ps == [] then []
    else if IsGap(ps[0]) then Skeleton(ps[1..], started, true)
    else (if pending && started then [Blank(" ")] else []) + ([ps[0]] + Skeleton(ps[1..], true, false))
  }

  lemma ShapeOne(p: Piece, ps: seq<Piece>)
    ensures Shape([p] + ps) == [Image(p)] + Shape(ps)
  {
    assert ([p] + ps)[1..] == ps;
  }

  lemma ImageIsWhite(p: Piece, rest: string, word: bool)
    requires Reads(p, rest, word)
    ensures IsWhitespace(Image(p)) <==> IsGap(p)
  {
  }

  /** White space is squeezed to what the skeleton has. */
  lemma {:induction false} SqueezeOfSkeleton(ps: seq<Piece>, word: bool, started: bool, pending: bool)
    requires AllRead(ps, word)
    ensures Squeeze(Shape(ps), started, pending) == Shape(Skeleton(ps, started, pending))
  {
    if ps != [] {
      var p, rest := ps[0], ps[1..];
      ImageIsWhite(p, Render(rest), word);
      assert ps == [p] + rest;
      ShapeOne(p, rest);
      assert ([Image(p)] + Shape(rest))[1..] == Shape(rest);
      if IsGap(p) {
        SqueezeOfSkeleton(rest, WordAfter(p), started, true);
      } else {
        SqueezeOfSkeleton(rest, WordAfter(p), true, false);
        var more := Skeleton(rest, true, false);
        ShapeOne(p, more);
        SqueezeCopy(Shape(ps), started, pending);
        hide Squeeze, Shape, Reads, AllRead;
        if pending && started { ShapeOne(Blank(" "), [p] + more); } else { assert [] + ([p] + more) == [p] + more; }
      }
    }
  }

  lemma {:induction false} SameShape(ps: seq<Piece>, qs: seq<Piece>)
    requires |ps| == |qs| && forall i | 0 <= i < |ps| :: Alike(ps[i], qs[i])
    ensures Shape(ps) == Shape(qs)
  {
    if ps != [] { SameShape(ps[1..], qs[1..]); }
  }

  /** Statements that differ only in closed literals, comments, letter case and white space, at their ends and
      between, have one fingerprint: their skeletons pair up piece by piece. */
  lemma AlikeStatements(ps: seq<Piece>, qs: seq<Piece>)
    requires AllRead(ps, false) && AllRead(qs, false)
    requires var a, b := Skeleton(ps, false, false), Skeleton(qs, false, false);
             |a| == |b| && forall i | 0 <= i < |a| :: Alike(a[i], b[i])
    ensures Fingerprint(Render(ps)) == Fingerprint(Render(qs))
  {
    hide Fingerprint, AllRead, Skeleton, Squeeze, Collapse, Shape;
    FingerprintOfPieces(ps);
    FingerprintOfPieces(qs);
    SqueezeOfSkeleton(ps, false, false, false);
    SqueezeOfSkeleton(qs, false, false, false);
    SameShape(Skeleton(ps, false, false), Skeleton(qs, false, false));
  }

  /** In particular a comment or white space in front of a statement, or behind it, does not matter. */
  lemma GapsAtTheEnds(before: seq<Piece>, ps: seq<Piece>, after: seq<Piece>)
    requires (forall p <- before :: IsGap(p)) && (forall p <- after :: IsGap(p))
    requires AllRead(before + (ps + after), false) && AllRead(ps, false)
    ensures Fingerprint(Render(before + (ps + after))) == Fingerprint(Render(ps))
  {
    GapsBefore(before, ps + after, false);
    GapsBehind(ps, after, false, false);
    SkeletonStart(ps + after, true);
    var s := Skeleton(ps, false, false);
    assert forall i | 0 <= i < |s| :: Alike(s[i], s[i]);
    hide Fingerprint, AllRead, Skeleton, Alike;
    AlikeStatements(before + (ps + after), ps);
  }

  lemma {:induction false} GapsBefore(before: seq<Piece>, ps: seq<Piece>, pending: bool)
    requires forall p <- before :: IsGap(p)
    ensures Skeleton(before + ps, false, pending) == Skeleton(ps, false, pending || before != [])
  {
    if before == [] {
      assert before + ps == ps;
    } else {
      assert (before + ps)[1..] == before[1..] + ps && before[0] in before && forall p <- before[1..] :: p in before;
      GapsBefore(before[1..], ps, true);
    }
  }

  lemma {:induction false} GapsBehind(ps: seq<Piece>, after: seq<Piece>, started: bool, pending: bool)
    requires forall p <- after :: IsGap(p)
    ensures Skeleton(ps + after, started, pending) == Skeleton(ps, started, pending)
    decreases |ps| + |after|
  {
    if ps == [] {
      assert ps + after == after;
      if after != [] {
        assert after[0] in after && forall p <- after[1..] :: p in after;
        GapsBehind([], after[1..], started, true);
        assert [] + after[1..] == after[1..];
      }
    } else {
      assert (ps + after)[1..] == ps[1..] + after;
      if IsGap(ps[0]) { GapsBehind(ps[1..], after, started, true); } else { GapsBehind(ps[1..], after, true, false); }
    }
  }

  /** Before any code it does not matter whether a gap stands before. */
  lemma {:induction false} SkeletonStart(ps: seq<Piece>, pending: bool)
    ensures Skeleton(ps, false, pending) == Skeleton(ps, false, false)
  {
    if ps != [] && IsGap(ps[0]) { SkeletonStart(ps[1..], true); }
  }

  // ---- Every statement is made of pieces ----

  function PieceOf(s: string, n: nat): Piece
    requires 0 < n <= |s|
  {
    if s[0] == '/' then if n < 4 then Code('/') else Block(s[2..n - 2])
    else if s[0] == '-' then if n < 2 then Code('-') else Line(s[2..n])
    else if IsQuote(s[0]) then if n < 2 then Code(s[0]) else Quoted(s[0], s[1..n - 1])
    else
      var d := DigitRun(s);
      if d < n then if n < d + 1 then Code(s[0]) else Number(s[..d], s[d + 1..n]) else Number(s[..n], "")
  }

  function Lex(s: string, word: bool): seq<Piece>
    decreases |s|
  {
    if s == [] then []
    else
      var n := Region(s, word);
      if n > 0 then [PieceOf(s, n)] + Lex(s[n..], false)
      else if IsWhitespace(s[0]) then [Blank([s[0]])] + Lex(s[1..], false)
      else [Code(s[0])] + Lex(s[1..], IsWordChar(s[0]))
  }

  lemma {:induction false} EscapedUpTo(s: string, q: char)
    requires IsQuote(q) && QuoteEnd(s, q).Some?
    ensures var e := QuoteEnd(s, q).value;
            1 <= e <= |s| && s[e - 1] == q && Escaped(s[..e - 1], q)
    decreases |s|
  {
    QuoteFits(s, q);
    var e := QuoteEnd(s, q).value;
    if s[0] == '\\' {
      EscapedUpTo(s[2..], q);
      assert s[..e - 1][2..] == s[2..][..e - 3];
    } else if s[0] != q {
      EscapedUpTo(s[1..], q);
      assert s[..e - 1][1..] == s[1..][..e - 2];
    }
  }

  lemma {:induction false} BlockUpTo(s: string)
    requires BlockEnd(s).Some?
    ensures var e := BlockEnd(s).value;
            2 <= e <= |s| && s[e - 2] == '*' && s[e - 1] == '/' && NoBlockEnd(s[..e - 2])
  {
    BlockEndFits(s);
    var e := BlockEnd(s).value;
    if !(s[0] == '*' && s[1] == '/') {
      BlockUpTo(s[1..]);
      forall i | 0 <= i < e - 3 ensures !(s[i] == '*' && s[i + 1] == '/') {
        if i > 0 { assert s[1..][..e - 3][i - 1] == s[i] && s[1..][..e - 3][i] == s[i + 1]; }
      }
    }
  }

  lemma BlockPiece(s: string, word: bool)
    requires s != [] && s[0] == '/' && Region(s, word) > 0
    ensures var n := Region(s, word); var p := PieceOf(s, n); Spell(p) == s[..n] && Reads(p, s[n..], word)
  {
    var n := Region(s, word);
    BlockUpTo(s[2..]);
    assert s[2..][n - 4] == s[n - 2] && s[2..][n - 3] == s[n - 1];
    assert s[2..][..n - 4] == s[2..n - 2];
    assert s[..n] == "/*" + (s[2..n - 2] + "*/");
  }

  lemma LinePiece(s: string, word: bool)
    requires s != [] && s[0] == '-' && Region(s, word) > 0
    ensures var n := Region(s, word); var p := PieceOf(s, n); Spell(p) == s[..n] && Reads(p, s[n..], word)
  {
    var n := Region(s, word);
    LineFits(s[2..]);
    assert s[2..][..n - 2] == s[2..n];
    assert s[..n] == "--" + s[2..n];
  }

  lemma QuotedPiece(s: string, word: bool)
    requires s != [] && IsQuote(s[0]) && Region(s, word) > 0
    ensures var n := Region(s, word); var p := PieceOf(s, n); Spell(p) == s[..n] && Reads(p, s[n..], word)
  {
    var n := Region(s, word);
    EscapedUpTo(s[1..], s[0]);
    assert s[1..][n - 2] == s[n - 1];
    assert s[1..][..n - 2] == s[1..n - 1];
    assert s[..n] == [s[0]] + (s[1..n - 1] + [s[0]]);
  }

  lemma NumberPiece(s: string, word: bool)
    requires s != [] && IsDigit(s[0]) && Region(s, word) > 0
    ensures var n := Region(s, word); var p := PieceOf(s, n); Spell(p) == s[..n] && Reads(p, s[n..], word)
  {
    var d, n := DigitRun(s), NumberLen(s);
    RegionIsNumber(s, word);
    DigitsFit(s);
    assert n < |s| ==> s[n..][0] == s[n] && !IsWordChar(s[n]);
    NumberShape(s, d, n);
    hide Region, NumberLen, StandsAlone, IsDigit, IsWordChar, PieceOf;
    if d < n { WithDecimals(s, n, word); } else { WithoutDecimals(s, n, word); }
  }

  lemma NumberShape(s: string, d: nat, n: nat)
    requires d == DigitRun(s) <= |s| && n == NumberLen(s)
    ensures d <= n
    ensures d == n && n + 1 < |s| ==> !(s[n] == '.' && IsDigit(s[n + 1]))
    ensures d < n ==> d + 1 < n <= |s| && s[d] == '.' && n == d + 1 + DigitRun(s[d + 1..])
  {
    NumberLenAt(s, d);
    hide NumberLen, DigitRun, IsDigit;
    if d + 1 < |s| && s[d] == '.' && IsDigit(s[d + 1]) { TailFits(s, d + 1); }
  }

  lemma TailFits(s: string, from: nat)
    requires from < |s| && IsDigit(s[from])
    ensures 0 < DigitRun(s[from..]) <= |s| - from
  {
    DigitsFit(s[from..]);
    DigitsStep(s[from..]);
  }

  lemma RegionIsNumber(s: string, word: bool)
    requires s != [] && IsDigit(s[0]) && Region(s, word) > 0
    ensures Region(s, word) == NumberLen(s) > 0 && !word && StandsAlone(s)
  {
  }

  lemma WithDecimals(s: string, n: nat, word: bool)
    requires s != [] && IsDigit(s[0]) && !word && DigitRun(s) + 1 < n <= |s|
    requires s[DigitRun(s)] == '.' && n == DigitRun(s) + 1 + DigitRun(s[DigitRun(s) + 1..])
    requires n < |s| ==> !IsWordChar(s[n..][0])
    ensures var p := PieceOf(s, n); Spell(p) == s[..n] && Reads(p, s[n..], word)
  {
    hide DigitRun, PieceOf, IsDigit, IsWordChar, AllDigits;
    var d := DigitRun(s);
    IsNumber(s, n);
    DigitPart(s, d);
    DigitPart(s[d + 1..], n - d - 1);
    assert s[d + 1..][..n - d - 1] == s[d + 1..n];
    Pointed(s, d, n);
  }

  lemma DigitPart(s: string, d: nat)
    requires d == DigitRun(s)
    ensures d <= |s| && AllDigits(s[..d])
  {
    DigitsFit(s);
  }

  lemma IsNumber(s: string, n: nat)
    requires s != [] && IsDigit(s[0]) && DigitRun(s) + 1 < n <= |s|
    ensures 0 < DigitRun(s) && PieceOf(s, n) == Number(s[..DigitRun(s)], s[DigitRun(s) + 1..n])
  {
  }

  lemma Pointed(s: string, d: nat, n: nat)
    requires d < n <= |s| && s[d] == '.'
    ensures s[..n] == s[..d] + ("." + s[d + 1..n])
  {
  }

  lemma WithoutDecimals(s: string, n: nat, word: bool)
    requires s != [] && IsDigit(s[0]) && !word && 0 < DigitRun(s) == n <= |s|
    requires n + 1 < |s| ==> !(s[n] == '.' && IsDigit(s[n + 1]))
    requires n < |s| ==> !IsWordChar(s[n..][0])
    ensures var p := PieceOf(s, n); Spell(p) == s[..n] && Reads(p, s[n..], word)
  {
    DigitsFit(s);
    assert s[..n] + "" == s[..n];
  }

  lemma PieceRead(s: string, word: bool)
    requires s != [] && Region(s, word) > 0
    ensures var n := Region(s, word); var p := PieceOf(s, n);
            Spell(p) == s[..n] && Reads(p, s[n..], word) && !WordAfter(p)
  {
    if s[0] == '/' {
      BlockPiece(s, word);
    } else if s[0] == '-' {
      LinePiece(s, word);
    } else if IsQuote(s[0]) {
      QuotedPiece(s, word);
    } else {
      NumberPiece(s, word);
    }
  }

  /** Whatever the statement, its pieces spell it and read as what they are called. */
  lemma {:induction false} LexSpells(s: string, word: bool)
    ensures Render(Lex(s, word)) == s && AllRead(Lex(s, word), word)
    decreases |s|
  {
    hide Lex, AllRead, Render, Reads, Region, IsWhitespace, PieceOf;
    if s == [] {
      NothingRead(word);
    } else {
      var n := Region(s, word);
      LexStep(s, word);
      if n > 0 {
        LexSpells(s[n..], false);
        PieceRead(s, word);
        assert s == s[..n] + s[n..];
        AllReadCons(PieceOf(s, n), Lex(s[n..], false), word);
      } else {
        assert s == [s[0]] + s[1..];
        var p := if IsWhitespace(s[0]) then Blank([s[0]]) else Code(s[0]);
        BlankOrCode(s, word);
        LexSpells(s[1..], WordAfter(p));
        AllReadCons(p, Lex(s[1..], WordAfter(p)), word);
      }
    }
  }

  lemma NothingRead(word: bool)
    ensures Lex([], word) == [] && Render([]) == [] && AllRead([], word)
  {
  }

  lemma BlankOrCode(s: string, word: bool)
    requires s != [] && Region(s, word) == 0
    ensures var p := if IsWhitespace(s[0]) then Blank([s[0]]) else Code(s[0]);
            Spell(p) == [s[0]] && Reads(p, s[1..], word)
  {
    assert s == [s[0]] + s[1..];
  }

  lemma LexStep(s: string, word: bool)
    requires s != []
    ensures Region(s, word) > 0 ==>
              Lex(s, word) == [PieceOf(s, Region(s, word))] + Lex(s[Region(s, word)..], false)
    ensures Region(s, word) == 0 && IsWhitespace(s[0]) ==> Lex(s, word) == [Blank([s[0]])] + Lex(s[1..], false)
    ensures Region(s, word) == 0 && !IsWhitespace(s[0]) ==> Lex(s, word) == [Code(s[0])] + Lex(s[1..], IsWordChar(s[0]))
  {
  }

  lemma AllReadCons(p: Piece, ps: seq<Piece>, word: bool)
    requires Reads(p, Render(ps), word) && AllRead(ps, WordAfter(p))
    ensures AllRead([p] + ps, word) && Render([p] + ps) == Spell(p) + Render(ps)
  {
    assert ([p] + ps)[1..] == ps;
  }

  // ---- The lengths of lists ----

  datatype Spaces = Spaces(before: string, after: string)

  function Items(gaps: seq<Spaces>): string
    requires gaps != []
  {
    gaps[0].before + (['?'] + (gaps[0].after + (if |gaps| == 1 then [')'] else [','] + Items(gaps[1..]))))
  }

  /** An item and what follows it. */
  lemma ItemsUnroll(gaps: seq<Spaces>, rest: string)
    requires gaps != []
    ensures var b, a := gaps[0].before, gaps[0].after;
            && (|gaps| == 1 ==> Items(gaps) + rest == b + (['?'] + (a + ([')'] + rest))))
            && (|gaps| > 1 ==> Items(gaps) + rest == b + (['?'] + (a + ([','] + (Items(gaps[1..]) + rest)))))
            && |Items(gaps)| == |b| + |a| + 2 + if |gaps| == 1 then 0 else |Items(gaps[1..])|
  {
    var b, a := gaps[0].before, gaps[0].after;
    if |gaps| == 1 { Regroup5(b, '?', a, ')', "", rest); } else { Regroup5(b, '?', a, ',', Items(gaps[1..]), rest); }
    assert [')'] + "" == [')'] && "" + rest == rest;
  }

  lemma Regroup5(b: string, c: char, a: string, d: char, e: string, r: string)
    ensures b + ([c] + (a + ([d] + e))) + r == b + ([c] + (a + ([d] + (e + r))))
  {
  }

  /** `in`, white space, and as many placeholders between parentheses as there are gaps. */
  function ListText(open: string, gaps: seq<Spaces>): string
    requires gaps != []
  {
    ['i'] + (['n'] + (open + (['('] + Items(gaps))))
  }

  predicate WhiteGaps(gaps: seq<Spaces>) {
    forall i | 0 <= i < |gaps| :: AllWhite(gaps[i].before) && AllWhite(gaps[i].after)
  }

  lemma {:induction false} ItemsEndWhite(white: string, s: string, seen: bool)
    requires AllWhite(white)
    ensures ItemsEnd(white + s, seen) == Shift(|white|, ItemsEnd(s, seen))
    ensures ListEnd(white + s) == Shift(|white|, ListEnd(s))
  {
    if white == [] {
      assert white + s == s;
    } else {
      assert (white + s)[1..] == white[1..] + s;
      ItemsEndWhite(white[1..], s, seen);
    }
  }

  lemma ItemsEndStep(s: string)
    ensures ItemsEnd(['?'] + s, false) == Shift(1, ItemsEnd(s, true))
    ensures ItemsEnd([','] + s, true) == Shift(1, ItemsEnd(s, false))
    ensures ItemsEnd([')'] + s, true) == Some(1)
    ensures ListEnd(['('] + s) == Shift(1, ItemsEnd(s, false))
  {
    assert (['?'] + s)[1..] == s && ([','] + s)[1..] == s && (['('] + s)[1..] == s;
  }

  lemma ItemMatches(b: string, a: string, s: string)
    requires AllWhite(b) && AllWhite(a)
    ensures ItemsEnd(b + (['?'] + (a + ([','] + s))), false) == Shift(|b| + |a| + 2, ItemsEnd(s, false))
  {
    hide ItemsEnd, AllWhite;
    ItemsEndStep(s);
    ItemsEndWhite(a, [','] + s, true);
    ItemsEndStep(a + ([','] + s));
    ItemsEndWhite(b, ['?'] + (a + ([','] + s)), false);
  }

  lemma LastItemMatches(b: string, a: string, s: string)
    requires AllWhite(b) && AllWhite(a)
    ensures ItemsEnd(b + (['?'] + (a + ([')'] + s))), false) == Some(|b| + |a| + 2)
  {
    hide ItemsEnd, AllWhite;
    ItemsEndStep(s);
    ItemsEndWhite(a, [')'] + s, true);
    ItemsEndStep(a + ([')'] + s));
    ItemsEndWhite(b, ['?'] + (a + ([')'] + s)), false);
  }

  lemma {:induction false} ItemsMatch(gaps: seq<Spaces>, rest: string)
    requires gaps != [] && WhiteGaps(gaps)
    ensures ItemsEnd(Items(gaps) + rest, false) == Some(|Items(gaps)|)
    decreases |gaps|
  {
    hide ItemsEnd, Items, AllWhite;
    ItemsUnroll(gaps, rest);
    if |gaps| == 1 {
      LastItemMatches(gaps[0].before, gaps[0].after, rest);
    } else {
      ItemsMatch(gaps[1..], rest);
      ItemMatches(gaps[0].before, gaps[0].after, Items(gaps[1..]) + rest);
    }
  }

  lemma ListUnroll(open: string, items: string, rest: string)
    ensures ['i'] + (['n'] + (open + (['('] + items))) + rest == ['i'] + (['n'] + (open + (['('] + (items + rest))))
  {
  }

  lemma ListMatches(open: string, gaps: seq<Spaces>, rest: string)
    requires gaps != [] && WhiteGaps(gaps) && AllWhite(open)
    ensures InEnd(ListText(open, gaps) + rest, false) == Some(|ListText(open, gaps)|)
  {
    var s := ListText(open, gaps) + rest;
    ListUnroll(open, Items(gaps), rest);
    hide Items, ItemsEnd;
    assert s[2..] == open + (['('] + (Items(gaps) + rest));
    ItemsEndWhite(open, ['('] + (Items(gaps) + rest), false);
    ItemsEndStep(Items(gaps) + rest);
    ItemsMatch(gaps, rest);
  }

  // ---- Collapsing what stands before a list ----

  lemma {:induction false} ItemsStop(h: string, x: string, seen: bool)
    requires x != [] && !ListChar(x[0])
    ensures ItemsEnd(h + x, seen) == ItemsEnd(h, seen)
  {
    if h == [] {
      assert h + x == x;
    } else {
      assert (h + x)[1..] == h[1..] + x;
      ItemsStop(h[1..], x, seen);
      ItemsStop(h[1..], x, true);
      ItemsStop(h[1..], x, false);
    }
  }

  lemma {:induction false} ListStop(h: string, x: string)
    requires x != [] && !ListChar(x[0])
    ensures ListEnd(h + x) == ListEnd(h)
  {
    if h == [] {
      assert h + x == x;
    } else {
      assert (h + x)[1..] == h[1..] + x;
      ListStop(h[1..], x);
      ItemsStop(h[1..], x, false);
    }
  }

  lemma InStop(h: string, x: string, word: bool)
    requires h != [] && x != [] && x[0] == 'i'
    ensures InEnd(h + x, word) == InEnd(h, word)
  {
    if |h| >= 2 {
      assert (h + x)[2..] == h[2..] + x;
      ListStop(h[2..], x);
    }
  }

  predicate WordLast(h: string, word: bool) { if h == [] then word else IsWordChar(h[|h| - 1]) }

  /** Lists before an `i` are collapsed as if nothing followed. */
  lemma {:induction false} CollapseUpTo(h: string, x: string, word: bool)
    requires x != [] && x[0] == 'i'
    ensures Collapse(h + x, word) == Collapse(h, word) + Collapse(x, WordLast(h, word))
    decreases |h|
  {
    hide Collapse, InEnd, IsWordChar, ListChar;
    if h == [] {
      assert h + x == x;
      NothingStays();
    } else {
      InStop(h, x, word);
      match InEnd(h, word)
      case Some(n) =>
        InChars(h, word, n);
        CollapseIn(h, word, n);
        CollapseIn(h + x, word, n);
        assert (h + x)[n..] == h[n..] + x;
        CollapseUpTo(h[n..], x, false);
        ClosesWord();
        Common.Assoc("in (?)", Collapse(h[n..], false), Collapse(x, WordLast(h, word)));
      case None =>
        CollapseCopy(h, word);
        CollapseCopy(h + x, word);
        assert (h + x)[1..] == h[1..] + x;
        CollapseUpTo(h[1..], x, IsWordChar(h[0]));
        Common.Assoc([h[0]], Collapse(h[1..], IsWordChar(h[0])), Collapse(x, WordLast(h, word)));
    }
  }

  lemma CollapseAround(h: string, open: string, gaps: seq<Spaces>, t: string)
    requires gaps != [] && WhiteGaps(gaps) && AllWhite(open) && !WordLast(h, false)
    ensures Collapse(h + (ListText(open, gaps) + t), false) == Collapse(h, false) + ("in (?)" + Collapse(t, false))
  {
    var x := ListText(open, gaps);
    ListMatches(open, gaps, t);
    hide Collapse, InEnd;
    assert (x + t)[0] == 'i';
    CollapseUpTo(h, x + t, false);
    CollapseIn(x + t, false, |x|);
    assert (x + t)[|x|..] == t;
  }

  // ---- Squeezing around a list ----

  predicate StartedAfter(a: string, started: bool) { started || exists c <- a :: !IsWhitespace(c) }

  predicate PendingAfter(a: string, pending: bool) { if a == [] then pending else IsWhitespace(a[|a| - 1]) }

  lemma {:induction false} SqueezeSplit(a: string, y: string, started: bool, pending: bool)
    ensures Squeeze(a + y, started, pending)
         == Squeeze(a, started, pending) + Squeeze(y, StartedAfter(a, started), PendingAfter(a, pending))
  {
    if a == [] {
      assert a + y == y;
    } else {
      assert (a + y)[1..] == a[1..] + y;
      assert forall c :: c in a <==> c == a[0] || c in a[1..];
      if IsWhitespace(a[0]) {
        SqueezeSplit(a[1..], y, started, true);
        assert PendingAfter(a[1..], true) == PendingAfter(a, pending);
      } else {
        SqueezeSplit(a[1..], y, true, false);
        SqueezeCopy(a, started, pending);
        SqueezeCopy(a + y, started, pending);
        assert PendingAfter(a[1..], false) == PendingAfter(a, pending);
        Front3(if pending && started then " " else "", [a[0]], Squeeze(a[1..], true, false),
          Squeeze(y, true, PendingAfter(a, pending)));
      }
    }
  }

  lemma Front3(a: string, b: string, c: string, d: string)
    ensures a + (b + (c + d)) == (a + (b + c)) + d
  {
  }

  function Gap(white: string): string { if white == [] then "" else " " }

  function OneBlank(gaps: seq<Spaces>): (r: seq<Spaces>)
    ensures |r| == |gaps| && (WhiteGaps(gaps) ==> WhiteGaps(r))
  {
    seq(|gaps|, i requires 0 <= i < |gaps| => Spaces(Gap(gaps[i].before), Gap(gaps[i].after)))
  }

  lemma SqueezeGap(white: string, c: char, rest: string)
    requires AllWhite(white) && !IsWhitespace(c)
    ensures Squeeze(white + ([c] + rest), true, false) == Gap(white) + ([c] + Squeeze(rest, true, false))
  {
    assert ([c] + rest)[1..] == rest;
    if white == [] {
      assert white + ([c] + rest) == [c] + rest;
      SqueezeCopy([c] + rest, true, false);
    } else {
      SqueezeWhite(white, [c] + rest, true, false);
      SqueezeCopy([c] + rest, true, true);
    }
  }

  lemma {:induction false} SqueezeItems(gaps: seq<Spaces>, rest: string)
    requires gaps != [] && WhiteGaps(gaps)
    ensures Squeeze(Items(gaps) + rest, true, false) == Items(OneBlank(gaps)) + Squeeze(rest, true, false)
    decreases |gaps|
  {
    hide Squeeze, Items, AllWhite, IsWhitespace, Gap;
    var b, a := gaps[0].before, gaps[0].after;
    ItemsUnroll(gaps, rest);
    ItemsUnroll(OneBlank(gaps), Squeeze(rest, true, false));
    PunctuationIsNotWhite();
    if |gaps| == 1 {
      SqueezeGap(b, '?', a + ([')'] + rest));
      SqueezeGap(a, ')', rest);
    } else {
      var more := Items(gaps[1..]) + rest;
      SqueezeGap(b, '?', a + ([','] + more));
      SqueezeGap(a, ',', more);
      SqueezeItems(gaps[1..], rest);
      assert OneBlank(gaps)[1..] == OneBlank(gaps[1..]);
    }
  }

  lemma PunctuationIsNotWhite()
    ensures !IsWhitespace('?') && !IsWhitespace(',') && !IsWhitespace(')')
    ensures !IsWhitespace('(') && !IsWhitespace('i') && !IsWhitespace('n')
  {
  }

  lemma SqueezeWord(c: char, s: string)
    requires !IsWhitespace(c)
    ensures Squeeze([c] + s, true, false) == [c] + Squeeze(s, true, false)
  {
    SqueezeCopy([c] + s, true, false);
    assert ([c] + s)[1..] == s;
  }

  lemma SqueezeList(open: string, gaps: seq<Spaces>, rest: string)
    requires gaps != [] && WhiteGaps(gaps) && AllWhite(open)
    ensures Squeeze(ListText(open, gaps) + rest, true, false)
         == ListText(Gap(open), OneBlank(gaps)) + Squeeze(rest, true, false)
  {
    hide Squeeze, Items, AllWhite, IsWhitespace, Gap;
    PunctuationIsNotWhite();
    var more := Items(gaps) + rest;
    ListUnroll(open, Items(gaps), rest);
    ListUnroll(Gap(open), Items(OneBlank(gaps)), Squeeze(rest, true, false));
    SqueezeItems(gaps, rest);
    SqueezeGap(open, '(', more);
    SqueezeWord('n', open + (['('] + more));
    SqueezeWord('i', ['n'] + (open + (['('] + more)));
  }

  /** The text ahead of a list, squeezed, with the blank between. */
  function Ahead(a: string): string {
    Squeeze(a, false, false) + (if StartedAfter(a, false) && PendingAfter(a, false) then " " else "")
  }

  lemma SqueezeAround(a: string, open: string, gaps: seq<Spaces>, b: string)
    requires gaps != [] && WhiteGaps(gaps) && AllWhite(open)
    ensures Squeeze(a + (ListText(open, gaps) + b), false, false)
         == Ahead(a) + (ListText(Gap(open), OneBlank(gaps)) + Squeeze(b, true, false))
  {
    var y := ListText(open, gaps) + b;
    var st, p := StartedAfter(a, false), PendingAfter(a, false);
    SqueezeSplit(a, y, false, false);
    SqueezeList(open, gaps, b);
    assert y[0] == 'i';
    SqueezeCopy(y, st, p);
    SqueezeCopy(y, true, false);
    hide Squeeze, ListText, StartedAfter, PendingAfter;
    var x := [y[0]] + Squeeze(y[1..], true, false);
    assert "" + x == x;
    Common.Assoc(Squeeze(a, false, false), if p && st then " " else "", x);
  }

  lemma {:induction false} SqueezedLast(a: string, started: bool, pending: bool)
    requires Squeeze(a, started, pending) != [] && !IsWhitespace(a[|a| - 1])
    ensures Squeeze(a, started, pending)[|Squeeze(a, started, pending)| - 1] == a[|a| - 1]
  {
    if |a| > 1 {
      SqueezeSplit(a[..|a| - 1], [a[|a| - 1]], started, pending);
      assert a == a[..|a| - 1] + [a[|a| - 1]];
    }
  }

  lemma AheadLast(a: string)
    requires !WordLast(a, false)
    ensures !WordLast(Ahead(a), false)
  {
    if a != [] && !IsWhitespace(a[|a| - 1]) && Squeeze(a, false, false) != [] { SqueezedLast(a, false, false); }
    if a != [] && IsWhitespace(a[|a| - 1]) && !StartedAfter(a, false) { AllBlank(a, false); }
  }

  lemma {:induction false} AllBlank(a: string, pending: bool)
    requires forall c <- a :: IsWhitespace(c)
    ensures Squeeze(a, false, pending) == []
  {
    if a != [] {
      assert a[0] in a && forall c <- a[1..] :: c in a;
      AllBlank(a[1..], true);
    }
  }

  lemma {:induction false} ShapeAppend(ps: seq<Piece>, qs: seq<Piece>)
    ensures Shape(ps + qs) == Shape(ps) + Shape(qs)
  {
    if ps == [] {
      assert ps + qs == qs;
    } else {
      assert (ps + qs)[1..] == ps[1..] + qs;
      ShapeAppend(ps[1..], qs);
    }
  }

  /** Pieces that make a list of literals: `in`, and literals between parentheses and commas. */
  predicate IsList(xs: seq<Piece>, open: string, gaps: seq<Spaces>) {
    gaps != [] && WhiteGaps(gaps) && AllWhite(open) && Shape(xs) == ListText(open, gaps)
  }

  /** A list of literals leaves `in (?)` in the fingerprint, whatever its length and spacing, unless it
      follows a word character. */
  lemma ListLeaves(ps: seq<Piece>, xs: seq<Piece>, qs: seq<Piece>, open: string, gaps: seq<Spaces>)
    requires AllRead(ps + (xs + qs), false) && IsList(xs, open, gaps) && !WordLast(Shape(ps), false)
    ensures Fingerprint(Render(ps + (xs + qs)))
         == Collapse(Ahead(Shape(ps)), false) + ("in (?)" + Collapse(Squeeze(Shape(qs), true, false), false))
  {
    FingerprintOfPieces(ps + (xs + qs));
    ShapeAppend(ps, xs + qs);
    ShapeAppend(xs, qs);
    SqueezeAround(Shape(ps), open, gaps, Shape(qs));
    AheadLast(Shape(ps));
    hide Collapse, Squeeze, Fingerprint, Shape, AllRead, Render, Ahead;
    CollapseAround(Ahead(Shape(ps)), Gap(open), OneBlank(gaps), Squeeze(Shape(qs), true, false));
  }

  /** Statements that differ in the length of a list of literals have one fingerprint. */
  lemma ListLengthDoesNotMatter(ps: seq<Piece>, xs: seq<Piece>, ys: seq<Piece>, qs: seq<Piece>,
                                open: string, gaps: seq<Spaces>, open2: string, gaps2: seq<Spaces>)
    requires AllRead(ps + (xs + qs), false) && AllRead(ps + (ys + qs), false)
    requires IsList(xs, open, gaps) && IsList(ys, open2, gaps2) && !WordLast(Shape(ps), false)
    ensures Fingerprint(Render(ps + (xs + qs))) == Fingerprint(Render(ps + (ys + qs)))
  {
    hide *;
    ListLeaves(ps, xs, qs, open, gaps);
    ListLeaves(ps, ys, qs, open2, gaps2);
  }
}
