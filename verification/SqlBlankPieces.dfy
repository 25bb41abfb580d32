/** The blanker against a grammar: code is kept to the letter, comments, quoted text and dollar strings
    become as many spaces, dialect by dialect. */
module SqlBlankPieces {
  import opened Text
  import opened SqlBlank
  import opened SqlBlankFacts

  /** The inside of a block comment: characters, and comments where they nest. */
  datatype Inner = Plain(c: char) | Nested(body: seq<Inner>)

  datatype Piece =
    | Code(c: char)
    | Line(open: string, body: string)
    | Versioned(mark: char, digits: string)
    | Block(inside: seq<Inner>)
    | Dollar(tag: string, body: string)
    | Quoted(quote: char, body: string)

  function InnerText(items: seq<Inner>): string
    decreases items, 1
  {
    if items == [] then [] else OneText(items[0]) + InnerText(items[1..])
  }

  function OneText(item: Inner): string
    decreases item, 0
  {
    match item
    case Plain(c) => [c]
    case Nested(body) => "/*" + (InnerText(body) + "*/")
  }

  function Fence(tag: string): string { ['$'] + (tag + ['$']) }

  function Spell(p: Piece): string {
    match p
    case Code(c) => [c]
    case Line(open, body) => open + body
    case Versioned(mark, digits) => ['/', '*', mark] + digits
    case Block(inside) => "/*" + (InnerText(inside) + "*/")
    case Dollar(tag, body) => Fence(tag) + (body + Fence(tag))
    case Quoted(q, body) => [q] + (body + [q])
  }

  function Render(ps: seq<Piece>): string { if ps == [] then [] else Spell(ps[0]) + Render(ps[1..]) }

  function Shape(ps: seq<Piece>): string {
    if ps == [] then [] else (if ps[0].Code? then Spell(ps[0]) else Spaces(|Spell(ps[0])|)) + Shape(ps[1..])
  }

  // ---- When a piece reads as what it is called ----

  /** No character of a comment opens or closes one with the next; `nested` says that openers count. */
  predicate InnerReads(items: seq<Inner>, rest: string, nested: bool)
    decreases items, 1
  {
    items == [] || (OneReads(items[0], InnerText(items[1..]) + rest, nested) && InnerReads(items[1..], rest, nested))
  }

  predicate OneReads(item: Inner, rest: string, nested: bool)
    decreases item, 0
  {
    match item
    case Plain(c) =>
      !(c == '*' && rest != [] && rest[0] == '/') && !(nested && c == '/' && rest != [] && rest[0] == '*')
    case Nested(body) => nested && InnerReads(body, "*/", nested)
  }

  /** Quotes doubled; where a backslash escapes, it stands with what it escapes. */
  predicate Escaped(body: string, q: char, backslash: bool)
    decreases |body|
  {
    || body == []
    || (backslash && q != '`' && body[0] == '\\' && |body| >= 2 && Escaped(body[2..], q, backslash))
    || (!(backslash && q != '`' && body[0] == '\\') && body[0] == q && |body| >= 2 && body[1] == q
      && Escaped(body[2..], q, backslash))
    || (!(backslash && q != '`' && body[0] == '\\') && body[0] != q && Escaped(body[1..], q, backslash))
  }

  predicate AllWord(s: string) { forall i | 0 <= i < |s| :: IsWordChar(s[i]) }

  /** The fence closes at its first occurrence. */
  predicate Fenced(body: string, fence: string) {
    forall i | 0 <= i < |body| :: !StandsAt(body + fence, i, fence)
  }

  /** A word in dollar signs stands at the front, with its second dollar sign at `n`. */
  predicate FenceAt(s: string, n: int) { 0 < n < |s| && s[0] == '$' && AllWord(s[1..n]) && s[n] == '$' }

  /** A comment, a quoted part or a dollar string begins here. */
  ghost predicate Begins(s: string, d: Dialect) {
    || ['-', '-'] <= s || ['/', '*'] <= s || (d.hashComment && ['#'] <= s)
    || ['\''] <= s || ['"'] <= s || ['`'] <= s || (d.dollarStrings && exists n :: FenceAt(s, n))
  }

  lemma {:induction false} RunAllWord(s: string)
    ensures AllWord(s[..WordRun(s)])
  {
    if s != [] && IsWordChar(s[0]) {
      RunAllWord(s[1..]);
      assert s[..WordRun(s)] == [s[0]] + s[1..][..WordRun(s[1..])];
    }
  }

  lemma TagIsFence(s: string)
    ensures TagLength(s) > 0 <==> exists n :: FenceAt(s, n)
  {
    if s != [] && s[0] == '$' {
      var r := s[1..];
      var j := WordRun(r);
      if TagLength(s) > 0 {
        RunAllWord(r);
        assert s[1..j + 1] == r[..j];
        assert FenceAt(s, j + 1);
      }
      if n :| FenceAt(s, n) {
        assert r == s[1..n] + s[n..];
        WordRunOf(s[1..n], s[n..]);
      }
    }
  }

  lemma BeginsOpens(s: string, d: Dialect)
    requires s != []
    ensures Opens(s, d) <==> Begins(s, d)
  {
    hide TagLength, FenceAt;
    TagIsFence(s);
    TagNeedsDollar(s);
    if |s| >= 2 { assert [s[0], s[1]] <= s; }
    assert [s[0]] <= s;
  }

  lemma TagNeedsDollar(s: string)
    requires s != []
    ensures TagLength(s) > 0 ==> s[0] == '$'
  {
  }

  ghost predicate Reads(p: Piece, rest: string, d: Dialect) {
    match p
    case Code(c) => !Begins([c] + rest, d)
    case Line(open, body) =>
      (open == "--" || (open == "#" && d.hashComment)) && '\n' !in body && (rest != [] ==> rest[0] == '\n')
    case Versioned(mark, digits) =>
      (mark == '!' || mark == '+') && AllDigits(digits) && (rest != [] ==> !IsDigit(rest[0]))
    case Block(inside) =>
      && InnerReads(inside, "*/", d.nestedComments)
      && (InnerText(inside) != [] ==> InnerText(inside)[0] != '!' && InnerText(inside)[0] != '+')
    case Dollar(tag, body) => d.dollarStrings && AllWord(tag) && Fenced(body, Fence(tag))
    case Quoted(q, body) => IsQuote(q) && Escaped(body, q, d.backslashEscape) && (rest != [] ==> rest[0] != q)
  }

  ghost predicate AllRead(ps: seq<Piece>, d: Dialect) {
    ps == [] || (Reads(ps[0], Render(ps[1..]), d) && AllRead(ps[1..], d))
  }

  // ---- The scanner takes the pieces for what they are ----

  lemma {:induction false} LineLengthOf(body: string, rest: string)
    requires '\n' !in body && (rest != [] ==> rest[0] == '\n')
    ensures LineLength(body + rest) == |body|
  {
    if body == [] {
      assert body + rest == rest;
    } else {
      assert (body + rest)[1..] == body[1..] + rest;
      LineLengthOf(body[1..], rest);
    }
  }

  lemma {:induction false} DigitRunOf(s: string, rest: string)
    requires AllDigits(s) && (rest != [] ==> !IsDigit(rest[0]))
    ensures DigitRun(s + rest) == |s|
  {
    if s == [] {
      assert s + rest == rest;
    } else {
      assert (s + rest)[1..] == s[1..] + rest;
      DigitRunOf(s[1..], rest);
    }
  }

  lemma {:induction false} WordRunOf(s: string, rest: string)
    requires AllWord(s) && (rest != [] ==> !IsWordChar(rest[0]))
    ensures WordRun(s + rest) == |s|
  {
    if s == [] {
      assert s + rest == rest;
    } else {
      assert (s + rest)[1..] == s[1..] + rest;
      WordRunOf(s[1..], rest);
    }
  }

  lemma {:induction false} QuoteLengthOf(body: string, q: char, rest: string, backslash: bool)
    requires IsQuote(q) && Escaped(body, q, backslash) && (rest != [] ==> rest[0] != q)
    ensures QuoteLength(body + ([q] + rest), q, backslash) == |body| + 1
    decreases |body|
  {
    var s := body + ([q] + rest);
    if body == [] {
      assert s == [q] + rest;
    } else if |body| >= 2 && ((backslash && q != '`' && body[0] == '\\') || body[0] == q) {
      assert s[2..] == body[2..] + ([q] + rest) && s[0] == body[0] && s[1] == body[1];
      QuoteLengthOf(body[2..], q, rest, backslash);
    } else {
      assert s[1..] == body[1..] + ([q] + rest) && s[0] == body[0];
      QuoteLengthOf(body[1..], q, rest, backslash);
    }
  }

  lemma {:induction false} NeedleOf(body: string, fence: string, rest: string)
    requires fence != [] && Fenced(body, fence)
    ensures ThroughNeedle(body + (fence + rest), fence) == |body| + |fence|
    decreases |body|
  {
    var s := body + (fence + rest);
    if body == [] {
      assert s[..|fence|] == fence;
    } else {
      assert !StandsAt(body + fence, 0, fence);
      assert s[..|fence|] == (body + fence)[0..|fence|];
      assert s[1..] == body[1..] + (fence + rest);
      forall i | 0 <= i < |body[1..]| ensures !StandsAt(body[1..] + fence, i, fence) {
        assert !StandsAt(body + fence, i + 1, fence);
        assert body[1..] + fence == (body + fence)[1..];
        assert (body + fence)[1..][i..i + |fence|] == (body + fence)[i + 1..i + 1 + |fence|];
      }
      NeedleOf(body[1..], fence, rest);
    }
  }

  /** Through the inside of a comment the depth comes back to what it was. */
  lemma {:induction false} BlockLengthOf(items: seq<Inner>, rest: string, depth: nat, nested: bool)
    requires InnerReads(items, rest, nested) && depth > 0 && rest != []
    ensures BlockLength(InnerText(items) + rest, depth, nested) == |InnerText(items)| + BlockLength(rest, depth, nested)
    decreases items, 1
  {
    if items == [] {
      assert InnerText(items) + rest == rest;
    } else {
      var more := InnerText(items[1..]) + rest;
      assert InnerText(items) + rest == OneText(items[0]) + more;
      OneLengthOf(items[0], more, depth, nested);
      BlockLengthOf(items[1..], rest, depth, nested);
    }
  }

  lemma {:induction false} OneLengthOf(item: Inner, rest: string, depth: nat, nested: bool)
    requires OneReads(item, rest, nested) && depth > 0 && rest != []
    ensures BlockLength(OneText(item) + rest, depth, nested) == |OneText(item)| + BlockLength(rest, depth, nested)
    decreases item, 0
  {
    var s := OneText(item) + rest;
    match item
    case Plain(c) =>
      assert s[0] == c && s[1] == rest[0] && s[1..] == rest;
    case Nested(body) =>
      var more := "*/" + rest;
      assert s[2..] == InnerText(body) + more && s[0] == '/' && s[1] == '*';
      InnerReadsOn(body, rest, nested);
      BlockLengthOf(body, more, depth + 1, nested);
      CloserLength(rest, depth + 1, nested);
      assert |s| == |InnerText(body)| + 4 + |rest|;
  }

  lemma CloserLength(rest: string, depth: nat, nested: bool)
    requires depth > 0
    ensures BlockLength("*/" + rest, depth, nested) == 2 + BlockLength(rest, depth - 1, nested)
  {
    assert ("*/" + rest)[2..] == rest;
  }

  /** What follows the closer does not matter to the inside. */
  lemma {:induction false} InnerReadsOn(items: seq<Inner>, rest: string, nested: bool)
    requires InnerReads(items, "*/", nested)
    ensures InnerReads(items, "*/" + rest, nested)
    decreases |items|
  {
    if items != [] {
      InnerReadsOn(items[1..], rest, nested);
      var t := InnerText(items[1..]);
      assert (t + "*/")[0] == (t + ("*/" + rest))[0];
    }
  }

  lemma TokenOfLine(open: string, body: string, rest: string, d: Dialect)
    requires Reads(Line(open, body), rest, d)
    ensures var s := open + body + rest; Opens(s, d) && TokenLength(s, d) == |open + body|
  {
    var s := open + body + rest;
    var tail := open[1..] + body;
    assert s[1..] == tail + rest && '\n' !in tail by { assert open == "--" ==> open[1..] == "-"; }
    LineLengthOf(tail, rest);
  }

  lemma TokenOfVersioned(mark: char, digits: string, rest: string, d: Dialect)
    requires Reads(Versioned(mark, digits), rest, d)
    ensures var s := ['/', '*', mark] + digits + rest; Opens(s, d) && TokenLength(s, d) == 3 + |digits|
  {
    var s := ['/', '*', mark] + digits + rest;
    assert s[3..] == digits + rest;
    DigitRunOf(digits, rest);
  }

  lemma TokenOfBlock(inside: seq<Inner>, rest: string, d: Dialect)
    requires Reads(Block(inside), rest, d)
    ensures var s := "/*" + (InnerText(inside) + "*/") + rest;
            Opens(s, d) && TokenLength(s, d) == |InnerText(inside)| + 4
  {
    var t := InnerText(inside);
    var s := "/*" + (t + "*/") + rest;
    assert s[2..] == t + ("*/" + rest) && s[2] == if t == [] then '*' else t[0];
    hide BlockLength, InnerReads, InnerText;
    InnerReadsOn(inside, rest, d.nestedComments);
    BlockLengthOf(inside, "*/" + rest, 1, d.nestedComments);
    CloserLength(rest, 1, d.nestedComments);
  }

  lemma TokenOfDollar(tag: string, body: string, rest: string, d: Dialect)
    requires Reads(Dollar(tag, body), rest, d)
    ensures var s := Fence(tag) + (body + Fence(tag)) + rest;
            Opens(s, d) && TokenLength(s, d) == |Fence(tag) + (body + Fence(tag))|
  {
    var fence := Fence(tag);
    var s := fence + (body + fence) + rest;
    assert s[1..] == tag + (['$'] + (body + fence + rest));
    WordRunOf(tag, ['$'] + (body + fence + rest));
    assert TagLength(s) == |fence| && s[..|fence|] == fence && s[|fence|..] == body + (fence + rest);
    NeedleOf(body, fence, rest);
  }

  lemma TokenOfQuoted(q: char, body: string, rest: string, d: Dialect)
    requires Reads(Quoted(q, body), rest, d)
    ensures var s := [q] + (body + [q]) + rest; Opens(s, d) && TokenLength(s, d) == |body| + 2
  {
    var s := [q] + (body + [q]) + rest;
    assert s[1..] == body + ([q] + rest);
    QuoteLengthOf(body, q, rest, d.backslashEscape);
  }

  lemma TokenOfPiece(p: Piece, rest: string, d: Dialect)
    requires Reads(p, rest, d)
    ensures var s := Spell(p) + rest; Spell(p) != [] && TokenLength(s, d) == |Spell(p)| && (Opens(s, d) <==> !p.Code?)
  {
    hide TokenLength, Opens, InnerText, InnerReads, Escaped, Begins;
    match p
    case Code(c) =>
      BeginsOpens([c] + rest, d);
      TokenOfCode([c] + rest, d);
    case Line(open, body) => TokenOfLine(open, body, rest, d);
    case Versioned(mark, digits) => TokenOfVersioned(mark, digits, rest, d);
    case Block(inside) => TokenOfBlock(inside, rest, d);
    case Dollar(tag, body) => TokenOfDollar(tag, body, rest, d);
    case Quoted(q, body) => TokenOfQuoted(q, body, rest, d);
  }

  lemma TokenOfCode(s: string, d: Dialect)
    requires s != [] && !Opens(s, d)
    ensures TokenLength(s, d) == 1
  {
  }

  /** Blanking keeps exactly the code, in place. */
  lemma {:induction false} BlankOfPieces(ps: seq<Piece>, d: Dialect)
    requires AllRead(ps, d)
    ensures Blank(Render(ps), d) == Shape(ps)
  {
    if ps != [] {
      hide Blank, TokenLength, Opens, Reads, Spell;
      var rest := Render(ps[1..]);
      var s := Spell(ps[0]) + rest;
      TokenOfPiece(ps[0], rest, d);
      BlankUnroll(s, d);
      BlankOfPieces(ps[1..], d);
      assert s[|Spell(ps[0])|..] == rest;
      if ps[0].Code? { CodeText(ps[0]); assert s[0] == Spell(ps[0])[0]; }
    }
  }

  lemma CodeText(p: Piece)
    requires p.Code?
    ensures Spell(p) == [p.c]
  {
  }
}
