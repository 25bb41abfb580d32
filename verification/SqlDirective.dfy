/** What a DELIMITER line of a script does, over the way the line is written: the word in any letter case,
    values with white space before them, more white space, and a line feed or the end of the script. */
module SqlDirective {
  import opened Common
  import opened SqlLexer
  import Utf8

  /** The white space of a line: tab, line feed, form feed, carriage return and space. */
  const BLANKS: set<byte> := {9, 10, 12, 13, 32}

  predicate Blank(s: seq<byte>) { forall i | 0 <= i < |s| :: s[i] in BLANKS }

  predicate Solid(s: seq<byte>) { s != [] && forall i | 0 <= i < |s| :: s[i] !in BLANKS }

  /** "delimiter", in small letters and in capitals. */
  predicate IsDelimiterWord(s: seq<byte>) {
    && |s| == 9
    && s[0] in {100, 68} && s[1] in {101, 69} && s[2] in {108, 76} && s[3] in {105, 73} && s[4] in {109, 77}
    && s[5] in {105, 73} && s[6] in {116, 84} && s[7] in {101, 69} && s[8] in {114, 82}
  }

  /** A value with the white space before it. */
  datatype Field = Field(gap: seq<byte>, value: seq<byte>)

  predicate IsField(f: Field) {
    f.gap != [] && Blank(f.gap) && Solid(f.value)
  }

  predicate AllFields(fields: seq<Field>) { forall i | 0 <= i < |fields| :: IsField(fields[i]) }

  function FieldText(fields: seq<Field>): seq<byte> {
    if fields == [] then [] else fields[0].gap + (fields[0].value + FieldText(fields[1..]))
  }

  function Values(fields: seq<Field>): (vs: seq<seq<byte>>)
    ensures |vs| == |fields| && forall i | 0 <= i < |fields| :: vs[i] == fields[i].value
  {
    seq(|fields|, i requires 0 <= i < |fields| => fields[i].value)
  }

  datatype Line = Line(word: seq<byte>, fields: seq<Field>, tail: seq<byte>)

  function LineText(d: Line): seq<byte> { d.word + (FieldText(d.fields) + d.tail) }

  /** A directive line, with any number of values. */
  ghost predicate IsLine(d: Line) {
    && IsDelimiterWord(d.word) && AllFields(d.fields) && Blank(d.tail)
    && LF !in LineText(d) && Utf8.WellFormed(LineText(d))
  }

  /** The line that `s` begins with. */
  function FirstLine(s: seq<byte>): seq<byte> { s[..LineEnd(s)] }

  /** The line is well-formed text, and its first word is "delimiter". */
  ghost predicate Announces(line: seq<byte>) {
    |line| >= 9 && IsDelimiterWord(line[..9]) && (|line| > 9 ==> line[9] in BLANKS) && Utf8.WellFormed(line)
  }

  // ---- Words of a line ----

  lemma SpaceIsBlank(b: byte)
    ensures IsSpace(b) <==> b in BLANKS
  {
  }

  lemma {:induction false} WordsOfBlank(g: seq<byte>, s: seq<byte>)
    requires Blank(g)
    ensures Words(g + s) == Words(s)
    decreases |g|
  {
    if g == [] {
      assert g + s == s;
    } else {
      assert (g + s)[0] == g[0] && (g + s)[1..] == g[1..] + s;
      WordsOfBlank(g[1..], s);
    }
  }

  lemma {:induction false} LengthOfWord(v: seq<byte>, s: seq<byte>)
    requires (v == [] || Solid(v)) && (s != [] ==> s[0] in BLANKS)
    ensures WordLength(v + s) == |v|
    decreases |v|
  {
    if v == [] {
      assert v + s == s;
    } else {
      assert (v + s)[0] == v[0] && (v + s)[1..] == v[1..] + s;
      LengthOfWord(v[1..], s);
    }
  }

  lemma WordsOfValue(v: seq<byte>, s: seq<byte>)
    requires Solid(v) && (s != [] ==> s[0] in BLANKS)
    ensures Words(v + s) == [v] + Words(s)
  {
    LengthOfWord(v, s);
    assert (v + s)[0] == v[0] && (v + s)[..|v|] == v && (v + s)[|v|..] == s;
  }

  lemma {:induction false} WordsOfFields(fields: seq<Field>, tail: seq<byte>)
    requires AllFields(fields) && Blank(tail)
    ensures Words(FieldText(fields) + tail) == Values(fields)
    ensures var s := FieldText(fields) + tail; s != [] ==> s[0] in BLANKS
  {
    if fields == [] {
      assert FieldText(fields) + tail == tail && tail + [] == tail;
      WordsOfBlank(tail, []);
    } else {
      var f, s := fields[0], FieldText(fields[1..]) + tail;
      assert IsField(f);
      WordsOfFields(fields[1..], tail);
      FieldFirst(f.gap, f.value, FieldText(fields[1..]), tail);
      WordsOfBlank(f.gap, f.value + s);
      WordsOfValue(f.value, s);
      assert Values(fields) == [f.value] + Values(fields[1..]);
    }
  }

  lemma FieldFirst(gap: seq<byte>, value: seq<byte>, more: seq<byte>, tail: seq<byte>)
    ensures gap + (value + more) + tail == gap + (value + (more + tail))
    ensures gap != [] ==> (gap + (value + more) + tail)[0] == gap[0]
  {
  }

  lemma WordsOfLine(d: Line)
    requires IsLine(d)
    ensures Words(LineText(d)) == [d.word] + Values(d.fields)
  {
    hide Utf8.WellFormed;
    WordsOfFields(d.fields, d.tail);
    WordIsSolid(d.word);
    WordsOfValue(d.word, FieldText(d.fields) + d.tail);
  }

  lemma WordIsSolid(w: seq<byte>)
    requires IsDelimiterWord(w)
    ensures Solid(w) && |w| == 9
  {
  }

  /** White space at the end is no word. */
  lemma {:induction false} WordsBefore(s: seq<byte>, b: byte)
    requires b in BLANKS
    ensures Words(s + [b]) == Words(s)
    decreases |s|
  {
    if s == [] {
      assert s + [b] == [b] + [];
      WordsOfBlank([b], []);
    } else if IsSpace(s[0]) {
      assert (s + [b])[1..] == s[1..] + [b];
      WordsBefore(s[1..], b);
    } else {
      var n := WordLength(s);
      WordSplit(s);
      WordsBefore(s[n..], b);
      var w, r := s[..n], s[n..] + [b];
      assert s + [b] == w + r;
      WordsOfValue(w, r);
    }
  }

  /** A word ends at white space or at the end. */
  lemma {:induction false} WordSplit(s: seq<byte>)
    requires s != [] && !IsSpace(s[0])
    ensures var n := WordLength(s);
            1 <= n <= |s| && Solid(s[..n]) && (n < |s| ==> s[n] in BLANKS)
    decreases |s|
  {
    if |s| > 1 && !IsSpace(s[1]) {
      WordSplit(s[1..]);
      assert s[..WordLength(s)] == [s[0]] + s[1..][..WordLength(s[1..])];
    }
  }

  lemma {:induction false} WordsOfTrimmed(s: seq<byte>)
    ensures Words(TrimEndCr(s)) == Words(s)
    decreases |s|
  {
    if s != [] && s[|s| - 1] == CR {
      WordsOfTrimmed(s[..|s| - 1]);
      WordsBefore(s[..|s| - 1], CR);
      assert s[..|s| - 1] + [CR] == s;
    }
  }

  // ---- What a line says ----

  /** The error of a directive line, if it is one. */
  function Refusal(d: Line, hasCode: bool, line: nat): Option<ScriptError> {
    if |d.fields| == 0 then Some(DelimiterWithoutValue(line))
    else if |d.fields| > 1 then Some(DelimiterWithManyValues(line))
    else if |d.fields[0].value| > 32 then Some(DelimiterOversized(line))
    else if hasCode then Some(DelimiterInStatement(line))
    else None
  }

  lemma WordIsDelimiter(w: seq<byte>)
    ensures EqIgnoreCase(w, DELIMITER) <==> IsDelimiterWord(w)
  {
    if |w| == 9 {
      assert forall i | 0 <= i < 9 :: Lower(DELIMITER[i]) == DELIMITER[i];
      if EqIgnoreCase(w, DELIMITER) {
        assert forall i | 0 <= i < 9 :: Lower(w[i]) == DELIMITER[i];
      }
    }
  }

  function Said(d: Line, line: nat, consumed: nat): Directive
    requires AllFields(d.fields)
  {
    match Refusal(d, false, line)
    case Some(e) => Malformed(e)
    case None => assert IsField(d.fields[0]); NewDelimiter(d.fields[0].value, consumed)
  }

  lemma LineSays(d: Line, line: nat, consumed: nat)
    requires IsLine(d)
    ensures Refusal(d, false, line) == None ==> IsField(d.fields[0])
    ensures DirectiveLine(LineText(d), line, consumed) == Said(d, line, consumed)
  {
    hide Utf8.WellFormed, Utf8.FromUtf8, Words, TrimEndCr, EqIgnoreCase, IsDelimiterWord, LineText;
    Utf8.ValidIsWellFormed(LineText(d));
    WordsOfTrimmed(LineText(d));
    WordsOfLine(d);
    WordIsDelimiter(d.word);
  }

  // ---- Every announced line is so written ----

  function BlankRun(s: seq<byte>): (n: nat)
    ensures n <= |s| && Blank(s[..n]) && (n < |s| ==> s[n] !in BLANKS)
  {
    if s == [] || s[0] !in BLANKS then 0
    else
      var n := BlankRun(s[1..]);
      assert s[..n + 1] == [s[0]] + s[1..][..n];
      n + 1
  }

  function SolidRun(s: seq<byte>): (n: nat)
    ensures n <= |s| && (n > 0 ==> Solid(s[..n])) && (n < |s| ==> s[n] in BLANKS)
  {
    if s == [] || s[0] in BLANKS then 0
    else
      var n := SolidRun(s[1..]);
      assert s[..n + 1] == [s[0]] + s[1..][..n];
      n + 1
  }

  /** The values of what follows the word, and the white space behind them. */
  function Parted(s: seq<byte>): (r: (seq<Field>, seq<byte>))
    requires s != [] ==> s[0] in BLANKS
    ensures AllFields(r.0) && Blank(r.1) && FieldText(r.0) + r.1 == s
    decreases |s|
  {
    var n := BlankRun(s);
    if n == |s| then
      assert s[..n] == s && [] + s == s;
      ([], s)
    else
      var m := SolidRun(s[n..]);
      var (fields, tail) := Parted(s[n + m..]);
      var f := Field(s[..n], s[n..][..m]);
      PartedFirst(s, n, m, FieldText(fields), tail);
      assert ([f] + fields)[1..] == fields;
      ([f] + fields, tail)
  }

  lemma PartedFirst(s: seq<byte>, n: nat, m: nat, more: seq<byte>, tail: seq<byte>)
    requires n + m <= |s| && more + tail == s[n + m..]
    ensures s[..n] + (s[n..][..m] + more) + tail == s
  {
    assert s == s[..n] + (s[n..][..m] + s[n + m..]);
  }

  lemma LineLex(line: seq<byte>) returns (d: Line)
    requires Announces(line) && LF !in line
    ensures IsLine(d) && LineText(d) == line
  {
    hide Utf8.WellFormed, IsDelimiterWord;
    var (fields, tail) := Parted(line[9..]);
    d := Line(line[..9], fields, tail);
    assert line == line[..9] + line[9..];
  }

  lemma LineAnnounces(d: Line)
    requires IsLine(d)
    ensures Announces(LineText(d))
  {
    hide Utf8.WellFormed;
    var t := LineText(d);
    assert t[..9] == d.word;
    if |t| > 9 {
      WordsOfFields(d.fields, d.tail);
      assert t[9] == (FieldText(d.fields) + d.tail)[0];
    }
  }

  lemma FirstWord(line: seq<byte>)
    requires line != [] && line[0] !in BLANKS
    ensures Words(line) != [] && Words(line)[0] == line[..WordLength(line)]
    ensures IsDelimiterWord(Words(line)[0]) <==>
            |line| >= 9 && IsDelimiterWord(line[..9]) && (|line| > 9 ==> line[9] in BLANKS)
  {
    hide IsDelimiterWord, Utf8.WellFormed;
    WordSplit(line);
    if IsDelimiterWord(line[..WordLength(line)]) { WordIsSolid(line[..WordLength(line)]); }
    if |line| >= 9 && IsDelimiterWord(line[..9]) && (|line| > 9 ==> line[9] in BLANKS) {
      WordIsSolid(line[..9]);
      assert line == line[..9] + line[9..];
      LengthOfWord(line[..9], line[9..]);
    }
  }

  /** A line is a directive exactly when it announces one. */
  lemma NotAnnounced(line: seq<byte>, number: nat, consumed: nat)
    requires line != [] && line[0] !in BLANKS
    ensures DirectiveLine(line, number, consumed).NotDirective? <==> !Announces(line)
  {
    hide Utf8.WellFormed, Utf8.FromUtf8, Words, TrimEndCr, EqIgnoreCase, IsDelimiterWord;
    Utf8.ValidIsWellFormed(line);
    WordsOfTrimmed(line);
    FirstWord(line);
    WordIsDelimiter(Words(line)[0]);
    NoWords();
  }

  lemma NoWords()
    ensures Words([]) == []
  {
  }

  // ---- What the lexer does at the line ----

  function Breaks(s: seq<byte>): nat { if s == [] then 0 else (if s[0] == LF then 1 else 0) + Breaks(s[1..]) }

  /** Only the position moves past `s`. */
  ghost predicate Passed(lx: Lexer, s: seq<byte>, next: Lexer) {
    && next.absolute == lx.absolute + |s| && next.line == lx.line + Breaks(s)
    && next.previous == (if s == [] then lx.previous else Some(s[|s| - 1]))
    && next.lineStart == (if s == [] then lx.lineStart else s[|s| - 1] == LF)
    && next == lx.(absolute := next.absolute, line := next.line, previous := next.previous,
                   lineStart := next.lineStart)
  }

  lemma {:induction false} ConsumedAllPasses(lx: Lexer, s: seq<byte>)
    ensures Passed(lx, s, ConsumedAll(lx, s))
    decreases |s|
  {
    if s != [] { ConsumedAllPasses(Consumed(lx, s[0]), s[1..]); }
  }

  lemma {:induction false} NoBreaks(s: seq<byte>)
    requires LF !in s
    ensures Breaks(s) == 0 && Breaks(s + [LF]) == 1
  {
    if s == [] {
      assert s + [LF] == [LF] && [LF][1..] == [];
    } else {
      assert s[0] in s && (s + [LF])[1..] == s[1..] + [LF];
      NoBreaks(s[1..]);
    }
  }

  /** The rest of the line that is read with it: its line feed, or nothing at the end of the script. */
  predicate Ends(end: seq<byte>, more: seq<byte>, final: bool) { end == [LF] || (end == [] && more == [] && final) }

  /** What the lexer does with the line: the error, or nothing but the new delimiter and the position. */
  ghost predicate Obeyed(lx: Lexer, d: Line, end: seq<byte>, o: Outcome) {
    match Refusal(d, lx.hasCode, lx.line)
    case Some(e) => o == Stop(e)
    case None =>
      && o.Go? && o.used == |LineText(d)| + |end| && o.out == [] && o.next.delimiter == d.fields[0].value
      && o.next.mode == lx.mode && o.next.limit == lx.limit && o.next.absolute == lx.absolute + o.used
      && o.next.line == lx.line + |end| && o.next.lineStart == (end == [LF])
      && o.next.previous == Some((LineText(d) + end)[o.used - 1])
      && o.next.current == [] && !o.next.hasCode && !o.next.escaped && o.next.stmtLine == o.next.stmtOffset == 0
  }

  lemma LineEndOf(s: seq<byte>, end: seq<byte>, more: seq<byte>, final: bool)
    requires LF !in s && Ends(end, more, final)
    ensures LineEnd(s + end + more) == |s| && (s + end + more)[..|s|] == s && FirstLine(s + end + more) == s
    ensures end == [LF] ==> |s| < |s + end + more|
    ensures end == [] ==> s + end + more == s
  {
    var t := s + end + more;
    var n := LineEnd(t);
    assert forall i | 0 <= i < |s| :: t[i] == s[i];
    forall i | 0 <= i < n ensures t[i] != LF { assert t[i] in t[..n]; }
    if end == [LF] { assert t[|s|] == LF; }
  }

  lemma LineParsed(d: Line, end: seq<byte>, more: seq<byte>, line: nat, final: bool)
    requires IsLine(d) && Ends(end, more, final)
    ensures var s := LineText(d) + end + more;
            s != [] && s[0] in {100, 68} && ParseDirective(s, line, final) == Said(d, line, |LineText(d)| + |end|)
  {
    hide Utf8.WellFormed, DirectiveLine, Refusal;
    LineEndOf(LineText(d), end, more, final);
    LineSays(d, line, |LineText(d)| + |end|);
    assert (LineText(d) + end + more)[0] == d.word[0];
  }

  /** One value of at most 32 bytes becomes the delimiter; anything else is the error it calls for. */
  lemma DirectiveDecides(lx: Lexer, d: Line, end: seq<byte>, more: seq<byte>, final: bool)
    requires lx.mode.Normal? && lx.lineStart && IsLine(d) && Ends(end, more, final)
    ensures var s := LineText(d) + end + more; s != [] && Obeyed(lx, d, end, Step(lx, s, final))
  {
    hide Utf8.WellFormed, ParseDirective, IsDelimiterWord, LineText;
    var t := LineText(d) + end;
    LineParsed(d, end, more, lx.line, final);
    assert (t + more)[..|t|] == t;
    if Refusal(d, lx.hasCode, lx.line).None? {
      var l := Reset(lx).(delimiter := d.fields[0].value);
      ConsumedAllPasses(l, t);
      NoBreaks(LineText(d));
      assert LineText(d) + [] == LineText(d);
    }
  }

  lemma Unannounced(s: seq<byte>, line: nat, final: bool)
    requires s != [] && s[0] in {100, 68} && (LineEnd(s) < |s| || final)
    ensures ParseDirective(s, line, final).NotDirective? <==> !Announces(FirstLine(s))
  {
    hide Utf8.WellFormed, DirectiveLine, Announces;
    var n := LineEnd(s);
    assert n > 0 && s[..n][0] == s[0] && s[..|s|] == s;
    NotAnnounced(s[..n], line, if n < |s| then n + 1 else n);
  }

  /** A line that announces nothing is read byte by byte, and so is every line that does not begin with the
      letter d: white space before the word makes it no directive. */
  lemma OtherLines(lx: Lexer, s: seq<byte>, final: bool)
    requires s != [] && lx.mode.Normal? && (LineEnd(s) < |s| || final)
    ensures !lx.lineStart || !Announces(FirstLine(s)) ==> Step(lx, s, final) == StepNormal(lx, s, final)
  {
    hide Utf8.WellFormed, ParseDirective, StepNormal, Announces, LineEnd;
    if AtDirective(lx, s) { Unannounced(s, lx.line, final); }
  }
}
