/** The words of a stage in src-tauri/src/txshell.rs, over how each is written: bare characters and quoted parts
    side by side, with any white space between words. */
module ShellWords {
  import opened Common
  import opened Text
  import opened ShellPipeline

  const QUOTES: set<char> := {'\'', '"'}

  /** A part of a word: a character that stands for itself, text in quotes, or text in a quote that is never
      closed. */
  datatype Run = Bare(c: char) | Quoted(quote: char, text: string) | Unclosed(quote: char, text: string)

  function RunText(r: Run): string {
    match r
    case Bare(c) => [c]
    case Quoted(q, text) => [q] + (text + [q])
    case Unclosed(q, text) => [q] + text
  }

  /** What the part contributes to the word. */
  function Says(r: Run): string { if r.Bare? then [r.c] else r.text }

  predicate RunReads(r: Run, rest: string) {
    match r
    case Bare(c) => !IsWhitespace(c) && c !in QUOTES
    case Quoted(q, text) => q in QUOTES && q !in text
    case Unclosed(q, text) => q in QUOTES && q !in text && rest == []
  }

  function RunsText(runs: seq<Run>): string {
    if runs == [] then [] else RunText(runs[0]) + RunsText(runs[1..])
  }

  function Meaning(runs: seq<Run>): string { if runs == [] then [] else Says(runs[0]) + Meaning(runs[1..]) }

  predicate RunsRead(runs: seq<Run>, rest: string) {
    runs == [] || (RunReads(runs[0], RunsText(runs[1..]) + rest) && RunsRead(runs[1..], rest))
  }

  /** A word and the white space before it. */
  datatype Spaced = Spaced(gap: string, runs: seq<Run>)

  predicate Blank(s: string) { forall i | 0 <= i < |s| :: IsWhitespace(s[i]) }

  /** The words, and the white space behind the last. */
  function StageText(words: seq<Spaced>, end: string): string {
    if words == [] then end else words[0].gap + (RunsText(words[0].runs) + StageText(words[1..], end))
  }

  /** White space separates words; only the first may stand at the front. */
  predicate StageReads(words: seq<Spaced>, end: string, first: bool) {
    Blank(end)
    && (words != [] ==>
      && Blank(words[0].gap) && (first || words[0].gap != []) && words[0].runs != []
      && RunsRead(words[0].runs, StageText(words[1..], end)) && StageReads(words[1..], end, false))
  }

  function Meanings(words: seq<Spaced>): seq<string> {
    if words == [] then [] else [Meaning(words[0].runs)] + Meanings(words[1..])
  }

  // ---- The reader ----

  lemma QuoteIs(c: char)
    ensures WordQuote(c) <==> c in QUOTES
  {
  }

  lemma {:induction false} InsideQuotes(q: char, text: string, more: string, cur: string)
    requires q !in text
    ensures Words(text + more, cur, Some(q), true) == Words(more, cur + text, Some(q), true)
    decreases |text|
  {
    if text == [] {
      assert text + more == more && cur + text == cur;
    } else {
      assert text[0] in text && (text + more)[1..] == text[1..] + more;
      InsideQuotes(q, text[1..], more, cur + [text[0]]);
      assert cur + [text[0]] + text[1..] == cur + text;
    }
  }

  lemma OpenQuote(q: char, s: string, cur: string, had: bool)
    requires q in QUOTES
    ensures Words([q] + s, cur, None, had) == Words(s, cur, Some(q), true)
    ensures Words([q] + s, cur, Some(q), true) == Words(s, cur, None, true)
  {
    assert ([q] + s)[1..] == s;
  }

  lemma ClosedRun(q: char, text: string, rest: string, cur: string, had: bool)
    requires q in QUOTES && q !in text
    ensures Words([q] + (text + [q]) + rest, cur, None, had) == Words(rest, cur + text, None, true)
  {
    hide Words;
    var more := [q] + rest;
    assert [q] + (text + [q]) + rest == [q] + (text + more);
    OpenQuote(q, text + more, cur, had);
    InsideQuotes(q, text, more, cur);
    OpenQuote(q, rest, cur + text, had);
  }

  /** Whether the word begun is more than nothing. */
  predicate Begun(cur: string, had: bool) { cur != [] || had }

  /** One part of a word is read. */
  lemma ReadRun(r: Run, rest: string, cur: string, had: bool)
    requires RunReads(r, rest)
    ensures var now := cur + Says(r);
            if r.Unclosed? then Words(RunText(r) + rest, cur, None, had) == [now]
            else Words(RunText(r) + rest, cur, None, had) == Words(rest, now, None, had || r.Quoted?)
  {
    match r
    case Bare(c) =>
      QuoteIs(c);
      assert ([c] + rest)[1..] == rest;
    case Quoted(q, text) => ClosedRun(q, text, rest, cur, had);
    case Unclosed(q, text) =>
      OpenQuote(q, text, cur, had);
      InsideQuotes(q, text, [], cur);
      assert text + [] == text && [q] + text + rest == [q] + text;
  }

  predicate EndsOpen(runs: seq<Run>) { runs != [] && runs[|runs| - 1].Unclosed? }

  lemma UnclosedIsLast(r: Run, more: seq<Run>, rest: string)
    requires RunReads(r, RunsText(more) + rest) && r.Unclosed?
    ensures more == [] && rest == []
  {
    SomeText(more);
  }

  lemma SomeText(runs: seq<Run>)
    ensures runs != [] ==> RunsText(runs) != []
  {
    if runs != [] { assert RunText(runs[0]) != []; }
  }

  /** A word is read as the text of its parts. */
  lemma {:induction false} ReadRuns(runs: seq<Run>, rest: string, cur: string, had: bool) returns (quoted: bool)
    requires RunsRead(runs, rest)
    ensures EndsOpen(runs) ==> rest == []
    ensures var now := cur + Meaning(runs); var all := Words(RunsText(runs) + rest, cur, None, had);
            if EndsOpen(runs) then all == [now] else all == Words(rest, now, None, quoted)
    ensures runs == [] ==> quoted == had
    ensures runs != [] || Begun(cur, had) ==> Begun(cur + Meaning(runs), quoted)
    decreases |runs|
  {
    hide Words, RunText, RunReads, RunsText;
    if runs == [] {
      quoted := had;
      NoText(runs, rest);
      assert cur + [] == cur;
    } else {
      var r, more := runs[0], runs[1..];
      var now := cur + Says(r);
      FirstText(runs, rest);
      ReadRun(r, RunsText(more) + rest, cur, had);
      assert EndsOpen(runs) <==> if more == [] then r.Unclosed? else EndsOpen(more);
      assert cur + Meaning(runs) == now + Meaning(more);
      if r.Unclosed? {
        UnclosedIsLast(r, more, rest);
        assert now + Meaning(more) == now;
        quoted := true;
      } else {
        quoted := ReadRuns(more, rest, now, had || r.Quoted?);
      }
    }
  }

  lemma NoText(runs: seq<Run>, rest: string)
    requires runs == []
    ensures RunsText(runs) + rest == rest
  {
  }

  lemma FirstText(runs: seq<Run>, rest: string)
    requires runs != []
    ensures RunsText(runs) + rest == RunText(runs[0]) + (RunsText(runs[1..]) + rest)
  {
    hide RunText;
    Assoc(RunText(runs[0]), RunsText(runs[1..]), rest);
  }

  /** White space ends the word begun, if there is one. */
  lemma {:induction false} ReadGap(gap: string, rest: string, cur: string, had: bool)
    requires Blank(gap) && (gap != [] || !Begun(cur, had))
    ensures Words(gap + rest, cur, None, had) ==
            (if Begun(cur, had) then [cur] else []) + Words(rest, [], None, false)
    decreases |gap|
  {
    if gap == [] {
      assert gap + rest == rest;
    } else {
      assert (gap + rest)[1..] == gap[1..] + rest;
      ReadGap(gap[1..], rest, [], false);
    }
  }

  // ---- A stage ----

  lemma NothingMore(s: string)
    requires Blank(s)
    ensures Words(s, [], None, false) == []
  {
    ReadGap(s, [], [], false);
    assert s + [] == s;
  }

  lemma LastWord(cur: string, had: bool)
    ensures Words([], cur, None, had) == if Begun(cur, had) then [cur] else []
  {
  }

  /** Behind a word, white space or the end. */
  lemma ReadOne(w: Spaced, rest: string)
    requires Blank(w.gap) && w.runs != [] && RunsRead(w.runs, rest) && (rest != [] ==> IsWhitespace(rest[0]))
    ensures Words(w.gap + (RunsText(w.runs) + rest), [], None, false) ==
            [Meaning(w.runs)] + Words(rest, [], None, false)
  {
    hide Words, RunsRead, RunsText, Blank, EndsOpen, IsWhitespace;
    var m := Meaning(w.runs);
    ReadGap(w.gap, RunsText(w.runs) + rest, [], false);
    var quoted := ReadRuns(w.runs, rest, [], false);
    assert [] + m == m;
    LastWord([], false);
    if rest == [] {
      LastWord(m, quoted);
      assert [m] + [] == [m];
    } else {
      assert rest == [rest[0]] + rest[1..];
      OneBlank(rest[0]);
      ReadGap([rest[0]], rest[1..], m, quoted);
      ReadGap([rest[0]], rest[1..], [], false);
      assert [] + Words(rest[1..], [], None, false) == Words(rest[1..], [], None, false);
    }
    assert [] + Words(RunsText(w.runs) + rest, [], None, false) == Words(RunsText(w.runs) + rest, [], None, false);
  }

  lemma OneBlank(c: char)
    requires IsWhitespace(c)
    ensures Blank([c])
  {
  }

  lemma StageStarts(words: seq<Spaced>, end: string)
    requires StageReads(words, end, false)
    ensures var s := StageText(words, end); s != [] ==> IsWhitespace(s[0])
  {
  }

  /** A stage is read as its words, however each of them is written and whatever white space parts them. */
  lemma {:induction false} StageIsRead(words: seq<Spaced>, end: string, first: bool)
    requires StageReads(words, end, first)
    ensures Words(StageText(words, end), [], None, false) == Meanings(words)
    decreases |words|
  {
    if words == [] {
      NothingMore(end);
    } else {
      StageStarts(words[1..], end);
      hide Words, RunsRead, RunsText, Blank, IsWhitespace;
      StageIsRead(words[1..], end, false);
      ReadOne(words[0], StageText(words[1..], end));
    }
  }

  // ---- Every stage is so written ----

  /** The text in a quote, and what follows its end if it has one. */
  lemma {:induction false} CutQuote(q: char, s: string) returns (text: string, rest: string, closed: bool)
    ensures q !in text && s == text + (if closed then [q] + rest else []) && (!closed ==> rest == [])
  {
    if s == [] {
      text, rest, closed := [], [], false;
    } else if s[0] == q {
      text, rest, closed := [], s[1..], true;
    } else {
      text, rest, closed := CutQuote(q, s[1..]);
      text := [s[0]] + text;
      assert s == [s[0]] + s[1..];
    }
  }

  lemma RunLex(s: string) returns (r: Run, rest: string)
    requires s != [] && !IsWhitespace(s[0])
    ensures RunReads(r, rest) && s == RunText(r) + rest && |rest| < |s|
  {
    if s[0] in QUOTES {
      var text, closed;
      text, rest, closed := CutQuote(s[0], s[1..]);
      r := if closed then Quoted(s[0], text) else Unclosed(s[0], text);
      assert s == [s[0]] + s[1..];
    } else {
      r, rest := Bare(s[0]), s[1..];
    }
  }

  lemma {:induction false} RunsLex(s: string) returns (runs: seq<Run>, rest: string)
    ensures RunsRead(runs, rest) && s == RunsText(runs) + rest && (rest != [] ==> IsWhitespace(rest[0]))
    ensures s != [] && !IsWhitespace(s[0]) ==> runs != []
    decreases |s|
  {
    if s == [] || IsWhitespace(s[0]) {
      runs, rest := [], s;
      assert RunsText(runs) + rest == s;
    } else {
      hide RunReads, RunText;
      var r, t := RunLex(s);
      runs, rest := RunsLex(t);
      runs := [r] + runs;
      FirstText(runs, rest);
    }
  }

  lemma {:induction false} CutBlank(s: string) returns (gap: string, rest: string)
    ensures Blank(gap) && s == gap + rest && (rest != [] ==> !IsWhitespace(rest[0]))
    ensures s != [] && IsWhitespace(s[0]) ==> gap != []
  {
    if s == [] || !IsWhitespace(s[0]) {
      gap, rest := [], s;
    } else {
      gap, rest := CutBlank(s[1..]);
      gap := [s[0]] + gap;
      assert s == [s[0]] + s[1..];
    }
  }

  lemma {:induction false} StageLex(s: string, first: bool) returns (words: seq<Spaced>, end: string)
    requires first || s == [] || IsWhitespace(s[0])
    ensures StageReads(words, end, first) && StageText(words, end) == s
    decreases |s|
  {
    var gap, t := CutBlank(s);
    if t == [] {
      words, end := [], gap;
      assert s == gap + [];
    } else {
      hide RunsRead, Blank, RunsText;
      var runs, rest := RunsLex(t);
      Shorter(runs, rest, t);
      words, end := StageLex(rest, false);
      var w := Spaced(gap, runs);
      assert ([w] + words)[1..] == words;
      words := [w] + words;
    }
  }

  lemma Shorter(runs: seq<Run>, rest: string, t: string)
    requires runs != [] && t == RunsText(runs) + rest
    ensures |rest| < |t|
  {
    SomeText(runs);
  }
}
