/** EXPLAIN, DESCRIBE and DESC in src-tauri/src/sqlguard.rs: what is explained is what is judged, however the
    prefix is written. */
module SqlExplain {
  import opened Text
  import opened SqlGuard

  predicate AllBlank(g: string) { forall i | 0 <= i < |g| :: IsWhitespace(g[i]) }

  predicate AllAlpha(w: string) { forall i | 0 <= i < |w| :: IsAlpha(w[i]) }

  predicate StartsTrimmed(s: string) { s != [] ==> !IsWhitespace(s[0]) }

  predicate NoLetter(s: string) { s != [] ==> !IsAlpha(s[0]) }

  // ---- The parts of an EXPLAIN ----

  /** What follows an option word: white space, with an equals sign in it or none. */
  datatype Gap = Gap(before: string, sign: bool, behind: string)

  /** An option word, or a `format` with a value. Words are in any letter case. */
  datatype ExplainOption =
    | Flag(word: string, gap: Gap)
    | Format(word: string, gap: Gap, value: string, blank: string)

  /** A list in parentheses behind the option words. */
  datatype OptionList = NoList | Listed(inside: string, blank: string)

  datatype Explain =
    Explain(lead: string, word: string, gap: string, options: seq<ExplainOption>, list: OptionList, body: string)

  function GapText(g: Gap): string { g.before + ((if g.sign then "=" else "") + g.behind) }

  function OptionText(o: ExplainOption): string {
    match o
    case Flag(w, g) => w + GapText(g)
    case Format(w, g, value, blank) => w + (GapText(g) + (value + blank))
  }

  function OptionsText(options: seq<ExplainOption>): string {
    if options == [] then [] else OptionText(options[0]) + OptionsText(options[1..])
  }

  function ListText(l: OptionList): string {
    match l
    case NoList => []
    case Listed(inside, blank) => "(" + (inside + (")" + blank))
  }

  /** What follows the option words. */
  function Behind(e: Explain): string { ListText(e.list) + e.body }

  function ExplainText(e: Explain): string {
    e.lead + (e.word + (e.gap + (OptionsText(e.options) + Behind(e))))
  }

  // ---- When the parts are read as what they are called ----

  const OPTIONS: set<string> := {"analyze", "analyse", "verbose", "format"}

  /** Without a sign of its own, a gap takes the sign that follows. */
  predicate GapReads(g: Gap, rest: string) {
    AllBlank(g.before) && AllBlank(g.behind) && (!g.sign ==> g.behind == [] && (rest != [] ==> rest[0] != '='))
  }

  predicate OptionReads(o: ExplainOption, rest: string) {
    match o
    case Flag(w, g) =>
      && AllAlpha(w) && LowerAll(w) in OPTIONS && GapReads(g, rest) && NoLetter(GapText(g) + rest)
      && (LowerAll(w) == "format" ==> NoLetter(rest))
    case Format(w, g, value, blank) =>
      && AllAlpha(w) && LowerAll(w) == "format" && value != [] && AllAlpha(value)
      && GapReads(g, value) && NoLetter(GapText(g) + value) && AllBlank(blank) && NoLetter(blank + rest)
  }

  predicate OptionsRead(options: seq<ExplainOption>, rest: string) {
    || options == []
    || (OptionReads(options[0], OptionsText(options[1..]) + rest) && OptionsRead(options[1..], rest))
  }

  /** Parentheses that close what they open, and nothing before. */
  predicate Balanced(inside: string, depth: nat) {
    if inside == [] then depth == 0
    else if inside[0] == '(' then Balanced(inside[1..], depth + 1)
    else if inside[0] == ')' then depth > 0 && Balanced(inside[1..], depth - 1)
    else Balanced(inside[1..], depth)
  }

  /** Without a list, what is explained starts with no option word and no parenthesis; with one, it may. */
  predicate ListReads(l: OptionList, body: string) {
    match l
    case NoList => FirstWord(body) !in OPTIONS && (body != [] ==> body[0] != '(')
    case Listed(inside, blank) => Balanced(inside, 0) && AllBlank(blank)
  }

  predicate Reads(e: Explain) {
    && AllBlank(e.lead) && e.word != [] && AllAlpha(e.word) && AllBlank(e.gap)
    && NoLetter(e.gap + (OptionsText(e.options) + Behind(e)))
    && OptionsRead(e.options, Behind(e)) && ListReads(e.list, e.body) && StartsTrimmed(e.body)
  }

  // ---- Words and white space ----

  lemma {:induction false} AlphaRunOf(w: string, rest: string)
    requires AllAlpha(w) && NoLetter(rest)
    ensures AlphaRun(w + rest) == |w|
  {
    if w == [] {
      assert w + rest == rest;
    } else {
      assert (w + rest)[1..] == w[1..] + rest;
      AlphaRunOf(w[1..], rest);
    }
  }

  lemma {:induction false} TrimBlanks(gap: string, s: string)
    requires AllBlank(gap) && StartsTrimmed(s)
    ensures TrimStart(gap + s) == s
  {
    if gap == [] {
      assert gap + s == s;
    } else {
      assert (gap + s)[1..] == gap[1..] + s;
      TrimBlanks(gap[1..], s);
    }
  }

  lemma WordTrimmed(w: string, rest: string)
    requires w != [] && AllAlpha(w)
    ensures StartsTrimmed(w + rest) && w + rest != [] && (w + rest)[0] == w[0]
  {
  }

  /** A first word in any letter case, behind any white space. */
  lemma FirstWordOf(lead: string, w: string, rest: string)
    requires AllBlank(lead) && w != [] && AllAlpha(w) && NoLetter(rest)
    ensures var s := lead + (w + rest);
            FirstWord(s) == LowerAll(w) && |w| <= |TrimStart(s)| && After(s, |w|) == TrimStart(rest)
  {
    hide AllBlank, AlphaRun, TrimStart, StartsTrimmed;
    WordTrimmed(w, rest);
    TrimBlanks(lead, w + rest);
    AlphaRunOf(w, rest);
    assert (w + rest)[..|w|] == w && (w + rest)[|w|..] == rest;
  }

  lemma NoWord(s: string)
    requires StartsTrimmed(s) && NoLetter(s)
    ensures FirstWord(s) == []
  {
    TrimBlanks([], s);
    assert [] + s == s;
  }

  // ---- One option ----

  lemma GapDrops(g: Gap, rest: string)
    requires GapReads(g, rest) && StartsTrimmed(rest)
    ensures DropSign(TrimStart(GapText(g) + rest)) == rest
  {
    hide AllBlank, TrimStart;
    if g.sign {
      var t := "=" + (g.behind + rest);
      assert GapText(g) + rest == g.before + t && t[1..] == g.behind + rest;
      TrimBlanks(g.before, t);
      TrimBlanks(g.behind, rest);
    } else {
      assert GapText(g) + rest == g.before + rest;
      TrimBlanks(g.before, rest);
    }
  }

  lemma DropFlag(w: string, g: Gap, rest: string)
    requires OptionReads(Flag(w, g), rest) && StartsTrimmed(rest)
    ensures FirstWord(w + (GapText(g) + rest)) == LowerAll(w) && DropOption(w + (GapText(g) + rest)) == rest
  {
    var s := w + (GapText(g) + rest);
    assert w != [] && [] + s == s;
    hide FirstWord, After, TrimStart, GapText, AllAlpha, DropSign;
    FirstWordOf([], w, GapText(g) + rest);
    GapDrops(g, rest);
    if LowerAll(w) == "format" { NoWord(rest); }
  }

  lemma DropFormat(w: string, g: Gap, value: string, blank: string, rest: string)
    requires OptionReads(Format(w, g, value, blank), rest) && StartsTrimmed(rest)
    ensures var s := w + (GapText(g) + (value + (blank + rest)));
            FirstWord(s) == LowerAll(w) && DropOption(s) == rest
  {
    var t := value + (blank + rest);
    var s := w + (GapText(g) + t);
    assert w != [] && [] + s == s && [] + t == t;
    hide FirstWord, After, TrimStart, AllAlpha, DropSign;
    WordTrimmed(value, blank + rest);
    assert NoLetter(GapText(g) + t) by {
      assert GapText(g) + value != [] && GapText(g) + t == GapText(g) + value + (blank + rest);
    }
    FirstWordOf([], w, GapText(g) + t);
    FirstWordOf([], value, blank + rest);
    GapDrops(g, t);
    TrimBlanks(blank, rest);
  }

  lemma DropOneOption(o: ExplainOption, rest: string)
    requires OptionReads(o, rest) && StartsTrimmed(rest)
    ensures IsOption(FirstWord(OptionText(o) + rest)) && DropOption(OptionText(o) + rest) == rest
  {
    hide FirstWord, DropOption, GapText;
    match o
    case Flag(w, g) =>
      assert OptionText(o) + rest == w + (GapText(g) + rest);
      DropFlag(w, g, rest);
    case Format(w, g, value, blank) =>
      assert OptionText(o) + rest == w + (GapText(g) + (value + (blank + rest)));
      DropFormat(w, g, value, blank, rest);
  }

  // ---- All options ----

  lemma DropStep(s: string)
    ensures IsOption(FirstWord(s)) ==> DropOptions(s) == DropOptions(DropOption(s))
    ensures !IsOption(FirstWord(s)) ==> DropOptions(s) == s
  {
  }

  lemma OptionStarts(o: ExplainOption, rest: string, more: string)
    requires OptionReads(o, rest)
    ensures StartsTrimmed(OptionText(o) + more)
  {
    assert o.word != [];
    WordTrimmed(o.word, OptionText(o)[|o.word|..] + more);
    assert (OptionText(o) + more)[0] == o.word[0];
  }

  lemma OptionsStart(options: seq<ExplainOption>, rest: string)
    requires OptionsRead(options, rest) && StartsTrimmed(rest)
    ensures StartsTrimmed(OptionsText(options) + rest)
  {
    if options == [] {
      assert OptionsText(options) + rest == rest;
    } else {
      hide OptionReads, OptionText;
      var more := OptionsText(options[1..]) + rest;
      assert OptionsText(options) + rest == OptionText(options[0]) + more;
      OptionStarts(options[0], more, more);
    }
  }

  lemma {:induction false} DropAllOptions(options: seq<ExplainOption>, rest: string)
    requires OptionsRead(options, rest) && StartsTrimmed(rest) && !IsOption(FirstWord(rest))
    ensures DropOptions(OptionsText(options) + rest) == rest
    decreases |options|
  {
    hide DropOptions, FirstWord, DropOption, OptionReads, OptionText, IsOption, StartsTrimmed;
    if options == [] {
      assert OptionsText(options) + rest == rest;
      DropStep(rest);
    } else {
      var more := OptionsText(options[1..]) + rest;
      assert OptionsText(options) + rest == OptionText(options[0]) + more;
      OptionsStart(options[1..], rest);
      DropOneOption(options[0], more);
      DropStep(OptionText(options[0]) + more);
      DropAllOptions(options[1..], rest);
    }
  }

  // ---- The list ----

  lemma {:induction false} AfterParensOf(inside: string, rest: string, depth: nat)
    requires Balanced(inside, depth)
    ensures AfterParens(inside + (")" + rest), depth + 1) == rest
  {
    var s := inside + (")" + rest);
    if inside == [] {
      assert s == ")" + rest && s[1..] == rest;
    } else {
      assert s[1..] == inside[1..] + (")" + rest) && s[0] == inside[0];
      if inside[0] == '(' {
        AfterParensOf(inside[1..], rest, depth + 1);
      } else if inside[0] == ')' {
        AfterParensOf(inside[1..], rest, depth - 1);
      } else {
        AfterParensOf(inside[1..], rest, depth);
      }
    }
  }

  lemma ListCloses(inside: string, blank: string, body: string)
    requires Balanced(inside, 0) && AllBlank(blank) && StartsTrimmed(body)
    ensures var t := ListText(Listed(inside, blank)) + body;
            t != [] && t[0] == '(' && TrimStart(AfterParens(t, 0)) == body
  {
    hide Balanced, AllBlank, TrimStart, AfterParens;
    var t, u := ListText(Listed(inside, blank)) + body, inside + (")" + (blank + body));
    assert t == "(" + u;
    OpenParens(u);
    AfterParensOf(inside, blank + body, 0);
    TrimBlanks(blank, body);
  }

  lemma OpenParens(u: string)
    ensures AfterParens("(" + u, 0) == AfterParens(u, 1)
  {
    assert ("(" + u)[1..] == u;
  }

  /** What follows the options is no option, and what follows the list is what is explained. */
  lemma BehindReads(e: Explain)
    requires ListReads(e.list, e.body) && StartsTrimmed(e.body)
    ensures var t := Behind(e);
            && StartsTrimmed(t) && !IsOption(FirstWord(t))
            && (if t != [] && t[0] == '(' then TrimStart(AfterParens(t, 0)) else t) == e.body
  {
    match e.list
    case NoList => assert Behind(e) == e.body;
    case Listed(inside, blank) =>
      hide Balanced, FirstWord, AfterParens, TrimStart, ListText;
      ListCloses(inside, blank, e.body);
      NoWord(Behind(e));
  }

  // ---- The whole prefix ----

  /** The keyword, the options with their signs and values and the list are dropped, and nothing else. */
  lemma StripUndoesPrefix(e: Explain)
    requires Reads(e)
    ensures FirstWord(ExplainText(e)) == LowerAll(e.word) && StripExplain(ExplainText(e)) == e.body
  {
    hide FirstWord, TrimStart, DropOptions, OptionsText, OptionsRead, ListReads, Behind, AfterParens, AllBlank,
      AllAlpha;
    var t := OptionsText(e.options) + Behind(e);
    BehindReads(e);
    OptionsStart(e.options, Behind(e));
    FirstWordOf(e.lead, e.word, e.gap + t);
    TrimBlanks(e.gap, t);
    DropAllOptions(e.options, Behind(e));
  }

  lemma ExplainStep(s: string, k: Keywords)
    requires FirstWord(s) in ["explain", "describe", "desc"] && FirstWord(s) !in k.write
    ensures StatementIsWrite(s, k) == StatementIsWrite(StripExplain(s), k)
  {
    hide StripExplain, FirstWord;
  }

  /** EXPLAIN, DESCRIBE and DESC in any letter case are judged as what they explain, whatever their options,
      their list and the white space around them. */
  lemma ExplainIsJudgedAsExplained(e: Explain, k: Keywords)
    requires Reads(e) && LowerAll(e.word) in ["explain", "describe", "desc"] && LowerAll(e.word) !in k.write
    ensures StatementIsWrite(ExplainText(e), k) == StatementIsWrite(e.body, k)
  {
    hide StatementIsWrite, StripExplain, FirstWord, Reads, ExplainText, LowerAll;
    StripUndoesPrefix(e);
    ExplainStep(ExplainText(e), k);
  }
}
