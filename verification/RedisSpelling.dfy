/** Every way of writing a Redis command line, and what each is read as. */
module RedisSpelling {
  import opened Common
  import opened Text
  import opened RedisGuard

  // ---- The spellings ----

  /** In double quotes: a character for itself, a byte by its two hexadecimal digits, a character behind a
      backslash. */
  datatype DoubleChar = Itself(c: char) | Hex(high: char, low: char) | Behind(c: char)

  /** In single quotes: a character for itself, a quote behind a backslash. */
  datatype SingleChar = Literal(c: char) | Quote

  datatype Arg = Bare(text: string) | Double(ds: seq<DoubleChar>) | Single(ss: seq<SingleChar>)

  /** An argument and the white space behind it. */
  datatype Spaced = Spaced(arg: Arg, blank: string)

  /** How a line breaks off: not at all, in double quotes with or without a lone backslash at the end, in single
      quotes, or with text right behind a closing quote. */
  datatype End = Whole | OpenDouble(ds: seq<DoubleChar>, backslash: bool) | OpenSingle(ss: seq<SingleChar>)
    | Glued(arg: Arg, more: string)

  datatype Line = Line(lead: string, args: seq<Spaced>, end: End)

  function DoubleSpelling(d: DoubleChar): string {
    match d
    case Itself(c) => [c]
    case Hex(high, low) => ['\\', 'x', high, low]
    case Behind(c) => ['\\', c]
  }

  function SingleSpelling(s: SingleChar): string { match s case Literal(c) => [c] case Quote => ['\\', '\''] }

  function DoubleText(ds: seq<DoubleChar>): string {
    if ds == [] then [] else DoubleSpelling(ds[0]) + DoubleText(ds[1..])
  }

  function SingleText(ss: seq<SingleChar>): string {
    if ss == [] then [] else SingleSpelling(ss[0]) + SingleText(ss[1..])
  }

  function ArgText(a: Arg): string {
    match a
    case Bare(text) => text
    case Double(ds) => "\"" + (DoubleText(ds) + "\"")
    case Single(ss) => "'" + (SingleText(ss) + "'")
  }

  function ArgsText(args: seq<Spaced>): string {
    if args == [] then [] else ArgText(args[0].arg) + (args[0].blank + ArgsText(args[1..]))
  }

  function EndText(e: End): string {
    match e
    case Whole => []
    case OpenDouble(ds, backslash) => "\"" + (DoubleText(ds) + if backslash then "\\" else "")
    case OpenSingle(ss) => "'" + SingleText(ss)
    case Glued(arg, more) => ArgText(arg) + more
  }

  function LineText(l: Line): string { l.lead + (ArgsText(l.args) + EndText(l.end)) }

  // ---- When they read as such ----

  predicate AllBlank(s: string) { forall i | 0 <= i < |s| :: IsWhitespace(s[i]) }

  predicate HexDigit(c: char) { '0' <= c <= '9' || 'a' <= c <= 'f' || 'A' <= c <= 'F' }

  predicate TwoDigits(s: string) { |s| >= 2 && HexDigit(s[0]) && HexDigit(s[1]) }

  /** `rest` follows. */
  predicate DoubleFits(d: DoubleChar, rest: string) {
    match d
    case Itself(c) => c != '\\' && c != '"'
    case Hex(high, low) => HexDigit(high) && HexDigit(low)
    case Behind(c) => c == 'x' ==> !TwoDigits(rest)
  }

  predicate SingleFits(s: SingleChar, rest: string) {
    match s
    case Literal(c) => c != '\'' && (c == '\\' && rest != [] ==> rest[0] != '\'')
    case Quote => true
  }

  predicate DoubleReads(ds: seq<DoubleChar>, rest: string) {
    ds == [] || (DoubleFits(ds[0], DoubleText(ds[1..]) + rest) && DoubleReads(ds[1..], rest))
  }

  predicate SingleReads(ss: seq<SingleChar>, rest: string) {
    ss == [] || (SingleFits(ss[0], SingleText(ss[1..]) + rest) && SingleReads(ss[1..], rest))
  }

  predicate ArgReads(a: Arg) {
    match a
    case Bare(text) =>
      && text != [] && text[0] != '"' && text[0] != '\''
      && forall i | 0 <= i < |text| :: !IsWhitespace(text[i])
    case Double(ds) => DoubleReads(ds, "\"")
    case Single(ss) => SingleReads(ss, "'")
  }

  /** White space stands behind each argument that is not the last. */
  predicate ArgsRead(args: seq<Spaced>, last: bool) {
    args == []
    || (ArgReads(args[0].arg) && AllBlank(args[0].blank) && (args[0].blank == [] ==> |args| == 1 && last)
        && ArgsRead(args[1..], last))
  }

  predicate EndReads(e: End) {
    match e
    case Whole => true
    case OpenDouble(ds, backslash) => DoubleReads(ds, if backslash then "\\" else "")
    case OpenSingle(ss) => SingleReads(ss, "")
    case Glued(arg, more) => !arg.Bare? && ArgReads(arg) && more != [] && !IsWhitespace(more[0])
  }

  predicate Reads(l: Line) { AllBlank(l.lead) && ArgsRead(l.args, l.end.Whole?) && EndReads(l.end) }

  // ---- What they mean ----

  function DigitValue(c: char): int
    requires HexDigit(c)
  {
    if c <= '9' then c as int - '0' as int
    else if 'a' <= c then 10 + (c as int - 'a' as int)
    else 10 + (c as int - 'A' as int)
  }

  function DoubleMeans(d: DoubleChar): char {
    match d
    case Itself(c) => c
    case Hex(high, low) =>
      if HexDigit(high) && HexDigit(low) then (16 * DigitValue(high) + DigitValue(low)) as char else ' '
    case Behind(c) =>
      if c == 'n' then '\n' else if c == 'r' then '\r' else if c == 't' then '\t'
      else if c == 'b' then '\U{0008}' else if c == 'a' then '\U{0007}' else c
  }

  function DoubleValue(ds: seq<DoubleChar>): string {
    if ds == [] then [] else [DoubleMeans(ds[0])] + DoubleValue(ds[1..])
  }

  function SingleMeans(s: SingleChar): char { match s case Literal(c) => c case Quote => '\'' }

  function SingleValue(ss: seq<SingleChar>): string {
    if ss == [] then [] else [SingleMeans(ss[0])] + SingleValue(ss[1..])
  }

  function ArgValue(a: Arg): string {
    match a case Bare(text) => text case Double(ds) => DoubleValue(ds) case Single(ss) => SingleValue(ss)
  }

  function ArgValues(args: seq<Spaced>): seq<string> {
    if args == [] then [] else [ArgValue(args[0].arg)] + ArgValues(args[1..])
  }

  function Outcome(l: Line): Args {
    match l.end
    case Whole => Ok(ArgValues(l.args))
    case OpenDouble(_, _) => Err(UnbalancedDouble)
    case OpenSingle(_) => Err(UnbalancedSingle)
    case Glued(_, _) => Err(QuoteNotFollowedBySpace)
  }

  // ---- Each spelling is read as what it means ----

  lemma HexIsHex(c: char)
    ensures IsHex(c) <==> HexDigit(c)
    ensures HexDigit(c) ==> HexValue(c) == DigitValue(c)
  {
  }

  /** One character in double quotes. */
  lemma DoubleCharRead(d: DoubleChar, more: string, cur: string)
    requires DoubleFits(d, more)
    ensures ReadDouble(DoubleSpelling(d) + more, cur) == ReadDouble(more, cur + [DoubleMeans(d)])
  {
    var s := DoubleSpelling(d) + more;
    match d
    case Itself(c) =>
      assert s == [c] + more && s[1..] == more;
    case Hex(high, low) =>
      HexIsHex(high);
      HexIsHex(low);
      assert s == ['\\', 'x', high, low] + more && s[1..] == ['x', high, low] + more;
      assert s[1..][1] == high && s[1..][2] == low && s[4..] == more;
    case Behind(c) =>
      assert s == ['\\', c] + more && s[1..] == [c] + more && s[2..] == more;
      if |more| > 1 {
        HexIsHex(more[0]);
        HexIsHex(more[1]);
        assert s[1..][1] == more[0] && s[1..][2] == more[1];
      }
  }

  lemma {:induction false} DoubleRead(ds: seq<DoubleChar>, rest: string, cur: string)
    requires DoubleReads(ds, rest)
    ensures ReadDouble(DoubleText(ds) + rest, cur) == ReadDouble(rest, cur + DoubleValue(ds))
  {
    hide ReadDouble, DoubleMeans;
    if ds == [] {
      assert DoubleText(ds) + rest == rest && cur + [] == cur;
    } else {
      var more := DoubleText(ds[1..]) + rest;
      assert DoubleText(ds) + rest == DoubleSpelling(ds[0]) + more;
      DoubleCharRead(ds[0], more, cur);
      DoubleRead(ds[1..], rest, cur + [DoubleMeans(ds[0])]);
      Assoc(cur, [DoubleMeans(ds[0])], DoubleValue(ds[1..]));
    }
  }

  lemma SingleCharRead(s: SingleChar, more: string, cur: string)
    requires SingleFits(s, more)
    ensures ReadSingle(SingleSpelling(s) + more, cur) == ReadSingle(more, cur + [SingleMeans(s)])
  {
    var t := SingleSpelling(s) + more;
    match s
    case Literal(c) =>
      assert t[0] == c && t[1..] == more;
      if |more| > 0 { assert t[1] == more[0]; }
    case Quote =>
      assert t[0] == '\\' && t[1] == '\'' && t[2..] == more;
  }

  lemma {:induction false} SingleRead(ss: seq<SingleChar>, rest: string, cur: string)
    requires SingleReads(ss, rest)
    ensures ReadSingle(SingleText(ss) + rest, cur) == ReadSingle(rest, cur + SingleValue(ss))
  {
    hide ReadSingle, SingleMeans, SingleSpelling;
    if ss == [] {
      assert SingleText(ss) + rest == rest && cur + [] == cur;
    } else {
      var more := SingleText(ss[1..]) + rest;
      assert SingleText(ss) + rest == SingleSpelling(ss[0]) + more;
      SingleCharRead(ss[0], more, cur);
      SingleRead(ss[1..], rest, cur + [SingleMeans(ss[0])]);
      Assoc(cur, [SingleMeans(ss[0])], SingleValue(ss[1..]));
    }
  }

  /** What follows a closing quote does not change how the text before it reads. */
  lemma {:induction false} DoubleReadsOn(ds: seq<DoubleChar>, rest: string)
    requires DoubleReads(ds, "\"")
    ensures DoubleReads(ds, "\"" + rest)
  {
    hide DoubleText;
    if ds != [] {
      DoubleReadsOn(ds[1..], rest);
      var t := DoubleText(ds[1..]);
      assert TwoDigits(t + ("\"" + rest)) ==> TwoDigits(t + "\"") by {
        if |t| >= 2 { assert (t + "\"")[0] == t[0] && (t + "\"")[1] == t[1]; }
      }
    }
  }

  lemma {:induction false} SingleReadsOn(ss: seq<SingleChar>, rest: string)
    requires SingleReads(ss, "'")
    ensures SingleReads(ss, "'" + rest)
  {
    if ss != [] {
      SingleReadsOn(ss[1..], rest);
      var t := SingleText(ss[1..]);
      assert (t + ("'" + rest))[0] == (t + "'")[0];
    }
  }

  lemma {:induction false} BareRead(text: string, rest: string)
    requires (forall i | 0 <= i < |text| :: !IsWhitespace(text[i])) && (rest != [] ==> IsWhitespace(rest[0]))
    ensures BareLength(text + rest) == |text|
  {
    if text == [] {
      assert text + rest == rest;
    } else {
      assert (text + rest)[1..] == text[1..] + rest;
      BareRead(text[1..], rest);
    }
  }

  lemma QuoteCloses(cur: string, rest: string)
    ensures ReadDouble("\"" + rest, cur) == Closed(cur, rest) && ReadSingle("'" + rest, cur) == Closed(cur, rest)
  {
    assert ("\"" + rest)[1..] == rest && ("'" + rest)[1..] == rest;
  }

  lemma DoubleArg(ds: seq<DoubleChar>, rest: string)
    requires DoubleReads(ds, "\"")
    ensures ReadArg(ArgText(Double(ds)) + rest) == Closed(DoubleValue(ds), rest)
  {
    hide ReadDouble, DoubleText, DoubleValue, DoubleReads, Closed;
    var s, tail := ArgText(Double(ds)) + rest, "\"" + rest;
    assert s[0] == '"' && s[1..] == DoubleText(ds) + tail;
    DoubleReadsOn(ds, rest);
    DoubleRead(ds, tail, []);
    assert [] + DoubleValue(ds) == DoubleValue(ds);
    QuoteCloses(DoubleValue(ds), rest);
  }

  lemma SingleArg(ss: seq<SingleChar>, rest: string)
    requires SingleReads(ss, "'")
    ensures ReadArg(ArgText(Single(ss)) + rest) == Closed(SingleValue(ss), rest)
  {
    hide ReadSingle, SingleText, SingleValue, SingleReads, Closed;
    var s, tail := ArgText(Single(ss)) + rest, "'" + rest;
    assert s[0] == '\'' && s[1..] == SingleText(ss) + tail;
    SingleReadsOn(ss, rest);
    SingleRead(ss, tail, []);
    assert [] + SingleValue(ss) == SingleValue(ss);
    QuoteCloses(SingleValue(ss), rest);
  }

  lemma OneArgRead(a: Arg, rest: string)
    requires ArgReads(a) && (rest != [] ==> IsWhitespace(rest[0]))
    ensures var s := ArgText(a) + rest; s != [] && !IsWhitespace(s[0]) && ReadArg(s) == Ok((ArgValue(a), rest))
  {
    match a
    case Bare(text) =>
      var s := text + rest;
      BareRead(text, rest);
      assert s[0] == text[0] && s[..|text|] == text && s[|text|..] == rest;
    case Double(ds) => DoubleArg(ds, rest);
    case Single(ss) => SingleArg(ss, rest);
  }

  lemma {:induction false} SkipBlanks(blank: string, s: string, out: seq<string>)
    requires AllBlank(blank)
    ensures SplitFrom(blank + s, out) == SplitFrom(s, out)
  {
    hide ReadArg;
    if blank == [] {
      assert blank + s == s;
    } else {
      assert (blank + s)[1..] == blank[1..] + s;
      SkipBlanks(blank[1..], s, out);
      SplitTrims(blank + s, out);
      SplitTrims(blank[1..] + s, out);
    }
  }

  lemma SplitTrims(s: string, out: seq<string>)
    ensures SplitFrom(s, out) == SplitFrom(TrimStart(s), out)
  {
    hide ReadArg;
    TrimTwice(s);
  }

  lemma {:induction false} TrimTwice(s: string)
    ensures TrimStart(TrimStart(s)) == TrimStart(s)
  {
    if s != [] && IsWhitespace(s[0]) { TrimTwice(s[1..]); }
  }

  // ---- Whole lines ----

  lemma ArgStep(a: Arg, blank: string, s: string, out: seq<string>)
    requires ArgReads(a) && AllBlank(blank) && (blank == [] ==> s == [])
    ensures SplitFrom(ArgText(a) + (blank + s), out) == SplitFrom(s, out + [ArgValue(a)])
  {
    var rest := blank + s;
    var t := ArgText(a) + rest;
    assert rest != [] ==> IsWhitespace(rest[0]);
    OneArgRead(a, rest);
    assert TrimStart(t) == t;
    SkipBlanks(blank, s, out + [ArgValue(a)]);
    hide ReadArg, ArgText, ArgValue, TrimStart;
  }

  lemma {:induction false} ArgsRun(args: seq<Spaced>, s: string, out: seq<string>)
    requires ArgsRead(args, s == [])
    ensures SplitFrom(ArgsText(args) + s, out) == SplitFrom(s, out + ArgValues(args))
  {
    hide SplitFrom, ArgText, ArgValue, ArgReads;
    if args == [] {
      assert ArgsText(args) + s == s && out + [] == out;
    } else {
      var more := ArgsText(args[1..]) + s;
      Assoc(ArgText(args[0].arg), args[0].blank + ArgsText(args[1..]), s);
      Assoc(args[0].blank, ArgsText(args[1..]), s);
      ArgStep(args[0].arg, args[0].blank, more, out);
      ArgsRun(args[1..], s, out + [ArgValue(args[0].arg)]);
      Assoc(out, [ArgValue(args[0].arg)], ArgValues(args[1..]));
    }
  }

  lemma EndRun(e: End, out: seq<string>)
    requires EndReads(e)
    ensures SplitFrom(EndText(e), out) == match e
            case Whole => Ok(out)
            case OpenDouble(_, _) => Err(UnbalancedDouble)
            case OpenSingle(_) => Err(UnbalancedSingle)
            case Glued(_, _) => Err(QuoteNotFollowedBySpace)
    ensures e.Whole? <==> EndText(e) == []
  {
    var t := EndText(e);
    if !e.Whole? {
      match e {
        case OpenDouble(ds, backslash) => OpenDoubleRead(ds, backslash);
        case OpenSingle(ss) => OpenSingleRead(ss);
        case Glued(Double(ds), more) => DoubleArg(ds, more);
        case Glued(Single(ss), more) => SingleArg(ss, more);
        case _ =>
      }
      assert TrimStart(t) == t;
    }
    hide ReadArg, ReadDouble, ReadSingle, DoubleText, SingleText;
  }

  lemma OpenDoubleRead(ds: seq<DoubleChar>, backslash: bool)
    requires EndReads(OpenDouble(ds, backslash))
    ensures ReadArg(EndText(OpenDouble(ds, backslash))) == Err(UnbalancedDouble)
  {
    hide DoubleText, DoubleValue, DoubleReads, Escape;
    var tail := if backslash then "\\" else "";
    var s := EndText(OpenDouble(ds, backslash));
    assert s[0] == '"' && s[1..] == DoubleText(ds) + tail;
    DoubleRead(ds, tail, []);
    if backslash { assert tail[1..] == []; }
  }

  lemma OpenSingleRead(ss: seq<SingleChar>)
    requires EndReads(OpenSingle(ss))
    ensures ReadArg(EndText(OpenSingle(ss))) == Err(UnbalancedSingle)
  {
    hide SingleText, SingleValue, SingleReads;
    var s := EndText(OpenSingle(ss));
    assert s[0] == '\'' && s[1..] == SingleText(ss) + "";
    SingleRead(ss, "", []);
  }

  /** However a line is written, it is split into what its arguments mean, or refused for how it breaks off. */
  lemma LineIsRead(l: Line)
    requires Reads(l)
    ensures SplitFrom(LineText(l), []) == Outcome(l)
  {
    hide SplitFrom, ArgsText, EndText, ArgsRead, EndReads, ArgValues;
    SkipBlanks(l.lead, ArgsText(l.args) + EndText(l.end), []);
    EndRun(l.end, ArgValues(l.args));
    ArgsRun(l.args, EndText(l.end), []);
    assert [] + ArgValues(l.args) == ArgValues(l.args);
  }

  // ---- Every line is written in one of these ways ----

  lemma {:induction false} DoubleLex(s: string) returns (ds: seq<DoubleChar>, tail: string)
    ensures s == DoubleText(ds) + tail && DoubleReads(ds, tail)
    ensures tail == "" || tail == "\\" || tail[0] == '"'
    decreases |s|
  {
    if s == "" || s == "\\" || s[0] == '"' {
      ds, tail := [], s;
      assert DoubleText(ds) + tail == s;
    } else {
      var d := if s[0] != '\\' then Itself(s[0])
               else if s[1] == 'x' && TwoDigits(s[2..]) then Hex(s[2], s[3]) else Behind(s[1]);
      var n := |DoubleSpelling(d)|;
      assert s[..n] == DoubleSpelling(d);
      var more;
      more, tail := DoubleLex(s[n..]);
      ds := [d] + more;
      DoubleCons(d, more, tail);
      assert s == s[..n] + s[n..];
    }
  }

  lemma DoubleCons(d: DoubleChar, more: seq<DoubleChar>, tail: string)
    ensures var ds := [d] + more;
            && DoubleText(ds) + tail == DoubleSpelling(d) + (DoubleText(more) + tail)
            && (DoubleReads(ds, tail) <==> DoubleFits(d, DoubleText(more) + tail) && DoubleReads(more, tail))
  {
    var ds := [d] + more;
    assert ds[1..] == more;
  }

  lemma {:induction false} SingleLex(s: string) returns (ss: seq<SingleChar>, tail: string)
    ensures s == SingleText(ss) + tail && SingleReads(ss, tail)
    ensures tail == "" || tail[0] == '\''
    decreases |s|
  {
    if s == "" || s[0] == '\'' {
      ss, tail := [], s;
      assert SingleText(ss) + tail == s;
    } else {
      var c := if |s| > 1 && s[0] == '\\' && s[1] == '\'' then Quote else Literal(s[0]);
      var n := |SingleSpelling(c)|;
      assert s[..n] == SingleSpelling(c);
      var more;
      more, tail := SingleLex(s[n..]);
      ss := [c] + more;
      SingleCons(c, more, tail);
      assert s == s[..n] + s[n..];
    }
  }

  lemma SingleCons(c: SingleChar, more: seq<SingleChar>, tail: string)
    ensures var ss := [c] + more;
            && SingleText(ss) + tail == SingleSpelling(c) + (SingleText(more) + tail)
            && (SingleReads(ss, tail) <==> SingleFits(c, SingleText(more) + tail) && SingleReads(more, tail))
  {
    var ss := [c] + more;
    assert ss[1..] == more;
  }

  lemma {:induction false} DoubleReadsOff(ds: seq<DoubleChar>, rest: string)
    requires DoubleReads(ds, "\"" + rest)
    ensures DoubleReads(ds, "\"")
  {
    hide DoubleText;
    if ds != [] {
      DoubleReadsOff(ds[1..], rest);
      var t := DoubleText(ds[1..]);
      assert TwoDigits(t + "\"") ==> TwoDigits(t + ("\"" + rest)) by {
        if |t| >= 2 { assert (t + ("\"" + rest))[0] == t[0] && (t + ("\"" + rest))[1] == t[1]; }
      }
    }
  }

  lemma {:induction false} SingleReadsOff(ss: seq<SingleChar>, rest: string)
    requires SingleReads(ss, "'" + rest)
    ensures SingleReads(ss, "'")
  {
    hide SingleText;
    if ss != [] {
      SingleReadsOff(ss[1..], rest);
      var t := SingleText(ss[1..]);
      assert (t + ("'" + rest))[0] == (t + "'")[0];
    }
  }

  lemma {:induction false} BareLex(s: string) returns (n: nat)
    ensures n <= |s| && (forall i | 0 <= i < n :: !IsWhitespace(s[i])) && (n < |s| ==> IsWhitespace(s[n]))
  {
    if s == [] || IsWhitespace(s[0]) {
      n := 0;
    } else {
      n := BareLex(s[1..]);
      assert forall i | 0 < i <= n :: s[i] == s[1..][i - 1];
      n := n + 1;
    }
  }

  lemma {:induction false} BlankLex(s: string) returns (n: nat)
    ensures n <= |s| && AllBlank(s[..n]) && (n < |s| ==> !IsWhitespace(s[n]))
  {
    if s == [] || !IsWhitespace(s[0]) {
      n := 0;
    } else {
      n := BlankLex(s[1..]);
      assert s[..n + 1] == [s[0]] + s[1..][..n];
      n := n + 1;
    }
  }

  /** An argument and what follows it, or the end of the line. */
  lemma DoubleStart(s: string) returns (a: Arg, rest: string, e: End)
    requires s != [] && s[0] == '"'
    ensures (e.Whole? && ArgReads(a) && !a.Bare? && s == ArgText(a) + rest)
         || (!e.Whole? && EndReads(e) && s == EndText(e))
  {
    var ds, tail := DoubleLex(s[1..]);
    assert s == "\"" + s[1..];
    a, rest, e := Double(ds), "", Whole;
    if tail == "" || tail == "\\" {
      e := OpenDouble(ds, tail != "");
    } else {
      rest := tail[1..];
      assert tail == "\"" + rest;
      DoubleReadsOff(ds, rest);
      Assoc(DoubleText(ds), "\"", rest);
      hide DoubleText, DoubleReads;
    }
  }

  lemma SingleStart(s: string) returns (a: Arg, rest: string, e: End)
    requires s != [] && s[0] == '\''
    ensures (e.Whole? && ArgReads(a) && !a.Bare? && s == ArgText(a) + rest)
         || (!e.Whole? && EndReads(e) && s == EndText(e))
  {
    var ss, tail := SingleLex(s[1..]);
    assert s == "'" + s[1..];
    a, rest, e := Single(ss), "", Whole;
    if tail == "" {
      e := OpenSingle(ss);
      assert SingleText(ss) + "" == SingleText(ss);
    } else {
      rest := tail[1..];
      assert tail == "'" + rest;
      SingleReadsOff(ss, rest);
      Assoc(SingleText(ss), "'", rest);
      hide SingleText, SingleReads;
    }
  }

  lemma BareStart(s: string) returns (a: Arg, rest: string)
    requires s != [] && !IsWhitespace(s[0]) && s[0] != '"' && s[0] != '\''
    ensures ArgReads(a) && s == ArgText(a) + rest && (rest != [] ==> IsWhitespace(rest[0]))
  {
    var n := BareLex(s);
    a, rest := Bare(s[..n]), s[n..];
    assert s == s[..n] + s[n..];
  }

  lemma {:induction false} ArgsLex(s: string) returns (args: seq<Spaced>, e: End)
    requires s != [] ==> !IsWhitespace(s[0])
    ensures s == ArgsText(args) + EndText(e) && ArgsRead(args, e.Whole?) && EndReads(e)
    decreases |s|
  {
    hide DoubleText, SingleText, DoubleReads, SingleReads;
    args, e := [], Whole;
    if s != [] {
      var a, rest;
      if s[0] == '"' { a, rest, e := DoubleStart(s); }
      else if s[0] == '\'' { a, rest, e := SingleStart(s); }
      else { a, rest := BareStart(s); }
      if !e.Whole? {
        assert ArgsText(args) + EndText(e) == EndText(e);
      } else if rest != [] && !IsWhitespace(rest[0]) {
        e := Glued(a, rest);
        assert ArgsText(args) + EndText(e) == EndText(e);
      } else {
        args, e := MoreArgs(s, a, rest);
      }
    }
  }

  lemma {:induction false} MoreArgs(s: string, a: Arg, rest: string) returns (args: seq<Spaced>, e: End)
    requires ArgReads(a) && s == ArgText(a) + rest && (rest != [] ==> IsWhitespace(rest[0]))
    ensures s == ArgsText(args) + EndText(e) && ArgsRead(args, e.Whole?) && EndReads(e)
    decreases |s|, 0
  {
    ArgHasText(a);
    hide ArgReads, EndReads, EndText, ArgText, ArgsText, ArgsRead;
    var n := BlankLex(rest);
    var blank, behind := rest[..n], rest[n..];
    assert rest == blank + behind;
    var more;
    more, e := ArgsLex(behind);
    args := [Spaced(a, blank)] + more;
    NothingLeft(more, e, behind);
    ConsText(a, blank, more, EndText(e));
    ConsReads(a, blank, more, e);
  }

  lemma ConsText(a: Arg, blank: string, more: seq<Spaced>, tail: string)
    ensures ArgsText([Spaced(a, blank)] + more) + tail == ArgText(a) + (blank + (ArgsText(more) + tail))
  {
    hide ArgText;
    assert ([Spaced(a, blank)] + more)[1..] == more;
    Assoc(blank, ArgsText(more), tail);
    Assoc(ArgText(a), blank + ArgsText(more), tail);
  }

  lemma ConsReads(a: Arg, blank: string, more: seq<Spaced>, e: End)
    requires ArgReads(a) && AllBlank(blank) && ArgsRead(more, e.Whole?) && (blank == [] ==> more == [] && e.Whole?)
    ensures ArgsRead([Spaced(a, blank)] + more, e.Whole?)
  {
    hide ArgReads;
    assert ([Spaced(a, blank)] + more)[1..] == more;
  }

  lemma ArgHasText(a: Arg)
    requires ArgReads(a)
    ensures |ArgText(a)| > 0
  {
    hide DoubleText, SingleText, DoubleReads, SingleReads;
  }

  lemma NothingLeft(args: seq<Spaced>, e: End, s: string)
    requires s == ArgsText(args) + EndText(e) && ArgsRead(args, e.Whole?) && EndReads(e)
    ensures s == [] ==> args == [] && e.Whole?
  {
    if s == [] && args != [] { ArgHasText(args[0].arg); }
    hide ArgText, DoubleText, SingleText;
  }

  /** Every line is. */
  lemma LineLex(s: string) returns (l: Line)
    ensures s == LineText(l) && Reads(l)
  {
    hide ArgsText, EndText, ArgsRead, EndReads;
    var n := BlankLex(s);
    var args, e := ArgsLex(s[n..]);
    l := Line(s[..n], args, e);
    assert s == s[..n] + s[n..];
  }

  /** So a line is refused exactly when, behind arguments that read, a quote stays open or text stands right
      behind a closing one; and it is split into exactly what its arguments mean otherwise. */
  lemma SplitExactly(s: string, r: Args)
    ensures SplitFrom(s, []) == r <==> exists l :: s == LineText(l) && Reads(l) && Outcome(l) == r
  {
    hide SplitFrom, LineText, Reads, Outcome;
    var l := LineLex(s);
    LineIsRead(l);
    if k: Line :| s == LineText(k) && Reads(k) && Outcome(k) == r { LineIsRead(k); }
  }

  /** However it is written, a line is judged by what its arguments mean, and one that breaks off is a write. */
  lemma LineJudged(k: Catalog, l: Line)
    requires Reads(l)
    ensures ClassifyLine(k, LineText(l)) == if l.end.Whole? then Classify(k, ArgValues(l.args)) else Class.Write
  {
    hide SplitFrom, LineText, Reads, ArgValues, Classify;
    LineIsRead(l);
  }
}
