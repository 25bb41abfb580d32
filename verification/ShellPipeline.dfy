/** The grammar of the shell in src-tauri/src/txshell.rs: `split_pipeline` and `tokenize`. */
module ShellPipeline {
  import opened Common
  import opened Text

  function TrimEnd(s: string): (r: string)
    ensures |r| <= |s| && (r != [] ==> !IsWhitespace(r[|r| - 1]))
  {
    if s != [] && IsWhitespace(s[|s| - 1]) then TrimEnd(s[..|s| - 1]) else s
  }

  function Trim(s: string): string { TrimEnd(TrimStart(s)) }

  function TrimAll(parts: seq<string>): seq<string> {
    if parts == [] then [] else [Trim(parts[0])] + TrimAll(parts[1..])
  }

  lemma {:induction false} TrimAllAppend(a: seq<string>, b: seq<string>)
    ensures TrimAll(a + b) == TrimAll(a) + TrimAll(b)
  {
    if a == [] {
      assert a + b == b;
    } else {
      assert (a + b)[1..] == a[1..] + b;
      TrimAllAppend(a[1..], b);
    }
  }

  // ---- Splitting at |> ----

  predicate PipeQuote(c: char) { c == '\'' || c == '"' || c == '`' }

  /** More text in front of the first part. */
  function Prepend(x: string, parts: seq<string>): (r: seq<string>)
    requires parts != []
    ensures |r| == |parts|
  {
    [x + parts[0]] + parts[1..]
  }

  /** The parts before they are trimmed; `quote` is the quote the text starts in. */
  function Parts(s: string, quote: Option<char>): (r: seq<string>)
    ensures r != []
    decreases |s|
  {
    if s == [] then [[]]
    else match quote
      case Some(q) =>
        if s[0] != q then Prepend([s[0]], Parts(s[1..], quote))
        else if |s| > 1 && s[1] == q then Prepend([q, q], Parts(s[2..], quote))
        else Prepend([q], Parts(s[1..], None))
      case None =>
        if PipeQuote(s[0]) then Prepend([s[0]], Parts(s[1..], Some(s[0])))
        else if s[0] == '|' && |s| > 1 && s[1] == '>' then [[]] + Parts(s[2..], None)
        else Prepend([s[0]], Parts(s[1..], None))
  }

  lemma PrependPrepend(a: string, b: string, parts: seq<string>)
    requires parts != []
    ensures Prepend(a, Prepend(b, parts)) == Prepend(a + b, parts)
  {
    Common.Assoc(a, b, parts[0]);
  }

  lemma PrependNothing(parts: seq<string>)
    requires parts != []
    ensures Prepend([], parts) == parts
  {
    assert [] + parts[0] == parts[0];
  }

  method SplitPipeline(line: string) returns (parts: seq<string>)
    ensures parts == TrimAll(Parts(line, None))
  {
    hide TrimAll;
    parts := [];
    ghost var raw: seq<string> := [];
    var cur: string := [];
    var quote: Option<char> := None;
    var i := 0;
    PrependNothing(Parts(line, None));
    assert line[0..] == line;
    assert raw + Prepend(cur, Parts(line[0..], quote)) == Parts(line, None);
    NothingTrimmed();
    while i < |line|
      invariant i <= |line| && parts == TrimAll(raw)
      invariant raw + Prepend(cur, Parts(line[i..], quote)) == Parts(line, None)
    {
      var c := line[i];
      PartsStep(line, i, quote);
      ghost var was := cur;
      match quote {
        case Some(q) =>
          cur := cur + [c];
          if c == q {
            if i + 1 < |line| && line[i + 1] == q {
              cur := cur + [q];
              PrependPrepend(was, [q, q], Parts(line[i + 2..], quote));
              assert was + [c] + [q] == was + [q, q];
              i := i + 1;
            } else {
              quote := None;
              PrependPrepend(was, [c], Parts(line[i + 1..], quote));
            }
          } else {
            PrependPrepend(was, [c], Parts(line[i + 1..], quote));
          }
        case None =>
          if c == '\'' || c == '"' || c == '`' {
            quote := Some(c);
            cur := cur + [c];
            PrependPrepend(was, [c], Parts(line[i + 1..], quote));
          } else if c == '|' && i + 1 < |line| && line[i + 1] == '>' {
            TrimOne(raw, cur);
            parts := parts + [Trim(cur)];
            Regroup(raw, cur, Parts(line[i + 2..], None));
            PrependNothing(Parts(line[i + 2..], None));
            raw := raw + [cur];
            cur := [];
            i := i + 1;
          } else {
            cur := cur + [c];
            PrependPrepend(was, [c], Parts(line[i + 1..], quote));
          }
      }
      i := i + 1;
    }
    TrimOne(raw, cur);
    assert cur + [] == cur && line[i..] == [];
    assert Prepend(cur, [[]]) == [cur];
    parts := parts + [Trim(cur)];
  }

  lemma NothingTrimmed()
    ensures TrimAll([]) == []
  {
  }

  lemma TrimOne(raw: seq<string>, cur: string)
    ensures TrimAll(raw + [cur]) == TrimAll(raw) + [Trim(cur)]
  {
    TrimAllAppend(raw, [cur]);
  }

  lemma Regroup(raw: seq<string>, cur: string, rest: seq<string>)
    requires rest != []
    ensures raw + Prepend(cur, [[]] + rest) == (raw + [cur]) + rest
  {
    assert cur + [] == cur;
  }

  /** One turn of the loop. */
  lemma PartsStep(line: string, i: nat, quote: Option<char>)
    requires i < |line|
    ensures var next := if i + 1 < |line| then Some(line[i + 1]) else None;
      match quote
      case Some(q) =>
        (if line[i] != q then Parts(line[i..], quote) == Prepend([line[i]], Parts(line[i + 1..], quote))
         else if next == Some(q) then Parts(line[i..], quote) == Prepend([q, q], Parts(line[i + 2..], quote))
         else Parts(line[i..], quote) == Prepend([q], Parts(line[i + 1..], None)))
      case None =>
        (if PipeQuote(line[i]) then Parts(line[i..], quote) == Prepend([line[i]], Parts(line[i + 1..], Some(line[i])))
         else if line[i] == '|' && next == Some('>') then Parts(line[i..], quote) == [[]] + Parts(line[i + 2..], None)
         else Parts(line[i..], quote) == Prepend([line[i]], Parts(line[i + 1..], None)))
  {
    assert line[i..][1..] == line[i + 1..];
    if i + 1 < |line| { assert line[i..][2..] == line[i + 2..] && line[i..][1] == line[i + 1]; }
  }

  function Join(parts: seq<string>): string
    requires parts != []
  {
    if |parts| == 1 then parts[0] else parts[0] + ("|>" + Join(parts[1..]))
  }

  lemma JoinPrepend(x: string, parts: seq<string>)
    requires parts != []
    ensures Join(Prepend(x, parts)) == x + Join(parts)
  {
    if |parts| > 1 {
      assert Prepend(x, parts)[1..] == parts[1..];
      Common.Assoc(x, parts[0], "|>" + Join(parts[1..]));
    }
  }

  /** Nothing is lost: the parts joined by `|>` are the line. */
  lemma {:induction false} RejoinRestores(s: string, quote: Option<char>)
    ensures Join(Parts(s, quote)) == s
    decreases |s|
  {
    if s != [] {
      assert s == [s[0]] + s[1..];
      match quote
      case Some(q) =>
        if s[0] != q {
          RejoinRestores(s[1..], quote);
          JoinPrepend([s[0]], Parts(s[1..], quote));
        } else if |s| > 1 && s[1] == q {
          RejoinRestores(s[2..], quote);
          JoinPrepend([q, q], Parts(s[2..], quote));
        } else {
          RejoinRestores(s[1..], None);
          JoinPrepend([q], Parts(s[1..], None));
        }
      case None =>
        if PipeQuote(s[0]) {
          RejoinRestores(s[1..], Some(s[0]));
          JoinPrepend([s[0]], Parts(s[1..], Some(s[0])));
        } else if s[0] == '|' && |s| > 1 && s[1] == '>' {
          RejoinRestores(s[2..], None);
          assert ([[]] + Parts(s[2..], None))[1..] == Parts(s[2..], None);
          assert s == "|>" + s[2..];
        } else {
          RejoinRestores(s[1..], None);
          JoinPrepend([s[0]], Parts(s[1..], None));
        }
    }
  }

  /** The quote that is open where the text ends. */
  function OpenAtEnd(s: string, quote: Option<char>): Option<char>
    decreases |s|
  {
    if s == [] then quote
    else match quote
      case Some(q) =>
        if s[0] != q then OpenAtEnd(s[1..], quote)
        else if |s| > 1 && s[1] == q then OpenAtEnd(s[2..], quote)
        else OpenAtEnd(s[1..], None)
      case None =>
        if PipeQuote(s[0]) then OpenAtEnd(s[1..], Some(s[0]))
        else if s[0] == '|' && |s| > 1 && s[1] == '>' then OpenAtEnd(s[2..], None)
        else OpenAtEnd(s[1..], None)
  }

  lemma PrependAppend(x: string, a: seq<string>, b: seq<string>)
    requires a != []
    ensures Prepend(x, a + b) == Prepend(x, a) + b
  {
    assert (a + b)[1..] == a[1..] + b;
  }

  /** A `|>` outside quotes is a boundary wherever it stands. */
  lemma {:induction false} SplitsAtPipe(a: string, b: string, quote: Option<char>)
    requires OpenAtEnd(a, quote).None? && (quote.Some? ==> PipeQuote(quote.value))
    ensures Parts(a + ("|>" + b), quote) == Parts(a, quote) + Parts(b, None)
    decreases |a|
  {
    var s := a + ("|>" + b);
    if a == [] {
      assert s[2..] == b && s[0] == '|' && s[1] == '>';
    } else {
      assert s[1..] == a[1..] + ("|>" + b);
      if |a| > 1 { assert s[2..] == a[2..] + ("|>" + b); }
      SplitsInside(a, b, quote, s);
    }
  }

  lemma {:induction false} SplitsInside(a: string, b: string, quote: Option<char>, s: string)
    requires a != [] && OpenAtEnd(a, quote).None? && (quote.Some? ==> PipeQuote(quote.value))
    requires s == a + ("|>" + b) && s[1..] == a[1..] + ("|>" + b)
    requires |a| > 1 ==> s[2..] == a[2..] + ("|>" + b)
    ensures Parts(s, quote) == Parts(a, quote) + Parts(b, None)
    decreases |a|, 0
  {
    var rest := Parts(b, None);
    var q := if quote.Some? then quote.value else a[0];
    assert s[0] == a[0] && (if |a| > 1 then s[1] == a[1] else s[1] == '|');
    if quote.Some? && a[0] == q && |a| > 1 && a[1] == q {
      SplitsAtPipe(a[2..], b, quote);
      PrependAppend([q, q], Parts(a[2..], quote), rest);
    } else if quote.None? && a[0] == '|' && |a| > 1 && a[1] == '>' {
      SplitsAtPipe(a[2..], b, None);
      Common.Assoc([[]], Parts(a[2..], None), rest);
    } else {
      var next := if quote.Some? then (if a[0] == q then None else quote) else if PipeQuote(q) then Some(q) else None;
      SplitsAtPipe(a[1..], b, next);
      PrependAppend([a[0]], Parts(a[1..], next), rest);
    }
  }

  /** The last part goes on with the first of more. */
  function GoesOn(a: seq<string>, b: seq<string>): seq<string>
    requires a != [] && b != []
  {
    a[..|a| - 1] + ([a[|a| - 1] + b[0]] + b[1..])
  }

  lemma GoesOnBehind(x: string, a: seq<string>, b: seq<string>)
    requires a != [] && b != []
    ensures GoesOn(Prepend(x, a), b) == Prepend(x, GoesOn(a, b)) && GoesOn([x] + a, b) == [x] + GoesOn(a, b)
  {
    if |a| == 1 {
      Common.Assoc(x, a[0], b[0]);
    } else {
      assert Prepend(x, a)[..|a| - 1] == [x + a[0]] + a[1..|a| - 1];
    }
    assert ([x] + a)[..|a|] == [x] + a[..|a| - 1];
  }

  /** Inside quotes a `|>` is text: the part that the quote is open in goes on through it. */
  lemma {:induction false} TextInQuotes(a: string, b: string, quote: Option<char>)
    requires OpenAtEnd(a, quote).Some? && (quote.Some? ==> PipeQuote(quote.value))
    ensures Parts(a + ("|>" + b), quote) == GoesOn(Parts(a, quote), Prepend("|>", Parts(b, OpenAtEnd(a, quote))))
    decreases |a|
  {
    var s := a + ("|>" + b);
    if a == [] {
      assert s == "|>" + b && s[1..] == ">" + b && s[1..][1..] == b;
      PrependPrepend("|", ">", Parts(b, quote));
      assert "|" + ">" == "|>";
      NothingGoesOn(Prepend("|>", Parts(b, quote)));
    } else {
      assert s[1..] == a[1..] + ("|>" + b);
      if |a| > 1 { assert s[2..] == a[2..] + ("|>" + b); }
      TextInside(a, b, quote, s);
    }
  }

  lemma NothingGoesOn(b: seq<string>)
    requires b != []
    ensures GoesOn([[]], b) == b
  {
    assert [] + b[0] == b[0];
  }

  lemma {:induction false} TextInside(a: string, b: string, quote: Option<char>, s: string)
    requires a != [] && OpenAtEnd(a, quote).Some? && (quote.Some? ==> PipeQuote(quote.value))
    requires s == a + ("|>" + b) && s[1..] == a[1..] + ("|>" + b)
    requires |a| > 1 ==> s[2..] == a[2..] + ("|>" + b)
    ensures Parts(s, quote) == GoesOn(Parts(a, quote), Prepend("|>", Parts(b, OpenAtEnd(a, quote))))
    decreases |a|, 0
  {
    hide GoesOn, Prepend;
    var rest := Prepend("|>", Parts(b, OpenAtEnd(a, quote)));
    var q := if quote.Some? then quote.value else a[0];
    assert s[0] == a[0] && (if |a| > 1 then s[1] == a[1] else s[1] == '|');
    if quote.Some? && a[0] == q && |a| > 1 && a[1] == q {
      TextInQuotes(a[2..], b, quote);
      GoesOnBehind([q, q], Parts(a[2..], quote), rest);
    } else if quote.None? && a[0] == '|' && |a| > 1 && a[1] == '>' {
      TextInQuotes(a[2..], b, None);
      GoesOnBehind([], Parts(a[2..], None), rest);
    } else {
      var next := if quote.Some? then (if a[0] == q then None else quote) else if PipeQuote(q) then Some(q) else None;
      TextInQuotes(a[1..], b, next);
      GoesOnBehind([a[0]], Parts(a[1..], next), rest);
    }
  }

  // ---- Words ----

  predicate WordQuote(c: char) { c == '\'' || c == '"' }

  /** The words of a stage; `cur` is the word begun, `had` whether a quote has been seen in it. */
  function Words(s: string, cur: string, quote: Option<char>, had: bool): seq<string> {
    if s == [] then if cur != [] || had then [cur] else []
    else match quote
      case Some(q) => if s[0] == q then Words(s[1..], cur, None, had) else Words(s[1..], cur + [s[0]], quote, had)
      case None =>
        if WordQuote(s[0]) then Words(s[1..], cur, Some(s[0]), true)
        else if IsWhitespace(s[0]) then
          if cur != [] || had then [cur] + Words(s[1..], [], None, false) else Words(s[1..], cur, None, had)
        else Words(s[1..], cur + [s[0]], None, had)
  }

  method Tokenize(stage: string) returns (out: seq<string>)
    ensures out == Words(stage, [], None, false)
  {
    out := [];
    var cur: string := [];
    var quote: Option<char> := None;
    var had := false;
    for i := 0 to |stage|
      invariant out + Words(stage[i..], cur, quote, had) == Words(stage, [], None, false)
    {
      var c := stage[i];
      assert stage[i..][1..] == stage[i + 1..];
      if quote.Some? {
        if c == quote.value { quote := None; } else { cur := cur + [c]; }
      } else if c == '\'' || c == '"' {
        quote, had := Some(c), true;
      } else if IsWhitespace(c) {
        if cur != [] || had {
          Common.Assoc(out, [cur], Words(stage[i + 1..], [], None, false));
          out := out + [cur];
          cur, had := [], false;
        }
      } else {
        cur := cur + [c];
      }
    }
    if cur != [] || had { out := out + [cur]; }
  }

  // ---- A printer that both undo ----

  /** A character in the quotes that it is not. */
  function QuoteFor(c: char): char { if c == '"' then '\'' else '"' }

  /** Every single character in quotes of its own: no one quote serves a word that has both. */
  function PrintChars(arg: string): string {
    if arg == [] then [] else [QuoteFor(arg[0])] + ([arg[0], QuoteFor(arg[0])] + PrintChars(arg[1..]))
  }

  function Printed(arg: string): string { if arg == [] then "\"\"" else PrintChars(arg) }

  /** The words of a stage, each quoted, with single blanks between. */
  function Line(args: seq<string>): string {
    if args == [] then [] else if |args| == 1 then Printed(args[0]) else Printed(args[0]) + ([' '] + Line(args[1..]))
  }

  lemma WordsOfChar(c: char, rest: string, cur: string, had: bool)
    ensures Words([QuoteFor(c)] + ([c, QuoteFor(c)] + rest), cur, None, had) == Words(rest, cur + [c], None, true)
  {
    var q := QuoteFor(c);
    var s, t, u := [q] + ([c, q] + rest), [c, q] + rest, [q] + rest;
    assert s[1..] == t && t[1..] == u && u[1..] == rest;
    assert Words(s, cur, None, had) == Words(t, cur, Some(q), true);
    assert Words(t, cur, Some(q), true) == Words(u, cur + [c], Some(q), true);
    assert Words(u, cur + [c], Some(q), true) == Words(rest, cur + [c], None, true);
  }

  lemma {:induction false} WordsOfChars(arg: string, rest: string, cur: string, had: bool)
    requires arg != []
    ensures Words(PrintChars(arg) + rest, cur, None, had) == Words(rest, cur + arg, None, true)
    decreases |arg|
  {
    hide Words, QuoteFor;
    var c, q := arg[0], QuoteFor(arg[0]);
    var more := PrintChars(arg[1..]) + rest;
    assert PrintChars(arg) + rest == [q] + ([c, q] + more);
    WordsOfChar(c, more, cur, had);
    if |arg| > 1 {
      WordsOfChars(arg[1..], rest, cur + [c], true);
      assert cur + [c] + arg[1..] == cur + arg;
    } else {
      assert more == rest && cur + [c] == cur + arg;
    }
  }

  lemma WordsOfPrinted(arg: string, rest: string)
    ensures Words(Printed(arg) + rest, [], None, false) == Words(rest, arg, None, true)
  {
    if arg == [] {
      var s := Printed(arg) + rest;
      assert s[1..] == ['"'] + rest && (['"'] + rest)[1..] == rest;
    } else {
      WordsOfChars(arg, rest, [], false);
      assert [] + arg == arg;
    }
  }

  /** Reading the words of a printed stage gives them back, whatever characters they have and however
      many of them are empty. */
  lemma {:induction false} TokenizeUndoesPrint(args: seq<string>)
    ensures Words(Line(args), [], None, false) == args
    decreases |args|
  {
    if |args| == 1 {
      assert Printed(args[0]) + [] == Printed(args[0]);
      WordsOfPrinted(args[0], []);
    } else if args != [] {
      var more := [' '] + Line(args[1..]);
      WordsOfPrinted(args[0], more);
      assert more[1..] == Line(args[1..]);
      TokenizeUndoesPrint(args[1..]);
    }
  }

  lemma Steps(c: char, q: char, s: string)
    ensures c != q ==> Parts([c] + s, Some(q)) == Prepend([c], Parts(s, Some(q)))
    ensures Parts([q, q] + s, Some(q)) == Prepend([q, q], Parts(s, Some(q)))
    ensures s == [] || s[0] != q ==> Parts([q] + s, Some(q)) == Prepend([q], Parts(s, None))
    ensures PipeQuote(q) ==> Parts([q] + s, None) == Prepend([q], Parts(s, Some(q)))
  {
    assert ([c] + s)[1..] == s && ([q] + s)[1..] == s && ([q, q] + s)[2..] == s;
  }

  /** Inside the quotes of a character: the text up to the next word goes to the first part. */
  lemma {:induction false} PartsInside(c: char, arg: string, rest: string)
    requires rest != [] ==> !PipeQuote(rest[0])
    ensures var q := QuoteFor(c); var x := [c, q] + PrintChars(arg);
            Parts(x + rest, Some(q)) == Prepend(x, Parts(rest, None))
    decreases |arg|
  {
    hide Parts;
    var q := QuoteFor(c);
    if arg == [] {
      Steps(c, q, [q] + rest);
      Steps(c, q, rest);
      assert [c, q] + PrintChars(arg) == [c, q];
      assert [c, q] + rest == [c] + ([q] + rest);
      PrependPrepend([c], [q], Parts(rest, None));
      assert [c] + [q] == [c, q];
    } else {
      var d, p := arg[0], QuoteFor(arg[0]);
      PartsInside(d, arg[1..], rest);
      PartsBetween(c, q, p, [d, p] + PrintChars(arg[1..]), rest);
      assert PrintChars(arg) == [p] + ([d, p] + PrintChars(arg[1..]));
    }
  }

  /** From inside the quotes of one character into the quotes of the next. */
  lemma PartsBetween(c: char, q: char, p: char, y: string, rest: string)
    requires c != q && PipeQuote(q) && PipeQuote(p)
    requires Parts(y + rest, Some(p)) == Prepend(y, Parts(rest, None))
    ensures Parts([c, q] + ([p] + y) + rest, Some(q)) == Prepend([c, q] + ([p] + y), Parts(rest, None))
  {
    hide Parts, PipeQuote;
    var u := [q] + ([p] + (y + rest));
    Steps(c, q, u);
    assert [c, q] + ([p] + y) + rest == [c] + u && [c, q] + ([p] + y) == [c, q, p] + y;
    if p == q {
      assert u == [q, q] + (y + rest);
      Steps(c, q, y + rest);
    } else {
      Steps(c, q, [p] + (y + rest));
      Steps(c, p, y + rest);
    }
    Gathered(c, q, p, y, Parts(rest, None));
  }

  lemma Gathered(c: char, q: char, p: char, y: string, t: seq<string>)
    requires t != []
    ensures Prepend([c], Prepend([q], Prepend([p], Prepend(y, t)))) == Prepend([c, q, p] + y, t)
    ensures Prepend([c], Prepend([q, p], Prepend(y, t))) == Prepend([c, q, p] + y, t)
  {
    assert [c] + ([q] + ([p] + (y + t[0]))) == [c, q, p] + y + t[0];
    assert [c] + ([q, p] + (y + t[0])) == [c, q, p] + y + t[0];
  }

  lemma PartsOfPrinted(arg: string, rest: string)
    requires rest != [] ==> !PipeQuote(rest[0])
    ensures Parts(Printed(arg) + rest, None) == Prepend(Printed(arg), Parts(rest, None))
  {
    hide Parts;
    var t := Parts(rest, None);
    if arg == [] {
      Steps('a', '"', ['"'] + rest);
      Steps('a', '"', rest);
      assert Printed(arg) + rest == ['"'] + (['"'] + rest) && ['"'] + ['"'] == "\"\"";
      PrependPrepend(['"'], ['"'], t);
    } else {
      var c, q := arg[0], QuoteFor(arg[0]);
      var x := [c, q] + PrintChars(arg[1..]);
      PartsInside(c, arg[1..], rest);
      Steps(c, q, x + rest);
      assert PrintChars(arg) == [q] + x && PrintChars(arg) + rest == [q] + (x + rest);
      PrependPrepend([q], x, t);
    }
  }

  lemma {:induction false} PartsOfLine(args: seq<string>, rest: string)
    requires rest != [] ==> !PipeQuote(rest[0])
    ensures Parts(Line(args) + rest, None) == Prepend(Line(args), Parts(rest, None))
    decreases |args|
  {
    var t := Parts(rest, None);
    if args == [] {
      assert Line(args) + rest == rest;
      PrependNothing(t);
    } else if |args| == 1 {
      PartsOfPrinted(args[0], rest);
    } else {
      var l := Line(args[1..]);
      PartsOfLine(args[1..], rest);
      assert Line(args) + rest == Printed(args[0]) + ([' '] + (l + rest));
      PartsOfPrinted(args[0], [' '] + (l + rest));
      assert ([' '] + (l + rest))[1..] == l + rest;
      PrependPrepend([' '], l, t);
      PrependPrepend(Printed(args[0]), [' '] + l, t);
    }
  }

  /** Stages joined by ` |> `. */
  function Pipeline(stages: seq<seq<string>>): string
    requires stages != []
  {
    if |stages| == 1 then Line(stages[0]) else Line(stages[0]) + (" |> " + Pipeline(stages[1..]))
  }

  function Lines(stages: seq<seq<string>>): seq<string> {
    if stages == [] then [] else [Line(stages[0])] + Lines(stages[1..])
  }

  lemma {:induction false} PrintEnds(arg: string)
    requires arg != []
    ensures var p := PrintChars(arg); p != [] && WordQuote(p[0]) && WordQuote(p[|p| - 1])
  {
    if |arg| > 1 { PrintEnds(arg[1..]); }
  }

  lemma {:induction false} LineEnds(args: seq<string>)
    ensures Line(args) != [] ==> WordQuote(Line(args)[0]) && WordQuote(Line(args)[|Line(args)| - 1])
    ensures args != [] ==> Line(args) != []
    decreases |args|
  {
    if args != [] {
      if args[0] != [] { PrintEnds(args[0]); }
      LineEnds(args[1..]);
    }
  }

  lemma TrimBlanks(before: string, s: string, after: string)
    requires before in ["", " "] && after in ["", " "]
    requires s != [] ==> !IsWhitespace(s[0]) && !IsWhitespace(s[|s| - 1])
    ensures Trim(before + (s + after)) == s
  {
    var x := s + after;
    if before == "" { assert before + x == x; } else { assert (before + x)[1..] == x; }
    assert TrimStart(before + x) == TrimStart(x);
    if after == " " { assert x[..|x| - 1] == s; } else { assert x == s; }
    if s == [] {
      assert after == " " ==> after[1..] == [];
      assert x == after && TrimStart(after) == [];
    } else {
      assert TrimStart(x) == x && TrimEnd(s) == s && TrimEnd(x) == s;
    }
  }

  lemma TrimOfLine(before: string, args: seq<string>, after: string)
    requires before in ["", " "] && after in ["", " "]
    ensures Trim(before + (Line(args) + after)) == Line(args)
  {
    LineEnds(args);
    hide Line;
    TrimBlanks(before, Line(args), after);
  }

  /** A printed pipeline is split into its stages: no `|>` or quote inside a word misleads the splitter. */
  lemma {:induction false} SplitUndoesPrint(stages: seq<seq<string>>, before: string)
    requires stages != [] && before in ["", " "]
    ensures TrimAll(Parts(before + Pipeline(stages), None)) == Lines(stages)
    decreases |stages|
  {
    hide Trim, Line;
    var l := Line(stages[0]);
    if |stages| == 1 {
      assert before + l == before + (l + []);
      PartsOfLine(stages[0], []);
      assert l + [] == l;
      PartsBefore(before, l);
      assert Prepend(l, [[]]) == [l] && Prepend(before, [l]) == [before + l];
      TrimOfLine(before, stages[0], "");
    } else {
      var more := " " + Pipeline(stages[1..]);
      var rest := " |> " + Pipeline(stages[1..]);
      SplitUndoesPrint(stages[1..], " ");
      PartsOfLine(stages[0], rest);
      PartsBefore(before, l + rest);
      PartsOfPipe(Pipeline(stages[1..]));
      var t := Parts(more, None);
      assert Prepend(before, Prepend(l, [[' ']] + t)) == [before + (l + [' '])] + t;
      TrimOfLine(before, stages[0], " ");
      assert ([before + (l + [' '])] + t)[1..] == t;
    }
  }

  lemma PartsBefore(before: string, s: string)
    requires before in ["", " "]
    ensures Parts(before + s, None) == Prepend(before, Parts(s, None))
  {
    if before == "" {
      assert before + s == s;
      PrependNothing(Parts(s, None));
    } else {
      assert (before + s)[1..] == s;
    }
  }

  lemma PartsOfPipe(s: string)
    ensures Parts(" |> " + s, None) == [[' ']] + Parts(" " + s, None)
  {
    var x, y := " |> " + s, "|> " + s;
    PartsStep(x, 0, None);
    PartsStep(y, 0, None);
    hide Parts;
    assert x[0..] == x && x[1..] == y && y[0..] == y && y[2..] == " " + s;
    assert [' '] + [] == [' '];
    assert Prepend([' '], [[]] + Parts(" " + s, None)) == [[' ']] + Parts(" " + s, None);
  }

  /** Printing a pipeline, splitting it and reading each stage gives every word of every stage back. */
  lemma PipelineRoundTrip(stages: seq<seq<string>>, k: nat)
    requires k < |stages|
    ensures var parts := TrimAll(Parts(Pipeline(stages), None));
            |parts| == |stages| && Words(parts[k], [], None, false) == stages[k]
  {
    SplitUndoesPrint(stages, "");
    assert "" + Pipeline(stages) == Pipeline(stages);
    LinesAt(stages, k);
    TokenizeUndoesPrint(stages[k]);
  }

  lemma {:induction false} LinesAt(stages: seq<seq<string>>, k: nat)
    requires k < |stages|
    ensures |Lines(stages)| == |stages| && Lines(stages)[k] == Line(stages[k])
  {
    if |stages| > 1 { LinesAt(stages[1..], if k > 0 then k - 1 else 0); }
  }
}
