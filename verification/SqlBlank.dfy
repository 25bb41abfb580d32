/** `blank_dialect` of src-tauri/src/sqlguard.rs: literals, quoted names and comments become spaces. */
module SqlBlank {
  import opened Common
  import opened Text

  datatype Dialect = Dialect(
    hashComment: bool, backslashEscape: bool, nestedComments: bool, dollarStrings: bool, pgSetReadonly: bool)

  datatype Engine = Mysql | Postgres | SqlServer | Clickhouse | Duckdb | OtherEngine

  const Off := Dialect(false, false, false, false, false)
  const Legacy := Dialect(true, true, false, true, false)

  function ForEngine(engine: Option<Engine>): Dialect {
    match engine
    case Some(Mysql) => Off.(hashComment := true, backslashEscape := true)
    case Some(Postgres) => Off.(nestedComments := true, dollarStrings := true, pgSetReadonly := true)
    case Some(SqlServer) => Off.(nestedComments := true)
    case Some(Clickhouse) => Off.(backslashEscape := true)
    case Some(Duckdb) => Off.(dollarStrings := true)
    case Some(OtherEngine) => Off
    case None => Legacy
  }

  predicate IsQuote(c: char) { c == '\'' || c == '"' || c == '`' }

  function Spaces(n: nat): (s: string)
    ensures |s| == n && forall i | 0 <= i < n :: s[i] == ' '
  {
    seq(n, _ => ' ')
  }

  // ---- How far each blanked construct reaches ----

  function WordRun(s: string): (n: nat)
    ensures n <= |s|
  {
    if s == [] || !IsWordChar(s[0]) then 0 else 1 + WordRun(s[1..])
  }

  predicate Starts2(s: string, a: char, b: char) { |s| >= 2 && s[0] == a && s[1] == b }

  /** The rest of a block comment whose openers so far are `depth` ahead. */
  function BlockLength(s: string, depth: nat, nested: bool): (n: nat)
    ensures n <= |s|
    decreases |s|
  {
    if s == [] || depth == 0 then 0
    else if nested && Starts2(s, '/', '*') then 2 + BlockLength(s[2..], depth + 1, nested)
    else if Starts2(s, '*', '/') then 2 + BlockLength(s[2..], depth - 1, nested)
    else 1 + BlockLength(s[1..], depth, nested)
  }

  /** The rest of a quoted literal, with its closing quote if it has one. */
  function QuoteLength(s: string, q: char, backslash: bool): (n: nat)
    ensures n <= |s|
    decreases |s|
  {
    if s == [] then 0
    else if backslash && s[0] == '\\' && q != '`' && |s| >= 2 then 2 + QuoteLength(s[2..], q, backslash)
    else if s[0] == q then
      if Starts2(s, q, q) then 2 + QuoteLength(s[2..], q, backslash) else 1
    else 1 + QuoteLength(s[1..], q, backslash)
  }

  /** `dollar_tag`: the length of the tag that starts here, or 0. */
  function TagLength(s: string): (n: nat)
    ensures n <= |s|
    ensures n != 0 ==> n >= 2
  {
    if s == [] || s[0] != '$' then 0
    else
      var j := 1 + WordRun(s[1..]);
      if j < |s| && s[j] == '$' then j + 1 else 0
  }

  /** `find_seq`: how far the first occurrence of `needle` reaches, or the whole length. */
  function ThroughNeedle(s: string, needle: string): (n: nat)
    requires needle != []
    ensures n <= |s|
    decreases |s|
  {
    if |s| < |needle| then |s|
    else if s[..|needle|] == needle then |needle|
    else 1 + ThroughNeedle(s[1..], needle)
  }

  // ---- The scanner ----

  predicate OpensVersioned(s: string) { Starts2(s, '/', '*') && |s| >= 3 && (s[2] == '!' || s[2] == '+') }

  /** Something that is blanked starts here. */
  predicate Opens(s: string, d: Dialect)
    requires s != []
  {
    || Starts2(s, '-', '-') || (s[0] == '#' && d.hashComment) || Starts2(s, '/', '*')
    || (s[0] == '$' && d.dollarStrings && TagLength(s) > 0)
    || IsQuote(s[0])
  }

  /** How many characters the next turn of the scanner reads. */
  function TokenLength(s: string, d: Dialect): (n: nat)
    requires s != []
    ensures 1 <= n <= |s|
  {
    if Starts2(s, '-', '-') || (s[0] == '#' && d.hashComment) then 1 + LineLength(s[1..])
    else if OpensVersioned(s) then 3 + DigitRun(s[3..])
    else if Starts2(s, '/', '*') then 2 + BlockLength(s[2..], 1, d.nestedComments)
    else if s[0] == '$' && d.dollarStrings && TagLength(s) > 0 then
      TagLength(s) + ThroughNeedle(s[TagLength(s)..], s[..TagLength(s)])
    else if IsQuote(s[0]) then 1 + QuoteLength(s[1..], s[0], d.backslashEscape)
    else 1
  }

  function Blank(s: string, d: Dialect): (r: string)
    ensures |r| == |s|
    decreases |s|
  {
    if s == [] then []
    else
      var n := TokenLength(s, d);
      (if Opens(s, d) then Spaces(n) else [s[0]]) + Blank(s[n..], d)
  }

  // ---- The loops ----

  // Each loop finds where a construct ends; the turn then writes one space for each character of it.

  method LineEnd(cs: string, start: nat) returns (i: nat)
    requires start <= |cs|
    ensures i == start + LineLength(cs[start..])
  {
    i := start;
    while i < |cs| && cs[i] != '\n'
      invariant start <= i <= |cs|
      invariant i + LineLength(cs[i..]) == start + LineLength(cs[start..])
    {
      assert cs[i..][1..] == cs[i + 1..];
      i := i + 1;
    }
  }

  method DigitsEnd(cs: string, start: nat) returns (i: nat)
    requires start <= |cs|
    ensures i == start + DigitRun(cs[start..])
  {
    i := start;
    while i < |cs| && IsDigit(cs[i])
      invariant start <= i <= |cs|
      invariant i + DigitRun(cs[i..]) == start + DigitRun(cs[start..])
    {
      assert cs[i..][1..] == cs[i + 1..];
      i := i + 1;
    }
  }

  lemma BlockUnroll(cs: string, i: nat, depth: nat, nested: bool)
    requires i < |cs| && depth > 0
    ensures var s := cs[i..];
            BlockLength(s, depth, nested) ==
            if nested && Starts2(s, '/', '*') then 2 + BlockLength(cs[i + 2..], depth + 1, nested)
            else if Starts2(s, '*', '/') then 2 + BlockLength(cs[i + 2..], depth - 1, nested)
            else 1 + BlockLength(cs[i + 1..], depth, nested)
  {
    assert cs[i..][1..] == cs[i + 1..];
    if i + 2 <= |cs| { assert cs[i..][2..] == cs[i + 2..]; }
  }

  lemma BlockDone(s: string, depth: nat, nested: bool)
    requires s == [] || depth == 0
    ensures BlockLength(s, depth, nested) == 0
  {
  }

  /** The end of a block comment, counting depth where comments nest. */
  method BlockEnd(cs: string, start: nat, nested: bool) returns (i: nat)
    requires start <= |cs|
    ensures i == start + BlockLength(cs[start..], 1, nested)
  {
    hide BlockLength;
    i := start;
    var depth: nat := 1;
    while i < |cs| && depth > 0
      invariant start <= i <= |cs|
      invariant i + BlockLength(cs[i..], depth, nested) == start + BlockLength(cs[start..], 1, nested)
      decreases |cs| - i
    {
      BlockUnroll(cs, i, depth, nested);
      if nested && cs[i] == '/' && i + 1 < |cs| && cs[i + 1] == '*' {
        depth, i := depth + 1, i + 2;
      } else if cs[i] == '*' && i + 1 < |cs| && cs[i + 1] == '/' {
        depth, i := depth - 1, i + 2;
      } else {
        i := i + 1;
      }
    }
    BlockDone(cs[i..], depth, nested);
  }

  /** The end of a literal, past its closing quote. */
  method QuoteEnd(cs: string, start: nat, q: char, backslash: bool) returns (i: nat)
    requires start <= |cs|
    ensures i == start + QuoteLength(cs[start..], q, backslash)
  {
    i := start;
    while i < |cs|
      invariant start <= i <= |cs|
      invariant i + QuoteLength(cs[i..], q, backslash) == start + QuoteLength(cs[start..], q, backslash)
      decreases |cs| - i
    {
      assert cs[i..][1..] == cs[i + 1..];
      if backslash && cs[i] == '\\' && q != '`' && i + 1 < |cs| {
        assert cs[i..][2..] == cs[i + 2..];
        i := i + 2;
      } else if cs[i] == q {
        if i + 1 < |cs| && cs[i + 1] == q {
          assert cs[i..][2..] == cs[i + 2..];
          i := i + 2;
        } else {
          return i + 1;
        }
      } else {
        i := i + 1;
      }
    }
  }

  /** `dollar_tag`, with the tag given by its length. */
  method DollarTag(cs: string, start: nat) returns (n: nat)
    requires start < |cs|
    ensures n == TagLength(cs[start..])
  {
    if cs[start] != '$' { return 0; }
    var j := start + 1;
    while j < |cs| && IsWordChar(cs[j])
      invariant start + 1 <= j <= |cs|
      invariant j + WordRun(cs[j..]) == start + 1 + WordRun(cs[start + 1..])
    {
      assert cs[j..][1..] == cs[j + 1..];
      j := j + 1;
    }
    assert cs[start..][1..] == cs[start + 1..];
    if j < |cs| && cs[j] == '$' { return j + 1 - start; }
    return 0;
  }

  predicate StandsAt(s: string, i: nat, needle: string) { i + |needle| <= |s| && s[i..i + |needle|] == needle }

  /** `find_seq`: the first index at or after `from` where `needle` stands, or that it stands nowhere there. */
  method FindSeq(cs: string, needle: string, from: nat) returns (r: Option<nat>)
    requires needle != [] && from <= |cs|
    ensures r.Some? ==> r.value + |needle| == from + ThroughNeedle(cs[from..], needle) <= |cs|
    ensures r.Some? ==> from <= r.value && StandsAt(cs, r.value, needle)
    ensures forall i | from <= i && (r.Some? ==> i < r.value) :: !StandsAt(cs, i, needle)
    ensures r.None? ==> from + ThroughNeedle(cs[from..], needle) == |cs|
  {
    var i := from;
    while i + |needle| <= |cs|
      invariant from <= i <= |cs|
      invariant i + ThroughNeedle(cs[i..], needle) == from + ThroughNeedle(cs[from..], needle)
      invariant forall j | from <= j < i :: !StandsAt(cs, j, needle)
      decreases |cs| - i
    {
      assert cs[i..][..|needle|] == cs[i..i + |needle|];
      if cs[i..i + |needle|] == needle { return Some(i); }
      assert cs[i..][1..] == cs[i + 1..];
      i := i + 1;
    }
    return None;
  }

  /** Where the construct at `start` ends, or `None` for a character that is kept. */
  method Opened(cs: string, start: nat, d: Dialect) returns (r: Option<nat>)
    requires start < |cs|
    ensures r == if Opens(cs[start..], d) then Some(start + TokenLength(cs[start..], d)) else None
  {
    hide DigitRun, BlockLength, QuoteLength, ThroughNeedle, TagLength;
    ghost var s := cs[start..];
    var c := cs[start];
    var i;
    if (c == '-' && start + 1 < |cs| && cs[start + 1] == '-') || (c == '#' && d.hashComment) {
      i := LineEnd(cs, start);
      return Some(i);
    }
    if c == '/' && start + 1 < |cs| && cs[start + 1] == '*' {
      if start + 2 < |cs| && (cs[start + 2] == '!' || cs[start + 2] == '+') {
        assert s[3..] == cs[start + 3..];
        i := DigitsEnd(cs, start + 3);
      } else {
        assert s[2..] == cs[start + 2..];
        i := BlockEnd(cs, start + 2, d.nestedComments);
      }
      return Some(i);
    }
    if c == '$' && d.dollarStrings {
      var n := DollarTag(cs, start);
      if n > 0 {
        var tag := cs[start..start + n];
        assert tag == s[..n] && cs[start + n..] == s[n..];
        var p := FindSeq(cs, tag, start + n);
        return Some(if p.Some? then p.value + n else |cs|);
      }
    }
    if IsQuote(c) {
      assert s[1..] == cs[start + 1..];
      i := QuoteEnd(cs, start + 1, c, d.backslashEscape);
      return Some(i);
    }
    return None;
  }

  lemma BlankStep(s: string, d: Dialect, before: string)
    requires s != []
    ensures Opens(s, d) ==> var n := TokenLength(s, d); before + Spaces(n) + Blank(s[n..], d) == before + Blank(s, d)
    ensures !Opens(s, d) ==> TokenLength(s, d) == 1 && before + [s[0]] + Blank(s[1..], d) == before + Blank(s, d)
  {
  }

  /** `blank_dialect` */
  method BlankDialect(sql: string, d: Dialect) returns (out: string)
    ensures out == Blank(sql, d)
  {
    hide Blank, Opens, TokenLength;
    var i := 0;
    out := [];
    assert sql[0..] == sql;
    BlankNothing(d);
    while i < |sql|
      invariant i <= |sql|
      invariant out + Blank(sql[i..], d) == Blank(sql, d)
      decreases |sql| - i
    {
      BlankStep(sql[i..], d, out);
      var end := Opened(sql, i, d);
      if end.Some? {
        assert sql[i..][end.value - i..] == sql[end.value..];
        out := out + Spaces(end.value - i);
        i := end.value;
      } else {
        assert sql[i..][1..] == sql[i + 1..];
        out := out + [sql[i]];
        i := i + 1;
      }
    }
  }

  lemma BlankNothing(d: Dialect)
    ensures Blank([], d) == []
  {
  }
}
