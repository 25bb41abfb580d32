/** Argument parsing and command classification of src-tauri/src/redisguard.rs. */
module RedisGuard {
  import opened Common
  import opened Text

  datatype ArgError = UnbalancedDouble | UnbalancedSingle | QuoteNotFollowedBySpace

  /** One argument and the text behind it. */
  type OneArg = Result<(string, string), ArgError>

  predicate IsHex(c: char) { '0' <= c <= '9' || 'a' <= c <= 'f' || 'A' <= c <= 'F' }

  function HexValue(c: char): (v: int)
    requires IsHex(c)
    ensures 0 <= v < 16
  {
    if '0' <= c <= '9' then c as int - 48 else if 'a' <= c <= 'f' then c as int - 87 else c as int - 55
  }

  /** What a backslash escape in double quotes stands for, and how many characters it takes. `s` begins
      behind the backslash. */
  function Escape(s: string): (r: (char, nat))
    requires s != []
    ensures 1 <= r.1 <= |s|
  {
    if s[0] == 'x' && |s| > 2 && IsHex(s[1]) && IsHex(s[2]) then ((16 * HexValue(s[1]) + HexValue(s[2])) as char, 3)
    else if s[0] == 'n' then ('\n', 1)
    else if s[0] == 'r' then ('\r', 1)
    else if s[0] == 't' then ('\t', 1)
    else if s[0] == 'b' then ('\U{0008}', 1)
    else if s[0] == 'a' then ('\U{0007}', 1)
    else (s[0], 1)
  }

  /** Behind a closing quote there is white space, or nothing. */
  function Closed(cur: string, rest: string): OneArg {
    if rest != [] && !IsWhitespace(rest[0]) then Err(QuoteNotFollowedBySpace) else Ok((cur, rest))
  }

  function ReadDouble(s: string, cur: string): (r: OneArg)
    ensures r.Ok? ==> |r.value.1| < |s|
    decreases |s|
  {
    if s == [] then Err(UnbalancedDouble)
    else if s[0] == '\\' && |s| > 1 then ReadDouble(s[1 + Escape(s[1..]).1..], cur + [Escape(s[1..]).0])
    else if s[0] == '"' then Closed(cur, s[1..])
    else ReadDouble(s[1..], cur + [s[0]])
  }

  function ReadSingle(s: string, cur: string): (r: OneArg)
    ensures r.Ok? ==> |r.value.1| < |s|
    decreases |s|
  {
    if s == [] then Err(UnbalancedSingle)
    else if s[0] == '\\' && |s| > 1 && s[1] == '\'' then ReadSingle(s[2..], cur + ['\''])
    else if s[0] == '\'' then Closed(cur, s[1..])
    else ReadSingle(s[1..], cur + [s[0]])
  }

  function BareLength(s: string): (n: nat)
    ensures n <= |s|
    ensures s != [] && !IsWhitespace(s[0]) ==> n > 0
  {
    if s == [] || IsWhitespace(s[0]) then 0 else 1 + BareLength(s[1..])
  }

  function ReadArg(s: string): (r: OneArg)
    requires s != [] && !IsWhitespace(s[0])
    ensures r.Ok? ==> |r.value.1| < |s|
  {
    if s[0] == '"' then ReadDouble(s[1..], [])
    else if s[0] == '\'' then ReadSingle(s[1..], [])
    else Ok((s[..BareLength(s)], s[BareLength(s)..]))
  }

  type Args = Result<seq<string>, ArgError>

  function SplitFrom(s: string, out: seq<string>): Args
    decreases |s|
  {
    var t := TrimStart(s);
    if t == [] then Ok(out)
    else match ReadArg(t)
      case Err(e) => Err(e)
      case Ok(found) => SplitFrom(found.1, out + [found.0])
  }

  // ---- The loops ----

  method SkipSpaces(cs: string, start: nat) returns (i: nat)
    requires start <= |cs|
    ensures start <= i <= |cs| && cs[i..] == TrimStart(cs[start..])
  {
    i := start;
    while i < |cs| && IsWhitespace(cs[i])
      invariant start <= i <= |cs| && TrimStart(cs[i..]) == TrimStart(cs[start..])
    {
      assert cs[i..][1..] == cs[i + 1..];
      i := i + 1;
    }
  }

  /** How a loop inside quotes ends: an error, or an argument and the index behind it. */
  ghost predicate Ends(cs: string, r: Result<(string, nat), ArgError>, spec: OneArg) {
    match r
    case Err(e) => spec == Err(e)
    case Ok(found) => found.1 <= |cs| && spec == Ok((found.0, cs[found.1..]))
  }

  method DoubleLoop(cs: string, start: nat) returns (r: Result<(string, nat), ArgError>)
    requires start <= |cs|
    ensures Ends(cs, r, ReadDouble(cs[start..], []))
  {
    hide ReadDouble, Escape;
    var i, cur := start, [];
    while i < |cs|
      invariant start <= i <= |cs| && ReadDouble(cs[i..], cur) == ReadDouble(cs[start..], [])
      decreases |cs| - i
    {
      DoubleTurn(cs, i, cur);
      if cs[i] == '\\' && i + 1 < |cs| {
        var (c, n) := Escape(cs[i + 1..]);
        cur, i := cur + [c], i + 1 + n;
      } else if cs[i] == '"' {
        if i + 1 < |cs| && !IsWhitespace(cs[i + 1]) { return Err(QuoteNotFollowedBySpace); }
        return Ok((cur, i + 1));
      } else {
        cur, i := cur + [cs[i]], i + 1;
      }
    }
    DoubleOver(cs, cur);
    return Err(UnbalancedDouble);
  }

  /** One turn inside double quotes. */
  lemma DoubleTurn(cs: string, i: nat, cur: string)
    requires i < |cs|
    ensures cs[i] == '\\' && i + 1 < |cs| ==>
              ReadDouble(cs[i..], cur) == ReadDouble(cs[i + 1 + Escape(cs[i + 1..]).1..], cur + [Escape(cs[i + 1..]).0])
    ensures !(cs[i] == '\\' && i + 1 < |cs|) ==>
              ReadDouble(cs[i..], cur) ==
              if cs[i] == '"' then Closed(cur, cs[i + 1..]) else ReadDouble(cs[i + 1..], cur + [cs[i]])
  {
    assert cs[i..][1..] == cs[i + 1..];
    if cs[i] == '\\' && i + 1 < |cs| {
      var n := Escape(cs[i + 1..]).1;
      assert cs[i..][1 + n..] == cs[i + 1 + n..];
    }
  }

  lemma DoubleOver(cs: string, cur: string)
    ensures ReadDouble(cs[|cs|..], cur) == Err(UnbalancedDouble)
  {
  }

  method SingleLoop(cs: string, start: nat) returns (r: Result<(string, nat), ArgError>)
    requires start <= |cs|
    ensures Ends(cs, r, ReadSingle(cs[start..], []))
  {
    var i, cur := start, [];
    while i < |cs|
      invariant start <= i <= |cs| && ReadSingle(cs[i..], cur) == ReadSingle(cs[start..], [])
      decreases |cs| - i
    {
      assert cs[i..][1..] == cs[i + 1..];
      if cs[i] == '\\' && i + 1 < |cs| && cs[i + 1] == '\'' {
        assert cs[i..][2..] == cs[i + 2..];
        cur, i := cur + ['\''], i + 2;
      } else if cs[i] == '\'' {
        if i + 1 < |cs| && !IsWhitespace(cs[i + 1]) { return Err(QuoteNotFollowedBySpace); }
        return Ok((cur, i + 1));
      } else {
        cur, i := cur + [cs[i]], i + 1;
      }
    }
    return Err(UnbalancedSingle);
  }

  method BareLoop(cs: string, start: nat) returns (cur: string, i: nat)
    requires start <= |cs|
    ensures i == start + BareLength(cs[start..]) && cur == cs[start..i]
  {
    i, cur := start, [];
    while i < |cs| && !IsWhitespace(cs[i])
      invariant start <= i <= |cs| && cur == cs[start..i]
      invariant i + BareLength(cs[i..]) == start + BareLength(cs[start..])
    {
      assert cs[i..][1..] == cs[i + 1..];
      cur, i := cur + [cs[i]], i + 1;
    }
  }

  method ArgTurn(cs: string, i: nat) returns (r: Result<(string, nat), ArgError>)
    requires i < |cs| && !IsWhitespace(cs[i])
    ensures Ends(cs, r, ReadArg(cs[i..]))
  {
    assert cs[i..][1..] == cs[i + 1..];
    if cs[i] == '"' {
      r := DoubleLoop(cs, i + 1);
    } else if cs[i] == '\'' {
      r := SingleLoop(cs, i + 1);
    } else {
      var cur, end := BareLoop(cs, i);
      var n := end - i;
      assert cs[i..][..n] == cs[i..end] && cs[i..][n..] == cs[end..];
      r := Ok((cur, end));
    }
  }

  method SplitArgs(input: string) returns (r: Args)
    ensures r == SplitFrom(input, [])
  {
    var out, i := [], 0;
    assert input[0..] == input;
    while i < |input|
      invariant i <= |input| && SplitFrom(input[i..], out) == SplitFrom(input, [])
      decreases |input| - i
    {
      ghost var before := input[i..];
      i := SkipSpaces(input, i);
      if i >= |input| { break; }
      assert input[i..][0] == input[i];
      var found := ArgTurn(input, i);
      if found.Err? { return Err(found.error); }
      ArgShortens(input[i..]);
      out, i := out + [found.value.0], found.value.1;
    }
    assert input[i..] == [] ==> SplitFrom(input[i..], out) == Ok(out);
    return Ok(out);
  }

  lemma ArgShortens(s: string)
    requires s != [] && !IsWhitespace(s[0])
    ensures ReadArg(s).Ok? ==> |ReadArg(s).value.1| < |s|
  {
  }

  // ---- The printer that the parser undoes ----

  function Escaped(arg: string): string {
    if arg == [] then []
    else (if arg[0] == '\\' || arg[0] == '"' then ['\\', arg[0]] else [arg[0]]) + Escaped(arg[1..])
  }

  function Printed(arg: string): string { "\"" + Escaped(arg) + "\"" }

  function PrintLine(args: seq<string>): string {
    if args == [] then [] else Printed(args[0]) + " " + PrintLine(args[1..])
  }

  lemma {:induction false} ReadEscaped(arg: string, tail: string, cur: string)
    requires tail != [] && tail[0] == '"'
    ensures ReadDouble(Escaped(arg) + tail, cur) == ReadDouble(tail, cur + arg)
    decreases |arg|
  {
    hide ReadDouble;
    if arg == [] {
      assert Escaped(arg) + tail == tail && cur + arg == cur;
    } else {
      var rest := Escaped(arg[1..]) + tail;
      var c := arg[0];
      assert Escaped(arg) + tail == (if c == '\\' || c == '"' then ['\\', c] else [c]) + rest;
      assert cur + [c] + arg[1..] == cur + arg;
      ReadEscaped(arg[1..], tail, cur + [c]);
      ReadEscapedChar(c, rest, cur);
    }
  }

  lemma ReadEscapedChar(c: char, rest: string, cur: string)
    ensures ReadDouble((if c == '\\' || c == '"' then ['\\', c] else [c]) + rest, cur) == ReadDouble(rest, cur + [c])
  {
    var s := (if c == '\\' || c == '"' then ['\\', c] else [c]) + rest;
    if c == '\\' || c == '"' {
      assert s[1..] == [c] + rest && s[2..] == rest;
      assert Escape(s[1..]) == (c, 1);
    } else {
      assert s[1..] == rest;
    }
  }

  lemma ReadPrinted(arg: string, rest: string)
    requires rest == [] || IsWhitespace(rest[0])
    ensures ReadArg(Printed(arg) + rest) == Ok((arg, rest))
  {
    var s := Printed(arg) + rest;
    var tail := "\"" + rest;
    assert s[0] == '"' && s[1..] == Escaped(arg) + tail;
    ReadEscaped(arg, tail, []);
    assert [] + arg == arg && tail[1..] == rest;
  }

  lemma SpaceFirst(s: string, out: seq<string>)
    ensures SplitFrom(" " + s, out) == SplitFrom(s, out)
  {
    assert (" " + s)[1..] == s;
  }

  lemma SplitOne(arg: string, tail: string, out: seq<string>)
    ensures SplitFrom(Printed(arg) + (" " + tail), out) == SplitFrom(tail, out + [arg])
  {
    hide ReadArg, Escaped;
    var s := Printed(arg) + (" " + tail);
    assert s[0] == '"' && !IsWhitespace(s[0]);
    ReadPrinted(arg, " " + tail);
    SpaceFirst(tail, out + [arg]);
  }

  lemma {:induction false} SplitPrinted(args: seq<string>, out: seq<string>)
    ensures SplitFrom(PrintLine(args), out) == Ok(out + args)
    decreases |args|
  {
    if args == [] {
      assert out + args == out;
    } else {
      hide SplitFrom, Printed;
      Assoc(Printed(args[0]), " ", PrintLine(args[1..]));
      SplitOne(args[0], PrintLine(args[1..]), out);
      SplitPrinted(args[1..], out + [args[0]]);
      assert out + [args[0]] + args[1..] == out + args;
    }
  }

  /** Parsing undoes printing, for every list of arguments, empty ones included. */
  lemma SplitUndoesPrint(args: seq<string>)
    ensures SplitFrom(PrintLine(args), []) == Ok(args)
  {
    SplitPrinted(args, []);
    assert [] + args == args;
  }

  // ---- Classification ----

  datatype Class = Read | Write | Admin

  predicate Mutates(c: Class) { !c.Read? }

  class CommandCatalog {
    var write: set<string>
    var admin: set<string>
    var read: set<string>
    var safeSub: set<string>
    var fromServer: bool
    /** The commands that are judged by their subcommand. */
    const containers: set<string>

    constructor (write: set<string>, admin: set<string>, read: set<string>, safeSub: set<string>,
                 containers: set<string>)
      ensures Sets() == Catalog(write, admin, read, safeSub, containers) && !fromServer
    {
      this.write, this.admin, this.read, this.safeSub := write, admin, read, safeSub;
      this.containers := containers;
      fromServer := false;
    }

    ghost function Sets(): Catalog
      reads this
    {
      Catalog(write, admin, read, safeSub, containers)
    }

    /** Unions the server's list of writes with the baseline. An empty list changes nothing. */
    method WithServerWrites(reported: seq<string>)
      modifies this
      ensures Sets() == Extended(old(Sets()), reported)
      ensures fromServer == (old(fromServer) || reported != [])
    {
      if reported == [] { return; }
      for i := 0 to |reported|
        invariant Sets() == Extended(old(Sets()), reported[..i]) && fromServer == old(fromServer)
      {
        var c := LowerAll(reported[i]);
        LoweredNext(reported, i);
        read := read - {c};
        write := write + {c};
      }
      assert reported[..|reported|] == reported;
      fromServer := true;
    }

    function ClassifyArgs(args: seq<string>): (c: Class)
      reads this
      ensures c == Classify(Sets(), args)
    {
      if args == [] then Read
      else
        var cmd := LowerAll(args[0]);
        if cmd in containers then
          if |args| == 1 then Read
          else
            var full := cmd + "|" + LowerAll(args[1]);
            if full in admin then Admin else if full in write then Write
            else if full in safeSub then Read else Admin
        else if cmd in admin then Admin else if cmd in write then Write
        else if cmd in read then Read else Write
    }
  }

  datatype Catalog =
    Catalog(write: set<string>, admin: set<string>, read: set<string>, safeSub: set<string>, containers: set<string>)

  ghost function Lowered(names: seq<string>): set<string> { set n | n in names :: LowerAll(n) }

  ghost function Extended(k: Catalog, reported: seq<string>): Catalog {
    k.(write := k.write + Lowered(reported), read := k.read - Lowered(reported))
  }

  lemma LoweredNext(names: seq<string>, i: nat)
    requires i < |names|
    ensures Lowered(names[..i + 1]) == Lowered(names[..i]) + {LowerAll(names[i])}
  {
    assert names[..i + 1] == names[..i] + [names[i]];
  }

  /** What a command is looked up by: its name, or its name and subcommand. */
  function Key(k: Catalog, args: seq<string>): Option<string> {
    if args == [] then None
    else
      var cmd := LowerAll(args[0]);
      if cmd !in k.containers then Some(cmd)
      else if |args| == 1 then None
      else Some(cmd + "|" + LowerAll(args[1]))
  }

  /** `classify`: what is not known to be harmless counts as the worst its kind can be. */
  function Classify(k: Catalog, args: seq<string>): Class {
    match Key(k, args)
    case None => Read
    case Some(key) =>
      var container := LowerAll(args[0]) in k.containers;
      if key in k.admin then Admin
      else if key in k.write then Write
      else if container then if key in k.safeSub then Read else Admin
      else if key in k.read then Read else Write
  }

  function ClassifyLine(k: Catalog, line: string): Class {
    match SplitFrom(line, [])
    case Ok(args) => Classify(k, args)
    case Err(_) => Write
  }

  /** What the server's report changes: exactly the commands it names, unless they are administrative. */
  lemma ReportedCommands(k: Catalog, reported: seq<string>, args: seq<string>)
    ensures Classify(Extended(k, reported), args) ==
            if Key(k, args).Some? && Key(k, args).value in Lowered(reported) && Key(k, args).value !in k.admin
            then Write else Classify(k, args)
  {
  }

  /** Whatever the server reports, a line that was refused on a read-only connection still is; and a line
      is newly refused exactly when the server names its command. */
  lemma ReportsOnlyTighten(k: Catalog, reported: seq<string>, line: string)
    ensures Mutates(ClassifyLine(k, line)) ==> Mutates(ClassifyLine(Extended(k, reported), line))
    ensures Mutates(ClassifyLine(Extended(k, reported), line)) <==>
            Mutates(ClassifyLine(k, line)) ||
            exists args :: SplitFrom(line, []) == Ok(args) && Key(k, args).Some?
              && Key(k, args).value in Lowered(reported)
  {
    if SplitFrom(line, []).Ok? { ReportedCommands(k, reported, SplitFrom(line, []).value); }
  }

  /** A command counts as read only if it is nothing, a bare container, or listed as harmless and as nothing worse;
      whatever is listed nowhere is a write, and below a container administrative. */
  lemma ReadExactly(k: Catalog, args: seq<string>)
    ensures args == [] ==> Classify(k, args) == Read
    ensures args != [] ==>
              var cmd := LowerAll(args[0]);
              var full := if |args| > 1 then cmd + "|" + LowerAll(args[1]) else cmd;
              if cmd !in k.containers then
                && (Classify(k, args) == Read <==> cmd in k.read && cmd !in k.admin && cmd !in k.write)
                && (Classify(k, args) == Admin <==> cmd in k.admin)
              else if |args| == 1 then Classify(k, args) == Read
              else
                && (Classify(k, args) == Read <==> full in k.safeSub && full !in k.admin && full !in k.write)
                && (Classify(k, args) == Write <==> full in k.write && full !in k.admin)
  {
  }
}
