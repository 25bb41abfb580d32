/** What each engine takes for text, seen on what is left of a statement: the differences that
    src-tauri/src/sqlguard.rs makes between the engines. */
module SqlEngines {
  import opened Common
  import opened Text
  import opened SqlBlank
  import opened SqlBlankPieces

  const HASH_COMMENTS: set<Option<Engine>> := {None, Some(Mysql)}
  const BACKSLASHES: set<Option<Engine>> := {None, Some(Mysql), Some(Clickhouse)}
  const NESTED: set<Option<Engine>> := {Some(Postgres), Some(SqlServer)}
  const DOLLARS: set<Option<Engine>> := {None, Some(Postgres), Some(Duckdb)}

  lemma Flags(engine: Option<Engine>)
    ensures ForEngine(engine).hashComment <==> engine in HASH_COMMENTS
    ensures ForEngine(engine).backslashEscape <==> engine in BACKSLASHES
    ensures ForEngine(engine).nestedComments <==> engine in NESTED
    ensures ForEngine(engine).dollarStrings <==> engine in DOLLARS
  {
  }

  lemma OneToken(s: string, d: Dialect, n: nat)
    requires s != [] && Opens(s, d) && TokenLength(s, d) == n
    ensures n <= |s| && Blank(s, d) == Spaces(n) + Blank(s[n..], d)
  {
  }

  lemma OneChar(c: char, s: string, d: Dialect)
    requires !Opens([c] + s, d)
    ensures Blank([c] + s, d) == [c] + Blank(s, d)
  {
    TokenOfCode([c] + s, d);
    assert ([c] + s)[1..] == s;
  }

  /** A hash sign opens a comment on MySQL and where no engine is known, and is code on every other. */
  lemma HashComment(engine: Option<Engine>, body: string)
    requires '\n' !in body
    ensures var b := Blank("#" + body, ForEngine(engine));
            if engine in HASH_COMMENTS then b == Spaces(1 + |body|) else b == "#" + Blank(body, ForEngine(engine))
  {
    var d := ForEngine(engine);
    var s := "#" + body;
    Flags(engine);
    hide Blank, ForEngine;
    if engine in HASH_COMMENTS {
      LineLengthOf(body, []);
      assert body + [] == body && s[1..] == body && s[|s|..] == [];
      OneToken(s, d, |s|);
      BlankNothing(d);
      assert Spaces(|s|) + [] == Spaces(|s|);
    } else {
      OneChar('#', body, d);
    }
  }

  /** A backslash keeps a quote from closing on MySQL, on ClickHouse and where no engine is known: there what
      follows the quote is still text, and elsewhere it is code. */
  lemma Backslash(engine: Option<Engine>, c: char)
    requires IsWordChar(c)
    ensures Blank(['\'', '\\', '\'', c], ForEngine(engine)) ==
            if engine in BACKSLASHES then Spaces(4) else Spaces(3) + [c]
  {
    var d := ForEngine(engine);
    var s := ['\'', '\\', '\'', c];
    Flags(engine);
    BackslashEnds(c, d.backslashEscape);
    assert s[1..] == ['\\', '\'', c] && s[3..] == [c] && s[4..] == [] && [c] + [] == [c];
    hide Blank, ForEngine, QuoteLength;
    OneToken(s, d, if engine in BACKSLASHES then 4 else 3);
    OneChar(c, [], d);
    BlankNothing(d);
  }

  lemma BackslashEnds(c: char, escapes: bool)
    requires c != '\'' && c != '\\'
    ensures QuoteLength(['\\', '\'', c], '\'', escapes) == if escapes then 3 else 2
  {
    var s := ['\\', '\'', c];
    assert s[1..] == ['\'', c] && s[2..] == [c] && [c][1..] == [] && ['\'', c][1..] == [c];
  }

  /** A comment opened inside a comment must be closed too on PostgreSQL and SQL Server; elsewhere the first closer
      ends both, and what follows is code. */
  lemma NestedComment(engine: Option<Engine>, c: char)
    requires IsWordChar(c)
    ensures Blank(['/', '*', '/', '*', '*', '/', c], ForEngine(engine)) ==
            if engine in NESTED then Spaces(7) else Spaces(6) + [c]
  {
    var d := ForEngine(engine);
    var s := ['/', '*', '/', '*', '*', '/', c];
    Flags(engine);
    NestedEnds(c, d.nestedComments);
    assert s[2..] == ['/', '*', '*', '/', c] && s[6..] == [c] && s[7..] == [] && [c] + [] == [c];
    BlockToken(s, d);
    hide Blank, ForEngine, BlockLength, Opens, TokenLength;
    OneToken(s, d, if engine in NESTED then 7 else 6);
    Kept(c, [], d);
    BlankNothing(d);
  }

  lemma BlockToken(s: string, d: Dialect)
    requires Starts2(s, '/', '*') && !OpensVersioned(s)
    ensures Opens(s, d) && TokenLength(s, d) == 2 + BlockLength(s[2..], 1, d.nestedComments)
  {
    hide BlockLength;
  }

  /** A word character is code, and so is a dollar sign where there are no dollar strings. */
  lemma Kept(c: char, s: string, d: Dialect)
    requires IsWordChar(c) || (c == '$' && !d.dollarStrings)
    ensures Blank([c] + s, d) == [c] + Blank(s, d)
  {
    hide Blank;
    OneChar(c, s, d);
  }

  lemma NestedEnds(c: char, nested: bool)
    requires IsWordChar(c)
    ensures BlockLength(['/', '*', '*', '/', c], 1, nested) == if nested then 5 else 4
  {
    var s, t, u := ['/', '*', '*', '/', c], ['*', '/', c], [c];
    assert s[2..] == t && t[2..] == u && u[1..] == [] && s[1..] == ['*', '*', '/', c];
    assert ['*', '*', '/', c][1..] == t;
    BlockDone([], 1, nested);
    BlockDone(u, 0, nested);
    assert BlockLength(u, 1, nested) == 1;
    assert BlockLength(t, 2, nested) == 3 && BlockLength(t, 1, nested) == 2;
  }

  /** A text between dollar signs is blanked on PostgreSQL, on DuckDB and where no engine is known, and code on
      every other. */
  lemma DollarString(engine: Option<Engine>, c: char)
    requires IsWordChar(c)
    ensures Blank(['$', '$', c, '$', '$'], ForEngine(engine)) ==
            if engine in DOLLARS then Spaces(5) else ['$', '$', c, '$', '$']
  {
    Flags(engine);
    if engine in DOLLARS {
      FenceBlanked(['$', '$', c, '$', '$'], c, ForEngine(engine));
    } else {
      FenceKept(c, ForEngine(engine));
    }
  }

  lemma FenceKept(c: char, d: Dialect)
    requires IsWordChar(c) && !d.dollarStrings
    ensures Blank(['$', '$', c, '$', '$'], d) == ['$', '$', c, '$', '$']
  {
    hide *;
    BlankNothing(d);
    Kept('$', [], d);
    assert ['$'] + [] == ['$'];
    Kept('$', ['$'], d);
    assert ['$'] + ['$'] == ['$', '$'];
    Kept(c, ['$', '$'], d);
    assert [c] + ['$', '$'] == [c, '$', '$'];
    Kept('$', [c, '$', '$'], d);
    assert ['$'] + [c, '$', '$'] == ['$', c, '$', '$'];
    Kept('$', ['$', c, '$', '$'], d);
    assert ['$'] + ['$', c, '$', '$'] == ['$', '$', c, '$', '$'];
  }

  lemma FenceBlanked(s: string, c: char, d: Dialect)
    requires IsWordChar(c) && s == ['$', '$', c, '$', '$'] && d.dollarStrings
    ensures Blank(s, d) == Spaces(5)
  {
    FenceEnds(s, c);
    hide Blank, TagLength, ThroughNeedle;
    assert Opens(s, d) && TokenLength(s, d) == 5;
    OneToken(s, d, 5);
    BlankNothing(d);
    assert s[5..] == [] && Spaces(5) + [] == Spaces(5);
  }

  lemma FenceEnds(s: string, c: char)
    requires IsWordChar(c) && s == ['$', '$', c, '$', '$']
    ensures TagLength(s) == 2 && ThroughNeedle(s[2..], s[..2]) == 3
  {
    var u := s[2..];
    assert u == [c, '$', '$'] && s[..2] == ['$', '$'] && s[1..][0] == '$';
    assert u[1..] == ['$', '$'] && u[..2] == [c, '$'] && u[1..][..2] == ['$', '$'];
  }
}
