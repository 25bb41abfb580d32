/** The three verdicts of src-tauri/src/sqlguard.rs on whole scripts, statement by statement: what each statement
    says when its comments and literals are left out. */
module SqlJudged {
  import opened Common
  import opened SqlBlank
  import opened SqlBlankPieces
  import opened SqlGuard
  import opened SqlGuardMeaning
  import opened SqlMeaning
  import opened SqlSplit
  import SqlVerdicts

  // ---- The statements of a script ----

  predicate IsBreak(p: Piece) { p == Code(';') }

  function FirstBreak(ps: seq<Piece>): (n: nat)
    ensures n <= |ps|
    ensures n < |ps| ==> IsBreak(ps[n])
    ensures forall i | 0 <= i < n :: !IsBreak(ps[i])
  {
    if ps == [] || IsBreak(ps[0]) then 0 else 1 + FirstBreak(ps[1..])
  }

  /** The pieces between the semicolons of the code. */
  function Statements(ps: seq<Piece>): (r: seq<seq<Piece>>)
    ensures r != []
    decreases |ps|
  {
    var n := FirstBreak(ps);
    if n == |ps| then [ps] else [ps[..n]] + Statements(ps[n + 1..])
  }

  function Pairs(statements: seq<seq<Piece>>): seq<(string, string)> {
    if statements == [] then [] else [(Render(statements[0]), Shape(statements[0]))] + Pairs(statements[1..])
  }

  lemma {:induction false} RenderAppend(a: seq<Piece>, b: seq<Piece>)
    ensures Render(a + b) == Render(a) + Render(b)
  {
    hide Spell;
    if a == [] {
      assert a + b == b;
    } else {
      assert (a + b)[1..] == a[1..] + b;
      RenderAppend(a[1..], b);
      Assoc(Spell(a[0]), Render(a[1..]), Render(b));
    }
  }

  /** What is written for one piece. */
  function ShapeOf(p: Piece): string { if p.Code? then Spell(p) else Spaces(|Spell(p)|) }

  lemma ShapeFirst(ps: seq<Piece>)
    requires ps != []
    ensures Shape(ps) == ShapeOf(ps[0]) + Shape(ps[1..])
  {
  }

  lemma {:induction false} ShapeAppend(a: seq<Piece>, b: seq<Piece>)
    ensures Shape(a + b) == Shape(a) + Shape(b)
  {
    hide Shape, ShapeOf;
    if a == [] {
      assert a + b == b;
      Nothing();
    } else {
      var more := a[1..] + b;
      assert (a + b)[1..] == more && (a + b)[0] == a[0];
      ShapeAppend(a[1..], b);
      ShapeFirst(a + b);
      ShapeFirst(a);
      Assoc(ShapeOf(a[0]), Shape(a[1..]), Shape(b));
    }
  }

  lemma {:induction false} ShapeLength(ps: seq<Piece>)
    ensures |Shape(ps)| == |Render(ps)|
  {
    if ps != [] { ShapeLength(ps[1..]); }
  }

  predicate NoSemicolon(s: string) { forall i | 0 <= i < |s| :: s[i] != ';' }

  lemma NoSemicolonAppend(a: string, b: string)
    requires NoSemicolon(a) && NoSemicolon(b)
    ensures NoSemicolon(a + b)
  {
  }

  lemma ShapeOfOther(p: Piece)
    requires !IsBreak(p)
    ensures NoSemicolon(ShapeOf(p))
  {
    if p.Code? { assert Spell(p) == [p.c]; }
  }

  lemma {:induction false} OneStatement(ps: seq<Piece>)
    requires forall i | 0 <= i < |ps| :: !IsBreak(ps[i])
    ensures NoSemicolon(Shape(ps))
  {
    hide ShapeOf, IsBreak, NoSemicolon;
    if ps != [] {
      assert forall i | 0 <= i < |ps[1..]| :: ps[1..][i] == ps[i + 1];
      OneStatement(ps[1..]);
      ShapeFirst(ps);
      ShapeOfOther(ps[0]);
      NoSemicolonAppend(ShapeOf(ps[0]), Shape(ps[1..]));
    } else {
      Nothing();
    }
  }

  lemma Nothing()
    ensures Shape([]) == [] && NoSemicolon([])
  {
  }

  lemma OnePart(ps: seq<Piece>)
    requires forall i | 0 <= i < |ps| :: !IsBreak(ps[i])
    ensures |Shape(ps)| == |Render(ps)| && SplitPairs(Render(ps), Shape(ps)) == [(Render(ps), Shape(ps))]
  {
    OneStatement(ps);
    ShapeLength(ps);
    hide Render, Shape, SplitPairs;
    LastPart(Render(ps), Shape(ps));
  }

  lemma BreakText(b: Piece)
    requires IsBreak(b)
    ensures Render([b]) == ";" && Shape([b]) == ";"
  {
    assert [b][1..] == [];
  }

  lemma AroundBreak(a: seq<Piece>, b: Piece, c: seq<Piece>)
    requires IsBreak(b)
    ensures Render(a + [b] + c) == Render(a) + ";" + Render(c) && Shape(a + [b] + c) == Shape(a) + ";" + Shape(c)
  {
    hide Render, Shape, IsBreak;
    BreakText(b);
    RenderAppend(a + [b], c);
    RenderAppend(a, [b]);
    ShapeAppend(a + [b], c);
    ShapeAppend(a, [b]);
  }

  /** A script and its blanked form are cut into the written and the blanked statements. */
  lemma {:induction false} SplitsIntoStatements(ps: seq<Piece>)
    ensures |Shape(ps)| == |Render(ps)| && SplitPairs(Render(ps), Shape(ps)) == Pairs(Statements(ps))
    decreases |ps|
  {
    hide Render, Shape, SplitPairs, IsBreak;
    var n := FirstBreak(ps);
    if n == |ps| {
      OnePart(ps);
      assert [ps][1..] == [];
    } else {
      var a, c := ps[..n], ps[n + 1..];
      assert forall i | 0 <= i < |a| :: a[i] == ps[i];
      assert ps == a + [ps[n]] + c;
      OnePart(a);
      SplitsIntoStatements(c);
      AroundBreak(a, ps[n], c);
      SqlVerdicts.SplitPairsAppend(Render(a), Shape(a), Render(c), Shape(c));
      assert ([a] + Statements(c))[1..] == Statements(c);
    }
  }

  lemma {:induction false} InPairs(statements: seq<seq<Piece>>, part: (string, string))
    ensures part in Pairs(statements) <==> exists s :: s in statements && part == (Render(s), Shape(s))
  {
    hide Render, Shape;
    if statements != [] {
      InPairs(statements[1..], part);
      assert forall s :: s in statements <==> s == statements[0] || s in statements[1..];
      if s :| s in statements[1..] && part == (Render(s), Shape(s)) { assert s in statements; }
      if part == (Render(statements[0]), Shape(statements[0])) { assert statements[0] in statements; }
    }
  }

  lemma {:induction false} InSeconds(parts: seq<(string, string)>, t: string)
    ensures t in Seconds(parts) <==> exists part :: part in parts && part.1 == t
  {
    if parts != [] {
      InSeconds(parts[1..], t);
      assert forall part :: part in parts <==> part == parts[0] || part in parts[1..];
    }
  }

  lemma SplitShapes(ps: seq<Piece>, d: Dialect)
    requires AllRead(ps, d)
    ensures Blank(Render(ps), d) == Shape(ps)
    ensures SplitPairs(Render(ps), Blank(Render(ps), d)) == Pairs(Statements(ps))
    ensures forall t :: t in Split(Blank(Render(ps), d)) <==> exists s :: s in Statements(ps) && t == Shape(s)
  {
    hide Render, Shape, SplitPairs, Pairs, Statements, Blank, AllRead, Split, Seconds;
    BlankOfPieces(ps, d);
    SplitsIntoStatements(ps);
    SplitIsSeconds(Render(ps), Shape(ps));
    var all := Statements(ps);
    forall t ensures t in Seconds(Pairs(all)) <==> exists s :: s in all && t == Shape(s) {
      InSeconds(Pairs(all), t);
      forall part ensures part in Pairs(all) <==> exists s :: s in all && part == (Render(s), Shape(s)) {
        InPairs(all, part);
      }
      if s :| s in all && t == Shape(s) { assert (Render(s), Shape(s)) in Pairs(all); }
    }
  }

  // ---- The verdicts ----

  /** The statement writes by its words, or, on PostgreSQL, is a SET that flips the read-only switch. */
  ghost predicate StatementWrites(engine: Option<Engine>, s: seq<Piece>, k: Keywords) {
    || Writes(Shape(s), k)
    || (engine == Some(Postgres) && Leads(Shape(s), "set") && Releases(PgTokens(Render(s))))
  }

  lemma ReadonlyEngine(engine: Option<Engine>)
    ensures ForEngine(engine).pgSetReadonly <==> engine == Some(Postgres)
  {
  }

  lemma PartMeans(engine: Option<Engine>, s: seq<Piece>, k: Keywords)
    ensures var byPart := PartIsWrite(ForEngine(engine), (Render(s), Shape(s)), k);
            StatementWrites(engine, s, k)
            <==> if engine == Some(Postgres) then byPart else StatementIsWrite(Shape(s), k)
  {
    hide Render, Shape, StatementIsWrite, Writes, FlipsReadonly, PgTokens, FirstWord, Leads, ForEngine, Releases;
    ReadonlyEngine(engine);
    FlipsMeans(PgTokens(Render(s)));
    WriteMeans(Shape(s), k);
    LeadMeans(Shape(s), "set");
  }

  /** A script writes exactly when one of its statements does. */
  lemma WriteOfScript(engine: Option<Engine>, ps: seq<Piece>, k: Keywords)
    requires AllRead(ps, ForEngine(engine))
    ensures IsWriteFor(engine, Render(ps), k) <==> exists s :: s in Statements(ps) && StatementWrites(engine, s, k)
  {
    hide Render, Shape, StatementIsWrite, StatementWrites, Statements, Pairs, PartIsWrite, Blank, Split, SplitPairs,
      ForEngine, AllRead;
    var d := ForEngine(engine);
    ReadonlyEngine(engine);
    SplitShapes(ps, d);
    forall s { PartMeans(engine, s, k); }
    var all := Statements(ps);
    forall part ensures part in Pairs(all) <==> exists s :: s in all && part == (Render(s), Shape(s)) {
      InPairs(all, part);
    }
  }

  lemma DangerOfScript(engine: Option<Engine>, ps: seq<Piece>, k: Keywords)
    requires AllRead(ps, ForEngine(engine))
    ensures IsDangerousDdlFor(engine, Render(ps), k) <==> exists s :: s in Statements(ps) && Endangers(Shape(s), k)
  {
    hide Render, Shape, StatementIsDangerous, Endangers, Statements, Blank, Split, ForEngine, AllRead;
    SplitShapes(ps, ForEngine(engine));
    forall t: string ensures StatementIsDangerous(t, k) <==> Endangers(t, k) { DangerMeans(t, k); }
  }

  lemma UnfilteredOfScript(engine: Option<Engine>, ps: seq<Piece>)
    requires AllRead(ps, ForEngine(engine))
    ensures IsUnfilteredWriteFor(engine, Render(ps)) <==> exists s :: s in Statements(ps) && HitsEveryRow(Shape(s))
  {
    hide Render, Shape, UnfilteredUpdel, HitsEveryRow, Statements, Blank, Split, ForEngine, AllRead;
    SplitShapes(ps, ForEngine(engine));
    forall t: string ensures UnfilteredUpdel(t) <==> HitsEveryRow(t) { UnfilteredMeans(t); }
  }
}
