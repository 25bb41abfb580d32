/** What the verdicts of src-tauri/src/sqlguard.rs look for, said without their scans. */
module SqlGuardMeaning {
  import opened Common
  import opened Text
  import opened SqlBlank
  import opened SqlGuard

  // ---- COPY: the first FROM or TO outside parentheses ----

  function Depth(t: string, i: nat): int
    requires i <= |t|
  {
    if i == 0 then 0 else Depth(t, i - 1) + (if t[i - 1] == '(' then 1 else if t[i - 1] == ')' then -1 else 0)
  }

  /** The word that ends at `i`. */
  function WordBefore(t: string, i: nat): string
    requires i <= |t|
  {
    if i == 0 || !IsWordChar(t[i - 1]) then [] else WordBefore(t, i - 1) + [Lower(t[i - 1])]
  }

  predicate Paren(c: char) { c == '(' || c == ')' }

  /** `w` ends at `i` outside parentheses, and nothing but a parenthesis or a word character follows: those
      two do not end a word for the scan. */
  predicate EndsWord(t: string, i: nat, w: string)
    requires i <= |t|
  {
    WordBefore(t, i) == w && Depth(t, i) == 0 && (i < |t| ==> !IsWordChar(t[i]) && !Paren(t[i]))
  }

  /** From `i` on, a FROM comes before any TO. */
  ghost predicate FromFirst(t: string, i: nat)
    requires i <= |t|
  {
    exists k :: i <= k <= |t| && EndsWord(t, k, "from") && forall j | i <= j < k :: !EndsWord(t, j, "to")
  }

  lemma FromFirstStep(t: string, i: nat)
    requires i < |t|
    ensures EndsWord(t, i, "from") ==> FromFirst(t, i)
    ensures EndsWord(t, i, "to") ==> !FromFirst(t, i)
    ensures !EndsWord(t, i, "from") && !EndsWord(t, i, "to") ==> (FromFirst(t, i) <==> FromFirst(t, i + 1))
  {
    if FromFirst(t, i + 1) && !EndsWord(t, i, "to") {
      var k :| i + 1 <= k <= |t| && EndsWord(t, k, "from") && forall j | i + 1 <= j < k :: !EndsWord(t, j, "to");
      assert forall j | i <= j < k :: !EndsWord(t, j, "to");
    }
    if EndsWord(t, i, "to") {
      assert !EndsWord(t, i, "from");
    }
  }

  lemma {:induction false} CopyScanMeans(t: string, i: nat)
    requires i <= |t|
    ensures CopyScan(t[i..], Depth(t, i), WordBefore(t, i)) <==> FromFirst(t, i)
    decreases |t| - i
  {
    if i == |t| {
      assert FromFirst(t, i) <==> EndsWord(t, i, "from");
    } else {
      assert t[i..][1..] == t[i + 1..] && t[i..][0] == t[i];
      CopyScanMeans(t, i + 1);
      FromFirstStep(t, i);
      hide FromFirst;
      if Paren(t[i]) || IsWordChar(t[i]) {
        assert !EndsWord(t, i, "from") && !EndsWord(t, i, "to");
      }
    }
  }

  /** COPY writes exactly when, outside parentheses, FROM comes before any TO. */
  lemma CopyMeans(s: string)
    ensures var t := TrimStart(s);
            CopyWrites(s) <==> FromFirst(t[if |t| < 4 then |t| else 4..], 0)
  {
    var t := TrimStart(s);
    var u := t[if |t| < 4 then |t| else 4..];
    CopyScanMeans(u, 0);
    assert u[0..] == u;
  }

  // ---- SET on PostgreSQL: the tokens of a printed statement, and its target ----

  predicate LowerWord(w: string) { w != [] && forall i | 0 <= i < |w| :: IsWordChar(w[i]) && Lower(w[i]) == w[i] }

  predicate Printable(t: PgToken) {
    match t
    case Word(w) => LowerWord(w)
    case Quoted(name) => LowerAll(name) == name
    case _ => true
  }

  /** Each token with a blank behind. */
  function PrintToken(t: PgToken): string {
    match t
    case Word(w) => w + " "
    case Quoted(name) => "\"" + (Doubled(name) + "\" ")
    case Dot => ". "
    case Other => "'' "
  }

  function PrintTokens(ts: seq<PgToken>): string { if ts == [] then [] else PrintToken(ts[0]) + PrintTokens(ts[1..]) }

  lemma PgStep(s: string)
    requires s != []
    ensures PgTokens(s) == PgYield(s) + PgTokens(s[PgLength(s)..])
  {
  }

  lemma PgBlank(s: string)
    ensures PgTokens(" " + s) == PgTokens(s)
  {
    PgStep(" " + s);
    assert (" " + s)[1..] == s;
  }

  lemma {:induction false} WordRunOfWord(w: string, rest: string)
    requires (forall i | 0 <= i < |w| :: IsWordChar(w[i])) && rest != [] && !IsWordChar(rest[0])
    ensures WordRun(w + rest) == |w|
  {
    if w == [] {
      assert w + rest == rest;
    } else {
      assert (w + rest)[1..] == w[1..] + rest;
      WordRunOfWord(w[1..], rest);
    }
  }

  lemma PgWordTurn(w: string, s: string)
    requires LowerWord(w)
    ensures var t := w + (" " + s); PgYield(t) == [PgToken.Word(w)] && PgLength(t) == |w|
  {
    var t := w + (" " + s);
    WordRunOfWord(w, " " + s);
    assert t[0] == w[0] && (if |w| > 1 then t[1] == w[1] else t[1] == ' ');
    assert t[..|w|] == w;
    assert LowerAll(w) == w;
    hide WordRun, LowerWord, LowerAll;
    assert IsWordChar(t[0]) && !IsWhitespace(t[0]) && (|w| > 1 ==> IsWordChar(t[1])) by { WordStarts(w); }
    assert !EscapeLiteral(t) && !Starts2(t, '-', '-') && !Starts2(t, '/', '*');
  }

  lemma WordStarts(w: string)
    requires LowerWord(w)
    ensures IsWordChar(w[0]) && !IsWhitespace(w[0]) && (|w| > 1 ==> IsWordChar(w[1]))
  {
  }

  lemma PgWord(w: string, s: string)
    requires LowerWord(w)
    ensures PgTokens(w + (" " + s)) == [PgToken.Word(w)] + PgTokens(s)
  {
    var t := w + (" " + s);
    PgWordTurn(w, s);
    assert t[|w|..] == " " + s;
    hide PgYield, PgLength, PgTokens;
    PgStep(t);
    PgBlank(s);
  }

  lemma {:induction false} QuotedOf(name: string, s: string)
    requires s != [] ==> s[0] != '"'
    ensures QuotedName(Doubled(name) + ("\"" + s)) == name
    ensures QuoteLength(Doubled(name) + ("\"" + s), '"', false) == |Doubled(name)| + 1
  {
    hide QuotedName, QuoteLength;
    var end := "\"" + s;
    if name == [] {
      assert Doubled(name) + end == end;
      QuotedEnd(end);
    } else {
      var more := Doubled(name[1..]) + end;
      QuotedOf(name[1..], s);
      QuotedChar(name[0], more);
      Assoc(if name[0] == '"' then "\"\"" else [name[0]], Doubled(name[1..]), end);
      assert name == [name[0]] + name[1..];
    }
  }

  lemma QuotedEnd(t: string)
    requires t != [] && t[0] == '"' && (|t| > 1 ==> t[1] != '"')
    ensures QuotedName(t) == [] && QuoteLength(t, '"', false) == 1
  {
  }

  lemma QuotedChar(c: char, more: string)
    ensures var t := (if c == '"' then "\"\"" else [c]) + more;
            QuotedName(t) == [c] + QuotedName(more)
              && QuoteLength(t, '"', false) == |t| - |more| + QuoteLength(more, '"', false)
  {
    var t := (if c == '"' then "\"\"" else [c]) + more;
    if c == '"' { assert t[2..] == more; } else { assert t[1..] == more; }
  }

  lemma PgQuotedTurn(name: string, s: string)
    requires LowerAll(name) == name && (s != [] ==> s[0] != '"')
    ensures var t := "\"" + (Doubled(name) + ("\"" + s));
            PgYield(t) == [PgToken.Quoted(name)] && PgLength(t) == |Doubled(name)| + 2
  {
    var u := Doubled(name) + ("\"" + s);
    var t := "\"" + u;
    QuotedOf(name, s);
    assert t[1..] == u && t[0] == '"';
    hide QuotedName, QuoteLength, LowerAll, Doubled;
  }

  lemma PgQuoted(name: string, s: string)
    requires LowerAll(name) == name
    ensures PgTokens("\"" + (Doubled(name) + ("\" " + s))) == [PgToken.Quoted(name)] + PgTokens(s)
  {
    hide PgYield, PgLength, PgTokens, Doubled, LowerAll;
    var d := Doubled(name);
    var t := "\"" + (d + ("\"" + (" " + s)));
    assert "\"" + (d + ("\" " + s)) == t && t[|d| + 2..] == " " + s;
    PgQuotedTurn(name, " " + s);
    PgStep(t);
    PgBlank(s);
  }

  lemma PgDot(s: string)
    ensures PgTokens(". " + s) == [PgToken.Dot] + PgTokens(s)
  {
    var t := ". " + s;
    assert t[1..] == " " + s;
    assert PgYield(t) == [PgToken.Dot] && PgLength(t) == 1;
    hide PgTokens, PgYield, PgLength;
    PgStep(t);
    PgBlank(s);
  }

  lemma PgEmptyText(s: string)
    ensures PgTokens("'' " + s) == [PgToken.Other] + PgTokens(s)
  {
    var t := "'' " + s;
    var u := t[1..];
    assert u[1..] == " " + s && t[2..] == " " + s;
    assert QuoteLength(u, '\'', false) == 1;
    assert PgYield(t) == [PgToken.Other] && PgLength(t) == 2;
    hide PgTokens, PgYield, PgLength;
    PgStep(t);
    PgBlank(s);
  }

  lemma PgOne(t: PgToken, s: string)
    requires Printable(t)
    ensures PgTokens(PrintToken(t) + s) == [t] + PgTokens(s)
  {
    hide PgTokens, LowerAll, Doubled, LowerWord;
    match t
    case Word(w) =>
      assert PrintToken(t) + s == w + (" " + s);
      PgWord(w, s);
    case Quoted(name) =>
      assert PrintToken(t) + s == "\"" + (Doubled(name) + ("\" " + s));
      PgQuoted(name, s);
    case Dot => PgDot(s);
    case Other => PgEmptyText(s);
  }

  /** Reading the tokens of a printed statement gives them back. */
  lemma {:induction false} TokensUndoPrint(ts: seq<PgToken>)
    requires forall t <- ts :: Printable(t)
    ensures PgTokens(PrintTokens(ts)) == ts
  {
    if ts != [] {
      assert ts[0] in ts && forall t <- ts[1..] :: t in ts;
      assert ts == [ts[0]] + ts[1..];
      TokensUndoPrint(ts[1..]);
      hide PgTokens, Printable, PrintToken;
      PgOne(ts[0], PrintTokens(ts[1..]));
    }
  }

  predicate IsName(t: PgToken) { t.Word? || t.Quoted? }

  function Dotted(name: seq<PgToken>): seq<PgToken>
    requires name != []
  {
    if |name| == 1 then [name[0]] else [name[0], Dot] + Dotted(name[1..])
  }

  predicate ReadonlyName(text: string) { text == "transaction_read_only" || text == "default_transaction_read_only" }

  function TextOf(t: PgToken): string { match t case Word(w) => w case Quoted(name) => name case _ => "" }

  lemma LastStep(t: seq<PgToken>, i: nat, last: string)
    ensures i + 1 < |t| && t[i] == Dot && IsName(t[i + 1]) ==>
              LastComponent(t, i, last) == LastComponent(t, i + 2, TextOf(t[i + 1]))
    ensures !(i + 1 < |t| && t[i] == Dot && IsName(t[i + 1])) ==> LastComponent(t, i, last) == last
  {
  }

  /** What follows a name does not go on with it. */
  predicate NameEnds(tail: seq<PgToken>) { |tail| > 1 && tail[0] == Dot ==> !IsName(tail[1]) }

  lemma {:induction false} LastOfDotted(t: seq<PgToken>, i: nat, name: seq<PgToken>, tail: seq<PgToken>)
    requires name != [] && (forall c <- name :: IsName(c)) && NameEnds(tail)
    requires i <= |t| && t[i..] == Dotted(name) + tail
    ensures Component(t, i) == Some(TextOf(name[0]))
    ensures LastComponent(t, i + 1, TextOf(name[0])) == TextOf(name[|name| - 1])
    decreases |name|
  {
    hide LastComponent;
    var d := Dotted(name) + tail;
    assert name[0] in name && d[0] == name[0] && t[i] == t[i..][0];
    LastStep(t, i + 1, TextOf(name[0]));
    if |name| == 1 {
      assert d[1..] == tail && t[i + 1..] == t[i..][1..];
      if i + 1 < |t| { assert t[i + 1] == t[i + 1..][0]; }
      if i + 2 < |t| { assert t[i + 2] == t[i + 1..][1]; }
    } else {
      assert d[1] == Dot && t[i + 1] == t[i..][1];
      assert d[2..] == Dotted(name[1..]) + tail && t[i + 2..] == t[i..][2..];
      assert d[2] == name[1] && t[i + 2] == t[i..][2] && name[1] in name;
      assert forall c <- name[1..] :: c in name;
      LastOfDotted(t, i + 2, name[1..], tail);
    }
  }

  predicate IsScope(t: PgToken) { t == PgToken.Word("session") || t == PgToken.Word("local") }

  predicate IsCharacteristics(t: PgToken) { t == PgToken.Word("characteristics") }

  lemma FlipsIs(t: seq<PgToken>, scoped: bool)
    requires t != [] && t[0] == PgToken.Word("set")
    requires scoped <==> |t| > 1 && IsScope(t[1])
    requires scoped && |t| > 2 ==> !IsCharacteristics(t[2])
    ensures var i := if scoped then 2 else 1;
            FlipsReadonly(t) <==> Component(t, i).Some? && ReadonlyName(LastComponent(t, i + 1, Component(t, i).value))
  {
    hide LastComponent;
  }

  /** A SET of a dotted name flips the switch exactly when the last component names it, however it is
      quoted and whatever follows. */
  lemma SetTarget(scope: seq<PgToken>, name: seq<PgToken>, tail: seq<PgToken>)
    requires |scope| <= 1 && (forall c <- scope :: IsScope(c))
    requires name != [] && (forall c <- name :: IsName(c)) && NameEnds(tail)
    requires if scope == [] then !IsScope(name[0]) else !IsCharacteristics(name[0])
    ensures FlipsReadonly([PgToken.Word("set")] + (scope + (Dotted(name) + tail))) <==>
            ReadonlyName(TextOf(name[|name| - 1]))
  {
    hide *;
    var rest := Dotted(name) + tail;
    DottedStarts(name, tail);
    SetParts(PgToken.Word("set"), scope, rest);
    SetTargetIn([PgToken.Word("set")] + (scope + rest), scope, name, tail);
  }

  lemma SetTargetIn(t: seq<PgToken>, scope: seq<PgToken>, name: seq<PgToken>, tail: seq<PgToken>)
    requires |scope| <= 1 && (forall c <- scope :: IsScope(c))
    requires name != [] && (forall c <- name :: IsName(c)) && NameEnds(tail)
    requires if scope == [] then !IsScope(name[0]) else !IsCharacteristics(name[0])
    requires 1 + |scope| < |t| && t[1 + |scope|..] == Dotted(name) + tail
    requires t[0] == PgToken.Word("set") && t[1 + |scope|] == name[0] && (scope != [] ==> t[1] == scope[0])
    ensures FlipsReadonly(t) <==> ReadonlyName(TextOf(name[|name| - 1]))
  {
    hide *;
    LastOfDotted(t, 1 + |scope|, name, tail);
    FlipsIs(t, scope != []);
  }

  lemma DottedStarts(name: seq<PgToken>, tail: seq<PgToken>)
    requires name != []
    ensures Dotted(name) + tail != [] && (Dotted(name) + tail)[0] == name[0]
  {
  }

  lemma SetParts(first: PgToken, scope: seq<PgToken>, rest: seq<PgToken>)
    requires rest != [] && |scope| <= 1
    ensures var t := [first] + (scope + rest); var i := 1 + |scope|;
            t[i..] == rest && t[0] == first && t[i] == rest[0] && (scope != [] ==> t[1] == scope[0])
  {
  }

  // ---- Exactly the statements that flip the switch ----

  /** SET, a scope or none, and a dotted name whose last component is the switch. */
  ghost predicate Assigns(t: seq<PgToken>, scope: seq<PgToken>, name: seq<PgToken>, tail: seq<PgToken>) {
    && |scope| <= 1 && (forall c <- scope :: IsScope(c))
    && name != [] && (forall c <- name :: IsName(c)) && NameEnds(tail)
    && (if scope == [] then !IsScope(name[0]) else !IsCharacteristics(name[0]))
    && t == [PgToken.Word("set")] + (scope + (Dotted(name) + tail)) && ReadonlyName(TextOf(name[|name| - 1]))
  }

  /** SET SESSION or LOCAL CHARACTERISTICS with READ before WRITE. */
  ghost predicate OpensWriting(t: seq<PgToken>) {
    && |t| > 2 && t[0] == PgToken.Word("set") && IsScope(t[1]) && IsCharacteristics(t[2])
    && exists i :: 3 <= i < |t| - 1 && t[i] == PgToken.Word("read") && t[i + 1] == PgToken.Word("write")
  }

  ghost predicate Releases(t: seq<PgToken>) {
    OpensWriting(t) || exists scope, name, tail :: Assigns(t, scope, name, tail)
  }

  /** The name that a component begins, as far as it goes. */
  lemma {:induction false} NameFrom(t: seq<PgToken>, i: nat) returns (name: seq<PgToken>, tail: seq<PgToken>)
    requires i < |t| && IsName(t[i])
    ensures name != [] && (forall c <- name :: IsName(c)) && NameEnds(tail) && name[0] == t[i]
    ensures t[i..] == Dotted(name) + tail
    decreases |t| - i
  {
    if i + 2 < |t| && t[i + 1] == Dot && IsName(t[i + 2]) {
      var more;
      more, tail := NameFrom(t, i + 2);
      name := [t[i]] + more;
      assert name[1..] == more && t[i..] == [t[i], Dot] + t[i + 2..];
    } else {
      name, tail := [t[i]], t[i + 1..];
      assert t[i..] == [t[i]] + tail;
    }
  }

  lemma FlipsNeeds(t: seq<PgToken>)
    requires FlipsReadonly(t)
    ensures |t| > 1 && t[0] == PgToken.Word("set")
    ensures !OpensWriting(t) ==> var i := if IsScope(t[1]) then 2 else 1;
            i < |t| && IsName(t[i]) && (i == 2 ==> !IsCharacteristics(t[2]))
  {
    hide LastComponent;
  }

  lemma OpenedFlips(t: seq<PgToken>)
    requires OpensWriting(t)
    ensures FlipsReadonly(t)
  {
    hide LastComponent;
  }

  /** A statement flips the read-only switch exactly when it is one of the two. */
  lemma FlipsMeans(t: seq<PgToken>)
    ensures FlipsReadonly(t) <==> Releases(t)
  {
    hide FlipsReadonly, OpensWriting, IsScope, IsCharacteristics, IsName, Dotted, NameEnds, ReadonlyName;
    if OpensWriting(t) {
      OpenedFlips(t);
    } else if FlipsReadonly(t) {
      FlipsNeeds(t);
      var scope := if IsScope(t[1]) then [t[1]] else [];
      var name, tail := NameFrom(t, 1 + |scope|);
      assert t == [t[0]] + (scope + t[1 + |scope|..]);
      SetTarget(scope, name, tail);
      assert Assigns(t, scope, name, tail);
    }
    if scope, name, tail :| Assigns(t, scope, name, tail) { SetTarget(scope, name, tail); }
  }
}
