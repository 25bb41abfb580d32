/** How far the tokens of a SET statement of PostgreSQL decide whether it flips the read-only switch. */
module SqlPgUndecided {
  import opened SqlGuard
  import opened SqlGuardMeaning

  /** Two words that flip the switch stand next to each other. */
  predicate SaysReadWrite(u: seq<PgToken>) {
    exists i :: 0 <= i < |u| - 1 && u[i] == PgToken.Word("read") && u[i + 1] == PgToken.Word("write")
  }

  predicate IsSet(t: PgToken) { t == PgToken.Word("set") }

  /** A component stands before `i`, and the dotted name can go on behind the tokens. */
  predicate ChainOpen(t: seq<PgToken>, i: nat)
    requires i <= |t|
    decreases |t| - i
  {
    i == |t| || (t[i] == Dot && (i + 1 == |t| || (IsName(t[i + 1]) && ChainOpen(t, i + 2))))
  }

  predicate NameOpen(t: seq<PgToken>, i: nat)
    requires i <= |t|
  {
    i == |t| || (IsName(t[i]) && ChainOpen(t, i + 1))
  }

  /** What follows the tokens still decides: they break off before the name, or in it, or list modes of which
      none is READ WRITE. */
  predicate Undecided(t: seq<PgToken>) {
    if t == [] then true
    else if !IsSet(t[0]) then false
    else if |t| == 1 || !IsScope(t[1]) then NameOpen(t, 1)
    else if |t| > 2 && IsCharacteristics(t[2]) then !SaysReadWrite(t[3..])
    else NameOpen(t, 2)
  }

  // ---- Decided: nothing that follows makes a difference ----

  lemma Characteristics(t: seq<PgToken>)
    requires |t| >= 3 && IsSet(t[0]) && IsScope(t[1]) && IsCharacteristics(t[2])
    ensures FlipsReadonly(t) <==> SaysReadWrite(t[3..])
  {
    var u := t[3..];
    if SaysReadWrite(u) {
      var i :| 0 <= i < |u| - 1 && u[i] == PgToken.Word("read") && u[i + 1] == PgToken.Word("write");
      assert t[i + 3] == u[i] && t[i + 4] == u[i + 1];
    }
    if FlipsReadonly(t) {
      var i :| 3 <= i < |t| - 1 && t[i] == PgToken.Word("read") && t[i + 1] == PgToken.Word("write");
      assert u[i - 3] == t[i] && u[i - 2] == t[i + 1];
    }
  }

  lemma SaysAppend(a: seq<PgToken>, b: seq<PgToken>)
    requires SaysReadWrite(a)
    ensures SaysReadWrite(a + b)
  {
    var i :| 0 <= i < |a| - 1 && a[i] == PgToken.Word("read") && a[i + 1] == PgToken.Word("write");
    assert (a + b)[i] == a[i] && (a + b)[i + 1] == a[i + 1];
  }

  lemma NotSet(t: seq<PgToken>)
    requires t == [] || !IsSet(t[0])
    ensures !FlipsReadonly(t)
  {
  }

  /** The index of the first component. */
  function NameAt(t: seq<PgToken>): nat { if |t| > 1 && IsScope(t[1]) then 2 else 1 }

  predicate Named(t: seq<PgToken>) {
    |t| > 0 && IsSet(t[0]) && !(|t| > 2 && IsScope(t[1]) && IsCharacteristics(t[2]))
  }

  /** A SET of a name, as against one of modes. */
  lemma FlipsNamed(t: seq<PgToken>)
    requires Named(t)
    ensures var i := NameAt(t);
            FlipsReadonly(t) <==> i < |t| && IsName(t[i]) && ReadonlyName(LastComponent(t, i + 1, TextOf(t[i])))
  {
    hide LastComponent, ReadonlyName, FlipsReadonly;
    FlipsIs(t, |t| > 1 && IsScope(t[1]));
  }

  lemma {:induction false} LastClosed(t: seq<PgToken>, u: seq<PgToken>, i: nat, last: string)
    requires i <= |t| && !ChainOpen(t, i)
    ensures LastComponent(t + u, i, last) == LastComponent(t, i, last)
    decreases |t| - i
  {
    hide LastComponent;
    LastStep(t, i, last);
    LastStep(t + u, i, last);
    assert (t + u)[i] == t[i];
    if t[i] == Dot {
      assert (t + u)[i + 1] == t[i + 1];
      NoComponent(t, i, last);
      NoComponent(t + u, i, last);
      if IsName(t[i + 1]) { LastClosed(t, u, i + 2, TextOf(t[i + 1])); }
    }
  }

  lemma NoComponent(t: seq<PgToken>, i: nat, last: string)
    ensures i + 1 >= |t| || !IsName(t[i + 1]) ==> LastComponent(t, i, last) == last
  {
  }

  lemma Decided(t: seq<PgToken>, u: seq<PgToken>)
    requires !Undecided(t)
    ensures FlipsReadonly(t + u) == FlipsReadonly(t)
  {
    hide FlipsReadonly, LastComponent, SaysReadWrite, ReadonlyName, ChainOpen, IsSet, IsScope, IsCharacteristics;
    assert (t + u)[0] == t[0];
    if !IsSet(t[0]) {
      NotSet(t);
      NotSet(t + u);
    } else {
      assert |t| > 1 && (t + u)[1] == t[1] && (|t| > 2 ==> (t + u)[2] == t[2]);
      if |t| > 2 && IsScope(t[1]) && IsCharacteristics(t[2]) {
        Characteristics(t);
        Characteristics(t + u);
        SaysAppend(t[3..], u);
        assert (t + u)[3..] == t[3..] + u;
      } else {
        FlipsNamed(t);
        FlipsNamed(t + u);
        var i := NameAt(t);
        if IsName(t[i]) { LastClosed(t, u, i + 1, TextOf(t[i])); }
      }
    }
  }

  // ---- Undecided: something that follows turns the verdict ----

  const READONLY := PgToken.Word("transaction_read_only")
  const OTHERWISE := PgToken.Word("x")

  function Turning(t: seq<PgToken>): seq<PgToken> {
    if t == [] then [PgToken.Word("set"), READONLY]
    else if |t| > 2 && IsScope(t[1]) && IsCharacteristics(t[2]) then [PgToken.Word("read"), PgToken.Word("write")]
    else if |t| == NameAt(t) then [READONLY]
    else (if t[|t| - 1] == Dot then [] else [Dot]) + [if FlipsReadonly(t) then OTHERWISE else READONLY]
  }

  /** A name behind an open chain becomes its last component. */
  lemma {:induction false} ChainTurns(t: seq<PgToken>, i: nat, last: string, name: PgToken)
    requires 1 <= i <= |t| && ChainOpen(t, i) && IsName(t[i - 1]) && IsName(name)
    ensures var sep := if t[|t| - 1] == Dot then [] else [Dot];
            LastComponent(t + (sep + [name, Other]), i, last) == TextOf(name)
    decreases |t| - i
  {
    hide LastComponent;
    var sep: seq<PgToken> := if t[|t| - 1] == Dot then [] else [Dot];
    var u := t + (sep + [name, Other]);
    LastStep(u, i, last);
    if i < |t| - 1 {
      assert u[i] == t[i] && u[i + 1] == t[i + 1];
      ChainTurns(t, i + 2, TextOf(t[i + 1]), name);
    } else {
      assert u[i] == Dot && u[i + 1] == name && u[i + 2] == Other;
      LastStep(u, i + 2, TextOf(name));
    }
  }

  lemma TwoNames()
    ensures IsName(READONLY) && !IsScope(READONLY) && !IsCharacteristics(READONLY)
    ensures ReadonlyName(TextOf(READONLY)) && IsName(OTHERWISE) && !ReadonlyName(TextOf(OTHERWISE))
  {
  }

  lemma SetTurns(t: seq<PgToken>)
    requires t == []
    ensures FlipsReadonly(t + (Turning(t) + [Other])) && !FlipsReadonly(t)
  {
    var u := [PgToken.Word("set"), READONLY, Other];
    assert t + (Turning(t) + [Other]) == u;
    LastStep(u, 2, READONLY.text);
  }

  lemma ModesTurn(t: seq<PgToken>)
    requires |t| > 2 && IsSet(t[0]) && IsScope(t[1]) && IsCharacteristics(t[2]) && !SaysReadWrite(t[3..])
    ensures FlipsReadonly(t + (Turning(t) + [Other])) && !FlipsReadonly(t)
  {
    hide FlipsReadonly;
    var u := t + (Turning(t) + [Other]);
    assert u[0] == t[0] && u[1] == t[1] && u[2] == t[2];
    Characteristics(t);
    Characteristics(u);
    var m, v := |t| - 3, u[3..];
    assert v[m] == PgToken.Word("read") && v[m + 1] == PgToken.Word("write");
  }

  lemma FirstNameTurns(t: seq<PgToken>)
    requires Named(t) && |t| == NameAt(t)
    ensures FlipsReadonly(t + (Turning(t) + [Other])) && !FlipsReadonly(t)
  {
    hide FlipsReadonly, LastComponent, IsSet, IsScope, IsCharacteristics, ReadonlyName;
    var u := t + (Turning(t) + [Other]);
    assert u[0] == t[0] && (|t| > 1 ==> u[1] == t[1]) && u[|t|] == READONLY && u[|t| + 1] == Other;
    TwoNames();
    FlipsNamed(t);
    FlipsNamed(u);
    LastStep(u, |t| + 1, READONLY.text);
  }

  lemma NextNameTurns(t: seq<PgToken>)
    requires Named(t) && NameAt(t) < |t| && IsName(t[NameAt(t)]) && ChainOpen(t, NameAt(t) + 1)
    ensures FlipsReadonly(t + (Turning(t) + [Other])) != FlipsReadonly(t)
  {
    hide FlipsReadonly, LastComponent, IsSet, IsScope, IsCharacteristics, ChainOpen, ReadonlyName;
    var name := if FlipsReadonly(t) then OTHERWISE else READONLY;
    var sep: seq<PgToken> := if t[|t| - 1] == Dot then [] else [Dot];
    var u := t + (sep + [name, Other]);
    assert Turning(t) + [Other] == sep + [name, Other];
    var i := NameAt(t);
    assert u[0] == t[0] && u[1] == t[1] && (|t| > 2 ==> u[2] == t[2]);
    TwoNames();
    FlipsNamed(u);
    ChainTurns(t, i + 1, TextOf(t[i]), name);
  }

  /** Undecided tokens can be followed by some that turn the verdict, and a text behind. */
  lemma Turns(t: seq<PgToken>)
    requires Undecided(t)
    ensures FlipsReadonly(t + (Turning(t) + [Other])) != FlipsReadonly(t)
  {
    hide FlipsReadonly, IsSet, IsScope, IsCharacteristics, ChainOpen, SaysReadWrite, Turning;
    if t == [] {
      SetTurns(t);
    } else if |t| > 2 && IsScope(t[1]) && IsCharacteristics(t[2]) {
      ModesTurn(t);
    } else if |t| == NameAt(t) {
      FirstNameTurns(t);
    } else {
      NextNameTurns(t);
    }
  }

  // ---- Names with a quote inside ----

  /** A quoted name that is neither of the two. */
  predicate OddName(t: PgToken) { t.Quoted? && '\'' in t.text }

  /** The same but for names with a quote inside. */
  predicate Alike(t: seq<PgToken>, u: seq<PgToken>) {
    |t| == |u| && forall i | 0 <= i < |t| :: t[i] == u[i] || (OddName(t[i]) && OddName(u[i]))
  }

  predicate SameName(a: string, b: string) { a == b || ('\'' in a && '\'' in b) }

  lemma {:induction false} LastAlike(t: seq<PgToken>, u: seq<PgToken>, i: nat, last: string, other: string)
    requires Alike(t, u) && SameName(last, other)
    ensures SameName(LastComponent(t, i, last), LastComponent(u, i, other))
    decreases |t| - i
  {
    if i + 1 < |t| && t[i] == Dot && Component(t, i + 1).Some? {
      assert t[i + 1] == u[i + 1] || (OddName(t[i + 1]) && OddName(u[i + 1]));
      LastAlike(t, u, i + 2, TextOf(t[i + 1]), TextOf(u[i + 1]));
    }
  }

  lemma SameVerdictOnNames(a: string, b: string)
    requires SameName(a, b)
    ensures ReadonlyName(a) == ReadonlyName(b)
  {
    assert '\'' !in "transaction_read_only" && '\'' !in "default_transaction_read_only";
  }

  lemma SaysAlike(t: seq<PgToken>, u: seq<PgToken>)
    requires Alike(t, u) && SaysReadWrite(t)
    ensures SaysReadWrite(u)
  {
    var i :| 0 <= i < |t| - 1 && t[i] == PgToken.Word("read") && t[i + 1] == PgToken.Word("write");
    assert u[i] == t[i] && u[i + 1] == t[i + 1];
  }

  lemma WordsAlike(t: seq<PgToken>, u: seq<PgToken>)
    requires Alike(t, u)
    ensures forall i | 0 <= i < |t| ::
              && IsSet(t[i]) == IsSet(u[i]) && IsScope(t[i]) == IsScope(u[i])
              && IsCharacteristics(t[i]) == IsCharacteristics(u[i])
    ensures forall i | 0 <= i < |t| :: IsName(t[i]) == IsName(u[i]) && SameName(TextOf(t[i]), TextOf(u[i]))
  {
  }

  lemma FlipsAlike(t: seq<PgToken>, u: seq<PgToken>)
    requires Alike(t, u)
    ensures FlipsReadonly(t) == FlipsReadonly(u)
  {
    hide FlipsReadonly, LastComponent, IsSet, IsScope, IsCharacteristics, SaysReadWrite, ReadonlyName, SameName;
    WordsAlike(t, u);
    if t == [] || !IsSet(t[0]) {
      NotSet(t);
      NotSet(u);
    } else if |t| > 2 && IsScope(t[1]) && IsCharacteristics(t[2]) {
      Characteristics(t);
      Characteristics(u);
      AlikeBehind(t, u, 3);
      if SaysReadWrite(t[3..]) { SaysAlike(t[3..], u[3..]); }
      if SaysReadWrite(u[3..]) { SaysAlike(u[3..], t[3..]); }
    } else {
      FlipsNamed(t);
      FlipsNamed(u);
      var i := NameAt(t);
      if i < |t| {
        LastAlike(t, u, i + 1, TextOf(t[i]), TextOf(u[i]));
        SameVerdictOnNames(LastComponent(t, i + 1, TextOf(t[i])), LastComponent(u, i + 1, TextOf(u[i])));
      }
    }
  }

  lemma AlikeBehind(t: seq<PgToken>, u: seq<PgToken>, n: nat)
    requires Alike(t, u) && n <= |t|
    ensures Alike(t[n..], u[n..]) && Alike(u[n..], t[n..])
  {
  }

  lemma AlikeInside(a: seq<PgToken>, y: seq<PgToken>, z: seq<PgToken>, b: seq<PgToken>)
    requires Alike(y, z)
    ensures Alike(a + (y + b), a + (z + b))
  {
  }
}
