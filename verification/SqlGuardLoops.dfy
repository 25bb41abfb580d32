/** The loops of src-tauri/src/sqlguard.rs, each proved against its function in `SqlGuard`. */
module SqlGuardLoops {
  import opened Common
  import opened Text
  import opened SqlBlank
  import opened SqlGuard

  // ---- has_word ----

  /** The scan finds a word exactly when it stands somewhere as a whole word. */
  lemma {:induction false} HasWordFromMeans(s: string, w: string, inWord: bool)
    ensures HasWordFrom(s, w, inWord) <==>
            (!inWord && WordHere(s, w)) || exists i :: 1 <= i <= |s| && WholeWordAt(s, w, i)
    decreases |s|
  {
    if s != [] {
      var c := IsWordChar(s[0]);
      HasWordFromMeans(s[1..], w, c);
      forall i | 1 <= i <= |s|
        ensures WholeWordAt(s, w, i) <==> if i == 1 then !c && WordHere(s[1..], w) else WholeWordAt(s[1..], w, i - 1)
      {
        assert s[1..][i - 1..] == s[i..];
        if i > 1 { assert s[1..][i - 2] == s[i - 1]; }
      }
      if i :| 1 <= i <= |s[1..]| && WholeWordAt(s[1..], w, i) {
        assert WholeWordAt(s, w, i + 1);
      }
      if i :| 1 <= i <= |s| && WholeWordAt(s, w, i) {
        assert i > 1 ==> WholeWordAt(s[1..], w, i - 1);
      }
      assert !c && WordHere(s[1..], w) ==> WholeWordAt(s, w, 1);
    }
  }

  lemma HasWordMeans(s: string, w: string)
    ensures HasWord(s, w) <==> exists i :: 0 <= i <= |s| && WholeWordAt(s, w, i)
  {
    HasWordFromMeans(s, w, false);
    assert s[0..] == s;
    assert WholeWordAt(s, w, 0) <==> WordHere(s, w);
  }

  method HasWordLoop(blanked: string, word: string) returns (found: bool)
    ensures found == HasWord(blanked, word)
  {
    hide HasWord, WholeWordAt;
    var lower := LowerAll(blanked);
    var i := 0;
    HasWordMeans(blanked, word);
    NoWordAtEnd(blanked, word);
    while i + |word| <= |lower|
      invariant i <= |blanked|
      invariant forall j | 0 <= j < i :: !WholeWordAt(blanked, word, j)
    {
      WholeWordHere(blanked, word, i);
      if lower[i..i + |word|] == word {
        var beforeOk := i == 0 || !IsWordChar(lower[i - 1]);
        var after := i + |word|;
        var afterOk := after >= |lower| || !IsWordChar(lower[after]);
        if beforeOk && afterOk { return true; }
      }
      if i == |lower| { break; }
      i := i + 1;
    }
    return false;
  }

  lemma NoWordAtEnd(s: string, w: string)
    ensures forall i | 0 <= i <= |s| && i + |w| > |s| :: !WholeWordAt(s, w, i)
  {
  }

  lemma WholeWordHere(s: string, w: string, i: nat)
    requires i + |w| <= |s|
    ensures WholeWordAt(s, w, i) <==>
            && LowerAll(s)[i..i + |w|] == w && (i == 0 || !IsWordChar(LowerAll(s)[i - 1]))
            && (i + |w| < |s| ==> !IsWordChar(LowerAll(s)[i + |w|]))
  {
    assert LowerAll(s[i..][..|w|]) == LowerAll(s)[i..i + |w|];
  }

  // ---- copy_writes ----

  method CopyWritesLoop(blanked: string) returns (writes: bool)
    ensures writes == CopyWrites(blanked)
  {
    var after := TrimStart(blanked);
    after := after[if |after| < 4 then |after| else 4..];
    var depth, word := 0, "";
    for i := 0 to |after|
      invariant CopyScan(after[i..], depth, word) == CopyWrites(blanked)
    {
      assert after[i..][1..] == after[i + 1..];
      var c := after[i];
      if c == '(' {
        depth, word := depth + 1, "";
      } else if c == ')' {
        depth, word := depth - 1, "";
      } else if IsWordChar(c) {
        word := word + [Lower(c)];
      } else {
        if depth == 0 {
          if word == "from" { return true; }
          if word == "to" { return false; }
        }
        word := "";
      }
    }
    return depth == 0 && word == "from";
  }

  // ---- strip_explain ----

  method StripExplainLoop(blanked: string) returns (r: string)
    ensures r == StripExplain(blanked)
  {
    hide FirstWord, After, IsOption, DropOption, AfterParens, TrimStart;
    var s := After(blanked, |FirstWord(blanked)|);
    ghost var options := DropOptions(s);
    while IsOption(FirstWord(s))
      invariant DropOptions(s) == options
      decreases |s|
    {
      s := DropOption(s);
    }
    if s != [] && s[0] == '(' {
      s := ParensLoop(s);
      return TrimStart(s);
    }
    return s;
  }

  /** Skips the balanced option list. */
  method ParensLoop(s: string) returns (r: string)
    ensures r == AfterParens(s, 0)
  {
    var depth, i := 0, 0;
    assert s[0..] == s;
    while i < |s|
      invariant i <= |s| && AfterParens(s[i..], depth) == AfterParens(s, 0)
    {
      assert s[i..][1..] == s[i + 1..];
      if s[i] == '(' {
        depth := depth + 1;
      } else if s[i] == ')' {
        depth := depth - 1;
        if depth == 0 { return s[i + 1..]; }
      }
      i := i + 1;
    }
    return [];
  }

  // ---- unfiltered_updel ----

  /** The source's vector keeps the flags of closed levels, all of them clear. */
  ghost predicate Live(pending: seq<bool>, depth: nat, p: seq<bool>) {
    depth < |pending| && p == pending[..depth + 1] && forall j | depth < j < |pending| :: !pending[j]
  }

  method UnfilteredUpdelLoop(s: string) returns (r: bool)
    ensures r == UnfilteredUpdel(s)
  {
    hide LeadsUpdel, NoteWord, CloseLevel, NoteAt;
    if !LeadsUpdel(s) { return false; }
    var pending: seq<bool> := [false];
    var depth: nat := 0;
    var word, unfiltered := "", false;
    assert s[0..] == s && pending[..1] == [false];
    for i := 0 to |s|
      invariant depth < |pending| && Live(pending, depth, pending[..depth + 1])
      invariant UpdelScan(s[i..], pending[..depth + 1], word, unfiltered) == UnfilteredUpdel(s)
    {
      assert s[i..][1..] == s[i + 1..];
      var c := s[i];
      if IsWordChar(c) {
        word := word + [Lower(c)];
        continue;
      }
      pending := NoteAt(pending, depth, word);
      word := "";
      if c == '(' {
        pending, depth := OpenAt(pending, depth), depth + 1;
      } else if c == ')' {
        if pending[depth] { unfiltered := true; }
        pending, depth := CloseAt(pending, depth), if depth == 0 then 0 else depth - 1;
      }
    }
    assert s[|s|..] == [];
    pending := NoteAt(pending, depth, word);
    AnyLive(pending, depth, pending[..depth + 1]);
    return unfiltered || exists b <- pending :: b;
  }

  function OpenAt(pending: seq<bool>, depth: nat): (r: seq<bool>)
    requires depth < |pending| && Live(pending, depth, pending[..depth + 1])
    ensures Live(r, depth + 1, pending[..depth + 1] + [false])
  {
    if |pending| <= depth + 1 then
      assert pending == pending[..depth + 1];
      pending + [false]
    else pending[depth + 1 := false]
  }

  function CloseAt(pending: seq<bool>, depth: nat): (r: seq<bool>)
    requires depth < |pending| && Live(pending, depth, pending[..depth + 1])
    ensures Live(r, if depth == 0 then 0 else depth - 1, CloseLevel(pending[..depth + 1]))
  {
    pending[depth := false]
  }

  lemma AnyLive(pending: seq<bool>, depth: nat, p: seq<bool>)
    requires Live(pending, depth, p)
    ensures (exists b <- pending :: b) == (exists b <- p :: b)
  {
    if b :| b in pending && b {
      var j :| 0 <= j < |pending| && pending[j];
      assert p[j] && p[j] in p;
    }
    if b :| b in p && b {
      var j :| 0 <= j < |p| && p[j];
      assert pending[j] && pending[j] in pending;
    }
  }

  function NoteAt(pending: seq<bool>, depth: nat, word: string): (r: seq<bool>)
    requires depth < |pending| && Live(pending, depth, pending[..depth + 1])
    ensures Live(r, depth, NoteWord(pending[..depth + 1], word))
  {
    if word == "update" || word == "delete" then pending[depth := true]
    else if word == "where" then pending[depth := false]
    else pending
  }

  // ---- pg_set_tokens ----

  method PgSetTokens(raw: string) returns (out: seq<PgToken>)
    ensures out == PgTokens(raw)
  {
    hide PgTokens, PgYield, PgLength;
    out := [];
    var i := 0;
    assert raw[0..] == raw;
    PgNone();
    while i < |raw|
      invariant i <= |raw| && out + PgTokens(raw[i..]) == PgTokens(raw)
      decreases |raw| - i
    {
      var end, yielded := PgTurn(raw, i);
      PgUnroll(raw[i..], out);
      assert raw[i..][end - i..] == raw[end..];
      out := out + yielded;
      i := end;
    }
    assert raw[i..] == [] && out + [] == out;
  }

  lemma PgNone()
    ensures PgTokens([]) == []
  {
  }

  lemma PgUnroll(s: string, out: seq<PgToken>)
    requires s != []
    ensures (out + PgYield(s)) + PgTokens(s[PgLength(s)..]) == out + PgTokens(s)
  {
    hide PgYield, PgLength;
    Assoc(out, PgYield(s), PgTokens(s[PgLength(s)..]));
  }

  method PgTurn(raw: string, start: nat) returns (end: nat, yielded: seq<PgToken>)
    requires start < |raw|
    ensures end == start + PgLength(raw[start..]) && yielded == PgYield(raw[start..])
  {
    ghost var s := raw[start..];
    var c := raw[start];
    assert |s| > 1 ==> s[1] == raw[start + 1] && s[1..] == raw[start + 1..] && s[2..] == raw[start + 2..];
    assert s[1..] == raw[start + 1..];
    if IsWhitespace(c) { return start + 1, []; }
    if c == '-' && start + 1 < |raw| && raw[start + 1] == '-' {
      end := LineEnd(raw, start);
      return end, [];
    }
    if c == '/' && start + 1 < |raw| && raw[start + 1] == '*' {
      end := BlockEnd(raw, start + 2, true);
      return end, [];
    }
    if c == '\'' || ((c == 'E' || c == 'e') && start + 1 < |raw| && raw[start + 1] == '\'') {
      var escaped := c != '\'';
      end := QuoteEnd(raw, start + if escaped then 2 else 1, '\'', escaped);
      return end, [Other];
    }
    end, yielded := PgTurnRest(raw, start);
  }

  method PgTurnRest(raw: string, start: nat) returns (end: nat, yielded: seq<PgToken>)
    requires start < |raw|
    requires var s := raw[start..];
      !IsWhitespace(s[0]) && !Starts2(s, '-', '-') && !Starts2(s, '/', '*') && s[0] != '\'' && !EscapeLiteral(s)
    ensures end == start + PgLength(raw[start..]) && yielded == PgYield(raw[start..])
  {
    ghost var s := raw[start..];
    var c := raw[start];
    assert s[1..] == raw[start + 1..];
    if c == '$' {
      var n := DollarTag(raw, start);
      if n == 0 { return start + 1, []; }
      var tag := raw[start..start + n];
      assert tag == s[..n] && raw[start + n..] == s[n..];
      var p := FindSeq(raw, tag, start + n);
      return if p.Some? then p.value + n else |raw|, [Other];
    }
    if c == '"' {
      var name;
      end, name := QuotedLoop(raw, start + 1);
      return end, [Quoted(LowerAll(name))];
    }
    if IsWordChar(c) {
      var word;
      end, word := WordLoop(raw, start);
      return end, [Word(word)];
    }
    return start + 1, if c == '.' then [Dot] else [];
  }

  lemma QuotedUnroll(raw: string, i: nat)
    requires i < |raw|
    ensures raw[i] != '"' ==>
      && QuoteLength(raw[i..], '"', false) == 1 + QuoteLength(raw[i + 1..], '"', false)
      && QuotedName(raw[i..]) == [raw[i]] + QuotedName(raw[i + 1..])
    ensures raw[i] == '"' && i + 1 < |raw| && raw[i + 1] == '"' ==>
      && QuoteLength(raw[i..], '"', false) == 2 + QuoteLength(raw[i + 2..], '"', false)
      && QuotedName(raw[i..]) == "\"" + QuotedName(raw[i + 2..])
    ensures raw[i] == '"' && !(i + 1 < |raw| && raw[i + 1] == '"') ==>
      QuoteLength(raw[i..], '"', false) == 1 && QuotedName(raw[i..]) == []
  {
    assert raw[i..][1..] == raw[i + 1..];
    if i + 2 <= |raw| { assert raw[i..][2..] == raw[i + 2..]; }
  }

  method QuotedLoop(raw: string, start: nat) returns (i: nat, name: string)
    requires start <= |raw|
    ensures i == start + QuoteLength(raw[start..], '"', false) && name == QuotedName(raw[start..])
  {
    i, name := start, [];
    QuotedNone();
    hide QuoteLength, QuotedName;
    while i < |raw|
      invariant start <= i <= |raw|
      invariant i + QuoteLength(raw[i..], '"', false) == start + QuoteLength(raw[start..], '"', false)
      invariant name + QuotedName(raw[i..]) == QuotedName(raw[start..])
      decreases |raw| - i
    {
      QuotedUnroll(raw, i);
      if raw[i] == '"' {
        if i + 1 < |raw| && raw[i + 1] == '"' {
          Assoc(name, "\"", QuotedName(raw[i + 2..]));
          name, i := name + "\"", i + 2;
        } else {
          assert name + [] == name;
          return i + 1, name;
        }
      } else {
        Assoc(name, [raw[i]], QuotedName(raw[i + 1..]));
        name, i := name + [raw[i]], i + 1;
      }
    }
    assert raw[i..] == [] && name + [] == name;
  }

  lemma QuotedNone()
    ensures QuoteLength([], '"', false) == 0 && QuotedName([]) == []
  {
  }

  method WordLoop(raw: string, start: nat) returns (i: nat, word: string)
    requires start <= |raw|
    ensures i == start + WordRun(raw[start..]) && word == LowerAll(raw[start..][..WordRun(raw[start..])])
  {
    i, word := start, [];
    while i < |raw| && IsWordChar(raw[i])
      invariant start <= i <= |raw| && word == LowerAll(raw[start..i])
      invariant i + WordRun(raw[i..]) == start + WordRun(raw[start..])
    {
      assert raw[i..][1..] == raw[i + 1..];
      word := word + [Lower(raw[i])];
      i := i + 1;
    }
    assert raw[start..][..i - start] == raw[start..i];
  }
}
