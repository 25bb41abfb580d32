/** Statement fingerprints: `fingerprint_sql` and `collapse_in_lists` of src-tauri/src/history.rs. */
module HistoryFingerprint {
  import opened Common
  import opened Text

  predicate IsQuote(c: char) { c == '\'' || c == '"' }

  function Shift(n: nat, o: Option<nat>): Option<nat> { match o case None => None case Some(m) => Some(n + m) }

  // ---- What the scanner takes out ----

  /** How far the first end of a block comment reaches. */
  function BlockEnd(s: string): Option<nat> {
    if |s| < 2 then None else if s[0] == '*' && s[1] == '/' then Some(2) else Shift(1, BlockEnd(s[1..]))
  }

  /** How far the closing quote reaches; a backslash hides the character after it. */
  function QuoteEnd(s: string, q: char): Option<nat>
    decreases |s|
  {
    if s == [] then None
    else if s[0] == '\\' then if |s| == 1 then None else Shift(2, QuoteEnd(s[2..], q))
    else if s[0] == q then Some(1)
    else Shift(1, QuoteEnd(s[1..], q))
  }

  lemma {:induction false} DigitsFit(s: string)
    ensures DigitRun(s) <= |s| && (forall i | 0 <= i < DigitRun(s) :: IsDigit(s[i]))
    ensures DigitRun(s) < |s| ==> !IsDigit(s[DigitRun(s)])
  {
    if s != [] && IsDigit(s[0]) { DigitsFit(s[1..]); }
  }

  lemma {:induction false} BlockEndFits(s: string)
    ensures BlockEnd(s).Some? ==> 2 <= BlockEnd(s).value <= |s|
  {
    if |s| >= 2 { BlockEndFits(s[1..]); }
  }

  lemma {:induction false} LineFits(s: string)
    ensures LineLength(s) <= |s| && (LineLength(s) < |s| ==> s[LineLength(s)] == '\n') && '\n' !in s[..LineLength(s)]
  {
    if s != [] && s[0] != '\n' {
      LineFits(s[1..]);
      assert s[..LineLength(s)] == [s[0]] + s[1..][..LineLength(s[1..])];
    }
  }

  lemma {:induction false} QuoteFits(s: string, q: char)
    ensures QuoteEnd(s, q).Some? ==> 1 <= QuoteEnd(s, q).value <= |s|
    decreases |s|
  {
    if s != [] && s[0] == '\\' {
      if |s| > 1 { QuoteFits(s[2..], q); }
    } else if s != [] && s[0] != q {
      QuoteFits(s[1..], q);
    }
  }

  /** DigitRun, and a decimal tail when there is one. */
  function NumberLen(s: string): (n: nat)
    ensures n <= |s| && (s != [] && IsDigit(s[0]) ==> n > 0)
  {
    DigitsFit(s);
    var d := DigitRun(s);
    if d + 1 < |s| && s[d] == '.' && IsDigit(s[d + 1]) then DigitsFit(s[d + 1..]); d + 1 + DigitRun(s[d + 1..]) else d
  }

  predicate StandsAlone(s: string) { NumberLen(s) == |s| || !IsWordChar(s[NumberLen(s)]) }

  /** How much the scanner replaces here by one character; nothing when the character is copied. `word`
      says whether a word character was copied last. */
  function Region(s: string, word: bool): (n: nat)
    requires s != []
    ensures n <= |s|
  {
    if s[0] == '/' && |s| > 1 && s[1] == '*' then
      BlockEndFits(s[2..]);
      match BlockEnd(s[2..]) case Some(n) => n + 2 case None => 0
    else if s[0] == '-' && |s| > 1 && s[1] == '-' then
      LineFits(s[2..]);
      2 + LineLength(s[2..])
    else if IsQuote(s[0]) then
      QuoteFits(s[1..], s[0]);
      match QuoteEnd(s[1..], s[0]) case Some(n) => n + 1 case None => 0
    else if IsDigit(s[0]) && !word && StandsAlone(s) then NumberLen(s)
    else 0
  }

  function Mark(c: char): char { if c == '/' || c == '-' then ' ' else '?' }

  function Raw(s: string, word: bool): string
    decreases |s|
  {
    if s == [] then []
    else
      var n := Region(s, word);
      if n > 0 then [Mark(s[0])] + Raw(s[n..], false) else [Lower(s[0])] + Raw(s[1..], IsWordChar(s[0]))
  }

  // ---- White space ----

  function Squeeze(s: string, started: bool, pending: bool): string {
    if s == [] then []
    else if IsWhitespace(s[0]) then Squeeze(s[1..], started, true)
    else (if pending && started then " " else "") + [s[0]] + Squeeze(s[1..], true, false)
  }

  // ---- Lists ----

  /** How far `?, ?)` reaches; `seen` says that a `?` stands before. */
  function ItemsEnd(s: string, seen: bool): Option<nat> {
    if s == [] then None
    else if IsWhitespace(s[0]) then Shift(1, ItemsEnd(s[1..], seen))
    else if !seen then if s[0] == '?' then Shift(1, ItemsEnd(s[1..], true)) else None
    else if s[0] == ',' then Shift(1, ItemsEnd(s[1..], false))
    else if s[0] == ')' then Some(1)
    else None
  }

  function ListEnd(s: string): Option<nat> {
    if s == [] then None
    else if IsWhitespace(s[0]) then Shift(1, ListEnd(s[1..]))
    else if s[0] == '(' then Shift(1, ItemsEnd(s[1..], false))
    else None
  }

  predicate StartsIn(s: string) { |s| >= 2 && (s[0] == 'i' || s[0] == 'I') && (s[1] == 'n' || s[1] == 'N') }

  function InEnd(s: string, word: bool): Option<nat> {
    if StartsIn(s) && !word then Shift(2, ListEnd(s[2..])) else None
  }

  lemma {:induction false} ItemsFit(s: string, seen: bool)
    ensures ItemsEnd(s, seen).Some? ==> ItemsEnd(s, seen).value <= |s|
  {
    if s != [] {
      ItemsFit(s[1..], seen);
      ItemsFit(s[1..], true);
      ItemsFit(s[1..], false);
    }
  }

  lemma {:induction false} ListFits(s: string)
    ensures ListEnd(s).Some? ==> ListEnd(s).value <= |s|
  {
    if s != [] {
      ListFits(s[1..]);
      ItemsFit(s[1..], false);
    }
  }

  lemma InFits(s: string, word: bool)
    ensures InEnd(s, word).Some? ==> 2 <= InEnd(s, word).value <= |s|
  {
    if StartsIn(s) { ListFits(s[2..]); }
  }

  function Collapse(s: string, word: bool): string
    decreases |s|
  {
    if s == [] then []
    else
      InFits(s, word);
      match InEnd(s, word)
      case Some(n) => "in (?)" + Collapse(s[n..], false)
      case None => [s[0]] + Collapse(s[1..], IsWordChar(s[0]))
  }

  function Fingerprint(sql: string): string { Collapse(Squeeze(Raw(sql, false), false, false), false) }

  // ---- The loops ----

  /** Whether a word character was pushed last. */
  predicate EndsInWord(out: string) { out != [] && IsWordChar(out[|out| - 1]) }

  method FindBlockEnd(chars: string, from: nat) returns (j: nat)
    requires from <= |chars|
    ensures from <= j
    ensures j + 1 < |chars| <==> BlockEnd(chars[from..]).Some?
    ensures j + 1 < |chars| ==> from + BlockEnd(chars[from..]).value == j + 2
  {
    j := from;
    while j + 1 < |chars| && !(chars[j] == '*' && chars[j + 1] == '/')
      invariant from <= j <= |chars|
      invariant BlockEnd(chars[from..]) == Shift(j - from, BlockEnd(chars[j..]))
    {
      assert chars[j..][1..] == chars[j + 1..];
      j := j + 1;
    }
  }

  method FindNewline(chars: string, from: nat) returns (j: nat)
    requires from <= |chars|
    ensures j == from + LineLength(chars[from..])
  {
    j := from;
    while j < |chars| && chars[j] != '\n'
      invariant from <= j <= |chars|
      invariant from + LineLength(chars[from..]) == j + LineLength(chars[j..])
    {
      assert chars[j..][1..] == chars[j + 1..];
      j := j + 1;
    }
  }

  method FindQuoteEnd(chars: string, from: nat, q: char) returns (closed: bool, j: nat)
    requires from <= |chars|
    ensures closed <==> QuoteEnd(chars[from..], q).Some?
    ensures closed ==> j == from + QuoteEnd(chars[from..], q).value
  {
    j, closed := from, false;
    while j < |chars|
      invariant from <= j
      invariant j <= |chars| ==> QuoteEnd(chars[from..], q) == Shift(j - from, QuoteEnd(chars[j..], q))
      invariant j > |chars| ==> QuoteEnd(chars[from..], q) == None
      decreases |chars| - j
    {
      assert chars[j..][1..] == chars[j + 1..];
      if chars[j] == '\\' {
        if j + 2 <= |chars| { assert chars[j..][2..] == chars[j + 2..]; }
        j := j + 2;
        continue;
      }
      if chars[j] == q {
        closed := true;
        j := j + 1;
        return;
      }
      j := j + 1;
    }
  }

  method SkipDigits(chars: string, from: nat) returns (j: nat)
    requires from <= |chars|
    ensures j == from + DigitRun(chars[from..]) <= |chars|
  {
    j := from;
    while j < |chars| && IsDigit(chars[j])
      invariant from <= j <= |chars|
      invariant from + DigitRun(chars[from..]) == j + DigitRun(chars[j..])
    {
      assert chars[j..][1..] == chars[j + 1..];
      j := j + 1;
    }
  }

  method FindNumberEnd(chars: string, from: nat) returns (j: nat)
    requires from <= |chars|
    ensures j == from + NumberLen(chars[from..]) <= |chars|
  {
    j := SkipDigits(chars, from);
    if j < |chars| && chars[j] == '.' && j + 1 < |chars| && IsDigit(chars[j + 1]) {
      assert chars[from..][j + 1 - from..] == chars[j + 1..];
      j := j + 1;
      j := SkipDigits(chars, j);
    }
  }

  /** What the scanner does at position `i`: where it goes on, and what it pushes. */
  method ScanOne(chars: string, i: nat, word: bool) returns (next: nat, pushed: char)
    requires i < |chars|
    ensures Region(chars[i..], word) > 0 ==> next == i + Region(chars[i..], word) && pushed == Mark(chars[i])
    ensures Region(chars[i..], word) == 0 ==> next == i + 1 && pushed == Lower(chars[i])
  {
    var c := chars[i];
    if c == '/' && i + 1 < |chars| && chars[i + 1] == '*' {
      assert chars[i..][2..] == chars[i + 2..];
      var j := FindBlockEnd(chars, i + 2);
      if j + 1 < |chars| { return j + 2, ' '; } else { return i + 1, '/'; }
    }
    if c == '-' && i + 1 < |chars| && chars[i + 1] == '-' {
      assert chars[i..][2..] == chars[i + 2..];
      var j := FindNewline(chars, i + 2);
      return j, ' ';
    }
    if c == '\'' || c == '"' {
      assert chars[i..][1..] == chars[i + 1..];
      var closed, j := FindQuoteEnd(chars, i + 1, c);
      if closed { return j, '?'; } else { return i + 1, c; }
    }
    if IsDigit(c) && !word {
      var j := FindNumberEnd(chars, i);
      if j == |chars| || !IsWordChar(chars[j]) { return j, '?'; }
    }
    return i + 1, Lower(c);
  }

  method ScanAll(chars: string) returns (out: string)
    ensures out == Raw(chars, false)
  {
    out := [];
    var i := 0;
    while i < |chars|
      invariant i <= |chars| && out + Raw(chars[i..], EndsInWord(out)) == Raw(chars, false)
    {
      var word := out != [] && IsWordChar(out[|out| - 1]);
      var next, pushed := ScanOne(chars, i, word);
      RawStep(chars, i, word, next, pushed);
      Assoc(out, [pushed], Raw(chars[next..], IsWordChar(pushed)));
      out := out + [pushed];
      i := next;
    }
  }

  lemma RawStep(chars: string, i: nat, word: bool, next: nat, pushed: char)
    requires i < |chars|
    requires Region(chars[i..], word) > 0 ==> next == i + Region(chars[i..], word) && pushed == Mark(chars[i])
    requires Region(chars[i..], word) == 0 ==> next == i + 1 && pushed == Lower(chars[i])
    ensures i < next <= |chars|
    ensures Raw(chars[i..], word) == [pushed] + Raw(chars[next..], IsWordChar(pushed))
  {
    RawUnroll(chars[i..], word);
    hide Region, Raw;
    assert chars[i..][next - i..] == chars[next..];
  }

  lemma RawUnroll(s: string, word: bool)
    requires s != []
    ensures var n := Region(s, word);
            Raw(s, word) == if n > 0 then [Mark(s[0])] + Raw(s[n..], IsWordChar(Mark(s[0])))
                            else [Lower(s[0])] + Raw(s[1..], IsWordChar(Lower(s[0])))
  {
    hide Region;
  }

  method SqueezeAll(out: string) returns (collapsed: string)
    ensures collapsed == Squeeze(out, false, false)
  {
    hide Squeeze;
    collapsed := [];
    var pending := false;
    assert out[0..] == out;
    SqueezeNothing();
    for i := 0 to |out|
      invariant collapsed + Squeeze(out[i..], collapsed != [], pending) == Squeeze(out, false, false)
    {
      var c := out[i];
      SqueezeStep(out, i, collapsed != [], pending);
      if IsWhitespace(c) {
        pending := true;
        continue;
      }
      ghost var rest := Squeeze(out[i + 1..], true, false);
      Assoc(collapsed, (if pending && collapsed != [] then " " else "") + [c], rest);
      if pending && collapsed != [] { collapsed := collapsed + " "; }
      collapsed := collapsed + [c];
      pending := false;
    }
    assert out[|out|..] == [] && collapsed + [] == collapsed;
  }

  lemma SqueezeNothing()
    ensures forall started, pending :: Squeeze([], started, pending) == []
  {
  }

  lemma SqueezeStep(out: string, i: nat, started: bool, pending: bool)
    requires i < |out|
    ensures Squeeze(out[i..], started, pending) ==
            if IsWhitespace(out[i]) then Squeeze(out[i + 1..], started, true)
            else (if pending && started then " " else "") + [out[i]] + Squeeze(out[i + 1..], true, false)
  {
    assert out[i..][1..] == out[i + 1..];
  }

  method SkipBlanks(chars: string, from: nat) returns (j: nat)
    requires from <= |chars|
    ensures from <= j <= |chars| && (j < |chars| ==> !IsWhitespace(chars[j]))
    ensures ListEnd(chars[from..]) == Shift(j - from, ListEnd(chars[j..]))
    ensures forall seen :: ItemsEnd(chars[from..], seen) == Shift(j - from, ItemsEnd(chars[j..], seen))
  {
    hide ListEnd, ItemsEnd;
    j := from;
    while j < |chars| && IsWhitespace(chars[j])
      invariant from <= j <= |chars|
      invariant ListEnd(chars[from..]) == Shift(j - from, ListEnd(chars[j..]))
      invariant forall seen :: ItemsEnd(chars[from..], seen) == Shift(j - from, ItemsEnd(chars[j..], seen))
    {
      BlankItem(chars, j);
      j := j + 1;
    }
  }

  lemma BlankItem(chars: string, j: nat)
    requires j < |chars| && IsWhitespace(chars[j])
    ensures ListEnd(chars[j..]) == Shift(1, ListEnd(chars[j + 1..]))
    ensures forall seen :: ItemsEnd(chars[j..], seen) == Shift(1, ItemsEnd(chars[j + 1..], seen))
  {
    assert chars[j..][1..] == chars[j + 1..];
  }

  lemma AfterItem(chars: string, j: nat, seen: bool)
    requires j < |chars| && !IsWhitespace(chars[j])
    ensures !seen && chars[j] == '?' ==> ItemsEnd(chars[j..], seen) == Shift(1, ItemsEnd(chars[j + 1..], true))
    ensures seen && chars[j] == ',' ==> ItemsEnd(chars[j..], seen) == Shift(1, ItemsEnd(chars[j + 1..], false))
    ensures seen && chars[j] == ')' ==> ItemsEnd(chars[j..], seen) == Some(1)
    ensures (if seen then chars[j] != ',' && chars[j] != ')' else chars[j] != '?') ==>
            ItemsEnd(chars[j..], seen) == None
  {
    assert chars[j..][1..] == chars[j + 1..];
  }

  /** One round of the list loop: an item and what follows it. */
  method MatchItem(chars: string, from: nat) returns (matched: bool, done: bool, k: nat)
    requires from <= |chars|
    ensures from < k <= |chars| || !matched
    ensures !matched ==> done && ItemsEnd(chars[from..], false) == None
    ensures matched && done ==> ItemsEnd(chars[from..], false) == Some(k - from)
    ensures matched && !done ==> ItemsEnd(chars[from..], false) == Shift(k - from, ItemsEnd(chars[k..], false))
  {
    hide ItemsEnd;
    k := SkipBlanks(chars, from);
    NoItems(chars, k, false);
    if k < |chars| { AfterItem(chars, k, false); }
    if k < |chars| && chars[k] == '?' {
      k := SkipBlanks(chars, k + 1);
      NoItems(chars, k, true);
      if k < |chars| { AfterItem(chars, k, true); }
      if k < |chars| && chars[k] == ',' {
        return true, false, k + 1;
      } else if k < |chars| && chars[k] == ')' {
        return true, true, k + 1;
      }
    }
    matched, done := false, true;
  }

  lemma NoItems(chars: string, k: nat, seen: bool)
    requires k <= |chars|
    ensures k == |chars| ==> ItemsEnd(chars[k..], seen) == None
  {
  }

  method MatchItems(chars: string, from: nat) returns (matched: bool, k: nat)
    requires from <= |chars|
    ensures matched <==> ItemsEnd(chars[from..], false).Some?
    ensures matched ==> k == from + ItemsEnd(chars[from..], false).value
  {
    hide ItemsEnd;
    k, matched := from, true;
    var done := false;
    while !done
      invariant from <= k <= |chars| || !matched
      invariant !done ==> matched && ItemsEnd(chars[from..], false) == Shift(k - from, ItemsEnd(chars[k..], false))
      invariant done && matched ==> ItemsEnd(chars[from..], false) == Some(k - from)
      invariant done && !matched ==> ItemsEnd(chars[from..], false) == None
      decreases !done, |chars| - k
    {
      matched, done, k := MatchItem(chars, k);
    }
  }

  /** Whether a list stands at `i`, and where it ends. */
  method MatchIn(chars: string, i: nat, word: bool) returns (matched: bool, k: nat)
    requires i < |chars|
    ensures matched <==> InEnd(chars[i..], word).Some?
    ensures matched ==> k == i + InEnd(chars[i..], word).value
  {
    matched, k := false, 0;
    var isIn := (chars[i] == 'i' || chars[i] == 'I')
      && i + 1 < |chars| && (chars[i + 1] == 'n' || chars[i + 1] == 'N') && !word;
    if isIn {
      assert chars[i..][2..] == chars[i + 2..];
      var j := SkipBlanks(chars, i + 2);
      if j < |chars| && chars[j] == '(' {
        assert chars[j..][1..] == chars[j + 1..];
        matched, k := MatchItems(chars, j + 1);
      }
    }
  }

  method CollapseInLists(chars: string) returns (out: string)
    ensures out == Collapse(chars, false)
  {
    hide Collapse, InEnd, IsWordChar;
    out := [];
    var i := 0;
    assert chars[0..] == chars;
    CollapseNothing();
    while i < |chars|
      invariant i <= |chars| && out + Collapse(chars[i..], EndsInWord(out)) == Collapse(chars, false)
    {
      var word := out != [] && IsWordChar(out[|out| - 1]);
      var matched, k := MatchIn(chars, i, word);
      InFits(chars[i..], word);
      if matched {
        CollapseList(chars, i, word, k);
        Assoc(out, "in (?)", Collapse(chars[k..], false));
        ListEndsNoWord(out);
        out := out + "in (?)";
        i := k;
        continue;
      }
      CollapseChar(chars, i, word);
      Assoc(out, [chars[i]], Collapse(chars[i + 1..], IsWordChar(chars[i])));
      out := out + [chars[i]];
      i := i + 1;
    }
    assert chars[i..] == [] && out + [] == out;
  }

  lemma CollapseNothing()
    ensures forall word :: Collapse([], word) == []
  {
  }

  lemma ListEndsNoWord(out: string)
    ensures !EndsInWord(out + "in (?)")
  {
  }

  lemma CollapseList(chars: string, i: nat, word: bool, k: nat)
    requires i < |chars| && InEnd(chars[i..], word) == Some(k - i)
    ensures i < k <= |chars| && Collapse(chars[i..], word) == "in (?)" + Collapse(chars[k..], false)
  {
    InFits(chars[i..], word);
    assert chars[i..][k - i..] == chars[k..];
  }

  lemma CollapseChar(chars: string, i: nat, word: bool)
    requires i < |chars| && InEnd(chars[i..], word).None?
    ensures Collapse(chars[i..], word) == [chars[i]] + Collapse(chars[i + 1..], IsWordChar(chars[i]))
  {
    assert chars[i..][1..] == chars[i + 1..];
  }

  method FingerprintSql(sql: string) returns (fingerprint: string)
    ensures fingerprint == Fingerprint(sql)
  {
    var out := ScanAll(sql);
    var collapsed := SqueezeAll(out);
    fingerprint := CollapseInLists(collapsed);
  }
}
