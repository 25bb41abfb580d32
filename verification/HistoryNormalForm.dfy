/** A fingerprint is a normal form: fingerprinting it again changes nothing. */
module HistoryNormalForm {
  import opened Common
  import opened Text
  import opened HistoryFingerprint

  /** The scanner copies every character. */
  ghost predicate Settled(s: string, word: bool) {
    s == [] || (Region(s, word) == 0 && Lower(s[0]) == s[0] && Settled(s[1..], IsWordChar(s[0])))
  }

  lemma {:induction false} SettledStays(s: string, word: bool)
    requires Settled(s, word)
    ensures Raw(s, word) == s
  {
    if s != [] { SettledStays(s[1..], IsWordChar(s[0])); }
  }

  lemma {:induction false} SettledTail(s: string, word: bool, n: nat)
    requires Settled(s, word) && 0 < n <= |s|
    ensures Settled(s[n..], IsWordChar(s[n - 1]))
    decreases n
  {
    if n > 1 { SettledTail(s[1..], IsWordChar(s[0]), n - 1); }
  }

  predicate Opens(c: char) { c == '/' || c == '-' || IsQuote(c) || IsDigit(c) }

  lemma SettledCons(c: char, s: string, word: bool)
    requires !Opens(c) && Lower(c) == c && Settled(s, IsWordChar(c))
    ensures Settled([c] + s, word)
  {
    assert ([c] + s)[1..] == s;
  }

  // ---- What is not closed ----

  lemma {:induction false} BlockEndSuffix(s: string, n: nat)
    requires BlockEnd(s).None? && n <= |s|
    ensures BlockEnd(s[n..]).None?
    decreases n
  {
    if n > 0 && |s| >= 2 { BlockEndSuffix(s[1..], n - 1); }
  }

  lemma {:induction false} BlockEndAfter(p: string, rest: string)
    requires '*' !in p && BlockEnd(rest).None?
    ensures BlockEnd(p + rest).None?
  {
    if p == [] {
      assert p + rest == rest;
    } else {
      assert (p + rest)[1..] == p[1..] + rest;
      BlockEndAfter(p[1..], rest);
    }
  }

  lemma {:induction false} QuoteEndAfter(p: string, rest: string, q: char)
    requires '\\' !in p && q !in p
    ensures QuoteEnd(p + rest, q) == Shift(|p|, QuoteEnd(rest, q))
  {
    if p == [] {
      assert p + rest == rest;
    } else {
      assert (p + rest)[1..] == p[1..] + rest;
      QuoteEndAfter(p[1..], rest, q);
    }
  }

  /** The first characters of a number that does not stand alone decide that it does not. */
  lemma NumberPrefix(s: string, x: string)
    requires s != [] && IsDigit(s[0]) && !StandsAlone(s)
    requires |x| > NumberLen(s) && x[..NumberLen(s)] == s[..NumberLen(s)]
    requires IsWordChar(x[NumberLen(s)]) && !IsDigit(x[NumberLen(s)])
    ensures !StandsAlone(x)
  {
    var n := NumberLen(s);
    var d := DigitRun(s);
    DigitsFit(s);
    if d < n {
      DigitsFit(s[d + 1..]);
      forall i | 0 <= i < n ensures x[i] == s[i] { assert x[i] == x[..n][i]; }
      DigitsAre(x, d);
      DigitsAre(x[d + 1..], n - d - 1);
    } else {
      forall i | 0 <= i < n ensures x[i] == s[i] { assert x[i] == x[..n][i]; }
      DigitsAre(x, d);
    }
  }

  lemma {:induction false} DigitsAre(s: string, d: nat)
    requires d < |s| && (forall i | 0 <= i < d :: IsDigit(s[i])) && !IsDigit(s[d])
    ensures DigitRun(s) == d
  {
    if d > 0 { DigitsAre(s[1..], d - 1); }
  }

  /** The character after a number that does not stand alone is a letter or `_`. */
  lemma NumberStops(s: string)
    requires s != [] && IsDigit(s[0]) && !StandsAlone(s)
    ensures !IsDigit(s[NumberLen(s)]) && s[NumberLen(s)] != '.'
    ensures forall i | 0 <= i < NumberLen(s) :: IsDigit(s[i]) || s[i] == '.'
  {
    var d := DigitRun(s);
    DigitsFit(s);
    if d < NumberLen(s) { DigitsFit(s[d + 1..]); }
  }

  // ---- The scan settles ----

  lemma RawFirst(s: string, word: bool, c: char)
    requires s != [] && (c == '*' || c == '/' || c == '-')
    ensures Raw(s, word) != []
    ensures Raw(s, word)[0] == c ==> s[0] == c && Raw(s, word) == [c] + Raw(s[1..], IsWordChar(c))
  {
  }

  lemma {:induction false} RawBlock(s: string, word: bool)
    requires BlockEnd(s).None?
    ensures BlockEnd(Raw(s, word)).None?
    decreases |s|
  {
    if s != [] {
      var n := Region(s, word);
      if n > 0 {
        BlockEndSuffix(s, n);
        RawBlock(s[n..], false);
        BlockEndAfter([Mark(s[0])], Raw(s[n..], false));
      } else {
        BlockEndSuffix(s, 1);
        RawBlock(s[1..], IsWordChar(s[0]));
        var rest := Raw(s[1..], IsWordChar(s[0]));
        assert ([Lower(s[0])] + rest)[1..] == rest;
        if |s| > 1 { RawFirst(s[1..], IsWordChar(s[0]), '/'); }
      }
    }
  }

  lemma {:induction false} BlockExit(s: string, q: char)
    requires IsQuote(q) && BlockEnd(s).Some? && QuoteEnd(s, q).None?
    ensures BlockEnd(s).value <= |s| && QuoteEnd(s[BlockEnd(s).value..], q).None?
    decreases |s|
  {
    BlockEndFits(s);
    if s[0] == '*' && s[1] == '/' {
      assert QuoteEnd(s[1..], q).None? && s[1..][1..] == s[2..];
    } else if s[0] == '\\' {
      assert s[1..][1..] == s[2..];
      if s[1] == '*' && |s| > 2 && s[2] == '/' {
        assert s[2..][1..] == s[3..] && BlockEnd(s[1..]) == Some(2);
      } else {
        BlockExit(s[2..], q);
        assert s[2..][BlockEnd(s[2..]).value..] == s[BlockEnd(s).value..];
      }
    } else {
      BlockExit(s[1..], q);
      assert s[1..][BlockEnd(s[1..]).value..] == s[BlockEnd(s).value..];
    }
  }

  lemma {:induction false} LineExit(s: string, q: char)
    requires IsQuote(q) && QuoteEnd(s, q).None?
    ensures LineLength(s) <= |s| && QuoteEnd(s[LineLength(s)..], q).None?
    decreases |s|
  {
    LineFits(s);
    if s == [] || s[0] == '\n' {
    } else if s[0] == '\\' {
      if |s| > 1 && s[1] != '\n' {
        assert s[1..][1..] == s[2..];
        LineExit(s[2..], q);
        assert s[2..][LineLength(s[2..])..] == s[LineLength(s)..];
      } else if |s| > 1 {
        assert s[1..][1..] == s[2..];
      }
    } else {
      LineExit(s[1..], q);
      assert s[1..][LineLength(s[1..])..] == s[LineLength(s)..];
    }
  }

  lemma {:induction false} QuoteExit(s: string, d: char, q: char)
    requires IsQuote(d) && IsQuote(q) && QuoteEnd(s, d).Some? && QuoteEnd(s, q).None?
    ensures QuoteEnd(s, d).value <= |s| && QuoteEnd(s[QuoteEnd(s, d).value..], q).None?
    decreases |s|
  {
    QuoteFits(s, d);
    if s[0] == '\\' {
      QuoteExit(s[2..], d, q);
      assert s[2..][QuoteEnd(s[2..], d).value..] == s[QuoteEnd(s, d).value..];
    } else if s[0] != d {
      QuoteExit(s[1..], d, q);
      assert s[1..][QuoteEnd(s[1..], d).value..] == s[QuoteEnd(s, d).value..];
    }
  }

  /** A quote that is open before a region is open after it: the escapes inside do not reach out. */
  lemma RegionExit(s: string, word: bool, q: char)
    requires s != [] && Region(s, word) > 0 && IsQuote(q) && QuoteEnd(s[1..], q).None?
    ensures QuoteEnd(s[Region(s, word)..], q).None?
  {
    var n := Region(s, word);
    if s[0] == '/' {
      assert s[1..][1..] == s[2..];
      BlockExit(s[2..], q);
      assert s[2..][n - 2..] == s[n..];
    } else if s[0] == '-' {
      assert s[1..][1..] == s[2..];
      LineExit(s[2..], q);
      assert s[2..][n - 2..] == s[n..];
    } else if IsQuote(s[0]) {
      QuoteExit(s[1..], s[0], q);
      assert s[1..][n - 1..] == s[n..];
    } else {
      NumberChars(s);
      Plainly(s[1..n], q);
      assert s[..n] == [s[0]] + s[1..n] && s[1..] == s[1..n] + s[n..];
      QuoteEndAfter(s[1..n], s[n..], q);
    }
  }

  lemma NumberChars(s: string)
    ensures forall i | 0 <= i < NumberLen(s) :: IsDigit(s[i]) || s[i] == '.'
  {
    DigitsFit(s);
    var d := DigitRun(s);
    if d < NumberLen(s) { DigitsFit(s[d + 1..]); }
  }

  lemma Plainly(p: string, q: char)
    requires IsQuote(q) && forall i | 0 <= i < |p| :: IsDigit(p[i]) || p[i] == '.'
    ensures '\\' !in p && q !in p
  {
  }

  lemma {:induction false} RawQuote(s: string, word: bool, q: char)
    requires IsQuote(q) && QuoteEnd(s, q).None?
    ensures QuoteEnd(Raw(s, word), q).None?
    decreases |s|
  {
    if s != [] {
      var n := Region(s, word);
      if n > 0 {
        RegionExit(s, word, q);
        RawQuote(s[n..], false, q);
        QuoteEndAfter([Mark(s[0])], Raw(s[n..], false), q);
      } else if s[0] == '\\' {
        RawEscaped(s, q);
      } else {
        RawQuote(s[1..], IsWordChar(s[0]), q);
        QuoteEndAfter([Lower(s[0])], Raw(s[1..], IsWordChar(s[0])), q);
      }
    }
  }

  lemma {:induction false} RawEscaped(s: string, q: char)
    requires IsQuote(q) && s != [] && s[0] == '\\' && QuoteEnd(s, q).None?
    ensures QuoteEnd(['\\'] + Raw(s[1..], false), q).None?
    decreases |s|, 0
  {
    var rest := Raw(s[1..], false);
    if |s| > 1 {
      assert (['\\'] + rest)[2..] == rest[1..];
      assert s[1..][1..] == s[2..];
      var n := Region(s[1..], false);
      if n > 0 {
        RegionExit(s[1..], false, q);
        RawQuote(s[1..][n..], false, q);
      } else {
        RawQuote(s[2..], IsWordChar(s[1]), q);
      }
    }
  }

  lemma RawCopy(s: string, word: bool)
    requires s != [] && Region(s, word) == 0
    ensures Raw(s, word) == [Lower(s[0])] + Raw(s[1..], IsWordChar(s[0]))
  {
  }

  lemma DigitsStep(s: string)
    requires s != [] && IsDigit(s[0])
    ensures Lower(s[0]) == s[0] && IsWordChar(s[0]) && DigitRun(s) == 1 + DigitRun(s[1..])
  {
  }

  lemma RegionOfDigit(s: string, word: bool)
    requires s != [] && IsDigit(s[0]) && (word || !StandsAlone(s))
    ensures Region(s, word) == 0
  {
  }

  /** DigitRun after a word character are copied, one by one. */
  lemma {:induction false} RawDigits(s: string)
    ensures DigitRun(s) <= |s| && Raw(s, true) == s[..DigitRun(s)] + Raw(s[DigitRun(s)..], true)
  {
    hide Raw, Region, DigitRun, IsWordChar, Lower;
    DigitsFit(s);
    if DigitRun(s) > 0 {
      DigitsStep(s);
      RegionOfDigit(s, true);
      RawCopy(s, true);
      RawDigits(s[1..]);
      FrontOne(s, DigitRun(s), Raw(s[DigitRun(s)..], true));
    } else {
      assert s[0..] == s && s[..0] == "";
    }
  }

  lemma FrontOne(s: string, d: nat, rest: string)
    requires 0 < d <= |s|
    ensures [s[0]] + (s[1..][..d - 1] + rest) == s[..d] + rest && s[1..][d - 1..] == s[d..]
  {
  }

  lemma RawRun(s: string)
    requires s != [] && IsDigit(s[0]) && !StandsAlone(s)
    ensures DigitRun(s) <= |s| && Raw(s, false) == s[..DigitRun(s)] + Raw(s[DigitRun(s)..], true)
  {
    hide Raw, Region, DigitRun, IsWordChar, Lower, StandsAlone;
    DigitsFit(s);
    DigitsStep(s);
    RegionOfDigit(s, false);
    RawCopy(s, false);
    RawDigits(s[1..]);
    FrontOne(s, DigitRun(s), Raw(s[DigitRun(s)..], true));
  }

  /** A decimal tail, seen by itself. */
  lemma TailOf(s: string)
    requires s != [] && IsDigit(s[0]) && !StandsAlone(s) && DigitRun(s) < NumberLen(s)
    ensures DigitRun(s) + 1 < NumberLen(s) < |s| && s[DigitRun(s)] == '.'
    ensures var tail := s[DigitRun(s) + 1..];
            && IsDigit(tail[0]) && DigitRun(tail) == NumberLen(s) - DigitRun(s) - 1 && !StandsAlone(tail)
  {
    var d, n := DigitRun(s), NumberLen(s);
    NumberStops(s);
    DigitsFit(s);
    DigitsFit(s[d + 1..]);
    assert s[d + 1..][n - d - 1] == s[n];
  }

  lemma RawOfPoint(s: string, word: bool)
    requires s != [] && s[0] == '.'
    ensures Raw(s, word) == ['.'] + Raw(s[1..], false)
  {
  }

  lemma RawOfLetter(s: string)
    requires s != [] && IsWordChar(s[0])
    ensures Raw(s, true) == [Lower(s[0])] + Raw(s[1..], true)
  {
  }

  lemma NumberIsDigits(s: string)
    requires !StandsAlone(s)
    ensures NumberLen(s) < |s| && IsWordChar(s[NumberLen(s)])
  {
  }

  lemma NumberHoldsDigits(s: string)
    ensures DigitRun(s) <= NumberLen(s)
  {
  }

  lemma RawThrough(s: string)
    requires s != [] && IsDigit(s[0]) && !StandsAlone(s)
    ensures NumberLen(s) < |s| && Raw(s, false) == s[..NumberLen(s)] + Raw(s[NumberLen(s)..], true)
  {
    hide *;
    var d, n := DigitRun(s), NumberLen(s);
    NumberHoldsDigits(s);
    NumberIsDigits(s);
    if d < n {
      TailOf(s);
      RawThroughPoint(s, d, n);
    } else {
      RawRun(s);
    }
  }

  lemma RawThroughPoint(s: string, d: nat, n: nat)
    requires s != [] && IsDigit(s[0]) && !StandsAlone(s) && d == DigitRun(s) && d + 1 < n < |s| && s[d] == '.'
    requires IsDigit(s[d + 1..][0]) && DigitRun(s[d + 1..]) == n - d - 1 && !StandsAlone(s[d + 1..])
    ensures Raw(s, false) == s[..n] + Raw(s[n..], true)
  {
    hide Raw, Region, DigitRun, NumberLen, IsWordChar, Lower, StandsAlone, IsDigit;
    RawRun(s);
    RawOfPoint(s[d..], true);
    RawRun(s[d + 1..]);
    Joined(s, d, n, Raw(s[n..], true));
  }

  /** A number that does not stand alone is copied with the character after it. */
  lemma RawNumber(s: string)
    requires s != [] && IsDigit(s[0]) && !StandsAlone(s)
    ensures NumberLen(s) < |s|
    ensures var n := NumberLen(s); Raw(s, false) == s[..n] + [Lower(s[n])] + Raw(s[n + 1..], true)
  {
    var n := NumberLen(s);
    hide Raw, Region, NumberLen, IsWordChar, Lower, StandsAlone, IsDigit;
    NumberIsDigits(s);
    RawThrough(s);
    RawOfLetter(s[n..]);
    assert s[n..][1..] == s[n + 1..];
    Common.Assoc(s[..n], [Lower(s[n])], Raw(s[n + 1..], true));
  }

  lemma Joined(s: string, d: nat, n: nat, rest: string)
    requires d < n <= |s| && s[d] == '.'
    ensures s[d..][1..] == s[d + 1..] && s[d + 1..][n - d - 1..] == s[n..]
    ensures s[..d] + (['.'] + (s[d + 1..][..n - d - 1] + rest)) == s[..n] + rest
  {
  }

  lemma CopiesSlash(s: string, word: bool)
    requires s != [] && s[0] == '/' && Region(s, word) == 0
    ensures Region(['/'] + Raw(s[1..], false), word) == 0
  {
    var rest := Raw(s[1..], false);
    var r := ['/'] + rest;
    SlashRegion(s, word);
    SlashRegion(r, word);
    hide Region, BlockEnd;
    if |s| > 1 {
      RawFirst(s[1..], false, '*');
      hide Raw;
      if rest[0] == '*' {
        assert s[1..][1..] == s[2..];
        RawBlock(s[2..], false);
        assert r[2..] == Raw(s[2..], false);
      }
    }
  }

  lemma SlashRegion(s: string, word: bool)
    requires s != [] && s[0] == '/'
    ensures Region(s, word) == 0 <==> |s| == 1 || s[1] != '*' || BlockEnd(s[2..]).None?
  {
  }

  lemma CopiesDash(s: string, word: bool)
    requires s != [] && s[0] == '-' && Region(s, word) == 0
    ensures Region(['-'] + Raw(s[1..], false), word) == 0
  {
    if |s| > 1 { RawFirst(s[1..], false, '-'); }
  }

  lemma CopiesQuote(s: string, word: bool)
    requires s != [] && IsQuote(s[0]) && Region(s, word) == 0
    ensures Region([s[0]] + Raw(s[1..], false), word) == 0
  {
    RawQuote(s[1..], false, s[0]);
    assert ([s[0]] + Raw(s[1..], false))[1..] == Raw(s[1..], false);
  }

  lemma CopiesDigit(s: string, r: string, word: bool)
    requires s != [] && IsDigit(s[0]) && Region(s, word) == 0 && r == Raw(s, word)
    ensures r != [] && Region(r, word) == 0
  {
    if word {
      RawCopy(s, word);
    } else {
      NumberLost(s);
      RawNumber(s);
      NumberStops(s);
      var n := NumberLen(s);
      hide Raw, Region, NumberLen, StandsAlone;
      assert r[n] == Lower(s[n]) && r[..n] == s[..n];
      NumberPrefix(s, r);
      assert r[0] == r[..n][0] == s[0];
      RegionOfDigit(r, word);
    }
  }

  lemma NumberLost(s: string)
    requires s != [] && IsDigit(s[0]) && Region(s, false) == 0
    ensures !StandsAlone(s) && NumberLen(s) > 0
  {
  }

  lemma RegionOfOther(s: string, word: bool)
    requires s != [] && !Opens(s[0])
    ensures Region(s, word) == 0
  {
  }

  lemma RawCopies(s: string, word: bool)
    requires s != [] && Region(s, word) == 0
    ensures Raw(s, word) != [] && Region(Raw(s, word), word) == 0
  {
    RawCopy(s, word);
    hide Raw, Region;
    if s[0] == '/' {
      CopiesSlash(s, word);
    } else if s[0] == '-' {
      CopiesDash(s, word);
    } else if IsQuote(s[0]) {
      CopiesQuote(s, word);
    } else if IsDigit(s[0]) {
      CopiesDigit(s, Raw(s, word), word);
    } else {
      RegionOfOther(Raw(s, word), word);
    }
  }

  /** The scan leaves nothing that a second scan would take. */
  lemma {:induction false} RawSettles(s: string, word: bool)
    ensures Settled(Raw(s, word), word)
    decreases |s|
  {
    if s != [] {
      var n := Region(s, word);
      if n > 0 {
        RawSettles(s[n..], false);
        SettledCons(Mark(s[0]), Raw(s[n..], false), word);
      } else {
        var rest := Raw(s[1..], IsWordChar(s[0]));
        RawSettles(s[1..], IsWordChar(s[0]));
        assert ([Lower(s[0])] + rest)[1..] == rest;
        RawCopies(s, word);
      }
    }
  }

  // ---- White space ----

  lemma {:induction false} SqueezeLate(s: string, p: bool)
    ensures Squeeze(s, false, p) == Squeeze(s, false, false)
    ensures Squeeze(s, true, true) == if Squeeze(s, false, false) == [] then [] else " " + Squeeze(s, false, false)
  {
    if s != [] && IsWhitespace(s[0]) { SqueezeLate(s[1..], true); }
  }

  lemma SqueezeCopy(s: string, started: bool, pending: bool)
    requires s != [] && !IsWhitespace(s[0])
    ensures Squeeze(s, started, pending)
         == (if pending && started then " " else "") + ([s[0]] + Squeeze(s[1..], true, false))
  {
    Common.Assoc(if pending && started then " " else "", [s[0]], Squeeze(s[1..], true, false));
  }

  lemma SqueezeFirst(s: string, c: char)
    requires !IsWhitespace(c) && Squeeze(s, true, false) != [] && Squeeze(s, true, false)[0] == c
    ensures s != [] && s[0] == c && Squeeze(s, true, false) == [c] + Squeeze(s[1..], true, false)
  {
    SqueezeLate(s[1..], true);
  }

  lemma {:induction false} SqueezeBlock(s: string, started: bool, pending: bool)
    requires BlockEnd(s).None?
    ensures BlockEnd(Squeeze(s, started, pending)).None?
  {
    if s != [] {
      BlockEndSuffix(s, 1);
      if IsWhitespace(s[0]) {
        SqueezeBlock(s[1..], started, true);
      } else {
        SqueezeCopy(s, started, pending);
        SqueezeBlock(s[1..], true, false);
        var rest := Squeeze(s[1..], true, false);
        assert ([s[0]] + rest)[1..] == rest;
        if rest != [] && rest[0] == '/' { SqueezeFirst(s[1..], '/'); }
        assert BlockEnd([s[0]] + rest).None?;
        BlockEndAfter(if pending && started then " " else "", [s[0]] + rest);
      }
    }
  }

  lemma {:induction false} SqueezeQuote(s: string, started: bool, pending: bool, q: char)
    requires IsQuote(q) && QuoteEnd(s, q).None?
    ensures QuoteEnd(Squeeze(s, started, pending), q).None?
    decreases |s|
  {
    if s != [] {
      if IsWhitespace(s[0]) {
        SqueezeQuote(s[1..], started, true, q);
      } else {
        SqueezeCopy(s, started, pending);
        var rest := Squeeze(s[1..], true, false);
        if s[0] == '\\' {
          SqueezeEscaped(s, q);
        } else {
          SqueezeQuote(s[1..], true, false, q);
          QuoteEndAfter([s[0]], rest, q);
        }
        QuoteEndAfter(if pending && started then " " else "", [s[0]] + rest, q);
      }
    }
  }

  lemma {:induction false} SqueezeEscaped(s: string, q: char)
    requires IsQuote(q) && s != [] && s[0] == '\\' && QuoteEnd(s, q).None?
    ensures QuoteEnd(['\\'] + Squeeze(s[1..], true, false), q).None?
    decreases |s|, 0
  {
    var rest := Squeeze(s[1..], true, false);
    if |s| > 1 && rest != [] {
      assert (['\\'] + rest)[2..] == rest[1..];
      assert s[1..][1..] == s[2..];
      if IsWhitespace(s[1]) {
        SqueezeLate(s[2..], false);
        SqueezeQuote(s[2..], false, false, q);
        assert rest[1..] == Squeeze(s[2..], false, false);
      } else {
        SqueezeQuote(s[2..], true, false, q);
        assert rest[1..] == Squeeze(s[2..], true, false);
      }
    }
  }

  lemma {:induction false} SqueezeKeepsFront(s: string, n: nat)
    requires n <= |s| && forall i | 0 <= i < n :: !IsWhitespace(s[i])
    ensures Squeeze(s, true, false) == s[..n] + Squeeze(s[n..], true, false)
    decreases n
  {
    if n > 0 {
      SqueezeKeepsFront(s[1..], n - 1);
      FrontOne(s, n, Squeeze(s[n..], true, false));
      SqueezeCopy(s, true, false);
    } else {
      assert s[0..] == s;
    }
  }

  lemma SqueezeCopiesNumber(s: string)
    requires s != [] && IsDigit(s[0]) && !StandsAlone(s)
    ensures Squeeze(s, true, false) != [] && !StandsAlone(Squeeze(s, true, false))
  {
    var n := NumberLen(s);
    NumberStops(s);
    NumberIsDigits(s);
    SqueezeKeepsFront(s, n + 1);
    var x := Squeeze(s, true, false);
    assert x[..n + 1] == s[..n + 1] && x[..n] == s[..n] && x[n] == s[n];
    NumberPrefix(s, x);
  }

  lemma SqueezeCopiesSlash(s: string, word: bool)
    requires s != [] && s[0] == '/' && Region(s, word) == 0
    ensures Region(['/'] + Squeeze(s[1..], true, false), word) == 0
  {
    var rest := Squeeze(s[1..], true, false);
    SlashRegion(s, word);
    SlashRegion(['/'] + rest, word);
    hide Region, BlockEnd;
    if rest != [] && rest[0] == '*' {
      SqueezeFirst(s[1..], '*');
      assert s[1..][1..] == s[2..] && (['/'] + rest)[2..] == Squeeze(s[2..], true, false);
      SqueezeBlock(s[2..], true, false);
    }
  }

  lemma SqueezeCopiesDash(s: string, word: bool)
    requires s != [] && s[0] == '-' && Region(s, word) == 0
    ensures Region(['-'] + Squeeze(s[1..], true, false), word) == 0
  {
    var rest := Squeeze(s[1..], true, false);
    if rest != [] && rest[0] == '-' { SqueezeFirst(s[1..], '-'); }
  }

  lemma SqueezeCopiesQuote(s: string, word: bool)
    requires s != [] && IsQuote(s[0]) && Region(s, word) == 0
    ensures Region([s[0]] + Squeeze(s[1..], true, false), word) == 0
  {
    SqueezeQuote(s[1..], true, false, s[0]);
    assert ([s[0]] + Squeeze(s[1..], true, false))[1..] == Squeeze(s[1..], true, false);
  }

  lemma SqueezeCopies(s: string, word: bool)
    requires s != [] && !IsWhitespace(s[0]) && Region(s, word) == 0
    ensures Region([s[0]] + Squeeze(s[1..], true, false), word) == 0
  {
    var x := [s[0]] + Squeeze(s[1..], true, false);
    if IsDigit(s[0]) {
      if !word {
        NumberLost(s);
        SqueezeCopiesNumber(s);
        SqueezeCopy(s, true, false);
        assert "" + x == x;
      }
      hide Region, Squeeze, StandsAlone;
      RegionOfDigit(x, word);
    } else {
      hide Region, Squeeze;
      if s[0] == '/' {
        SqueezeCopiesSlash(s, word);
      } else if s[0] == '-' {
        SqueezeCopiesDash(s, word);
      } else if IsQuote(s[0]) {
        SqueezeCopiesQuote(s, word);
      } else {
        RegionOfOther(x, word);
      }
    }
  }

  lemma SettledParts(s: string, word: bool)
    requires s != []
    ensures Settled(s, word) <==> Region(s, word) == 0 && Lower(s[0]) == s[0] && Settled(s[1..], IsWordChar(s[0]))
  {
  }

  lemma SettledPush(s: string, rest: string, word: bool, started: bool, pending: bool, last: bool)
    requires s != [] && !IsWhitespace(s[0]) && Settled(s, word) && Settled(rest, IsWordChar(s[0]))
    requires rest == Squeeze(s[1..], true, false)
    requires (pending ==> !word) && (last == word || (started && pending))
    ensures Settled((if pending && started then " " else "") + ([s[0]] + rest), last)
  {
    var x := [s[0]] + rest;
    SettledParts(s, word);
    SqueezeCopies(s, word);
    hide Region, Squeeze, Settled;
    assert x[1..] == rest;
    SettledParts(x, word);
    if pending && started { SettledCons(' ', x, last); } else { assert "" + x == x; }
  }

  /** Squeezing white space opens nothing. */
  lemma {:induction false} SqueezeSettled(s: string, word: bool, started: bool, pending: bool, last: bool)
    requires Settled(s, word) && (pending || !started ==> !word) && (last == word || (started && pending))
    ensures Settled(Squeeze(s, started, pending), last)
  {
    if s == [] {
      NothingSettled(last);
    } else {
      SettledParts(s, word);
      hide Region, Squeeze, Settled, IsWordChar, IsWhitespace;
      if IsWhitespace(s[0]) {
        SqueezeBlank(s, started, pending);
        SqueezeSettled(s[1..], false, started, true, started && last);
      } else {
        SqueezeSettled(s[1..], IsWordChar(s[0]), true, false, IsWordChar(s[0]));
        SqueezeCopy(s, started, pending);
        SettledPush(s, Squeeze(s[1..], true, false), word, started, pending, last);
      }
    }
  }

  lemma NothingSettled(word: bool)
    ensures Settled([], word) && forall started, pending :: Squeeze([], started, pending) == []
  {
  }

  lemma SqueezeBlank(s: string, started: bool, pending: bool)
    requires s != [] && IsWhitespace(s[0])
    ensures Squeeze(s, started, pending) == Squeeze(s[1..], started, true) && !IsWordChar(s[0])
  {
  }

  /** No white space but single blanks; `blank` says that one stands before. */
  predicate Tidy(s: string, blank: bool) {
    if s == [] then !blank
    else if IsWhitespace(s[0]) then s[0] == ' ' && !blank && Tidy(s[1..], true)
    else Tidy(s[1..], false)
  }

  lemma {:induction false} SqueezeTidy(s: string, pending: bool)
    ensures Tidy(Squeeze(s, true, pending), false)
    ensures Squeeze(s, false, pending) == [] || Tidy(Squeeze(s, false, pending), true)
  {
    if s != [] {
      if IsWhitespace(s[0]) {
        SqueezeTidy(s[1..], true);
      } else {
        SqueezeTidy(s[1..], false);
        SqueezeCopy(s, true, pending);
        SqueezeCopy(s, false, pending);
        var x := [s[0]] + Squeeze(s[1..], true, false);
        assert x[1..] == Squeeze(s[1..], true, false);
        assert (" " + x)[1..] == x && "" + x == x;
      }
    }
  }

  lemma {:induction false} TidyStays(s: string)
    ensures Tidy(s, false) ==> Squeeze(s, true, false) == s
    ensures Tidy(s, true) ==>
            Squeeze(s, true, true) == " " + s && Squeeze(s, false, false) == s && Squeeze(s, false, true) == s
  {
    if s != [] {
      TidyStays(s[1..]);
      assert s == [s[0]] + s[1..];
      if !IsWhitespace(s[0]) {
        SqueezeCopy(s, true, false);
        SqueezeCopy(s, true, true);
        SqueezeCopy(s, false, false);
        SqueezeCopy(s, false, true);
        assert "" + s == s;
      }
    }
  }

  lemma {:induction false} TidyTail(s: string, blank: bool, n: nat)
    requires Tidy(s, blank) && 0 < n <= |s| && !IsWhitespace(s[n - 1])
    ensures Tidy(s[n..], false)
    decreases n
  {
    if n > 1 {
      assert s[1..][n - 1..] == s[n..];
      TidyTail(s[1..], IsWhitespace(s[0]), n - 1);
    }
  }

  // ---- Lists ----

  predicate ListChar(c: char) { IsWhitespace(c) || c == '?' || c == '(' || c == ',' || c == ')' }

  lemma {:induction false} ItemsChars(s: string, seen: bool, n: nat)
    requires ItemsEnd(s, seen) == Some(n)
    ensures 0 < n <= |s| && s[n - 1] == ')' && forall i | 0 <= i < n :: ListChar(s[i])
  {
    if IsWhitespace(s[0]) {
      ItemsChars(s[1..], seen, n - 1);
    } else if !seen {
      ItemsChars(s[1..], true, n - 1);
    } else if s[0] == ',' {
      ItemsChars(s[1..], false, n - 1);
    }
  }

  lemma {:induction false} ListChars(s: string, n: nat)
    requires ListEnd(s) == Some(n)
    ensures 0 < n <= |s| && s[n - 1] == ')' && forall i | 0 <= i < n :: ListChar(s[i])
  {
    if IsWhitespace(s[0]) { ListChars(s[1..], n - 1); } else { ItemsChars(s[1..], false, n - 1); }
  }

  lemma InChars(s: string, word: bool, n: nat)
    requires InEnd(s, word) == Some(n)
    ensures 2 < n <= |s| && StartsIn(s) && s[n - 1] == ')' && forall i | 2 <= i < n :: ListChar(s[i])
  {
    ListChars(s[2..], n - 2);
    assert s[2..][n - 3] == s[n - 1];
    forall i | 2 <= i < n ensures ListChar(s[i]) { assert s[2..][i - 2] == s[i]; }
  }

  lemma CollapseCopy(s: string, word: bool)
    requires s != [] && InEnd(s, word).None?
    ensures Collapse(s, word) == [s[0]] + Collapse(s[1..], IsWordChar(s[0]))
  {
  }

  lemma CollapseIn(s: string, word: bool, n: nat)
    requires InEnd(s, word) == Some(n)
    ensures n <= |s| && Collapse(s, word) == "in (?)" + Collapse(s[n..], false)
  {
    InFits(s, word);
  }

  lemma CollapseFirst(s: string, word: bool, c: char)
    requires c != 'i' && Collapse(s, word) != [] && Collapse(s, word)[0] == c
    ensures s != [] && s[0] == c && Collapse(s, word) == [c] + Collapse(s[1..], IsWordChar(c))
  {
  }

  lemma {:induction false} CollapseBlock(s: string, word: bool)
    requires BlockEnd(s).None?
    ensures BlockEnd(Collapse(s, word)).None?
    decreases |s|
  {
    if s != [] {
      hide Collapse, InEnd;
      match InEnd(s, word)
      case Some(n) =>
        CollapseIn(s, word, n);
        InFits(s, word);
        BlockEndSuffix(s, n);
        CollapseBlock(s[n..], false);
        BlockEndAfter("in (?)", Collapse(s[n..], false));
      case None =>
        CollapseCopy(s, word);
        BlockEndSuffix(s, 1);
        CollapseBlock(s[1..], IsWordChar(s[0]));
        var rest := Collapse(s[1..], IsWordChar(s[0]));
        assert ([s[0]] + rest)[1..] == rest;
        if rest != [] && rest[0] == '/' { CollapseFirst(s[1..], IsWordChar(s[0]), '/'); }
    }
  }

  lemma NoQuoteInList(s: string, word: bool, n: nat, q: char)
    requires InEnd(s, word) == Some(n) && IsQuote(q)
    ensures 2 < n <= |s| && '\\' !in s[..n] && q !in s[..n] && '\\' !in s[1..n] && q !in s[1..n]
  {
    InChars(s, word, n);
    forall i | 0 <= i < n ensures s[i] != '\\' && s[i] != q { if i >= 2 { assert ListChar(s[i]); } }
  }

  lemma QuoteStaysOpen(s: string, q: char)
    requires s != [] && s[0] != '\\' && QuoteEnd(s, q).None?
    ensures s[0] != q && QuoteEnd(s[1..], q).None?
  {
  }

  lemma {:induction false} CollapseQuote(s: string, word: bool, q: char)
    requires IsQuote(q) && QuoteEnd(s, q).None?
    ensures QuoteEnd(Collapse(s, word), q).None?
    decreases |s|
  {
    hide Collapse, InEnd, QuoteEnd;
    if s == [] {
      NothingStays();
    } else {
      match InEnd(s, word)
      case Some(n) =>
        CollapseIn(s, word, n);
        NoQuoteInList(s, word, n, q);
        assert s == s[..n] + s[n..];
        QuoteEndAfter(s[..n], s[n..], q);
        CollapseQuote(s[n..], false, q);
        QuoteEndAfter("in (?)", Collapse(s[n..], false), q);
      case None =>
        CollapseCopy(s, word);
        if s[0] == '\\' {
          CollapseEscaped(s, q);
        } else {
          QuoteStaysOpen(s, q);
          CollapseQuote(s[1..], IsWordChar(s[0]), q);
          QuoteEndAfter([s[0]], Collapse(s[1..], IsWordChar(s[0])), q);
        }
    }
  }

  lemma SkipsEscaped(s: string, q: char)
    requires |s| > 1 && s[0] == '\\'
    ensures QuoteEnd(s, q) == Shift(2, QuoteEnd(s[2..], q))
  {
  }

  lemma {:induction false} CollapseEscaped(s: string, q: char)
    requires IsQuote(q) && s != [] && s[0] == '\\' && QuoteEnd(s, q).None?
    ensures QuoteEnd(['\\'] + Collapse(s[1..], false), q).None?
    decreases |s|, 0
  {
    hide Collapse, InEnd;
    if |s| == 1 {
      NothingStays();
      assert s[1..] == [] && ['\\'] + Collapse([], false) == s;
    } else {
      SkipsEscaped(s, q);
      hide QuoteEnd;
      var u := s[1..];
      assert u[1..] == s[2..];
      match InEnd(u, false)
      case Some(n) =>
        NoQuoteInList(u, false, n, q);
        CollapseEscapedList(u, n, q);
      case None =>
        CollapseCopy(u, false);
        CollapseQuote(s[2..], IsWordChar(s[1]), q);
        var x := ['\\'] + Collapse(u, false);
        assert x[2..] == Collapse(s[2..], IsWordChar(s[1]));
        SkipsEscaped(x, q);
    }
  }

  lemma {:induction false} CollapseEscapedList(u: string, n: nat, q: char)
    requires IsQuote(q) && u != [] && QuoteEnd(u[1..], q).None? && InEnd(u, false) == Some(n) && 2 < n <= |u|
    requires '\\' !in u[1..n] && q !in u[1..n]
    ensures QuoteEnd(['\\'] + Collapse(u, false), q).None?
    decreases |u|, 0
  {
    hide Collapse, InEnd, QuoteEnd;
    CollapseIn(u, false, n);
    assert u[1..] == u[1..n] + u[n..];
    QuoteEndAfter(u[1..n], u[n..], q);
    CollapseQuote(u[n..], false, q);
    var x := ['\\'] + Collapse(u, false);
    assert x[2..] == "n (?)" + Collapse(u[n..], false);
    QuoteEndAfter("n (?)", Collapse(u[n..], false), q);
    SkipsEscaped(x, q);
  }

  lemma {:induction false} CollapseKeepsFront(s: string, word: bool, n: nat)
    requires 0 < n <= |s| && forall i | 0 <= i < n :: s[i] != 'i' && s[i] != 'I'
    ensures Collapse(s, word) == s[..n] + Collapse(s[n..], IsWordChar(s[n - 1]))
    decreases n
  {
    assert InEnd(s, word).None?;
    hide Collapse, InEnd;
    CollapseCopy(s, word);
    if n > 1 {
      CollapseKeepsFront(s[1..], IsWordChar(s[0]), n - 1);
      FrontOne(s, n, Collapse(s[n..], IsWordChar(s[n - 1])));
    }
  }

  lemma NumberEnds(s: string)
    requires s != [] && IsDigit(s[0])
    ensures 0 < NumberLen(s) && IsDigit(s[NumberLen(s) - 1])
  {
    DigitsFit(s);
    var d := DigitRun(s);
    if d < NumberLen(s) {
      DigitsFit(s[d + 1..]);
      DigitsStep(s[d + 1..]);
      assert s[d + 1..][NumberLen(s) - d - 2] == s[NumberLen(s) - 1];
    }
  }

  lemma CollapseCopiesNumber(s: string)
    requires s != [] && IsDigit(s[0]) && !StandsAlone(s)
    ensures Collapse(s, false) != [] && !StandsAlone(Collapse(s, false))
  {
    var n := NumberLen(s);
    NumberStops(s);
    NumberIsDigits(s);
    NumberEnds(s);
    CollapseKeepsFront(s, false, n);
    CollapseCopy(s[n..], true);
    var x := Collapse(s, false);
    hide Collapse;
    assert x[..n] == s[..n] && x[n] == s[n];
    NumberPrefix(s, x);
  }

  lemma CollapseCopiesSlash(s: string, word: bool)
    requires s != [] && s[0] == '/' && Region(s, word) == 0
    ensures Region(['/'] + Collapse(s[1..], false), word) == 0
  {
    var rest := Collapse(s[1..], false);
    SlashRegion(s, word);
    SlashRegion(['/'] + rest, word);
    hide Region, BlockEnd;
    if rest != [] && rest[0] == '*' {
      CollapseFirst(s[1..], false, '*');
      assert s[1..][1..] == s[2..] && (['/'] + rest)[2..] == Collapse(s[2..], false);
      CollapseBlock(s[2..], false);
    }
  }

  lemma CollapseCopiesDash(s: string, word: bool)
    requires s != [] && s[0] == '-' && Region(s, word) == 0
    ensures Region(['-'] + Collapse(s[1..], false), word) == 0
  {
    var rest := Collapse(s[1..], false);
    if rest != [] && rest[0] == '-' { CollapseFirst(s[1..], false, '-'); }
  }

  lemma CollapseCopiesQuote(s: string, word: bool)
    requires s != [] && IsQuote(s[0]) && Region(s, word) == 0
    ensures Region([s[0]] + Collapse(s[1..], false), word) == 0
  {
    CollapseQuote(s[1..], false, s[0]);
    assert ([s[0]] + Collapse(s[1..], false))[1..] == Collapse(s[1..], false);
  }

  lemma CollapseCopies(s: string, word: bool)
    requires s != [] && Region(s, word) == 0 && InEnd(s, word).None?
    ensures Region([s[0]] + Collapse(s[1..], IsWordChar(s[0])), word) == 0
  {
    var x := [s[0]] + Collapse(s[1..], IsWordChar(s[0]));
    CollapseCopy(s, word);
    if IsDigit(s[0]) {
      if !word {
        NumberLost(s);
        CollapseCopiesNumber(s);
      }
      hide Region, Collapse, StandsAlone;
      RegionOfDigit(x, word);
    } else {
      hide Region, Collapse;
      if s[0] == '/' {
        CollapseCopiesSlash(s, word);
      } else if s[0] == '-' {
        CollapseCopiesDash(s, word);
      } else if IsQuote(s[0]) {
        CollapseCopiesQuote(s, word);
      } else {
        RegionOfOther(x, word);
      }
    }
  }

  lemma InText(rest: string)
    ensures "in (?)" + rest == ['i'] + (['n'] + ([' '] + (['('] + (['?'] + ([')'] + rest)))))
  {
  }

  lemma SettledIn(rest: string, word: bool)
    requires Settled(rest, false)
    ensures Settled("in (?)" + rest, word)
  {
    hide Settled;
    InText(rest);
    SettledCons(')', rest, false);
    SettledCons('?', [')'] + rest, false);
    SettledCons('(', ['?'] + ([')'] + rest), false);
    SettledCons(' ', ['('] + (['?'] + ([')'] + rest)), true);
    SettledCons('n', [' '] + (['('] + (['?'] + ([')'] + rest))), true);
    SettledCons('i', ['n'] + ([' '] + (['('] + (['?'] + ([')'] + rest)))), word);
  }

  /** Collapsing lists opens nothing. */
  lemma {:induction false} CollapseSettled(s: string, word: bool)
    requires Settled(s, word)
    ensures Settled(Collapse(s, word), word)
    decreases |s|
  {
    if s != [] {
      SettledParts(s, word);
      hide Collapse, InEnd, Region, IsWordChar;
      match InEnd(s, word)
      case Some(n) =>
        CollapseIn(s, word, n);
        InChars(s, word, n);
        SettledTail(s, word, n);
        ClosesWord();
        CollapseSettled(s[n..], false);
        hide Settled;
        SettledIn(Collapse(s[n..], false), word);
      case None =>
        CollapseSettled(s[1..], IsWordChar(s[0]));
        CollapseCopy(s, word);
        CollapseCopies(s, word);
        var x := [s[0]] + Collapse(s[1..], IsWordChar(s[0]));
        hide Settled;
        assert x[1..] == Collapse(s[1..], IsWordChar(s[0]));
        SettledParts(x, word);
    }
  }

  lemma ClosesWord()
    ensures !IsWordChar(')')
  {
  }

  lemma TidyCons(c: char, s: string, blank: bool)
    ensures !IsWhitespace(c) && Tidy(s, false) ==> Tidy([c] + s, blank)
    ensures c == ' ' && !blank && Tidy(s, true) ==> Tidy([c] + s, blank)
  {
    assert ([c] + s)[1..] == s;
  }

  lemma TidyIn(rest: string, blank: bool)
    requires Tidy(rest, false)
    ensures Tidy("in (?)" + rest, blank)
  {
    hide Tidy;
    InText(rest);
    TidyCons(')', rest, false);
    TidyCons('?', [')'] + rest, false);
    TidyCons('(', ['?'] + ([')'] + rest), true);
    TidyCons(' ', ['('] + (['?'] + ([')'] + rest)), false);
    TidyCons('n', [' '] + (['('] + (['?'] + ([')'] + rest))), false);
    TidyCons('i', ['n'] + ([' '] + (['('] + (['?'] + ([')'] + rest)))), blank);
  }

  lemma {:induction false} CollapseTidy(s: string, word: bool, blank: bool)
    requires Tidy(s, blank)
    ensures Tidy(Collapse(s, word), blank)
    decreases |s|
  {
    if s != [] {
      hide Collapse, InEnd;
      match InEnd(s, word)
      case Some(n) =>
        CollapseIn(s, word, n);
        InChars(s, word, n);
        TidyTail(s, blank, n);
        CollapseTidy(s[n..], false, false);
        TidyIn(Collapse(s[n..], false), blank);
      case None =>
        CollapseCopy(s, word);
        CollapseTidy(s[1..], IsWordChar(s[0]), IsWhitespace(s[0]));
        TidyCons(s[0], Collapse(s[1..], IsWordChar(s[0])), blank);
    }
  }

  // ---- Collapsing twice ----

  lemma {:induction false} ItemsStayOpen(s: string, word: bool, seen: bool)
    requires ItemsEnd(s, seen).None?
    ensures ItemsEnd(Collapse(s, word), seen).None?
    decreases |s|
  {
    var x := Collapse(s, word);
    if s != [] && InEnd(s, word).None? {
      CollapseCopy(s, word);
      var rest := Collapse(s[1..], IsWordChar(s[0]));
      hide Collapse, InEnd;
      assert x[1..] == rest;
      if IsWhitespace(s[0]) {
        ItemsStayOpen(s[1..], IsWordChar(s[0]), seen);
      } else if !seen && s[0] == '?' {
        ItemsStayOpen(s[1..], IsWordChar(s[0]), true);
      } else if seen && s[0] == ',' {
        ItemsStayOpen(s[1..], IsWordChar(s[0]), false);
      }
    }
  }

  lemma {:induction false} ListStaysOpen(s: string, word: bool)
    requires ListEnd(s).None?
    ensures ListEnd(Collapse(s, word)).None?
    decreases |s|
  {
    var x := Collapse(s, word);
    if s != [] && InEnd(s, word).None? {
      CollapseCopy(s, word);
      var rest := Collapse(s[1..], IsWordChar(s[0]));
      hide Collapse, InEnd;
      assert x[1..] == rest;
      if IsWhitespace(s[0]) {
        ListStaysOpen(s[1..], IsWordChar(s[0]));
      } else if s[0] == '(' {
        ItemsStayOpen(s[1..], IsWordChar(s[0]), false);
      }
    }
  }

  lemma ShortList(rest: string)
    ensures InEnd("in (?)" + rest, false) == Some(6) && ("in (?)" + rest)[6..] == rest
  {
    var x := "in (?)" + rest;
    assert x[2..] == " (?)" + rest;
    assert (" (?)" + rest)[1..] == "(?)" + rest && ("(?)" + rest)[1..] == "?)" + rest
      && ("?)" + rest)[1..] == ")" + rest;
    assert ItemsEnd(")" + rest, true) == Some(1);
    assert ItemsEnd("?)" + rest, false) == Some(2);
    assert ListEnd("(?)" + rest) == Some(3);
  }

  lemma InStaysOpen(s: string, word: bool)
    requires s != [] && InEnd(s, word).None?
    ensures InEnd([s[0]] + Collapse(s[1..], IsWordChar(s[0])), word).None?
  {
    var rest := Collapse(s[1..], IsWordChar(s[0]));
    var x := [s[0]] + rest;
    if StartsIn(x) && !word {
      NRemains(s);
      assert s[1..][1..] == s[2..] && x[2..] == Collapse(s[2..], true);
      ListStaysOpen(s[2..], true);
    }
  }

  lemma NRemains(s: string)
    requires s != [] && StartsIn([s[0]] + Collapse(s[1..], true))
    ensures StartsIn(s) && Collapse(s[1..], true) == [s[1]] + Collapse(s[1..][1..], true)
  {
    var rest := Collapse(s[1..], true);
    assert ([s[0]] + rest)[1] == rest[0];
    CollapseFirst(s[1..], true, rest[0]);
  }

  lemma {:induction false} CollapseTwice(s: string, word: bool)
    ensures Collapse(Collapse(s, word), word) == Collapse(s, word)
    decreases |s|
  {
    if s != [] {
      hide Collapse, InEnd;
      match InEnd(s, word)
      case Some(n) =>
        CollapseIn(s, word, n);
        InFits(s, word);
        CollapseTwice(s[n..], false);
        InNotInWord(s, word);
        ShortList(Collapse(s[n..], false));
        CollapseIn(Collapse(s, word), false, 6);
      case None =>
        CollapseCopy(s, word);
        var rest := Collapse(s[1..], IsWordChar(s[0]));
        CollapseTwice(s[1..], IsWordChar(s[0]));
        InStaysOpen(s, word);
        CollapseCopy([s[0]] + rest, word);
        assert ([s[0]] + rest)[1..] == rest;
    }
  }

  lemma InNotInWord(s: string, word: bool)
    requires InEnd(s, word).Some?
    ensures !word
  {
  }

  lemma NothingStays()
    ensures Squeeze([], false, false) == [] && forall word :: Collapse([], word) == []
  {
  }

  /** A fingerprint is its own fingerprint. */
  lemma Idempotent(sql: string)
    ensures Fingerprint(Fingerprint(sql)) == Fingerprint(sql)
  {
    hide Raw, Squeeze, Collapse, Settled, Tidy;
    var raw := Raw(sql, false);
    var q := Squeeze(raw, false, false);
    var u := Collapse(q, false);
    RawSettles(sql, false);
    SqueezeSettled(raw, false, false, false, false);
    SqueezeTidy(raw, false);
    CollapseSettled(q, false);
    SettledStays(u, false);
    if q == [] {
      NothingStays();
    } else {
      CollapseTidy(q, false, true);
      TidyStays(u);
    }
    CollapseTwice(q, false);
  }
}
