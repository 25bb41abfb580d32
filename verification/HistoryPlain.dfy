/** The fingerprint of a statement without lists, spelled out: its words, literals as question marks, one blank
    between each two. */
module HistoryPlain {
  import opened Common
  import opened Text
  import opened HistoryFingerprint
  import opened HistoryNormalForm
  import opened HistoryShapes

  // ---- Words ----

  /** A word, and the white space behind it. */
  datatype Spaced = Spaced(word: string, gap: string)

  function TextOf(ws: seq<Spaced>): string { if ws == [] then [] else ws[0].word + (ws[0].gap + TextOf(ws[1..])) }

  predicate Solid(s: string) { s != [] && forall i | 0 <= i < |s| :: !IsWhitespace(s[i]) }

  /** White space parts each two words. */
  predicate Parted(ws: seq<Spaced>) {
    ws != [] ==> Solid(ws[0].word) && AllWhite(ws[0].gap) && (|ws| > 1 ==> ws[0].gap != []) && Parted(ws[1..])
  }

  /** The words with one blank between each two. */
  function Joined(ws: seq<Spaced>): string {
    if ws == [] then [] else if |ws| == 1 then ws[0].word else ws[0].word + (" " + Joined(ws[1..]))
  }

  lemma SkipWhite(gap: string, s: string, started: bool, pending: bool)
    requires AllWhite(gap)
    ensures Squeeze(gap + s, started, pending) == Squeeze(s, started, pending || gap != [])
  {
    if gap == [] { assert gap + s == s; } else { SqueezeWhite(gap, s, started, pending); }
  }

  lemma {:induction false} KeepWord(word: string, s: string, started: bool, pending: bool)
    requires Solid(word)
    ensures Squeeze(word + s, started, pending) ==
            (if pending && started then " " else "") + (word + Squeeze(s, true, false))
  {
    hide Squeeze;
    assert word + s != [] && (word + s)[0] == word[0] && (word + s)[1..] == word[1..] + s;
    SqueezeCopy(word + s, started, pending);
    if |word| > 1 {
      KeepWord(word[1..], s, true, false);
      assert [word[0]] + (word[1..] + Squeeze(s, true, false)) == word + Squeeze(s, true, false);
      assert "" + (word[1..] + Squeeze(s, true, false)) == word[1..] + Squeeze(s, true, false);
    } else {
      assert word[1..] + s == s && [word[0]] == word;
    }
  }

  lemma Ended(pending: bool, started: bool)
    ensures Squeeze([], started, pending) == []
  {
  }

  lemma {:induction false} SqueezeJoins(ws: seq<Spaced>, started: bool, pending: bool)
    requires Parted(ws)
    ensures Squeeze(TextOf(ws), started, pending) ==
            (if pending && started && ws != [] then " " else "") + Joined(ws)
    decreases |ws|
  {
    hide Squeeze, AllWhite, Solid;
    if ws == [] {
      Ended(pending, started);
    } else {
      var w, rest := ws[0], TextOf(ws[1..]);
      KeepWord(w.word, w.gap + rest, started, pending);
      SkipWhite(w.gap, rest, true, false);
      SqueezeJoins(ws[1..], true, w.gap != []);
      assert |ws| == 1 ==> Joined(ws[1..]) == [] && "" + Joined(ws[1..]) == [] && w.word + [] == w.word;
    }
  }

  /** Every text is its words, behind white space. */
  lemma {:induction false} WordsLex(s: string) returns (lead: string, ws: seq<Spaced>)
    ensures AllWhite(lead) && Parted(ws) && s == lead + TextOf(ws)
    decreases |s|
  {
    if s == [] {
      lead, ws := [], [];
    } else {
      lead, ws := WordsLex(s[1..]);
      assert s == [s[0]] + s[1..];
      if IsWhitespace(s[0]) {
        lead := [s[0]] + lead;
      } else if lead == [] && ws != [] {
        var w := Spaced([s[0]] + ws[0].word, ws[0].gap);
        assert TextOf(ws) == ws[0].word + (ws[0].gap + TextOf(ws[1..]));
        assert ([w] + ws[1..])[1..] == ws[1..];
        ws := [w] + ws[1..];
        lead := [];
      } else {
        var w := Spaced([s[0]], lead);
        assert ([w] + ws)[1..] == ws;
        ws := [w] + ws;
        lead := [];
      }
    }
  }

  // ---- Lists ----

  /** A list of literals may begin at `i`: the word "in" in any letter case, white space, a parenthesis, white space
      and a question mark. */
  predicate ListBegins(s: string, i: int, j: int, k: int) {
    && 0 <= i && i + 2 <= j < k < |s|
    && (s[i] == 'i' || s[i] == 'I') && (s[i + 1] == 'n' || s[i + 1] == 'N') && (i > 0 ==> !IsWordChar(s[i - 1]))
    && AllWhite(s[i + 2..j]) && s[j] == '(' && AllWhite(s[j + 1..k]) && s[k] == '?'
  }

  lemma {:induction false} ItemsBegin(s: string) returns (k: nat)
    requires ItemsEnd(s, false).Some?
    ensures k < |s| && AllWhite(s[..k]) && s[k] == '?'
  {
    if IsWhitespace(s[0]) {
      k := ItemsBegin(s[1..]);
      assert s[..k + 1] == [s[0]] + s[1..][..k];
      k := k + 1;
    } else {
      k := 0;
    }
  }

  lemma {:induction false} ListOpens(s: string) returns (j: nat, k: nat)
    requires ListEnd(s).Some?
    ensures j < k < |s| && AllWhite(s[..j]) && s[j] == '(' && AllWhite(s[j + 1..k]) && s[k] == '?'
  {
    if IsWhitespace(s[0]) {
      j, k := ListOpens(s[1..]);
      assert s[..j + 1] == [s[0]] + s[1..][..j];
      SliceSlice(s, 1, j + 1, k);
      j, k := j + 1, k + 1;
    } else {
      var m := ItemsBegin(s[1..]);
      assert s[1..m + 1] == s[1..][..m];
      j, k := 0, m + 1;
    }
  }

  lemma InBegins(s: string, i: nat) returns (j: nat, k: nat)
    requires i < |s| && InEnd(s[i..], i > 0 && IsWordChar(s[i - 1])).Some?
    ensures ListBegins(s, i, j, k)
  {
    var t := s[i..];
    assert t[2..] == s[i + 2..];
    j, k := ListOpens(t[2..]);
    var u := t[2..];
    assert u[..j] == s[i + 2..i + 2 + j] && u[j + 1..k] == s[i + 2 + j + 1..i + 2 + k];
    j, k := i + 2 + j, i + 2 + k;
  }

  lemma {:induction false} NothingCollapses(s: string, i: nat)
    requires i <= |s| && forall a, b, c :: !ListBegins(s, a, b, c)
    ensures Collapse(s[i..], i > 0 && IsWordChar(s[i - 1])) == s[i..]
    decreases |s| - i
  {
    if i < |s| {
      var word := i > 0 && IsWordChar(s[i - 1]);
      if InEnd(s[i..], word).Some? { var j, k := InBegins(s, i); }
      hide ListBegins, Collapse, InEnd;
      CollapseCopy(s[i..], word);
      NothingCollapses(s, i + 1);
      assert s[i..][1..] == s[i + 1..] && s[i..] == [s[i]] + s[i + 1..];
    }
  }

  // ---- The fingerprint ----

  /** Without a list, the fingerprint is the words of what the scanner leaves, with one blank between each two. */
  lemma PlainFingerprint(ps: seq<Piece>, lead: string, ws: seq<Spaced>)
    requires AllRead(ps, false) && AllWhite(lead) && Parted(ws) && Shape(ps) == lead + TextOf(ws)
    requires forall a, b, c :: !ListBegins(Joined(ws), a, b, c)
    ensures Fingerprint(Render(ps)) == Joined(ws)
  {
    hide Squeeze, Collapse, ListBegins, AllRead;
    FingerprintOfPieces(ps);
    SkipWhite(lead, TextOf(ws), false, false);
    SqueezeJoins(ws, false, lead != []);
    assert "" + Joined(ws) == Joined(ws);
    NothingCollapses(Joined(ws), 0);
    assert Joined(ws)[0..] == Joined(ws);
  }
}
