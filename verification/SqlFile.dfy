/** Line endings in src-tauri/src/sqlfile.rs: detecting them, normalising them, and opening then saving. */
module SqlFile {

  datatype Eol = Lf | Crlf | Cr | Mixed

  /** How many line breaks of each kind a text has. */
  datatype Breaks = Breaks(crlf: nat, lf: nat, cr: nat)

  function Total(b: Breaks): nat { b.crlf + b.lf + b.cr }

  function Plus(a: Breaks, b: Breaks): Breaks { Breaks(a.crlf + b.crlf, a.lf + b.lf, a.cr + b.cr) }

  predicate StartsCrlf(s: string) { |s| >= 2 && s[0] == '\r' && s[1] == '\n' }

  function Count(s: string): Breaks
    decreases |s|
  {
    if s == [] then Breaks(0, 0, 0)
    else if StartsCrlf(s) then Plus(Breaks(1, 0, 0), Count(s[2..]))
    else if s[0] == '\r' then Plus(Breaks(0, 0, 1), Count(s[1..]))
    else if s[0] == '\n' then Plus(Breaks(0, 1, 0), Count(s[1..]))
    else Count(s[1..])
  }

  /** The kind with the largest count, the last of equals, if it makes nine tenths of all. */
  function Dominant(b: Breaks): Eol {
    if Total(b) == 0 then Lf
    else
      var (top, count) :=
        if b.cr >= b.crlf && b.cr >= b.lf then (Cr, b.cr)
        else if b.lf >= b.crlf then (Lf, b.lf) else (Crlf, b.crlf);
      if count * 10 >= Total(b) * 9 then top else Mixed
  }

  lemma CountAt(s: string, i: nat)
    requires i < |s|
    ensures s[i] == '\r' && i + 1 < |s| && s[i + 1] == '\n' ==>
            Count(s[i..]) == Plus(Breaks(1, 0, 0), Count(s[i + 2..]))
    ensures !(s[i] == '\r' && i + 1 < |s| && s[i + 1] == '\n') ==>
      Count(s[i..]) == Plus(Breaks(0, if s[i] == '\n' then 1 else 0, if s[i] == '\r' then 1 else 0), Count(s[i + 1..]))
  {
    assert s[i..][1..] == s[i + 1..];
    if i + 2 <= |s| { assert s[i..][2..] == s[i + 2..]; }
  }

  lemma CountNothing()
    ensures Count([]) == Breaks(0, 0, 0)
  {
  }

  method DetectEol(text: string) returns (eol: Eol)
    ensures eol == Dominant(Count(text))
  {
    hide Count;
    var crlf: nat, lf: nat, cr: nat, i: nat := 0, 0, 0, 0;
    assert text[0..] == text;
    while i < |text|
      invariant i <= |text| && Plus(Breaks(crlf, lf, cr), Count(text[i..])) == Count(text)
      decreases |text| - i
    {
      CountAt(text, i);
      if text[i] == '\r' && i + 1 < |text| && text[i + 1] == '\n' {
        crlf, i := crlf + 1, i + 2;
        continue;
      }
      if text[i] == '\r' { cr := cr + 1; } else if text[i] == '\n' { lf := lf + 1; }
      i := i + 1;
    }
    assert text[i..] == [];
    CountNothing();
    var total := crlf + lf + cr;
    if total == 0 { return Lf; }
    var top, count := Crlf, crlf;
    if lf >= count { top, count := Lf, lf; }
    if cr >= count { top, count := Cr, cr; }
    return if count * 10 >= total * 9 then top else Mixed;
  }

  // ---- Normalising ----

  /** `replace("\r\n", "\n")` */
  function MergeCrlf(s: string): (r: string)
    decreases |s|
  {
    if s == [] then [] else if StartsCrlf(s) then ['\n'] + MergeCrlf(s[2..]) else [s[0]] + MergeCrlf(s[1..])
  }

  /** `replace('\r', "\n")` */
  function CrToLf(s: string): string {
    if s == [] then [] else [if s[0] == '\r' then '\n' else s[0]] + CrToLf(s[1..])
  }

  function ToLf(s: string): string { CrToLf(MergeCrlf(s)) }

  /** `replace('\n', target)` */
  function LfTo(s: string, target: string): string {
    if s == [] then [] else (if s[0] == '\n' then target else [s[0]]) + LfTo(s[1..], target)
  }

  function Break(eol: Eol): string
    requires eol != Mixed
  {
    if eol == Lf then "\n" else if eol == Crlf then "\r\n" else "\r"
  }

  function NormalizeEol(text: string, eol: Eol): string {
    if eol == Mixed then text else if eol == Lf then ToLf(text) else LfTo(ToLf(text), Break(eol))
  }

  /** What is written back when a file is opened and saved untouched. */
  function OpenThenSave(text: string): string { NormalizeEol(ToLf(text), Dominant(Count(text))) }

  // ---- A text as lines ----

  predicate NoCr(s: string) { '\r' !in s }

  /** `ToLf` in one pass. */
  lemma {:induction false} ToLfUnroll(s: string)
    requires s != []
    ensures ToLf(s) == if StartsCrlf(s) then ['\n'] + ToLf(s[2..])
                       else [if s[0] == '\r' then '\n' else s[0]] + ToLf(s[1..])
  {
    var head := if StartsCrlf(s) then '\n' else s[0];
    var m := MergeCrlf(s);
    assert m[0] == head && m[1..] == MergeCrlf(if StartsCrlf(s) then s[2..] else s[1..]);
  }

  lemma {:induction false} ToLfNoCr(s: string)
    ensures NoCr(ToLf(s))
    decreases |s|
  {
    if s != [] {
      ToLfUnroll(s);
      ToLfNoCr(if StartsCrlf(s) then s[2..] else s[1..]);
    }
  }

  lemma {:induction false} LfToLf(u: string)
    ensures LfTo(u, "\n") == u
  {
    if u != [] { LfToLf(u[1..]); assert u == [u[0]] + u[1..]; }
  }

  /** Every text without carriage returns is the LF form of its normalisation. */
  lemma {:induction false} ToLfUndoes(u: string, eol: Eol)
    requires NoCr(u) && eol != Mixed
    ensures ToLf(LfTo(u, Break(eol))) == u
    decreases |u|
  {
    if u != [] {
      assert u == [u[0]] + u[1..] && u[0] in u;
      ToLfUndoes(u[1..], eol);
      UndoesFirst(u, eol);
    }
  }

  /** A target of `\r` is never followed by the `\n` that would make one break of two. */
  lemma LfToHead(u: string, eol: Eol)
    requires NoCr(u) && eol != Mixed
    ensures var v := LfTo(u, Break(eol)); eol != Lf && v != [] ==> v[0] != '\n'
  {
  }

  lemma UndoesFirst(u: string, eol: Eol)
    requires u != [] && NoCr(u) && eol != Mixed
    ensures ToLf(LfTo(u, Break(eol))) == [u[0]] + ToLf(LfTo(u[1..], Break(eol)))
  {
    assert u[0] in u;
    var rest := LfTo(u[1..], Break(eol));
    var v := LfTo(u, Break(eol));
    assert NoCr(u[1..]) by { assert forall c | c in u[1..] :: c in u; }
    LfToHead(u[1..], eol);
    ToLfUnroll(v);
    if u[0] == '\n' && eol == Crlf {
      assert v[2..] == rest;
    } else {
      assert v[1..] == rest;
    }
  }

  lemma NormalizeIsLfTo(text: string, eol: Eol)
    requires eol != Mixed
    ensures NormalizeEol(text, eol) == LfTo(ToLf(text), Break(eol))
  {
    LfToLf(ToLf(text));
  }

  /** Normalising twice is normalising to the second ending. */
  lemma NormalizeTwice(text: string, a: Eol, b: Eol)
    requires a != Mixed && b != Mixed
    ensures NormalizeEol(NormalizeEol(text, a), b) == NormalizeEol(text, b)
  {
    ToLfNoCr(text);
    NormalizeIsLfTo(text, a);
    ToLfUndoes(ToLf(text), a);
    NormalizeIsLfTo(NormalizeEol(text, a), b);
    NormalizeIsLfTo(text, b);
  }

  // ---- Counting what normalising leaves ----

  function OfKind(eol: Eol, n: nat): Breaks
    requires eol != Mixed
  {
    if eol == Lf then Breaks(0, n, 0) else if eol == Crlf then Breaks(n, 0, 0) else Breaks(0, 0, n)
  }

  function Lines(u: string): nat { if u == [] then 0 else (if u[0] == '\n' then 1 else 0) + Lines(u[1..]) }

  lemma {:induction false} CountNormal(u: string, eol: Eol)
    requires NoCr(u) && eol != Mixed
    ensures Count(LfTo(u, Break(eol))) == OfKind(eol, Lines(u))
    decreases |u|
  {
    hide Count, LfTo, Lines, NoCr, Break;
    if u == [] {
      CountNothing();
      NothingToBreak(eol);
    } else {
      FirstLine(u, eol);
      CountNormal(u[1..], eol);
      LfToHead(u[1..], eol);
      var rest := LfTo(u[1..], Break(eol));
      if u[0] == '\n' { CountBreak(rest, eol); } else { CountOther(u[0], rest); }
    }
  }

  lemma NothingToBreak(eol: Eol)
    requires eol != Mixed
    ensures LfTo([], Break(eol)) == [] && Lines([]) == 0
  {
  }

  lemma FirstLine(u: string, eol: Eol)
    requires u != [] && NoCr(u) && eol != Mixed
    ensures u[0] != '\r' && NoCr(u[1..])
    ensures LfTo(u, Break(eol)) == (if u[0] == '\n' then Break(eol) else [u[0]]) + LfTo(u[1..], Break(eol))
    ensures Lines(u) == (if u[0] == '\n' then 1 else 0) + Lines(u[1..])
  {
    assert u[0] in u && forall c | c in u[1..] :: c in u;
  }

  lemma CountBreak(rest: string, eol: Eol)
    requires eol != Mixed && (eol != Lf && rest != [] ==> rest[0] != '\n')
    ensures Count(Break(eol) + rest) == Plus(OfKind(eol, 1), Count(rest))
  {
    hide Count;
    var v := Break(eol) + rest;
    CountAt(v, 0);
    assert v[0..] == v && v[|Break(eol)|..] == rest;
  }

  lemma CountOther(c: char, rest: string)
    requires c != '\r' && c != '\n'
    ensures Count([c] + rest) == Count(rest)
  {
    assert ([c] + rest)[1..] == rest;
  }

  /** What is behind the first character, or the first pair. */
  function Rest(s: string): (r: string)
    requires s != []
    ensures |r| < |s|
  {
    if StartsCrlf(s) then s[2..] else s[1..]
  }

  lemma LinesCons(c: char, u: string)
    ensures Lines([c] + u) == (if c == '\n' then 1 else 0) + Lines(u)
  {
    assert ([c] + u)[1..] == u;
  }

  lemma TotalRest(s: string)
    requires s != []
    ensures Total(Count(s)) == (if s[0] == '\r' || s[0] == '\n' then 1 else 0) + Total(Count(Rest(s)))
  {
  }

  lemma ToLfRest(s: string)
    requires s != []
    ensures ToLf(s) == [if s[0] == '\r' then '\n' else s[0]] + ToLf(Rest(s))
  {
    ToLfUnroll(s);
  }

  lemma NoLines()
    ensures Lines(ToLf([])) == Total(Count([])) == 0
    ensures forall target :: LfTo(ToLf([]), target) == []
  {
  }

  /** No break is lost or made. */
  lemma {:induction false} LinesKept(s: string)
    ensures Lines(ToLf(s)) == Total(Count(s))
    decreases |s|
  {
    hide ToLf, Lines, Count, Total, Rest;
    if s == [] {
      NoLines();
    } else {
      ToLfRest(s);
      TotalRest(s);
      LinesCons(if s[0] == '\r' then '\n' else s[0], ToLf(Rest(s)));
      assert |Rest(s)| < |s|;
      LinesKept(Rest(s));
    }
  }

  /** A normalised text has the breaks of the original, all of the one kind. */
  lemma NormalizeCounts(text: string, eol: Eol)
    requires eol != Mixed
    ensures Count(NormalizeEol(text, eol)) == OfKind(eol, Total(Count(text)))
  {
    ToLfNoCr(text);
    NormalizeIsLfTo(text, eol);
    CountNormal(ToLf(text), eol);
    LinesKept(text);
  }

  // ---- Opening and saving ----

  /** The text has at most one kind of line break. */
  predicate OneKind(b: Breaks) {
    (b.crlf == 0 && b.lf == 0) || (b.crlf == 0 && b.cr == 0) || (b.lf == 0 && b.cr == 0)
  }

  /** A text all of whose breaks are of one kind is the normalisation of its LF form to that kind. */
  lemma {:induction false} KindRestores(s: string, eol: Eol)
    requires eol != Mixed && Count(s) == OfKind(eol, Total(Count(s)))
    ensures LfTo(ToLf(s), Break(eol)) == s
    decreases |s|
  {
    hide ToLf, LfTo, Count, Total, OfKind, Rest;
    if s == [] {
      NoLines();
    } else {
      RestOfKind(s, eol);
      KindRestores(Rest(s), eol);
      ToLfRest(s);
      LfToCons(if s[0] == '\r' then '\n' else s[0], ToLf(Rest(s)), Break(eol));
      HeadAndRest(s);
    }
  }

  lemma HeadAndRest(s: string)
    requires s != []
    ensures s == (if StartsCrlf(s) then s[..2] else [s[0]]) + Rest(s)
  {
  }

  lemma LfToCons(c: char, u: string, target: string)
    ensures LfTo([c] + u, target) == (if c == '\n' then target else [c]) + LfTo(u, target)
  {
    assert ([c] + u)[1..] == u;
  }

  /** The first break is of the kind, and so are the others. */
  lemma RestOfKind(s: string, eol: Eol)
    requires s != [] && eol != Mixed && Count(s) == OfKind(eol, Total(Count(s)))
    ensures Count(Rest(s)) == OfKind(eol, Total(Count(Rest(s))))
    ensures s[0] == '\r' || s[0] == '\n' ==> (if StartsCrlf(s) then s[..2] else [s[0]]) == Break(eol)
  {
    hide Count, OfKind, Total, Plus, Front, Break, Rest;
    CountHead(s);
    KindSplits(Front(s), Count(Rest(s)), eol);
    if s[0] == '\r' || s[0] == '\n' { BreakAtFront(s, eol); }
  }

  lemma KindSplits(a: Breaks, b: Breaks, eol: Eol)
    requires eol != Mixed && Plus(a, b) == OfKind(eol, Total(Plus(a, b)))
    ensures a == OfKind(eol, Total(a)) && b == OfKind(eol, Total(b))
  {
  }

  /** The break at the front of the text. */
  function Front(s: string): Breaks
    requires s != []
  {
    if StartsCrlf(s) then Breaks(1, 0, 0) else Breaks(0, if s[0] == '\n' then 1 else 0, if s[0] == '\r' then 1 else 0)
  }

  lemma CountHead(s: string)
    requires s != []
    ensures Count(s) == Plus(Front(s), Count(Rest(s)))
  {
  }

  lemma BreakAtFront(s: string, eol: Eol)
    requires s != [] && eol != Mixed && (s[0] == '\r' || s[0] == '\n')
    requires Front(s) == OfKind(eol, Total(Front(s)))
    ensures (if StartsCrlf(s) then s[..2] else [s[0]]) == Break(eol)
  {
    if StartsCrlf(s) { assert s[..2] == [s[0], s[1]]; }
  }

  lemma OneKindDominates(b: Breaks)
    requires OneKind(b)
    ensures Dominant(b) != Mixed && b == OfKind(Dominant(b), Total(b))
  {
  }

  lemma OpenThenSaveIs(text: string)
    ensures var e := Dominant(Count(text));
            OpenThenSave(text) == if e == Mixed then ToLf(text) else NormalizeEol(text, e)
  {
    var e := Dominant(Count(text));
    if e != Mixed {
      NormalizeTwice(text, Lf, e);
    }
  }

  /** Opening and saving leaves a file as it was exactly when its line breaks are all of one kind: a mixed
      file comes back with LF throughout, and a stray break takes the kind of the others. */
  lemma OpenThenSaveKeeps(text: string)
    ensures OpenThenSave(text) == text <==> OneKind(Count(text))
  {
    var e := Dominant(Count(text));
    OpenThenSaveIs(text);
    if OneKind(Count(text)) {
      OneKindDominates(Count(text));
      KindRestores(text, e);
      NormalizeIsLfTo(text, e);
    }
    NormalizeCounts(text, if e == Mixed then Lf else e);
  }

  // ---- The dominant ending, over the places of the breaks ----

  /** A break of this kind begins at `i`. */
  predicate BreakAt(s: string, i: nat, eol: Eol)
    requires i < |s|
  {
    match eol
    case Crlf => s[i] == '\r' && i + 1 < |s| && s[i + 1] == '\n'
    case Cr => s[i] == '\r' && (i + 1 < |s| ==> s[i + 1] != '\n')
    case Lf => s[i] == '\n' && (i > 0 ==> s[i - 1] != '\r')
    case Mixed => false
  }

  /** How many breaks of this kind begin before `n`. */
  function Tally(s: string, eol: Eol, n: nat): nat
    requires n <= |s|
  {
    if n == 0 then 0 else Tally(s, eol, n - 1) + (if BreakAt(s, n - 1, eol) then 1 else 0)
  }

  function BreaksOf(s: string, eol: Eol): nat { Tally(s, eol, |s|) }

  function AllBreaks(s: string): nat { BreaksOf(s, Lf) + BreaksOf(s, Crlf) + BreaksOf(s, Cr) }

  /** From a place that is not inside a CR LF, the count goes on where the tallies stand. */
  lemma {:induction false} CountIsTally(s: string, i: nat)
    requires i <= |s| && !(0 < i < |s| && s[i - 1] == '\r' && s[i] == '\n')
    ensures Plus(Breaks(Tally(s, Crlf, i), Tally(s, Lf, i), Tally(s, Cr, i)), Count(s[i..])) ==
            Breaks(BreaksOf(s, Crlf), BreaksOf(s, Lf), BreaksOf(s, Cr))
    decreases |s| - i
  {
    hide Count;
    if i == |s| {
      assert s[i..] == [];
      CountNothing();
    } else {
      CountAt(s, i);
      if s[i] == '\r' && i + 1 < |s| && s[i + 1] == '\n' {
        CountIsTally(s, i + 2);
      } else {
        CountIsTally(s, i + 1);
      }
    }
  }

  /** A kind of ending is found exactly when it makes at least nine tenths of the breaks, and LF where there are
      none; no two kinds can. */
  lemma DominantMeans(s: string, eol: Eol)
    ensures eol != Mixed ==>
              (Dominant(Count(s)) == eol <==>
               if AllBreaks(s) == 0 then eol == Lf else 10 * BreaksOf(s, eol) >= 9 * AllBreaks(s))
    ensures Dominant(Count(s)) == Mixed <==>
            AllBreaks(s) > 0 && forall e | e != Mixed :: 10 * BreaksOf(s, e) < 9 * AllBreaks(s)
  {
    hide Count, Tally, Dominant, BreaksOf;
    CountIsTally(s, 0);
    assert s[0..] == s;
    NoneYet(s);
    var b := Breaks(BreaksOf(s, Crlf), BreaksOf(s, Lf), BreaksOf(s, Cr));
    assert Count(s) == b;
    NineTenths(b, eol);
    assert Kind(b, Lf) == BreaksOf(s, Lf) && Kind(b, Crlf) == BreaksOf(s, Crlf) && Kind(b, Cr) == BreaksOf(s, Cr);
  }

  /** The breaks of one kind. */
  function Kind(b: Breaks, eol: Eol): nat {
    match eol case Crlf => b.crlf case Lf => b.lf case Cr => b.cr case Mixed => 0
  }

  lemma NineTenths(b: Breaks, eol: Eol)
    ensures eol != Mixed ==>
              (Dominant(b) == eol <==> if Total(b) == 0 then eol == Lf else 10 * Kind(b, eol) >= 9 * Total(b))
    ensures Dominant(b) == Mixed <==>
            Total(b) > 0 && 10 * b.crlf < 9 * Total(b) && 10 * b.lf < 9 * Total(b) && 10 * b.cr < 9 * Total(b)
  {
  }

  lemma NoneYet(s: string)
    ensures forall e :: Tally(s, e, 0) == 0
  {
  }
}
