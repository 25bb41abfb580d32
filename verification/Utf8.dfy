/** The streaming UTF-8 decoder of src-tauri/src/sqlscript.rs.
    A Rust `String` is modelled by its bytes, so decoding a well-formed text returns the same bytes. */
module Utf8 {
  import opened Common

  // ---- RFC 3629, section 4 ----

  predicate Tail(b: byte) { 0x80 <= b <= 0xBF }

  /** One character of the ABNF: UTF8-1 / UTF8-2 / UTF8-3 / UTF8-4. */
  predicate IsChar(s: seq<byte>) {
    || (|s| == 1 && s[0] <= 0x7F)
    || (|s| == 2 && 0xC2 <= s[0] <= 0xDF && Tail(s[1]))
    || (|s| == 3 && Lead3(s[0], s[1]) && Tail(s[2]))
    || (|s| == 4 && Lead4(s[0], s[1]) && Tail(s[2]) && Tail(s[3]))
  }

  predicate Lead3(a: byte, b: byte) {
    || (a == 0xE0 && 0xA0 <= b <= 0xBF)
    || (0xE1 <= a <= 0xEC && Tail(b))
    || (a == 0xED && 0x80 <= b <= 0x9F)
    || (0xEE <= a <= 0xEF && Tail(b))
  }

  predicate Lead4(a: byte, b: byte) {
    || (a == 0xF0 && 0x90 <= b <= 0xBF)
    || (0xF1 <= a <= 0xF3 && Tail(b))
    || (a == 0xF4 && 0x80 <= b <= 0x8F)
  }

  /** UTF8-octets = *( UTF8-char ) */
  ghost predicate WellFormed(s: seq<byte>)
    decreases |s|
  {
    s == [] || exists n :: 1 <= n <= |s| && IsChar(s[..n]) && WellFormed(s[n..])
  }

  /** A nonempty sequence that one or more further bytes turn into a character. */
  ghost predicate ProperPrefix(s: seq<byte>) {
    s != [] && exists t: seq<byte> :: t != [] && IsChar(s + t)
  }

  // ---- The validator of the standard library: `std::str::from_utf8` ----

  /** What the bytes at the front are: a character of `n` bytes, an invalid sequence of `n` bytes,
      or a sequence that the input ends inside. */
  datatype Front = Char(n: nat) | Bad(n: nat) | Cut

  function Front1(s: seq<byte>): (f: Front)
    requires s != []
    ensures f.Char? ==> 1 <= f.n <= |s|
    ensures f.Bad? ==> 1 <= f.n <= 3 && f.n <= |s|
    ensures f.Cut? ==> |s| <= 3
  {
    var a := s[0];
    if a <= 0x7F then Char(1)
    else if 0xC2 <= a <= 0xDF then
      if |s| < 2 then Cut else if Tail(s[1]) then Char(2) else Bad(1)
    else if 0xE0 <= a <= 0xEF then
      if |s| < 2 then Cut else if !Lead3(a, s[1]) then Bad(1)
      else if |s| < 3 then Cut else if Tail(s[2]) then Char(3) else Bad(2)
    else if 0xF0 <= a <= 0xF4 then
      if |s| < 2 then Cut else if !Lead4(a, s[1]) then Bad(1)
      else if |s| < 3 then Cut else if !Tail(s[2]) then Bad(2)
      else if |s| < 4 then Cut else if Tail(s[3]) then Char(4) else Bad(3)
    else Bad(1)
  }

  /** `Ok`, or an error with `valid_up_to` and `error_len`. */
  datatype Verdict = Valid | Truncated(upTo: nat) | Invalid(upTo: nat, len: nat)

  function Shift(v: Verdict, n: nat): Verdict {
    match v
    case Valid => Valid
    case Truncated(u) => Truncated(u + n)
    case Invalid(u, l) => Invalid(u + n, l)
  }

  function FromUtf8(s: seq<byte>): (v: Verdict)
    ensures v.Truncated? ==> v.upTo < |s| <= v.upTo + 3
    ensures v.Invalid? ==> v.upTo + v.len <= |s| && 1 <= v.len <= 3
  {
    if s == [] then Valid
    else match Front1(s)
      case Char(n) => Shift(FromUtf8(s[n..]), n)
      case Bad(n) => Invalid(0, n)
      case Cut => Truncated(0)
  }

  // ---- The decoder ----

  datatype Utf8Error = Utf8Error(validUpTo: nat, incomplete: bool)

  /** What `push` does to the pending bytes, and what it answers. */
  function Pushed(pending: seq<byte>, bytes: seq<byte>): (seq<byte>, Result<seq<byte>, Utf8Error>) {
    var all := pending + bytes;
    match FromUtf8(all)
    case Valid => ([], Ok(all))
    case Invalid(u, l) => ([], Err(Utf8Error(u + l, false)))
    case Truncated(u) => (all[u..], Ok(all[..u]))
  }

  class IncrementalUtf8 {
    var pending: seq<byte>

    constructor ()
      ensures pending == []
    {
      pending := [];
    }

    method Push(bytes: seq<byte>) returns (r: Result<seq<byte>, Utf8Error>)
      modifies this
      ensures (pending, r) == Pushed(old(pending), bytes)
    {
      var all := pending + bytes;
      pending := [];
      match FromUtf8(all)
      case Valid => r := Ok(all);
      case Invalid(valid, len) => r := Err(Utf8Error(valid + len, false));
      case Truncated(valid) =>
        ValidPrefix(all);
        assert FromUtf8(all[..valid]) == Valid;  // so the inner conversion of the prefix cannot fail
        pending := pending + all[valid..];
        assert pending == all[valid..];
        r := Ok(all[..valid]);
    }

    method Finish() returns (r: Result<seq<byte>, Utf8Error>)
      modifies this
      ensures pending == []
      ensures r == if old(pending) == [] then Ok([]) else Err(Utf8Error(0, true))
    {
      if pending == [] { return Ok([]); }
      pending := [];
      r := Err(Utf8Error(0, true));
    }
  }

  /** Pushing every chunk and then finishing: the decoded pieces, or the first error. */
  function Session(pending: seq<byte>, chunks: seq<seq<byte>>): Result<seq<seq<byte>>, Utf8Error>
    decreases |chunks|
  {
    if chunks == [] then
      if pending == [] then Ok([[]]) else Err(Utf8Error(0, true))
    else
      var (p, r) := Pushed(pending, chunks[0]);
      if r.Err? then Err(r.error)
      else match Session(p, chunks[1..])
        case Err(e) => Err(e)
        case Ok(rest) => Ok([r.value] + rest)
  }

  // ---- The validator agrees with the grammar ----

  lemma FrontIsChar(s: seq<byte>, n: nat)
    requires s != []
    ensures 1 <= n <= |s| && IsChar(s[..n]) <==> Front1(s) == Char(n)
  {
  }

  lemma {:induction false} ValidIsWellFormed(s: seq<byte>)
    ensures FromUtf8(s) == Valid <==> WellFormed(s)
    decreases |s|
  {
    if s != [] {
      forall n | 1 <= n <= |s|
        ensures IsChar(s[..n]) <==> Front1(s) == Char(n)
      {
        FrontIsChar(s, n);
      }
      var f := Front1(s);
      if f.Char? {
        ValidIsWellFormed(s[f.n..]);
        FrontIsChar(s, f.n);
      }
    }
  }

  lemma FrontStable(s: seq<byte>, more: seq<byte>)
    requires s != [] && !Front1(s).Cut?
    ensures Front1(s + more) == Front1(s)
  {
  }

  /** A verdict other than "truncated" at the end of `a` is the verdict on every extension. */
  lemma {:induction false} FromUtf8Append(a: seq<byte>, b: seq<byte>)
    ensures FromUtf8(a + b) ==
            match FromUtf8(a)
            case Valid => Shift(FromUtf8(b), |a|)
            case Invalid(_, _) => FromUtf8(a)
            case Truncated(u) => Shift(FromUtf8(a[u..] + b), u)
    decreases |a|
  {
    hide Front1;
    if a == [] {
      assert a + b == b;
    } else {
      var f := Front1(a);
      if f.Cut? {
        assert a[0..] == a;
      } else {
        FrontStable(a, b);
        if f.Char? {
          assert (a + b)[f.n..] == a[f.n..] + b;
          FromUtf8Append(a[f.n..], b);
          var v := FromUtf8(a[f.n..]);
          if v.Truncated? {
            assert a[f.n..][v.upTo..] == a[f.n + v.upTo..];
          }
        }
      }
    }
  }

  lemma {:induction false} ValidPrefix(s: seq<byte>)
    requires FromUtf8(s).Truncated?
    ensures var u := FromUtf8(s).upTo; FromUtf8(s[..u]) == Valid && Front1(s[u..]) == Cut
    decreases |s|
  {
    hide Front1;
    var f := Front1(s);
    if f.Char? {
      var n := f.n;
      ValidPrefix(s[n..]);
      var u := FromUtf8(s[n..]).upTo;
      assert s[..n + u][n..] == s[n..][..u];
      assert s[n + u..] == s[n..][u..];
      FrontIsChar(s, n);
      assert s[..n + u][..n] == s[..n];
      FrontIsChar(s[..n + u], n);
    } else {
      assert s[0..] == s;
    }
  }

  /** A cut front is exactly a sequence that further bytes can complete. */
  lemma CutIsProperPrefix(s: seq<byte>)
    requires s != []
    ensures Front1(s) == Cut ==> ProperPrefix(s) && |s| <= 3
  {
    if Front1(s) == Cut {
      var a := s[0];
      var t: seq<byte> :=
        if a <= 0xDF then [0x80]
        else if a <= 0xEF then (if |s| == 1 then [if a == 0xED then 0x80 else 0xA0, 0x80] else [0x80])
        else if |s| == 1 then [if a == 0xF4 then 0x80 else 0x90, 0x80, 0x80]
        else if |s| == 2 then [0x80, 0x80]
        else [0x80];
      assert IsChar(s + t);
    }
  }

  /** Between calls the decoder holds nothing, or a proper prefix of one character. */
  ghost predicate GoodPending(p: seq<byte>) {
    p == [] || (|p| <= 3 && ProperPrefix(p) && Front1(p) == Cut)
  }

  lemma PushKeepsPending(p: seq<byte>, bytes: seq<byte>)
    ensures GoodPending(Pushed(p, bytes).0)
    ensures Pushed(p, bytes).1.Ok? ==> WellFormed(Pushed(p, bytes).1.value)
    ensures Pushed(p, bytes).1.Ok? ==> Pushed(p, bytes).1.value + Pushed(p, bytes).0 == p + bytes
  {
    var all := p + bytes;
    var v := FromUtf8(all);
    if v.Truncated? {
      ValidPrefix(all);
      CutIsProperPrefix(all[v.upTo..]);
      ValidIsWellFormed(all[..v.upTo]);
    } else if v.Valid? {
      ValidIsWellFormed(all);
    }
  }

  /** One push neither accepts an input that is already broken nor refuses one that is not. */
  lemma PushSplits(p: seq<byte>, bytes: seq<byte>, rest: seq<byte>)
    ensures var (q, r) := Pushed(p, bytes);
            WellFormed(p + bytes + rest) <==> r.Ok? && WellFormed(q + rest)
  {
    var all := p + bytes;
    FromUtf8Append(all, rest);
    ValidIsWellFormed(all + rest);
    var (q, r) := Pushed(p, bytes);
    ValidIsWellFormed(q + rest);
    if FromUtf8(all).Valid? {
      assert q + rest == rest;
    }
  }

  /** The pieces are themselves texts, and together they are `whole`. */
  ghost predicate Spells(pieces: seq<seq<byte>>, whole: seq<byte>) {
    Concat(pieces) == whole && forall s <- pieces :: WellFormed(s)
  }

  lemma SpellsCons(first: seq<byte>, pieces: seq<seq<byte>>, whole: seq<byte>)
    requires WellFormed(first) && Spells(pieces, whole)
    ensures Spells([first] + pieces, first + whole)
  {
    assert ([first] + pieces)[1..] == pieces;
  }

  lemma {:induction false} SessionAccepts(p: seq<byte>, chunks: seq<seq<byte>>)
    requires GoodPending(p)
    ensures Session(p, chunks).Ok? <==> WellFormed(p + Concat(chunks))
    decreases |chunks|
  {
    if chunks == [] {
      assert p + Concat(chunks) == p;
      PendingIsIncomplete(p);
    } else {
      var rest := Concat(chunks[1..]);
      assert p + Concat(chunks) == p + chunks[0] + rest;
      PushSplits(p, chunks[0], rest);
      PushKeepsPending(p, chunks[0]);
      var (q, r) := Pushed(p, chunks[0]);
      if r.Ok? {
        SessionAccepts(q, chunks[1..]);
      }
    }
  }

  lemma SpellsNothing()
    ensures Spells([[]], [])
  {
    var none: seq<seq<byte>> := [[]];
    assert none[1..] == [];
  }

  lemma Regroup(p: seq<byte>, c: seq<byte>, rest: seq<byte>, r: seq<byte>, q: seq<byte>)
    requires r + q == p + c
    ensures p + (c + rest) == r + (q + rest)
  {
    assert p + (c + rest) == (p + c) + rest;
    assert r + (q + rest) == (r + q) + rest;
  }

  lemma {:induction false} SessionSpells(p: seq<byte>, chunks: seq<seq<byte>>)
    requires GoodPending(p) && Session(p, chunks).Ok?
    ensures Spells(Session(p, chunks).value, p + Concat(chunks))
    decreases |chunks|
  {
    if chunks == [] {
      SpellsNothing();
      assert p + Concat(chunks) == [];
    } else {
      PushKeepsPending(p, chunks[0]);
      var (q, r) := Pushed(p, chunks[0]);
      SessionSpells(q, chunks[1..]);
      SpellsCons(r.value, Session(q, chunks[1..]).value, q + Concat(chunks[1..]));
      Regroup(p, chunks[0], Concat(chunks[1..]), r.value, q);
    }
  }

  /** Chunking does not matter: whatever the cuts, the session succeeds exactly on well-formed input,
      and then the pieces it returns are texts that spell out the whole input. */
  lemma SessionDecodes(p: seq<byte>, chunks: seq<seq<byte>>)
    requires GoodPending(p)
    ensures Session(p, chunks).Ok? <==> WellFormed(p + Concat(chunks))
    ensures Session(p, chunks).Ok? ==> Spells(Session(p, chunks).value, p + Concat(chunks))
  {
    SessionAccepts(p, chunks);
    if Session(p, chunks).Ok? {
      SessionSpells(p, chunks);
    }
  }

  lemma PendingIsIncomplete(p: seq<byte>)
    requires GoodPending(p)
    ensures WellFormed(p) <==> p == []
  {
    ValidIsWellFormed(p);
  }
}
