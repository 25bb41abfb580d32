/** Where the errors of a scan say they are: the bytes that src-tauri/src/sqlscript.rs names when the input is not
    UTF-8. */
module SqlStreamOffsets {
  import opened Common
  import opened SqlLexer
  import opened SqlStream
  import opened Utf8

  /** How many bytes at the end of `read` begin a character that is not there yet. */
  function Carried(read: seq<byte>): nat {
    match FromUtf8(read) case Truncated(u) => |read| - u case _ => 0
  }

  /** The decoder has read `read`, found nothing wrong, and holds `u` back. */
  ghost predicate Holds(read: seq<byte>, u: seq<byte>) {
    && !FromUtf8(read).Invalid? && |u| == Carried(read) && u == read[|read| - |u|..]
  }

  lemma Pushing(read: seq<byte>, u: seq<byte>, chunk: seq<byte>)
    requires Holds(read, u)
    ensures FromUtf8(read + chunk) == Shift(FromUtf8(u + chunk), |read| - |u|)
  {
    hide Front1;
    FromUtf8Append(read, chunk);
    if u == [] { assert u + chunk == chunk; }
  }

  lemma HoldsMore(read: seq<byte>, u: seq<byte>, chunk: seq<byte>)
    requires Holds(read, u) && Pushed(u, chunk).1.Ok?
    ensures Holds(read + chunk, Pushed(u, chunk).0)
  {
    hide FromUtf8;
    Pushing(read, u, chunk);
    var all, n := u + chunk, |read| - |u|;
    TailOf(read, u, chunk);
    var v := FromUtf8(all);
    if v.Truncated? { SliceSlice(read + chunk, n, v.upTo, |all|); }
  }

  lemma TailOf(read: seq<byte>, u: seq<byte>, chunk: seq<byte>)
    requires |u| <= |read| && u == read[|read| - |u|..]
    ensures (read + chunk)[|read| - |u|..] == u + chunk
  {
  }

  /** The chunk breaks what was read, and `at` is where the broken sequence ends, plus the bytes held back. */
  ghost predicate BrokenBy(read: seq<byte>, chunk: seq<byte>, at: nat) {
    var v := FromUtf8(read + chunk);
    !FromUtf8(read).Invalid? && v.Invalid? && at == v.upTo + v.len + Carried(read)
  }

  lemma Breaking(read: seq<byte>, u: seq<byte>, chunk: seq<byte>)
    requires Holds(read, u) && Pushed(u, chunk).1.Err?
    ensures BrokenBy(read, chunk, |read| + Pushed(u, chunk).1.error.validUpTo)
  {
    Pushing(read, u, chunk);
  }

  /** What an error that names a byte says of the input behind `t`. */
  ghost predicate Tells(e: StreamError, t: seq<byte>, chunks: seq<seq<byte>>) {
    match e
    case NotUtf8(at) => exists k :: 0 <= k < |chunks| && BrokenBy(t + Concat(chunks[..k]), chunks[k], at)
    case EndsInsideChar(at) => at == |t + Concat(chunks)| && FromUtf8(t + Concat(chunks)).Truncated?
    case _ => true
  }

  lemma TellsLater(e: StreamError, t: seq<byte>, chunks: seq<seq<byte>>)
    requires chunks != [] && Tells(e, t + chunks[0], chunks[1..])
    ensures Tells(e, t, chunks)
  {
    Assoc(t, chunks[0], Concat(chunks[1..]));
    if e.NotUtf8? {
      var k :| 0 <= k < |chunks[1..]| && BrokenBy(t + chunks[0] + Concat(chunks[1..][..k]), chunks[1..][k], e.at);
      assert chunks[..k + 1][1..] == chunks[1..][..k];
      Assoc(t, chunks[0], Concat(chunks[1..][..k]));
      assert BrokenBy(t + Concat(chunks[..k + 1]), chunks[k + 1], e.at);
    }
  }

  lemma {:induction false} StreamTells(t: seq<byte>, u: seq<byte>, lx: Lexer, pend: seq<byte>, first: bool,
                                       done: seq<Statement>, chunks: seq<seq<byte>>, accept: Statement -> bool)
    requires Holds(t, u)
    ensures var r := Stream(u, lx, pend, first, done, |t|, chunks, accept); r.Err? ==> Tells(r.error, t, chunks)
    decreases |chunks|
  {
    hide Holds, Feeding, FromUtf8, Pushed;
    var r := Stream(u, lx, pend, first, done, |t|, chunks, accept);
    if chunks == [] {
      assert t + [] == t;
      FeedingFails(lx, pend, [], accept);
      if u != [] { HeldIsTruncated(t, u); }
    } else {
      var (v, decoded) := Pushed(u, chunks[0]);
      if decoded.Err? {
        Breaking(t, u, chunks[0]);
        assert chunks[..0] == [] && t + [] == t;
        assert BrokenBy(t + Concat(chunks[..0]), chunks[0], r.error.at);
      } else {
        FeedingFails(lx, pend, FedText(first, decoded.value), accept);
        var fed := Feeding(lx, pend, FedText(first, decoded.value), accept);
        if fed.Fed? {
          HoldsMore(t, u, chunks[0]);
          StreamTells(t + chunks[0], v, fed.lx, fed.rest, first && decoded.value == [], done + fed.out, chunks[1..],
                      accept);
          if r.Err? { TellsLater(r.error, t, chunks); }
        }
      }
    }
  }

  /** Feeding fails for the script, not for its bytes. */
  lemma FeedingFails(lx: Lexer, pend: seq<byte>, text: seq<byte>, accept: Statement -> bool)
    ensures var f := Feeding(lx, pend, text, accept); f.Stopped? ==> f.error.Script? || f.error.ClientCommand?
  {
    hide Run;
  }

  lemma HeldIsTruncated(t: seq<byte>, u: seq<byte>)
    requires Holds(t, u) && u != []
    ensures FromUtf8(t).Truncated?
  {
  }

  // ---- Whole scans ----

  lemma ConcatAt(chunks: seq<seq<byte>>, k: nat)
    requires k < |chunks|
    ensures Concat(chunks) == Concat(chunks[..k]) + chunks[k] + Concat(chunks[k + 1..])
  {
    assert chunks == chunks[..k] + chunks[k..];
    ConcatAppend(chunks[..k], chunks[k..]);
    assert chunks[k..][1..] == chunks[k + 1..];
    Assoc(Concat(chunks[..k]), chunks[k], Concat(chunks[k + 1..]));
  }

  /** What the reader has of a character that the next chunk goes on with. */
  lemma NothingCarried(read: seq<byte>)
    requires !FromUtf8(read).Invalid?
    ensures Carried(read) == 0 <==> WellFormed(read)
  {
    ValidIsWellFormed(read);
  }

  /** The byte that is reported for broken input is the end of the first broken sequence, counted from the start
      of the input, exactly when the chunk that brings it does not begin inside a character: otherwise it is too
      far by the bytes held back from the chunks before. */
  lemma OffsetExactly(chunks: seq<seq<byte>>, limit: nat, accept: Statement -> bool, at: nat) returns (k: nat)
    requires Stream([], Init(limit), [], true, [], 0, chunks, accept) == Err(NotUtf8(at))
    ensures k < |chunks|
    ensures var v := FromUtf8(Concat(chunks));
            && v.Invalid? && v.upTo + v.len <= at <= v.upTo + v.len + 3
            && (at == v.upTo + v.len <==> WellFormed(Concat(chunks[..k])))
  {
    hide Stream;
    StreamTells([], [], Init(limit), [], true, [], chunks, accept);
    k :| 0 <= k < |chunks| && BrokenBy([] + Concat(chunks[..k]), chunks[k], at);
    var read := Concat(chunks[..k]);
    assert [] + read == read;
    ConcatAt(chunks, k);
    FromUtf8Append(read + chunks[k], Concat(chunks[k + 1..]));
    NothingCarried(read);
    hide WellFormed;
  }

  /** Input that ends inside a character is reported at its length. */
  lemma EndExactly(chunks: seq<seq<byte>>, limit: nat, accept: Statement -> bool, at: nat)
    requires Stream([], Init(limit), [], true, [], 0, chunks, accept) == Err(EndsInsideChar(at))
    ensures at == |Concat(chunks)| && FromUtf8(Concat(chunks)).Truncated?
  {
    hide Stream, FromUtf8;
    HoldsNothing();
    StreamTells([], [], Init(limit), [], true, [], chunks, accept);
    assert [] + Concat(chunks) == Concat(chunks);
  }

  lemma HoldsNothing()
    ensures Holds([], [])
  {
  }

  /** A character broken off across two chunks is reported one byte too far. */
  lemma OffsetTooFar(limit: nat, accept: Statement -> bool)
    ensures Stream([], Init(limit), [], true, [], 0, [[0xE2], [0x28]], accept) == Err(NotUtf8(2))
    ensures FromUtf8(Concat([[0xE2], [0x28]])) == Invalid(0, 1)
  {
    var a, b: seq<byte> := [0xE2], [0x28];
    var chunks := [a, b];
    assert chunks[1..] == [b] && [b][1..] == [] && [] + a == a && a + b == [0xE2, 0x28] && b + [] == b;
    assert Pushed([], a) == (a, Ok([])) by { assert a[0..] == a && a[..0] == []; }
    assert Pushed(a, b) == ([], Err(Utf8Error(1, false)));
    QuietFeed(limit, accept);
    hide Feeding, Pushed, FromUtf8;
  }

  lemma QuietFeed(limit: nat, accept: Statement -> bool)
    ensures Feeding(Init(limit), [], FedText(true, []), accept) == Fed(Init(limit), [], [])
  {
  }
}
