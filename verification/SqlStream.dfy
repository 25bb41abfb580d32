/** `decode_stream` of src-tauri/src/sqlscript.rs: bytes as they are read, through the UTF-8 decoder,
    past a byte-order mark, into the splitter. */
module SqlStream {
  import opened Common
  import opened SqlLexer
  import Utf8
  import opened SqlScript
  import opened SqlChunking
  import opened SqlProvenance

  datatype StreamError =
    | NotUtf8(at: nat)
    | EndsInsideChar(at: nat)
    | Script(error: ScriptError)
    | ClientCommand(statement: Statement)

  type Streamed = Result<(seq<Statement>, nat), StreamError>

  const BOM: seq<byte> := [0xEF, 0xBB, 0xBF]

  function StripBom(s: seq<byte>): seq<byte> { if BOM <= s then s[3..] else s }

  /** The first statement that the runner refuses. */
  function Refused(out: seq<Statement>, accept: Statement -> bool): (r: Option<Statement>)
    ensures r == None <==> forall st <- out :: accept(st)
  {
    if out == [] then None else if !accept(out[0]) then Some(out[0]) else Refused(out[1..], accept)
  }

  /** It is refused, and all before it are accepted. */
  lemma {:induction false} RefusedIsFirst(out: seq<Statement>, accept: Statement -> bool) returns (i: nat)
    requires Refused(out, accept).Some?
    ensures i < |out| && out[i] == Refused(out, accept).value && !accept(out[i])
    ensures forall j | 0 <= j < i :: accept(out[j])
  {
    if !accept(out[0]) {
      i := 0;
    } else {
      i := RefusedIsFirst(out[1..], accept);
      assert forall j | 0 < j <= i :: out[j] == out[1..][j - 1];
      i := i + 1;
    }
  }

  /** One feed whose statements are checked as they come. */
  datatype FeedResult = Stopped(error: StreamError) | Fed(lx: Lexer, rest: seq<byte>, out: seq<Statement>)

  function Feeding(lx: Lexer, pend: seq<byte>, text: seq<byte>, accept: Statement -> bool): FeedResult {
    match Run(lx, pend + text, false)
    case Failed(e) => Stopped(Script(e))
    case Done(l, r, out) =>
      if Refused(out, accept).Some? then Stopped(ClientCommand(Refused(out, accept).value)) else Fed(l, r, out)
  }

  /** The splitter finishes. */
  function Ending(lx: Lexer, pend: seq<byte>, done: seq<Statement>, accept: Statement -> bool): Streamed {
    match Finish(lx, pend)
    case Err(e) => Err(Script(e))
    case Ok(last) =>
      if Refused(last, accept).Some? then Err(ClientCommand(Refused(last, accept).value))
      else Ok((done + last, Run(lx, pend, true).lx.line))
  }

  /** The stream after its last read: the decoder finishes, its empty tail is fed, the splitter finishes. */
  function StreamEnd(u: seq<byte>, lx: Lexer, pend: seq<byte>, done: seq<Statement>, total: nat,
                     accept: Statement -> bool): Streamed
  {
    if u != [] then Err(EndsInsideChar(total))
    else match Feeding(lx, pend, [], accept)
      case Stopped(e) => Err(e)
      case Fed(l, r, out) => Ending(l, r, done + out, accept)
  }

  /** What is fed for a decoded text: the first text that is not empty loses its byte-order mark. */
  function FedText(first: bool, text: seq<byte>): seq<byte> {
    if first && text != [] then StripBom(text) else text
  }

  function Stream(u: seq<byte>, lx: Lexer, pend: seq<byte>, first: bool, done: seq<Statement>, total: nat,
                  chunks: seq<seq<byte>>, accept: Statement -> bool): Streamed
    decreases |chunks|
  {
    if chunks == [] then StreamEnd(u, lx, pend, done, total, accept)
    else
      var (v, decoded) := Utf8.Pushed(u, chunks[0]);
      match decoded
      case Err(e) => Err(NotUtf8(total + e.validUpTo))
      case Ok(text) =>
        match Feeding(lx, pend, FedText(first, text), accept)
        case Stopped(e) => Err(e)
        case Fed(l, r, out) =>
          Stream(v, l, r, first && text == [], done + out, total + |chunks[0]|, chunks[1..], accept)
  }

  method FeedChecked(splitter: MysqlSplitter, text: seq<byte>, accept: Statement -> bool)
    returns (r: Result<seq<Statement>, StreamError>)
    modifies splitter
    ensures match Feeding(old(splitter.State()), old(splitter.pending), text, accept)
            case Stopped(e) => r == Err(e)
            case Fed(l, rest, out) => r == Ok(out) && splitter.State() == l && splitter.pending == rest
  {
    var statements := splitter.Feed(text);
    if statements.Err? { return Err(Script(statements.error)); }
    var refused := Refused(statements.value, accept);
    if refused.Some? { return Err(ClientCommand(refused.value)); }
    return Ok(statements.value);
  }

  method EndStream(utf8: Utf8.IncrementalUtf8, splitter: MysqlSplitter, firstText: bool, sent: seq<Statement>,
                   total: nat, accept: Statement -> bool) returns (r: Streamed)
    modifies utf8, splitter
    ensures r == StreamEnd(old(utf8.pending), old(splitter.State()), old(splitter.pending), sent, total, accept)
  {
    var tail := utf8.Finish();
    if tail.Err? { return Err(EndsInsideChar(total)); }
    var fed := FeedChecked(splitter, FedText(firstText, tail.value), accept);
    if fed.Err? { return Err(fed.error); }
    var last := splitter.Finish();
    if last.Err? { return Err(Script(last.error)); }
    var refused := Refused(last.value, accept);
    if refused.Some? { return Err(ClientCommand(refused.value)); }
    return Ok((sent + fed.value + last.value, splitter.line));
  }

  /** The loop over the chunks before the one that returns nothing. `accept` stands for `validate_statement`,
      and the returned statements for those sent to the receiver. */
  method DecodeStream(chunks: seq<seq<byte>>, maxStatementBytes: nat, accept: Statement -> bool) returns (r: Streamed)
    ensures r == Stream([], Init(maxStatementBytes), [], true, [], 0, chunks, accept)
  {
    hide Run, Feeding, Utf8.FromUtf8, StreamEnd;
    var utf8 := new Utf8.IncrementalUtf8();
    var splitter := new MysqlSplitter(maxStatementBytes);
    var firstText, sent := true, [];
    var uncompressed: nat := 0;
    ghost var goal := Stream([], Init(maxStatementBytes), [], true, [], 0, chunks, accept);
    assert chunks[0..] == chunks;
    for k := 0 to |chunks|
      invariant fresh(utf8) && fresh(splitter)
      invariant Stream(utf8.pending, splitter.State(), splitter.pending, firstText, sent, uncompressed, chunks[k..],
                accept) == goal
    {
      assert chunks[k..][1..] == chunks[k + 1..];
      var decoded := utf8.Push(chunks[k]);
      if decoded.Err? { return Err(NotUtf8(uncompressed + decoded.error.validUpTo)); }
      uncompressed := uncompressed + |chunks[k]|;
      var text := decoded.value;
      var fed := FeedChecked(splitter, FedText(firstText, text), accept);
      if fed.Err? { return Err(fed.error); }
      firstText := firstText && text == [];
      sent := sent + fed.value;
    }
    r := EndStream(utf8, splitter, firstText, sent, uncompressed, accept);
  }

  // ---- The stream is a UTF-8 session followed by a splitter session ----

  function FedTexts(first: bool, texts: seq<seq<byte>>): seq<seq<byte>> {
    if texts == [] then []
    else [FedText(first, texts[0])] + FedTexts(first && texts[0] == [], texts[1..])
  }

  type Outcomes = Option<(seq<Statement>, nat)>

  function Answer(r: Streamed): Outcomes { if r.Ok? then Some(r.value) else None }

  /** The statements and the line count of a splitter session, if all its statements are accepted. */
  function Accepted(p: Progress, done: seq<Statement>, accept: Statement -> bool): Outcomes {
    var c := Concluded(p);
    if c.Err? || Refused(c.value, accept).Some? then None else Some((done + c.value, p.lx.line))
  }

  lemma AcceptedPrepend(out: seq<Statement>, p: Progress, done: seq<Statement>, accept: Statement -> bool)
    ensures Accepted(Prepend(out, p), done, accept)
         == if Refused(out, accept).Some? then None else Accepted(p, done + out, accept)
  {
    ConcludedPrepend(out, p);
    var c := Concluded(p);
    if c.Ok? { assert done + (out + c.value) == (done + out) + c.value; }
  }

  lemma StreamEnds(lx: Lexer, pend: seq<byte>, done: seq<Statement>, total: nat, accept: Statement -> bool)
    ensures Answer(StreamEnd([], lx, pend, done, total, accept)) == Accepted(SessionRun(lx, pend, [[]]), done, accept)
  {
    var none: seq<seq<byte>> := [[]];
    assert none[1..] == [];
    var p := Run(lx, pend + [], false);
    if p.Done? {
      AcceptedPrepend(p.out, Run(p.lx, p.rest, true), done, accept);
    }
  }

  lemma {:induction false} StreamIsSession(u: seq<byte>, lx: Lexer, pend: seq<byte>, first: bool,
                                           done: seq<Statement>, total: nat, chunks: seq<seq<byte>>,
                                           accept: Statement -> bool)
    ensures Answer(Stream(u, lx, pend, first, done, total, chunks, accept))
         == match Utf8.Session(u, chunks)
            case Err(_) => None
            case Ok(texts) => Accepted(SessionRun(lx, pend, FedTexts(first, texts)), done, accept)
    decreases |chunks|
  {
    hide Run, Feeding;
    if chunks == [] {
      var none: seq<seq<byte>> := [[]];
      assert none[1..] == [] && FedTexts(first, none) == none;
      StreamEnds(lx, pend, done, total, accept);
    } else {
      var (v, decoded) := Utf8.Pushed(u, chunks[0]);
      if decoded.Ok? {
        StreamTurn(lx, pend, first, done, total + |chunks[0]|, v, decoded.value, chunks[1..], accept);
        var p := Feeding(lx, pend, FedText(first, decoded.value), accept);
        if p.Fed? {
          StreamIsSession(v, p.lx, p.rest, first && decoded.value == [], done + p.out, total + |chunks[0]|,
                          chunks[1..], accept);
        }
      }
    }
  }

  /** One read, on the side of the sessions. */
  lemma StreamTurn(lx: Lexer, pend: seq<byte>, first: bool, done: seq<Statement>, total: nat, v: seq<byte>,
                   text: seq<byte>, chunks: seq<seq<byte>>, accept: Statement -> bool)
    ensures var texts := Utf8.Session(v, chunks);
            texts.Ok? ==>
              var all := FedTexts(first, [text] + texts.value);
              Accepted(SessionRun(lx, pend, all), done, accept) ==
              match Feeding(lx, pend, FedText(first, text), accept)
              case Stopped(_) => None
              case Fed(l, r, out) =>
                Accepted(SessionRun(l, r, FedTexts(first && text == [], texts.value)), done + out, accept)
  {
    var texts := Utf8.Session(v, chunks);
    if texts.Ok? {
      assert ([text] + texts.value)[1..] == texts.value;
      var all := FedTexts(first, [text] + texts.value);
      var rest := FedTexts(first && text == [], texts.value);
      assert all[0] == FedText(first, text) && all[1..] == rest;
      var p := Run(lx, pend + FedText(first, text), false);
      if p.Done? { AcceptedPrepend(p.out, SessionRun(p.lx, p.rest, rest), done, accept); }
    }
  }

  // ---- The byte-order mark ----

  lemma MarkFits(t: seq<byte>, more: seq<byte>)
    requires Utf8.WellFormed(t) && t != []
    ensures BOM <= t + more <==> BOM <= t
    ensures StripBom(t + more) == StripBom(t) + more
  {
    Utf8.ValidIsWellFormed(t);
    if BOM <= t + more {
      assert t[0] == (t + more)[0] == 0xEF;
      assert Utf8.Front1(t) == Utf8.Char(3);
      assert t[..3] == (t + more)[..3];
    }
    if BOM <= t { assert (t + more)[3..] == t[3..] + more; }
  }

  lemma {:induction false} FedWithoutMark(texts: seq<seq<byte>>)
    ensures FedTexts(false, texts) == texts
  {
    if texts != [] { FedWithoutMark(texts[1..]); }
  }

  /** Stripping the mark from the first text that is not empty strips it from the whole. */
  lemma {:induction false} FedIsStripped(texts: seq<seq<byte>>)
    requires forall t <- texts :: Utf8.WellFormed(t)
    ensures Concat(FedTexts(true, texts)) == StripBom(Concat(texts))
    decreases |texts|
  {
    if texts != [] {
      var fed := FedTexts(true, texts);
      if texts[0] == [] {
        FedIsStripped(texts[1..]);
        assert fed[1..] == FedTexts(true, texts[1..]);
      } else {
        FedWithoutMark(texts[1..]);
        assert fed[1..] == texts[1..];
        MarkFits(texts[0], Concat(texts[1..]));
      }
    }
  }

  // ---- Cuts of the bytes and cuts of the texts ----

  /** Up to piece `k` the decoder has put out what it has read, except what it holds. */
  function Held(u: seq<byte>, chunks: seq<seq<byte>>, k: nat): seq<byte>
    requires k <= |chunks|
    decreases k
  {
    if k == 0 then u else Held(Utf8.Pushed(u, chunks[0]).0, chunks[1..], k - 1)
  }

  lemma {:induction false} HeldSplits(u: seq<byte>, chunks: seq<seq<byte>>, k: nat)
    requires k <= |chunks| && Utf8.GoodPending(u) && Utf8.Session(u, chunks).Ok?
    ensures var texts, h := Utf8.Session(u, chunks).value, Held(u, chunks, k);
            && |texts| == |chunks| + 1 && Utf8.GoodPending(h)
            && Concat(texts[..k]) + h == u + Concat(chunks[..k])
            && Concat(texts[k..]) == h + Concat(chunks[k..])
    decreases k
  {
    hide Utf8.Pushed, Utf8.GoodPending, Concat;
    var texts := Utf8.Session(u, chunks).value;
    if k == 0 {
      SessionLength(u, chunks);
      Utf8.SessionDecodes(u, chunks);
      assert chunks[0..] == chunks && texts[0..] == texts;
      NothingBefore(texts, chunks, u);
    } else {
      var (v, r) := Utf8.Pushed(u, chunks[0]);
      Utf8.PushKeepsPending(u, chunks[0]);
      var rest := Utf8.Session(v, chunks[1..]).value;
      HeldSplits(v, chunks[1..], k - 1);
      HeldStep(u, chunks, k, v, r.value, rest, Held(u, chunks, k));
    }
  }

  lemma NothingBefore(texts: seq<seq<byte>>, chunks: seq<seq<byte>>, u: seq<byte>)
    ensures Concat(texts[..0]) + u == u == u + Concat(chunks[..0])
  {
  }

  lemma HeldStep(u: seq<byte>, chunks: seq<seq<byte>>, k: nat, v: seq<byte>, text: seq<byte>,
                 rest: seq<seq<byte>>, h: seq<byte>)
    requires 1 <= k <= |chunks| && |rest| == |chunks| && text + v == u + chunks[0]
    requires Concat(rest[..k - 1]) + h == v + Concat(chunks[1..][..k - 1])
    requires Concat(rest[k - 1..]) == h + Concat(chunks[1..][k - 1..])
    ensures var texts := [text] + rest;
            && Concat(texts[..k]) + h == u + Concat(chunks[..k])
            && Concat(texts[k..]) == h + Concat(chunks[k..])
  {
    var texts := [text] + rest;
    assert texts[..k][1..] == rest[..k - 1] && texts[k..] == rest[k - 1..];
    assert chunks[..k][1..] == chunks[1..][..k - 1] && chunks[1..][k - 1..] == chunks[k..];
    Regrouped(text, Concat(rest[..k - 1]), h, v, Concat(chunks[1..][..k - 1]), u, chunks[0]);
  }

  lemma Regrouped(text: seq<byte>, a: seq<byte>, h: seq<byte>, v: seq<byte>, b: seq<byte>, u: seq<byte>, c: seq<byte>)
    requires a + h == v + b && text + v == u + c
    ensures (text + a) + h == u + (c + b)
  {
    assert (text + a) + h == text + (a + h);
    assert text + (v + b) == (text + v) + b;
  }

  lemma {:induction false} SessionLength(u: seq<byte>, chunks: seq<seq<byte>>)
    requires Utf8.Session(u, chunks).Ok?
    ensures |Utf8.Session(u, chunks).value| == |chunks| + 1
    decreases |chunks|
  {
    if chunks != [] { SessionLength(Utf8.Pushed(u, chunks[0]).0, chunks[1..]); }
  }

  predicate SuffixOf(a: seq<byte>, t: seq<byte>) { |a| <= |t| && t[|t| - |a|..] == a }

  lemma SuffixPrepend(a: seq<byte>, t: seq<byte>, x: seq<byte>)
    requires SuffixOf(a, t)
    ensures SuffixOf(a + x, t + x)
  {
  }

  /** Up to a cut, the fed texts differ from the decoded ones at most by what was stripped in front. */
  lemma {:induction false} FedCut(texts: seq<seq<byte>>, k: nat)
    requires k <= |texts|
    ensures var fed := FedTexts(true, texts);
            && |fed| == |texts| && SuffixOf(Concat(fed[..k]), Concat(texts[..k]))
            && (Concat(fed[..k]) != [] ==> fed[k..] == texts[k..])
    decreases k
  {
    var fed := FedTexts(true, texts);
    FedLength(true, texts);
    if k > 0 {
      assert fed[..k][1..] == fed[1..][..k - 1] && texts[..k][1..] == texts[1..][..k - 1];
      assert fed[k..] == fed[1..][k - 1..] && texts[k..] == texts[1..][k - 1..];
      if texts[0] == [] {
        FedCut(texts[1..], k - 1);
      } else {
        FedWithoutMark(texts[1..]);
        SuffixPrepend(StripBom(texts[0]), texts[0], Concat(texts[1..][..k - 1]));
      }
    }
  }

  lemma {:induction false} FedLength(first: bool, texts: seq<seq<byte>>)
    ensures |FedTexts(first, texts)| == |texts|
  {
    if texts != [] { FedLength(first && texts[0] == [], texts[1..]); }
  }

  /** A cut of the fed texts that splits an opener is a cut of the bytes that does. */
  lemma CutIsACut(chunks: seq<seq<byte>>, k: nat)
    requires Utf8.Session([], chunks).Ok? && k <= |chunks|
    requires |FedTexts(true, Utf8.Session([], chunks).value)| == |chunks| + 1
    requires CutsOpener(FedTexts(true, Utf8.Session([], chunks).value), k)
    ensures CutsOpener(chunks, k)
  {
    var texts := Utf8.Session([], chunks).value;
    SessionLength([], chunks);
    FedCut(texts, k);
    HeldSplits([], chunks, k);
    HeldIsNotBang([], chunks, k);
    var h := Held([], chunks, k);
    CutCarries(Concat(FedTexts(true, texts)[..k]), Concat(texts[..k]));
    if h == [] {
      assert Concat(texts[..k]) + h == Concat(texts[..k]);
      assert [] + Concat(chunks[..k]) == Concat(chunks[..k]);
      assert h + Concat(chunks[k..]) == Concat(chunks[k..]);
    }
  }

  lemma CutCarries(a: seq<byte>, t: seq<byte>)
    requires SuffixOf(a, t) && |a| >= 2
    ensures |t| >= 2 && t[|t| - 2..] == a[|a| - 2..]
  {
    assert t[|t| - 2..] == t[|t| - |a|..][|a| - 2..];
  }

  lemma HeldIsNotBang(u: seq<byte>, chunks: seq<seq<byte>>, k: nat)
    requires k <= |chunks| && Utf8.GoodPending(Held(u, chunks, k))
    ensures Held(u, chunks, k) != [] ==> Held(u, chunks, k)[0] != BANG
  {
  }

  /** The decoded texts, fed, give what the whole decoded text gives. */
  lemma FedSession(lx: Lexer, chunks: seq<seq<byte>>)
    requires Utf8.Session([], chunks).Ok?
    requires forall k | 0 <= k <= |chunks| :: !CutsOpener(chunks, k)
    ensures SessionRun(lx, [], FedTexts(true, Utf8.Session([], chunks).value)) ==
            Run(lx, StripBom(Concat(chunks)), true)
  {
    var texts := Utf8.Session([], chunks).value;
    var fed := FedTexts(true, texts);
    SessionLength([], chunks);
    FedLength(true, texts);
    forall k | 0 <= k <= |fed| ensures !CutsOpener(fed, k) {
      if k <= |chunks| {
        if CutsOpener(fed, k) { CutIsACut(chunks, k); }
      } else {
        assert fed[k..] == [];
      }
    }
    ChunkingInvarianceText(lx, fed);
    Utf8.SessionDecodes([], chunks);
    FedIsStripped(texts);
    assert [] + Concat(chunks) == Concat(chunks);
  }

  /** What the scan of a file should deliver: its statements and its number of lines. */
  ghost function Expected(bytes: seq<byte>, limit: nat, accept: Statement -> bool): Outcomes {
    var text := StripBom(bytes);
    var statements := Finish(Init(limit), text);
    if Utf8.WellFormed(bytes) && statements.Ok? && (forall st <- statements.value :: accept(st))
    then Some((statements.value, 1 + Newlines(text)))
    else None
  }

  /** End to end: however the bytes arrive, as long as no read ends between the opener and the `!`
      of a versioned comment, the scan succeeds exactly when the bytes are well-formed UTF-8 and their
      text without the mark splits into accepted statements; it then delivers those statements and
      counts the lines of that text. */
  lemma EndToEnd(chunks: seq<seq<byte>>, limit: nat, accept: Statement -> bool)
    requires forall k | 0 <= k <= |chunks| :: !CutsOpener(chunks, k)
    ensures Answer(Stream([], Init(limit), [], true, [], 0, chunks, accept)) == Expected(Concat(chunks), limit, accept)
  {
    hide Run, Stream, Utf8.WellFormed, CutsOpener, FedTexts, Newlines, Accepted, Utf8.Session, SessionRun, StripBom,
      Refused;
    StreamIsSession([], Init(limit), [], true, [], 0, chunks, accept);
    Utf8.SessionDecodes([], chunks);
    assert [] + Concat(chunks) == Concat(chunks);
    WholeAccepted(limit, StripBom(Concat(chunks)), accept);
    if Utf8.Session([], chunks).Ok? {
      FedSession(Init(limit), chunks);
    }
  }

  lemma WholeAccepted(limit: nat, text: seq<byte>, accept: Statement -> bool)
    ensures var statements := Finish(Init(limit), text);
            Accepted(Run(Init(limit), text, true), [], accept) ==
            if statements.Ok? && (forall st <- statements.value :: accept(st))
            then Some((statements.value, 1 + Newlines(text)))
            else None
  {
    hide Run, Newlines;
    var statements := Finish(Init(limit), text);
    if statements.Ok? {
      FinalLine(limit, text);
      assert [] + statements.value == statements.value;
    }
  }

  lemma FinalLine(limit: nat, text: seq<byte>)
    requires Run(Init(limit), text, true).Done?
    ensures Run(Init(limit), text, true).lx.line == 1 + Newlines(text)
  {
    hide Run, Init, Traced, ReadBy, Tracks, Window;
    InitTracks(limit);
    RunTraced(Init(limit), [], text, true);
    RunEnds(Init(limit), text, true);
    TracedLine(Init(limit).limit, Window(Init(limit), []), text, Run(Init(limit), text, true));
  }

  lemma TracedLine(limit: nat, w: int, text: seq<byte>, p: Progress)
    requires p.Done? && p.rest == [] && Traced(limit, w, [] + ReadBy(text, p), p)
    ensures p.lx.line == 1 + Newlines(text)
  {
    hide Chain, Newlines;
    assert [] + ReadBy(text, p) == text;
  }
}
