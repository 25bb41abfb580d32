/** The incremental MySQL lexer of src-tauri/src/sqlscript.rs as a function of its state:
    one step of `process`, the loop over the pending bytes, and a whole session of feeds. */
module SqlLexer {
  import opened Common
  import Utf8

  datatype Mode = Normal | SingleQuote | DoubleQuote | Backtick | LineComment | BlockComment

  datatype Statement = Statement(sql: seq<byte>, line: nat, offset: nat)

  datatype ScriptError =
    | TooLong(line: nat)
    | Unterminated(mode: Mode, line: nat)
    | DelimiterInStatement(line: nat)
    | DelimiterWithoutValue(line: nat)
    | DelimiterWithManyValues(line: nat)
    | DelimiterOversized(line: nat)

  type Delimiter = s: seq<byte> | 1 <= |s| <= 32 witness [59]

  datatype Lexer = Lexer(
    mode: Mode, escaped: bool, delimiter: Delimiter,
    absolute: nat, previous: Option<byte>, line: nat, lineStart: bool,
    current: seq<byte>, stmtLine: nat, stmtOffset: nat, hasCode: bool, limit: nat)

  function Init(limit: nat): Lexer {
    Lexer(Normal, false, [SEMICOLON], 0, None, 1, true, [], 0, 0, false, limit)
  }

  const LF: byte := 10
  const CR: byte := 13
  const BANG: byte := 33
  const DQUOTE: byte := 34
  const HASH: byte := 35
  const SQUOTE: byte := 39
  const STAR: byte := 42
  const DASH: byte := 45
  const SLASH: byte := 47
  const SEMICOLON: byte := 59
  const BACKSLASH: byte := 92
  const BACKTICK: byte := 96

  predicate IsSpace(b: byte) { b == 9 || b == 10 || b == 12 || b == 13 || b == 32 }

  predicate IsWord(b: byte) { 48 <= b <= 57 || 65 <= b <= 90 || 97 <= b <= 122 || b == 95 }

  function Lower(b: byte): byte { if 65 <= b <= 90 then b + 32 else b }

  predicate EqIgnoreCase(a: seq<byte>, b: seq<byte>) {
    |a| == |b| && forall i | 0 <= i < |a| :: Lower(a[i]) == Lower(b[i])
  }

  // ---- Reading one byte ----

  /** `append`: the byte joins the current statement, which starts at its first non-space byte. */
  function Appended(lx: Lexer, b: byte): Result<Lexer, ScriptError> {
    var l := if lx.stmtLine == 0 && !IsSpace(b) then lx.(stmtLine := lx.line, stmtOffset := lx.absolute) else lx;
    if |l.current| + 1 > l.limit then Err(TooLong(if l.stmtLine == 0 then 1 else l.stmtLine))
    else Ok(l.(current := l.current + [b]))
  }

  /** `consume`: the position moves past the byte. */
  function Consumed(lx: Lexer, b: byte): Lexer {
    lx.(absolute := lx.absolute + 1, previous := Some(b),
        line := if b == LF then lx.line + 1 else lx.line, lineStart := b == LF)
  }

  function ConsumedAll(lx: Lexer, bs: seq<byte>): Lexer
    decreases |bs|
  {
    if bs == [] then lx else ConsumedAll(Consumed(lx, bs[0]), bs[1..])
  }

  function Taken(lx: Lexer, b: byte): Result<Lexer, ScriptError> {
    match Appended(lx, b)
    case Err(e) => Err(e)
    case Ok(l) => Ok(Consumed(l, b))
  }

  function Taken2(lx: Lexer, a: byte, b: byte): Result<Lexer, ScriptError> {
    match Taken(lx, a)
    case Err(e) => Err(e)
    case Ok(l) => Taken(l, b)
  }

  /** `reset_statement`, with the buffer cleared. */
  function Reset(lx: Lexer): Lexer {
    lx.(current := [], stmtLine := 0, stmtOffset := 0, hasCode := false, escaped := false)
  }

  // ---- Emitting a statement ----

  function LeadingSpaces(s: seq<byte>): (n: nat)
    ensures n <= |s|
    ensures forall i | 0 <= i < n :: IsSpace(s[i])
    ensures n < |s| ==> !IsSpace(s[n])
  {
    if s == [] || !IsSpace(s[0]) then 0 else 1 + LeadingSpaces(s[1..])
  }

  /** Where the trailing white space begins. */
  function TrailingStart(s: seq<byte>): (n: nat)
    ensures n <= |s|
    ensures forall i | n <= i < |s| :: IsSpace(s[i])
    ensures n > 0 ==> !IsSpace(s[n - 1])
  {
    if s == [] then 0 else if !IsSpace(s[|s| - 1]) then |s| else TrailingStart(s[..|s| - 1])
  }

  function Trimmed(s: seq<byte>): seq<byte> {
    var start := LeadingSpaces(s);
    if start == |s| then [] else s[start..TrailingStart(s)]
  }

  function Emit(lx: Lexer): Statement {
    Statement(Trimmed(lx.current), if lx.stmtLine == 0 then 1 else lx.stmtLine, lx.stmtOffset)
  }

  // ---- The DELIMITER directive ----

  datatype Directive =
    | Waiting
    | NotDirective
    | Malformed(error: ScriptError)
    | NewDelimiter(value: Delimiter, consumed: nat)

  /** The index of the first line feed, or the length. */
  function LineEnd(s: seq<byte>): (n: nat)
    ensures n <= |s|
    ensures n < |s| ==> s[n] == LF
    ensures LF !in s[..n]
  {
    if s == [] || s[0] == LF then 0 else 1 + LineEnd(s[1..])
  }

  function WordLength(s: seq<byte>): (n: nat)
    ensures n <= |s|
    ensures s != [] && !IsSpace(s[0]) ==> n > 0
  {
    if s == [] || IsSpace(s[0]) then 0 else 1 + WordLength(s[1..])
  }

  /** `split_ascii_whitespace` */
  function Words(s: seq<byte>): (ws: seq<seq<byte>>)
    ensures forall w <- ws :: w != []
    decreases |s|
  {
    if s == [] then [] else if IsSpace(s[0]) then Words(s[1..])
    else [s[..WordLength(s)]] + Words(s[WordLength(s)..])
  }

  function TrimEndCr(s: seq<byte>): seq<byte> {
    if s != [] && s[|s| - 1] == CR then TrimEndCr(s[..|s| - 1]) else s
  }

  const DELIMITER: seq<byte> := [100, 101, 108, 105, 109, 105, 116, 101, 114]

  /** What a complete line starting at the line start says. */
  function DirectiveLine(text: seq<byte>, line: nat, consumed: nat): (d: Directive)
    ensures !d.Waiting?
    ensures d.NewDelimiter? ==> d.consumed == consumed
  {
    var words := Words(if Utf8.FromUtf8(text).Valid? then TrimEndCr(text) else []);
    if words == [] || !EqIgnoreCase(words[0], DELIMITER) then NotDirective
    else if |words| == 1 then Malformed(DelimiterWithoutValue(line))
    else if |words| > 2 then Malformed(DelimiterWithManyValues(line))
    else if |words[1]| > 32 then Malformed(DelimiterOversized(line))
    else
      assert words[1] in words;
      NewDelimiter(words[1], consumed)
  }

  function ParseDirective(rest: seq<byte>, line: nat, final: bool): (d: Directive)
    requires rest != [] && rest[0] != LF
    ensures d.NewDelimiter? ==> 1 <= d.consumed <= |rest|
  {
    var end := LineEnd(rest);
    if end < |rest| then DirectiveLine(rest[..end], line, end + 1)
    else if final then DirectiveLine(rest, line, end)
    else Waiting
  }

  // ---- One step of `process` ----

  datatype Outcome = Wait | Stop(error: ScriptError) | Go(next: Lexer, used: nat, out: seq<Statement>)

  /** The step that reads `used` bytes into `taken` and continues in `mode`. */
  function Read(taken: Result<Lexer, ScriptError>, used: nat, mode: Mode, code: bool): Outcome {
    match taken
    case Err(e) => Stop(e)
    case Ok(l) => Go(l.(mode := mode, hasCode := l.hasCode || code), used, [])
  }

  predicate DashComment(rest: seq<byte>) {
    |rest| >= 3 && rest[0] == DASH && rest[1] == DASH && IsSpace(rest[2])
  }

  predicate OpensBlock(rest: seq<byte>) { |rest| >= 2 && rest[0] == SLASH && rest[1] == STAR }

  predicate OpensVersioned(rest: seq<byte>) { |rest| >= 3 && OpensBlock(rest) && rest[2] == BANG }

  predicate IsQuote(b: byte) { b == SQUOTE || b == DQUOTE || b == BACKTICK }

  function QuoteMode(b: byte): Mode {
    if b == SQUOTE then SingleQuote else if b == DQUOTE then DoubleQuote else Backtick
  }

  function QuoteByte(mode: Mode): byte {
    match mode
    case SingleQuote => SQUOTE
    case DoubleQuote => DQUOTE
    case _ => BACKTICK
  }

  predicate DelimiterAt(lx: Lexer, rest: seq<byte>) {
    var d := lx.delimiter;
    && |d| <= |rest| && rest[..|d|] == d
    && !(IsWord(d[0]) && lx.previous.Some? && IsWord(lx.previous.value))
    && !(IsWord(d[|d| - 1]) && |d| < |rest| && IsWord(rest[|d|]))
  }

  /** More input could still decide whether a delimiter starts here. */
  predicate DelimiterUndecided(lx: Lexer, rest: seq<byte>) {
    var d := lx.delimiter;
    || (|rest| < |d| && rest == d[..|rest|])
    || (rest == d && IsWord(d[|d| - 1]))
  }

  function StepDelimiter(lx: Lexer): Outcome {
    Go(ConsumedAll(Reset(lx), lx.delimiter), |lx.delimiter|, if lx.hasCode then [Emit(lx)] else [])
  }

  function StepNormal(lx: Lexer, rest: seq<byte>, final: bool): Outcome
    requires rest != []
  {
    var b := rest[0];
    if b == HASH then Read(Taken(lx, b), 1, LineComment, false)
    else if b == DASH && |rest| < 3 && !final then Wait
    else if DashComment(rest) then Read(Taken(lx, b), 1, LineComment, false)
    else if b == SLASH && |rest| < 2 && !final then Wait
    else if OpensBlock(rest) then Read(Taken2(lx, b, STAR), 2, BlockComment, OpensVersioned(rest))
    else if IsQuote(b) then Read(Taken(lx, b), 1, QuoteMode(b), true)
    else if !final && DelimiterUndecided(lx, rest) then Wait
    else if DelimiterAt(lx, rest) then StepDelimiter(lx)
    else Read(Taken(lx, b), 1, Normal, !IsSpace(b))
  }

  function StepBlock(lx: Lexer, rest: seq<byte>, final: bool): Outcome
    requires rest != []
  {
    var b := rest[0];
    if b == STAR && |rest| < 2 && !final then Wait
    else if b == STAR && |rest| >= 2 && rest[1] == SLASH then Read(Taken2(lx, b, SLASH), 2, Normal, false)
    else Read(Taken(lx, b), 1, BlockComment, false)
  }

  function StepQuoted(lx: Lexer, rest: seq<byte>, final: bool): Outcome
    requires rest != []
  {
    var b := rest[0];
    var quote := QuoteByte(lx.mode);
    if b == quote && !lx.escaped && |rest| < 2 && !final then Wait
    else if lx.escaped then Read(Taken(lx.(escaped := false), b), 1, lx.mode, false)
    else if b == BACKSLASH && !lx.mode.Backtick? then Read(Taken(lx.(escaped := true), b), 1, lx.mode, false)
    else if b == quote && |rest| >= 2 && rest[1] == quote then Read(Taken2(lx, b, quote), 2, lx.mode, false)
    else if b == quote then Read(Taken(lx, b), 1, Normal, false)
    else Read(Taken(lx, b), 1, lx.mode, false)
  }

  function StepByte(lx: Lexer, rest: seq<byte>, final: bool): Outcome
    requires rest != []
  {
    match lx.mode
    case Normal => StepNormal(lx, rest, final)
    case LineComment => Read(Taken(lx, rest[0]), 1, if rest[0] == LF then Normal else LineComment, false)
    case BlockComment => StepBlock(lx, rest, final)
    case _ => StepQuoted(lx, rest, final)
  }

  /** A line that may be a DELIMITER directive starts here. */
  predicate AtDirective(lx: Lexer, rest: seq<byte>)
    requires rest != []
  {
    lx.mode.Normal? && lx.lineStart && (rest[0] == 100 || rest[0] == 68)
  }

  function StepDirective(lx: Lexer, rest: seq<byte>, value: Delimiter, n: nat): Outcome
    requires n <= |rest|
  {
    if lx.hasCode then Stop(DelimiterInStatement(lx.line))
    else Go(ConsumedAll(Reset(lx).(delimiter := value), rest[..n]), n, [])
  }

  function Step(lx: Lexer, rest: seq<byte>, final: bool): Outcome
    requires rest != []
  {
    if AtDirective(lx, rest) then
      match ParseDirective(rest, lx.line, final)
      case Waiting => Wait
      case Malformed(e) => Stop(e)
      case NewDelimiter(v, n) => StepDirective(lx, rest, v, n)
      case NotDirective => StepByte(lx, rest, final)
    else StepByte(lx, rest, final)
  }

  lemma StepUses(lx: Lexer, rest: seq<byte>, final: bool)
    requires rest != [] && Step(lx, rest, final).Go?
    ensures 1 <= Step(lx, rest, final).used <= |rest|
  {
    hide Taken, Consumed, ConsumedAll, IsSpace, Emit;
  }

  lemma FinalNeverWaits(lx: Lexer, rest: seq<byte>)
    requires rest != []
    ensures !Step(lx, rest, true).Wait?
  {
  }

  // ---- The loop of `process`, and a session ----

  datatype Progress = Failed(error: ScriptError) | Done(lx: Lexer, rest: seq<byte>, out: seq<Statement>)

  function Prepend(out: seq<Statement>, p: Progress): Progress {
    if p.Failed? then p else p.(out := out + p.out)
  }

  function Run(lx: Lexer, rest: seq<byte>, final: bool): Progress
    decreases |rest|
  {
    if rest == [] then Done(lx, [], [])
    else match Step(lx, rest, final)
      case Wait => Done(lx, rest, [])
      case Stop(e) => Failed(e)
      case Go(next, n, out) =>
        StepUses(lx, rest, final);
        Prepend(out, Run(next, rest[n..], final))
  }

  predicate Closed(mode: Mode) { mode.Normal? || mode.LineComment? }

  function Concluded(p: Progress): Result<seq<Statement>, ScriptError> {
    match p
    case Failed(e) => Err(e)
    case Done(l, _, out) =>
      if !Closed(l.mode) then Err(Unterminated(l.mode, l.line))
      else Ok(if l.hasCode then out + [Emit(l)] else out)
  }

  /** `finish`: everything pending is decided, and the last statement needs no delimiter. */
  function Finish(lx: Lexer, pending: seq<byte>): Result<seq<Statement>, ScriptError> {
    Concluded(Run(lx, pending, true))
  }

  /** Feeding every piece, then processing what is pending as final: the progress of the whole session. */
  function SessionRun(lx: Lexer, pending: seq<byte>, pieces: seq<seq<byte>>): Progress
    decreases |pieces|
  {
    if pieces == [] then Run(lx, pending, true)
    else match Run(lx, pending + pieces[0], false)
      case Failed(e) => Failed(e)
      case Done(l, rest, out) => Prepend(out, SessionRun(l, rest, pieces[1..]))
  }

  /** Feeding every piece and finishing: all the statements, or the error. */
  function Session(lx: Lexer, pieces: seq<seq<byte>>): Result<seq<Statement>, ScriptError> {
    Concluded(SessionRun(lx, [], pieces))
  }

  function PrependOk(out: seq<Statement>, r: Result<seq<Statement>, ScriptError>): Result<seq<Statement>, ScriptError> {
    if r.Ok? then Ok(out + r.value) else r
  }
}
