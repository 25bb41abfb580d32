/** `MysqlSplitter` of src-tauri/src/sqlscript.rs: the mutable lexer, proved against `SqlLexer`. */
module SqlScript {
  import opened Common
  import opened SqlLexer
  import SqlChunking

  /** How one turn of the loop in `process` ends. */
  datatype Turn = Break | Fail(error: ScriptError) | Continue(used: nat, out: seq<Statement>)

  /** The turn is the specified step, and `now` is the state that step leads to. */
  ghost predicate Realises(turn: Turn, step: Outcome, before: Lexer, now: Lexer) {
    match turn
    case Break => step.Wait? && now == before
    case Fail(e) => step == Stop(e)
    case Continue(n, out) => step == Go(now, n, out)
  }

  lemma TakenEscaping(lx: Lexer, b: byte, escaped: bool)
    ensures Taken(lx.(escaped := escaped), b) ==
            match Taken(lx, b)
            case Err(e) => Err(e)
            case Ok(l) => Ok(l.(escaped := escaped))
    ensures Taken(lx, b).Ok? ==> Taken(lx, b).value.mode == lx.mode && Taken(lx, b).value.escaped == lx.escaped
  {
  }

  class MysqlSplitter {
    var pending: seq<byte>
    var current: seq<byte>
    var state: Mode
    var escaped: bool
    var delimiter: Delimiter
    var absolute: nat
    var previous: Option<byte>
    var line: nat
    var lineStart: bool
    var statementLine: nat
    var statementOffset: nat
    var hasCode: bool
    const maxStatementBytes: nat

    constructor (maxStatementBytes: nat)
      ensures State() == Init(maxStatementBytes) && pending == []
    {
      this.maxStatementBytes := maxStatementBytes;
      pending, current, state := [], [], Normal;
      escaped, delimiter, absolute, previous := false, [SEMICOLON], 0, None;
      line, lineStart, statementLine, statementOffset := 1, true, 0, 0;
      hasCode := false;
    }

    ghost function State(): Lexer
      reads this
    {
      Lexer(state, escaped, delimiter, absolute, previous, line, lineStart,
            current, statementLine, statementOffset, hasCode, maxStatementBytes)
    }

    method Append(b: byte) returns (r: Option<ScriptError>)
      modifies this`statementLine, this`statementOffset, this`current
      ensures Appended(old(State()), b) == if r.None? then Ok(State()) else Err(r.value)
    {
      if statementLine == 0 && !IsSpace(b) {
        statementLine := line;
        statementOffset := absolute;
      }
      current := current + [b];
      if |current| > maxStatementBytes {
        return Some(TooLong(if statementLine == 0 then 1 else statementLine));
      }
      return None;
    }

    method Consume(b: byte)
      modifies this`absolute, this`previous, this`line, this`lineStart
      ensures State() == Consumed(old(State()), b)
    {
      absolute := absolute + 1;
      previous := Some(b);
      if b == LF {
        line := line + 1;
        lineStart := true;
      } else {
        lineStart := false;
      }
    }

    /** `append(b)?; consume(b);` */
    method Take(b: byte) returns (r: Option<ScriptError>)
      modifies this
      ensures pending == old(pending)
      ensures Taken(old(State()), b) == if r.None? then Ok(State()) else Err(r.value)
    {
      r := Append(b);
      if r.None? { Consume(b); }
    }

    method ConsumeAll(bs: seq<byte>)
      modifies this`absolute, this`previous, this`line, this`lineStart
      ensures State() == ConsumedAll(old(State()), bs)
    {
      for k := 0 to |bs|
        invariant ConsumedAll(State(), bs[k..]) == ConsumedAll(old(State()), bs)
        invariant State() ==
                  old(State()).(absolute := absolute, previous := previous, line := line, lineStart := lineStart)
      {
        assert bs[k..][1..] == bs[k + 1..];
        Consume(bs[k]);
      }
    }

    method ResetStatement()
      modifies this`statementLine, this`statementOffset, this`hasCode, this`escaped
      ensures State().(current := []) == Reset(old(State()))
    {
      statementLine := 0;
      statementOffset := 0;
      hasCode := false;
      escaped := false;
    }

    function EmitStatement(): (st: Statement)
      reads this
      ensures st == Emit(State())
    {
      Statement(Trimmed(current), if statementLine == 0 then 1 else statementLine, statementOffset)
    }

    /** `delimiter_at`: the word before the delimiter is looked up in the buffer, or remembered. */
    predicate DelimiterHere(i: nat)
      requires i < |pending| && (i > 0 ==> previous == Some(pending[i - 1]))
      reads this
      ensures DelimiterHere(i) == DelimiterAt(State(), pending[i..])
    {
      var d := delimiter;
      if i + |d| > |pending| then false
      else
        assert pending[i..][..|d|] == pending[i..i + |d|];
        if pending[i..i + |d|] != d then false
        else if IsWord(d[0]) && i > 0 && IsWord(pending[i - 1]) then false
        else if IsWord(d[0]) && i == 0 && previous.Some? && IsWord(previous.value) then false
        else if IsWord(d[|d| - 1]) && i + |d| < |pending| && IsWord(pending[i + |d|]) then false
        else true
    }

    /** Takes one byte and moves to `mode`: the common shape of a turn. */
    method TakeOne(b: byte, mode: Mode, code: bool) returns (t: Turn)
      modifies this
      ensures pending == old(pending)
      ensures Realises(t, Read(Taken(old(State()), b), 1, mode, code), old(State()), State())
    {
      var r := Take(b);
      if r.Some? { return Fail(r.value); }
      state := mode;
      if code { hasCode := true; }
      return Continue(1, []);
    }

    method TakeTwo(a: byte, b: byte, mode: Mode, code: bool) returns (t: Turn)
      modifies this
      ensures pending == old(pending)
      ensures Realises(t, Read(Taken2(old(State()), a, b), 2, mode, code), old(State()), State())
    {
      var r := Take(a);
      if r.Some? { return Fail(r.value); }
      r := Take(b);
      if r.Some? { return Fail(r.value); }
      state := mode;
      if code { hasCode := true; }
      return Continue(2, []);
    }

    method DelimiterTurn() returns (t: Turn)
      modifies this
      ensures pending == old(pending)
      ensures Realises(t, StepDelimiter(old(State())), old(State()), State())
    {
      var out := if hasCode then [EmitStatement()] else [];
      current := [];
      ResetStatement();
      ConsumeAll(delimiter);
      return Continue(|delimiter|, out);
    }

    method NormalTurn(i: nat, final: bool) returns (t: Turn)
      requires i < |pending| && (i > 0 ==> previous == Some(pending[i - 1]))
      modifies this
      ensures pending == old(pending)
      ensures Realises(t, StepNormal(old(State()), pending[i..], final), old(State()), State())
    {
      hide Taken, Taken2, StepDelimiter;
      ghost var rest := pending[i..];
      var b := pending[i];
      if b == HASH {
        t := TakeOne(b, LineComment, false);
        return;
      }
      if b == DASH {
        if i + 2 >= |pending| && !final { return Break; }
        if i + 2 < |pending| && pending[i + 1] == DASH && IsSpace(pending[i + 2]) {
          t := TakeOne(b, LineComment, false);
          return;
        }
      }
      if b == SLASH {
        if i + 1 >= |pending| && !final { return Break; }
        if i + 1 < |pending| && pending[i + 1] == STAR {
          var versioned := i + 2 < |pending| && pending[i + 2] == BANG;
          t := TakeTwo(b, STAR, BlockComment, versioned);
          return;
        }
      }
      if b == SQUOTE || b == DQUOTE || b == BACKTICK {
        t := TakeOne(b, QuoteMode(b), true);
        return;
      }
      var available := |pending| - i;
      if available < |delimiter| && !final && pending[i..] == delimiter[..available] { return Break; }
      if i + |delimiter| == |pending| && IsWord(delimiter[|delimiter| - 1]) && !final && pending[i..] == delimiter {
        return Break;
      }
      if DelimiterHere(i) {
        t := DelimiterTurn();
        return;
      }
      t := TakeOne(b, Normal, !IsSpace(b));
    }

    method BlockTurn(i: nat, final: bool) returns (t: Turn)
      requires i < |pending|
      modifies this
      ensures pending == old(pending)
      ensures Realises(t, StepBlock(old(State()), pending[i..], final), old(State()), State())
    {
      var b := pending[i];
      if b == STAR && i + 1 >= |pending| && !final { return Break; }
      if b == STAR && i + 1 < |pending| && pending[i + 1] == SLASH {
        t := TakeTwo(b, SLASH, Normal, false);
      } else {
        t := TakeOne(b, BlockComment, false);
      }
    }

    method QuotedTurn(i: nat, final: bool) returns (t: Turn)
      requires i < |pending|
      modifies this
      ensures pending == old(pending)
      ensures Realises(t, StepQuoted(old(State()), pending[i..], final), old(State()), State())
    {
      hide Taken;
      var quote := QuoteByte(state);
      var b := pending[i];
      if b == quote && !escaped && i + 1 >= |pending| && !final { return Break; }
      TakenEscaping(State(), b, !escaped);
      var r := Take(b);
      if r.Some? { return Fail(r.value); }
      if escaped {
        escaped := false;
        return Continue(1, []);
      }
      if b == BACKSLASH && state != Backtick {
        escaped := true;
        return Continue(1, []);
      }
      if b == quote {
        if i + 1 < |pending| && pending[i + 1] == quote {
          TakenEscaping(State(), quote, escaped);
          r := Take(quote);
          if r.Some? { return Fail(r.value); }
          return Continue(2, []);
        }
        state := Normal;
      }
      return Continue(1, []);
    }

    method DirectiveTurn(i: nat, value: Delimiter, consumed: nat) returns (t: Turn)
      requires i + consumed <= |pending|
      modifies this
      ensures pending == old(pending)
      ensures Realises(t, StepDirective(old(State()), pending[i..], value, consumed), old(State()), State())
    {
      if hasCode { return Fail(DelimiterInStatement(line)); }
      current := [];
      ResetStatement();
      delimiter := value;
      assert pending[i..][..consumed] == pending[i..i + consumed];
      ConsumeAll(pending[i..i + consumed]);
      return Continue(consumed, []);
    }

    method ByteTurn(i: nat, final: bool) returns (t: Turn)
      requires i < |pending| && (i > 0 ==> previous == Some(pending[i - 1]))
      modifies this
      ensures pending == old(pending)
      ensures Realises(t, StepByte(old(State()), pending[i..], final), old(State()), State())
    {
      match state
      case Normal => t := NormalTurn(i, final);
      case LineComment =>
        t := TakeOne(pending[i], if pending[i] == LF then Normal else LineComment, false);
      case BlockComment => t := BlockTurn(i, final);
      case _ => t := QuotedTurn(i, final);
    }

    /** One turn of the loop in `process`: it leaves to be run what the whole run still owes. */
    method OneTurn(i: nat, final: bool) returns (t: Turn)
      requires i < |pending| && (i > 0 ==> previous == Some(pending[i - 1]))
      modifies this
      ensures pending == old(pending)
      ensures Turned(t, old(State()), State(), pending, i, final)
    {
      ghost var lx := State();
      if state == Normal && lineStart && (pending[i] == 100 || pending[i] == 68) {
        match ParseDirective(pending[i..], line, final)
        case Waiting => t := Break;
        case Malformed(e) => t := Fail(e);
        case NewDelimiter(value, consumed) => t := DirectiveTurn(i, value, consumed);
        case NotDirective => t := ByteTurn(i, final);
      } else {
        t := ByteTurn(i, final);
      }
      TurnRuns(t, lx, State(), pending, i, final);
    }

    /** `process`: turns until the pending bytes are used up or more input is needed. */
    method Process(final: bool) returns (r: Result<seq<Statement>, ScriptError>)
      modifies this
      ensures match Run(old(State()), old(pending), final)
              case Failed(e) => r == Err(e)
              case Done(l, rest, out) => r == Ok(out) && State() == l && pending == rest
    {
      hide Step, Run, Turned;
      var out := [];
      var i := 0;
      ghost var lx0, all := State(), pending;
      assert all[0..] == all;
      OwedAtStart(lx0, all, final);
      while i < |pending|
        invariant pending == all && i <= |all|
        invariant i > 0 ==> previous == Some(all[i - 1])
        invariant Owed(out, State(), all[i..], final) == Run(lx0, all, final)
        decreases |all| - i
      {
        ghost var lx := State();
        var t := OneTurn(i, final);
        OwedAfterTurn(out, lx, State(), all, i, final, t);
        match t
        case Break => break;
        case Fail(e) => return Err(e);
        case Continue(used, emitted) =>
          out := out + emitted;
          i := i + used;
      }
      pending := pending[i..];
      return Ok(out);
    }

    method Feed(text: seq<byte>) returns (r: Result<seq<Statement>, ScriptError>)
      modifies this
      ensures match Run(old(State()), old(pending) + text, false)
              case Failed(e) => r == Err(e)
              case Done(l, rest, out) => r == Ok(out) && State() == l && pending == rest
    {
      pending := pending + text;
      r := Process(false);
    }

    method Finish() returns (r: Result<seq<Statement>, ScriptError>)
      modifies this
      ensures r == SqlLexer.Finish(old(State()), old(pending))
      ensures r.Ok? ==> pending == [] && current == [] && !hasCode
      ensures r.Ok? ==> line == Run(old(State()), old(pending), true).lx.line
    {
      if Run(State(), pending, true).Done? { SqlChunking.RunEnds(State(), pending, true); }
      var p := Process(true);
      if p.Err? { return p; }
      var out := p.value;
      if state != Normal && state != LineComment {
        return Err(Unterminated(state, line));
      }
      if hasCode { out := out + [EmitStatement()]; }
      current := [];
      hasCode := false;
      return Ok(out);
    }
  }

  lemma {:induction false} ConsumedAllPrevious(lx: Lexer, bs: seq<byte>)
    requires bs != []
    ensures ConsumedAll(lx, bs).previous == Some(bs[|bs| - 1])
    decreases |bs|
  {
    if |bs| > 1 { ConsumedAllPrevious(Consumed(lx, bs[0]), bs[1..]); }
  }

  lemma TakenPrevious(lx: Lexer, b: byte)
    ensures Taken(lx, b).Ok? ==> Taken(lx, b).value.previous == Some(b)
  {
  }

  lemma NormalPrevious(lx: Lexer, rest: seq<byte>, final: bool)
    requires rest != [] && StepNormal(lx, rest, final).Go?
    ensures var g := StepNormal(lx, rest, final);
            1 <= g.used <= |rest| && g.next.previous == Some(rest[g.used - 1])
  {
    TakenPrevious(lx, rest[0]);
    if OpensBlock(rest) && Taken(lx, rest[0]).Ok? { TakenPrevious(Taken(lx, rest[0]).value, STAR); }
    hide Taken, Consumed;
    ConsumedAllPrevious(Reset(lx), lx.delimiter);
    if DelimiterAt(lx, rest) {
      var n := |lx.delimiter|;
      assert rest[..n][n - 1] == rest[n - 1];
    }
  }

  lemma BlockPrevious(lx: Lexer, rest: seq<byte>, final: bool)
    requires rest != [] && StepBlock(lx, rest, final).Go?
    ensures var g := StepBlock(lx, rest, final);
            1 <= g.used <= |rest| && g.next.previous == Some(rest[g.used - 1])
  {
    TakenPrevious(lx, rest[0]);
    if Taken(lx, rest[0]).Ok? { TakenPrevious(Taken(lx, rest[0]).value, SLASH); }
  }

  lemma QuotedPrevious(lx: Lexer, rest: seq<byte>, final: bool)
    requires rest != [] && StepQuoted(lx, rest, final).Go?
    ensures var g := StepQuoted(lx, rest, final);
            1 <= g.used <= |rest| && g.next.previous == Some(rest[g.used - 1])
  {
    var b := rest[0];
    TakenPrevious(lx, b);
    TakenPrevious(lx.(escaped := !lx.escaped), b);
    if Taken(lx, b).Ok? { TakenPrevious(Taken(lx, b).value, b); }
  }

  /** After a step the lexer remembers the last byte it has read. */
  lemma PreviousIsLast(lx: Lexer, rest: seq<byte>, final: bool)
    requires rest != [] && Step(lx, rest, final).Go?
    ensures var g := Step(lx, rest, final);
            1 <= g.used <= |rest| && g.next.previous == Some(rest[g.used - 1])
  {
    var d := if AtDirective(lx, rest) then ParseDirective(rest, lx.line, final) else NotDirective;
    if d.NewDelimiter? {
      ConsumedAllPrevious(Reset(lx).(delimiter := d.value), rest[..d.consumed]);
    } else {
      match lx.mode
      case Normal => NormalPrevious(lx, rest, final);
      case LineComment => TakenPrevious(lx, rest[0]);
      case BlockComment => BlockPrevious(lx, rest, final);
      case _ => QuotedPrevious(lx, rest, final);
    }
  }

  /** A turn of the loop at index `i`, in terms of the runs before and after it. */
  ghost predicate Turned(t: Turn, before: Lexer, now: Lexer, all: seq<byte>, i: nat, final: bool)
    requires i < |all|
  {
    match t
    case Break => now == before && Run(before, all[i..], final) == Done(before, all[i..], [])
    case Fail(e) => Run(before, all[i..], final) == Failed(e)
    case Continue(n, out) =>
      && 1 <= n <= |all| - i && now.previous == Some(all[i + n - 1])
      && Run(before, all[i..], final) == Prepend(out, Run(now, all[i + n..], final))
  }

  /** The result of a run whose first statements are already in `out`. */
  ghost function Owed(out: seq<Statement>, lx: Lexer, rest: seq<byte>, final: bool): Progress
    decreases |rest|
  {
    if rest == [] then Done(lx, [], out)
    else
      var g := Step(lx, rest, final);
      if g.Wait? then Done(lx, rest, out)
      else if g.Stop? then Failed(g.error)
      else
        assert 1 <= g.used <= |rest| by { StepUses(lx, rest, final); }
        Owed(out + g.out, g.next, rest[g.used..], final)
  }

  lemma {:induction false} OwedIsRun(out: seq<Statement>, lx: Lexer, rest: seq<byte>, final: bool)
    ensures Owed(out, lx, rest, final) == Prepend(out, Run(lx, rest, final))
    decreases |rest|
  {
    if rest == [] || !Step(lx, rest, final).Go? {
      assert out + [] == out;
    } else {
      var g := Step(lx, rest, final);
      SqlChunking.RunStep(lx, rest, final);
      OwedIsRun(out + g.out, g.next, rest[g.used..], final);
      SqlChunking.PrependTwice(out, g.out, Run(g.next, rest[g.used..], final));
    }
  }

  lemma OwedAtStart(lx: Lexer, rest: seq<byte>, final: bool)
    ensures Owed([], lx, rest, final) == Run(lx, rest, final)
  {
    OwedIsRun([], lx, rest, final);
    SqlChunking.PrependNothing(Run(lx, rest, final));
  }

  /** A turn moves what it emits from what is owed to what is done. */
  lemma OwedAfterTurn(out: seq<Statement>, before: Lexer, now: Lexer, all: seq<byte>, i: nat, final: bool, t: Turn)
    requires i < |all| && Turned(t, before, now, all, i, final)
    ensures t.Break? ==> Owed(out, before, all[i..], final) == Done(now, all[i..], out)
    ensures t.Fail? ==> Owed(out, before, all[i..], final) == Failed(t.error)
    ensures t.Continue? ==> Owed(out, before, all[i..], final) == Owed(out + t.out, now, all[i + t.used..], final)
  {
    OwedIsRun(out, before, all[i..], final);
    if t.Break? {
      assert out + [] == out;
    } else if t.Continue? {
      OwedIsRun(out + t.out, now, all[i + t.used..], final);
      SqlChunking.PrependTwice(out, t.out, Run(now, all[i + t.used..], final));
    }
  }

  lemma TurnRuns(t: Turn, before: Lexer, now: Lexer, all: seq<byte>, i: nat, final: bool)
    requires i < |all| && Realises(t, Step(before, all[i..], final), before, now)
    ensures Turned(t, before, now, all, i, final)
  {
    hide Step;
    if t.Continue? {
      PreviousIsLast(before, all[i..], final);
      SqlChunking.RunStep(before, all[i..], final);
      assert all[i..][t.used..] == all[i + t.used..];
    }
  }
}
