/** The record loop of `parse_delimited` in src-tauri/src/txshell.rs, and the writer it undoes. */
module ShellDelimited {
  import opened Common
  import opened Text

  type Record = seq<string>

  /** What the loop makes of the rest of the text. */
  function ReadFrom(s: string, sep: char, quoted: bool, cur: string, row: Record): seq<Record>
    decreases |s|
  {
    if s == [] then if cur != [] || row != [] then [row + [cur]] else []
    else
      var c, rest := s[0], s[1..];
      if quoted then
        if c != '"' then ReadFrom(rest, sep, true, cur + [c], row)
        else if rest != [] && rest[0] == '"' then ReadFrom(rest[1..], sep, true, cur + ['"'], row)
        else ReadFrom(rest, sep, false, cur, row)
      else if c == '"' && cur == [] then ReadFrom(rest, sep, true, cur, row)
      else if c == sep then ReadFrom(rest, sep, false, [], row + [cur])
      else if c == '\n' then [row + [cur]] + ReadFrom(rest, sep, false, [], [])
      else if c != '\r' then ReadFrom(rest, sep, false, cur + [c], row)
      else ReadFrom(rest, sep, false, cur, row)
  }

  lemma ReadUnroll(s: string, i: nat, sep: char, quoted: bool, cur: string, row: Record)
    requires i < |s|
    ensures var c := s[i];
            ReadFrom(s[i..], sep, quoted, cur, row) ==
            if quoted then
              if c != '"' then ReadFrom(s[i + 1..], sep, true, cur + [c], row)
              else if i + 1 < |s| && s[i + 1] == '"' then ReadFrom(s[i + 2..], sep, true, cur + ['"'], row)
              else ReadFrom(s[i + 1..], sep, false, cur, row)
            else if c == '"' && cur == [] then ReadFrom(s[i + 1..], sep, true, cur, row)
            else if c == sep then ReadFrom(s[i + 1..], sep, false, [], row + [cur])
            else if c == '\n' then [row + [cur]] + ReadFrom(s[i + 1..], sep, false, [], [])
            else if c != '\r' then ReadFrom(s[i + 1..], sep, false, cur + [c], row)
            else ReadFrom(s[i + 1..], sep, false, cur, row)
  {
    assert s[i..][1..] == s[i + 1..];
    if i + 1 < |s| { assert s[i + 1..][1..] == s[i + 2..]; }
  }

  method ParseRecords(text: string, sep: char) returns (records: seq<Record>)
    ensures records == ReadFrom(text, sep, false, [], [])
  {
    records := [];
    var row: Record, cur: string, quoted := [], [], false;
    var i := 0;
    assert text[0..] == text;
    NoneAppended(records, text, sep);
    while i < |text|
      invariant i <= |text|
      invariant records + ReadFrom(text[i..], sep, quoted, cur, row) == ReadFrom(text, sep, false, [], [])
      decreases |text| - i
    {
      hide ReadFrom;
      ReadUnroll(text, i, sep, quoted, cur, row);
      var c := text[i];
      if quoted {
        if c == '"' {
          if i + 1 < |text| && text[i + 1] == '"' {
            cur := cur + ['"'];
            i := i + 1;
          } else {
            quoted := false;
          }
        } else {
          cur := cur + [c];
        }
      } else if c == '"' && cur == [] {
        quoted := true;
      } else if c == sep {
        row, cur := row + [cur], [];
      } else if c == '\n' {
        Assoc(records, [row + [cur]], ReadFrom(text[i + 1..], sep, false, [], []));
        records := records + [row + [cur]];
        row, cur := [], [];
      } else if c != '\r' {
        cur := cur + [c];
      }
      i := i + 1;
    }
    assert text[i..] == [];
    if cur != [] || row != [] {
      records := records + [row + [cur]];
    } else {
      assert records + [] == records;
    }
  }

  lemma NoneAppended(records: seq<Record>, text: string, sep: char)
    requires records == []
    ensures records + ReadFrom(text, sep, false, [], []) == ReadFrom(text, sep, false, [], [])
  {
  }

  // ---- The writer of section 2 of RFC 4180: every field quoted, every quote doubled ----

  function Field(f: string): string { "\"" + Doubled(f) + "\"" }

  function Fields(r: Record, sep: char): string
    requires r != []
  {
    if |r| == 1 then Field(r[0]) else Field(r[0]) + [sep] + Fields(r[1..], sep)
  }

  /** A record and whether its line ends with CR LF or with LF alone. */
  datatype Line = Line(record: Record, crlf: bool)

  function LineBreak(crlf: bool): string { if crlf then "\r\n" else "\n" }

  /** The file: every line terminated, except possibly the last. */
  function Written(lines: seq<Line>, sep: char, terminated: bool): string
    requires forall l <- lines :: l.record != []
  {
    if lines == [] then []
    else
      var end := if |lines| == 1 && !terminated then [] else LineBreak(lines[0].crlf);
      Fields(lines[0].record, sep) + end + Written(lines[1..], sep, terminated)
  }

  function RecordsOf(lines: seq<Line>): seq<Record> {
    if lines == [] then [] else [lines[0].record] + RecordsOf(lines[1..])
  }

  predicate GoodSeparator(sep: char) { sep != '"' && sep != '\r' && sep != '\n' }

  predicate NoQuoteNext(tail: string) { tail == [] || tail[0] != '"' }

  // ---- The reader undoes the writer ----

  lemma {:induction false} ReadBody(f: string, tail: string, sep: char, cur: string, row: Record)
    requires NoQuoteNext(tail)
    ensures ReadFrom(Doubled(f) + ("\"" + tail), sep, true, cur, row) == ReadFrom(tail, sep, false, cur + f, row)
    decreases |f|
  {
    var s := Doubled(f) + ("\"" + tail);
    if f == [] {
      assert s == "\"" + tail && s[1..] == tail && cur + f == cur;
    } else {
      assert cur + [f[0]] + f[1..] == cur + f;
      ReadBody(f[1..], tail, sep, cur + [f[0]], row);
      if f[0] == '"' {
        assert s[0] == '"' && s[1..][0] == '"' && s[1..][1..] == Doubled(f[1..]) + ("\"" + tail);
      } else {
        assert s[0] == f[0] && s[1..] == Doubled(f[1..]) + ("\"" + tail);
      }
    }
  }

  lemma ReadField(f: string, tail: string, sep: char, row: Record)
    requires NoQuoteNext(tail)
    ensures ReadFrom(Field(f) + tail, sep, false, [], row) == ReadFrom(tail, sep, false, f, row)
  {
    var s := Field(f) + tail;
    assert s[0] == '"' && s[1..] == Doubled(f) + ("\"" + tail);
    ReadBody(f, tail, sep, [], row);
    assert [] + f == f;
  }

  lemma ReadSeparator(tail: string, sep: char, cur: string, row: Record)
    requires GoodSeparator(sep)
    ensures ReadFrom([sep] + tail, sep, false, cur, row) == ReadFrom(tail, sep, false, [], row + [cur])
  {
    assert ([sep] + tail)[0] == sep && ([sep] + tail)[1..] == tail;
  }

  lemma FieldsCons(r: Record, tail: string, sep: char)
    requires |r| > 1
    ensures Fields(r, sep) + tail == Field(r[0]) + ([sep] + (Fields(r[1..], sep) + tail))
  {
    hide Field;
    Assoc(Field(r[0]) + [sep], Fields(r[1..], sep), tail);
    Assoc(Field(r[0]), [sep], Fields(r[1..], sep) + tail);
  }

  lemma RowShift(row: Record, r: Record)
    requires |r| > 1
    ensures row + [r[0]] + r[1..][..|r| - 2] == row + r[..|r| - 1] && r[1..][|r| - 2] == r[|r| - 1]
  {
  }

  /** A whole line's fields leave all but the last in the row, and the last as the current field. */
  lemma {:induction false} ReadFields(r: Record, tail: string, sep: char, row: Record)
    requires r != [] && NoQuoteNext(tail) && GoodSeparator(sep)
    ensures ReadFrom(Fields(r, sep) + tail, sep, false, [], row)
         == ReadFrom(tail, sep, false, r[|r| - 1], row + r[..|r| - 1])
    decreases |r|
  {
    hide ReadFrom, Field;
    if |r| == 1 {
      ReadField(r[0], tail, sep, row);
      assert row + r[..0] == row;
    } else {
      var more := Fields(r[1..], sep) + tail;
      FieldsCons(r, tail, sep);
      ReadField(r[0], [sep] + more, sep, row);
      ReadSeparator(more, sep, r[0], row);
      ReadFields(r[1..], tail, sep, row + [r[0]]);
      RowShift(row, r);
    }
  }

  lemma ReadBreak(crlf: bool, tail: string, sep: char, cur: string, row: Record)
    requires GoodSeparator(sep)
    ensures ReadFrom(LineBreak(crlf) + tail, sep, false, cur, row) == [row + [cur]] + ReadFrom(tail, sep, false, [], [])
  {
    var s := LineBreak(crlf) + tail;
    if crlf {
      assert s[0] == '\r' && s[1..][0] == '\n' && s[1..][1..] == tail;
    } else {
      assert s[0] == '\n' && s[1..] == tail;
    }
  }

  lemma LastApart(r: Record)
    requires r != []
    ensures [] + r[..|r| - 1] + [r[|r| - 1]] == r
  {
  }

  /** An unterminated last line that holds a single empty field leaves nothing to read. */
  predicate Vanishes(lines: seq<Line>, terminated: bool) {
    lines != [] && !terminated && lines[|lines| - 1].record == [""]
  }

  lemma {:induction false} ReadWritten(lines: seq<Line>, sep: char, terminated: bool)
    requires GoodSeparator(sep) && forall l <- lines :: l.record != []
    ensures ReadFrom(Written(lines, sep, terminated), sep, false, [], []) ==
            if Vanishes(lines, terminated) then RecordsOf(lines[..|lines| - 1]) else RecordsOf(lines)
    decreases |lines|
  {
    hide ReadFrom, Fields;
    if lines == [] {
      NothingRead(sep);
    } else {
      var r, rest := lines[0].record, lines[1..];
      LastApart(r);
      if |lines| == 1 && !terminated {
        assert Fields(r, sep) + [] + [] == Fields(r, sep) + [];
        ReadFields(r, [], sep, []);
        ReadEnd(sep, r[|r| - 1], [] + r[..|r| - 1]);
        LastLine(lines, r);
      } else {
        var end := LineBreak(lines[0].crlf);
        var tail := Written(rest, sep, terminated);
        Assoc(Fields(r, sep), end, tail);
        assert NoQuoteNext(end + tail);
        ReadFields(r, end + tail, sep, []);
        ReadBreak(lines[0].crlf, tail, sep, r[|r| - 1], [] + r[..|r| - 1]);
        ReadWritten(rest, sep, terminated);
        if Vanishes(lines, terminated) { DropLast(lines); }
      }
    }
  }

  lemma NothingRead(sep: char)
    ensures ReadFrom([], sep, false, [], []) == []
  {
  }

  lemma ReadEnd(sep: char, cur: string, row: Record)
    ensures ReadFrom([], sep, false, cur, row) == if cur != [] || row != [] then [row + [cur]] else []
  {
  }

  lemma DropLast(lines: seq<Line>)
    requires |lines| > 1
    ensures RecordsOf(lines[..|lines| - 1]) == [lines[0].record] + RecordsOf(lines[1..][..|lines| - 2])
  {
    assert lines[..|lines| - 1][1..] == lines[1..][..|lines| - 2];
  }

  lemma LastLine(lines: seq<Line>, r: Record)
    requires |lines| == 1 && lines[0].record == r && r != []
    ensures RecordsOf(lines) == [r] && RecordsOf(lines[..|lines| - 1]) == []
    ensures r == [""] <==> r[|r| - 1] == [] && [] + r[..|r| - 1] == []
  {
    assert lines[1..] == [];
  }

  lemma {:induction false} RecordsLength(lines: seq<Line>)
    ensures |RecordsOf(lines)| == |lines|
  {
    if lines != [] { RecordsLength(lines[1..]); }
  }

  /** The round trip of RFC 4180, with its only exception: an unterminated last line of one empty field. */
  lemma RoundTrip(lines: seq<Line>, sep: char, terminated: bool)
    requires GoodSeparator(sep) && forall l <- lines :: l.record != []
    ensures ReadFrom(Written(lines, sep, terminated), sep, false, [], []) == RecordsOf(lines)
            <==> !Vanishes(lines, terminated)
  {
    ReadWritten(lines, sep, terminated);
    RecordsLength(lines);
    if lines != [] { RecordsLength(lines[..|lines| - 1]); }
  }
}
