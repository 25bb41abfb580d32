/** Delimited text as other programs write it: fields bare or quoted side by side. What is read of each field
    and of each line by `parse_delimited` in src-tauri/src/txshell.rs. */
module ShellFields {
  import opened Common
  import opened Text
  import opened ShellDelimited

  /** Bare text, in which a quote further on is itself, or a quoted body between carriage returns and more text. */
  datatype Written = Bare(text: string) | Quoted(lead: string, body: string, tail: string)

  function FieldText(f: Written): string {
    match f
    case Bare(text) => text
    case Quoted(lead, body, tail) => lead + ("\"" + (Doubled(body) + ("\"" + tail)))
  }

  /** Carriage returns outside quotes are dropped, wherever they stand. */
  function WithoutCr(s: string): string {
    if s == [] then [] else (if s[0] == '\r' then [] else [s[0]]) + WithoutCr(s[1..])
  }

  function Value(f: Written): string {
    match f
    case Bare(text) => WithoutCr(text)
    case Quoted(_, body, tail) => body + WithoutCr(tail)
  }

  predicate Plain(s: string, sep: char) { sep !in s && '\n' !in s }

  /** A quote comes first, but for carriage returns. */
  predicate QuoteFirst(s: string) { s != [] && (s[0] == '"' || (s[0] == '\r' && QuoteFirst(s[1..]))) }

  predicate FieldReads(f: Written, sep: char) {
    match f
    case Bare(text) => Plain(text, sep) && !QuoteFirst(text)
    case Quoted(lead, body, tail) =>
      && (forall c <- lead :: c == '\r') && Plain(tail, sep)
      && NoQuoteNext(tail) && (body == [] ==> !QuoteFirst(tail))
  }

  function RowText(row: seq<Written>, sep: char): string {
    if row == [] then [] else if |row| == 1 then FieldText(row[0])
    else FieldText(row[0]) + ([sep] + RowText(row[1..], sep))
  }

  predicate RowReads(row: seq<Written>, sep: char) { row != [] && forall i | 0 <= i < |row| :: FieldReads(row[i], sep) }

  function RowValues(row: seq<Written>): (r: seq<string>)
    ensures |r| == |row|
  {
    if row == [] then [] else [Value(row[0])] + RowValues(row[1..])
  }

  /** The lines with line feeds between them; the text behind the last line feed is a line too. */
  function FileText(rows: seq<seq<Written>>, sep: char): string {
    if rows == [] then [] else if |rows| == 1 then RowText(rows[0], sep)
    else RowText(rows[0], sep) + ("\n" + FileText(rows[1..], sep))
  }

  predicate FileReads(rows: seq<seq<Written>>, sep: char) {
    rows != [] && forall i | 0 <= i < |rows| :: RowReads(rows[i], sep)
  }

  /** A last line of one field that says nothing is no record. */
  function Records(rows: seq<seq<Written>>): seq<seq<string>>
    requires rows != []
  {
    var first := RowValues(rows[0]);
    if |rows| > 1 then [first] + Records(rows[1..]) else if first == [""] then [] else [first]
  }

  // ---- One field ----

  predicate FieldEnds(tail: string, sep: char) { tail == [] || tail[0] == sep || tail[0] == '\n' }

  lemma PlainStep(text: string, tail: string, sep: char, cur: string, row: Record)
    requires GoodSeparator(sep) && text != [] && text[0] != sep && text[0] != '\n' && (text[0] == '"' ==> cur != [])
    ensures var now := if text[0] == '\r' then cur else cur + [text[0]];
            ReadFrom(text + tail, sep, false, cur, row) == ReadFrom(text[1..] + tail, sep, false, now, row)
  {
    assert (text + tail)[1..] == text[1..] + tail && (text + tail)[0] == text[0];
  }

  lemma PlainFirst(text: string, sep: char)
    requires text != [] && Plain(text, sep)
    ensures text[0] != sep && text[0] != '\n' && Plain(text[1..], sep)
    ensures WithoutCr(text) == (if text[0] == '\r' then [] else [text[0]]) + WithoutCr(text[1..])
  {
    assert text[0] in text && forall x <- text[1..] :: x in text;
  }

  lemma {:induction false} ReadPlain(text: string, tail: string, sep: char, cur: string, row: Record)
    requires GoodSeparator(sep) && Plain(text, sep) && (cur != [] || !QuoteFirst(text))
    ensures ReadFrom(text + tail, sep, false, cur, row) == ReadFrom(tail, sep, false, cur + WithoutCr(text), row)
    decreases |text|
  {
    hide ReadFrom, Plain;
    if text == [] {
      assert text + tail == tail && cur + [] == cur;
    } else {
      var now := if text[0] == '\r' then cur else cur + [text[0]];
      PlainFirst(text, sep);
      PlainStep(text, tail, sep, cur, row);
      ReadPlain(text[1..], tail, sep, now, row);
      Assoc(cur, if text[0] == '\r' then [] else [text[0]], WithoutCr(text[1..]));
      assert cur + [] == cur;
    }
  }

  lemma {:induction false} OnlyReturns(s: string, sep: char)
    requires GoodSeparator(sep) && forall c <- s :: c == '\r'
    ensures Plain(s, sep) && !QuoteFirst(s) && WithoutCr(s) == []
  {
    if s != [] {
      assert s[0] in s && forall c <- s[1..] :: c in s;
      OnlyReturns(s[1..], sep);
    }
  }

  lemma ReadQuote(s: string, sep: char, row: Record)
    ensures ReadFrom("\"" + s, sep, false, [], row) == ReadFrom(s, sep, true, [], row)
  {
    assert ("\"" + s)[1..] == s;
  }

  lemma ReadWrittenField(f: Written, tail: string, sep: char, row: Record)
    requires GoodSeparator(sep) && FieldReads(f, sep) && FieldEnds(tail, sep)
    ensures ReadFrom(FieldText(f) + tail, sep, false, [], row) == ReadFrom(tail, sep, false, Value(f), row)
  {
    hide ReadFrom, Doubled, QuoteFirst, Plain, WithoutCr;
    match f
    case Bare(text) =>
      ReadPlain(text, tail, sep, [], row);
      assert [] + WithoutCr(text) == WithoutCr(text);
    case Quoted(lead, body, after) =>
      var rest := after + tail;
      OnlyReturns(lead, sep);
      ReadPlain(lead, "\"" + (Doubled(body) + ("\"" + rest)), sep, [], row);
      assert [] + WithoutCr(lead) == [];
      InPlace(lead, Doubled(body), after, tail);
      ReadQuote(Doubled(body) + ("\"" + rest), sep, row);
      ReadBody(body, rest, sep, [], row);
      assert [] + body == body;
      ReadPlain(after, tail, sep, body, row);
  }

  lemma InPlace(lead: string, body: string, after: string, tail: string)
    ensures lead + ("\"" + (body + ("\"" + after))) + tail == lead + ("\"" + (body + ("\"" + (after + tail))))
  {
  }

  // ---- Lines and files ----

  predicate LineEnds(tail: string) { tail == [] || tail[0] == '\n' }

  lemma RestReads(w: seq<Written>, sep: char)
    requires RowReads(w, sep)
    ensures w != [] && FieldReads(w[0], sep) && (|w| > 1 ==> RowReads(w[1..], sep))
  {
    hide FieldReads;
  }

  lemma RowFirst(w: seq<Written>, sep: char, tail: string)
    requires w != []
    ensures |w| == 1 ==> RowText(w, sep) + tail == FieldText(w[0]) + tail
    ensures |w| > 1 ==> RowText(w, sep) + tail == FieldText(w[0]) + ([sep] + (RowText(w[1..], sep) + tail))
    ensures RowValues(w) == [Value(w[0])] + RowValues(w[1..])
  {
    hide FieldText;
  }

  /** The fields of a line but for the last, which is still being read. */
  lemma {:induction false} ReadRow(w: seq<Written>, tail: string, sep: char, row: Record)
    requires GoodSeparator(sep) && RowReads(w, sep) && LineEnds(tail)
    ensures var v := RowValues(w);
            && |v| == |w|
            && ReadFrom(RowText(w, sep) + tail, sep, false, [], row)
            == ReadFrom(tail, sep, false, v[|w| - 1], row + v[..|w| - 1])
    decreases |w|
  {
    RestReads(w, sep);
    RowFirst(w, sep, tail);
    hide ReadFrom, FieldText, FieldReads, Value, RowText, RowValues, RowReads;
    var v := RowValues(w);
    assert v[1..] == RowValues(w[1..]);
    if |w| == 1 {
      assert row + v[..0] == row;
      ReadWrittenField(w[0], tail, sep, row);
    } else {
      var more := RowText(w[1..], sep) + tail;
      ReadWrittenField(w[0], [sep] + more, sep, row);
      ReadSeparator(more, sep, Value(w[0]), row);
      ReadRow(w[1..], tail, sep, row + [Value(w[0])]);
      RowShift(row, v);
    }
  }

  /** Every line is read as its fields, and a last line that says nothing is dropped. */
  lemma {:induction false} FileIsRead(rows: seq<seq<Written>>, sep: char)
    requires GoodSeparator(sep) && FileReads(rows, sep)
    ensures ReadFrom(FileText(rows, sep), sep, false, [], []) == Records(rows)
    decreases |rows|
  {
    hide ReadFrom, RowText, RowReads, RowValues;
    assert RowReads(rows[0], sep);
    SomeFields(rows[0], sep);
    var v := RowValues(rows[0]);
    if |rows| == 1 {
      assert RowText(rows[0], sep) + [] == RowText(rows[0], sep);
      ReadRow(rows[0], [], sep, []);
      ReadEnd(sep, v[|v| - 1], [] + v[..|v| - 1]);
      LastApart(v);
    } else {
      var more := FileText(rows[1..], sep);
      ReadRow(rows[0], "\n" + more, sep, []);
      ReadLf(more, sep, v[|v| - 1], [] + v[..|v| - 1]);
      LastApart(v);
      FileIsRead(rows[1..], sep);
      assert RowText(rows[0], sep) + ("\n" + more) == FileText(rows, sep);
    }
  }

  lemma SomeFields(w: seq<Written>, sep: char)
    requires RowReads(w, sep)
    ensures w != []
  {
  }

  lemma ReadLf(tail: string, sep: char, cur: string, row: Record)
    requires GoodSeparator(sep)
    ensures ReadFrom("\n" + tail, sep, false, cur, row) == [row + [cur]] + ReadFrom(tail, sep, false, [], [])
  {
    assert ("\n" + tail)[1..] == tail;
  }
}
