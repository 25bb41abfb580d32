/** The verdicts of src-tauri/src/sqlguard.rs on blanked statements. */
module SqlGuard {
  import opened Common
  import opened Text
  import opened SqlBlank
  import opened SqlSplit

  /** The keyword tables, left open. */
  datatype Keywords = Keywords(write: set<string>, dangerousDdl: set<string>)

  function AlphaRun(s: string): (n: nat)
    ensures n <= |s|
  {
    if s == [] || !IsAlpha(s[0]) then 0 else 1 + AlphaRun(s[1..])
  }

  function FirstWord(s: string): (w: string)
    ensures |w| <= |TrimStart(s)|
  {
    var t := TrimStart(s);
    LowerAll(t[..AlphaRun(t)])
  }

  /** The text after the leading `n` characters of the trimmed statement, trimmed. */
  function After(s: string, n: nat): (r: string)
    requires n <= |TrimStart(s)|
    ensures |r| + n <= |s|
  {
    TrimStart(TrimStart(s)[n..])
  }

  function WordAfter(s: string, n: nat): string
    requires n <= |TrimStart(s)|
  {
    var t := After(s, n);
    LowerAll(t[..WordRun(t)])
  }

  // ---- has_word ----

  /** `w` stands at the front of `s`, and no word character follows it. */
  predicate WordHere(s: string, w: string) {
    |w| <= |s| && LowerAll(s[..|w|]) == w && (|w| < |s| ==> !IsWordChar(s[|w|]))
  }

  /** `w` stands as a whole word at index `i`. */
  predicate WholeWordAt(s: string, w: string, i: nat)
    requires i <= |s|
  {
    WordHere(s[i..], w) && (i > 0 ==> !IsWordChar(s[i - 1]))
  }

  /** `inWord` says that a word character stands before `s`. */
  predicate HasWordFrom(s: string, w: string, inWord: bool) {
    (!inWord && WordHere(s, w)) || (s != [] && HasWordFrom(s[1..], w, IsWordChar(s[0])))
  }

  predicate HasWord(s: string, w: string) { HasWordFrom(s, w, false) }

  predicate HasAnyWord(s: string, ws: seq<string>) { exists w <- ws :: HasWord(s, w) }

  // ---- copy_writes ----

  function CopyScan(s: string, depth: int, word: string): bool
    decreases |s|
  {
    if s == [] then depth == 0 && word == "from"
    else
      var c := s[0];
      if c == '(' then CopyScan(s[1..], depth + 1, "")
      else if c == ')' then CopyScan(s[1..], depth - 1, "")
      else if IsWordChar(c) then CopyScan(s[1..], depth, word + [Lower(c)])
      else if depth == 0 && word == "from" then true
      else if depth == 0 && word == "to" then false
      else CopyScan(s[1..], depth, "")
  }

  function CopyWrites(s: string): bool {
    var t := TrimStart(s);
    CopyScan(t[if |t| < 4 then |t| else 4..], 0, "")
  }

  // ---- strip_explain ----

  predicate IsOption(w: string) { w == "analyze" || w == "verbose" || w == "analyse" || w == "format" }

  function DropSign(s: string): (r: string)
    ensures |r| <= |s|
  {
    if s != [] && s[0] == '=' then TrimStart(s[1..]) else s
  }

  /** One option word, with the value of a `format` option. */
  function DropOption(s: string): (r: string)
    requires IsOption(FirstWord(s))
    ensures |r| < |s|
  {
    var w := FirstWord(s);
    var t := DropSign(After(s, |w|));
    var v := FirstWord(t);
    if v != [] && w == "format" then After(t, |v|) else t
  }

  function DropOptions(s: string): (r: string)
    ensures |r| <= |s|
    decreases |s|
  {
    if IsOption(FirstWord(s)) then DropOptions(DropOption(s)) else s
  }

  /** What follows the parenthesis that brings the depth back to zero. */
  function AfterParens(s: string, depth: int): (r: string)
    ensures |r| <= |s|
    decreases |s|
  {
    if s == [] then []
    else if s[0] == '(' then AfterParens(s[1..], depth + 1)
    else if s[0] == ')' then if depth == 1 then s[1..] else AfterParens(s[1..], depth - 1)
    else AfterParens(s[1..], depth)
  }

  function StripExplain(s: string): (r: string)
    ensures |r| <= |s|
    ensures FirstWord(s) != [] ==> |r| < |s|
  {
    var t := DropOptions(After(s, |FirstWord(s)|));
    if t != [] && t[0] == '(' then TrimStart(AfterParens(t, 0)) else t
  }

  // ---- The write verdict ----

  /** `statement_is_write`, on one blanked statement. */
  function StatementIsWrite(s: string, k: Keywords): bool
    decreases |s|
  {
    var kw := FirstWord(s);
    if kw == "" then false
    else if kw in k.write then true
    else if kw == "set" then
      var second := WordAfter(s, |kw|);
      second == "global" || second == "persist" || second == "persist_only"
    else if kw == "start" then WordAfter(s, |kw|) != "transaction"
    else if kw == "with" then HasAnyWord(s, ["insert", "update", "delete", "merge"])
    else if kw == "copy" then CopyWrites(s)
    else if kw == "prepare" then
      HasAnyWord(TrimStart(s)[|kw|..], ["insert", "update", "delete", "merge", "create", "drop", "alter", "truncate"])
    else if kw == "select" then HasWord(s, "into")
    else if kw == "explain" || kw == "describe" || kw == "desc" then StatementIsWrite(StripExplain(s), k)
    else false
  }

  // ---- The other two verdicts ----

  function StatementIsDangerous(s: string, k: Keywords): bool {
    var kw := FirstWord(s);
    if kw in k.dangerousDdl then true
    else if kw == "vacuum" then HasWord(s, "full")
    else if kw == "system" then HasAnyWord(s, ["shutdown", "kill", "restart", "restore", "drop", "stop"])
    else if kw == "cluster" then true
    else if kw == "reindex" then !HasWord(s, "concurrently")
    else if kw == "refresh" then !HasWord(s, "concurrently")
    else false
  }

  /** The flags `pending[0..=depth]` of `unfiltered_updel`: an UPDATE or DELETE seen, no WHERE yet. */
  type Flags = s: seq<bool> | |s| >= 1 witness [false]

  function TopSet(p: Flags, b: bool): Flags { p[|p| - 1 := b] }

  /** A word that ends changes the flag of its own level. */
  function NoteWord(p: Flags, word: string): Flags {
    if word == "update" || word == "delete" then TopSet(p, true)
    else if word == "where" then TopSet(p, false)
    else p
  }

  function CloseLevel(p: Flags): Flags {
    if |p| > 1 then p[..|p| - 1] else [false]
  }

  function UpdelScan(s: string, p: Flags, word: string, unfiltered: bool): bool
    decreases |s|
  {
    if s == [] then unfiltered || exists b <- NoteWord(p, word) :: b
    else
      var c := s[0];
      if IsWordChar(c) then UpdelScan(s[1..], p, word + [Lower(c)], unfiltered)
      else
        var q := NoteWord(p, word);
        if c == '(' then UpdelScan(s[1..], q + [false], "", unfiltered)
        else if c == ')' then UpdelScan(s[1..], CloseLevel(q), "", unfiltered || q[|q| - 1])
        else UpdelScan(s[1..], q, "", unfiltered)
  }

  predicate LeadsUpdel(s: string) {
    FirstWord(s) == "update" || FirstWord(s) == "delete" || FirstWord(s) == "with"
  }

  function UnfilteredUpdel(s: string): bool {
    LeadsUpdel(s) && UpdelScan(s, [false], "", false)
  }

  // ---- The PostgreSQL scan of the raw statement ----

  datatype PgToken = Word(text: string) | Quoted(text: string) | Dot | Other

  /** The name inside double quotes, a doubled quote standing for one. */
  function QuotedName(s: string): string
    decreases |s|
  {
    if s == [] then []
    else if s[0] == '"' then if Starts2(s, '"', '"') then "\"" + QuotedName(s[2..]) else []
    else [s[0]] + QuotedName(s[1..])
  }

  predicate EscapeLiteral(s: string) { Starts2(s, 'E', '\'') || Starts2(s, 'e', '\'') }

  /** How many characters one turn of `pg_set_tokens` reads. */
  function PgLength(s: string): (n: nat)
    requires s != []
    ensures 1 <= n <= |s|
  {
    var c := s[0];
    if IsWhitespace(c) then 1
    else if Starts2(s, '-', '-') then 1 + LineLength(s[1..])
    else if Starts2(s, '/', '*') then 2 + BlockLength(s[2..], 1, true)
    else if c == '\'' then 1 + QuoteLength(s[1..], '\'', false)
    else if EscapeLiteral(s) then 2 + QuoteLength(s[2..], '\'', true)
    else if c == '$' then
      if TagLength(s) > 0 then TagLength(s) + ThroughNeedle(s[TagLength(s)..], s[..TagLength(s)]) else 1
    else if c == '"' then 1 + QuoteLength(s[1..], '"', false)
    else if IsWordChar(c) then WordRun(s)
    else 1
  }

  /** The token it yields, if any. */
  function PgYield(s: string): seq<PgToken>
    requires s != []
  {
    var c := s[0];
    if IsWhitespace(c) || Starts2(s, '-', '-') || Starts2(s, '/', '*') then []
    else if c == '\'' || EscapeLiteral(s) then [Other]
    else if c == '$' then if TagLength(s) > 0 then [Other] else []
    else if c == '"' then [Quoted(LowerAll(QuotedName(s[1..])))]
    else if IsWordChar(c) then [Word(LowerAll(s[..WordRun(s)]))]
    else if c == '.' then [Dot]
    else []
  }

  function PgTokens(s: string): seq<PgToken>
    decreases |s|
  {
    if s == [] then [] else PgYield(s) + PgTokens(s[PgLength(s)..])
  }

  function WordOf(t: seq<PgToken>, i: nat): Option<string> {
    if i < |t| && t[i].Word? then Some(t[i].text) else None
  }

  function Component(t: seq<PgToken>, i: nat): Option<string> {
    if i < |t| && (t[i].Word? || t[i].Quoted?) then Some(t[i].text) else None
  }

  /** The last component of the dotted name whose component before index `i` is `last`. */
  function LastComponent(t: seq<PgToken>, i: nat, last: string): string
    decreases |t| - i
  {
    if i < |t| && t[i] == Dot && Component(t, i + 1).Some? then LastComponent(t, i + 2, Component(t, i + 1).value)
    else last
  }

  /** `pg_set_flips_readonly`, on the tokens of one raw statement. */
  predicate FlipsReadonly(t: seq<PgToken>) {
    if WordOf(t, 0) != Some("set") then false
    else
      var scoped := WordOf(t, 1) == Some("session") || WordOf(t, 1) == Some("local");
      if scoped && WordOf(t, 2) == Some("characteristics") then
        exists i :: 3 <= i < |t| - 1 && t[i] == Word("read") && t[i + 1] == Word("write")
      else
        var i := if scoped then 2 else 1;
        Component(t, i).Some? &&
        var last := LastComponent(t, i + 1, Component(t, i).value);
        last == "transaction_read_only" || last == "default_transaction_read_only"
  }

  // ---- Whole scripts ----

  predicate IsDangerousDdlFor(engine: Option<Engine>, sql: string, k: Keywords) {
    exists s <- Split(Blank(sql, ForEngine(engine))) :: StatementIsDangerous(s, k)
  }

  predicate IsUnfilteredWriteFor(engine: Option<Engine>, sql: string) {
    exists s <- Split(Blank(sql, ForEngine(engine))) :: UnfilteredUpdel(s)
  }

  predicate PartIsWrite(d: Dialect, part: (string, string), k: Keywords) {
    StatementIsWrite(part.1, k)
    || (d.pgSetReadonly && FirstWord(part.1) == "set" && FlipsReadonly(PgTokens(part.0)))
  }

  predicate IsWriteFor(engine: Option<Engine>, sql: string, k: Keywords) {
    var d := ForEngine(engine);
    var blanked := Blank(sql, d);
    if d.pgSetReadonly then exists part <- SplitPairs(sql, blanked) :: PartIsWrite(d, part, k)
    else exists s <- Split(blanked) :: StatementIsWrite(s, k)
  }
}
