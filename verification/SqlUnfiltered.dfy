/** `unfiltered_updel` of src-tauri/src/sqlguard.rs against the tree of its parenthesis groups. */
module SqlUnfiltered {
  import opened Common
  import opened Text
  import opened SqlGuard

  /** What the text says about groups: an UPDATE or DELETE, a WHERE, and the parentheses. */
  datatype Event = Arm | Disarm | Open | Close

  function WordEvent(word: string): seq<Event> {
    if word == "update" || word == "delete" then [Arm] else if word == "where" then [Disarm] else []
  }

  function ParenEvent(c: char): seq<Event> {
    if c == '(' then [Open] else if c == ')' then [Close] else []
  }

  function Events(s: string, word: string): seq<Event>
    decreases |s|
  {
    if s == [] then WordEvent(word)
    else if IsWordChar(s[0]) then Events(s[1..], word + [Lower(s[0])])
    else WordEvent(word) + ParenEvent(s[0]) + Events(s[1..], "")
  }

  // ---- Groups as trees ----

  /** The items of one group, in order: its own verbs and the groups inside it. */
  datatype Level = Empty | Verb(armed: bool, rest: Level) | Group(inner: Level, rest: Level)

  /** The last verb of the group itself; the groups inside it do not count. */
  function LastVerb(g: Level): Option<bool> {
    match g
    case Empty => None
    case Verb(b, rest) => if LastVerb(rest).Some? then LastVerb(rest) else Some(b)
    case Group(_, rest) => LastVerb(rest)
  }

  /** The groups inside a group, at every depth. */
  function Inside(g: Level): seq<Level> {
    match g
    case Empty => []
    case Verb(_, rest) => Inside(rest)
    case Group(inner, rest) => [inner] + Inside(inner) + Inside(rest)
  }

  /** An UPDATE or DELETE of the group has no WHERE after it in the same group. */
  predicate Unfiltered(g: Level) { LastVerb(g) == Some(true) }

  function Flatten(g: Level): seq<Event> {
    match g
    case Empty => []
    case Verb(b, rest) => [if b then Arm else Disarm] + Flatten(rest)
    case Group(inner, rest) => [Open] + Flatten(inner) + [Close] + Flatten(rest)
  }

  predicate AtEnd(es: seq<Event>) { es == [] || es[0] == Close }

  /** The group at the front, and what follows it. A group that the text does not close ends with it. */
  function Parse(es: seq<Event>): (r: (Level, seq<Event>))
    ensures |r.1| <= |es| && AtEnd(r.1)
    decreases |es|
  {
    if es == [] || es[0] == Close then (Empty, es)
    else if es[0] == Open then
      var (inner, after) := Parse(es[1..]);
      var (rest, left) := Parse(if after == [] then [] else after[1..]);
      (Group(inner, rest), left)
    else
      var (rest, left) := Parse(es[1..]);
      (Verb(es[0] == Arm, rest), left)
  }

  /** The outermost groups: an unmatched closing parenthesis ends one and starts the next. */
  function Roots(es: seq<Event>): (r: seq<Level>)
    decreases |es|
  {
    var (g, left) := Parse(es);
    if left == [] then [g] else [g] + Roots(left[1..])
  }

  /** The reference definition, over every group of every outermost group. */
  ghost predicate SomeGroupUnfiltered(roots: seq<Level>) {
    exists g <- roots :: Unfiltered(g) || exists h <- Inside(g) :: Unfiltered(h)
  }

  lemma ParseOpened(es: seq<Event>, inner: Level, after: seq<Event>, rest: Level, left: seq<Event>)
    requires Parse(es) == (inner, [Close] + after) && Parse(after) == (rest, left)
    ensures Parse([Open] + es) == (Group(inner, rest), left)
  {
    assert ([Open] + es)[1..] == es && ([Close] + after)[1..] == after;
  }

  lemma FlattenGroup(inner: Level, more: Level, rest: seq<Event>)
    ensures Flatten(Group(inner, more)) + rest == [Open] + (Flatten(inner) + ([Close] + (Flatten(more) + rest)))
  {
    hide Flatten;
    var a, b := Flatten(inner), Flatten(more);
    assert Flatten(Group(inner, more)) == [Open] + a + [Close] + b by { FlattenIs(inner, more); }
    assert [Open] + a + [Close] + b + rest == [Open] + (a + ([Close] + (b + rest)));
  }

  lemma FlattenIs(inner: Level, more: Level)
    ensures Flatten(Group(inner, more)) == [Open] + Flatten(inner) + [Close] + Flatten(more)
  {
  }

  /** Parsing undoes flattening: the tree is the one that the parentheses describe. */
  lemma {:induction false} ParseFlatten(g: Level, rest: seq<Event>)
    requires AtEnd(rest)
    ensures Parse(Flatten(g) + rest) == (g, rest)
    decreases g
  {
    match g
    case Empty => assert Flatten(g) + rest == rest;
    case Verb(b, more) =>
      ParseFlatten(more, rest);
      assert (Flatten(g) + rest)[1..] == Flatten(more) + rest;
    case Group(inner, more) =>
      hide Parse, Flatten;
      ParseFlatten(inner, [Close] + (Flatten(more) + rest));
      ParseFlatten(more, rest);
      FlattenGroup(inner, more, rest);
      ParseOpened(Flatten(inner) + ([Close] + (Flatten(more) + rest)), inner, Flatten(more) + rest, more, rest);
  }

  // ---- The scanner over events ----

  function ScanEvent(p: Flags, e: Event): Flags {
    match e
    case Arm => TopSet(p, true)
    case Disarm => TopSet(p, false)
    case Open => p + [false]
    case Close => CloseLevel(p)
  }

  predicate AnySet(p: seq<bool>) { exists b <- p :: b }

  function Scan(es: seq<Event>, p: Flags, unfiltered: bool): bool
    decreases |es|
  {
    if es == [] then unfiltered || AnySet(p)
    else Scan(es[1..], ScanEvent(p, es[0]), unfiltered || (es[0] == Close && p[|p| - 1]))
  }

  lemma ScanWord(word: string, es: seq<Event>, p: Flags, unfiltered: bool)
    ensures Scan(WordEvent(word) + es, p, unfiltered) == Scan(es, NoteWord(p, word), unfiltered)
  {
    if WordEvent(word) == [] {
      assert [] + es == es;
    } else {
      assert (WordEvent(word) + es)[1..] == es;
    }
  }

  lemma {:induction false} ScanText(s: string, p: Flags, word: string, unfiltered: bool)
    ensures UpdelScan(s, p, word, unfiltered) == Scan(Events(s, word), p, unfiltered)
    decreases |s|
  {
    if s == [] {
      assert WordEvent(word) + [] == WordEvent(word);
      ScanWord(word, [], p, unfiltered);
    } else if IsWordChar(s[0]) {
      ScanText(s[1..], p, word + [Lower(s[0])], unfiltered);
    } else {
      var q := NoteWord(p, word);
      var more := Events(s[1..], "");
      Assoc(WordEvent(word), ParenEvent(s[0]), more);
      ScanWord(word, ParenEvent(s[0]) + more, p, unfiltered);
      if s[0] == '(' || s[0] == ')' {
        assert (ParenEvent(s[0]) + more)[1..] == more;
      } else {
        assert ParenEvent(s[0]) + more == more;
      }
      ScanText(s[1..], if s[0] == '(' then q + [false] else if s[0] == ')' then CloseLevel(q) else q, "",
               unfiltered || (s[0] == ')' && q[|q| - 1]));
    }
  }

  // ---- The scanner computes the reference definition ----

  predicate InsideUnfiltered(g: Level) { exists h <- Inside(g) :: Unfiltered(h) }

  /** The flag of the level after the group's own verbs. */
  function TopAfter(g: Level, top: bool): bool { if LastVerb(g).Some? then LastVerb(g).value else top }

  function After(p: Flags, g: Level): Flags { TopSet(p, TopAfter(g, p[|p| - 1])) }

  lemma AnySetPush(p: seq<bool>, b: bool)
    ensures AnySet(p + [b]) == (AnySet(p) || b)
  {
    if AnySet(p) { assert true in p && true in p + [b]; }
    if b { assert true in p + [b]; }
  }

  lemma InsideGroup(inner: Level, rest: Level)
    ensures InsideUnfiltered(Group(inner, rest)) ==
            (Unfiltered(inner) || InsideUnfiltered(inner) || InsideUnfiltered(rest))
  {
    var all := Inside(Group(inner, rest));
    assert forall h :: h in all <==> h == inner || h in Inside(inner) || h in Inside(rest);
  }

  lemma CloseTop(p: Flags, t: bool)
    ensures CloseLevel(p + [t]) == p && TopSet(p + [false], t) == p + [t]
  {
  }

  /** Scanning a group leaves its own flag as its last verb says, and remembers the groups inside it. */
  lemma {:induction false} ScanLevel(es: seq<Event>, p: Flags, u: bool)
    ensures var (g, left) := Parse(es); Scan(es, p, u) == Scan(left, After(p, g), u || InsideUnfiltered(g))
    decreases |es|
  {
    if es == [] || es[0] == Close {
      assert After(p, Empty) == p;
    } else if es[0] == Open {
      var (inner, after) := Parse(es[1..]);
      var t := Unfiltered(inner);
      var next := if after == [] then [] else after[1..];
      var (rest, _) := Parse(next);
      ScanLevel(es[1..], p + [false], u);
      CloseTop(p, t);
      assert After(p + [false], inner) == p + [t];
      AnySetPush(p, t);
      ScanLevel(next, p, u || InsideUnfiltered(inner) || t);
      InsideGroup(inner, rest);
      GroupAfter(p, inner, rest);
    } else {
      var b := es[0] == Arm;
      ScanLevel(es[1..], TopSet(p, b), u);
      VerbAfter(p, b, Parse(es[1..]).0);
    }
  }

  lemma GroupAfter(p: Flags, inner: Level, rest: Level)
    ensures After(p, Group(inner, rest)) == After(p, rest)
  {
  }

  lemma VerbAfter(p: Flags, b: bool, rest: Level)
    ensures After(TopSet(p, b), rest) == After(p, Verb(b, rest))
    ensures InsideUnfiltered(Verb(b, rest)) == InsideUnfiltered(rest)
  {
  }

  lemma SomeGroupCons(g: Level, roots: seq<Level>)
    ensures SomeGroupUnfiltered([g] + roots) <==> Unfiltered(g) || InsideUnfiltered(g) || SomeGroupUnfiltered(roots)
  {
    assert forall h :: h in [g] + roots <==> h == g || h in roots;
  }

  lemma {:induction false} ScanRoots(es: seq<Event>, u: bool)
    ensures Scan(es, [false], u) <==> u || SomeGroupUnfiltered(Roots(es))
    decreases |es|
  {
    var (g, left) := Parse(es);
    var t := Unfiltered(g);
    ScanLevel(es, [false], u);
    assert After([false], g) == [t];
    var v := u || InsideUnfiltered(g);
    if left == [] {
      AnySetPush([], t);
      assert [] + [t] == [t];
      SomeGroupCons(g, []);
      assert [g] + [] == [g];
    } else {
      ScanRoots(left[1..], v || t);
      SomeGroupCons(g, Roots(left[1..]));
    }
  }

  /** `unfiltered_updel` refines the tree definition, whatever the parentheses: a statement that leads
      with UPDATE, DELETE or WITH is unfiltered exactly when the last verb of some group is armed. */
  lemma RefinesTree(s: string)
    ensures UnfilteredUpdel(s) <==> LeadsUpdel(s) && SomeGroupUnfiltered(Roots(Events(s, "")))
  {
    ScanText(s, [false], "", false);
    ScanRoots(Events(s, ""), false);
  }
}
