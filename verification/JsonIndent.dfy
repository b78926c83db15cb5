/** The layout of formatted text: every line begins with one tab for each array and object open there. */
module JsonIndent {
  import opened JsonText
  import opened JsonParse

  // ---------- A reader of lines ----------

  /** How many arrays and objects are open, and whether a string is. */
  datatype Place = Place(open: int, quoted: bool, escaped: bool)

  function Next(p: Place, b: Byte): Place {
    if p.quoted then
      if p.escaped then p.(escaped := false)
      else if b as char == '\\' then p.(escaped := true)
      else if b as char == '\"' then p.(quoted := false)
      else p
    else if b as char == '\"' then p.(quoted := true)
    else if b as char in "[{" then p.(open := p.open + 1)
    else if b as char in "]}" then p.(open := p.open - 1)
    else p
  }

  function LeadTabs(s: Bytes): (r: nat)
    ensures r <= |s|
  {
    if s != [] && s[0] as char == '\t' then 1 + LeadTabs(s[1..]) else 0
  }

  /** A line that begins with a closing brace stands where its object was opened. */
  predicate LineOk(open: int, s: Bytes) {
    var n := LeadTabs(s);
    n == if n < |s| && s[n] as char == '}' then open - 1 else open
  }

  /** From place `p` on every newline is followed by the right number of tabs. */
  predicate Indented(p: Place, s: Bytes)
    decreases |s|
  {
    s != [] ==>
      && (s[0] as char == '\n' ==> LineOk(Next(p, s[0]).open, s[1..]))
      && Indented(Next(p, s[0]), s[1..])
  }

  function After(p: Place, s: Bytes): Place
    decreases |s|
  {
    if s == [] then p else After(Next(p, s[0]), s[1..])
  }

  function NewLines(s: Bytes): nat {
    if s == [] then 0 else (if s[0] as char == '\n' then 1 else 0) + NewLines(s[1..])
  }

  predicate OneLine(s: Bytes) {
    forall i :: 0 <= i < |s| ==> s[i] as char != '\n'
  }

  lemma {:induction false} IndentedBehind(p: Place, a: Bytes, rest: Bytes)
    requires OneLine(a)
    ensures Indented(p, a + rest) == Indented(After(p, a), rest)
    decreases |a|
  {
    if a == [] {
      Empty(rest);
    } else {
      assert (a + rest)[1..] == a[1..] + rest;
      IndentedBehind(Next(p, a[0]), a[1..], rest);
    }
  }

  lemma {:induction false} AfterConcat(p: Place, a: Bytes, b: Bytes)
    ensures After(p, a + b) == After(After(p, a), b)
    decreases |a|
  {
    if a == [] {
      Empty(b);
    } else {
      assert (a + b)[1..] == a[1..] + b;
      AfterConcat(Next(p, a[0]), a[1..], b);
    }
  }

  lemma {:induction false} NewLinesConcat(a: Bytes, b: Bytes)
    ensures NewLines(a + b) == NewLines(a) + NewLines(b)
  {
    if a == [] {
      Empty(b);
    } else {
      assert (a + b)[1..] == a[1..] + b;
      NewLinesConcat(a[1..], b);
    }
  }

  lemma {:induction false} OneLineNone(s: Bytes)
    requires OneLine(s)
    ensures NewLines(s) == 0
  {
    if s != [] {
      OneLineNone(s[1..]);
    }
  }

  // ---------- Scalars ----------

  lemma EscapedStays(b: Byte, p: Place)
    requires p.quoted && !p.escaped
    ensures After(p, EscapeByte(b)) == p && OneLine(EscapeByte(b))
  {
    hide After;
    var e := EscapeByte(b);
    if |e| == 1 {
      AfterOne(p, e[0]);
    } else {
      PairStays(p, e[1]);
      if |e| == 6 {
        AfterConcat(p, [BACKSLASH, 117], e[2..]);
        PlainStay(p, e[2..]);
        assert e == [BACKSLASH, 117] + e[2..];
      }
    }
  }

  /** A backslash and the byte behind it. */
  lemma PairStays(p: Place, b: Byte)
    requires p.quoted && !p.escaped
    ensures After(p, [BACKSLASH, b]) == p
  {
    hide After;
    AfterOne(p, BACKSLASH);
    AfterOne(p.(escaped := true), b);
    AfterConcat(p, [BACKSLASH], [b]);
    assert [BACKSLASH, b] == [BACKSLASH] + [b];
  }

  lemma {:induction false} PlainStay(p: Place, s: Bytes)
    requires p.quoted && !p.escaped && forall i :: 0 <= i < |s| ==> s[i] as char !in "\"\\"
    ensures After(p, s) == p
    decreases |s|
  {
    if s != [] {
      PlainStay(p, s[1..]);
    }
  }

  lemma {:induction false} EscapeStays(s: Bytes, p: Place)
    requires p.quoted && !p.escaped
    ensures After(p, Escape(s)) == p && OneLine(Escape(s))
  {
    hide After, EscapeByte;
    if s == [] {
      AfterNothing(p);
    } else {
      EscapedStays(s[0], p);
      EscapeStays(s[1..], p);
      AfterConcat(p, EscapeByte(s[0]), Escape(s[1..]));
    }
  }

  lemma AfterNothing(p: Place)
    ensures After(p, []) == p
  {
  }

  lemma AfterOne(p: Place, b: Byte)
    ensures After(p, [b]) == Next(p, b)
  {
    assert [b][1..] == [];
  }

  lemma QuotedStays(s: Bytes, d: nat)
    ensures After(Place(d, false, false), Quoted(s)) == Place(d, false, false) && OneLine(Quoted(s))
  {
    hide After, Escape;
    var p := Place(d, true, false);
    EscapeStays(s, p);
    AfterOne(Place(d, false, false), QUOTE);
    AfterOne(p, QUOTE);
    AfterConcat(Place(d, false, false), [QUOTE] + Escape(s), [QUOTE]);
    AfterConcat(Place(d, false, false), [QUOTE], Escape(s));
  }

  /** Bytes that are neither marks nor newlines. */
  predicate Inside(b: Byte) {
    b as char !in "\"[]{}\n"
  }

  lemma {:induction false} InsideStays(s: Bytes, d: nat)
    requires forall i :: 0 <= i < |s| ==> Inside(s[i])
    ensures After(Place(d, false, false), s) == Place(d, false, false) && OneLine(s)
  {
    if s != [] {
      InsideStays(s[1..], d);
    }
  }

  lemma ScalarStays(lib: CLib, t: Json, fmt: bool, d: nat)
    requires Wf(lib, t) && !t.Array? && !t.Object?
    ensures After(Place(d, false, false), Print(lib, t, fmt, d)) == Place(d, false, false)
    ensures OneLine(Print(lib, t, fmt, d))
  {
    hide After, Quoted, Decimal, StrTod;
    match t
    case String(s) => QuotedStays(s, d);
    case _ => InsideStays(Print(lib, t, fmt, d), d);
  }

  // ---------- Lines ----------

  /** A byte of a line in front of the rest. */
  lemma Mark(p: Place, b: Byte, rest: Bytes)
    ensures b as char != '\n' ==> Indented(p, [b] + rest) == Indented(Next(p, b), rest)
    ensures b as char == '\n' && !p.quoted ==> Indented(p, [b] + rest) == (LineOk(p.open, rest) && Indented(p, rest))
  {
    assert ([b] + rest)[1..] == rest;
  }

  lemma {:induction false} TabsLead(n: nat, rest: Bytes)
    requires rest == [] || rest[0] as char != '\t'
    ensures LeadTabs(Tabs(n) + rest) == n
  {
    if n == 0 {
      Empty(rest);
      assert Tabs(0) == [];
    } else {
      TabsLead(n - 1, rest);
      assert (Tabs(n) + rest)[1..] == Tabs(n - 1) + rest;
    }
  }

  lemma TabsLine(d: nat, n: nat, rest: Bytes)
    requires rest != [] && rest[0] as char != '\t' && n == if rest[0] as char == '}' then d - 1 else d
    ensures LineOk(d, Tabs(n) + rest)
  {
    hide LeadTabs;
    TabsLead(n, rest);
    assert (Tabs(n) + rest)[n] == rest[0];
  }

  lemma TabsStay(d: nat, n: nat, rest: Bytes)
    ensures Indented(Place(d, false, false), Tabs(n) + rest) == Indented(Place(d, false, false), rest)
  {
    hide Indented, After;
    InsideStays(Tabs(n), d);
    IndentedBehind(Place(d, false, false), Tabs(n), rest);
  }

  // ---------- Values ----------

  lemma {:induction false} ValueIndented(lib: CLib, t: Json, d: nat, rest: Bytes)
    requires Wf(lib, t) && Indented(Place(d, false, false), rest)
    ensures Indented(Place(d, false, false), Print(lib, t, true, d) + rest)
    decreases t, 0
  {
    hide Indented, After, PrintItems, PrintMembers;
    var p := Place(d, false, false);
    match t
    case Array(l) =>
      var q, m := Place(d + 1, false, false), PrintItems(lib, l, true, d + 1);
      Assoc([OPEN_ARRAY], m + [CLOSE_ARRAY], rest);
      Assoc(m, [CLOSE_ARRAY], rest);
      Mark(q, CLOSE_ARRAY, rest);
      ItemsIndented(lib, l, d + 1, [CLOSE_ARRAY] + rest);
      Mark(p, OPEN_ARRAY, m + ([CLOSE_ARRAY] + rest));
    case Object(l) => ObjectIndented(lib, l, d, rest);
    case _ =>
      ScalarStays(lib, t, true, d);
      IndentedBehind(p, Print(lib, t, true, d), rest);
  }

  lemma {:induction false} ItemsIndented(lib: CLib, l: Items, d: nat, rest: Bytes)
    requires WfItems(lib, l) && Indented(Place(d, false, false), rest)
    ensures Indented(Place(d, false, false), PrintItems(lib, l, true, d) + rest)
    decreases l, 1
  {
    hide Indented, Print;
    var p := Place(d, false, false);
    if l.NoItem? {
      Empty(rest);
    } else {
      var n := PrintNextItem(lib, l.next, true, d);
      if l.next.NoItem? {
        Empty(rest);
      } else {
        var m := PrintItems(lib, l.next, true, d);
        ItemsIndented(lib, l.next, d, rest);
        Mark(p, SPACE, m + rest);
        Mark(p, COMMA, [SPACE] + (m + rest));
        Assoc([SPACE], m, rest);
        Assoc([COMMA], [SPACE] + m, rest);
      }
      Assoc(Print(lib, l.value, true, d), n, rest);
      ValueIndented(lib, l.value, d, n + rest);
    }
  }

  /** What stands behind the members of an object whose brace has `d` tabs. */
  function Closing(d: nat, rest: Bytes): Bytes {
    Tabs(d) + ([CLOSE_OBJECT] + rest)
  }

  lemma ClosingIndented(d: nat, rest: Bytes)
    requires Indented(Place(d, false, false), rest)
    ensures Indented(Place(d + 1, false, false), Closing(d, rest)) && LineOk(d + 1, Closing(d, rest))
  {
    hide Indented, LineOk;
    Mark(Place(d + 1, false, false), CLOSE_OBJECT, rest);
    TabsStay(d + 1, d, [CLOSE_OBJECT] + rest);
    TabsLine(d + 1, d, [CLOSE_OBJECT] + rest);
  }

  lemma {:induction false} ObjectIndented(lib: CLib, l: Members, d: nat, rest: Bytes)
    requires WfMembers(lib, l) && Indented(Place(d, false, false), rest)
    ensures Indented(Place(d, false, false), Print(lib, Object(l), true, d) + rest)
    decreases l, 5
  {
    hide Indented, LineOk, PrintMembers, Closing;
    var p, q := Place(d, false, false), Place(d + 1, false, false);
    var c, m := Closing(d, rest), PrintMembers(lib, l, true, d + 1);
    ClosingIndented(d, rest);
    MembersIndented(lib, l, d, rest);
    Mark(q, NEWLINE, m + c);
    Mark(p, OPEN_OBJECT, [NEWLINE] + (m + c));
    ObjectSpelled(lib, l, d, rest);
  }

  lemma ObjectSpelled(lib: CLib, l: Members, d: nat, rest: Bytes)
    ensures Print(lib, Object(l), true, d) + rest
      == [OPEN_OBJECT] + ([NEWLINE] + (PrintMembers(lib, l, true, d + 1) + Closing(d, rest)))
  {
    hide PrintMembers;
    var m := PrintMembers(lib, l, true, d + 1);
    Assoc([OPEN_OBJECT], [NEWLINE] + (m + (Tabs(d) + [CLOSE_OBJECT])), rest);
    Assoc([NEWLINE], m + (Tabs(d) + [CLOSE_OBJECT]), rest);
    Assoc(m, Tabs(d) + [CLOSE_OBJECT], rest);
    Assoc(Tabs(d), [CLOSE_OBJECT], rest);
  }

  /** The members of an object whose brace has `d` tabs, from the first line on. */
  lemma {:induction false} MembersIndented(lib: CLib, l: Members, d: nat, rest: Bytes)
    requires WfMembers(lib, l) && Indented(Place(d, false, false), rest)
    ensures
      var s := PrintMembers(lib, l, true, d + 1) + Closing(d, rest);
      Indented(Place(d + 1, false, false), s) && LineOk(d + 1, s)
    decreases l, 3
  {
    hide Indented, LineOk, PrintMember, Closing;
    ClosingIndented(d, rest);
    if l.NoMember? {
      Empty(Closing(d, rest));
    } else {
      var m, c := PrintMember(lib, l, true, d + 1), Closing(d, rest);
      MemberIndented(lib, l, d, rest);
      Assoc(Tabs(d + 1), m, c);
      TabsStay(d + 1, d + 1, m + c);
      MemberHead(lib, l, d + 1, c);
      TabsLine(d + 1, d + 1, m + c);
    }
  }

  lemma MemberHead(lib: CLib, l: Members, d: nat, c: Bytes)
    requires l.Member?
    ensures PrintMember(lib, l, true, d) + c != [] && (PrintMember(lib, l, true, d) + c)[0] == QUOTE
  {
    hide Print, Escape, PrintNextMember;
    QuotedHead(l.key);
  }

  lemma {:induction false} MemberIndented(lib: CLib, l: Members, d: nat, rest: Bytes)
    requires l.Member? && WfMembers(lib, l) && Indented(Place(d, false, false), rest)
    ensures Indented(Place(d + 1, false, false), PrintMember(lib, l, true, d + 1) + Closing(d, rest))
    decreases l, 2
  {
    hide Indented, LineOk, Closing, Print, Quoted, After, PrintMembers;
    var p, c := Place(d + 1, false, false), Closing(d, rest);
    var n := PrintNextMember(lib, l.next, true, d + 1);
    NextMemberIndented(lib, l.next, d, rest);
    var q, v := Quoted(l.key), Print(lib, l.value, true, d + 1);
    ValueIndented(lib, l.value, d + 1, n + c);
    Mark(p, TAB, v + (n + c));
    Mark(p, COLON, [TAB] + (v + (n + c)));
    QuotedStays(l.key, d + 1);
    IndentedBehind(p, q, [COLON] + ([TAB] + (v + (n + c))));
    Assoc(q, [COLON] + ([TAB] + (v + n)), c);
    Assoc([COLON], [TAB] + (v + n), c);
    Assoc([TAB], v + n, c);
    Assoc(v, n, c);
  }

  lemma {:induction false} NextMemberIndented(lib: CLib, l: Members, d: nat, rest: Bytes)
    requires WfMembers(lib, l) && Indented(Place(d, false, false), rest)
    ensures Indented(Place(d + 1, false, false), PrintNextMember(lib, l, true, d + 1) + Closing(d, rest))
    decreases l, 4
  {
    hide Indented, LineOk, Closing, PrintMembers;
    var p, c := Place(d + 1, false, false), Closing(d, rest);
    if l.NoMember? {
      ClosingIndented(d, rest);
      Mark(p, NEWLINE, c);
    } else {
      var m := PrintMembers(lib, l, true, d + 1);
      MembersIndented(lib, l, d, rest);
      Mark(p, NEWLINE, m + c);
      Mark(p, COMMA, [NEWLINE] + (m + c));
      Assoc([COMMA], [NEWLINE] + m, c);
      Assoc([NEWLINE], m, c);
    }
  }

  /** Line breaks of a formatted text: behind the opening brace of each object, and behind each member. */
  function Breaks(t: Json): nat {
    match t
    case Array(l) => ItemBreaks(l)
    case Object(l) => 1 + MemberBreaks(l)
    case _ => 0
  }

  function ItemBreaks(l: Items): nat {
    match l
    case NoItem => 0
    case Item(v, next) => Breaks(v) + ItemBreaks(next)
  }

  function MemberBreaks(l: Members): nat {
    match l
    case NoMember => 0
    case Member(_, v, next) => Breaks(v) + 1 + MemberBreaks(next)
  }

  lemma {:induction false} ValueLines(lib: CLib, t: Json, d: nat)
    requires Wf(lib, t)
    ensures NewLines(Print(lib, t, true, d)) == Breaks(t)
    decreases t, 0
  {
    hide NewLines, PrintItems, PrintMembers, Quoted, NumberText;
    MarkLines();
    match t
    case Array(l) =>
      var m := PrintItems(lib, l, true, d + 1);
      ItemsLines(lib, l, d + 1);
      NewLinesConcat(m, [CLOSE_ARRAY]);
      NewLinesConcat([OPEN_ARRAY], m + [CLOSE_ARRAY]);
    case Object(l) =>
      var m := PrintMembers(lib, l, true, d + 1);
      MembersLines(lib, l, d + 1);
      TabsLines(d);
      NewLinesConcat(Tabs(d), [CLOSE_OBJECT]);
      NewLinesConcat(m, Tabs(d) + [CLOSE_OBJECT]);
      NewLinesConcat([NEWLINE], m + (Tabs(d) + [CLOSE_OBJECT]));
      NewLinesConcat([OPEN_OBJECT], [NEWLINE] + (m + (Tabs(d) + [CLOSE_OBJECT])));
    case _ =>
      ScalarStays(lib, t, true, d);
      OneLineNone(Print(lib, t, true, d));
  }

  lemma MarkLines()
    ensures NewLines([OPEN_ARRAY]) == 0 && NewLines([CLOSE_ARRAY]) == 0 && NewLines([OPEN_OBJECT]) == 0
    ensures NewLines([CLOSE_OBJECT]) == 0 && NewLines([COMMA]) == 0 && NewLines([COLON]) == 0
    ensures NewLines([SPACE]) == 0 && NewLines([TAB]) == 0 && NewLines([NEWLINE]) == 1 && NewLines([]) == 0
  {
  }

  lemma TabsLines(n: nat)
    ensures NewLines(Tabs(n)) == 0
  {
    OneLineNone(Tabs(n));
  }

  lemma {:induction false} ItemsLines(lib: CLib, l: Items, d: nat)
    requires WfItems(lib, l)
    ensures NewLines(PrintItems(lib, l, true, d)) == ItemBreaks(l)
    decreases l, 1
  {
    hide NewLines, Print;
    MarkLines();
    if l.Item? {
      var n := PrintNextItem(lib, l.next, true, d);
      ValueLines(lib, l.value, d);
      ItemsLines(lib, l.next, d);
      if l.next.Item? {
        NewLinesConcat([SPACE], PrintItems(lib, l.next, true, d));
        NewLinesConcat([COMMA], [SPACE] + PrintItems(lib, l.next, true, d));
      }
      NewLinesConcat(Print(lib, l.value, true, d), n);
    }
  }

  lemma {:induction false} MembersLines(lib: CLib, l: Members, d: nat)
    requires WfMembers(lib, l)
    ensures NewLines(PrintMembers(lib, l, true, d)) == MemberBreaks(l)
    decreases l, 1
  {
    hide NewLines, Print, Quoted;
    MarkLines();
    if l.Member? {
      var q, v, n := Quoted(l.key), Print(lib, l.value, true, d), PrintNextMember(lib, l.next, true, d);
      ValueLines(lib, l.value, d);
      MembersLines(lib, l.next, d);
      if l.next.Member? {
        NewLinesConcat([NEWLINE], PrintMembers(lib, l.next, true, d));
        NewLinesConcat([COMMA], [NEWLINE] + PrintMembers(lib, l.next, true, d));
      }
      QuotedStays(l.key, d);
      OneLineNone(q);
      NewLinesConcat(v, n);
      NewLinesConcat([TAB], v + n);
      NewLinesConcat([COLON], [TAB] + (v + n));
      NewLinesConcat(q, [COLON] + ([TAB] + (v + n)));
      TabsLines(d);
      NewLinesConcat(Tabs(d), PrintMember(lib, l, true, d));
    }
  }

  /**
   Formatted text: every line begins with as many tabs as arrays and objects are open there, a
   line with a closing brace with one less; a line ends behind the opening brace of every object
   and behind every member, and nowhere else.
   */
  lemma TextIndented(lib: CLib, t: Json)
    requires Wf(lib, t)
    ensures
      var text := Print(lib, t, true, 0);
      LineOk(0, text) && Indented(Place(0, false, false), text) && NewLines(text) == Breaks(t)
  {
    hide Print, Indented;
    var text := Print(lib, t, true, 0);
    PrintHead(lib, t, true, 0);
    ValueLines(lib, t, 0);
    assert Indented(Place(0, false, false), []) by {
      IndentedEnd();
    }
    ValueIndented(lib, t, 0, []);
    Empty(text);
  }

  lemma IndentedEnd()
    ensures Indented(Place(0, false, false), [])
  {
  }
}
