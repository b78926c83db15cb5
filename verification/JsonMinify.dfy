/**
 `cJSON_Minify`: spaces and comments go, string literals stay. On a printed tree it removes
 exactly what formatting has added.
 */
module JsonMinify {
  import opened Options
  import opened JsonText
  import opened JsonString
  import opened JsonParse
  import opened JsonRoundTrip

  predicate IsBlank(b: Byte) {
    b == SPACE || b == TAB || b == 13 || b == NEWLINE
  }

  /** The length of a line comment, without its newline. */
  function LineComment(s: Bytes): (r: nat)
    ensures r <= |s|
  {
    if s == [] || s[0] == NEWLINE then 0 else 1 + LineComment(s[1..])
  }

  /** Where the first star followed by a slash is. */
  function CommentEnd(s: Bytes): (r: Option<nat>)
    ensures r.Some? ==> r.value + 2 <= |s|
  {
    if |s| < 2 then None
    else if s[0] == STAR && s[1] == SLASH then Some(0)
    else Plus(1, CommentEnd(s[1..]))
  }

  /** The text that remains; None when a comment or a string is not closed and the scan leaves the text. */
  function Minify(s: Bytes): (r: Option<Bytes>)
    decreases |s|
  {
    if s == [] then Some([])
    else if IsBlank(s[0]) then Minify(s[1..])
    else if s[0] == SLASH && |s| > 1 && s[1] == SLASH then Minify(s[1 + LineComment(s[1..])..])
    else if s[0] == SLASH && |s| > 1 && s[1] == STAR then
      var e := CommentEnd(s);
      if e.None? then None else Minify(s[e.value + 2..])
    else if s[0] == QUOTE then
      var q := QuoteAt(s[1..]);
      if q.None? then None else Prefixed(s[..q.value + 2], Minify(s[q.value + 2..]))
    else Prefixed([s[0]], Minify(s[1..]))
  }

  lemma PrefixedNone(r: Option<Bytes>)
    ensures Prefixed([], r) == r
  {
    if r.Some? {
      Empty(r.value);
    }
  }

  // ---------- On printed trees ----------

  predicate Plain(b: Byte) {
    !IsBlank(b) && b != SLASH && b != QUOTE
  }

  lemma {:induction false} PlainStays(p: Bytes, rest: Bytes)
    requires forall i :: 0 <= i < |p| ==> Plain(p[i])
    ensures Minify(p + rest) == Prefixed(p, Minify(rest))
  {
    if p == [] {
      Empty(rest);
      PrefixedNone(Minify(rest));
    } else {
      PlainStays(p[1..], rest);
      assert (p + rest)[1..] == p[1..] + rest;
      PrefixedTwice([p[0]], p[1..], Minify(rest));
      assert [p[0]] + p[1..] == p;
    }
  }

  lemma {:induction false} BlanksGo(p: Bytes, rest: Bytes)
    requires forall i :: 0 <= i < |p| ==> IsBlank(p[i])
    ensures Minify(p + rest) == Minify(rest)
  {
    if p == [] {
      Empty(rest);
    } else {
      BlanksGo(p[1..], rest);
      assert (p + rest)[1..] == p[1..] + rest;
    }
  }

  lemma FormattingGoes(fmt: bool, d: nat, rest: Bytes)
    ensures Minify(LineEnd(fmt) + rest) == Minify(rest) && Minify(Lead(fmt, d) + rest) == Minify(rest)
    ensures Minify(AfterComma(fmt) + rest) == Minify(rest) && Minify(AfterColon(fmt) + rest) == Minify(rest)
  {
    hide Minify;
    BlanksGo(LineEnd(fmt), rest);
    BlanksGo(Lead(fmt, d), rest);
    BlanksGo(AfterComma(fmt), rest);
    BlanksGo(AfterColon(fmt), rest);
  }

  lemma StringStays(s: Bytes, rest: Bytes)
    ensures Minify(Quoted(s) + rest) == Prefixed(Quoted(s), Minify(rest))
  {
    hide Escape, QuoteAt, Minify, Meaning, PiecesOf, Spelling;
    EscapedPieces(s);
    PiecesScan(PiecesOf(s), rest);
    var t := Quoted(s) + rest;
    assert t[1..] == Escape(s) + [QUOTE] + rest;
    MinifyStep(t);
    assert t[..|Escape(s)| + 2] == Quoted(s) && t[|Escape(s)| + 2..] == rest;
  }

  lemma ScalarStays(lib: CLib, t: Json, fmt: bool, d: nat, rest: Bytes)
    requires Wf(lib, t) && !t.Array? && !t.Object?
    ensures Minify(Print(lib, t, fmt, d) + rest) == Prefixed(Print(lib, t, false, d), Minify(rest))
  {
    hide Minify, Quoted, Decimal, StrTod, Prefixed;
    match t
    case String(s) => StringStays(s, rest);
    case _ => PlainStays(Print(lib, t, fmt, d), rest);
  }

  lemma PlainOne(b: Byte, rest: Bytes)
    requires Plain(b)
    ensures Minify([b] + rest) == Prefixed([b], Minify(rest))
  {
    PlainStays([b], rest);
  }

  /** Minifying a value's text, whatever follows it, leaves its unformatted text. */
  lemma {:induction false} ValueMinified(lib: CLib, t: Json, fmt: bool, d: nat, rest: Bytes)
    requires Wf(lib, t)
    ensures Minify(Print(lib, t, fmt, d) + rest) == Prefixed(Print(lib, t, false, d), Minify(rest))
    decreases t, 0
  {
    hide Minify, Prefixed, PrintItems, PrintMembers;
    match t
    case Array(l) =>
      var p, u := PrintItems(lib, l, fmt, d + 1), PrintItems(lib, l, false, d + 1);
      var r := Minify(rest);
      Assoc([OPEN_ARRAY], p + [CLOSE_ARRAY], rest);
      Assoc(p, [CLOSE_ARRAY], rest);
      PlainOne(OPEN_ARRAY, p + ([CLOSE_ARRAY] + rest));
      ItemsMinified(lib, l, fmt, d + 1, [CLOSE_ARRAY] + rest);
      PlainOne(CLOSE_ARRAY, rest);
      PrefixedTwice(u, [CLOSE_ARRAY], r);
      PrefixedTwice([OPEN_ARRAY], u + [CLOSE_ARRAY], r);
    case Object(l) => ObjectMinified(lib, l, fmt, d, rest);
    case _ => ScalarStays(lib, t, fmt, d, rest);
  }

  lemma {:induction false} ObjectMinified(lib: CLib, l: Members, fmt: bool, d: nat, rest: Bytes)
    requires WfMembers(lib, l)
    ensures Minify(Print(lib, Object(l), fmt, d) + rest) == Prefixed(Print(lib, Object(l), false, d), Minify(rest))
    decreases l, 4
  {
    hide Minify, Prefixed, PrintMembers, Lead, LineEnd;
    var m, u := PrintMembers(lib, l, fmt, d + 1), PrintMembers(lib, l, false, d + 1);
    var ln, ld := LineEnd(fmt), Lead(fmt, d);
    var r := Minify(rest);
    Assoc([OPEN_OBJECT], ln + (m + (ld + [CLOSE_OBJECT])), rest);
    Assoc(ln, m + (ld + [CLOSE_OBJECT]), rest);
    Assoc(m, ld + [CLOSE_OBJECT], rest);
    Assoc(ld, [CLOSE_OBJECT], rest);
    PlainOne(OPEN_OBJECT, ln + (m + (ld + ([CLOSE_OBJECT] + rest))));
    FormattingGoes(fmt, d, m + (ld + ([CLOSE_OBJECT] + rest)));
    MembersMinified(lib, l, fmt, d + 1, ld + ([CLOSE_OBJECT] + rest));
    FormattingGoes(fmt, d, [CLOSE_OBJECT] + rest);
    PlainOne(CLOSE_OBJECT, rest);
    PrefixedTwice(u, [CLOSE_OBJECT], r);
    PrefixedTwice([OPEN_OBJECT], u + [CLOSE_OBJECT], r);
    Unformatted(d);
    Empty([CLOSE_OBJECT]);
    Empty(u + [CLOSE_OBJECT]);
  }

  lemma Unformatted(d: nat)
    ensures LineEnd(false) == [] && Lead(false, d) == [] && AfterComma(false) == [] && AfterColon(false) == []
  {
  }

  lemma {:induction false} ItemsMinified(lib: CLib, l: Items, fmt: bool, d: nat, rest: Bytes)
    requires WfItems(lib, l)
    ensures Minify(PrintItems(lib, l, fmt, d) + rest) == Prefixed(PrintItems(lib, l, false, d), Minify(rest))
    decreases l, 1
  {
    hide Minify, Prefixed, Print, PrintNextItem;
    if l.NoItem? {
      Empty(rest);
      PrefixedNone(Minify(rest));
    } else {
      var p, n := Print(lib, l.value, fmt, d), PrintNextItem(lib, l.next, fmt, d);
      Assoc(p, n, rest);
      ValueMinified(lib, l.value, fmt, d, n + rest);
      NextItemMinified(lib, l.next, fmt, d, rest);
      PrefixedTwice(Print(lib, l.value, false, d), PrintNextItem(lib, l.next, false, d), Minify(rest));
    }
  }

  lemma {:induction false} NextItemMinified(lib: CLib, l: Items, fmt: bool, d: nat, rest: Bytes)
    requires WfItems(lib, l)
    ensures Minify(PrintNextItem(lib, l, fmt, d) + rest) == Prefixed(PrintNextItem(lib, l, false, d), Minify(rest))
    decreases l, 2
  {
    hide Minify, Prefixed, PrintItems, AfterComma;
    if l.NoItem? {
      Empty(rest);
      PrefixedNone(Minify(rest));
    } else {
      var g, z, u := AfterComma(fmt), PrintItems(lib, l, fmt, d), PrintItems(lib, l, false, d);
      Assoc([COMMA], g + z, rest);
      Assoc(g, z, rest);
      PlainOne(COMMA, g + (z + rest));
      FormattingGoes(fmt, d, z + rest);
      ItemsMinified(lib, l, fmt, d, rest);
      PrefixedTwice([COMMA], u, Minify(rest));
      Unformatted(d);
      Empty(u);
    }
  }

  lemma {:induction false} MembersMinified(lib: CLib, l: Members, fmt: bool, d: nat, rest: Bytes)
    requires WfMembers(lib, l)
    ensures Minify(PrintMembers(lib, l, fmt, d) + rest) == Prefixed(PrintMembers(lib, l, false, d), Minify(rest))
    decreases l, 2
  {
    hide Minify, Prefixed, PrintMember, Lead;
    if l.NoMember? {
      Empty(rest);
      PrefixedNone(Minify(rest));
    } else {
      var m := PrintMember(lib, l, fmt, d);
      Assoc(Lead(fmt, d), m, rest);
      FormattingGoes(fmt, d, m + rest);
      MemberMinified(lib, l, fmt, d, rest);
      Unformatted(d);
      Empty(PrintMember(lib, l, false, d));
    }
  }

  lemma {:induction false} MemberMinified(lib: CLib, l: Members, fmt: bool, d: nat, rest: Bytes)
    requires l.Member? && WfMembers(lib, l)
    ensures Minify(PrintMember(lib, l, fmt, d) + rest) == Prefixed(PrintMember(lib, l, false, d), Minify(rest))
    decreases l, 1
  {
    hide Minify, Prefixed, Print, Quoted, PrintNextMember, AfterColon;
    var q, g, p, n := Quoted(l.key), AfterColon(fmt), Print(lib, l.value, fmt, d), PrintNextMember(lib, l.next, fmt, d);
    var p', n' := Print(lib, l.value, false, d), PrintNextMember(lib, l.next, false, d);
    var r := Minify(rest);
    Assoc(q, [COLON] + (g + (p + n)), rest);
    Assoc([COLON], g + (p + n), rest);
    Assoc(g, p + n, rest);
    Assoc(p, n, rest);
    StringStays(l.key, [COLON] + (g + (p + (n + rest))));
    PlainOne(COLON, g + (p + (n + rest)));
    FormattingGoes(fmt, d, p + (n + rest));
    ValueMinified(lib, l.value, fmt, d, n + rest);
    NextMemberMinified(lib, l.next, fmt, d, rest);
    PrefixedTwice(p', n', r);
    PrefixedTwice([COLON], p' + n', r);
    PrefixedTwice(q, [COLON] + (p' + n'), r);
    Unformatted(d);
    Empty(p' + n');
  }

  lemma {:induction false} NextMemberMinified(lib: CLib, l: Members, fmt: bool, d: nat, rest: Bytes)
    requires WfMembers(lib, l)
    ensures Minify(PrintNextMember(lib, l, fmt, d) + rest) == Prefixed(PrintNextMember(lib, l, false, d), Minify(rest))
    decreases l, 3
  {
    hide Minify, Prefixed, PrintMembers, LineEnd;
    Unformatted(d);
    if l.NoMember? {
      FormattingGoes(fmt, d, rest);
      PrefixedNone(Minify(rest));
    } else {
      var g, z, u := LineEnd(fmt), PrintMembers(lib, l, fmt, d), PrintMembers(lib, l, false, d);
      Assoc([COMMA], g + z, rest);
      Assoc(g, z, rest);
      PlainOne(COMMA, g + (z + rest));
      FormattingGoes(fmt, d, z + rest);
      MembersMinified(lib, l, fmt, d, rest);
      PrefixedTwice([COMMA], u, Minify(rest));
      Empty(u);
    }
  }

  /**
   Minifying the formatted text gives the unformatted text, minifying that changes nothing, and
   the result still parses to the same tree up to the nesting limit.
   */
  lemma MinifyErasesFormatting(lib: CLib, t: Json, fmt: bool)
    requires Wf(lib, t)
    ensures Minify(Print(lib, t, fmt, 0)) == Some(Print(lib, t, false, 0))
    ensures Depth(t) <= NESTING_LIMIT ==>
      Parse(lib, Minify(Print(lib, t, fmt, 0)).value, true) == Some((t, |Print(lib, t, false, 0)|))
  {
    hide Print, Minify, Wf, Parse, Depth;
    ValueMinified(lib, t, fmt, 0, []);
    Empty(Print(lib, t, fmt, 0));
    Empty(Print(lib, t, false, 0));
    MinifyNothing();
    RoundTrip(lib, t, false, true);
  }

  lemma MinifyNothing()
    ensures Minify([]) == Some([])
  {
  }

  // ---------- In place ----------

  lemma MinifyStep(s: Bytes)
    requires s != []
    ensures IsBlank(s[0]) ==> Minify(s) == Minify(s[1..])
    ensures s[0] == SLASH && |s| > 1 && s[1] == SLASH ==> Minify(s) == Minify(s[1 + LineComment(s[1..])..])
    ensures s[0] == SLASH && |s| > 1 && s[1] == STAR ==>
      Minify(s) == if CommentEnd(s).None? then None else Minify(s[CommentEnd(s).value + 2..])
    ensures s[0] == QUOTE ==>
      Minify(s) ==
        if QuoteAt(s[1..]).None? then None
        else Prefixed(s[..QuoteAt(s[1..]).value + 2], Minify(s[QuoteAt(s[1..]).value + 2..]))
    ensures !IsBlank(s[0]) && s[0] != QUOTE && !(s[0] == SLASH && |s| > 1 && (s[1] == SLASH || s[1] == STAR)) ==>
      Minify(s) == Prefixed([s[0]], Minify(s[1..]))
  {
    hide CommentEnd, LineComment, QuoteAt, Prefixed, Minify;
    if IsBlank(s[0]) {
      BlankStep(s);
    } else if s[0] == QUOTE {
      LiteralStep(s);
    } else if s[0] == SLASH && |s| > 1 && s[1] == SLASH {
      LineStep(s);
    } else if s[0] == SLASH && |s| > 1 && s[1] == STAR {
      BlockStep(s);
    } else {
      OtherStep(s);
    }
  }

  lemma BlankStep(s: Bytes)
    requires s != [] && IsBlank(s[0])
    ensures Minify(s) == Minify(s[1..])
  {
  }

  lemma LineStep(s: Bytes)
    requires |s| > 1 && s[0] == SLASH && s[1] == SLASH
    ensures Minify(s) == Minify(s[1 + LineComment(s[1..])..])
  {
    hide LineComment;
  }

  lemma BlockStep(s: Bytes)
    requires |s| > 1 && s[0] == SLASH && s[1] == STAR
    ensures Minify(s) == if CommentEnd(s).None? then None else Minify(s[CommentEnd(s).value + 2..])
  {
    hide CommentEnd;
  }

  lemma LiteralStep(s: Bytes)
    requires s != [] && s[0] == QUOTE
    ensures
      Minify(s) ==
        if QuoteAt(s[1..]).None? then None
        else Prefixed(s[..QuoteAt(s[1..]).value + 2], Minify(s[QuoteAt(s[1..]).value + 2..]))
  {
    hide QuoteAt, Prefixed;
  }

  lemma OtherStep(s: Bytes)
    requires s != [] && !IsBlank(s[0]) && s[0] != QUOTE
    requires !(s[0] == SLASH && |s| > 1 && (s[1] == SLASH || s[1] == STAR))
    ensures Minify(s) == Prefixed([s[0]], Minify(s[1..]))
  {
    hide Prefixed;
  }

  /** One turn of the loop, told by positions in the whole text. */
  lemma MinifyAt(s: Bytes, i: nat)
    requires i < |s|
    ensures IsBlank(s[i]) ==> Minify(s[i..]) == Minify(s[i + 1..])
    ensures
      s[i] == SLASH && i + 1 < |s| && s[i + 1] == SLASH ==>
      i < i + LineComment(s[i..]) <= |s| && Minify(s[i..]) == Minify(s[i + LineComment(s[i..])..])
    ensures
      s[i] == SLASH && i + 1 < |s| && s[i + 1] == STAR ==>
      Minify(s[i..]) == if CommentEnd(s[i..]).None? then None else Minify(s[i + CommentEnd(s[i..]).value + 2..])
    ensures
      s[i] == QUOTE ==>
      Minify(s[i..]) ==
      if QuoteAt(s[i + 1..]).None? then None
      else Prefixed(s[i..i + QuoteAt(s[i + 1..]).value + 2], Minify(s[i + QuoteAt(s[i + 1..]).value + 2..]))
    ensures
      !IsBlank(s[i]) && s[i] != QUOTE && !(s[i] == SLASH && i + 1 < |s| && (s[i + 1] == SLASH || s[i + 1] == STAR)) ==>
      Minify(s[i..]) == Prefixed(s[i..i + 1], Minify(s[i + 1..]))
  {
    hide Minify, CommentEnd, QuoteAt, Prefixed;
    var t := s[i..];
    MinifyStep(t);
    assert s[i..i + 1] == [t[0]];
    assert t[1..] == s[i + 1..];
    if s[i] == QUOTE && QuoteAt(t[1..]).Some? {
      var q := QuoteAt(t[1..]).value;
      assert t[..q + 2] == s[i..i + q + 2] && t[q + 2..] == s[i + q + 2..];
    }
    if s[i] == SLASH && i + 1 < |s| {
      assert t[LineComment(t)..] == s[i + LineComment(t)..];
      assert CommentEnd(t).Some? ==> t[CommentEnd(t).value + 2..] == s[i + CommentEnd(t).value + 2..];
    }
  }

  /** One turn of the copying loop inside a string. */
  lemma QuoteStep(s: Bytes, i: nat)
    requires i <= |s| && QuoteAt(s[i..]).Some?
    ensures i < |s|
    ensures s[i] == QUOTE ==> QuoteAt(s[i..]) == Some(0)
    ensures s[i] == BACKSLASH ==> i + 1 < |s| && QuoteAt(s[i..]) == Plus(2, QuoteAt(s[i + 2..]))
    ensures s[i] != QUOTE && s[i] != BACKSLASH ==> QuoteAt(s[i..]) == Plus(1, QuoteAt(s[i + 1..]))
  {
    var t := s[i..];
    assert t[1..] == s[i + 1..];
    assert i + 1 < |s| ==> t[2..] == s[i + 2..];
  }

  /** A step of two scans: the first comment end. */
  lemma CommentStep(s: Bytes, i: nat)
    requires i <= |s| && CommentEnd(s[i..]).Some?
    ensures i + 1 < |s|
    ensures s[i] == STAR && s[i + 1] == SLASH ==> CommentEnd(s[i..]) == Some(0)
    ensures !(s[i] == STAR && s[i + 1] == SLASH) ==> CommentEnd(s[i..]) == Plus(1, CommentEnd(s[i + 1..]))
  {
    var t := s[i..];
    assert t[1..] == s[i + 1..];
  }

  /** A C string of `n` bytes lies in the buffer from its read position `json` on. */
  ghost predicate Unread(a: array<Byte>, s: Bytes, json: nat)
    reads a
  {
    |s| < a.Length && json <= |s| && a[json..|s|] == s[json..] && a[|s|] == 0 && NulFree(s)
  }

  lemma ReadByte(a: array<Byte>, s: Bytes, json: nat)
    requires Unread(a, s, json)
    ensures a[json] == 0 <==> json == |s|
    ensures json < |s| ==> a[json] == s[json] && (a[json + 1] == if json + 1 < |s| then s[json + 1] else 0)
    ensures json < |s| ==> Unread(a, s, json + 1) && s[json..][0] == s[json] && s[json..][1..] == s[json + 1..]
  {
    if json < |s| {
      assert a[json] == a[json..|s|][0];
      if json + 1 < |s| {
        assert a[json + 1] == a[json..|s|][1];
      }
      assert a[json + 1..|s|] == a[json..|s|][1..];
    }
  }

  method SkipLine(a: array<Byte>, json: nat, ghost s: Bytes) returns (r: nat)
    requires Unread(a, s, json)
    ensures r == json + LineComment(s[json..]) && Unread(a, s, r)
  {
    r := json;
    while a[r] != 0 && a[r] != NEWLINE
      invariant json <= r <= |s| && Unread(a, s, r)
      invariant json + LineComment(s[json..]) == r + LineComment(s[r..])
      decreases |s| - r
    {
      ReadByte(a, s, r);
      r := r + 1;
    }
    ReadByte(a, s, r);
  }

  method SkipComment(a: array<Byte>, json: nat, ghost s: Bytes) returns (r: nat)
    requires Unread(a, s, json) && CommentEnd(s[json..]).Some?
    ensures r == json + CommentEnd(s[json..]).value + 2 && Unread(a, s, r)
  {
    hide CommentEnd, Unread, NulFree;
    r := json;
    UnreadSize(a, s, r);
    CommentStep(s, r);
    ReadByte(a, s, r);
    while a[r] != 0 && !(a[r] == STAR && a[r + 1] == SLASH)
      invariant json <= r && r + 1 < |s| < a.Length && Unread(a, s, r) && a[r] == s[r] != 0 && a[r + 1] == s[r + 1]
      invariant CommentEnd(s[r..]).Some? && json + CommentEnd(s[json..]).value == r + CommentEnd(s[r..]).value
      decreases |s| - r
    {
      CommentStep(s, r);
      ReadByte(a, s, r);
      r := r + 1;
      CommentStep(s, r);
      ReadByte(a, s, r);
    }
    CommentStep(s, r);
    ReadByte(a, s, r);
    ReadByte(a, s, r + 1);
    r := r + 2;
  }

  /** The string literal at `json` is moved down to `into`. */
  method CopyString(a: array<Byte>, into: nat, json: nat, ghost s: Bytes) returns (into': nat, json': nat)
    requires Unread(a, s, json) && into <= json < |s| && s[json] == QUOTE && QuoteAt(s[json + 1..]).Some?
    modifies a
    ensures json' == json + QuoteAt(s[json + 1..]).value + 2 && into' <= json'
    ensures Unread(a, s, json') && a[..into'] == old(a[..into]) + s[json..json'] && a[|s|..] == old(a[|s|..])
  {
    hide QuoteAt, NulFree, Unread;
    UnreadSize(a, s, json);
    into', json' := MoveByte(a, into, json, s);
    ghost var q := json' + QuoteAt(s[json'..]).value;
    ReadByte(a, s, json');
    QuoteStep(s, json');
    while a[json'] != 0 && a[json'] != QUOTE
      invariant into' <= json' && json < json' < |s| < a.Length && Unread(a, s, json') && a[json'] == s[json'] != 0
      invariant a[..into'] == old(a[..into]) + s[json..json'] && a[|s|..] == old(a[|s|..])
      invariant QuoteAt(s[json'..]).Some? && json' + QuoteAt(s[json'..]).value == q
      decreases |s| - json'
    {
      ghost var from := json';
      into', json' := CopyChar(a, into', json', s);
      Grow(old(a[..into]), s, json, from, json');
      QuoteStep(s, json');
      ReadByte(a, s, json');
    }
    QuoteStep(s, json');
    into', json' := MoveByte(a, into', json', s);
    Grow(old(a[..into]), s, json, json' - 1, json');
  }

  lemma Grow(p: Bytes, s: Bytes, i: nat, j: nat, k: nat)
    requires i <= j <= k <= |s|
    ensures (p + s[i..j]) + s[j..k] == p + s[i..k]
  {
    assert s[i..j] + s[j..k] == s[i..k];
    Assoc(p, s[i..j], s[j..k]);
  }

  /** One character of a string, with its backslash. */
  method CopyChar(a: array<Byte>, into: nat, json: nat, ghost s: Bytes) returns (into': nat, json': nat)
    requires Unread(a, s, json) && into <= json < |s| && a[json] == s[json] != QUOTE && QuoteAt(s[json..]).Some?
    modifies a
    ensures into' <= json' && json < json' <= |s| && QuoteAt(s[json'..]).Some?
    ensures json + QuoteAt(s[json..]).value == json' + QuoteAt(s[json'..]).value
    ensures Unread(a, s, json') && a[..into'] == old(a[..into]) + s[json..json'] && a[|s|..] == old(a[|s|..])
  {
    hide QuoteAt, NulFree, Unread;
    UnreadSize(a, s, json);
    QuoteStep(s, json);
    into', json' := into, json;
    if a[json'] == BACKSLASH {
      into', json' := MoveByte(a, into', json', s);
    }
    into', json' := MoveByte(a, into', json', s);
  }

  lemma UnreadSize(a: array<Byte>, s: Bytes, json: nat)
    requires Unread(a, s, json)
    ensures json <= |s| < a.Length && NulFree(s)
  {
  }

  method MoveByte(a: array<Byte>, into: nat, json: nat, ghost s: Bytes) returns (into': nat, json': nat)
    requires Unread(a, s, json) && into <= json < |s|
    modifies a
    ensures into' == into + 1 && json' == json + 1
    ensures Unread(a, s, json') && a[..into'] == old(a[..into]) + s[json..json'] && a[|s|..] == old(a[|s|..])
  {
    ReadByte(a, s, json);
    a[into] := a[json];
    into', json' := into + 1, json + 1;
  }

  /** One turn of the loop of `cJSON_Minify`: the text before `into` is minified, the rest is still to be read. */
  method MinifyNext(a: array<Byte>, into: nat, json: nat, ghost s: Bytes) returns (into': nat, json': nat)
    requires into <= json < |s| < a.Length && Unread(a, s, json) && a[json] != 0
    requires Minify(s) == Prefixed(a[..into], Minify(s[json..])) && Minify(s[json..]).Some?
    modifies a
    ensures into' <= json' <= |s| && json < json' && Unread(a, s, json') && a[|s|..] == old(a[|s|..])
    ensures Minify(s) == Prefixed(a[..into'], Minify(s[json'..])) && Minify(s[json'..]).Some?
  {
    hide Minify, QuoteAt, CommentEnd, LineComment, IsBlank, NulFree, Unread;
    into', json' := into, json;
    ghost var done := a[..into];
    MinifyAt(s, json);
    ReadByte(a, s, json);
    if IsBlank(a[json]) {
      json' := json + 1;
    } else if a[json] == SLASH && a[json + 1] == SLASH {
      json' := SkipLine(a, json, s);
    } else if a[json] == SLASH && a[json + 1] == STAR {
      json' := SkipComment(a, json, s);
    } else if a[json] == QUOTE {
      into', json' := CopyString(a, into, json, s);
      PrefixedTwice(done, s[json..json'], Minify(s[json'..]));
    } else {
      into', json' := MoveByte(a, into, json, s);
      PrefixedTwice(done, s[json..json'], Minify(s[json'..]));
    }
  }

  /** `cJSON_Minify` on the C string `s`; the write position never passes the read position. */
  method MinifyInPlace(a: array<Byte>, ghost s: Bytes) returns (into: nat)
    requires Unread(a, s, 0) && Minify(s).Some?
    modifies a
    ensures into <= |s| && Some(a[..into]) == Minify(s) && a[into] == 0 && a[|s| + 1..] == old(a[|s| + 1..])
  {
    hide Minify, QuoteAt, CommentEnd, LineComment, IsBlank, NulFree, Unread, Prefixed;
    var json := 0;
    into := 0;
    PrefixedNone(Minify(s));
    UnreadSize(a, s, 0);
    assert s[0..] == s && a[..0] == [];
    ReadByte(a, s, 0);
    while a[json] != 0
      invariant into <= json <= |s| < a.Length && Unread(a, s, json) && a[|s|..] == old(a[|s|..])
      invariant (a[json] == 0 <==> json == |s|)
      invariant Minify(s) == Prefixed(a[..into], Minify(s[json..])) && Minify(s[json..]).Some?
      decreases |s| - json
    {
      into, json := MinifyNext(a, into, json, s);
      ReadByte(a, s, json);
    }
    Finished(a[..into], s, json);
    ghost var tail := a[|s|..];
    a[into] := 0;
    assert a[|s| + 1..] == tail[1..];
  }

  lemma Finished(done: Bytes, s: Bytes, json: nat)
    requires json == |s| && Minify(s) == Prefixed(done, Minify(s[json..]))
    ensures Minify(s) == Some(done)
  {
    Empty(done);
  }
}
