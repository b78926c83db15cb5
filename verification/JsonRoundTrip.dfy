/**
 Parsing inverts printing for whole trees, formatted or not, up to the nesting limit and no
 further.
 */
module JsonRoundTrip {
  import opened Options
  import opened JsonText
  import opened JsonString
  import opened JsonParse

  predicate Blank(s: Bytes) {
    forall i :: 0 <= i < |s| ==> 0 < s[i] <= 32
  }

  lemma EndsNulKept(p: Bytes, s: Bytes)
    requires EndsNul(s)
    ensures EndsNul(p + s)
  {
  }

  /** Leading blanks are skipped. */
  lemma SkipLead(b: Bytes, s: Bytes)
    requires Blank(b) && |s| > 0 && s[0] > 32
    ensures Skip(b + s) == |b| && (b + s)[|b|..] == s
  {
    SkipBlank(b, s);
  }

  /** Blanks, a text `p`, blanks, the byte `c`, and the rest. */
  function Frame(b: Bytes, p: Bytes, w: Bytes, c: Byte, tail: Bytes): (r: Bytes)
    ensures |r| == |b| + |p| + |w| + 1 + |tail|
  {
    b + (p + (w + ([c] + tail)))
  }

  lemma FrameFacts(b: Bytes, p: Bytes, w: Bytes, c: Byte, tail: Bytes)
    requires Blank(b) && Blank(w) && |p| > 0 && p[0] > 32 && c > 32 && EndsNul(tail)
    ensures
      var s, q := Frame(b, p, w, c, tail), |b| + |p| + |w|;
      && EndsNul(s) && EndsNul(Frame([], p, w, c, tail))
      && Skip(s) == |b| && s[|b|..] == Frame([], p, w, c, tail)
      && Skip(s[|b| + |p|..]) == |w| && s[q] == c && s[q + 1..] == tail
  {
    hide Skip;
    var s3 := [c] + tail;
    var s2 := w + s3;
    var s1 := p + s2;
    SkipLead(b, s1);
    SkipLead(w, s3);
    Behind([c], tail);
    var s := Frame(b, p, w, c, tail);
    assert s[|b| + |p|..] == s2;
    assert s[|b| + |p| + |w|..] == s3;
    assert [] + s1 == s1;
  }

  /** A text `p` between blanks, in front of `c`: the element is what `p` parses to. */
  lemma ElementStep(lib: CLib, b: Bytes, p: Bytes, w: Bytes, c: Byte, tail: Bytes, k: nat)
    requires Blank(b) && Blank(w) && |p| > 0 && p[0] > 32 && c > 32 && EndsNul(tail)
    requires EndsNul(Frame([], p, w, c, tail))
    ensures
      var s, q := Frame(b, p, w, c, tail), |b| + |p| + |w|;
      && EndsNul(s) && s[q] == c && s[q + 1..] == tail
      && (ParseValue(lib, Frame([], p, w, c, tail), k).None? ==> ParseElement(lib, s, k).None?)
    ensures
      var s, q := Frame(b, p, w, c, tail), |b| + |p| + |w|;
      forall v :: ParseValue(lib, Frame([], p, w, c, tail), k) == Some((v, |p|)) ==>
        EndsNul(s) && ParseElement(lib, s, k) == Some((v, q))
  {
    hide ParseValue, Skip, Frame;
    FrameFacts(b, p, w, c, tail);
  }

  // ---------- Arrays ----------

  lemma ItemsFail(lib: CLib, s: Bytes, k: nat)
    requires EndsNul(s) && ParseElement(lib, s, k).None?
    ensures ParseItems(lib, s, k).None?
  {
  }

  /** An element, and the comma or bracket behind it. */
  lemma ItemsStep(lib: CLib, s: Bytes, k: nat, v: Json, q: nat)
    requires EndsNul(s) && ParseElement(lib, s, k) == Some((v, q))
    ensures q < |s|
    ensures s[q] == CLOSE_ARRAY ==> ParseItems(lib, s, k) == Some((Item(v, NoItem), q + 1))
    ensures s[q] == COMMA ==>
      EndsNul(s[q + 1..]) && ParseItems(lib, s, k) == Before(v, q + 1, ParseItems(lib, s[q + 1..], k))
    ensures s[q] != CLOSE_ARRAY && s[q] != COMMA ==> ParseItems(lib, s, k).None?
  {
    hide ParseElement;
  }

  // ---------- Objects ----------

  /** A name, the colon and the blanks around it. */
  lemma KeyBack(b: Bytes, key: Bytes, tail: Bytes)
    requires Blank(b) && EndsNul(tail)
    ensures EndsNul(Frame(b, Quoted(key), [], COLON, tail))
    ensures ParseKey(Frame(b, Quoted(key), [], COLON, tail)) == Some((key, |b| + |Quoted(key)| + 1))
    ensures Frame(b, Quoted(key), [], COLON, tail)[|b| + |Quoted(key)| + 1..] == tail
  {
    hide Skip, Frame, Quoted, ParseString;
    QuotedHead(key);
    FrameFacts(b, Quoted(key), [], COLON, tail);
    QuotedRoundTrip(key, [COLON] + tail);
    FrameShape(Quoted(key), COLON, tail);
  }

  lemma FrameShape(p: Bytes, c: Byte, tail: Bytes)
    ensures Frame([], p, [], c, tail) == p + ([c] + tail)
  {
    assert [] + ([c] + tail) == [c] + tail;
  }

  /** A member that does not parse. */
  lemma MembersFail(lib: CLib, s: Bytes, k: nat)
    requires EndsNul(s) && ParseKey(s).Some? && ParseElement(lib, s[ParseKey(s).value.1..], k).None?
    ensures ParseMembers(lib, s, k).None?
  {
  }

  /** A member, and the comma or brace behind it. */
  lemma MembersStep(lib: CLib, s: Bytes, k: nat, key: Bytes, a: nat, v: Json, q: nat)
    requires EndsNul(s) && ParseKey(s) == Some((key, a)) && ParseElement(lib, s[a..], k) == Some((v, q))
    ensures a + q < |s|
    ensures s[a + q] == CLOSE_OBJECT ==> ParseMembers(lib, s, k) == Some((Member(key, v, NoMember), a + q + 1))
    ensures s[a + q] == COMMA ==> EndsNul(s[a + q + 1..])
    ensures s[a + q] == COMMA ==>
      ParseMembers(lib, s, k) == BeforeMember(key, v, a + q + 1, ParseMembers(lib, s[a + q + 1..], k))
    ensures s[a + q] != CLOSE_OBJECT && s[a + q] != COMMA ==> ParseMembers(lib, s, k).None?
  {
    hide ParseElement, ParseKey, ParseMembers;
    MembersRest(s, a, q);
    if s[a + q] == CLOSE_OBJECT {
      MembersEnd(lib, s, k, key, a, v, q);
    } else if s[a + q] == COMMA {
      MembersMore(lib, s, k, key, a, v, q);
    } else {
      MembersBad(lib, s, k, key, a, v, q);
    }
  }

  lemma MembersRest(s: Bytes, a: nat, q: nat)
    requires EndsNul(s) && a < |s| && q < |s[a..]|
    ensures a + q < |s| && (s[a + q] != 0 ==> EndsNul(s[a + q + 1..]))
  {
  }

  lemma MembersEnd(lib: CLib, s: Bytes, k: nat, key: Bytes, a: nat, v: Json, q: nat)
    requires EndsNul(s) && ParseKey(s) == Some((key, a)) && ParseElement(lib, s[a..], k) == Some((v, q))
    requires a + q < |s| && s[a + q] == CLOSE_OBJECT
    ensures ParseMembers(lib, s, k) == Some((Member(key, v, NoMember), a + q + 1))
  {
    hide ParseElement, ParseKey;
  }

  lemma MembersMore(lib: CLib, s: Bytes, k: nat, key: Bytes, a: nat, v: Json, q: nat)
    requires EndsNul(s) && ParseKey(s) == Some((key, a)) && ParseElement(lib, s[a..], k) == Some((v, q))
    requires a + q < |s| && s[a + q] == COMMA && EndsNul(s[a + q + 1..])
    ensures ParseMembers(lib, s, k) == BeforeMember(key, v, a + q + 1, ParseMembers(lib, s[a + q + 1..], k))
  {
    hide ParseElement, ParseKey;
  }

  lemma MembersBad(lib: CLib, s: Bytes, k: nat, key: Bytes, a: nat, v: Json, q: nat)
    requires EndsNul(s) && ParseKey(s) == Some((key, a)) && ParseElement(lib, s[a..], k) == Some((v, q))
    requires a + q < |s| && s[a + q] != CLOSE_OBJECT && s[a + q] != COMMA
    ensures ParseMembers(lib, s, k).None?
  {
    hide ParseElement, ParseKey;
  }

  // ---------- The round trip ----------

  function Within<T>(ok: bool, t: T, n: nat): Option<(T, nat)> {
    if ok then Some((t, n)) else None
  }

  /** Any value in front of what may follow it. */
  lemma {:induction false} ValueBack(lib: CLib, t: Json, fmt: bool, d: nat, k: nat, rest: Bytes)
    requires Wf(lib, t) && Follows(rest) && k <= NESTING_LIMIT
    ensures EndsNul(Print(lib, t, fmt, d) + rest)
    ensures ParseValue(lib, Print(lib, t, fmt, d) + rest, k)
      == Within(k + Depth(t) <= NESTING_LIMIT, t, |Print(lib, t, fmt, d)|)
    decreases t, 0
  {
    match t
    case Array(items) => ArrayBack(lib, items, fmt, d, k, rest);
    case Object(members) => ObjectBack(lib, members, fmt, d, k, rest);
    case _ => ScalarBack(lib, t, fmt, d, k, rest);
  }

  /** A value between blanks and its delimiter. */
  lemma {:induction false} ElementBack(lib: CLib, t: Json, fmt: bool, d: nat, k: nat, b: Bytes, w: Bytes, c: Byte,
                                       tail: Bytes)
    requires Wf(lib, t) && k <= NESTING_LIMIT && Blank(b) && Blank(w) && EndsNul(tail)
    requires c == COMMA || c == CLOSE_ARRAY || c == CLOSE_OBJECT
    ensures
      var p := Print(lib, t, fmt, d);
      var s, q := Frame(b, p, w, c, tail), |b| + |p| + |w|;
      && EndsNul(s) && s[q] == c && s[q + 1..] == tail
      && ParseElement(lib, s, k) == Within(k + Depth(t) <= NESTING_LIMIT, t, q)
    decreases t, 1
  {
    hide Print, ParseValue, ParseElement, Skip, Depth, Wf, Frame, EndsNul;
    var p := Print(lib, t, fmt, d);
    PrintHead(lib, t, fmt, d);
    FollowsValue(w, c, tail);
    ValueBack(lib, t, fmt, d, k, w + ([c] + tail));
    FrameIs([], p, w, c, tail);
    Empty(p + (w + ([c] + tail)));
    ElementStep(lib, b, p, w, c, tail, k);
  }

  lemma FrameIs(b: Bytes, p: Bytes, w: Bytes, c: Byte, tail: Bytes)
    ensures Frame(b, p, w, c, tail) == b + (p + (w + ([c] + tail)))
  {
  }

  lemma FollowsValue(w: Bytes, c: Byte, tail: Bytes)
    requires Blank(w) && EndsNul(tail) && (c == COMMA || c == CLOSE_ARRAY || c == CLOSE_OBJECT)
    ensures Follows(w + ([c] + tail))
  {
    EndsNulKept([c], tail);
    EndsNulKept(w, [c] + tail);
  }

  lemma ValueOfArray(lib: CLib, t: Bytes, k: nat)
    requires EndsNul(t)
    ensures EndsNul([OPEN_ARRAY] + t) && ParseValue(lib, [OPEN_ARRAY] + t, k) == ParseArray(lib, [OPEN_ARRAY] + t, k)
  {
    hide ParseArray, ParseObject, ParseString, ParseNumber;
    EndsNulKept([OPEN_ARRAY], t);
    WordsDiffer([OPEN_ARRAY] + t);
  }

  lemma ValueOfObject(lib: CLib, t: Bytes, k: nat)
    requires EndsNul(t)
    ensures EndsNul([OPEN_OBJECT] + t)
    ensures ParseValue(lib, [OPEN_OBJECT] + t, k) == ParseObject(lib, [OPEN_OBJECT] + t, k)
  {
    hide ParseArray, ParseObject, ParseString, ParseNumber;
    EndsNulKept([OPEN_OBJECT], t);
    WordsDiffer([OPEN_OBJECT] + t);
  }

  /** Behind the opening bracket: blanks and the closing one, or blanks and the elements. */
  lemma ArrayStep(lib: CLib, b: Bytes, t: Bytes, k: nat)
    requires EndsNul(t) && t[0] > 32 && Blank(b) && EndsNul([OPEN_ARRAY] + (b + t))
    ensures k >= NESTING_LIMIT ==> ParseArray(lib, [OPEN_ARRAY] + (b + t), k).None?
    ensures k < NESTING_LIMIT && t[0] == CLOSE_ARRAY ==>
      ParseArray(lib, [OPEN_ARRAY] + (b + t), k) == Some((Array(NoItem), |b| + 2))
    ensures k < NESTING_LIMIT && t[0] != CLOSE_ARRAY && ParseItems(lib, t, k + 1).None? ==>
      ParseArray(lib, [OPEN_ARRAY] + (b + t), k).None?
    ensures k < NESTING_LIMIT && t[0] != CLOSE_ARRAY && ParseItems(lib, t, k + 1).Some? ==>
      var (l, n) := ParseItems(lib, t, k + 1).value;
      ParseArray(lib, [OPEN_ARRAY] + (b + t), k) == Some((Array(l), 1 + |b| + n))
  {
    hide ParseItems, Skip;
    Behind([OPEN_ARRAY], b + t);
    SkipLead(b, t);
    var s := [OPEN_ARRAY] + (b + t);
    assert s[1 + |b|..] == s[1..][|b|..];
    assert s[1 + |b|] == t[0];
  }

  lemma ObjectStep(lib: CLib, b: Bytes, t: Bytes, k: nat)
    requires EndsNul(t) && t[0] > 32 && Blank(b) && EndsNul([OPEN_OBJECT] + (b + t))
    ensures k >= NESTING_LIMIT ==> ParseObject(lib, [OPEN_OBJECT] + (b + t), k).None?
    ensures k < NESTING_LIMIT && t[0] == CLOSE_OBJECT ==>
      ParseObject(lib, [OPEN_OBJECT] + (b + t), k) == Some((Object(NoMember), |b| + 2))
    ensures k < NESTING_LIMIT && t[0] != CLOSE_OBJECT && ParseMembers(lib, t, k + 1).None? ==>
      ParseObject(lib, [OPEN_OBJECT] + (b + t), k).None?
    ensures k < NESTING_LIMIT && t[0] != CLOSE_OBJECT && ParseMembers(lib, t, k + 1).Some? ==>
      var (l, n) := ParseMembers(lib, t, k + 1).value;
      ParseObject(lib, [OPEN_OBJECT] + (b + t), k) == Some((Object(l), 1 + |b| + n))
  {
    hide ParseMembers, Skip;
    Behind([OPEN_OBJECT], b + t);
    SkipLead(b, t);
    var s := [OPEN_OBJECT] + (b + t);
    assert s[1 + |b|..] == s[1..][|b|..];
    assert s[1 + |b|] == t[0];
  }

  lemma {:induction false} ArrayBack(lib: CLib, l: Items, fmt: bool, d: nat, k: nat, rest: Bytes)
    requires WfItems(lib, l) && EndsNul(rest) && k <= NESTING_LIMIT
    ensures
      var t := Array(l);
      var s := Print(lib, t, fmt, d) + rest;
      && EndsNul(s)
      && ParseValue(lib, s, k) == Within(k + Depth(t) <= NESTING_LIMIT, t, |Print(lib, t, fmt, d)|)
    decreases l, 3
  {
    hide ParseItems, ParseValue, ParseArray, Skip, EndsNul, PrintItems;
    var t := PrintItems(lib, l, fmt, d + 1) + ([CLOSE_ARRAY] + rest);
    ArrayText(lib, l, fmt, d, rest);
    ArrayHead(lib, l, fmt, d, rest);
    ValueOfArray(lib, t, k);
    Empty(t);
    ArrayStep(lib, [], t, k);
    if l.Item? && k < NESTING_LIMIT {
      ItemsBack(lib, l, fmt, d + 1, k + 1, [], rest);
    }
  }

  lemma ArrayText(lib: CLib, l: Items, fmt: bool, d: nat, rest: Bytes)
    ensures Print(lib, Array(l), fmt, d) + rest
      == [OPEN_ARRAY] + (PrintItems(lib, l, fmt, d + 1) + ([CLOSE_ARRAY] + rest))
    ensures |Print(lib, Array(l), fmt, d)| == |PrintItems(lib, l, fmt, d + 1)| + 2
  {
    hide PrintItems;
    var p := PrintItems(lib, l, fmt, d + 1);
    Assoc([OPEN_ARRAY], p + [CLOSE_ARRAY], rest);
    Assoc(p, [CLOSE_ARRAY], rest);
  }

  lemma ArrayHead(lib: CLib, l: Items, fmt: bool, d: nat, rest: Bytes)
    requires WfItems(lib, l) && EndsNul(rest)
    ensures
      var t := PrintItems(lib, l, fmt, d + 1) + ([CLOSE_ARRAY] + rest);
      EndsNul(t) && t[0] > 32 && (t[0] == CLOSE_ARRAY <==> l.NoItem?)
    ensures l.NoItem? ==> |PrintItems(lib, l, fmt, d + 1)| == 0
  {
    hide Print;
    EndsNulKept([CLOSE_ARRAY], rest);
    EndsNulKept(PrintItems(lib, l, fmt, d + 1), [CLOSE_ARRAY] + rest);
    if l.Item? {
      PrintHead(lib, l.value, fmt, d + 1);
    }
  }

  lemma {:induction false} ItemsBack(lib: CLib, l: Items, fmt: bool, d: nat, k: nat, b: Bytes, rest: Bytes)
    requires WfItems(lib, l) && l.Item? && EndsNul(rest) && k <= NESTING_LIMIT && Blank(b)
    ensures
      var s := b + (PrintItems(lib, l, fmt, d) + ([CLOSE_ARRAY] + rest));
      && EndsNul(s)
      && ParseItems(lib, s, k) == Within(k + ItemsDepth(l) <= NESTING_LIMIT, l, |b| + |PrintItems(lib, l, fmt, d)| + 1)
    decreases l, 2
  {
    hide ParseItems, ParseElement, Print, PrintItems, Depth, Wf, EndsNul, Frame;
    var p := Print(lib, l.value, fmt, d);
    var s := b + (PrintItems(lib, l, fmt, d) + ([CLOSE_ARRAY] + rest));
    ItemsText(lib, l, fmt, d, b, rest);
    if l.next.NoItem? {
      ElementBack(lib, l.value, fmt, d, k, b, [], CLOSE_ARRAY, rest);
    } else {
      ItemsBack(lib, l.next, fmt, d, k, AfterComma(fmt), rest);
      ElementBack(lib, l.value, fmt, d, k, b, [], COMMA, NextItem(lib, l.next, fmt, d, rest));
    }
    if k + Depth(l.value) <= NESTING_LIMIT {
      ItemsStep(lib, s, k, l.value, |b| + |p|);
    } else {
      ItemsFail(lib, s, k);
    }
  }

  /** What stands behind a comma of an array. */
  function NextItem(lib: CLib, l: Items, fmt: bool, d: nat, rest: Bytes): Bytes {
    AfterComma(fmt) + (PrintItems(lib, l, fmt, d) + ([CLOSE_ARRAY] + rest))
  }

  lemma ItemsText(lib: CLib, l: Items, fmt: bool, d: nat, b: Bytes, rest: Bytes)
    requires l.Item?
    ensures
      var p := Print(lib, l.value, fmt, d);
      b + (PrintItems(lib, l, fmt, d) + ([CLOSE_ARRAY] + rest)) ==
      if l.next.NoItem? then Frame(b, p, [], CLOSE_ARRAY, rest)
        else Frame(b, p, [], COMMA, NextItem(lib, l.next, fmt, d, rest))
    ensures |PrintItems(lib, l, fmt, d)| ==
      |Print(lib, l.value, fmt, d)|
        + if l.next.NoItem? then 0 else 1 + |AfterComma(fmt)| + |PrintItems(lib, l.next, fmt, d)|
  {
    hide Print, AfterComma;
    var p, e, g := Print(lib, l.value, fmt, d), [CLOSE_ARRAY] + rest, AfterComma(fmt);
    var n := PrintNextItem(lib, l.next, fmt, d);
    Assoc(p, n, e);
    if l.next.NoItem? {
      Empty(p);
    } else {
      var z := PrintItems(lib, l.next, fmt, d);
      Assoc([COMMA], g + z, e);
      Assoc(g, z, e);
      Empty(n + e);
    }
  }

  // ---------- Members ----------

  /** What stands behind a comma of an object, `z` being the tabs before the closing brace. */
  function NextMember(lib: CLib, l: Members, fmt: bool, d: nat, z: Bytes, rest: Bytes): Bytes
    requires l.Member?
  {
    (LineEnd(fmt) + Lead(fmt, d)) + (PrintMember(lib, l, fmt, d) + (z + ([CLOSE_OBJECT] + rest)))
  }

  /** What stands behind the colon of the first member of `l`. */
  function BehindColon(lib: CLib, l: Members, fmt: bool, d: nat, z: Bytes, rest: Bytes): Bytes
    requires l.Member?
  {
    var p := Print(lib, l.value, fmt, d);
    if l.next.NoMember? then Frame(AfterColon(fmt), p, LineEnd(fmt) + z, CLOSE_OBJECT, rest)
    else Frame(AfterColon(fmt), p, [], COMMA, NextMember(lib, l.next, fmt, d, z, rest))
  }

  lemma MemberText(lib: CLib, l: Members, fmt: bool, d: nat, b: Bytes, z: Bytes, rest: Bytes)
    requires l.Member?
    ensures
      b + (PrintMember(lib, l, fmt, d) + (z + ([CLOSE_OBJECT] + rest))) ==
      Frame(b, Quoted(l.key), [], COLON, BehindColon(lib, l, fmt, d, z, rest))
  {
    hide Print, Quoted, AfterColon, PrintNextMember, BehindColon;
    var e := z + ([CLOSE_OBJECT] + rest);
    var q, g, p, n := Quoted(l.key), AfterColon(fmt), Print(lib, l.value, fmt, d), PrintNextMember(lib, l.next, fmt, d);
    Assoc(q, [COLON] + (g + (p + n)), e);
    Assoc([COLON], g + (p + n), e);
    Assoc(g, p + n, e);
    Assoc(p, n, e);
    Empty([COLON] + (g + (p + (n + e))));
    NextMemberText(lib, l, fmt, d, z, rest);
  }

  lemma NextMemberText(lib: CLib, l: Members, fmt: bool, d: nat, z: Bytes, rest: Bytes)
    requires l.Member?
    ensures
      BehindColon(lib, l, fmt, d, z, rest) ==
      AfterColon(fmt) + (Print(lib, l.value, fmt, d)
        + (PrintNextMember(lib, l.next, fmt, d) + (z + ([CLOSE_OBJECT] + rest))))
  {
    hide Print, AfterColon, LineEnd, Lead, PrintMember;
    var c := [CLOSE_OBJECT] + rest;
    var e := z + c;
    if l.next.NoMember? {
      Assoc(LineEnd(fmt), z, c);
    } else {
      var m := PrintMember(lib, l.next, fmt, d);
      var ln, ld := LineEnd(fmt), Lead(fmt, d);
      Assoc([COMMA], ln + (ld + m), e);
      Assoc(ln, ld + m, e);
      Assoc(ld, m, e);
      Assoc(ln, ld, m + e);
      Empty([COMMA] + ((ln + ld) + (m + e)));
    }
  }

  lemma BlankParts(fmt: bool, d: nat)
    ensures Blank(LineEnd(fmt)) && Blank(Lead(fmt, d)) && Blank(AfterColon(fmt)) && Blank(AfterComma(fmt)) && Blank([])
  {
  }

  lemma BlankJoin(a: Bytes, b: Bytes)
    requires Blank(a) && Blank(b)
    ensures Blank(a + b)
  {
  }

  lemma {:induction false} MembersBack(lib: CLib, l: Members, fmt: bool, d: nat, k: nat, b: Bytes, z: Bytes,
                                       rest: Bytes)
    requires WfMembers(lib, l) && l.Member? && EndsNul(rest) && k <= NESTING_LIMIT && Blank(b) && Blank(z)
    ensures
      var s := b + (PrintMember(lib, l, fmt, d) + (z + ([CLOSE_OBJECT] + rest)));
      EndsNul(s) && ParseMembers(lib, s, k) == Within(k + MembersDepth(l) <= NESTING_LIMIT, l, |s| - |rest|)
    decreases l, 3
  {
    hide ParseMembers, ParseElement, ParseKey, Print, Depth, Wf, PrintMember, Quoted, BehindColon, Frame, EndsNul,
      MembersDepth;
    var s := b + (PrintMember(lib, l, fmt, d) + (z + ([CLOSE_OBJECT] + rest)));
    var u, a, q := BehindColon(lib, l, fmt, d, z, rest), |b| + |Quoted(l.key)| + 1, ValueEnd(lib, l, fmt, d, z);
    MemberText(lib, l, fmt, d, b, z, rest);
    ValueOfMember(lib, l, fmt, d, k, z, rest);
    KeyBack(b, l.key, u);
    MembersDepthIs(l);
    if k + Depth(l.value) <= NESTING_LIMIT {
      MembersStep(lib, s, k, l.key, a, l.value, q);
      assert s[a + q] == u[q] && s[a + q + 1..] == u[q + 1..];
    } else {
      MembersFail(lib, s, k);
    }
  }

  /** Where the delimiter of the first member's value stands behind its colon. */
  function ValueEnd(lib: CLib, l: Members, fmt: bool, d: nat, z: Bytes): nat
    requires l.Member?
  {
    |AfterColon(fmt)| + |Print(lib, l.value, fmt, d)| + if l.next.NoMember? then |LineEnd(fmt) + z| else 0
  }

  lemma MembersDepthIs(l: Members)
    requires l.Member?
    ensures MembersDepth(l) == Max(Depth(l.value), MembersDepth(l.next))
    ensures l.next.NoMember? ==> MembersDepth(l) == Depth(l.value)
  {
    hide Depth;
  }

  /** The value of the first member, its delimiter, and what the members behind it parse to. */
  lemma {:induction false} ValueOfMember(lib: CLib, l: Members, fmt: bool, d: nat, k: nat, z: Bytes, rest: Bytes)
    requires WfMembers(lib, l) && l.Member? && EndsNul(rest) && k <= NESTING_LIMIT && Blank(z)
    ensures
      var u, q := BehindColon(lib, l, fmt, d, z, rest), ValueEnd(lib, l, fmt, d, z);
      && EndsNul(u) && q < |u| && ParseElement(lib, u, k) == Within(k + Depth(l.value) <= NESTING_LIMIT, l.value, q)
      && (l.next.NoMember? ==> u[q] == CLOSE_OBJECT && |u| == q + 1 + |rest|)
      && (l.next.Member? ==> u[q] == COMMA && EndsNul(u[q + 1..]))
      && (l.next.Member? ==>
        ParseMembers(lib, u[q + 1..], k)
          == Within(k + MembersDepth(l.next) <= NESTING_LIMIT, l.next, |u| - q - 1 - |rest|))
    decreases l, 2
  {
    hide ParseMembers, ParseElement, Print, Depth, Wf, PrintMember, Frame, EndsNul, MembersDepth, Blank, LineEnd,
      AfterColon, Lead;
    BlankParts(fmt, d);
    if l.next.NoMember? {
      BlankJoin(LineEnd(fmt), z);
      ElementBack(lib, l.value, fmt, d, k, AfterColon(fmt), LineEnd(fmt) + z, CLOSE_OBJECT, rest);
    } else {
      BlankJoin(LineEnd(fmt), Lead(fmt, d));
      MembersBack(lib, l.next, fmt, d, k, LineEnd(fmt) + Lead(fmt, d), z, rest);
      ElementBack(lib, l.value, fmt, d, k, AfterColon(fmt), [], COMMA, NextMember(lib, l.next, fmt, d, z, rest));
    }
  }

  lemma {:induction false} ObjectBack(lib: CLib, l: Members, fmt: bool, d: nat, k: nat, rest: Bytes)
    requires WfMembers(lib, l) && EndsNul(rest) && k <= NESTING_LIMIT
    ensures
      var t := Object(l);
      var s := Print(lib, t, fmt, d) + rest;
      && EndsNul(s)
      && ParseValue(lib, s, k) == Within(k + Depth(t) <= NESTING_LIMIT, t, |Print(lib, t, fmt, d)|)
    decreases l, 4
  {
    hide ParseMembers, ParseValue, ParseObject, Skip, EndsNul, Print, Blank, PrintMember, LineEnd, Lead;
    ObjectText(lib, l, fmt, d, rest);
    var (b, t) := ObjectParts(lib, l, fmt, d, rest);
    ObjectHead(lib, l, fmt, d, rest);
    ValueOfObject(lib, b + t, k);
    ObjectStep(lib, b, t, k);
    if l.Member? && k < NESTING_LIMIT {
      BlankParts(fmt, d);
      MembersBack(lib, l, fmt, d + 1, k + 1, [], Lead(fmt, d), rest);
      Empty(t);
    }
  }

  /** Behind the opening brace: blanks, and the first name or the closing brace. */
  function ObjectParts(lib: CLib, l: Members, fmt: bool, d: nat, rest: Bytes): (Bytes, Bytes) {
    if l.NoMember? then (LineEnd(fmt) + Lead(fmt, d), [CLOSE_OBJECT] + rest)
    else (LineEnd(fmt) + Lead(fmt, d + 1), PrintMember(lib, l, fmt, d + 1) + (Lead(fmt, d) + ([CLOSE_OBJECT] + rest)))
  }

  lemma ObjectText(lib: CLib, l: Members, fmt: bool, d: nat, rest: Bytes)
    ensures
      var (b, t) := ObjectParts(lib, l, fmt, d, rest);
      Print(lib, Object(l), fmt, d) + rest == [OPEN_OBJECT] + (b + t)
    ensures l.NoMember? ==> |Print(lib, Object(l), fmt, d)| == |LineEnd(fmt)| + |Lead(fmt, d)| + 2
  {
    hide PrintMember, LineEnd, Lead;
    var ln, ld, m := LineEnd(fmt), Lead(fmt, d), PrintMembers(lib, l, fmt, d + 1);
    Assoc([OPEN_OBJECT], ln + (m + (ld + [CLOSE_OBJECT])), rest);
    Assoc(ln, m + (ld + [CLOSE_OBJECT]), rest);
    Assoc(m, ld + [CLOSE_OBJECT], rest);
    Assoc(ld, [CLOSE_OBJECT], rest);
    var e := ld + ([CLOSE_OBJECT] + rest);
    if l.NoMember? {
      Empty(e);
      Assoc(ln, ld, [CLOSE_OBJECT] + rest);
    } else {
      var x := PrintMember(lib, l, fmt, d + 1);
      Assoc(Lead(fmt, d + 1), x, e);
      Assoc(ln, Lead(fmt, d + 1), x + e);
    }
  }

  lemma ObjectHead(lib: CLib, l: Members, fmt: bool, d: nat, rest: Bytes)
    requires EndsNul(rest)
    ensures
      var (b, t) := ObjectParts(lib, l, fmt, d, rest);
      && Blank(b) && EndsNul(t) && t[0] > 32 && (t[0] == CLOSE_OBJECT <==> l.NoMember?) && EndsNul(b + t)
  {
    hide Print, LineEnd, Lead, Quoted;
    BlankParts(fmt, d);
    BlankParts(fmt, d + 1);
    EndsNulKept([CLOSE_OBJECT], rest);
    if l.Member? {
      QuotedHead(l.key);
      EndsNulKept(Lead(fmt, d), [CLOSE_OBJECT] + rest);
      EndsNulKept(PrintMember(lib, l, fmt, d + 1), Lead(fmt, d) + ([CLOSE_OBJECT] + rest));
    }
    var (b, t) := ObjectParts(lib, l, fmt, d, rest);
    EndsNulKept(b, t);
  }

  /**
   Parsing a printed tree: the same tree, with the end of parsing at the end of the text, exactly
   when it is nested at most 1000 deep; deeper trees print but do not parse.
   */
  lemma RoundTrip(lib: CLib, t: Json, fmt: bool, requireEnd: bool)
    requires Wf(lib, t)
    ensures
      var text := Print(lib, t, fmt, 0);
      Parse(lib, text, requireEnd) == if Depth(t) <= NESTING_LIMIT then Some((t, |text|)) else None
  {
    hide Print, ParseValue, Depth, Wf;
    var text := Print(lib, t, fmt, 0);
    PrintHead(lib, t, fmt, 0);
    NoBom(lib, t, fmt);
    var s := text + [0];
    SkipNone(s);
    assert s[0..] == s;
    ValueBack(lib, t, fmt, 0, 0, [0]);
    Behind(text, [0]);
  }

  lemma NoBom(lib: CLib, t: Json, fmt: bool)
    requires Wf(lib, t)
    ensures |Print(lib, t, fmt, 0)| > 0 && Print(lib, t, fmt, 0)[0] != 0xEF
  {
    hide Escape, PrintItems, PrintMembers, StrTod, Decimal;
  }
}
