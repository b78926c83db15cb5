/** The parser accepts every text of the grammar, with the tree that the text stands for. */
module JsonAccepts {
  import opened Options
  import opened JsonText
  import opened JsonString
  import opened JsonParse
  import opened JsonRoundTrip
  import opened JsonGrammar

  /** The characters of the grammar are the bytes of the source. */
  lemma Marks()
    ensures Ascii("[") == [OPEN_ARRAY] && Ascii("]") == [CLOSE_ARRAY] && Ascii("{") == [OPEN_OBJECT]
    ensures Ascii("}") == [CLOSE_OBJECT] && Ascii(",") == [COMMA] && Ascii(":") == [COLON] && Ascii("\"") == [QUOTE]
    ensures Ascii("null") == NULL_TEXT && Ascii("false") == FALSE_TEXT && Ascii("true") == TRUE_TEXT
    ensures Ascii("\\u") == [BACKSLASH, 117] && Ascii("-") == [MINUS]
  {
  }

  // ---------- Strings ----------

  lemma HexDigitIs(b: Byte, v: nat)
    requires HexIs(b, v)
    ensures HexValue(b) == Some(v)
  {
    assert "0123456789abcdef"[v] as int == if v < 10 then 48 + v else 87 + v;
    assert "0123456789ABCDEF"[v] as int == if v < 10 then 48 + v else 55 + v;
  }

  lemma HexParts(h: Bytes, n: nat) returns (a: nat, b: nat, c: nat, d: nat)
    requires HexNumber(h, n)
    ensures |h| == 4 && HexIs(h[0], a) && HexIs(h[1], b) && HexIs(h[2], c) && HexIs(h[3], d)
    ensures n == a * 4096 + b * 256 + c * 16 + d
  {
    hide HexIs;
    a, b, c, d :|
      HexIs(h[0], a) && HexIs(h[1], b) && HexIs(h[2], c) && HexIs(h[3], d) && n == a * 4096 + b * 256 + c * 16 + d;
  }

  lemma HexNumberIs(h: Bytes, n: nat)
    requires HexNumber(h, n)
    ensures IsHex4(h) && Hex4(h) == n
  {
    hide HexNumber, HexIs, HexValue;
    var a, b, c, d := HexParts(h, n);
    HexDigitIs(h[0], a);
    HexDigitIs(h[1], b);
    HexDigitIs(h[2], c);
    HexDigitIs(h[3], d);
  }

  /** A scalar value has one encoding. */
  lemma EncodingIs(m: Bytes, cp: nat)
    requires EncodesOne(m, cp)
    ensures IsScalar(cp) && m == Utf8(cp)
  {
    if |m| == 2 {
      TwoBytes(m, cp);
    } else if |m| == 3 {
      ThreeBytes(m, cp);
    } else if |m| == 4 {
      FourBytes(m, cp);
    }
  }

  lemma TwoBytes(m: Bytes, cp: nat)
    requires |m| == 2 && EncodesOne(m, cp)
    ensures IsScalar(cp) && m == Utf8(cp)
  {
    var a: int, b: int := m[0] - 0xC0, m[1] - 0x80;
    assert cp == a * 64 + b && cp / 64 == a && cp % 64 == b;
  }

  lemma ThreeBytes(m: Bytes, cp: nat)
    requires |m| == 3 && EncodesOne(m, cp)
    ensures IsScalar(cp) && m == Utf8(cp)
  {
    var a: int, b: int, c: int := m[0] - 0xE0, m[1] - 0x80, m[2] - 0x80;
    assert cp == a * 4096 + b * 64 + c;
    assert cp / 64 == a * 64 + b && cp % 64 == c;
    assert cp / 4096 == a && cp / 64 % 64 == b;
  }

  lemma FourBytes(m: Bytes, cp: nat)
    requires |m| == 4 && EncodesOne(m, cp)
    ensures IsScalar(cp) && m == Utf8(cp)
  {
    var a: int, b: int, c: int, d: int := m[0] - 0xF0, m[1] - 0x80, m[2] - 0x80, m[3] - 0x80;
    assert cp == a * 262144 + b * 4096 + c * 64 + d;
    assert cp / 64 == a * 4096 + b * 64 + c && cp % 64 == d;
    assert cp / 4096 == a * 64 + b && cp / 64 % 64 == c;
    assert cp / 262144 == a && cp / 4096 % 64 == b;
  }

  /** The examples of section 7 of RFC 3629. */
  lemma Utf8Samples()
    ensures Utf8(0x41) == [0x41] && Utf8(0x2262) == [0xE2, 0x89, 0xA2] && Utf8(0x391) == [0xCE, 0x91]
    ensures Utf8(0xD55C) == [0xED, 0x95, 0x9C] && Utf8(0x65E5) == [0xE6, 0x97, 0xA5]
    ensures Utf8(0x2_33B4) == [0xF0, 0xA3, 0x8E, 0xB4] && Utf8(0xFEFF) == [0xEF, 0xBB, 0xBF]
  {
  }

  /** A character of the grammar is a piece that both scans of the source step over. */
  lemma CharPiece(rule: Rule, p: Bytes, m: Bytes) returns (q: Piece)
    requires !rule.Lax?
    requires CharIs(rule, p, m)
    ensures q.Valid() && q.Spell() == p && q.Denote() == m
  {
    hide Hex4, Utf8, IsHex4, HexNumber, EncodesOne, Combine;
    Marks();
    if UnitIs(p, m) {
      q := UnitPiece(p, m);
    } else if PairIs(p, m) {
      q := PairPiece(p, m);
    } else if |p| == 1 {
      q := Raw(p[0]);
    } else {
      q := Short(p[1]);
    }
  }

  lemma UnitPiece(p: Bytes, m: Bytes) returns (q: Piece)
    requires UnitIs(p, m)
    ensures q.Valid() && q.Spell() == p && q.Denote() == m
  {
    hide Hex4, Utf8, IsHex4, HexNumber, EncodesOne;
    Marks();
    var h: Bytes, n: nat :| HexNumber(h, n) && p == Ascii("\\u") + h && EncodesOne(m, n);
    HexNumberIs(h, n);
    EncodingIs(m, n);
    q := Unit(h);
  }

  lemma PairPiece(p: Bytes, m: Bytes) returns (q: Piece)
    requires PairIs(p, m)
    ensures q.Valid() && q.Spell() == p && q.Denote() == m
  {
    hide Hex4, Utf8, IsHex4, HexNumber, EncodesOne;
    Marks();
    var h: Bytes, l: Bytes, a: nat, b: nat :|
      && HexNumber(h, a) && HexNumber(l, b) && 0xD800 <= a <= 0xDBFF && 0xDC00 <= b <= 0xDFFF
      && p == Ascii("\\u") + h + Ascii("\\u") + l && EncodesOne(m, 0x1_0000 + (a - 0xD800) * 0x400 + (b - 0xDC00));
    HexNumberIs(h, a);
    HexNumberIs(l, b);
    EncodingIs(m, 0x1_0000 + (a - 0xD800) * 0x400 + (b - 0xDC00));
    q := Pair(h, l);
  }

  lemma {:induction false} CharPieces(rule: Rule, cs: seq<Spelt>) returns (ps: seq<Piece>)
    requires !rule.Lax?
    requires AllSpelt(rule, cs)
    ensures AllValid(ps) && Spelling(ps) == Literal(cs) && Meaning(ps) == Memory(cs)
  {
    hide CharIs, Piece.Valid, Piece.Spell, Piece.Denote;
    if cs == [] {
      ps := [];
    } else {
      assert forall i :: 0 <= i < |cs[1..]| ==> cs[1..][i] == cs[i + 1];
      var q := CharPiece(rule, cs[0].p, cs[0].m);
      var tail := CharPieces(rule, cs[1..]);
      ps := [q] + tail;
      assert ps[1..] == tail;
    }
  }

  /** `parse_string` on a string of the grammar. */
  lemma StringAccepted(rule: Rule, s: Bytes, v: Bytes, rest: Bytes)
    requires !rule.Lax?
    requires StringOf(rule, s, v)
    ensures ParseString(s + rest) == Some((v, |s|)) && |s| >= 2 && s[0] == QUOTE
  {
    hide CharsOf, ParseString, Spelling, Meaning, AllSpelt, Literal, Memory;
    Marks();
    var c :| s == Ascii("\"") + (c + Ascii("\"")) && CharsOf(rule, c, v);
    var ps := CharsPieces(rule, c, v);
    LiteralDecodes(ps, rest);
    assert s + rest == [QUOTE] + Spelling(ps) + [QUOTE] + rest;
  }

  lemma CharsPieces(rule: Rule, c: Bytes, v: Bytes) returns (ps: seq<Piece>)
    requires !rule.Lax?
    requires CharsOf(rule, c, v)
    ensures AllValid(ps) && Spelling(ps) == c && Meaning(ps) == v
  {
    hide AllSpelt, Literal, Memory, Spelling, Meaning, Piece.Valid;
    var cs :| AllSpelt(rule, cs) && c == Literal(cs) && v == Memory(cs);
    ps := CharPieces(rule, cs);
  }

  // ---------- Numbers ----------

  lemma DigitChars(s: Bytes)
    requires AllDigits(s)
    ensures forall i :: 0 <= i < |s| ==> IsDigit(s[i])
  {
  }

  lemma {:induction false} Value10Last(s: Bytes)
    requires s != []
    ensures Value10(s) == Value10(s[..|s| - 1]) * 10 + (s[|s| - 1] as int - '0' as int)
  {
    if |s| == 1 {
      assert s[1..] == [] && s[..0] == [];
    } else {
      var p := s[..|s| - 1];
      Value10Last(s[1..]);
      assert s[1..][..|s| - 2] == p[1..];
      assert Pow10(|s| - 1) == 10 * Pow10(|s| - 2);
      var d := s[0] as int - '0' as int;
      assert d * (10 * Pow10(|s| - 2)) == 10 * (d * Pow10(|s| - 2));
    }
  }

  lemma {:induction false} Value10Is(s: Bytes)
    ensures Value10(s) == DigitsValue(s)
  {
    if s != [] {
      Value10Is(s[..|s| - 1]);
      Value10Last(s);
    }
  }

  lemma DigitsAre(s: Bytes)
    ensures AllDigits(s) <==> |s| > 0 && forall i :: 0 <= i < |s| ==> IsDigit(s[i])
  {
    assert forall i :: 0 <= i < |s| ==> (s[i] as char in "0123456789" <==> IsDigit(s[i]));
  }

  lemma LiteralIs(s: Bytes)
    requires |s| > 0
    ensures IntLiteral(s) <==>
      if s[0] == MINUS then AllDigits(s[1..]) && |s| <= 16 else AllDigits(s) && |s| <= 15
  {
    hide AllDigits;
    DigitsAre(s);
    DigitsAre(s[1..]);
  }

  lemma ReadsIs(lib: CLib, s: Bytes, x: real, n: nat)
    requires Reads(lib, s, x, n) && 0 < n <= |s|
    ensures StrTod(lib, s) == (x, n)
  {
    hide AllDigits, DigitsValue, Value10, IntLiteral;
    DigitsAre(s);
    LiteralIs(s);
    Value10Is(s);
    if s[0] == MINUS {
      Value10Is(s[1..]);
    }
  }

  lemma SaturatedIs(i: int, x: real)
    requires IntBeside(i, x)
    ensures i == Saturated(x)
  {
  }

  lemma NumberJoin(a: Bytes, b: Bytes)
    requires AllNumberBytes(a) && AllNumberBytes(b)
    ensures AllNumberBytes(a + b)
  {
  }

  lemma FracNumber(f: Bytes)
    requires FracPart(f)
    ensures AllNumberBytes(f)
  {
    if f != [] {
      DigitsNumber(f[1..]);
      assert f == [f[0]] + f[1..];
    }
  }

  lemma MinusNumber()
    ensures AllNumberBytes([MINUS]) && Ascii("-") == [MINUS]
  {
  }

  lemma NumberShape(s: Bytes)
    requires RfcNumber(s)
    ensures AllNumberBytes(s) && |s| > 0 && (s[0] == MINUS || IsDigit(s[0]))
  {
    var i, f, e :|
      IntPart(i) && FracPart(f) && ExpPart(e) && (s == i + (f + e) || s == Ascii("-") + (i + (f + e)));
    MinusNumber();
    DigitsNumber(i);
    FracNumber(f);
    ExpNumber(e);
    hide AllNumberBytes, AllDigits, FracPart, ExpPart, Ascii, RfcNumber;
    NumberJoin(f, e);
    NumberJoin(i, f + e);
    NumberJoin([MINUS], i + (f + e));
  }

  lemma DigitsNumber(s: Bytes)
    requires AllDigits(s)
    ensures AllNumberBytes(s) && IsDigit(s[0])
  {
    DigitChars(s);
  }

  lemma ExpNumber(e: Bytes)
    requires ExpPart(e)
    ensures AllNumberBytes(e)
  {
    if e != [] {
      if AllDigits(e[1..]) {
        DigitsNumber(e[1..]);
        assert e == [e[0]] + e[1..];
      } else {
        DigitsNumber(e[2..]);
        assert e == [e[0], e[1]] + e[2..];
      }
    }
  }

  lemma NumberAccepted(lib: CLib, rule: Rule, s: Bytes, i: int, x: real, k: nat, rest: Bytes)
    requires !rule.Lax?
    requires NumberOf(lib, rule, s, i, x) && Follows(rest)
    ensures EndsNul(s + rest) && ParseValue(lib, s + rest, k) == Some((Number(i, x), |s|)) && s[0] > 32
  {
    hide ParseArray, ParseObject, ParseString, StrTod, Reads, RfcNumber;
    NumberShape(s);
    ReadsIs(lib, s, x, |s|);
    SaturatedIs(i, x);
    var t := s + rest;
    TokenIs(s, rest, 63);
    assert t[..|s|] == s && t[0] == s[0];
    WordsDiffer(t);
  }

  // ---------- Values ----------

  /** A value that is neither array nor object. */
  lemma ScalarAccepted(lib: CLib, rule: Rule, s: Bytes, t: Json, k: nat, rest: Bytes)
    requires !rule.Lax?
    requires Value(lib, rule, s, t) && Follows(rest) && !t.Array? && !t.Object?
    ensures EndsNul(s + rest) && ParseValue(lib, s + rest, k) == Some((t, |s|))
  {
    hide ParseArray, ParseObject, ParseString, ParseNumber, StringOf, NumberOf, Ascii;
    Marks();
    var u := s + rest;
    match t
    case Null => assert u[..4] == NULL_TEXT;
    case False => assert u[..5] == FALSE_TEXT; assert u[..4][0] != NULL_TEXT[0];
    case True => assert u[..4] == TRUE_TEXT; assert u[0] == TRUE_TEXT[0];
    case Number(i, x) => NumberAccepted(lib, rule, s, i, x, k, rest);
    case String(v) =>
      StringAccepted(rule, s, v, rest);
      assert u[0] == QUOTE;
      WordsDiffer(u);
  }

  lemma WsBlank(rule: Rule, w: Bytes)
    requires !rule.Lax?
    requires Ws(rule, w)
    ensures Blank(w)
  {
  }

  /** The first byte of a value. */
  lemma ValueHead(lib: CLib, rule: Rule, s: Bytes, t: Json)
    requires !rule.Lax?
    requires Value(lib, rule, s, t)
    ensures |s| > 0 && Head(s[0]) && s[0] != 0xEF
  {
    hide Ascii, StringOf, NumberOf, Elements, Pairs;
    Marks();
    match t
    case Number(i, x) =>
      NumberHead(lib, rule, s, i, x);
    case String(v) =>
      StringAccepted(rule, s, v, []);
    case _ =>
  }

  lemma NumberHead(lib: CLib, rule: Rule, s: Bytes, i: int, x: real)
    requires !rule.Lax?
    requires NumberOf(lib, rule, s, i, x)
    ensures |s| > 0 && Head(s[0]) && s[0] != 0xEF
  {
    NumberShape(s);
  }

  /** A value of the grammar in front of what may follow it: the parser takes exactly it. */
  lemma {:induction false} ValueAccepted(lib: CLib, rule: Rule, s: Bytes, t: Json, k: nat, rest: Bytes)
    requires !rule.Lax?
    requires Value(lib, rule, s, t) && Follows(rest) && k <= NESTING_LIMIT
    ensures EndsNul(s + rest)
    ensures ParseValue(lib, s + rest, k) == Within(k + Depth(t) <= NESTING_LIMIT, t, |s|)
    decreases t, 0
  {
    hide ParseValue, Element, Elements, Pairs, Ascii, StringOf, NumberOf;
    match t
    case Array(l) =>
      var m :| s == Ascii("[") + (m + Ascii("]")) && if l.NoItem? then Ws(rule, m) else Elements(lib, rule, m, l);
      Marks();
      ArrayAccepted(lib, rule, m, l, k, rest);
      Assoc([OPEN_ARRAY], m + [CLOSE_ARRAY], rest);
      Assoc(m, [CLOSE_ARRAY], rest);
    case Object(l) =>
      var m :| s == Ascii("{") + (m + Ascii("}")) && if l.NoMember? then Ws(rule, m) else Pairs(lib, rule, m, l);
      Marks();
      ObjectAccepted(lib, rule, m, l, k, rest);
      Assoc([OPEN_OBJECT], m + [CLOSE_OBJECT], rest);
      Assoc(m, [CLOSE_OBJECT], rest);
    case _ => ScalarAccepted(lib, rule, s, t, k, rest);
  }

  /** A value with blanks around it, in front of its delimiter. */
  lemma {:induction false} ElementAccepted(lib: CLib, rule: Rule, e: Bytes, t: Json, k: nat, c: Byte, tail: Bytes)
    requires !rule.Lax?
    requires Element(lib, rule, e, t) && k <= NESTING_LIMIT && EndsNul(tail)
    requires c == COMMA || c == CLOSE_ARRAY || c == CLOSE_OBJECT
    ensures
      var s := e + ([c] + tail);
      && EndsNul(s) && |e| < |s| && s[|e|] == c && s[|e| + 1..] == tail
      && ParseElement(lib, s, k) == Within(k + Depth(t) <= NESTING_LIMIT, t, |e|)
    decreases t, 1
  {
    hide Value, ParseValue, ParseElement, Skip, Depth, Frame, EndsNul, Ws, Blank, Follows, Head;
    var b, p, w :| Ws(rule, b) && Value(lib, rule, p, t) && Ws(rule, w) && e == b + (p + w);
    WsBlank(rule, b);
    WsBlank(rule, w);
    ValueHead(lib, rule, p, t);
    HeadPrints(p[0]);
    FollowsValue(w, c, tail);
    ValueAccepted(lib, rule, p, t, k, w + ([c] + tail));
    FrameIs([], p, w, c, tail);
    FrameIs(b, p, w, c, tail);
    Empty(p + (w + ([c] + tail)));
    Assoc(b, p + w, [c] + tail);
    Assoc(p, w, [c] + tail);
    ElementStep(lib, b, p, w, c, tail, k);
  }

  lemma HeadPrints(b: Byte)
    requires Head(b)
    ensures b > 32
  {
  }

  /** Blanks in front of the first element, and the elements from its first byte on. */
  lemma ElementLead(lib: CLib, rule: Rule, e: Bytes, t: Json) returns (b: Bytes, e': Bytes)
    requires !rule.Lax?
    requires Element(lib, rule, e, t)
    ensures Blank(b) && e == b + e' && Element(lib, rule, e', t) && |e'| > 0 && Head(e'[0])
  {
    hide Value, Head, Blank;
    var p, w;
    b, p, w :| Ws(rule, b) && Value(lib, rule, p, t) && Ws(rule, w) && e == b + (p + w);
    WsBlank(rule, b);
    ValueHead(lib, rule, p, t);
    e' := p + w;
    assert Ws(rule, []) && e' == [] + (p + w);
  }

  lemma ElementsLead(lib: CLib, rule: Rule, m: Bytes, l: Items) returns (b: Bytes, m': Bytes)
    requires !rule.Lax?
    requires l.Item? && Elements(lib, rule, m, l)
    ensures Blank(b) && m == b + m' && Elements(lib, rule, m', l) && |m'| > 0 && Head(m'[0])
  {
    hide Element, Head, Blank;
    if l.next.NoItem? {
      b, m' := ElementLead(lib, rule, m, l.value);
    } else {
      var e, more :|
        Element(lib, rule, e, l.value) && Elements(lib, rule, more, l.next) && m == e + (Ascii(",") + more);
      var e';
      b, e' := ElementLead(lib, rule, e, l.value);
      m' := e' + (Ascii(",") + more);
      Assoc(b, e', Ascii(",") + more);
    }
  }

  lemma {:induction false} ArrayAccepted(lib: CLib, rule: Rule, m: Bytes, l: Items, k: nat, rest: Bytes)
    requires !rule.Lax?
    requires if l.NoItem? then Ws(rule, m) else Elements(lib, rule, m, l)
    requires EndsNul(rest) && k <= NESTING_LIMIT
    ensures
      var s := [OPEN_ARRAY] + (m + ([CLOSE_ARRAY] + rest));
      EndsNul(s) && ParseValue(lib, s, k) == Within(k + Depth(Array(l)) <= NESTING_LIMIT, Array(l), |m| + 2)
    decreases l, 4
  {
    hide ParseItems, ParseValue, ParseArray, Skip, EndsNul, Elements, Blank, Ws;
    var b, m' := m, [];
    if l.NoItem? {
      WsBlank(rule, m);
      Empty([CLOSE_ARRAY] + rest);
      Empty(m);
    } else {
      b, m' := ElementsLead(lib, rule, m, l);
    }
    var t := m' + ([CLOSE_ARRAY] + rest);
    TailEnds(m', CLOSE_ARRAY, rest);
    EndsNulKept(b, t);
    Assoc(b, m', [CLOSE_ARRAY] + rest);
    ValueOfArray(lib, b + t, k);
    ArrayStep(lib, b, t, k);
    if l.Item? && k < NESTING_LIMIT {
      ElementsAccepted(lib, rule, m', l, k + 1, rest);
    }
  }

  lemma TailEnds(m: Bytes, c: Byte, rest: Bytes)
    requires EndsNul(rest) && c > 32 && (m == [] || Head(m[0]))
    ensures
      var t := m + ([c] + rest);
      EndsNul(t) && t[0] > 32 && t[0] == if m == [] then c else m[0]
  {
  }

  lemma {:induction false} ElementsAccepted(lib: CLib, rule: Rule, m: Bytes, l: Items, k: nat, rest: Bytes)
    requires !rule.Lax?
    requires l.Item? && Elements(lib, rule, m, l) && EndsNul(rest) && k <= NESTING_LIMIT
    ensures
      var s := m + ([CLOSE_ARRAY] + rest);
      EndsNul(s) && ParseItems(lib, s, k) == Within(k + ItemsDepth(l) <= NESTING_LIMIT, l, |m| + 1)
    decreases l, 3
  {
    hide ParseItems, ParseElement, Depth, EndsNul, Element, Ascii;
    var e := m;
    if l.next.NoItem? {
      ElementAccepted(lib, rule, e, l.value, k, CLOSE_ARRAY, rest);
    } else {
      var more;
      e, more :|
        Element(lib, rule, e, l.value) && Elements(lib, rule, more, l.next) && m == e + (Ascii(",") + more);
      Marks();
      ElementsAccepted(lib, rule, more, l.next, k, rest);
      Assoc(e, [COMMA] + more, [CLOSE_ARRAY] + rest);
      Assoc([COMMA], more, [CLOSE_ARRAY] + rest);
      ElementAccepted(lib, rule, e, l.value, k, COMMA, more + ([CLOSE_ARRAY] + rest));
    }
    var s := m + ([CLOSE_ARRAY] + rest);
    if k + Depth(l.value) <= NESTING_LIMIT {
      ItemsStep(lib, s, k, l.value, |e|);
    } else {
      ItemsFail(lib, s, k);
    }
  }

  // ---------- Objects ----------

  lemma KeyStep(s: Bytes, b: nat, n: nat, w: nat, key: Bytes)
    requires EndsNul(s) && Skip(s) == b && ParseString(s[b..]) == Some((key, n)) && b + n < |s|
    requires Skip(s[b + n..]) == w && s[b + n + w] == COLON
    ensures ParseKey(s) == Some((key, b + n + w + 1))
  {
    hide Skip, ParseString;
  }

  /** A name, the colon and the blanks around the name. */
  lemma KeyAccepted(rule: Rule, b: Bytes, q: Bytes, w: Bytes, key: Bytes, tail: Bytes)
    requires !rule.Lax?
    requires Blank(b) && Blank(w) && StringOf(rule, q, key) && EndsNul(tail)
    ensures
      var s := b + (q + (w + ([COLON] + tail)));
      EndsNul(s) && ParseKey(s) == Some((key, |b| + |q| + |w| + 1)) && s[|b| + |q| + |w| + 1..] == tail
  {
    hide Skip, Frame, StringOf, ParseString, ParseKey, EndsNul, Blank;
    StringAccepted(rule, q, key, w + ([COLON] + tail));
    FrameFacts(b, q, w, COLON, tail);
    FrameIs(b, q, w, COLON, tail);
    FrameIs([], q, w, COLON, tail);
    Empty(q + (w + ([COLON] + tail)));
    KeyStep(b + (q + (w + ([COLON] + tail))), |b|, |q|, |w|, key);
  }

  /** The parts of a name with its value. */
  lemma PairParts(lib: CLib, rule: Rule, m: Bytes, key: Bytes, t: Json)
    returns (b: Bytes, q: Bytes, w: Bytes, e: Bytes)
    requires NameAndValue(lib, rule, m, key, t)
    ensures Ws(rule, b) && StringOf(rule, q, key) && Ws(rule, w) && Element(lib, rule, e, t)
    ensures m == b + (q + (w + ([COLON] + e)))
  {
    hide Element, StringOf, Ascii, Ws;
    b, q, w, e :|
      && Ws(rule, b) && StringOf(rule, q, key) && Ws(rule, w) && Element(lib, rule, e, t)
      && m == b + (q + (w + (Ascii(":") + e)));
    hide NameAndValue;
    Marks();
  }

  /** A name and its value, in front of the delimiter: the name ends at `a`. */
  lemma {:induction false} PairAccepted(lib: CLib, rule: Rule, m: Bytes, key: Bytes, t: Json, k: nat, c: Byte,
                                        tail: Bytes)
    returns (a: nat)
    requires !rule.Lax?
    requires NameAndValue(lib, rule, m, key, t) && k <= NESTING_LIMIT && EndsNul(tail)
    requires c == COMMA || c == CLOSE_ARRAY || c == CLOSE_OBJECT
    ensures
      var s := m + ([c] + tail);
      && EndsNul(s) && a <= |m| < |s| && s[|m|] == c && s[|m| + 1..] == tail && ParseKey(s) == Some((key, a))
      && ParseElement(lib, s[a..], k) == Within(k + Depth(t) <= NESTING_LIMIT, t, |m| - a)
    decreases t, 2
  {
    hide Element, StringOf, ParseKey, ParseElement, Depth, EndsNul, Blank, NameAndValue, Ws;
    var b, q, w, e := PairParts(lib, rule, m, key, t);
    WsBlank(rule, b);
    WsBlank(rule, w);
    var u, s := e + ([c] + tail), m + ([c] + tail);
    ElementAccepted(lib, rule, e, t, k, c, tail);
    KeyAccepted(rule, b, q, w, key, u);
    PairText(b, q, w, e, [c] + tail);
    a := |b| + |q| + |w| + 1;
    Behind(m, [c] + tail);
    Behind([c], tail);
    assert s[|m| + 1..] == s[|m|..][1..];
  }

  lemma PairText(b: Bytes, q: Bytes, w: Bytes, e: Bytes, r: Bytes)
    ensures b + (q + (w + ([COLON] + e))) + r == b + (q + (w + ([COLON] + (e + r))))
  {
    Assoc(b, q + (w + ([COLON] + e)), r);
    Assoc(q, w + ([COLON] + e), r);
    Assoc(w, [COLON] + e, r);
    Assoc([COLON], e, r);
  }

  lemma PairIntro(lib: CLib, rule: Rule, b: Bytes, q: Bytes, w: Bytes, e: Bytes, key: Bytes, t: Json)
    requires Ws(rule, b) && StringOf(rule, q, key) && Ws(rule, w) && Element(lib, rule, e, t)
    ensures NameAndValue(lib, rule, b + (q + (w + ([COLON] + e))), key, t)
  {
    hide StringOf, Element, Ws, Ascii;
    Marks();
  }

  lemma WsNone(rule: Rule)
    ensures Ws(rule, [])
  {
  }

  lemma NameHead(rule: Rule, q: Bytes, key: Bytes)
    requires !rule.Lax?
    requires StringOf(rule, q, key)
    ensures |q| > 0 && Head(q[0])
  {
    hide StringOf;
    StringAccepted(rule, q, key, []);
  }

  /** Blanks in front of the first name, and the members from its quote on. */
  lemma PairLead(lib: CLib, rule: Rule, m: Bytes, key: Bytes, t: Json) returns (b: Bytes, m': Bytes)
    requires !rule.Lax?
    requires NameAndValue(lib, rule, m, key, t)
    ensures Blank(b) && m == b + m' && NameAndValue(lib, rule, m', key, t) && |m'| > 0 && Head(m'[0])
  {
    hide Element, StringOf, Blank, Ws, Head, NameAndValue;
    var q, w, e;
    b, q, w, e := PairParts(lib, rule, m, key, t);
    WsBlank(rule, b);
    NameHead(rule, q, key);
    WsNone(rule);
    m' := q + (w + ([COLON] + e));
    Empty(m');
    PairIntro(lib, rule, [], q, w, e, key, t);
  }

  lemma PairsLead(lib: CLib, rule: Rule, m: Bytes, l: Members) returns (b: Bytes, m': Bytes)
    requires !rule.Lax?
    requires l.Member? && Pairs(lib, rule, m, l)
    ensures Blank(b) && m == b + m' && Pairs(lib, rule, m', l) && |m'| > 0 && Head(m'[0])
  {
    hide NameAndValue, Head, Blank;
    if l.next.NoMember? {
      b, m' := PairLead(lib, rule, m, l.key, l.value);
    } else {
      var e, more :|
        && NameAndValue(lib, rule, e, l.key, l.value) && Pairs(lib, rule, more, l.next)
        && m == e + (Ascii(",") + more);
      var e';
      b, e' := PairLead(lib, rule, e, l.key, l.value);
      m' := e' + (Ascii(",") + more);
      Assoc(b, e', Ascii(",") + more);
    }
  }

  lemma {:induction false} ObjectAccepted(lib: CLib, rule: Rule, m: Bytes, l: Members, k: nat, rest: Bytes)
    requires !rule.Lax?
    requires if l.NoMember? then Ws(rule, m) else Pairs(lib, rule, m, l)
    requires EndsNul(rest) && k <= NESTING_LIMIT
    ensures
      var s := [OPEN_OBJECT] + (m + ([CLOSE_OBJECT] + rest));
      EndsNul(s) && ParseValue(lib, s, k) == Within(k + Depth(Object(l)) <= NESTING_LIMIT, Object(l), |m| + 2)
    decreases l, 4
  {
    hide ParseMembers, ParseValue, ParseObject, Skip, EndsNul, Pairs, Blank, Ws;
    var b, m' := m, [];
    if l.NoMember? {
      WsBlank(rule, m);
      Empty([CLOSE_OBJECT] + rest);
      Empty(m);
    } else {
      b, m' := PairsLead(lib, rule, m, l);
    }
    var t := m' + ([CLOSE_OBJECT] + rest);
    TailEnds(m', CLOSE_OBJECT, rest);
    EndsNulKept(b, t);
    Assoc(b, m', [CLOSE_OBJECT] + rest);
    ValueOfObject(lib, b + t, k);
    ObjectStep(lib, b, t, k);
    if l.Member? && k < NESTING_LIMIT {
      PairsAccepted(lib, rule, m', l, k + 1, rest);
    }
  }

  lemma {:induction false} PairsAccepted(lib: CLib, rule: Rule, m: Bytes, l: Members, k: nat, rest: Bytes)
    requires !rule.Lax?
    requires l.Member? && Pairs(lib, rule, m, l) && EndsNul(rest) && k <= NESTING_LIMIT
    ensures
      var s := m + ([CLOSE_OBJECT] + rest);
      EndsNul(s) && ParseMembers(lib, s, k) == Within(k + MembersDepth(l) <= NESTING_LIMIT, l, |m| + 1)
    decreases l, 3
  {
    hide ParseMembers, ParseElement, ParseKey, Depth, MembersDepth, EndsNul, NameAndValue, Ascii;
    var e, a := m, 0;
    MembersDepthIs(l);
    if l.next.NoMember? {
      a := PairAccepted(lib, rule, e, l.key, l.value, k, CLOSE_OBJECT, rest);
    } else {
      var more;
      e, more :|
        && NameAndValue(lib, rule, e, l.key, l.value) && Pairs(lib, rule, more, l.next)
        && m == e + (Ascii(",") + more);
      Marks();
      PairsAccepted(lib, rule, more, l.next, k, rest);
      Assoc(e, [COMMA] + more, [CLOSE_OBJECT] + rest);
      Assoc([COMMA], more, [CLOSE_OBJECT] + rest);
      a := PairAccepted(lib, rule, e, l.key, l.value, k, COMMA, more + ([CLOSE_OBJECT] + rest));
    }
    var s := m + ([CLOSE_OBJECT] + rest);
    if k + Depth(l.value) <= NESTING_LIMIT {
      MembersStep(lib, s, k, l.key, a, l.value, |e| - a);
    } else {
      MembersFail(lib, s, k);
    }
  }

  // ---------- Texts ----------

  /** UTF-8 byte order mark. */
  const MARK: Bytes := [0xEF, 0xBB, 0xBF]

  /**
   `cJSON_ParseWithOpts` on a value with blanks in front and anything behind it: the value's tree
   up to the nesting limit; with the end required only if nothing but blanks follows. A byte
   order mark in front changes nothing but the positions.
   */
  lemma TextAccepted(lib: CLib, rule: Rule, b: Bytes, p: Bytes, rest: Bytes, t: Json)
    requires !rule.Lax?
    requires Ws(rule, b) && Value(lib, rule, p, t)
    requires rest == [] || rest[0] as char !in "0123456789+-.eE"
    ensures
      var s, fits := b + (p + rest), Depth(t) <= 1000;
      && Parse(lib, s, false) == (if fits then Some((t, |b| + |p|)) else None)
      && Parse(lib, MARK + s, false) == (if fits then Some((t, 3 + |b| + |p|)) else None)
      && (Ws(rule, rest) ==> Parse(lib, s, true) == if fits then Some((t, |s|)) else None)
      && (Ws(rule, rest) ==> Parse(lib, MARK + s, true) == if fits then Some((t, 3 + |s|)) else None)
      && ((exists i :: 0 <= i < |rest| && rest[i] as char > ' ') ==> Parse(lib, s, true).None?)
  {
    hide Value, ParseValue, Depth, Skip, Head, Parse, EndsNul, Blank, Ws, Follows;
    WsBlank(rule, b);
    ValueHead(lib, rule, p, t);
    HeadPrints(p[0]);
    NulFollows(rest);
    ValueAccepted(lib, rule, p, t, 0, rest + [0]);
    ParseIs(lib, [], b, p, rest);
    ParseIs(lib, MARK, b, p, rest);
    Empty(b + (p + rest));
    if Ws(rule, rest) {
      WsBlank(rule, rest);
      BlanksEnd(rest);
    }
    if i :| 0 <= i < |rest| && rest[i] as char > ' ' {
      PrintsEnd(rest, i);
    }
  }

  lemma NulFollows(rest: Bytes)
    requires rest == [] || rest[0] as char !in "0123456789+-.eE"
    ensures Follows(rest + [0])
  {
    if rest != [] {
      assert rest[0] as char !in ['0', '1', '2', '3', '4', '5', '6', '7', '8', '9', '+', '-', '.', 'e', 'E'];
    }
  }

  /** Where the blanks behind a value end. */
  function EndOf(rest: Bytes): nat {
    Skip(rest + [0])
  }

  lemma EndIs(rest: Bytes)
    ensures EndOf(rest) == Skip(rest + [0]) && EndOf(rest) <= |rest|
  {
  }

  lemma BlanksEnd(rest: Bytes)
    requires Blank(rest)
    ensures EndOf(rest) == |rest|
  {
    SkipBlank(rest, [0]);
  }

  lemma {:induction false} PrintsEnd(rest: Bytes, i: nat)
    requires i < |rest| && rest[i] as char > ' '
    ensures EndOf(rest) <= i && (rest + [0])[EndOf(rest)] != 0
  {
    if i > 0 && rest[0] <= 32 {
      PrintsEnd(rest[1..], i - 1);
      assert (rest + [0])[1..] == rest[1..] + [0];
    }
  }

  /** Parsing a text with blanks in front of a value. */
  lemma ParseIs(lib: CLib, mark: Bytes, b: Bytes, p: Bytes, rest: Bytes)
    requires mark == [] || mark == MARK
    requires Blank(b) && |p| > 0 && p[0] > 32 && p[0] != 0xEF && EndsNul(p + (rest + [0]))
    ensures
      var v, s, n := ParseValue(lib, p + (rest + [0]), 0), mark + (b + (p + rest)), |mark| + |b| + |p|;
      && (v.None? ==> Parse(lib, s, false).None? && Parse(lib, s, true).None?)
      && (v.Some? && v.value.1 == |p| ==>
        && Parse(lib, s, false) == Some((v.value.0, n)) && EndOf(rest) <= |rest|
        && Parse(lib, s, true)
             == if (rest + [0])[EndOf(rest)] == 0 then Some((v.value.0, n + EndOf(rest))) else None)
  {
    hide ParseValue, Skip, Bom, Blank, EndsNul, Parse, EndOf;
    EndIs(rest);
    var s, u := mark + (b + (p + rest)), p + (rest + [0]);
    MarkLength(mark, b, p, rest);
    ParseText(mark, b, p, rest);
    SkipLead(b, u);
    ParseSteps(lib, s, |mark|, |b|, u);
    Behind(p, rest + [0]);
    BehindAt(p, rest + [0], EndOf(rest));
  }

  lemma BehindAt(p: Bytes, s: Bytes, i: nat)
    requires i < |s|
    ensures (p + s)[|p| + i] == s[i]
  {
  }

  /** The stages of a parse: the byte order mark, the blanks, the value, and what follows it. */
  lemma ParseSteps(lib: CLib, text: Bytes, m: nat, w: nat, u: Bytes)
    requires m <= |text| && Bom(text + [0]) == m && Skip((text + [0])[m..]) == w && m + w <= |text|
    requires u == (text + [0])[m + w..] && EndsNul(u)
    ensures
      var v := ParseValue(lib, u, 0);
      && (v.None? ==> Parse(lib, text, false).None? && Parse(lib, text, true).None?)
      && (v.Some? ==> var (t, n) := v.value;
        && Parse(lib, text, false) == Some((t, m + w + n)) && n + Skip(u[n..]) < |u|
        && Parse(lib, text, true)
             == if u[n + Skip(u[n..])] == 0 then Some((t, m + w + n + Skip(u[n..]))) else None)
  {
    hide ParseValue, Skip, Bom;
    var v := ParseValue(lib, u, 0);
    if v.Some? {
      assert (text + [0])[m + w + v.value.1..] == u[v.value.1..];
    }
  }

  lemma ParseText(mark: Bytes, b: Bytes, p: Bytes, rest: Bytes)
    ensures
      var s := mark + (b + (p + rest)) + [0];
      s[|mark|..] == b + (p + (rest + [0])) && s[|mark| + |b|..] == p + (rest + [0])
  {
    var u := p + (rest + [0]);
    Assoc(mark, b + (p + rest), [0]);
    Assoc(b, p + rest, [0]);
    Assoc(p, rest, [0]);
    Assoc(mark, b, u);
    Behind(mark, b + u);
    Behind(mark + b, u);
  }

  lemma MarkLength(mark: Bytes, b: Bytes, p: Bytes, rest: Bytes)
    requires mark == [] || mark == MARK
    requires Blank(b) && |p| > 0 && p[0] != 0xEF
    ensures Bom(mark + (b + (p + rest)) + [0]) == |mark|
  {
    var s := mark + (b + (p + rest)) + [0];
    if mark == [] {
      assert s[0] == if b == [] then p[0] else b[0];
    } else {
      assert s[..3] == MARK;
    }
  }

  // ---------- The nesting limit ----------

  /** An array or an object inside another, as often as `kinds` says: true for arrays. */
  function Nest(kinds: seq<bool>): Json {
    if kinds == [] then Null
    else if kinds[0] then Array(Item(Nest(kinds[1..]), NoItem))
    else Object(Member([], Nest(kinds[1..]), NoMember))
  }

  lemma {:induction false} NestDepth(lib: CLib, kinds: seq<bool>)
    ensures Depth(Nest(kinds)) == |kinds| && Wf(lib, Nest(kinds))
  {
    if kinds != [] {
      NestDepth(lib, kinds[1..]);
    }
  }

  /** One thousand arrays and objects inside each other are read, one more is refused. */
  lemma NestLimit(lib: CLib, kinds: seq<bool>, fmt: bool)
    ensures Parse(lib, Print(lib, Nest(kinds), fmt, 0), true).Some? <==> |kinds| <= 1000
  {
    hide Parse, Print, Nest, Depth, Wf;
    NestDepth(lib, kinds);
    RoundTrip(lib, Nest(kinds), fmt, true);
  }
}
