/**
 The parser accepts nothing but texts of the grammar with its named departures, and the tree is
 the one the text stands for.
 */
module JsonSound {
  import opened Options
  import opened JsonText
  import opened JsonString
  import opened JsonParse
  import opened JsonRoundTrip
  import opened JsonGrammar
  import opened JsonAccepts
  import opened JsonPrinted

  // ---------- Strings ----------

  lemma HexOf(b: Byte)
    requires HexValue(b).Some?
    ensures HexIs(b, HexValue(b).value)
  {
    var v := HexValue(b).value;
    assert "0123456789abcdef"[v] as int == if v < 10 then 48 + v else 87 + v;
    assert "0123456789ABCDEF"[v] as int == if v < 10 then 48 + v else 55 + v;
  }

  lemma Hex4Of(h: Bytes)
    requires IsHex4(h)
    ensures HexNumber(h, Hex4(h))
  {
    HexOf(h[0]);
    HexOf(h[1]);
    HexOf(h[2]);
    HexOf(h[3]);
    hide HexIs, HexValue;
  }

  /** An invalid digit. */
  lemma BadHex(h: Bytes)
    requires |h| == 4 && !IsHex4(h)
    ensures Hex4(h) == 0 && forall n: nat :: !HexNumber(h, n)
  {
    forall n: nat | HexNumber(h, n)
      ensures false
    {
      HexNumberIs(h, n);
    }
  }

  lemma EncodingOf(cp: nat)
    requires IsScalar(cp)
    ensures EncodesOne(Utf8(cp), cp)
  {
    Utf8RoundTrip(cp, []);
    Empty(Utf8(cp));
  }

  lemma UnitOf(c: Bytes)
    requires |c| >= 6 && c[..2] == [BACKSLASH, 117] && IsScalar(Hex4(c[2..6]))
    ensures CharIs(Lax, c[..6], Utf8(Hex4(c[2..6])))
  {
    hide Hex4, Utf8, IsHex4, HexNumber, EncodesOne, PairIs, ShortIs;
    var h := c[2..6];
    Marks();
    if IsHex4(h) {
      Hex4Of(h);
      EncodingOf(Hex4(h));
      assert c[..6] == Ascii("\\u") + h;
      assert UnitIs(c[..6], Utf8(Hex4(h)));
    } else {
      BadHex(h);
      ZeroByte();
      assert c[..6][..2] == c[..2] && c[..6][2..] == h;
      assert BadUnit(c[..6], [0]);
    }
  }

  lemma ZeroByte()
    ensures Utf8(0) == [0]
  {
  }

  lemma PairOf(c: Bytes)
    requires |c| >= 12 && c[..2] == [BACKSLASH, 117] && c[6..8] == [BACKSLASH, 117]
    requires 0xD800 <= Hex4(c[2..6]) < 0xDC00 <= Hex4(c[8..12]) < 0xE000
    ensures CharIs(Lax, c[..12], Utf8(Combine(Hex4(c[2..6]), Hex4(c[8..12]))))
  {
    hide Hex4, Utf8, IsHex4, HexNumber, EncodesOne, UnitIs, BadUnit, ShortIs;
    var h, l := c[2..6], c[8..12];
    Marks();
    if !IsHex4(h) {
      BadHex(h);
    }
    if !IsHex4(l) {
      BadHex(l);
    }
    Hex4Of(h);
    Hex4Of(l);
    EncodingOf(Combine(Hex4(h), Hex4(l)));
    assert c[..12] == Ascii("\\u") + h + Ascii("\\u") + l;
    assert PairIs(c[..12], Utf8(Combine(Hex4(h), Hex4(l))));
  }

  lemma Utf16Of(c: Bytes)
    requires |c| >= 2 && c[0] == BACKSLASH && c[1] == 117 && Utf16(c).Some?
    ensures CharIs(Lax, c[..Utf16(c).value.1], Utf8(Utf16(c).value.0))
  {
    hide CharIs, Hex4, Utf8, Combine;
    if Utf16(c).value.1 == 6 {
      UnitOf(c);
    } else {
      PairOf(c);
    }
  }

  lemma ShortOf(c: Byte)
    requires ShortEscape(c).Some?
    ensures CharIs(Lax, [BACKSLASH, c], [ShortEscape(c).value])
  {
    hide UnitIs, PairIs, BadUnit;
  }

  lemma RawOf(b: Byte)
    requires b != BACKSLASH
    ensures CharIs(Lax, [b], [b])
  {
    hide UnitIs, PairIs, BadUnit;
  }

  lemma InFront(p: Bytes, m: Bytes, cs: seq<Spelt>) returns (r: seq<Spelt>)
    requires CharIs(Lax, p, m) && AllSpelt(Lax, cs)
    ensures AllSpelt(Lax, r) && Literal(r) == p + Literal(cs) && Memory(r) == m + Memory(cs)
  {
    hide CharIs;
    r := [Spelt(p, m)] + cs;
    assert r[1..] == cs;
  }

  lemma {:induction false} Unescaped(c: Bytes) returns (cs: seq<Spelt>)
    requires Unescape(c).Some?
    ensures AllSpelt(Lax, cs) && Literal(cs) == c && Memory(cs) == Unescape(c).value
  {
    hide CharIs, AllSpelt, Literal, Memory, Utf16, Utf8, ShortEscape;
    if c == [] {
      cs := NoChars();
    } else if c[0] != BACKSLASH {
      var tail := Unescaped(c[1..]);
      RawOf(c[0]);
      cs := InFront([c[0]], [c[0]], tail);
    } else if |c| < 2 {
      cs := LastChar();
      assert c == [BACKSLASH];
    } else if c[1] == 117 {
      var n := Utf16(c).value.1;
      var tail := Unescaped(c[n..]);
      Utf16Of(c);
      cs := InFront(c[..n], Utf8(Utf16(c).value.0), tail);
      assert c[..n] + c[n..] == c;
    } else {
      var tail := Unescaped(c[2..]);
      ShortOf(c[1]);
      cs := InFront([BACKSLASH, c[1]], [ShortEscape(c[1]).value], tail);
      assert [BACKSLASH, c[1]] + c[2..] == c;
    }
  }

  lemma NoChars() returns (cs: seq<Spelt>)
    ensures AllSpelt(Lax, cs) && Literal(cs) == [] && Memory(cs) == []
  {
    cs := [];
  }

  lemma LastChar() returns (cs: seq<Spelt>)
    ensures AllSpelt(Lax, cs) && Literal(cs) == [BACKSLASH] && Memory(cs) == [QUOTE]
  {
    hide CharIs;
    cs := [Spelt(Ascii("\\"), Ascii("\""))];
    assert Ascii("\\") == [BACKSLASH] && Ascii("\"") == [QUOTE];
    assert cs[1..] == [];
  }

  lemma {:induction false} FirstQuote(s: Bytes)
    requires QuoteAt(s).Some?
    ensures Enclosed(s[..QuoteAt(s).value])
  {
    var q := QuoteAt(s).value;
    if s[0] == QUOTE {
    } else if s[0] == BACKSLASH {
      FirstQuote(s[2..]);
      assert s[..q][2..] == s[2..][..q - 2];
    } else {
      FirstQuote(s[1..]);
      assert s[..q][1..] == s[1..][..q - 1];
    }
  }

  lemma StringSound(s: Bytes)
    requires ParseString(s).Some?
    ensures StringOf(Lax, s[..ParseString(s).value.1], ParseString(s).value.0)
  {
    hide Unescape, QuoteAt, AllSpelt, Literal, Memory, Enclosed;
    var q := QuoteAt(s[1..]).value;
    var c, v := s[1..1 + q], ParseString(s).value.0;
    Marks();
    var cs := Unescaped(c);
    FirstQuote(s[1..]);
    assert s[1..][..q] == c;
    assert CharsOf(Lax, c, v);
    assert s[..q + 2] == Ascii("\"") + (c + Ascii("\""));
  }

  // ---------- Numbers ----------

  lemma {:induction false} TokenChars(s: Bytes, max: nat)
    ensures NumberChars(s[..TokenLen(s, max)])
  {
    if TokenLen(s, max) > 0 {
      TokenChars(s[1..], max - 1);
      var n := TokenLen(s, max);
      assert s[..n] == [s[0]] + s[1..][..n - 1];
    }
  }

  lemma NumberSound(lib: CLib, s: Bytes)
    requires EndsNul(s) && ParseNumber(lib, s).Some? && (s[0] == MINUS || IsDigit(s[0]))
    ensures
      var (t, n) := ParseNumber(lib, s).value;
      n <= |s| && Value(lib, Lax, s[..n], t)
  {
    hide StrTod, Reads, Saturated, TokenLen, NumberChars, IntBeside;
    var tok := s[..TokenLen(s, 63)];
    var (x, n) := StrTod(lib, tok);
    TokenChars(s, 63);
    CharsSplit(tok, n);
    StrTodIs(lib, tok, x, n);
    BesideIs(x);
    NumberStart(s[0]);
    assert s[..n] == tok[..n];
    assert NumberOf(lib, Lax, tok[..n], Saturated(x), x);
  }

  lemma CharsSplit(s: Bytes, n: nat)
    requires NumberChars(s) && n <= |s|
    ensures NumberChars(s[..n]) && NumberChars(s[n..]) && s[..n] + s[n..] == s
  {
  }

  lemma NumberStart(b: Byte)
    requires b == MINUS || IsDigit(b)
    ensures b as char in "-0123456789"
  {
  }

  // ---------- Values ----------

  lemma {:induction false} SkippedBlanks(s: Bytes)
    requires |s| > 0
    ensures Ws(Lax, s[..Skip(s)])
  {
    if Skip(s) > 0 {
      SkippedBlanks(s[1..]);
      assert s[..Skip(s)] == [s[0]] + s[1..][..Skip(s) - 1];
    }
  }

  /** Which branch `parse_value` takes. */
  lemma ScalarSound(lib: CLib, s: Bytes, k: nat)
    requires EndsNul(s) && ParseValue(lib, s, k).Some? && s[0] != OPEN_ARRAY && s[0] != OPEN_OBJECT
    ensures
      var (t, n) := ParseValue(lib, s, k).value;
      Value(lib, Lax, s[..n], t) && Depth(t) == 0
  {
    hide ParseString, ParseNumber, StringOf, NumberOf, Ascii, ParseArray, ParseObject;
    Marks();
    if StartsWith(s, NULL_TEXT) || StartsWith(s, FALSE_TEXT) || StartsWith(s, TRUE_TEXT) {
    } else if s[0] == QUOTE {
      StringSound(s);
    } else {
      NumberSound(lib, s);
      NumberFlat(lib, s);
    }
  }

  lemma NumberFlat(lib: CLib, s: Bytes)
    requires ParseNumber(lib, s).Some?
    ensures Depth(ParseNumber(lib, s).value.0) == 0
  {
    hide StrTod, Saturated;
  }

  /** An accepted value is one of the grammar, within the nesting limit. */
  lemma {:induction false} ValueSound(lib: CLib, s: Bytes, k: nat)
    requires EndsNul(s) && ParseValue(lib, s, k).Some? && k <= NESTING_LIMIT
    ensures
      var (t, n) := ParseValue(lib, s, k).value;
      Value(lib, Lax, s[..n], t) && k + Depth(t) <= NESTING_LIMIT
    decreases |s|, 1
  {
    if s[0] == OPEN_ARRAY {
      OpensArray(lib, s, k);
      ArraySound(lib, s, k);
    } else if s[0] == OPEN_OBJECT {
      OpensObject(lib, s, k);
      ObjectSound(lib, s, k);
    } else {
      ScalarSound(lib, s, k);
    }
  }

  lemma OpensArray(lib: CLib, s: Bytes, k: nat)
    requires EndsNul(s) && s[0] == OPEN_ARRAY
    ensures ParseValue(lib, s, k) == ParseArray(lib, s, k)
  {
    hide ParseArray, ParseObject, ParseString, ParseNumber;
    WordsDiffer(s);
  }

  lemma OpensObject(lib: CLib, s: Bytes, k: nat)
    requires EndsNul(s) && s[0] == OPEN_OBJECT
    ensures ParseValue(lib, s, k) == ParseObject(lib, s, k)
  {
    hide ParseArray, ParseObject, ParseString, ParseNumber;
    WordsDiffer(s);
  }

  lemma {:induction false} ElementSound(lib: CLib, s: Bytes, k: nat)
    requires EndsNul(s) && ParseElement(lib, s, k).Some? && k <= NESTING_LIMIT
    ensures
      var (t, n) := ParseElement(lib, s, k).value;
      Element(lib, Lax, s[..n], t) && k + Depth(t) <= NESTING_LIMIT
    decreases |s|, 2
  {
    hide ParseElement, ParseValue, Value, Element, Skip, Ws, Depth, EndsNul;
    var w := Skip(s);
    var t, n, w2 := ElementParts(lib, s, k);
    ValueSound(lib, s[w..], k);
    SkippedBlanks(s);
    SkippedBlanks(s[w + n..]);
    Padded(lib, Lax, s[..w], s[w..][..n], s[w + n..][..w2], t);
    SliceParts(s, w, n, w2);
  }

  /** The value of an element and the blanks behind it. */
  lemma ElementParts(lib: CLib, s: Bytes, k: nat) returns (t: Json, n: nat, w2: nat)
    requires EndsNul(s) && ParseElement(lib, s, k).Some?
    ensures
      var w := Skip(s);
      && EndsNul(s[w..]) && ParseValue(lib, s[w..], k) == Some((t, n)) && w + n < |s| && w2 == Skip(s[w + n..])
      && ParseElement(lib, s, k) == Some((t, w + n + w2)) && w + n + w2 <= |s|
  {
    hide ParseValue, Skip;
    var w := Skip(s);
    TailNul(s, w);
    t, n := ParseValue(lib, s[w..], k).value.0, ParseValue(lib, s[w..], k).value.1;
    w2 := Skip(s[w + n..]);
  }

  lemma SliceParts(s: Bytes, a: nat, b: nat, c: nat)
    requires a + b + c <= |s|
    ensures s[..a + b + c] == s[..a] + (s[a..][..b] + s[a + b..][..c])
  {
  }

  lemma ArrayIntro(lib: CLib, m: Bytes, l: Items)
    requires if l.NoItem? then Ws(Lax, m) else Elements(lib, Lax, m, l)
    ensures Value(lib, Lax, [OPEN_ARRAY] + (m + [CLOSE_ARRAY]), Array(l))
  {
    hide Ws, Elements, Ascii;
    Marks();
  }

  /** What the parser found behind the opening bracket and the blanks. */
  lemma ArrayParts(lib: CLib, s: Bytes, k: nat) returns (a: nat, l: Items, n: nat)
    requires EndsNul(s) && s[0] == OPEN_ARRAY && ParseArray(lib, s, k).Some?
    ensures k < NESTING_LIMIT && a == 1 + Skip(s[1..]) && a + n <= |s| && EndsNul(s[a..]) && n > 0
    ensures ParseArray(lib, s, k) == Some((Array(l), a + n))
    ensures if l.NoItem? then n == 1 && s[a] == CLOSE_ARRAY else ParseItems(lib, s[a..], k + 1) == Some((l, n))
  {
    hide ParseItems, Skip;
    a := 1 + Skip(s[1..]);
    TailNul(s, a);
    if s[a] == CLOSE_ARRAY {
      l, n := NoItem, 1;
    } else {
      l, n := ParseItems(lib, s[a..], k + 1).value.0, ParseItems(lib, s[a..], k + 1).value.1;
      FoundItems(lib, s[a..], k + 1);
    }
  }

  lemma FoundItems(lib: CLib, s: Bytes, k: nat)
    requires EndsNul(s) && ParseItems(lib, s, k).Some?
    ensures ParseItems(lib, s, k).value.0.Item?
  {
    hide ParseElement;
  }

  /** Everything between the brackets. */
  lemma BetweenMarks(s: Bytes, a: nat, n: nat)
    requires 1 <= a && 1 <= n && a + n <= |s|
    ensures s[..a + n] == [s[0]] + ((s[1..a] + s[a..][..n - 1]) + [s[a + n - 1]])
  {
  }

  lemma {:induction false} ArraySound(lib: CLib, s: Bytes, k: nat)
    requires EndsNul(s) && s[0] == OPEN_ARRAY && ParseArray(lib, s, k).Some? && k <= NESTING_LIMIT
    ensures
      var (t, n) := ParseArray(lib, s, k).value;
      Value(lib, Lax, s[..n], t) && k + Depth(t) <= NESTING_LIMIT
    decreases |s|, 0
  {
    hide ParseArray, ParseItems, Skip, Ws, Elements, ItemsDepth, Value, EndsNul;
    var a, l, n := ArrayParts(lib, s, k);
    var b, m := s[1..a], s[a..][..n - 1];
    SkippedBlanks(s[1..]);
    assert s[1..][..a - 1] == b;
    BetweenMarks(s, a, n);
    if l.NoItem? {
      NoItemsDepth();
      Empty(b);
    } else {
      ItemsSound(lib, s[a..], k + 1);
      ElementsPad(lib, b, m, l);
    }
    ArrayIntro(lib, b + m, l);
  }

  lemma NoItemsDepth()
    ensures ItemsDepth(NoItem) == 0 && MembersDepth(NoMember) == 0
  {
  }

  lemma {:induction false} ItemsSound(lib: CLib, s: Bytes, k: nat)
    requires EndsNul(s) && ParseItems(lib, s, k).Some? && k <= NESTING_LIMIT
    ensures
      var (l, n) := ParseItems(lib, s, k).value;
      && s[n - 1] == CLOSE_ARRAY && l.Item? && Elements(lib, Lax, s[..n - 1], l)
      && k + ItemsDepth(l) <= NESTING_LIMIT
    decreases |s|, 3
  {
    hide ParseItems, ParseElement, Element, Elements, Depth, ItemsDepth;
    ItemsHave(lib, s, k);
    var (t, p) := ParseElement(lib, s, k).value;
    ElementSound(lib, s, k);
    ItemsStep(lib, s, k, t, p);
    if s[p] == COMMA {
      var (l, n) := ParseItems(lib, s[p + 1..], k).value;
      ItemsSound(lib, s[p + 1..], k);
      ElementsMore(lib, s[..p], t, s[p + 1..][..n - 1], l);
      assert s[..p + n] == s[..p] + ([COMMA] + s[p + 1..][..n - 1]);
      ItemsDepthIs(Item(t, l));
    } else {
      ElementsLast(lib, s[..p], t);
      ItemsDepthIs(Item(t, NoItem));
    }
  }

  lemma ItemsHave(lib: CLib, s: Bytes, k: nat)
    requires EndsNul(s) && ParseItems(lib, s, k).Some?
    ensures ParseElement(lib, s, k).Some?
  {
    hide ParseElement;
  }

  lemma ElementsMore(lib: CLib, e: Bytes, t: Json, more: Bytes, l: Items)
    requires Element(lib, Lax, e, t) && l.Item? && Elements(lib, Lax, more, l)
    ensures Elements(lib, Lax, e + ([COMMA] + more), Item(t, l))
  {
    hide Element, Ascii;
    Marks();
  }

  lemma ElementsLast(lib: CLib, e: Bytes, t: Json)
    requires Element(lib, Lax, e, t)
    ensures Elements(lib, Lax, e, Item(t, NoItem))
  {
    hide Element;
  }

  lemma ItemsDepthIs(l: Items)
    requires l.Item?
    ensures ItemsDepth(l) == Max(Depth(l.value), ItemsDepth(l.next))
    ensures l.next.NoItem? ==> ItemsDepth(l) == Depth(l.value)
  {
    hide Depth;
  }

  /** Blanks in front of an element belong to it. */
  lemma ElementPad(lib: CLib, b: Bytes, e: Bytes, t: Json)
    requires Ws(Lax, b) && Element(lib, Lax, e, t)
    ensures Element(lib, Lax, b + e, t)
  {
    hide Value, Ws;
    var a, p, w :| Ws(Lax, a) && Value(lib, Lax, p, t) && Ws(Lax, w) && e == a + (p + w);
    WsJoin(Lax, b, a);
    Assoc(b, a, p + w);
  }

  lemma ElementsPad(lib: CLib, b: Bytes, m: Bytes, l: Items)
    requires Ws(Lax, b) && l.Item? && Elements(lib, Lax, m, l)
    ensures Elements(lib, Lax, b + m, l)
  {
    hide Element, Ws;
    if l.next.NoItem? {
      ElementPad(lib, b, m, l.value);
    } else {
      var e, more :|
        Element(lib, Lax, e, l.value) && Elements(lib, Lax, more, l.next) && m == e + (Ascii(",") + more);
      ElementPad(lib, b, e, l.value);
      Assoc(b, e, Ascii(",") + more);
    }
  }

  // ---------- Objects ----------

  /** The parts of a name and its colon. */
  lemma KeySound(s: Bytes) returns (b: Bytes, q: Bytes, w: Bytes)
    requires EndsNul(s) && ParseKey(s).Some?
    ensures Ws(Lax, b) && StringOf(Lax, q, ParseKey(s).value.0) && Ws(Lax, w)
    ensures s[..ParseKey(s).value.1] == b + (q + (w + [COLON]))
  {
    hide ParseString, Skip, StringOf, Ws;
    var i := Skip(s);
    TailNul(s, i);
    var n := ParseString(s[i..]).value.1;
    var p := SkipAt(s, i + n);
    StringSound(s[i..]);
    SkippedBlanks(s);
    SkippedBlanks(s[i + n..]);
    b, q, w := s[..i], s[i..][..n], s[i + n..][..p - i - n];
    KeyText(s, i, n, p);
  }

  lemma KeyText(s: Bytes, i: nat, n: nat, p: nat)
    requires i + n <= p < |s| && s[p] == COLON
    ensures s[..p + 1] == s[..i] + (s[i..][..n] + (s[i + n..][..p - i - n] + [COLON]))
  {
  }

  /** A name, and the value behind its colon. */
  lemma PairSound(lib: CLib, s: Bytes, a: nat, key: Bytes, t: Json, n: nat)
    requires EndsNul(s) && ParseKey(s) == Some((key, a)) && a + n <= |s| && Element(lib, Lax, s[a..][..n], t)
    ensures NameAndValue(lib, Lax, s[..a + n], key, t)
  {
    hide ParseKey, StringOf, Element, Ws, NameAndValue;
    var b, q, w := KeySound(s);
    var e := s[a..][..n];
    PairIntro(lib, Lax, b, q, w, e, key, t);
    Assoc(b, q + (w + [COLON]), e);
    Assoc(q, w + [COLON], e);
    Assoc(w, [COLON], e);
    assert s[..a + n] == s[..a] + e;
  }

  lemma ObjectIntro(lib: CLib, m: Bytes, l: Members)
    requires if l.NoMember? then Ws(Lax, m) else Pairs(lib, Lax, m, l)
    ensures Value(lib, Lax, [OPEN_OBJECT] + (m + [CLOSE_OBJECT]), Object(l))
  {
    hide Ws, Pairs, Ascii;
    Marks();
  }

  /** What the parser found behind the opening brace and the blanks. */
  lemma ObjectFound(lib: CLib, s: Bytes, k: nat) returns (a: nat, l: Members, n: nat)
    requires EndsNul(s) && s[0] == OPEN_OBJECT && ParseObject(lib, s, k).Some?
    ensures k < NESTING_LIMIT && a == 1 + Skip(s[1..]) && a + n <= |s| && EndsNul(s[a..]) && n > 0
    ensures ParseObject(lib, s, k) == Some((Object(l), a + n))
    ensures if l.NoMember? then n == 1 && s[a] == CLOSE_OBJECT else ParseMembers(lib, s[a..], k + 1) == Some((l, n))
  {
    hide ParseMembers, Skip;
    a := 1 + Skip(s[1..]);
    TailNul(s, a);
    if s[a] == CLOSE_OBJECT {
      l, n := NoMember, 1;
    } else {
      l, n := ParseMembers(lib, s[a..], k + 1).value.0, ParseMembers(lib, s[a..], k + 1).value.1;
      FoundMembers(lib, s[a..], k + 1);
    }
  }

  lemma FoundMembers(lib: CLib, s: Bytes, k: nat)
    requires EndsNul(s) && ParseMembers(lib, s, k).Some?
    ensures ParseMembers(lib, s, k).value.0.Member?
  {
    hide ParseElement, ParseKey;
  }

  lemma {:induction false} ObjectSound(lib: CLib, s: Bytes, k: nat)
    requires EndsNul(s) && s[0] == OPEN_OBJECT && ParseObject(lib, s, k).Some? && k <= NESTING_LIMIT
    ensures
      var (t, n) := ParseObject(lib, s, k).value;
      Value(lib, Lax, s[..n], t) && k + Depth(t) <= NESTING_LIMIT
    decreases |s|, 0
  {
    hide ParseObject, ParseMembers, Skip, Ws, Pairs, MembersDepth, Value, EndsNul;
    var a, l, n := ObjectFound(lib, s, k);
    var b, m := s[1..a], s[a..][..n - 1];
    SkippedBlanks(s[1..]);
    assert s[1..][..a - 1] == b;
    BetweenMarks(s, a, n);
    if l.NoMember? {
      NoItemsDepth();
      Empty(b);
    } else {
      MembersSound(lib, s[a..], k + 1);
      PairsPad(lib, b, m, l);
    }
    ObjectIntro(lib, b + m, l);
  }

  lemma {:induction false} MembersSound(lib: CLib, s: Bytes, k: nat)
    requires EndsNul(s) && ParseMembers(lib, s, k).Some? && k <= NESTING_LIMIT
    ensures
      var (l, n) := ParseMembers(lib, s, k).value;
      && s[n - 1] == CLOSE_OBJECT && l.Member? && Pairs(lib, Lax, s[..n - 1], l)
      && k + MembersDepth(l) <= NESTING_LIMIT
    decreases |s|, 3
  {
    hide ParseMembers, ParseElement, ParseKey, Element, NameAndValue, Depth, MembersDepth, Pairs;
    MembersHave(lib, s, k);
    var (key, a) := ParseKey(s).value;
    TailNul(s, a);
    var (t, m) := ParseElement(lib, s[a..], k).value;
    ElementSound(lib, s[a..], k);
    PairSound(lib, s, a, key, t, m);
    MembersStep(lib, s, k, key, a, t, m);
    var p := a + m;
    if s[p] == COMMA {
      var (l, n) := ParseMembers(lib, s[p + 1..], k).value;
      MembersSound(lib, s[p + 1..], k);
      PairsMore(lib, s[..p], key, t, s[p + 1..][..n - 1], l);
      assert s[..p + n] == s[..p] + ([COMMA] + s[p + 1..][..n - 1]);
      MembersDepthIs(Member(key, t, l));
    } else {
      PairsLast(lib, s[..p], key, t);
      MembersDepthIs(Member(key, t, NoMember));
    }
  }

  lemma MembersHave(lib: CLib, s: Bytes, k: nat)
    requires EndsNul(s) && ParseMembers(lib, s, k).Some?
    ensures ParseKey(s).Some? && EndsNul(s[ParseKey(s).value.1..])
    ensures ParseElement(lib, s[ParseKey(s).value.1..], k).Some?
  {
    hide ParseKey, ParseElement;
  }

  lemma PairsMore(lib: CLib, e: Bytes, key: Bytes, t: Json, more: Bytes, l: Members)
    requires NameAndValue(lib, Lax, e, key, t) && l.Member? && Pairs(lib, Lax, more, l)
    ensures Pairs(lib, Lax, e + ([COMMA] + more), Member(key, t, l))
  {
    hide NameAndValue, Ascii;
    Marks();
  }

  lemma PairsLast(lib: CLib, e: Bytes, key: Bytes, t: Json)
    requires NameAndValue(lib, Lax, e, key, t)
    ensures Pairs(lib, Lax, e, Member(key, t, NoMember))
  {
    hide NameAndValue;
  }

  /** Blanks in front of a name. */
  lemma PairPad(lib: CLib, b: Bytes, m: Bytes, key: Bytes, t: Json)
    requires Ws(Lax, b) && NameAndValue(lib, Lax, m, key, t)
    ensures NameAndValue(lib, Lax, b + m, key, t)
  {
    hide Element, StringOf, Ws, NameAndValue;
    var a, q, w, e := PairParts(lib, Lax, m, key, t);
    WsJoin(Lax, b, a);
    PairIntro(lib, Lax, b + a, q, w, e, key, t);
    Assoc(b, a, q + (w + ([COLON] + e)));
  }

  lemma PairsPad(lib: CLib, b: Bytes, m: Bytes, l: Members)
    requires Ws(Lax, b) && l.Member? && Pairs(lib, Lax, m, l)
    ensures Pairs(lib, Lax, b + m, l)
  {
    hide NameAndValue, Ws, Ascii;
    if l.next.NoMember? {
      PairPad(lib, b, m, l.key, l.value);
    } else {
      var e, more :|
        && NameAndValue(lib, Lax, e, l.key, l.value) && Pairs(lib, Lax, more, l.next)
        && m == e + (Ascii(",") + more);
      PairPad(lib, b, e, l.key, l.value);
      Assoc(b, e, Ascii(",") + more);
    }
  }

  /**
   Whatever C string `cJSON_ParseWithOpts` accepts, with its end required: behind a byte order
   mark stands a value between blanks, the one that is returned, nested at most 1000 deep.
   */
  lemma TextSound(lib: CLib, text: Bytes)
    requires Parse(lib, text, true).Some? && 0 !in text
    ensures
      var (t, e) := Parse(lib, text, true).value;
      var mark := if |text| > 3 && text[..3] == [0xEF, 0xBB, 0xBF] then 3 else 0;
      e == |text| && Element(lib, Lax, text[mark..], t) && Depth(t) <= 1000
  {
    hide ParseValue, Value, Depth, Ws, Skip, Element, Bom;
    var s, m := text + [0], Bom(text + [0]);
    MarkIs(text);
    var t, w, n, w2 := ParseParts(lib, text);
    ValueSound(lib, s[m + w..], 0);
    EndIs(text, m + w + n + w2);
    var p := m + w + n;
    SkippedBlanks(s[m..]);
    SkippedBlanks(s[p..]);
    Padded(lib, Lax, s[m..][..w], s[m + w..][..n], s[p..][..w2], t);
    TextParts(text, m, w, n, w2);
  }

  /** The tree, the blanks in front of it, the value and the blanks behind it. */
  lemma ParseParts(lib: CLib, text: Bytes) returns (t: Json, w: nat, n: nat, w2: nat)
    requires Parse(lib, text, true).Some?
    ensures
      var s, m := text + [0], Bom(text + [0]);
      && m < |s| && w == Skip(s[m..]) && m + w < |s| && EndsNul(s[m + w..])
      && ParseValue(lib, s[m + w..], 0) == Some((t, n)) && m + w + n < |s| && w2 == Skip(s[m + w + n..])
      && m + w + n + w2 < |s| && s[m + w + n + w2] == 0 && Parse(lib, text, true) == Some((t, m + w + n + w2))
  {
    hide ParseValue, Skip, Bom;
    var s, m := text + [0], Bom(text + [0]);
    w := Skip(s[m..]);
    TailNul(s, m + w);
    t, n := ParseValue(lib, s[m + w..], 0).value.0, ParseValue(lib, s[m + w..], 0).value.1;
    w2 := Skip(s[m + w + n..]);
  }

  lemma MarkIs(text: Bytes)
    ensures Bom(text + [0]) == if |text| > 3 && text[..3] == [0xEF, 0xBB, 0xBF] then 3 else 0
  {
    assert |text| > 3 ==> (text + [0])[..3] == text[..3];
  }

  lemma EndIs(text: Bytes, e: nat)
    requires 0 !in text && e <= |text| && (text + [0])[e] == 0
    ensures e == |text|
  {
  }

  lemma TextParts(text: Bytes, m: nat, w: nat, n: nat, w2: nat)
    requires m + w + n + w2 == |text|
    ensures
      var s := text + [0];
      text[m..] == s[m..][..w] + (s[m + w..][..n] + s[m + w + n..][..w2])
  {
  }
}
