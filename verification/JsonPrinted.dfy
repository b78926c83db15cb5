/** The printer writes texts of the grammar that stand for the printed tree. */
module JsonPrinted {
  import opened JsonText
  import opened JsonString
  import opened JsonGrammar
  import opened JsonAccepts

  // ---------- Strings ----------

  lemma HexDigitOf(d: nat)
    requires d < 16
    ensures HexIs(HexDigit(d), d)
  {
    assert "0123456789abcdef"[d] as int == if d < 10 then 48 + d else 87 + d;
  }

  lemma ByteHex(b: Byte)
    requires b < 32
    ensures HexNumber([48, 48, HexDigit(b / 16), HexDigit(b % 16)], b)
  {
    var h: Bytes := [48, 48, HexDigit(b / 16), HexDigit(b % 16)];
    HexDigitOf(0);
    HexDigitOf(b / 16);
    HexDigitOf(b % 16);
    hide HexIs, HexDigit;
    assert HexIs(h[0], 0) && HexIs(h[1], 0) && HexIs(h[2], b / 16) && HexIs(h[3], b % 16);
    assert b == 0 * 4096 + 0 * 256 + b / 16 * 16 + b % 16;
  }

  lemma ByteUnit(b: Byte)
    requires b < 32
    ensures UnitIs([BACKSLASH, 117, 48, 48, HexDigit(b / 16), HexDigit(b % 16)], [b])
  {
    hide HexNumber, HexDigit;
    Marks();
    ByteHex(b);
    var h: Bytes := [48, 48, HexDigit(b / 16), HexDigit(b % 16)];
    assert [BACKSLASH, 117, 48, 48, HexDigit(b / 16), HexDigit(b % 16)] == Ascii("\\u") + h;
    assert [b][1..] == [];
    assert EncodesOne([b], b);
  }

  lemma EscapedByte(b: Byte)
    ensures CharIs(Strict, EscapeByte(b), [b])
  {
    hide UnitIs, PairIs;
    if |EscapeByte(b)| == 6 {
      ByteUnit(b);
    }
  }

  lemma {:induction false} EscapedChars(s: Bytes) returns (cs: seq<Spelt>)
    ensures AllSpelt(Strict, cs) && Literal(cs) == Escape(s) && Memory(cs) == s
  {
    hide CharIs, EscapeByte;
    if s == [] {
      cs := [];
    } else {
      EscapedByte(s[0]);
      var tail := EscapedChars(s[1..]);
      cs := [Spelt(EscapeByte(s[0]), [s[0]])] + tail;
      assert cs[1..] == tail;
    }
  }

  lemma QuotedString(s: Bytes)
    ensures StringOf(Strict, Quoted(s), s)
  {
    hide AllSpelt, Literal, Memory, Escape;
    var cs := EscapedChars(s);
    Marks();
    assert CharsOf(Strict, Escape(s), s);
    Assoc([QUOTE], Escape(s), [QUOTE]);
  }

  // ---------- Numbers ----------

  /** No integer is written with a zero in front. */
  lemma {:induction false} DigitsHead(n: nat)
    ensures n > 0 ==> Digits(n)[0] != 48
    ensures n == 0 ==> Digits(n) == [48]
  {
    if n >= 10 {
      DigitsHead(n / 10);
    }
  }

  lemma IntegerIsRfc(n: int)
    ensures RfcNumber(Decimal(n))
  {
    hide Digits;
    var m := if n < 0 then -n else n;
    var i := Digits(m);
    DigitsHead(m);
    DigitsBack(m);
    DigitsAre(i);
    Marks();
    assert IntPart(i) && FracPart([]) && ExpPart([]);
    assert i + ([] + []) == i;
  }

  /** Numbers that the C library prints are numbers of section 6. */
  ghost predicate RfcNumbers(lib: CLib, t: Json) {
    match t
    case Number(_, x) => IsInt(x) || RfcNumber(lib.sprintf(x))
    case Array(items) => RfcItems(lib, items)
    case Object(members) => RfcMembers(lib, members)
    case _ => true
  }

  ghost predicate RfcItems(lib: CLib, l: Items) {
    match l
    case NoItem => true
    case Item(v, next) => RfcNumbers(lib, v) && RfcItems(lib, next)
  }

  ghost predicate RfcMembers(lib: CLib, l: Members) {
    match l
    case NoMember => true
    case Member(_, v, next) => RfcNumbers(lib, v) && RfcMembers(lib, next)
  }

  lemma StrTodIs(lib: CLib, s: Bytes, x: real, n: nat)
    requires StrTod(lib, s) == (x, n) && n > 0 && |s| > 0
    ensures Reads(lib, s, x, n)
  {
    hide AllDigits, DigitsValue, Value10, IntLiteral;
    DigitsAre(s);
    LiteralIs(s);
    Value10Is(s);
    if s[0] == MINUS {
      Value10Is(s[1..]);
    }
  }

  lemma BesideIs(x: real)
    ensures IntBeside(Saturated(x), x)
  {
  }

  lemma NumberPrinted(lib: CLib, i: int, x: real)
    requires i == Saturated(x) && NumberOk(lib, x) && (IsInt(x) || RfcNumber(lib.sprintf(x)))
    ensures NumberOf(lib, Strict, NumberText(lib, x), i, x)
  {
    hide Decimal, StrTod, Reads, Saturated, RfcNumber;
    BesideIs(x);
    if IsInt(x) {
      IntegerIsRfc(x.Floor);
    }
    StrTodIs(lib, NumberText(lib, x), x, |NumberText(lib, x)|);
  }

  // ---------- Values ----------

  lemma BlanksWs(fmt: bool, d: nat)
    ensures Ws(Strict, LineEnd(fmt)) && Ws(Strict, Lead(fmt, d))
    ensures Ws(Strict, AfterComma(fmt)) && Ws(Strict, AfterColon(fmt)) && Ws(Strict, [])
  {
    assert " \t\n\r" == [' ', '\t', '\n', '\r'];
  }

  lemma WsJoin(rule: Rule, a: Bytes, b: Bytes)
    requires Ws(rule, a) && Ws(rule, b)
    ensures Ws(rule, a + b)
  {
  }

  /** Blanks around a value. */
  lemma Padded(lib: CLib, rule: Rule, b: Bytes, p: Bytes, w: Bytes, t: Json)
    requires Ws(rule, b) && Value(lib, rule, p, t) && Ws(rule, w)
    ensures Element(lib, rule, b + (p + w), t)
  {
    hide Value, Ws;
  }

  lemma {:induction false} ValuePrinted(lib: CLib, t: Json, fmt: bool, d: nat)
    requires Wf(lib, t) && RfcNumbers(lib, t)
    ensures Value(lib, Strict, Print(lib, t, fmt, d), t)
    decreases t, 0
  {
    hide Ascii, PrintItems, PrintMembers, Elements, Pairs, Quoted, NumberText, StringOf, NumberOf, NumberOk, RfcNumber,
      Ws;
    Marks();
    match t
    case Number(i, x) => NumberPrinted(lib, i, x);
    case String(s) => QuotedString(s);
    case Array(l) =>
      BlanksWs(fmt, d);
      if l.Item? {
        ItemsPrinted(lib, l, fmt, d + 1, []);
        Empty(PrintItems(lib, l, fmt, d + 1));
      } else {
        ItemsNone(lib, fmt, d + 1);
      }
      assert Print(lib, t, fmt, d) == Ascii("[") + (PrintItems(lib, l, fmt, d + 1) + Ascii("]"));
    case Object(l) => ObjectPrinted(lib, l, fmt, d);
    case _ =>
  }

  lemma ItemsNone(lib: CLib, fmt: bool, d: nat)
    ensures PrintItems(lib, NoItem, fmt, d) == [] && PrintMembers(lib, NoMember, fmt, d) == []
  {
  }

  lemma {:induction false} ItemsPrinted(lib: CLib, l: Items, fmt: bool, d: nat, b: Bytes)
    requires l.Item? && WfItems(lib, l) && RfcItems(lib, l) && Ws(Strict, b)
    ensures Elements(lib, Strict, b + PrintItems(lib, l, fmt, d), l)
    decreases l, 1
  {
    hide Print, Element, Value, Ws, Wf, RfcNumbers, Ascii;
    var p := Print(lib, l.value, fmt, d);
    BlanksWs(fmt, d);
    ValuePrinted(lib, l.value, fmt, d);
    Padded(lib, Strict, b, p, [], l.value);
    Empty(p);
    if l.next.Item? {
      Marks();
      ItemsPrinted(lib, l.next, fmt, d, AfterComma(fmt));
      Assoc(b, p, [COMMA] + (AfterComma(fmt) + PrintItems(lib, l.next, fmt, d)));
    }
  }

  /** The text between the braces. */
  lemma {:induction false} ObjectPrinted(lib: CLib, l: Members, fmt: bool, d: nat)
    requires WfMembers(lib, l) && RfcMembers(lib, l)
    ensures Value(lib, Strict, Print(lib, Object(l), fmt, d), Object(l))
    decreases l, 4
  {
    hide Ascii, PrintMembers, Pairs, Ws, LineEnd, Lead;
    Marks();
    BlanksWs(fmt, d);
    var m := LineEnd(fmt) + (PrintMembers(lib, l, fmt, d + 1) + Lead(fmt, d));
    if l.Member? {
      PairsPrinted(lib, l, fmt, d + 1, LineEnd(fmt), Lead(fmt, d));
    } else {
      ItemsNone(lib, fmt, d + 1);
      Empty(Lead(fmt, d));
      WsJoin(Strict, LineEnd(fmt), Lead(fmt, d));
    }
    Assoc(PrintMembers(lib, l, fmt, d + 1), Lead(fmt, d), [CLOSE_OBJECT]);
    Assoc(LineEnd(fmt), PrintMembers(lib, l, fmt, d + 1) + Lead(fmt, d), [CLOSE_OBJECT]);
    assert Print(lib, Object(l), fmt, d) == Ascii("{") + (m + Ascii("}"));
  }

  /** One name and value, with the blanks the printer sets around them. */
  lemma {:induction false} PairPrinted(lib: CLib, key: Bytes, t: Json, fmt: bool, d: nat, b: Bytes, w: Bytes)
    requires Wf(lib, t) && RfcNumbers(lib, t) && Ws(Strict, b) && Ws(Strict, w)
    ensures NameAndValue(lib, Strict,
      b + (Quoted(key) + ([COLON] + (AfterColon(fmt) + (Print(lib, t, fmt, d) + w)))), key, t)
    decreases t, 5
  {
    hide Ascii, Print, Element, Value, Ws, Quoted, StringOf, AfterColon, Wf, RfcNumbers;
    Marks();
    BlanksWs(fmt, d);
    ValuePrinted(lib, t, fmt, d);
    QuotedString(key);
    var e := AfterColon(fmt) + (Print(lib, t, fmt, d) + w);
    Padded(lib, Strict, AfterColon(fmt), Print(lib, t, fmt, d), w, t);
    Empty([COLON] + e);
    assert b + (Quoted(key) + ([COLON] + e)) == b + (Quoted(key) + ([] + (Ascii(":") + e)));
  }

  lemma {:induction false} PairsPrinted(lib: CLib, l: Members, fmt: bool, d: nat, b: Bytes, z: Bytes)
    requires l.Member? && WfMembers(lib, l) && RfcMembers(lib, l) && Ws(Strict, b) && Ws(Strict, z)
    ensures Pairs(lib, Strict, b + (PrintMembers(lib, l, fmt, d) + z), l)
    decreases l, 3
  {
    hide Ascii, Print, NameAndValue, Ws, Wf, RfcNumbers, Quoted, LineEnd, Lead, AfterColon, PrintMembers;
    BlanksWs(fmt, d);
    WsJoin(Strict, b, Lead(fmt, d));
    var ln := LineEnd(fmt);
    PairsText(lib, l, fmt, d, b, z);
    if l.next.NoMember? {
      WsJoin(Strict, ln, z);
      PairPrinted(lib, l.key, l.value, fmt, d, b + Lead(fmt, d), ln + z);
    } else {
      Marks();
      PairsPrinted(lib, l.next, fmt, d, ln, z);
      PairPrinted(lib, l.key, l.value, fmt, d, b + Lead(fmt, d), []);
    }
  }

  /** The text of a member, up to its delimiter. */
  function PairSpelled(lib: CLib, l: Members, fmt: bool, d: nat, b: Bytes, w: Bytes): Bytes
    requires l.Member?
  {
    (b + Lead(fmt, d)) + (Quoted(l.key) + ([COLON] + (AfterColon(fmt) + (Print(lib, l.value, fmt, d) + w))))
  }

  lemma PairsText(lib: CLib, l: Members, fmt: bool, d: nat, b: Bytes, z: Bytes)
    requires l.Member?
    ensures b + (PrintMembers(lib, l, fmt, d) + z)
      == if l.next.NoMember? then PairSpelled(lib, l, fmt, d, b, LineEnd(fmt) + z)
        else
          PairSpelled(lib, l, fmt, d, b, [])
          + ([COMMA] + (LineEnd(fmt) + (PrintMembers(lib, l.next, fmt, d) + z)))
  {
    hide Print, Quoted, LineEnd, Lead, AfterColon;
    var ld, q, g, p := Lead(fmt, d), Quoted(l.key), AfterColon(fmt), Print(lib, l.value, fmt, d);
    var n := PrintNextMember(lib, l.next, fmt, d);
    MemberShape(b, ld, q, g, p, n, z);
    if l.next.Member? {
      var m := PrintMembers(lib, l.next, fmt, d);
      Assoc([COMMA], LineEnd(fmt) + m, z);
      Assoc(LineEnd(fmt), m, z);
      MemberShape(b, ld, q, g, p, [], n + z);
      Empty(p);
      Empty(n + z);
      MemberEnd(b + ld, q, g, p, n + z);
    }
  }

  lemma MemberShape(b: Bytes, ld: Bytes, q: Bytes, g: Bytes, p: Bytes, n: Bytes, z: Bytes)
    ensures b + ((ld + (q + ([COLON] + (g + (p + n))))) + z) == (b + ld) + (q + ([COLON] + (g + (p + (n + z)))))
  {
    Assoc(ld, q + ([COLON] + (g + (p + n))), z);
    Assoc(q, [COLON] + (g + (p + n)), z);
    Assoc([COLON], g + (p + n), z);
    Assoc(g, p + n, z);
    Assoc(p, n, z);
    Assoc(b, ld, q + ([COLON] + (g + (p + (n + z)))));
  }

  lemma MemberEnd(b: Bytes, q: Bytes, g: Bytes, p: Bytes, r: Bytes)
    ensures (b + (q + ([COLON] + (g + (p + []))))) + r == b + (q + ([COLON] + (g + (p + r))))
  {
    Empty(p);
    Assoc(b, q + ([COLON] + (g + p)), r);
    Assoc(q, [COLON] + (g + p), r);
    Assoc([COLON], g + p, r);
    Assoc(g, p, r);
  }

  /** A printed tree, formatted or not, is a text of RFC 8259 that stands for the tree. */
  lemma TextPrinted(lib: CLib, t: Json, fmt: bool)
    requires Wf(lib, t) && RfcNumbers(lib, t)
    ensures Element(lib, Strict, Print(lib, t, fmt, 0), t)
  {
    hide Print, Element, Value, Wf, RfcNumbers;
    var p := Print(lib, t, fmt, 0);
    ValuePrinted(lib, t, fmt, 0);
    BlanksWs(fmt, 0);
    Padded(lib, Strict, [], p, [], t);
    Empty(p);
  }
}
