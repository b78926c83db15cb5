/**
 The JSON grammar of RFC 8259 as a relation between a text and a tree, written over characters
 and without the functions of printer and parser.
 */
module JsonGrammar {
  import opened Options
  import opened JsonText
  import opened JsonString

  /**
   `Strict` is the grammar of sections 2 to 7. `Liberal` takes any control character as a blank
   and in a string, as the parser does. `Lax` adds what the parser makes of malformed text: `\u`
   escapes with invalid digits, numbers that `strtod` reads although they are not numbers of
   section 6, and zero bytes.
   */
  datatype Rule = Strict | Liberal | Lax

  // ---------- Blanks ----------

  predicate BlankIs(rule: Rule, b: Byte) {
    match rule
    case Strict => b as char in " \t\n\r"
    case Liberal => 0 < b && b as char <= ' '
    case Lax => b as char <= ' '
  }

  predicate Ws(rule: Rule, w: Bytes) {
    forall i :: 0 <= i < |w| ==> BlankIs(rule, w[i])
  }

  /** A byte that stands for itself in a string. */
  predicate RawIs(rule: Rule, b: Byte) {
    && b as char != '\\'
    && (!rule.Lax? ==> b as char != '\"')
    && (rule.Strict? ==> b as char >= ' ')
  }

  // ---------- Strings (section 7) ----------

  predicate HexIs(b: Byte, v: nat) {
    v < 16 && (b as char == "0123456789abcdef"[v] || b as char == "0123456789ABCDEF"[v])
  }

  ghost predicate HexNumber(h: Bytes, n: nat) {
    && |h| == 4
    && exists a: nat, b: nat, c: nat, d: nat ::
      HexIs(h[0], a) && HexIs(h[1], b) && HexIs(h[2], c) && HexIs(h[3], d) && n == a * 4096 + b * 256 + c * 16 + d
  }

  /** `m` is the UTF-8 encoding of the scalar value `cp`. */
  predicate EncodesOne(m: Bytes, cp: nat) {
    Utf8Read(m) == Some((cp, []))
  }

  predicate ShortIs(c: char, b: Byte) {
    || (c in "\"\\/" && b == c as int)
    || (c == 'b' && b == 8)
    || (c == 't' && b == 9)
    || (c == 'n' && b == 10)
    || (c == 'f' && b == 12)
    || (c == 'r' && b == 13)
  }

  ghost predicate UnitIs(p: Bytes, m: Bytes) {
    exists h, n: nat :: HexNumber(h, n) && p == Ascii("\\u") + h && EncodesOne(m, n)
  }

  ghost predicate PairIs(p: Bytes, m: Bytes) {
    exists h, l, a: nat, b: nat ::
      && HexNumber(h, a) && HexNumber(l, b) && 0xD800 <= a <= 0xDBFF && 0xDC00 <= b <= 0xDFFF
      && p == Ascii("\\u") + h + Ascii("\\u") + l && EncodesOne(m, 0x1_0000 + (a - 0xD800) * 0x400 + (b - 0xDC00))
  }

  /** An invalid digit makes the code point 0. */
  ghost predicate BadUnit(p: Bytes, m: Bytes) {
    |p| == 6 && p[..2] == Ascii("\\u") && m == [0] && forall n: nat :: !HexNumber(p[2..], n)
  }

  /** One character of a string, as `p` in the literal and `m` in memory. */
  ghost predicate CharIs(rule: Rule, p: Bytes, m: Bytes) {
    || (|p| == 1 && m == p && RawIs(rule, p[0]))
    || (|p| == 2 && p[0] as char == '\\' && |m| == 1 && ShortIs(p[1] as char, m[0]))
    || UnitIs(p, m)
    || PairIs(p, m)
    || (rule.Lax? && BadUnit(p, m))
  }

  datatype Spelt = Spelt(p: Bytes, m: Bytes)

  /** A backslash can be left at the end behind an escape with invalid digits; it stands for a quote. */
  ghost predicate AllSpelt(rule: Rule, cs: seq<Spelt>) {
    forall i :: 0 <= i < |cs| ==>
      || CharIs(rule, cs[i].p, cs[i].m)
      || (rule.Lax? && i == |cs| - 1 && cs[i] == Spelt(Ascii("\\"), Ascii("\"")))
  }

  function Literal(cs: seq<Spelt>): Bytes {
    if cs == [] then [] else cs[0].p + Literal(cs[1..])
  }

  function Memory(cs: seq<Spelt>): Bytes {
    if cs == [] then [] else cs[0].m + Memory(cs[1..])
  }

  /** No quote in `c` but behind a backslash, and no backslash that takes what follows `c`. */
  predicate Enclosed(c: Bytes) {
    || c == []
    || (c[0] as char !in "\"\\" && Enclosed(c[1..]))
    || (c[0] as char == '\\' && |c| > 1 && Enclosed(c[2..]))
  }

  ghost predicate CharsOf(rule: Rule, c: Bytes, v: Bytes) {
    exists cs :: AllSpelt(rule, cs) && c == Literal(cs) && v == Memory(cs)
  }

  ghost predicate StringOf(rule: Rule, s: Bytes, v: Bytes) {
    exists c :: s == Ascii("\"") + (c + Ascii("\"")) && CharsOf(rule, c, v) && (!rule.Lax? || Enclosed(c))
  }

  // ---------- Numbers (section 6) ----------

  predicate AllDigits(s: Bytes) {
    |s| > 0 && forall i :: 0 <= i < |s| ==> s[i] as char in "0123456789"
  }

  predicate IntPart(s: Bytes) {
    AllDigits(s) && (s[0] as char == '0' ==> |s| == 1)
  }

  predicate FracPart(s: Bytes) {
    s == [] || (s[0] as char == '.' && AllDigits(s[1..]))
  }

  predicate ExpPart(s: Bytes) {
    || s == []
    || (s[0] as char in "eE" && (AllDigits(s[1..]) || (|s| > 1 && s[1] as char in "+-" && AllDigits(s[2..]))))
  }

  ghost predicate RfcNumber(s: Bytes) {
    exists i, f, e ::
      IntPart(i) && FracPart(f) && ExpPart(e) && (s == i + (f + e) || s == Ascii("-") + (i + (f + e)))
  }

  /** The value of digits, the first one weighing most. */
  function Value10(s: Bytes): int {
    if s == [] then 0 else (s[0] as int - '0' as int) * Pow10(|s| - 1) + Value10(s[1..])
  }

  /** `strtod` reads `x` from the first `n` bytes of `s`; integers of at most 15 digits are exact. */
  ghost predicate Reads(lib: CLib, s: Bytes, x: real, n: nat) {
    if AllDigits(s) && |s| <= 15 then x == Value10(s) as real && n == |s|
    else if |s| > 0 && s[0] as char == '-' && AllDigits(s[1..]) && |s| <= 16 then
      x == -(Value10(s[1..]) as real) && n == |s|
    else lib.strtod(s) == (x, n)
  }

  /** The integer beside a double: cut off towards zero, and saturated. */
  predicate IntBeside(i: int, x: real) {
    if x >= 2147483647.0 then i == 2147483647
    else if x <= -2147483648.0 then i == -2147483648
    else if x >= 0.0 then i as real <= x < i as real + 1.0
    else i as real - 1.0 < x <= i as real
  }

  predicate NumberChars(s: Bytes) {
    forall i :: 0 <= i < |s| ==> s[i] as char in "0123456789+-.eE"
  }

  /** At most 63 bytes of a number go to `strtod`; in the text more of them may follow those it uses. */
  ghost predicate NumberOf(lib: CLib, rule: Rule, s: Bytes, i: int, x: real) {
    && 0 < |s| <= 63 && IntBeside(i, x)
    && if !rule.Lax? then RfcNumber(s) && Reads(lib, s, x, |s|)
      else s[0] as char in "-0123456789" && NumberChars(s) && exists more ::
        NumberChars(more) && |s + more| <= 63 && Reads(lib, s + more, x, |s|)
  }

  // ---------- Values (sections 3 to 5) ----------

  ghost predicate Value(lib: CLib, rule: Rule, s: Bytes, t: Json)
    decreases t, 0
  {
    match t
    case Null => s == Ascii("null")
    case False => s == Ascii("false")
    case True => s == Ascii("true")
    case Number(i, x) => NumberOf(lib, rule, s, i, x)
    case String(v) => StringOf(rule, s, v)
    case Array(l) =>
      exists m ::
        s == Ascii("[") + (m + Ascii("]")) && (if l.NoItem? then Ws(rule, m) else Elements(lib, rule, m, l))
    case Object(l) =>
      exists m ::
        s == Ascii("{") + (m + Ascii("}")) && (if l.NoMember? then Ws(rule, m) else Pairs(lib, rule, m, l))
  }

  /** A value with blanks around it; a JSON text is one. */
  ghost predicate Element(lib: CLib, rule: Rule, s: Bytes, t: Json)
    decreases t, 1
  {
    exists b, p, w :: Ws(rule, b) && Value(lib, rule, p, t) && Ws(rule, w) && s == b + (p + w)
  }

  ghost predicate Elements(lib: CLib, rule: Rule, s: Bytes, l: Items)
    requires l.Item?
    decreases l, 2
  {
    if l.next.NoItem? then Element(lib, rule, s, l.value)
    else
      exists e, more ::
        Element(lib, rule, e, l.value) && Elements(lib, rule, more, l.next) && s == e + (Ascii(",") + more)
  }

  /** A name and a value. */
  ghost predicate NameAndValue(lib: CLib, rule: Rule, s: Bytes, key: Bytes, t: Json)
    decreases t, 2
  {
    exists b, q, w, e ::
      && Ws(rule, b) && StringOf(rule, q, key) && Ws(rule, w) && Element(lib, rule, e, t)
      && s == b + (q + (w + (Ascii(":") + e)))
  }

  ghost predicate Pairs(lib: CLib, rule: Rule, s: Bytes, l: Members)
    requires l.Member?
    decreases l, 3
  {
    if l.next.NoMember? then NameAndValue(lib, rule, s, l.key, l.value)
    else
      exists e, more ::
        && NameAndValue(lib, rule, e, l.key, l.value) && Pairs(lib, rule, more, l.next)
        && s == e + (Ascii(",") + more)
  }
}
