/**
 The tree of cJSON and the text it stands for, as pure functions: what the printer has to
 produce and the parser has to read back.
 */
module JsonText {
  type Byte = b: int | 0 <= b < 256
  type Bytes = seq<Byte>

  /** ASCII characters as bytes. */
  function Ascii(s: string): (r: Bytes)
    requires forall i :: 0 <= i < |s| ==> s[i] < 128 as char
    ensures |r| == |s| && forall i :: 0 <= i < |s| ==> r[i] == s[i] as int
  {
    seq(|s|, i requires 0 <= i < |s| => s[i] as int)
  }

  const QUOTE: Byte := 34
  const BACKSLASH: Byte := 92
  const COMMA: Byte := 44
  const COLON: Byte := 58
  const TAB: Byte := 9
  const NEWLINE: Byte := 10
  const SPACE: Byte := 32
  const SLASH: Byte := 47
  const STAR: Byte := 42
  const MINUS: Byte := 45
  const OPEN_ARRAY: Byte := 91
  const CLOSE_ARRAY: Byte := 93
  const OPEN_OBJECT: Byte := 123
  const CLOSE_OBJECT: Byte := 125

  const NULL_TEXT: Bytes := [110, 117, 108, 108]
  const FALSE_TEXT: Bytes := [102, 97, 108, 115, 101]
  const TRUE_TEXT: Bytes := [116, 114, 117, 101]

  const INT_MAX: int := 0x7FFF_FFFF
  const INT_MIN: int := -0x8000_0000

  datatype Json =
    | Null
    | False
    | True
    | Number(valueint: int, valuedouble: real)
    | String(text: Bytes)
    | Array(items: Items)
    | Object(members: Members)

  /** The `next` chain of an array's children. */
  datatype Items = NoItem | Item(value: Json, next: Items)

  /** The `next` chain of an object's children, each with its name. */
  datatype Members = NoMember | Member(key: Bytes, value: Json, next: Members)

  /** The C library calls on numbers: `strtod` gives a value and the bytes it used. */
  datatype CLib = CLib(strtod: Bytes -> (real, nat), sprintf: real -> Bytes)

  // ---------- Strings ----------

  function HexDigit(d: nat): Byte
    requires d < 16
  {
    if d < 10 then 48 + d else 87 + d
  }

  /** One byte of a string as `print_string_ptr` writes it. */
  function EscapeByte(b: Byte): (r: Bytes)
    ensures |r| > 0
  {
    if b == QUOTE || b == BACKSLASH then [BACKSLASH, b]
    else if b == 8 then [BACKSLASH, 98]
    else if b == 12 then [BACKSLASH, 102]
    else if b == 10 then [BACKSLASH, 110]
    else if b == 13 then [BACKSLASH, 114]
    else if b == 9 then [BACKSLASH, 116]
    else if b < 32 then [BACKSLASH, 117, 48, 48, HexDigit(b / 16), HexDigit(b % 16)]
    else [b]
  }

  function Escape(s: Bytes): Bytes {
    if s == [] then [] else EscapeByte(s[0]) + Escape(s[1..])
  }

  function Quoted(s: Bytes): Bytes {
    [QUOTE] + Escape(s) + [QUOTE]
  }

  /** A C string holds no NUL. */
  predicate NulFree(s: Bytes) {
    forall i :: 0 <= i < |s| ==> s[i] != 0
  }

  // ---------- Numbers ----------

  predicate IsDigit(b: Byte) {
    48 <= b <= 57
  }

  function Digits(n: nat): (r: Bytes)
    ensures |r| > 0
  {
    if n < 10 then [48 + n] else Digits(n / 10) + [48 + n % 10]
  }

  /** An integer as `sprintf` writes it. */
  function Decimal(n: int): (r: Bytes)
    ensures |r| > 0
  {
    if n < 0 then [MINUS] + Digits(-n) else Digits(n)
  }

  predicate IsInt(d: real) {
    INT_MIN <= d.Floor <= INT_MAX && d == d.Floor as real
  }

  /** What `print_number` prints; for numbers that are not 32-bit integers the C library decides. */
  function NumberText(lib: CLib, d: real): Bytes {
    if IsInt(d) then Decimal(d.Floor) else lib.sprintf(d)
  }

  /** The bytes that `parse_number` copies for `strtod`. */
  predicate NumberByte(b: Byte) {
    IsDigit(b) || b == 43 || b == MINUS || b == 101 || b == 69 || b == 46
  }

  predicate AllNumberBytes(s: Bytes) {
    forall i :: 0 <= i < |s| ==> NumberByte(s[i])
  }

  /** The saturated integer beside the double. */
  function Saturated(d: real): int {
    if d >= INT_MAX as real then INT_MAX
    else if d <= INT_MIN as real then INT_MIN
    else if d >= 0.0 then d.Floor
    else -((-d).Floor)
  }

  // ---------- The text of a tree ----------

  function Tabs(n: nat): (r: Bytes)
    ensures |r| == n && forall i :: 0 <= i < n ==> r[i] == TAB
  {
    seq(n, _ => TAB)
  }

  /** The tabs in front of a line of a formatted text. */
  function Lead(fmt: bool, d: nat): Bytes {
    if fmt then Tabs(d) else []
  }

  function LineEnd(fmt: bool): Bytes {
    if fmt then [NEWLINE] else []
  }

  function AfterComma(fmt: bool): Bytes {
    if fmt then [SPACE] else []
  }

  function AfterColon(fmt: bool): Bytes {
    if fmt then [TAB] else []
  }

  /** The text of `t` at nesting depth `d`, formatted or not. */
  function Print(lib: CLib, t: Json, fmt: bool, d: nat): Bytes
    decreases t, 0
  {
    match t
    case Null => NULL_TEXT
    case False => FALSE_TEXT
    case True => TRUE_TEXT
    case Number(_, x) => NumberText(lib, x)
    case String(s) => Quoted(s)
    case Array(items) => [OPEN_ARRAY] + (PrintItems(lib, items, fmt, d + 1) + [CLOSE_ARRAY])
    case Object(members) =>
      [OPEN_OBJECT]
      + (LineEnd(fmt) + (PrintMembers(lib, members, fmt, d + 1) + (Lead(fmt, d) + [CLOSE_OBJECT])))
  }

  function PrintItems(lib: CLib, l: Items, fmt: bool, d: nat): Bytes
    decreases l, 0
  {
    match l
    case NoItem => []
    case Item(v, next) => Print(lib, v, fmt, d) + PrintNextItem(lib, next, fmt, d)
  }

  function PrintNextItem(lib: CLib, l: Items, fmt: bool, d: nat): Bytes
    decreases l, 1
  {
    if l.NoItem? then [] else [COMMA] + (AfterComma(fmt) + PrintItems(lib, l, fmt, d))
  }

  function PrintMembers(lib: CLib, l: Members, fmt: bool, d: nat): Bytes
    decreases l, 1
  {
    if l.NoMember? then [] else Lead(fmt, d) + PrintMember(lib, l, fmt, d)
  }

  /** The first member of `l`, without the tabs in front, and the others. */
  function PrintMember(lib: CLib, l: Members, fmt: bool, d: nat): Bytes
    requires l.Member?
    decreases l, 0
  {
    Quoted(l.key) + ([COLON] + (AfterColon(fmt) + (Print(lib, l.value, fmt, d) + PrintNextMember(lib, l.next, fmt, d))))
  }

  function PrintNextMember(lib: CLib, l: Members, fmt: bool, d: nat): Bytes
    decreases l, 2
  {
    if l.NoMember? then LineEnd(fmt) else [COMMA] + (LineEnd(fmt) + PrintMembers(lib, l, fmt, d))
  }

  // ---------- Which trees ----------

  /** Arrays and objects around the deepest value. */
  function Depth(t: Json): nat {
    match t
    case Array(items) => 1 + ItemsDepth(items)
    case Object(members) => 1 + MembersDepth(members)
    case _ => 0
  }

  function Max(a: nat, b: nat): nat {
    if a < b then b else a
  }

  function ItemsDepth(l: Items): nat {
    match l
    case NoItem => 0
    case Item(v, next) => Max(Depth(v), ItemsDepth(next))
  }

  function MembersDepth(l: Members): nat {
    match l
    case NoMember => 0
    case Member(_, v, next) => Max(Depth(v), MembersDepth(next))
  }

  /** What the C library must do for the double `x` to survive printing and parsing. */
  predicate NumberOk(lib: CLib, x: real) {
    var s := NumberText(lib, x);
    && 0 < |s| <= 25 && AllNumberBytes(s) && (s[0] == MINUS || IsDigit(s[0]))
    && StrTod(lib, s) == (x, |s|)
  }

  predicate FewDigits(s: Bytes) {
    0 < |s| <= 15 && forall i :: 0 <= i < |s| ==> IsDigit(s[i])
  }

  predicate IntLiteral(s: Bytes) {
    if |s| > 0 && s[0] == MINUS then FewDigits(s[1..]) else FewDigits(s)
  }

  function DigitsValue(s: Bytes): int {
    if s == [] then 0 else DigitsValue(s[..|s| - 1]) * 10 + (s[|s| - 1] as int - 48)
  }

  /** `strtod`: integer literals of up to 15 digits are read exactly, the rest is the library's. */
  function StrTod(lib: CLib, s: Bytes): (r: (real, nat))
    ensures r.1 <= |s|
  {
    if IntLiteral(s) then
      ((if s[0] == MINUS then -DigitsValue(s[1..]) else DigitsValue(s)) as real, |s|)
    else
      var r := lib.strtod(s);
      if r.1 <= |s| then r else (0.0, 0)
  }

  /** Strings are C strings, numbers are ones the C library reads back, with the integer kept beside them. */
  predicate Wf(lib: CLib, t: Json) {
    match t
    case Number(i, x) => i == Saturated(x) && NumberOk(lib, x)
    case String(s) => NulFree(s)
    case Array(items) => WfItems(lib, items)
    case Object(members) => WfMembers(lib, members)
    case _ => true
  }

  predicate WfItems(lib: CLib, l: Items) {
    match l
    case NoItem => true
    case Item(v, next) => Wf(lib, v) && WfItems(lib, next)
  }

  predicate WfMembers(lib: CLib, l: Members) {
    match l
    case NoMember => true
    case Member(k, v, next) => NulFree(k) && Wf(lib, v) && WfMembers(lib, next)
  }

  // ---------- 32-bit integers ----------

  lemma {:induction false} DigitsBack(n: nat)
    ensures DigitsValue(Digits(n)) == n && forall i :: 0 <= i < |Digits(n)| ==> IsDigit(Digits(n)[i])
  {
    if n >= 10 {
      DigitsBack(n / 10);
      var s := Digits(n);
      assert s[..|s| - 1] == Digits(n / 10);
    } else {
      var s := Digits(n);
      assert s[..|s| - 1] == [];
    }
  }

  lemma {:induction false} DigitsCount(n: nat, k: nat)
    requires k > 0 && n < Pow10(k)
    ensures |Digits(n)| <= k
  {
    var p := Pow10(k - 1);
    assert Pow10(k) == 10 * p;
    if n >= 10 {
      assert k > 1 && n / 10 < p;
      DigitsCount(n / 10, k - 1);
    }
  }

  function Pow10(k: nat): nat {
    if k == 0 then 1 else 10 * Pow10(k - 1)
  }

  /** Every 32-bit integer survives, whatever the library does with other numbers. */
  lemma IntegersOk(lib: CLib, n: int)
    requires INT_MIN <= n <= INT_MAX
    ensures NumberText(lib, n as real) == Decimal(n) && NumberOk(lib, n as real) && Saturated(n as real) == n
  {
    var m := if n < 0 then -n else n;
    DigitsBack(m);
    assert Pow10(10) == 10_000_000_000 by {
      assert Pow10(5) == 100_000;
    }
    DigitsCount(m, 10);
    var s := Decimal(n);
    assert (n as real).Floor == n;
    if n < 0 {
      assert s[1..] == Digits(m);
      assert (-(n as real)).Floor == m;
    }
  }

  /** Every number that is not a 32-bit integer is printed by the C library. */
  lemma OtherNumbers(lib: CLib, x: real)
    requires x.Floor as real != x || x < -2147483648.0 || x > 2147483647.0
    ensures NumberText(lib, x) == lib.sprintf(x)
  {
  }

  // ---------- Sequences ----------

  lemma Assoc(a: Bytes, b: Bytes, c: Bytes)
    ensures (a + b) + c == a + (b + c)
  {
  }

  lemma Empty(a: Bytes)
    ensures [] + a == a && a + [] == a
  {
  }

  lemma Behind(p: Bytes, s: Bytes)
    ensures (p + s)[|p|..] == s
  {
  }
}
