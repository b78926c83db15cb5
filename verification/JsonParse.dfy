/**
 The grammar that the recursive parser accepts, as functions on the input left to read, and what
 they do with the scalars, blanks and tokens that the printer writes.
 */
module JsonParse {
  import opened Options
  import opened JsonText
  import opened JsonString

  const NESTING_LIMIT: nat := 1000

  /** The input always ends with the NUL of the C string. */
  predicate EndsNul(s: Bytes) {
    |s| > 0 && s[|s| - 1] == 0
  }

  lemma TailNul(s: Bytes, w: nat)
    requires EndsNul(s) && w < |s|
    ensures EndsNul(s[w..])
  {
  }

  /** `buffer_skip_whitespace`: it never leaves the last byte. */
  function Skip(s: Bytes): (r: nat)
    requires |s| > 0
    ensures r < |s|
  {
    if |s| == 1 || s[0] > 32 then 0 else 1 + Skip(s[1..])
  }

  predicate StartsWith(s: Bytes, p: Bytes) {
    |p| <= |s| && s[..|p|] == p
  }

  /** The bytes `parse_number` hands to `strtod`, at most `max`. */
  function TokenLen(s: Bytes, max: nat): (r: nat)
    ensures r <= |s| && r <= max
  {
    if s == [] || max == 0 || !NumberByte(s[0]) then 0 else 1 + TokenLen(s[1..], max - 1)
  }

  function ParseNumber(lib: CLib, s: Bytes): (r: Option<(Json, nat)>)
    ensures r.Some? ==> 0 < r.value.1 <= TokenLen(s, 63)
  {
    var (x, n) := StrTod(lib, s[..TokenLen(s, 63)]);
    if n == 0 then None else Some((Number(Saturated(x), x), n))
  }

  /** A position of the input; behind a byte other than the NUL there is one more. */
  predicate Pos(s: Bytes, o: nat) {
    EndsNul(s) && o < |s|
  }

  /** The position behind the blanks. */
  function SkipAt(s: Bytes, o: nat): (r: nat)
    requires Pos(s, o)
    ensures o <= r < |s|
  {
    TailNul(s, o);
    o + Skip(s[o..])
  }

  lemma TokenEnds(s: Bytes, max: nat)
    requires EndsNul(s)
    ensures TokenLen(s, max) < |s|
  {
  }

  /** `parse_value` at depth `k`: the value and the bytes used. */
  function ParseValue(lib: CLib, s: Bytes, k: nat): (r: Option<(Json, nat)>)
    requires EndsNul(s)
    ensures r.Some? ==> 0 < r.value.1 < |s|
    decreases |s|, 1
  {
    if StartsWith(s, NULL_TEXT) then assert s[3] != 0; Some((Null, 4))
    else if StartsWith(s, FALSE_TEXT) then assert s[4] != 0; Some((False, 5))
    else if StartsWith(s, TRUE_TEXT) then assert s[3] != 0; Some((True, 4))
    else if s[0] == QUOTE then
      var r := ParseString(s);
      if r.None? then None else Some((String(r.value.0), r.value.1))
    else if s[0] == MINUS || IsDigit(s[0]) then TokenEnds(s, 63); ParseNumber(lib, s)
    else if s[0] == OPEN_ARRAY then ParseArray(lib, s, k)
    else if s[0] == OPEN_OBJECT then ParseObject(lib, s, k)
    else None
  }

  function ParseArray(lib: CLib, s: Bytes, k: nat): (r: Option<(Json, nat)>)
    requires EndsNul(s) && s[0] == OPEN_ARRAY
    ensures r.Some? ==> 0 < r.value.1 < |s|
    decreases |s|, 0
  {
    if k >= NESTING_LIMIT then None
    else
      var a := 1 + Skip(s[1..]);
      if s[a] == CLOSE_ARRAY then Some((Array(NoItem), a + 1))
      else
        var r := ParseItems(lib, s[a..], k + 1);
        if r.None? then None else Some((Array(r.value.0), a + r.value.1))
  }

  /** A value and the blanks around it. */
  function ParseElement(lib: CLib, s: Bytes, k: nat): (r: Option<(Json, nat)>)
    requires EndsNul(s)
    ensures r.Some? ==> 0 < r.value.1 < |s|
    decreases |s|, 2
  {
    var w := Skip(s);
    var v := ParseValue(lib, s[w..], k);
    if v.None? then None else Some((v.value.0, w + v.value.1 + Skip(s[w + v.value.1..])))
  }

  /** A value in front of the elements that follow it. */
  function Before(v: Json, n: nat, r: Option<(Items, nat)>): Option<(Items, nat)> {
    if r.None? then None else Some((Item(v, r.value.0), n + r.value.1))
  }

  /** A member in front of those that follow it. */
  function BeforeMember(key: Bytes, v: Json, n: nat, r: Option<(Members, nat)>): Option<(Members, nat)> {
    if r.None? then None else Some((Member(key, v, r.value.0), n + r.value.1))
  }

  /** The elements up to and with the closing bracket. */
  function ParseItems(lib: CLib, s: Bytes, k: nat): (r: Option<(Items, nat)>)
    requires EndsNul(s)
    ensures r.Some? ==> 0 < r.value.1 < |s|
    decreases |s|, 3
  {
    var v := ParseElement(lib, s, k);
    if v.None? then None
    else
      var p := v.value.1;
      if s[p] == COMMA then
        Before(v.value.0, p + 1, ParseItems(lib, s[p + 1..], k))
      else if s[p] == CLOSE_ARRAY then Some((Item(v.value.0, NoItem), p + 1))
      else None
  }

  function ParseObject(lib: CLib, s: Bytes, k: nat): (r: Option<(Json, nat)>)
    requires EndsNul(s) && s[0] == OPEN_OBJECT
    ensures r.Some? ==> 0 < r.value.1 < |s|
    decreases |s|, 0
  {
    if k >= NESTING_LIMIT then None
    else
      var a := 1 + Skip(s[1..]);
      if s[a] == CLOSE_OBJECT then Some((Object(NoMember), a + 1))
      else
        var r := ParseMembers(lib, s[a..], k + 1);
        if r.None? then None else Some((Object(r.value.0), a + r.value.1))
  }

  /** The name of a member, the blanks around it and the colon. */
  function ParseKey(s: Bytes): (r: Option<(Bytes, nat)>)
    requires EndsNul(s)
    ensures r.Some? ==> 0 < r.value.1 < |s|
  {
    var w := Skip(s);
    TailNul(s, w);
    var key := ParseString(s[w..]);
    if key.None? then None
    else
      var p := SkipAt(s, w + key.value.1);
      if s[p] != COLON then None else Some((key.value.0, p + 1))
  }

  /** The members up to and with the closing brace. */
  function ParseMembers(lib: CLib, s: Bytes, k: nat): (r: Option<(Members, nat)>)
    requires EndsNul(s)
    ensures r.Some? ==> 0 < r.value.1 < |s|
    decreases |s|, 3
  {
    var key := ParseKey(s);
    if key.None? then None
    else
      var a := key.value.1;
      var v := ParseElement(lib, s[a..], k);
      if v.None? then None
      else
        var p := a + v.value.1;
        if s[p] == COMMA then
          BeforeMember(key.value.0, v.value.0, p + 1, ParseMembers(lib, s[p + 1..], k))
        else if s[p] == CLOSE_OBJECT then Some((Member(key.value.0, v.value.0, NoMember), p + 1))
        else None
  }

  /** `skip_utf8_bom` */
  function Bom(s: Bytes): (r: nat)
    ensures EndsNul(s) ==> r < |s|
  {
    if |s| > 4 && s[..3] == [0xEF, 0xBB, 0xBF] then 3 else 0
  }

  /** `cJSON_ParseWithOpts` on a C string: the tree and where parsing ended. */
  function Parse(lib: CLib, text: Bytes, requireEnd: bool): Option<(Json, nat)> {
    var s := text + [0];
    var a := Bom(s) + Skip(s[Bom(s)..]);
    var v := ParseValue(lib, s[a..], 0);
    if v.None? then None
    else
      var p := a + v.value.1;
      if !requireEnd then Some((v.value.0, p))
      else
        var e := p + Skip(s[p..]);
        if s[e] != 0 then None else Some((v.value.0, e))
  }

  // ---------- Parsing inverts printing ----------

  /** What may follow a value: the number before it ends there. */
  predicate Follows(s: Bytes) {
    EndsNul(s) && !NumberByte(s[0])
  }

  lemma SkipNone(s: Bytes)
    requires |s| > 0 && s[0] > 32
    ensures Skip(s) == 0
  {
  }

  lemma {:induction false} SkipBlank(p: Bytes, s: Bytes)
    requires |s| > 0 && (s[0] > 32 || |s| == 1) && forall i :: 0 <= i < |p| ==> p[i] <= 32
    ensures Skip(p + s) == |p|
  {
    if p == [] {
      assert p + s == s;
    } else {
      SkipBlank(p[1..], s);
      assert (p + s)[1..] == p[1..] + s;
    }
  }

  lemma {:induction false} TokenIs(p: Bytes, s: Bytes, max: nat)
    requires AllNumberBytes(p) && |p| <= max && |s| > 0 && !NumberByte(s[0])
    ensures TokenLen(p + s, max) == |p|
  {
    if p == [] {
      assert p + s == s;
    } else {
      TokenIs(p[1..], s, max - 1);
      assert (p + s)[1..] == p[1..] + s;
    }
  }

  /** The first byte of a printed value: printable, and not a closing bracket. */
  predicate Head(b: Byte) {
    b > 32 && b != CLOSE_ARRAY && b != CLOSE_OBJECT
  }

  lemma PrintHead(lib: CLib, t: Json, fmt: bool, d: nat)
    requires Wf(lib, t)
    ensures |Print(lib, t, fmt, d)| > 0 && Head(Print(lib, t, fmt, d)[0])
  {
    hide Escape, PrintItems, PrintMembers, StrTod, Decimal;
  }

  /** A value that is neither array nor object. */
  lemma ScalarBack(lib: CLib, t: Json, fmt: bool, d: nat, k: nat, rest: Bytes)
    requires Wf(lib, t) && Follows(rest) && Depth(t) == 0
    ensures EndsNul(Print(lib, t, fmt, d) + rest)
    ensures ParseValue(lib, Print(lib, t, fmt, d) + rest, k) == Some((t, |Print(lib, t, fmt, d)|))
  {
    hide ParseArray, ParseObject, ParseString, Quoted, StrTod, Decimal;
    var s := Print(lib, t, fmt, d) + rest;
    match t
    case Null => assert s[..4] == NULL_TEXT;
    case False => assert s[..5] == FALSE_TEXT; assert s[..4][0] != NULL_TEXT[0];
    case True => assert s[..4] == TRUE_TEXT; assert s[0] == TRUE_TEXT[0];
    case Number(_, x) =>
      TokenIs(NumberText(lib, x), rest, 63);
      assert s[..|NumberText(lib, x)|] == NumberText(lib, x);
      assert s[0] == NumberText(lib, x)[0];
      WordsDiffer(s);
    case String(text) =>
      QuotedRoundTrip(text, rest);
      QuotedHead(text);
      assert s[0] == QUOTE;
      WordsDiffer(s);
  }

  lemma QuotedHead(s: Bytes)
    ensures |Quoted(s)| >= 2 && Quoted(s)[0] == QUOTE
  {
  }

  lemma WordsDiffer(s: Bytes)
    requires |s| > 0 && s[0] != 110 && s[0] != 102 && s[0] != 116
    ensures !StartsWith(s, NULL_TEXT) && !StartsWith(s, FALSE_TEXT) && !StartsWith(s, TRUE_TEXT)
  {
    assert NULL_TEXT[0] == 110 && FALSE_TEXT[0] == 102 && TRUE_TEXT[0] == 116;
    assert |s| >= 4 ==> s[..4][0] == s[0];
    assert |s| >= 5 ==> s[..5][0] == s[0];
  }
}
