/**
 The recursive parser as the source runs it, on a buffer with an offset and a depth, proved
 against the grammar of JsonParse.
 */
module JsonReader {
  import opened Options
  import opened JsonText
  import opened JsonString
  import opened JsonParse
  import opened JsonRoundTrip
  import opened JsonPrint

  // ---------- String literals ----------

  /** `parse_hex4` */
  method ParseHex4(s: Bytes, at: nat) returns (h: nat)
    requires at + 4 <= |s|
    ensures h == Hex4(s[at..at + 4])
  {
    h := 0;
    ghost var d := s[at..at + 4];
    for i := 0 to 4
      invariant forall j :: 0 <= j < i ==> HexValue(d[j]).Some?
      invariant i < 4 ==> h == HexPrefix(d, i)
      invariant i == 4 ==> h == Hex4(d)
    {
      var c := s[at + i];
      assert c == d[i];
      if 48 <= c <= 57 {
        h := h + (c - 48);
      } else if 65 <= c <= 70 {
        h := h + (10 + c - 65);
      } else if 97 <= c <= 102 {
        h := h + (10 + c - 97);
      } else {
        return 0;
      }
      if i < 3 {
        h := h * 16;
      } else {
        HexWhole(d);
      }
    }
  }

  /** The digits read so far, shifted for the next. */
  function HexPrefix(d: Bytes, i: nat): nat
    requires |d| == 4 && i < 4 && forall j :: 0 <= j < i ==> HexValue(d[j]).Some?
  {
    if i == 0 then 0 else (HexPrefix(d, i - 1) + HexValue(d[i - 1]).value) * 16
  }

  lemma HexWhole(d: Bytes)
    requires |d| == 4 && forall j :: 0 <= j < 4 ==> HexValue(d[j]).Some?
    ensures Hex4(d) == HexPrefix(d, 3) + HexValue(d[3]).value
  {
    assert HexPrefix(d, 1) == HexValue(d[0]).value * 16;
    assert HexPrefix(d, 2) == (HexPrefix(d, 1) + HexValue(d[1]).value) * 16;
  }

  lemma SubSlice(s: Bytes, at: nat, end: nat, i: nat, j: nat)
    requires at <= end <= |s| && i <= j <= end - at
    ensures s[at..end][i..j] == s[at + i..at + j]
  {
    var a, b := s[at..end][i..j], s[at + i..at + j];
    forall k | 0 <= k < |a|
      ensures a[k] == b[k]
    {
      assert a[k] == s[at..end][i + k] == s[at + (i + k)];
    }
  }

  /** `utf16_literal_to_utf8` on the literal at `at`: the bytes of input used, or 0. */
  method Utf16ToUtf8(s: Bytes, at: nat, end: nat, output: array<Byte>, pos: nat) returns (used: nat, next: nat)
    requires at <= end <= |s|
    requires Utf16(s[at..end]).Some? ==> pos + |Utf8(Utf16(s[at..end]).value.0)| <= output.Length
    modifies output
    ensures used == 0 <==> Utf16(s[at..end]).None?
    ensures
      used != 0 ==>
      && used == Utf16(s[at..end]).value.1
      && var u := Utf8(Utf16(s[at..end]).value.0);
        next == pos + |u| && output[..next] == old(output[..pos]) + u
  {
    hide Hex4, Utf8;
    ghost var t := s[at..end];
    if end - at < 6 {
      return 0, pos;
    }
    SubSlice(s, at, end, 2, 6);
    var first := ParseHex4(s, at + 2);
    var cp;
    if 0xDC00 <= first <= 0xDFFF {
      return 0, pos;
    }
    if 0xD800 <= first <= 0xDBFF {
      used := 12;
      if end - (at + 6) < 6 {
        return 0, pos;
      }
      if s[at + 6] != BACKSLASH || s[at + 7] != 117 {
        return 0, pos;
      }
      SubSlice(s, at, end, 8, 12);
      var second := ParseHex4(s, at + 8);
      if second < 0xDC00 || second > 0xDFFF {
        return 0, pos;
      }
      cp := 0x1_0000 + (first % 0x400 * 0x400 + second % 0x400);
      SurrogateBits(first, second);
    } else {
      used := 6;
      cp := first;
    }
    next := EncodeUtf8(cp, output, pos);
  }

  lemma SurrogateBits(high: nat, low: nat)
    requires 0xD800 <= high < 0xDC00 && 0xDC00 <= low < 0xE000
    ensures 0x1_0000 + (high % 0x400 * 0x400 + low % 0x400) == Combine(high, low)
  {
  }

  /** The encoding loop: continuation bytes from the last to the first, then the lead byte. */
  method EncodeUtf8(cp: nat, output: array<Byte>, pos: nat) returns (next: nat)
    requires cp < 0x11_0000 && pos + |Utf8(cp)| <= output.Length
    modifies output
    ensures next == pos + |Utf8(cp)| && output[..next] == old(output[..pos]) + Utf8(cp)
  {
    hide Utf8;
    var len, mark := 1, 0;
    if cp < 0x80 {
    } else if cp < 0x800 {
      len, mark := 2, 0xC0;
    } else if cp < 0x1_0000 {
      len, mark := 3, 0xE0;
    } else {
      len, mark := 4, 0xF0;
    }
    Utf8Parts(cp);
    next := pos + len;
    var rest, i := cp, len - 1;
    while i > 0
      invariant 0 <= i < len && rest == Shifted(cp, len - 1 - i)
      invariant output[..pos] == old(output[..pos])
      invariant forall j :: i < j < len ==> output[pos + j] == Utf8(cp)[j]
    {
      Utf8Byte(cp, i);
      output[pos + i] := 0x80 + rest % 64;
      rest, i := rest / 64, i - 1;
    }
    output[pos] := rest + mark;
    assert output[pos..pos + len] == Utf8(cp);
    assert output[..pos + len] == output[..pos] + output[pos..pos + len];
  }

  /** `cp` without its lowest `n` groups of six bits. */
  function Shifted(cp: nat, n: nat): nat {
    if n == 0 then cp else Shifted(cp, n - 1) / 64
  }

  lemma Utf8Parts(cp: nat)
    requires cp < 0x11_0000
    ensures |Utf8(cp)| == if cp < 0x80 then 1 else if cp < 0x800 then 2 else if cp < 0x1_0000 then 3 else 4
    ensures
      var mark := if cp < 0x80 then 0 else if cp < 0x800 then 0xC0 else if cp < 0x1_0000 then 0xE0 else 0xF0;
      Shifted(cp, |Utf8(cp)| - 1) + mark < 256 && Utf8(cp)[0] == Shifted(cp, |Utf8(cp)| - 1) + mark
  {
    assert Shifted(cp, 1) == cp / 64;
    assert Shifted(cp, 2) == cp / 64 / 64;
    assert Shifted(cp, 3) == cp / 64 / 64 / 64;
  }

  lemma Utf8Byte(cp: nat, i: nat)
    requires cp < 0x11_0000 && 0 < i < |Utf8(cp)|
    ensures Utf8(cp)[i] == 0x80 + Shifted(cp, |Utf8(cp)| - 1 - i) % 64
  {
    assert Shifted(cp, 1) == cp / 64;
    assert Shifted(cp, 2) == cp / 64 / 64;
  }

  /** The output bytes that the rest of a literal can still take, by the count of the first scan. */
  function Budget(s: Bytes, p: nat, end: nat): nat
    requires p <= end <= |s|
  {
    SkippedFew(s[p..end]);
    end - p - Skipped(s[p..end])
  }

  lemma ScanStep(s: Bytes, p: nat)
    requires p < |s|
    ensures s[p] == QUOTE ==> QuoteAt(s[p..]) == Some(0) && SkippedTo(s[p..]) == 0
    ensures s[p] == BACKSLASH && p + 1 == |s| ==> QuoteAt(s[p..]).None?
    ensures s[p] == BACKSLASH && p + 1 < |s| ==>
      QuoteAt(s[p..]) == Plus(2, QuoteAt(s[p + 2..])) && SkippedTo(s[p..]) == 1 + SkippedTo(s[p + 2..])
    ensures s[p] != BACKSLASH && s[p] != QUOTE ==>
      QuoteAt(s[p..]) == Plus(1, QuoteAt(s[p + 1..])) && SkippedTo(s[p..]) == SkippedTo(s[p + 1..])
  {
    var t := s[p..];
    assert t[1..] == s[p + 1..];
    assert p + 1 < |s| ==> t[2..] == s[p + 2..];
  }

  lemma RawDecode(s: Bytes, p: nat, end: nat)
    requires p < end <= |s| && s[p] != BACKSLASH
    ensures Unescape(s[p..end]) == Prefixed([s[p]], Unescape(s[p + 1..end]))
    ensures Budget(s, p, end) == 1 + Budget(s, p + 1, end)
  {
    assert s[p..end][1..] == s[p + 1..end];
  }

  lemma ShortDecode(s: Bytes, p: nat, end: nat)
    requires p + 1 < end <= |s| && s[p] == BACKSLASH && s[p + 1] != 117
    ensures ShortEscape(s[p + 1]).None? ==> Unescape(s[p..end]).None?
    ensures ShortEscape(s[p + 1]).Some? ==>
      Unescape(s[p..end]) == Prefixed([ShortEscape(s[p + 1]).value], Unescape(s[p + 2..end]))
    ensures Budget(s, p, end) == 1 + Budget(s, p + 2, end)
  {
    hide ShortEscape;
    assert s[p..end][2..] == s[p + 2..end];
  }

  lemma UnicodeDecode(s: Bytes, p: nat, end: nat)
    requires p + 1 < end <= |s| && s[p] == BACKSLASH && s[p + 1] == 117
    ensures Utf16(s[p..end]).None? ==> Unescape(s[p..end]).None?
    ensures
      Utf16(s[p..end]).Some? ==>
      && var (cp, used) := Utf16(s[p..end]).value;
        && p + used <= end
        && Unescape(s[p..end]) == Prefixed(Utf8(cp), Unescape(s[p + used..end]))
        && Budget(s, p, end) >= |Utf8(cp)| + Budget(s, p + used, end)
  {
    hide Utf8, Utf16, Skipped;
    if Utf16(s[p..end]).Some? {
      var used := Utf16(s[p..end]).value.1;
      assert s[p..end][used..] == s[p + used..end];
      SkippedBound(s[p..end], used);
    }
  }

  lemma LoneDecode(s: Bytes, p: nat)
    requires p < |s| && s[p] == BACKSLASH
    ensures Unescape(s[p..p + 1]) == Some([QUOTE]) && Budget(s, p, p + 1) == 0
  {
    assert s[p..p + 1] == [BACKSLASH];
  }

  lemma PrefixedFails(a: Bytes)
    ensures Prefixed(a, None).None?
  {
  }

  lemma PrefixedSome(a: Bytes)
    ensures Prefixed(a, Some([QUOTE])) == Some(a + [QUOTE]) && ShortEscape(QUOTE) == Some(QUOTE)
  {
  }

  lemma NothingLeft(a: Bytes, s: Bytes, end: nat)
    requires end <= |s|
    ensures Prefixed(a, Unescape(s[end..end])) == Some(a)
    ensures Prefixed([], Unescape(s)) == Unescape(s)
  {
    Empty(a);
    if Unescape(s).Some? {
      Empty(Unescape(s).value);
    }
  }

  class ParseBuffer {
    const content: Bytes
    var offset: nat
    var depth: nat

    predicate Valid()
      reads this
    {
      EndsNul(content) && offset < |content|
    }

    constructor (text: Bytes)
      ensures Valid() && content == text + [0] && offset == 0 && depth == 0
    {
      content, offset, depth := text + [0], 0, 0;
    }

    /** The first scan of `parse_string`: the closing quote, and the bytes that the output will not need. */
    method ScanString(start: nat) returns (found: bool, end: nat, skipped: nat)
      requires start <= |content|
      ensures found <==> QuoteAt(content[start..]).Some?
      ensures found ==> end == start + QuoteAt(content[start..]).value && skipped == SkippedTo(content[start..])
    {
      hide QuoteAt, SkippedTo;
      found, end, skipped := false, start, 0;
      ghost var all := content[start..];
      while end < |content| && content[end] != QUOTE
        invariant start <= end <= |content|
        invariant QuoteAt(all) == Plus(end - start, QuoteAt(content[end..]))
        invariant SkippedTo(all) == skipped + SkippedTo(content[end..])
      {
        ScanStep(content, end);
        if content[end] == BACKSLASH {
          if end + 1 >= |content| {
            return;
          }
          skipped := skipped + 1;
          end := end + 1;
        }
        end := end + 1;
      }
      if end >= |content| {
        NoQuote();
        return;
      }
      ScanStep(content, end);
      found := true;
    }

    static lemma NoQuote()
      ensures QuoteAt([]).None?
    {
    }

    /** The decoding loop of `parse_string`; every byte it writes lies within the size computed by the first scan. */
    method DecodeString(start: nat, end: nat, output: array<Byte>) returns (ok: bool, n: nat)
      requires start <= end < |content| && content[end] == QUOTE
      requires output.Length == Budget(content, start, end) + 2
      modifies output
      ensures ok <==> Unescape(content[start..end]).Some?
      ensures ok ==> n < output.Length && output[..n] == Unescape(content[start..end]).value
    {
      hide Unescape, Utf16, Utf8, ShortEscape, Budget, Prefixed;
      ghost var all := content[start..end];
      NothingLeft([], all, 0);
      var p := start;
      ok, n := false, 0;
      while p < end
        invariant start <= p <= end + 1
        invariant p <= end ==> n + Budget(content, p, end) + 2 <= output.Length
        invariant p <= end ==> Unescape(all) == Prefixed(output[..n], Unescape(content[p..end]))
        invariant p == end + 1 ==> n < output.Length && Unescape(all) == Some(output[..n])
        decreases end + 1 - p
      {
        ghost var done := output[..n];
        if content[p] != BACKSLASH {
          RawDecode(content, p, end);
          PrefixedTwice(done, [content[p]], Unescape(content[p + 1..end]));
          output[n] := content[p];
          n, p := n + 1, p + 1;
          assert output[..n] == done + [content[p - 1]];
        } else if content[p + 1] == 117 {
          UnicodeDecode(content, p, end);
          var used, next := Utf16ToUtf8(content, p, end, output, n);
          if used == 0 {
            PrefixedFails(done);
            return false, 0;
          }
          PrefixedTwice(done, Utf8(Utf16(content[p..end]).value.0), Unescape(content[p + used..end]));
          n, p := next, p + used;
        } else {
          var e := ShortEscape(content[p + 1]);
          if p + 1 == end {
            LoneDecode(content, p);
            PrefixedSome(done);
          } else {
            ShortDecode(content, p, end);
          }
          if e.None? {
            PrefixedFails(done);
            return false, 0;
          }
          PrefixedTwice(done, [e.value], Unescape(content[if p + 2 <= end then p + 2 else end..end]));
          output[n] := e.value;
          n, p := n + 1, p + 2;
          assert output[..n] == done + [e.value];
        }
      }
      NothingLeft(output[..n], content, end);
      ok := true;
    }

    /**
     A step that reads what `r` says: it succeeds when there is a result, and then stands where
     the result ends, at depth `d`.
     */
    ghost predicate Did<T(!new)>(r: Option<(T, nat)>, ok: bool, v: T, d: nat)
      reads this
    {
      && (ok <==> r.Some?)
      && (ok ==> Valid() && depth == d && r == Some((v, offset)))
    }

    /** `parse_string` */
    method ReadString() returns (ok: bool, text: Bytes)
      requires Valid()
      modifies this`offset
      ensures Did(StringAt(content, old(offset)), ok, text, depth)
    {
      hide QuoteAt, Unescape, SkippedTo, Skipped;
      ghost var s := content[offset..];
      if content[offset] != QUOTE {
        return false, [];
      }
      assert s[1..] == content[offset + 1..];
      var found, end, skipped := ScanString(offset + 1);
      if !found {
        return false, [];
      }
      SkippedUpTo(s[1..]);
      BodyAt(content, offset, end);
      assert Budget(content, offset + 1, end) == end - offset - 1 - skipped;
      var output := new Byte[end - offset - skipped + 1];
      var n;
      ok, n := DecodeString(offset + 1, end, output);
      if !ok {
        return false, [];
      }
      text := output[..n];
      offset := end + 1;
    }

    /** `buffer_skip_whitespace` */
    method SkipWhitespace()
      requires Valid()
      modifies this`offset
      ensures Valid() && offset == SkipAt(content, old(offset))
    {
      ghost var s := content[offset..];
      while offset < |content| && content[offset] <= 32
        invariant old(offset) <= offset <= |content|
        invariant offset < |content| ==> SkipAt(content, old(offset)) == offset + Skip(content[offset..])
        invariant offset == |content| ==> SkipAt(content, old(offset)) == |content| - 1
      {
        assert content[offset..][1..] == content[offset + 1..];
        offset := offset + 1;
      }
      if offset == |content| {
        offset := offset - 1;
      }
    }

    /** The copying loop of `parse_number`. */
    method ReadToken() returns (token: Bytes)
      requires Valid()
      ensures token == content[offset..][..TokenLen(content[offset..], 63)]
    {
      ghost var s := content[offset..];
      var i := 0;
      token := [];
      assert s[0..] == s;
      while i < 63 && offset + i < |content| && NumberByte(content[offset + i])
        invariant 0 <= i <= 63 && i <= |s| && token == s[..i]
        invariant TokenLen(s, 63) == i + TokenLen(s[i..], 63 - i)
      {
        assert s[i..][1..] == s[i + 1..] && s[i..][0] == content[offset + i];
        token, i := token + [content[offset + i]], i + 1;
      }
      assert i < |s| ==> s[i..][0] == content[offset + i];
    }

    /** `parse_number` */
    method ReadNumber(lib: CLib) returns (ok: bool, v: Json)
      requires Valid()
      modifies this`offset
      ensures Did(NumberAt(lib, content, old(offset)), ok, v, depth)
    {
      hide StrTod, TokenLen;
      var token := ReadToken();
      TokenEnds(content[offset..], 63);
      var (x, n) := StrTod(lib, token);
      if n == 0 {
        return false, Null;
      }
      v := Number(Saturated(x), x);
      offset := offset + n;
      ok := true;
    }

    /** `parse_value` accepts exactly the grammar, and leaves offset and depth where it says. */
    method ReadValue(lib: CLib) returns (ok: bool, v: Json)
      requires Valid()
      modifies this
      ensures Did(ValueAt(lib, content, old(offset), old(depth)), ok, v, old(depth))
      decreases |content| - offset, 1
    {
      hide StringAt, NumberAt, ValueAt, ArrayAt, ObjectAt;
      ValueAtIs(lib, content, offset, depth);
      if offset + 4 <= |content| && content[offset..offset + 4] == NULL_TEXT {
        v, offset := Null, offset + 4;
        return true, v;
      }
      if offset + 5 <= |content| && content[offset..offset + 5] == FALSE_TEXT {
        v, offset := False, offset + 5;
        return true, v;
      }
      if offset + 4 <= |content| && content[offset..offset + 4] == TRUE_TEXT {
        v, offset := True, offset + 4;
        return true, v;
      }
      if content[offset] == QUOTE {
        var text;
        ok, text := ReadString();
        v := String(text);
      } else if content[offset] == MINUS || 48 <= content[offset] <= 57 {
        ok, v := ReadNumber(lib);
      } else if content[offset] == OPEN_ARRAY {
        ok, v := ReadArray(lib);
      } else if content[offset] == OPEN_OBJECT {
        ok, v := ReadObject(lib);
      } else {
        ok, v := false, Null;
      }
    }

    /** A value and the blanks around it. */
    method ReadElement(lib: CLib) returns (ok: bool, v: Json)
      requires Valid()
      modifies this
      ensures Did(ElementAt(lib, content, old(offset), old(depth)), ok, v, old(depth))
      decreases |content| - offset, 2
    {
      hide ValueAt, ElementAt, SkipAt;
      ElementAtIs(lib, content, offset, depth);
      SkipWhitespace();
      ok, v := ReadValue(lib);
      if ok {
        SkipWhitespace();
      }
    }

    /** `parse_array` */
    method ReadArray(lib: CLib) returns (ok: bool, v: Json)
      requires Valid() && content[offset] == OPEN_ARRAY
      modifies this
      ensures Did(ArrayAt(lib, content, old(offset), old(depth)), ok, v, old(depth))
      decreases |content| - offset, 0
    {
      hide ElementAt, ItemsAt, ArrayAt, SkipAt, Chain;
      ArrayAtIs(lib, content, offset, depth);
      ok, v := false, Null;
      if depth >= NESTING_LIMIT {
        return;
      }
      depth := depth + 1;
      ghost var k := depth;
      offset := offset + 1;
      SkipWhitespace();
      if content[offset] == CLOSE_ARRAY {
        depth, offset := depth - 1, offset + 1;
        return true, Array(NoItem);
      }
      ghost var all := ItemsAt(lib, content, offset, k);
      NothingBefore(all);
      offset := offset - 1;
      var children: seq<Json> := [];
      var more := true;
      while more
        invariant Valid() && depth == k && old(offset) <= offset
        invariant more ==> offset + 1 < |content| && all == JoinItems(children, ItemsAt(lib, content, offset + 1, k))
        invariant !more ==>
          all == if content[offset] == CLOSE_ARRAY then Some((Chain(children, NoItem), offset + 1)) else None
        decreases |content| - offset, more
      {
        offset := offset + 1;
        ItemsAtIs(lib, content, offset, k);
        var item;
        ok, item := ReadElement(lib);
        if !ok {
          return false, Null;
        }
        ItemsTurn(children, item, ItemsAt(lib, content, offset + 1, k));
        children := children + [item];
        more := content[offset] == COMMA;
      }
      if content[offset] != CLOSE_ARRAY {
        return false, Null;
      }
      v := Array(Chain(children, NoItem));
      depth, offset := depth - 1, offset + 1;
      ok := true;
    }

    /** The name of a member, the blanks around it and the colon. */
    method ReadKey() returns (ok: bool, key: Bytes)
      requires Valid()
      modifies this`offset
      ensures Did(KeyAt(content, old(offset)), ok, key, depth)
    {
      hide StringAt, KeyAt, SkipAt;
      KeyAtIs(content, offset);
      SkipWhitespace();
      ok, key := ReadString();
      if !ok {
        return;
      }
      SkipWhitespace();
      if content[offset] != COLON {
        return false, [];
      }
      offset := offset + 1;
    }

    /** `parse_object` */
    method ReadObject(lib: CLib) returns (ok: bool, v: Json)
      requires Valid() && content[offset] == OPEN_OBJECT
      modifies this
      ensures Did(ObjectAt(lib, content, old(offset), old(depth)), ok, v, old(depth))
      decreases |content| - offset, 0
    {
      hide ElementAt, KeyAt, MembersAt, ObjectAt, SkipAt, ChainMembers;
      ObjectAtIs(lib, content, offset, depth);
      ok, v := false, Null;
      if depth >= NESTING_LIMIT {
        return;
      }
      depth := depth + 1;
      ghost var k := depth;
      offset := offset + 1;
      SkipWhitespace();
      if content[offset] == CLOSE_OBJECT {
        depth, offset := depth - 1, offset + 1;
        return true, Object(NoMember);
      }
      ghost var all := MembersAt(lib, content, offset, k);
      NoMemberBefore(all);
      offset := offset - 1;
      var children: seq<(Bytes, Json)> := [];
      var more := true;
      while more
        invariant Valid() && depth == k && old(offset) <= offset
        invariant more ==>
          offset + 1 < |content| && all == JoinMembers(children, MembersAt(lib, content, offset + 1, k))
        invariant !more ==>
          all == if content[offset] == CLOSE_OBJECT then Some((ChainMembers(children, NoMember), offset + 1)) else None
        decreases |content| - offset, more
      {
        offset := offset + 1;
        MembersAtIs(lib, content, offset, k);
        var key, item;
        ok, key := ReadKey();
        if !ok {
          return false, Null;
        }
        ok, item := ReadElement(lib);
        if !ok {
          return false, Null;
        }
        MembersTurn(children, key, item, MembersAt(lib, content, offset + 1, k));
        children := children + [(key, item)];
        more := content[offset] == COMMA;
      }
      if content[offset] != CLOSE_OBJECT {
        return false, Null;
      }
      v := Object(ChainMembers(children, NoMember));
      depth, offset := depth - 1, offset + 1;
      ok := true;
    }
  }

  // ---------- The grammar, by positions in the whole input ----------

  function At<T>(o: nat, r: Option<(T, nat)>): Option<(T, nat)> {
    if r.None? then None else Some((r.value.0, o + r.value.1))
  }

  function StringAt(s: Bytes, o: nat): (r: Option<(Bytes, nat)>)
    requires Pos(s, o)
    ensures r.Some? ==> o < r.value.1 < |s|
  {
    At(o, ParseString(s[o..]))
  }

  function NumberAt(lib: CLib, s: Bytes, o: nat): (r: Option<(Json, nat)>)
    requires Pos(s, o)
    ensures r.Some? ==> o < r.value.1 < |s|
  {
    TokenEnds(s[o..], 63);
    At(o, ParseNumber(lib, s[o..]))
  }

  function ValueAt(lib: CLib, s: Bytes, o: nat, k: nat): (r: Option<(Json, nat)>)
    requires Pos(s, o)
    ensures r.Some? ==> o < r.value.1 < |s|
  {
    At(o, ParseValue(lib, s[o..], k))
  }

  function ElementAt(lib: CLib, s: Bytes, o: nat, k: nat): (r: Option<(Json, nat)>)
    requires Pos(s, o)
    ensures r.Some? ==> o < r.value.1 < |s|
  {
    At(o, ParseElement(lib, s[o..], k))
  }

  function ItemsAt(lib: CLib, s: Bytes, o: nat, k: nat): (r: Option<(Items, nat)>)
    requires EndsNul(s)
    ensures r.Some? ==> o < r.value.1 < |s|
  {
    if o < |s| then At(o, ParseItems(lib, s[o..], k)) else None
  }

  function ArrayAt(lib: CLib, s: Bytes, o: nat, k: nat): (r: Option<(Json, nat)>)
    requires Pos(s, o) && s[o] == OPEN_ARRAY
    ensures r.Some? ==> o < r.value.1 < |s|
  {
    At(o, ParseArray(lib, s[o..], k))
  }

  function KeyAt(s: Bytes, o: nat): (r: Option<(Bytes, nat)>)
    requires Pos(s, o)
    ensures r.Some? ==> o < r.value.1 < |s|
  {
    At(o, ParseKey(s[o..]))
  }

  function MembersAt(lib: CLib, s: Bytes, o: nat, k: nat): (r: Option<(Members, nat)>)
    requires EndsNul(s)
    ensures r.Some? ==> o < r.value.1 < |s|
  {
    if o < |s| then At(o, ParseMembers(lib, s[o..], k)) else None
  }

  function ObjectAt(lib: CLib, s: Bytes, o: nat, k: nat): (r: Option<(Json, nat)>)
    requires Pos(s, o) && s[o] == OPEN_OBJECT
    ensures r.Some? ==> o < r.value.1 < |s|
  {
    At(o, ParseObject(lib, s[o..], k))
  }

  lemma ValueAtIs(lib: CLib, s: Bytes, o: nat, k: nat)
    requires Pos(s, o)
    ensures
      ValueAt(lib, s, o, k) ==
      if o + 4 <= |s| && s[o..o + 4] == NULL_TEXT then Some((Null, o + 4))
      else if o + 5 <= |s| && s[o..o + 5] == FALSE_TEXT then Some((False, o + 5))
      else if o + 4 <= |s| && s[o..o + 4] == TRUE_TEXT then Some((True, o + 4))
      else if s[o] == QUOTE then
        if StringAt(s, o).None? then None else Some((String(StringAt(s, o).value.0), StringAt(s, o).value.1))
      else if s[o] == MINUS || IsDigit(s[o]) then NumberAt(lib, s, o)
      else if s[o] == OPEN_ARRAY then ArrayAt(lib, s, o, k)
      else if s[o] == OPEN_OBJECT then ObjectAt(lib, s, o, k)
      else None
  {
    hide ParseString, ParseNumber, ParseArray, ParseObject;
    WordsAt(s, o);
    assert s[o..][0] == s[o];
  }

  lemma ElementAtIs(lib: CLib, s: Bytes, o: nat, k: nat)
    requires Pos(s, o)
    ensures
      ElementAt(lib, s, o, k) ==
      var v := ValueAt(lib, s, SkipAt(s, o), k);
      if v.None? then None else Some((v.value.0, SkipAt(s, v.value.1)))
  {
    hide ParseValue, Skip;
    var t, w := s[o..], Skip(s[o..]);
    SubTail(s, o, w);
    var v := ParseValue(lib, t[w..], k);
    if v.Some? {
      SubTail(s, o, w + v.value.1);
    }
  }

  lemma ItemsAtIs(lib: CLib, s: Bytes, o: nat, k: nat)
    requires Pos(s, o)
    ensures
      ItemsAt(lib, s, o, k) ==
      var v := ElementAt(lib, s, o, k);
      if v.None? then None
      else if s[v.value.1] == COMMA then JoinItems([v.value.0], ItemsAt(lib, s, v.value.1 + 1, k))
      else if s[v.value.1] == CLOSE_ARRAY then Some((Item(v.value.0, NoItem), v.value.1 + 1))
      else None
  {
    hide ParseElement, ParseItems;
    var t := s[o..];
    var v := ParseElement(lib, t, k);
    if v.None? {
      ItemsFail(lib, t, k);
    } else {
      var q := v.value.1;
      SubTail(s, o, q);
      SubTail(s, o, q + 1);
      ItemsStep(lib, t, k, v.value.0, q);
      var r := ItemsAt(lib, s, o + q + 1, k);
      if r.Some? {
        ChainSnoc([], v.value.0, r.value.0);
      }
    }
  }

  lemma ArrayAtIs(lib: CLib, s: Bytes, o: nat, k: nat)
    requires Pos(s, o) && s[o] == OPEN_ARRAY
    ensures
      ArrayAt(lib, s, o, k) ==
      if k >= NESTING_LIMIT then None
      else
        var a := SkipAt(s, o + 1);
        if s[a] == CLOSE_ARRAY then Some((Array(NoItem), a + 1))
        else
          var r := ItemsAt(lib, s, a, k + 1);
          if r.None? then None else Some((Array(r.value.0), r.value.1))
  {
    hide ParseItems, Skip;
    SubTail(s, o, 1);
    SubTail(s, o, 1 + Skip(s[o + 1..]));
  }

  lemma KeyAtIs(s: Bytes, o: nat)
    requires Pos(s, o)
    ensures
      KeyAt(s, o) ==
      var v := StringAt(s, SkipAt(s, o));
      if v.None? then None
      else
        var e := SkipAt(s, v.value.1);
        if s[e] != COLON then None else Some((v.value.0, e + 1))
  {
    hide ParseString, Skip, SkipAt, StringAt;
    KeyString(s, o);
    var t, w := s[o..], Skip(s[o..]);
    var v := ParseString(t[w..]);
    if v.Some? {
      SkipFrom(s, o, w + v.value.1);
    }
  }

  lemma KeyString(s: Bytes, o: nat)
    requires Pos(s, o)
    ensures SkipAt(s, o) == o + Skip(s[o..])
    ensures StringAt(s, SkipAt(s, o)) == At(o + Skip(s[o..]), ParseString(s[o..][Skip(s[o..])..]))
  {
    hide ParseString, Skip;
    SubTail(s, o, Skip(s[o..]));
  }

  lemma SkipFrom(s: Bytes, o: nat, p: nat)
    requires EndsNul(s) && o + p < |s|
    ensures SkipAt(s, o + p) == o + p + Skip(s[o..][p..]) && s[SkipAt(s, o + p)] == s[o..][p + Skip(s[o..][p..])]
    ensures EndsNul(s[o..]) && SkipAt(s[o..], p) == p + Skip(s[o..][p..])
  {
    hide Skip;
    SubTail(s, o, p);
    SubTail(s, o, p + Skip(s[o + p..]));
  }

  lemma MembersAtIs(lib: CLib, s: Bytes, o: nat, k: nat)
    requires Pos(s, o)
    ensures
      MembersAt(lib, s, o, k) ==
      var key := KeyAt(s, o);
      if key.None? then None
      else
        var v := ElementAt(lib, s, key.value.1, k);
        if v.None? then None
        else if s[v.value.1] == COMMA then JoinMembers([(key.value.0, v.value.0)], MembersAt(lib, s, v.value.1 + 1, k))
        else if s[v.value.1] == CLOSE_OBJECT then Some((Member(key.value.0, v.value.0, NoMember), v.value.1 + 1))
        else None
  {
    hide ParseElement, ParseMembers, ParseKey;
    var t := s[o..];
    var key := ParseKey(t);
    if key.None? {
      KeyFail(lib, t, k);
    } else {
      var a := key.value.1;
      SubTail(s, o, a);
      var v := ParseElement(lib, t[a..], k);
      if v.None? {
        MembersFail(lib, t, k);
      } else {
        var q := v.value.1;
        SubTail(s, o, a + q);
        SubTail(s, o, a + q + 1);
        MembersStep(lib, t, k, key.value.0, a, v.value.0, q);
        var r := MembersAt(lib, s, o + a + q + 1, k);
        if r.Some? {
          ChainMembersSnoc([], key.value.0, v.value.0, r.value.0);
        }
      }
    }
  }

  lemma ObjectAtIs(lib: CLib, s: Bytes, o: nat, k: nat)
    requires Pos(s, o) && s[o] == OPEN_OBJECT
    ensures
      ObjectAt(lib, s, o, k) ==
      if k >= NESTING_LIMIT then None
      else
        var a := SkipAt(s, o + 1);
        if s[a] == CLOSE_OBJECT then Some((Object(NoMember), a + 1))
        else
          var r := MembersAt(lib, s, a, k + 1);
          if r.None? then None else Some((Object(r.value.0), r.value.1))
  {
    hide ParseMembers, Skip;
    SubTail(s, o, 1);
    SubTail(s, o, 1 + Skip(s[o + 1..]));
  }

  /** Input behind input. */
  lemma SubTail(s: Bytes, o: nat, n: nat)
    requires o + n <= |s|
    ensures s[o..][n..] == s[o + n..] && (o + n < |s| ==> s[o..][n] == s[o + n])
  {
  }

  lemma BodyAt(s: Bytes, o: nat, end: nat)
    requires o < end <= |s|
    ensures s[o..][1..] == s[o + 1..] && s[o + 1..][..end - o - 1] == s[o + 1..end]
    ensures s[o..][1..end - o] == s[o + 1..end]
  {
  }

  lemma WordsAt(s: Bytes, o: nat)
    requires o < |s|
    ensures StartsWith(s[o..], NULL_TEXT) <==> o + 4 <= |s| && s[o..o + 4] == NULL_TEXT
    ensures StartsWith(s[o..], FALSE_TEXT) <==> o + 5 <= |s| && s[o..o + 5] == FALSE_TEXT
    ensures StartsWith(s[o..], TRUE_TEXT) <==> o + 4 <= |s| && s[o..o + 4] == TRUE_TEXT
  {
    assert o + 4 <= |s| ==> s[o..][..4] == s[o..o + 4];
    assert o + 5 <= |s| ==> s[o..][..5] == s[o..o + 5];
  }

  // ---------- Chains built at their end ----------

  /** The chain of `c` with `l` behind it. */
  function Chain(c: seq<Json>, l: Items): Items {
    if c == [] then l else Item(c[0], Chain(c[1..], l))
  }

  function JoinItems(c: seq<Json>, r: Option<(Items, nat)>): Option<(Items, nat)> {
    if r.None? then None else Some((Chain(c, r.value.0), r.value.1))
  }

  lemma NothingBefore(r: Option<(Items, nat)>)
    ensures JoinItems([], r) == r
  {
  }

  lemma {:induction false} ChainSnoc(c: seq<Json>, v: Json, l: Items)
    ensures Chain(c + [v], l) == Chain(c, Item(v, l)) && Chain([v], l) == Item(v, l)
  {
    assert [v][1..] == [];
    if c != [] {
      assert (c + [v])[1..] == c[1..] + [v];
      ChainSnoc(c[1..], v, l);
    } else {
      assert c + [v] == [v];
    }
  }

  /** One turn of the loop of `parse_array`, on the children read so far and what follows the element. */
  lemma ItemsTurn(c: seq<Json>, v: Json, r: Option<(Items, nat)>)
    ensures JoinItems(c, JoinItems([v], r)) == JoinItems(c + [v], r)
    ensures Chain(c, Item(v, NoItem)) == Chain(c + [v], NoItem)
  {
    hide Chain;
    ChainSnoc(c, v, NoItem);
    if r.Some? {
      ChainSnoc(c, v, r.value.0);
    }
  }

  function ChainMembers(c: seq<(Bytes, Json)>, l: Members): Members {
    if c == [] then l else Member(c[0].0, c[0].1, ChainMembers(c[1..], l))
  }

  function JoinMembers(c: seq<(Bytes, Json)>, r: Option<(Members, nat)>): Option<(Members, nat)> {
    if r.None? then None else Some((ChainMembers(c, r.value.0), r.value.1))
  }

  lemma NoMemberBefore(r: Option<(Members, nat)>)
    ensures JoinMembers([], r) == r
  {
  }

  lemma {:induction false} ChainMembersSnoc(c: seq<(Bytes, Json)>, k: Bytes, v: Json, l: Members)
    ensures ChainMembers(c + [(k, v)], l) == ChainMembers(c, Member(k, v, l))
    ensures ChainMembers([(k, v)], l) == Member(k, v, l)
  {
    assert [(k, v)][1..] == [];
    if c != [] {
      assert (c + [(k, v)])[1..] == c[1..] + [(k, v)];
      ChainMembersSnoc(c[1..], k, v, l);
    } else {
      assert c + [(k, v)] == [(k, v)];
    }
  }

  lemma KeyFail(lib: CLib, s: Bytes, k: nat)
    requires EndsNul(s) && ParseKey(s).None?
    ensures ParseMembers(lib, s, k).None?
  {
  }

  /** One turn of the loop of `parse_object`. */
  lemma MembersTurn(c: seq<(Bytes, Json)>, key: Bytes, v: Json, r: Option<(Members, nat)>)
    ensures JoinMembers(c, JoinMembers([(key, v)], r)) == JoinMembers(c + [(key, v)], r)
    ensures ChainMembers(c, Member(key, v, NoMember)) == ChainMembers(c + [(key, v)], NoMember)
  {
    hide ChainMembers;
    ChainMembersSnoc(c, key, v, NoMember);
    if r.Some? {
      ChainMembersSnoc(c, key, v, r.value.0);
    }
  }

  /** `cJSON_ParseWithOpts` on a C string. */
  method ParseWithOpts(lib: CLib, text: Bytes, requireEnd: bool) returns (r: Option<(Json, nat)>)
    requires NulFree(text)
    ensures r == Parse(lib, text, requireEnd)
  {
    hide ParseValue, Skip;
    var b := new ParseBuffer(text);
    ghost var s := b.content;
    assert s[0..] == s;
    if |b.content| > 4 && b.content[..3] == [0xEF, 0xBB, 0xBF] {
      b.offset := 3;
    }
    assert b.offset == Bom(s);
    b.SkipWhitespace();
    var ok, v := b.ReadValue(lib);
    if !ok {
      return None;
    }
    if requireEnd {
      b.SkipWhitespace();
      if b.content[b.offset] != 0 {
        return None;
      }
    }
    r := Some((v, b.offset));
  }

  /** The trees of the round trip can be printed. */
  lemma {:induction false} WfPrintable(lib: CLib, t: Json)
    requires Wf(lib, t)
    ensures Printable(lib, t)
    decreases t, 0
  {
    hide NumberText, StrTod;
    match t
    case Array(l) => WfPrintableItems(lib, l);
    case Object(l) => WfPrintableMembers(lib, l);
    case _ =>
  }

  lemma {:induction false} WfPrintableItems(lib: CLib, l: Items)
    requires WfItems(lib, l)
    ensures PrintableItems(lib, l)
    decreases l, 0
  {
    hide Wf, Printable;
    if l.Item? {
      WfPrintable(lib, l.value);
      WfPrintableItems(lib, l.next);
    }
  }

  lemma {:induction false} WfPrintableMembers(lib: CLib, l: Members)
    requires WfMembers(lib, l)
    ensures PrintableMembers(lib, l)
    decreases l, 0
  {
    hide Wf, Printable;
    if l.Member? {
      WfPrintable(lib, l.value);
      WfPrintableMembers(lib, l.next);
    }
  }

  /** Printing into a growing buffer and parsing the result, run after each other. */
  method PrintThenParse(lib: CLib, t: Json, fmt: bool) returns (r: Option<(Json, nat)>)
    requires Wf(lib, t) && |Print(lib, t, fmt, 0)| + 2 <= INT_MAX
    ensures r == if Depth(t) <= NESTING_LIMIT then Some((t, |Print(lib, t, fmt, 0)|)) else None
  {
    hide Print, Parse, Wf, Printable, Depth;
    WfPrintable(lib, t);
    NulFreePrint(lib, t, fmt, 0);
    var printed := PrintToString(lib, t, fmt);
    var text := printed[..printed.Length - 1];
    assert text == Print(lib, t, fmt, 0);
    r := ParseWithOpts(lib, text, true);
    RoundTrip(lib, t, fmt, true);
  }
}
