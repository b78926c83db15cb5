/**
 The printer into a buffer that grows or, preallocated, may not: every print method writes
 exactly the text of the pure printer behind what is already there, and succeeds exactly when
 the text and two more bytes fit.
 */
module JsonPrint {
  import opened JsonText

  // ---------- What can be printed ----------

  /** C strings throughout, and number texts that fit `number_buffer`. */
  predicate Printable(lib: CLib, t: Json)
    decreases t, 0
  {
    match t
    case Number(_, x) => NulFree(NumberText(lib, x)) && |NumberText(lib, x)| <= 25
    case String(s) => NulFree(s)
    case Array(l) => PrintableItems(lib, l)
    case Object(l) => PrintableMembers(lib, l)
    case _ => true
  }

  predicate PrintableItems(lib: CLib, l: Items)
    decreases l, 0
  {
    l.Item? ==> Printable(lib, l.value) && PrintableItems(lib, l.next)
  }

  predicate PrintableMembers(lib: CLib, l: Members)
    decreases l, 0
  {
    l.Member? ==> NulFree(l.key) && Printable(lib, l.value) && PrintableMembers(lib, l.next)
  }

  lemma NulFreeJoin(a: Bytes, b: Bytes)
    ensures NulFree(a + b) <==> NulFree(a) && NulFree(b)
  {
    if NulFree(a + b) {
      assert forall i :: 0 <= i < |a| ==> a[i] == (a + b)[i];
      assert forall i :: 0 <= i < |b| ==> b[i] == (a + b)[|a| + i];
    }
  }

  lemma {:induction false} NulFreeEscape(s: Bytes)
    requires NulFree(s)
    ensures NulFree(Escape(s))
  {
    if s != [] {
      NulFreeEscape(s[1..]);
      NulFreeJoin(EscapeByte(s[0]), Escape(s[1..]));
    }
  }

  lemma NulFreeQuoted(s: Bytes)
    requires NulFree(s)
    ensures NulFree(Quoted(s))
  {
    hide Escape;
    NulFreeEscape(s);
    NulFreeJoin([QUOTE], Escape(s));
    NulFreeJoin([QUOTE] + Escape(s), [QUOTE]);
  }

  lemma NulFreeParts(fmt: bool, d: nat)
    ensures NulFree(Lead(fmt, d)) && NulFree(LineEnd(fmt)) && NulFree(AfterColon(fmt)) && NulFree(AfterComma(fmt))
    ensures NulFree([COMMA]) && NulFree([COLON]) && NulFree([]) && NulFree([OPEN_ARRAY]) && NulFree([OPEN_OBJECT])
    ensures NulFree([CLOSE_ARRAY]) && NulFree([CLOSE_OBJECT]) && NulFree(NULL_TEXT) && NulFree(TRUE_TEXT)
    ensures NulFree(FALSE_TEXT)
  {
  }

  /** A printed text holds no NUL, so `strlen` finds its end. */
  lemma {:induction false} NulFreePrint(lib: CLib, t: Json, fmt: bool, d: nat)
    requires Printable(lib, t)
    ensures NulFree(Print(lib, t, fmt, d))
    decreases t, 0
  {
    hide NulFree, PrintItems, PrintMembers, NumberText, LineEnd, Lead, Quoted;
    NulFreeParts(fmt, d);
    match t
    case String(s) => NulFreeQuoted(s);
    case Array(l) =>
      NulFreeItems(lib, l, fmt, d + 1);
      NulFreeJoin(PrintItems(lib, l, fmt, d + 1), [CLOSE_ARRAY]);
      NulFreeJoin([OPEN_ARRAY], PrintItems(lib, l, fmt, d + 1) + [CLOSE_ARRAY]);
    case Object(l) =>
      var m, ld := PrintMembers(lib, l, fmt, d + 1), Lead(fmt, d);
      NulFreeMembers(lib, l, fmt, d + 1);
      NulFreeJoin(ld, [CLOSE_OBJECT]);
      NulFreeJoin(m, ld + [CLOSE_OBJECT]);
      NulFreeJoin(LineEnd(fmt), m + (ld + [CLOSE_OBJECT]));
      NulFreeJoin([OPEN_OBJECT], LineEnd(fmt) + (m + (ld + [CLOSE_OBJECT])));
    case _ =>
  }

  lemma {:induction false} NulFreeItems(lib: CLib, l: Items, fmt: bool, d: nat)
    requires PrintableItems(lib, l)
    ensures NulFree(PrintItems(lib, l, fmt, d))
    decreases l, 1
  {
    hide NulFree, Print, AfterComma;
    NulFreeParts(fmt, d);
    if l.Item? {
      NulFreePrint(lib, l.value, fmt, d);
      NulFreeItems(lib, l.next, fmt, d);
      NulFreeJoin(AfterComma(fmt), PrintItems(lib, l.next, fmt, d));
      NulFreeJoin([COMMA], AfterComma(fmt) + PrintItems(lib, l.next, fmt, d));
      NulFreeJoin(Print(lib, l.value, fmt, d), PrintNextItem(lib, l.next, fmt, d));
    }
  }

  lemma {:induction false} NulFreeMembers(lib: CLib, l: Members, fmt: bool, d: nat)
    requires PrintableMembers(lib, l)
    ensures NulFree(PrintMembers(lib, l, fmt, d))
    decreases l, 1
  {
    hide NulFree, Print, AfterColon, Lead, LineEnd, Quoted;
    NulFreeParts(fmt, d);
    if l.Member? {
      var p, n, g := Print(lib, l.value, fmt, d), PrintNextMember(lib, l.next, fmt, d), AfterColon(fmt);
      NulFreePrint(lib, l.value, fmt, d);
      NulFreeMembers(lib, l.next, fmt, d);
      NulFreeJoin(LineEnd(fmt), PrintMembers(lib, l.next, fmt, d));
      NulFreeJoin([COMMA], LineEnd(fmt) + PrintMembers(lib, l.next, fmt, d));
      NulFreeJoin(p, n);
      NulFreeJoin(g, p + n);
      NulFreeJoin([COLON], g + (p + n));
      NulFreeQuoted(l.key);
      NulFreeJoin(Quoted(l.key), [COLON] + (g + (p + n)));
      NulFreeJoin(Lead(fmt, d), PrintMember(lib, l, fmt, d));
    }
  }

  // ---------- The buffer ----------

  class PrintBuffer {
    var buffer: array<Byte>
    var length: nat
    var offset: nat
    var depth: nat
    const noalloc: bool
    const format: bool

    predicate Valid()
      reads this
    {
      length <= buffer.Length && length <= INT_MAX && (offset < length || (noalloc && offset == 0))
    }

    /** What has been printed so far. */
    function Text(): (r: Bytes)
      reads this, buffer
      requires Valid()
      ensures |r| == offset
    {
      buffer[..offset]
    }

    /** The largest size the buffer may have. */
    function Limit(): nat
      reads this
    {
      if noalloc then length else INT_MAX
    }

    constructor (buffer: array<Byte>, length: nat, noalloc: bool, format: bool)
      requires length <= buffer.Length && length <= INT_MAX && (noalloc || 0 < length)
      ensures Valid() && this.buffer == buffer && this.length == length && offset == 0 && depth == 0
      ensures this.noalloc == noalloc && this.format == format
    {
      this.buffer, this.length, offset, depth := buffer, length, 0, 0;
      this.noalloc, this.format := noalloc, format;
    }

    /** `ensure`, with allocation that always succeeds. */
    method Ensure(needed: nat) returns (ok: bool)
      requires Valid()
      modifies this`buffer, this`length
      ensures Valid() && Limit() == old(Limit()) && (buffer == old(buffer) || fresh(buffer))
      ensures ok <==> offset + needed + 1 <= Limit()
      ensures ok ==> offset + needed + 1 <= length && Text() == old(Text())
      ensures noalloc ==> buffer == old(buffer)
    {
      if (length > 0 && offset >= length) || needed > INT_MAX {
        return false;
      }
      var size := needed + offset + 1;
      if size <= length {
        return true;
      }
      if noalloc {
        return false;
      }
      var newsize;
      if size > INT_MAX / 2 {
        if size > INT_MAX {
          return false;
        }
        newsize := INT_MAX;
      } else {
        newsize := size * 2;
      }
      var newbuffer := new Byte[newsize];
      for i := 0 to offset + 1
        invariant buffer == old(buffer) && offset < length == old(length) && newbuffer[..i] == buffer[..i]
      {
        newbuffer[i] := buffer[i];
      }
      assert newbuffer[..offset] == newbuffer[..offset + 1][..offset];
      assert buffer[..offset] == buffer[..offset + 1][..offset];
      length, buffer := newsize, newbuffer;
      ok := true;
    }

    /** Bytes written from position `at` on. */
    method Put(at: nat, s: Bytes)
      requires Valid() && at + |s| <= length
      modifies buffer
      ensures buffer[..at] == old(buffer[..at]) && buffer[at..at + |s|] == s
      ensures buffer[at + |s|..] == old(buffer[at + |s|..])
    {
      for i := 0 to |s|
        invariant buffer[..at] == old(buffer[..at]) && buffer[at..at + i] == s[..i]
        invariant buffer[at + |s|..] == old(buffer[at + |s|..])
      {
        buffer[at + i] := s[i];
      }
    }

    /** Space for `needed` bytes, then the bytes `s`, and the offset moves behind them. */
    method Append(s: Bytes, needed: nat) returns (ok: bool)
      requires Valid() && |s| <= needed
      modifies this`buffer, this`length, this`offset, buffer
      ensures Valid() && Limit() == old(Limit()) && (buffer == old(buffer) || fresh(buffer))
      ensures ok <==> old(offset) + needed + 1 <= Limit()
      ensures ok ==> Text() == old(Text()) + s
      ensures noalloc ==> buffer == old(buffer) && buffer[length..] == old(buffer[length..])
    {
      ok := Ensure(needed);
      if ok {
        Put(offset, s);
        offset := offset + |s|;
        assert buffer[..offset] == buffer[..old(offset)] + buffer[old(offset)..offset];
      }
    }

    /** The text `s` lies behind `before`, NUL-terminated, and the offset is somewhere in it. */
    ghost predicate Ends(before: Bytes, s: Bytes)
      reads this, buffer
    {
      && Valid() && |before| <= offset <= |before| + |s| < length
      && buffer[..|before| + |s|] == before + s && buffer[|before| + |s|] == 0
    }

    /** Space for `needed` bytes, then `s` and a NUL; the offset stays. */
    method Leave(s: Bytes, needed: nat) returns (ok: bool)
      requires Valid() && |s| + 1 <= needed
      modifies this`buffer, this`length, buffer
      ensures Valid() && Limit() == old(Limit()) && (buffer == old(buffer) || fresh(buffer))
      ensures ok <==> offset + needed + 1 <= Limit()
      ensures ok ==> Ends(old(Text()), s)
      ensures noalloc ==> buffer == old(buffer) && buffer[length..] == old(buffer[length..])
    {
      ok := Ensure(needed);
      if ok {
        Put(offset, s + [0]);
        assert |s + [0]| == |s| + 1;
        PutEnds(old(Text()), s);
      }
    }

    /** `update_offset` */
    method UpdateOffset(ghost before: Bytes, ghost s: Bytes)
      requires Ends(before, s) && NulFree(s)
      modifies this`offset
      ensures Valid() && Text() == before + s
    {
      while buffer[offset] != 0
        invariant Ends(before, s)
        invariant offset < |before| + |s| ==> buffer[offset] == s[offset - |before|]
        decreases |before| + |s| - offset
      {
        offset := offset + 1;
      }
    }

    lemma PutEnds(before: Bytes, s: Bytes)
      requires Valid() && Text() == before && offset + |s| < length && buffer[offset..offset + |s| + 1] == s + [0]
      ensures Ends(before, s)
    {
      assert buffer[..offset + |s|] == buffer[..offset] + buffer[offset..offset + |s| + 1][..|s|];
      assert buffer[offset..offset + |s| + 1][|s|] == 0;
    }

    /** The writing pass of `print_string_ptr`. */
    method WriteEscaped(s: Bytes)
      requires Valid() && offset + 1 + |Escape(s)| < length
      modifies buffer
      ensures buffer[..offset + 1 + |Escape(s)|] == old(Text()) + ([QUOTE] + Escape(s))
      ensures buffer[length..] == old(buffer[length..])
    {
      hide EscapeByte;
      buffer[offset] := QUOTE;
      var out := offset + 1;
      assert buffer[..out] == old(Text()) + ([QUOTE] + Escape(s[..0]));
      for i := 0 to |s|
        invariant out == offset + 1 + |Escape(s[..i])| && |Escape(s[..i])| <= |Escape(s)|
        invariant buffer[..out] == old(Text()) + ([QUOTE] + Escape(s[..i]))
        invariant buffer[length..] == old(buffer[length..])
      {
        ghost var before, e := buffer[..out], Escape(s[..i]);
        EscapeSnoc(s, i);
        EscapePrefix(s, i + 1);
        out := PutEscaped(out, s[i]);
        assert buffer[..out] == before + EscapeByte(s[i]);
        Assoc(old(Text()), [QUOTE] + e, EscapeByte(s[i]));
        Assoc([QUOTE], e, EscapeByte(s[i]));
      }
      assert s[..|s|] == s;
    }

    /** One byte of a string, copied or escaped; `sprintf` ends its escape with a NUL that the next byte overwrites. */
    method PutEscaped(out: nat, b: Byte) returns (next: nat)
      requires Valid() && out + |EscapeByte(b)| < length
      modifies buffer
      ensures next == out + |EscapeByte(b)|
      ensures buffer[..out] == old(buffer[..out]) && buffer[out..next] == EscapeByte(b)
      ensures buffer[length..] == old(buffer[length..])
    {
      if b > 31 && b != QUOTE && b != BACKSLASH {
        buffer[out] := b;
        return out + 1;
      }
      var escape: Bytes := match b
        case 92 => [BACKSLASH, BACKSLASH]
        case 34 => [BACKSLASH, QUOTE]
        case 8 => [BACKSLASH, 98]
        case 12 => [BACKSLASH, 102]
        case 10 => [BACKSLASH, 110]
        case 13 => [BACKSLASH, 114]
        case 9 => [BACKSLASH, 116]
        case _ => [BACKSLASH, 117, 48, 48, HexDigit(b / 16), HexDigit(b % 16), 0];
      next := out + if |escape| == 2 then 2 else 6;
      assert EscapeByte(b) == escape[..next - out];
      PutPart(out, escape, next - out);
    }

    /** Bytes of which only the first `n` will stay. */
    method PutPart(at: nat, s: Bytes, n: nat)
      requires Valid() && at + |s| <= length && n <= |s|
      modifies buffer
      ensures buffer[..at] == old(buffer[..at]) && buffer[at..at + n] == s[..n]
      ensures buffer[length..] == old(buffer[length..])
    {
      Put(at, s);
      assert buffer[at..at + n] == buffer[at..at + |s|][..n];
      assert buffer[length..] == buffer[at + |s|..][length - at - |s|..];
    }

    /** The counting pass of `print_string_ptr`. */
    method CountEscapes(s: Bytes) returns (escapes: nat)
      ensures |s| + escapes == |Escape(s)|
    {
      escapes := 0;
      assert s[..|s|] == s;
      for i := 0 to |s|
        invariant i + escapes == |Escape(s[..i])|
      {
        EscapeSnoc(s, i);
        match s[i] {
          case 34 => escapes := escapes + 1;
          case 92 => escapes := escapes + 1;
          case 8 => escapes := escapes + 1;
          case 12 => escapes := escapes + 1;
          case 10 => escapes := escapes + 1;
          case 13 => escapes := escapes + 1;
          case 9 => escapes := escapes + 1;
          case _ =>
            if s[i] < 32 {
              escapes := escapes + 5;
            }
        }
      }
    }

    /**
     `print_string_ptr`: the counting pass and the writing pass agree, so the closing quote
     lands behind the last byte.
     */
    method PrintStringPtr(s: Bytes) returns (ok: bool)
      requires Valid()
      modifies this`buffer, this`length, buffer
      ensures Valid() && Limit() == old(Limit()) && (buffer == old(buffer) || fresh(buffer))
      ensures ok <==> offset + |Quoted(s)| + 2 <= Limit()
      ensures ok ==> Ends(old(Text()), Quoted(s))
      ensures noalloc ==> buffer == old(buffer) && buffer[length..] == old(buffer[length..])
    {
      hide Escape, EscapeByte;
      var escapes := CountEscapes(s);
      var n := |s| + escapes;
      ok := Ensure(n + 3);
      if !ok {
        return;
      }
      if escapes == 0 {
        WritePlain(s);
      } else {
        WriteEscaped(s);
        Close(offset + 1 + n, old(Text()), [QUOTE] + Escape(s));
      }
    }

    /** The fast path of `print_string_ptr`: nothing to escape. */
    method WritePlain(s: Bytes)
      requires Valid() && |Escape(s)| == |s| && offset + |s| + 2 < length
      modifies buffer
      ensures Ends(old(Text()), Quoted(s)) && buffer[length..] == old(buffer[length..])
    {
      hide Escape, Quoted;
      NothingEscaped(s);
      Put(offset, [QUOTE] + s + [QUOTE, 0]);
      PutEnds(old(Text()), Quoted(s));
      assert buffer[length..] == buffer[offset + |s| + 3..][length - offset - |s| - 3..];
    }

    /** The closing quote and the NUL. */
    method Close(end: nat, ghost before: Bytes, ghost s: Bytes)
      requires Valid() && |before| == offset && end == offset + |s| && end + 1 < length && buffer[..end] == before + s
      modifies buffer
      ensures Ends(before, s + [QUOTE]) && buffer[length..] == old(buffer[length..])
    {
      buffer[end], buffer[end + 1] := QUOTE, 0;
      assert buffer[..end + 1] == (before + s) + [QUOTE];
      Assoc(before, s, [QUOTE]);
    }

    /** What every step keeps: the buffer only grows, and a preallocated one stays, untouched beyond its length. */
    twostate predicate Stable()
      reads this, buffer
    {
      && Valid() && Limit() == old(Limit()) && (buffer == old(buffer) || fresh(buffer))
      && (noalloc ==> buffer == old(buffer) && buffer[length..] == old(buffer[length..]))
    }

    /** `print_number` */
    method PrintNumber(lib: CLib, x: real) returns (ok: bool)
      requires Valid()
      modifies this`buffer, this`length, this`offset, buffer
      ensures Stable()
      ensures ok <==> |NumberText(lib, x)| <= 25 && old(offset) + |NumberText(lib, x)| + 2 <= Limit()
      ensures ok ==> Ends(old(Text()), NumberText(lib, x))
    {
      hide NumberText;
      var number := NumberText(lib, x);
      if |number| > 25 {
        return false;
      }
      ok := Leave(number, |number| + 1);
      if ok {
        offset := offset + |number|;
      }
    }

    /** `print_value` and the `update_offset` that its callers do next. */
    method PrintNext(lib: CLib, t: Json) returns (ok: bool)
      requires Valid() && Printable(lib, t)
      modifies this, buffer
      ensures Stable() && (ok ==> depth == old(depth))
      ensures ok <==> old(offset) + |Print(lib, t, format, old(depth))| + 2 <= Limit()
      ensures ok ==> Text() == old(Text()) + Print(lib, t, format, old(depth))
      decreases t, 1
    {
      hide Print, Printable;
      ok := PrintValue(lib, t);
      if ok {
        NulFreePrint(lib, t, format, depth);
        UpdateOffset(old(Text()), Print(lib, t, format, depth));
      }
    }

    /**
     `print_value`: the text of the pure printer behind what was there; it fails exactly when
     the text and two more bytes do not fit.
     */
    method PrintValue(lib: CLib, t: Json) returns (ok: bool)
      requires Valid() && Printable(lib, t)
      modifies this, buffer
      ensures Stable() && (ok ==> depth == old(depth))
      ensures ok <==> old(offset) + |Print(lib, t, format, old(depth))| + 2 <= Limit()
      ensures ok ==> Ends(old(Text()), Print(lib, t, format, old(depth)))
      decreases t, 0
    {
      hide Quoted, NumberText, PrintItems, PrintMembers;
      match t
      case Null => ok := Leave(NULL_TEXT, 5);
      case False => ok := Leave(FALSE_TEXT, 6);
      case True => ok := Leave(TRUE_TEXT, 5);
      case Number(_, x) => ok := PrintNumber(lib, x);
      case String(s) => ok := PrintStringPtr(s);
      case Array(l) => ok := PrintArray(lib, l);
      case Object(l) => ok := PrintObject(lib, l);
    }

    lemma EndsMore(before: Bytes, done: Bytes, last: Bytes)
      requires Ends(before + done, last)
      ensures Ends(before, done + last)
    {
      Assoc(before, done, last);
    }

    /** Bytes and a NUL, and the offset moves to the NUL. */
    method AppendNul(s: Bytes, needed: nat) returns (ok: bool)
      requires Valid() && |s| + 1 <= needed
      modifies this`buffer, this`length, this`offset, buffer
      ensures Stable()
      ensures ok <==> old(offset) + needed + 1 <= Limit()
      ensures ok ==> Text() == old(Text()) + s
    {
      ok := Leave(s, needed);
      if ok {
        offset := offset + |s|;
      }
    }

    /** An opening bracket, and one level deeper. */
    method Open(s: Bytes, needed: nat) returns (ok: bool)
      requires Valid() && |s| <= needed
      modifies this, buffer
      ensures Stable()
      ensures ok ==> Text() == old(Text()) + s && depth == old(depth) + 1
      ensures ok <==> old(offset) + needed + 1 <= Limit()
    {
      ok := Append(s, needed);
      depth := depth + 1;
    }

    /** A closing bracket, and one level up. */
    method Shut(s: Bytes) returns (ok: bool)
      requires Valid() && depth > 0
      modifies this, buffer
      ensures Stable()
      ensures ok ==> Ends(old(Text()), s) && depth == old(depth) - 1
      ensures ok <==> old(offset) + |s| + 2 <= Limit()
    {
      ok := Leave(s, |s| + 1);
      depth := depth - 1;
    }

    /** One turn of the loop of `print_array`. */
    method PrintElement(lib: CLib, t: Json, last: bool) returns (ok: bool)
      requires Valid() && Printable(lib, t)
      modifies this, buffer
      ensures Stable() && (ok ==> depth == old(depth))
      ensures ok ==> Text() == old(Text()) + ElementText(lib, t, last, format, old(depth))
      ensures !ok ==> old(offset) + |ElementText(lib, t, last, format, old(depth))| + 2 > Limit()
      decreases t, 2
    {
      hide Print, Printable;
      ok := PrintNext(lib, t);
      if !ok || last {
        Empty(Print(lib, t, format, old(depth)));
        return;
      }
      var comma := if format then [COMMA, SPACE] else [COMMA];
      ok := AppendNul(comma, |comma| + 1);
      Assoc(old(Text()), Print(lib, t, format, old(depth)), comma);
    }

    /** `print_array` */
    method PrintArray(lib: CLib, l: Items) returns (ok: bool)
      requires Valid() && PrintableItems(lib, l)
      modifies this, buffer
      ensures Stable() && (ok ==> depth == old(depth))
      ensures ok <==> old(offset) + |Print(lib, Array(l), format, old(depth))| + 2 <= Limit()
      ensures ok ==> Ends(old(Text()), Print(lib, Array(l), format, old(depth)))
      decreases l, 4
    {
      hide Print, PrintItems, Printable, ElementText, PrintBuffer.Text, PrintBuffer.Ends;
      ghost var before, d, full := Text(), depth, Print(lib, Array(l), format, depth);
      ghost var done := [OPEN_ARRAY];
      ArrayParts(lib, l, format, d);
      ok := Open([OPEN_ARRAY], 1);
      if !ok {
        return;
      }
      var current := l;
      while current.Item?
        invariant Stable() && depth == d + 1 && PrintableItems(lib, current) && (current == l || current < l)
        invariant Text() == before + done
        invariant full == done + (PrintItems(lib, current, format, d + 1) + [CLOSE_ARRAY])
        decreases current
      {
        ItemParts(lib, done, current, format, d + 1);
        ghost var piece := ElementText(lib, current.value, current.next.NoItem?, format, d + 1);
        ok := PrintElement(lib, current.value, current.next.NoItem?);
        if !ok {
          return;
        }
        Assoc(before, done, piece);
        done := done + piece;
        current := current.next;
      }
      NoItems(lib, current, format, d + 1);
      ok := Shut([CLOSE_ARRAY]);
      if ok {
        EndsMore(before, done, [CLOSE_ARRAY]);
      }
    }

    /** A name, quoted. */
    method PrintKey(s: Bytes) returns (ok: bool)
      requires Valid() && NulFree(s)
      modifies this`buffer, this`length, this`offset, buffer
      ensures Stable()
      ensures ok <==> old(offset) + |Quoted(s)| + 2 <= Limit()
      ensures ok ==> Text() == old(Text()) + Quoted(s)
    {
      hide Quoted, NulFree;
      ok := PrintStringPtr(s);
      if ok {
        NulFreeQuoted(s);
        UpdateOffset(old(Text()), Quoted(s));
      }
    }

    /** The tabs, the name and the colon. */
    method PrintLineHead(key: Bytes) returns (ok: bool)
      requires Valid() && NulFree(key)
      modifies this`buffer, this`length, this`offset, buffer
      ensures Stable()
      ensures ok ==> Text() == old(Text()) + LineHead(key, format, depth)
      ensures !ok ==> old(offset) + |LineHead(key, format, depth)| + 1 > Limit()
    {
      hide Quoted, NulFree, Tabs, PrintBuffer.Text, PrintBuffer.Ends;
      ghost var before, tabs := Text(), [];
      Empty(before);
      if format {
        ok := Append(Tabs(depth), depth);
        if !ok {
          return;
        }
        tabs := Tabs(depth);
      }
      ok := PrintKey(key);
      if !ok {
        return;
      }
      Assoc(before, tabs, Quoted(key));
      var colon := if format then [COLON, TAB] else [COLON];
      ok := Append(colon, |colon|);
      Assoc(before, tabs + Quoted(key), colon);
    }

    /** One turn of the loop of `print_object`. */
    method PrintMemberLine(lib: CLib, key: Bytes, t: Json, last: bool) returns (ok: bool)
      requires Valid() && Printable(lib, t) && NulFree(key)
      modifies this, buffer
      ensures Stable() && (ok ==> depth == old(depth))
      ensures ok ==> Text() == old(Text()) + MemberText(lib, key, t, last, format, old(depth))
      ensures !ok ==> old(offset) + |MemberText(lib, key, t, last, format, old(depth))| + 2 > Limit()
      decreases t, 2
    {
      hide Print, Printable, LineHead, NulFree, PrintBuffer.Text, PrintBuffer.Ends;
      ghost var before, head, p := Text(), LineHead(key, format, depth), Print(lib, t, format, depth);
      var end := (if last then [] else [COMMA]) + (if format then [NEWLINE] else []);
      MemberTextIs(lib, key, t, last, format, depth);
      ok := PrintLineHead(key);
      if !ok {
        return;
      }
      ok := PrintNext(lib, t);
      if !ok {
        return;
      }
      Assoc(before, head, p);
      ok := AppendNul(end, |end| + 1);
      Assoc(before, head + p, end);
    }

    /** `print_object` */
    method PrintObject(lib: CLib, l: Members) returns (ok: bool)
      requires Valid() && PrintableMembers(lib, l)
      modifies this, buffer
      ensures Stable() && (ok ==> depth == old(depth))
      ensures ok <==> old(offset) + |Print(lib, Object(l), format, old(depth))| + 2 <= Limit()
      ensures ok ==> Ends(old(Text()), Print(lib, Object(l), format, old(depth)))
      decreases l, 4
    {
      hide Print, PrintMembers, Printable, MemberText, NulFree, Tabs, PrintBuffer.Text, PrintBuffer.Ends;
      ghost var before, d, full := Text(), depth, Print(lib, Object(l), format, depth);
      ghost var last := Lead(format, d) + [CLOSE_OBJECT];
      ObjectParts(lib, l, format, d);
      var open := if format then [OPEN_OBJECT, NEWLINE] else [OPEN_OBJECT];
      ghost var done := open;
      ok := Open(open, |open| + 1);
      if !ok {
        return;
      }
      var current := l;
      while current.Member?
        invariant Stable() && depth == d + 1 && PrintableMembers(lib, current) && (current == l || current < l)
        invariant Text() == before + done
        invariant full == done + (PrintMembers(lib, current, format, d + 1) + last)
        decreases current
      {
        MemberParts(lib, done, current, last, format, d + 1);
        ghost var piece := MemberText(lib, current.key, current.value, current.next.NoMember?, format, d + 1);
        ok := PrintMemberLine(lib, current.key, current.value, current.next.NoMember?);
        if !ok {
          return;
        }
        Assoc(before, done, piece);
        done := done + piece;
        current := current.next;
      }
      NoMembers(lib, current, last, format, d + 1);
      var close := (if format then Tabs(depth - 1) else []) + [CLOSE_OBJECT];
      ok := Shut(close);
      if ok {
        EndsMore(before, done, close);
      }
    }
  }

  /** An element and what the loop of `print_array` prints behind it. */
  function ElementText(lib: CLib, t: Json, last: bool, fmt: bool, d: nat): Bytes {
    Print(lib, t, fmt, d) + if last then [] else if fmt then [COMMA, SPACE] else [COMMA]
  }

  function LineHead(key: Bytes, fmt: bool, d: nat): Bytes {
    ((if fmt then Tabs(d) else []) + Quoted(key)) + (if fmt then [COLON, TAB] else [COLON])
  }

  lemma MemberTextIs(lib: CLib, key: Bytes, t: Json, last: bool, fmt: bool, d: nat)
    ensures
      MemberText(lib, key, t, last, fmt, d) ==
      (LineHead(key, fmt, d) + Print(lib, t, fmt, d))
        + ((if last then [] else [COMMA]) + (if fmt then [NEWLINE] else []))
  {
  }

  /** What one turn of the loop of `print_object` prints. */
  function MemberText(lib: CLib, key: Bytes, t: Json, last: bool, fmt: bool, d: nat): Bytes {
    (LineHead(key, fmt, d) + Print(lib, t, fmt, d))
    + ((if last then [] else [COMMA]) + (if fmt then [NEWLINE] else []))
  }

  lemma ArrayParts(lib: CLib, l: Items, fmt: bool, d: nat)
    ensures Print(lib, Array(l), fmt, d) == [OPEN_ARRAY] + (PrintItems(lib, l, fmt, d + 1) + [CLOSE_ARRAY])
  {
    hide PrintItems;
  }

  lemma NoItems(lib: CLib, l: Items, fmt: bool, d: nat)
    requires l.NoItem?
    ensures PrintItems(lib, l, fmt, d) + [CLOSE_ARRAY] == [CLOSE_ARRAY]
  {
    Empty([CLOSE_ARRAY]);
  }

  lemma ItemParts(lib: CLib, done: Bytes, l: Items, fmt: bool, d: nat)
    requires l.Item?
    ensures
      done + (PrintItems(lib, l, fmt, d) + [CLOSE_ARRAY]) ==
      (done + ElementText(lib, l.value, l.next.NoItem?, fmt, d)) + (PrintItems(lib, l.next, fmt, d) + [CLOSE_ARRAY])
  {
    hide Print, PrintItems;
    var e, m, p := ElementText(lib, l.value, l.next.NoItem?, fmt, d), PrintItems(lib, l.next, fmt, d),
      Print(lib, l.value, fmt, d);
    ItemsUnfold(lib, l, fmt, d);
    if l.next.NoItem? {
      Empty(p);
    } else {
      var comma := if fmt then [COMMA, SPACE] else [COMMA];
      assert comma == [COMMA] + AfterComma(fmt);
      Assoc([COMMA], AfterComma(fmt), m);
      Assoc(p, comma, m);
    }
    assert PrintItems(lib, l, fmt, d) == e + m;
    Assoc(e, m, [CLOSE_ARRAY]);
    Assoc(done, e, m + [CLOSE_ARRAY]);
  }

  lemma ItemsUnfold(lib: CLib, l: Items, fmt: bool, d: nat)
    requires l.Item?
    ensures
      PrintItems(lib, l, fmt, d) ==
      Print(lib, l.value, fmt, d)
        + (if l.next.NoItem? then [] else [COMMA] + (AfterComma(fmt) + PrintItems(lib, l.next, fmt, d)))
    ensures l.next.NoItem? ==> PrintItems(lib, l.next, fmt, d) == []
  {
    hide Print;
  }

  lemma ObjectParts(lib: CLib, l: Members, fmt: bool, d: nat)
    ensures
      Print(lib, Object(l), fmt, d) ==
      (if fmt then [OPEN_OBJECT, NEWLINE] else [OPEN_OBJECT])
        + (PrintMembers(lib, l, fmt, d + 1) + (Lead(fmt, d) + [CLOSE_OBJECT]))
  {
    hide PrintMembers, Lead;
    Assoc([OPEN_OBJECT], LineEnd(fmt), PrintMembers(lib, l, fmt, d + 1) + (Lead(fmt, d) + [CLOSE_OBJECT]));
    assert [OPEN_OBJECT] + LineEnd(fmt) == if fmt then [OPEN_OBJECT, NEWLINE] else [OPEN_OBJECT];
  }

  lemma NoMembers(lib: CLib, l: Members, last: Bytes, fmt: bool, d: nat)
    requires l.NoMember?
    ensures PrintMembers(lib, l, fmt, d) + last == last
  {
    Empty(last);
  }

  lemma MemberParts(lib: CLib, done: Bytes, l: Members, last: Bytes, fmt: bool, d: nat)
    requires l.Member?
    ensures
      done + (PrintMembers(lib, l, fmt, d) + last) ==
      (done + MemberText(lib, l.key, l.value, l.next.NoMember?, fmt, d)) + (PrintMembers(lib, l.next, fmt, d) + last)
  {
    hide PrintMembers, MemberText;
    var e, m := MemberText(lib, l.key, l.value, l.next.NoMember?, fmt, d), PrintMembers(lib, l.next, fmt, d);
    MembersUnfold(lib, l, fmt, d);
    Assoc(e, m, last);
    Assoc(done, e, m + last);
  }

  lemma MembersUnfold(lib: CLib, l: Members, fmt: bool, d: nat)
    requires l.Member?
    ensures
      PrintMembers(lib, l, fmt, d) ==
      MemberText(lib, l.key, l.value, l.next.NoMember?, fmt, d) + PrintMembers(lib, l.next, fmt, d)
  {
    hide Print, Quoted, Tabs;
    var ld, q, p, m := Lead(fmt, d), Quoted(l.key), Print(lib, l.value, fmt, d), PrintMembers(lib, l.next, fmt, d);
    var colon := if fmt then [COLON, TAB] else [COLON];
    var end := (if l.next.NoMember? then [] else [COMMA]) + LineEnd(fmt);
    var n := PrintNextMember(lib, l.next, fmt, d);
    assert n == end + m by {
      Empty(LineEnd(fmt));
      Assoc([COMMA], LineEnd(fmt), m);
    }
    assert colon == [COLON] + AfterColon(fmt);
    Assoc([COLON], AfterColon(fmt), p + n);
    assert PrintMembers(lib, l, fmt, d) == ld + (q + (colon + (p + (end + m))));
    Assoc(ld, q, colon + (p + (end + m)));
    Assoc(ld + q, colon, p + (end + m));
    Assoc(ld + q + colon, p, end + m);
    Assoc(ld + q + colon + p, end, m);
  }

  lemma {:induction false} EscapeJoin(s: Bytes, t: Bytes)
    ensures Escape(s + t) == Escape(s) + Escape(t)
  {
    hide EscapeByte;
    if s == [] {
      Empty(t);
      Empty(Escape(t));
    } else {
      assert (s + t)[1..] == s[1..] + t;
      EscapeJoin(s[1..], t);
      Assoc(EscapeByte(s[0]), Escape(s[1..]), Escape(t));
    }
  }

  lemma EscapeSnoc(s: Bytes, i: nat)
    requires i < |s|
    ensures Escape(s[..i + 1]) == Escape(s[..i]) + EscapeByte(s[i])
  {
    hide EscapeByte;
    assert s[..i + 1] == s[..i] + [s[i]];
    EscapeJoin(s[..i], [s[i]]);
    assert [s[i]][1..] == [];
    Empty(EscapeByte(s[i]));
  }

  lemma EscapePrefix(s: Bytes, i: nat)
    requires i <= |s|
    ensures |Escape(s[..i])| <= |Escape(s)|
  {
    EscapeJoin(s[..i], s[i..]);
    assert s == s[..i] + s[i..];
  }

  lemma {:induction false} EscapeGrows(s: Bytes)
    ensures |s| <= |Escape(s)| && (|Escape(s)| == |s| ==> Escape(s) == s)
  {
    if s != [] {
      EscapeGrows(s[1..]);
    }
  }

  lemma NothingEscaped(s: Bytes)
    requires |Escape(s)| == |s|
    ensures Escape(s) == s && [QUOTE] + s + [QUOTE, 0] == Quoted(s) + [0]
  {
    hide Escape;
    EscapeGrows(s);
    assert [QUOTE, 0] == [QUOTE] + [0];
    Assoc([QUOTE] + s, [QUOTE], [0]);
  }

  // ---------- The entry points ----------

  /** The text `s` and its NUL stand at the start of the buffer. */
  ghost predicate Starts(a: array<Byte>, s: Bytes)
    reads a
  {
    |s| < a.Length && a[..|s|] == s && a[|s|] == 0
  }

  lemma EndsStart(p: PrintBuffer, s: Bytes)
    requires p.Ends([], s)
    ensures Starts(p.buffer, s)
  {
    Empty(s);
  }

  /** `cJSON_PrintBuffered`: the text does not depend on the size to start with. */
  method PrintBuffered(lib: CLib, t: Json, prebuffer: int, fmt: bool) returns (r: array?<Byte>)
    requires Printable(lib, t) && prebuffer <= INT_MAX && prebuffer != 0
    ensures r != null <==> prebuffer > 0 && |Print(lib, t, fmt, 0)| + 2 <= INT_MAX
    ensures r != null ==> Starts(r, Print(lib, t, fmt, 0))
  {
    hide Print, Printable, PrintBuffer.Ends, Starts;
    if prebuffer < 0 {
      return null;
    }
    var buffer := new Byte[prebuffer];
    var p := new PrintBuffer(buffer, prebuffer, false, fmt);
    var ok := p.PrintValue(lib, t);
    if !ok {
      return null;
    }
    EndsStart(p, Print(lib, t, fmt, 0));
    r := p.buffer;
  }

  /** `cJSON_Print` and `cJSON_PrintUnformatted`: an array of exactly the text and its NUL. */
  method PrintToString(lib: CLib, t: Json, fmt: bool) returns (r: array?<Byte>)
    requires Printable(lib, t)
    ensures r != null <==> |Print(lib, t, fmt, 0)| + 2 <= INT_MAX
    ensures r != null ==> r[..] == Print(lib, t, fmt, 0) + [0]
  {
    hide Print, Printable;
    var buffer := new Byte[256];
    var p := new PrintBuffer(buffer, 256, false, fmt);
    var ok := p.PrintNext(lib, t);
    if !ok {
      return null;
    }
    ghost var text := Print(lib, t, fmt, 0);
    Empty(text);
    var printed := new Byte[p.offset + 1];
    for i := 0 to p.offset
      invariant p.Valid() && p.Text() == text && fresh(p.buffer) && p.buffer != printed
      invariant printed[..i] == text[..i]
    {
      assert p.buffer[i] == p.Text()[i];
      printed[i] := p.buffer[i];
    }
    printed[p.offset] := 0;
    r := printed;
  }

  /**
   `cJSON_PrintPreallocated`: it succeeds exactly when the buffer has two bytes more than the
   text, and never touches what lies behind `len`.
   */
  method PrintPreallocated(lib: CLib, t: Json, buffer: array<Byte>, len: int, fmt: bool) returns (ok: bool)
    requires Printable(lib, t) && len <= INT_MAX && len <= buffer.Length
    modifies buffer
    ensures ok <==> |Print(lib, t, fmt, 0)| + 2 <= len
    ensures ok ==> Starts(buffer, Print(lib, t, fmt, 0))
    ensures len >= 0 ==> buffer[len..] == old(buffer[len..])
    ensures len < 0 ==> buffer[..] == old(buffer[..])
  {
    hide Print, Printable, PrintBuffer.Ends, Starts;
    if len < 0 {
      return false;
    }
    var p := new PrintBuffer(buffer, len, true, fmt);
    ok := p.PrintValue(lib, t);
    if ok {
      EndsStart(p, Print(lib, t, fmt, 0));
    }
  }
}
