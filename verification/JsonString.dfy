/**
 String literals: what `parse_string` accepts and yields (section 7 of RFC 8259), the UTF-8
 encoding of code points (section 3 of RFC 3629), and the two scans of the source.
 */
module JsonString {
  import opened Options
  import opened JsonText

  // ---------- UTF-8 ----------

  /** A Unicode scalar value. */
  predicate IsScalar(cp: nat) {
    cp < 0xD800 || 0xE000 <= cp < 0x11_0000
  }

  function Utf8(cp: nat): (r: Bytes)
    requires cp < 0x11_0000
    ensures 1 <= |r| <= 4
  {
    if cp < 0x80 then [cp]
    else if cp < 0x800 then [0xC0 + cp / 64, 0x80 + cp % 64]
    else if cp < 0x1_0000 then [0xE0 + cp / 4096, 0x80 + cp / 64 % 64, 0x80 + cp % 64]
    else [0xF0 + cp / 262144, 0x80 + cp / 4096 % 64, 0x80 + cp / 64 % 64, 0x80 + cp % 64]
  }

  function Tail(b: Byte): Option<nat> {
    if 0x80 <= b < 0xC0 then Some(b - 0x80) else None
  }

  /** A strict UTF-8 reader: shortest forms only, no surrogates, nothing beyond 0x10FFFF. */
  function Utf8Read(s: Bytes): Option<(nat, Bytes)> {
    if s == [] then None
    else if s[0] < 0x80 then Some((s[0], s[1..]))
    else if 0xC0 <= s[0] < 0xE0 then
      if |s| >= 2 && Tail(s[1]).Some? then
        var cp := (s[0] - 0xC0) * 64 + Tail(s[1]).value;
        if cp >= 0x80 then Some((cp, s[2..])) else None
      else None
    else if 0xE0 <= s[0] < 0xF0 then
      if |s| >= 3 && Tail(s[1]).Some? && Tail(s[2]).Some? then
        var cp := (s[0] - 0xE0) * 4096 + Tail(s[1]).value * 64 + Tail(s[2]).value;
        if cp >= 0x800 && IsScalar(cp) then Some((cp, s[3..])) else None
      else None
    else if 0xF0 <= s[0] < 0xF8 && |s| >= 4 && Tail(s[1]).Some? && Tail(s[2]).Some? && Tail(s[3]).Some? then
      var cp := (s[0] - 0xF0) * 262144 + Tail(s[1]).value * 4096 + Tail(s[2]).value * 64 + Tail(s[3]).value;
      if cp >= 0x1_0000 && IsScalar(cp) then Some((cp, s[4..])) else None
    else None
  }

  lemma Base64(n: nat)
    ensures n == n / 64 * 64 + n % 64
    ensures n == n / 4096 * 4096 + n / 64 % 64 * 64 + n % 64
    ensures n == n / 262144 * 262144 + n / 4096 % 64 * 4096 + n / 64 % 64 * 64 + n % 64
  {
    assert n / 4096 == n / 64 / 64 && n / 262144 == n / 4096 / 64;
  }

  /** The bytes written for a scalar value are its UTF-8 encoding: a strict reader gets it back. */
  lemma Utf8RoundTrip(cp: nat, rest: Bytes)
    requires IsScalar(cp)
    ensures Utf8Read(Utf8(cp) + rest) == Some((cp, rest))
  {
    var s := Utf8(cp) + rest;
    assert s[|Utf8(cp)|..] == rest;
    Base64(cp);
    if cp < 0x800 {
    } else if cp < 0x1_0000 {
      Utf8Three(cp, s);
    } else {
      Utf8Four(cp, s);
    }
  }

  lemma Utf8Three(cp: nat, s: Bytes)
    requires IsScalar(cp) && 0x800 <= cp < 0x1_0000 && |s| >= 3 && s[..3] == Utf8(cp)
    ensures Utf8Read(s) == Some((cp, s[3..]))
  {
    var a, b, c := cp / 4096, cp / 64 % 64, cp % 64;
    Base64(cp);
    assert s[0] == s[..3][0] == 0xE0 + a && s[1] == s[..3][1] == 0x80 + b && s[2] == s[..3][2] == 0x80 + c;
    assert Tail(s[1]) == Some(b) && Tail(s[2]) == Some(c);
  }

  lemma Utf8Four(cp: nat, s: Bytes)
    requires IsScalar(cp) && 0x1_0000 <= cp && |s| >= 4 && s[..4] == Utf8(cp)
    ensures Utf8Read(s) == Some((cp, s[4..]))
  {
    var a, b, c, d := cp / 262144, cp / 4096 % 64, cp / 64 % 64, cp % 64;
    Base64(cp);
    assert s[0] == s[..4][0] == 0xF0 + a && s[1] == s[..4][1] == 0x80 + b;
    assert s[2] == s[..4][2] == 0x80 + c && s[3] == s[..4][3] == 0x80 + d;
    assert Tail(s[1]) == Some(b) && Tail(s[2]) == Some(c) && Tail(s[3]) == Some(d);
  }

  // ---------- Escape sequences ----------

  function HexValue(b: Byte): Option<nat> {
    if 48 <= b <= 57 then Some(b - 48)
    else if 65 <= b <= 70 then Some(b - 55)
    else if 97 <= b <= 102 then Some(b - 87)
    else None
  }

  /** `parse_hex4`: an invalid digit makes the whole number 0. */
  function Hex4(s: Bytes): (r: nat)
    requires |s| == 4
    ensures r < 0x1_0000
  {
    var a, b, c, d := HexValue(s[0]), HexValue(s[1]), HexValue(s[2]), HexValue(s[3]);
    if a.Some? && b.Some? && c.Some? && d.Some? then a.value * 4096 + b.value * 256 + c.value * 16 + d.value else 0
  }

  function Combine(high: nat, low: nat): (r: nat)
    requires 0xD800 <= high < 0xDC00 && 0xDC00 <= low < 0xE000
    ensures 0x1_0000 <= r < 0x11_0000
  {
    0x1_0000 + (high - 0xD800) * 1024 + (low - 0xDC00)
  }

  /** The code point of a `\u` literal at the head of `s`, and the bytes it takes. */
  function Utf16(s: Bytes): (r: Option<(nat, nat)>)
    ensures r.Some? ==>
      r.value.0 < 0x11_0000 && r.value.1 <= |s| && (r.value.1 == 6 || r.value.1 == 12) && |Utf8(r.value.0)| <= 4
    ensures r.Some? ==> |Utf8(r.value.0)| <= r.value.1 / 2
  {
    if |s| < 6 then None
    else
      var first := Hex4(s[2..6]);
      if 0xDC00 <= first < 0xE000 then None
      else if 0xD800 <= first < 0xDC00 then
        if |s| < 12 || s[6] != BACKSLASH || s[7] != 117 then None
        else
          var second := Hex4(s[8..12]);
          if second < 0xDC00 || second >= 0xE000 then None else Some((Combine(first, second), 12))
      else Some((first, 6))
  }

  function ShortEscape(c: Byte): Option<Byte> {
    if c == 98 then Some(8)
    else if c == 102 then Some(12)
    else if c == 110 then Some(10)
    else if c == 114 then Some(13)
    else if c == 116 then Some(9)
    else if c == QUOTE || c == BACKSLASH || c == SLASH then Some(c)
    else None
  }

  /**
   The decoding loop of `parse_string`, on the bytes between the quotes. A single backslash can
   be left at the end only by a malformed `\u` escape; it takes the closing quote as its partner.
   */
  function Unescape(s: Bytes): Option<Bytes> {
    if s == [] then Some([])
    else if s[0] != BACKSLASH then Prefixed([s[0]], Unescape(s[1..]))
    else if |s| < 2 then Some([QUOTE])
    else if s[1] == 117 then
      var u := Utf16(s);
      if u.None? then None else Prefixed(Utf8(u.value.0), Unescape(s[u.value.1..]))
    else
      var e := ShortEscape(s[1]);
      if e.None? then None else Prefixed([e.value], Unescape(s[2..]))
  }

  function Prefixed(p: Bytes, r: Option<Bytes>): Option<Bytes> {
    if r.None? then None else Some(p + r.value)
  }

  lemma PrefixedTwice(a: Bytes, b: Bytes, r: Option<Bytes>)
    ensures Prefixed(a, Prefixed(b, r)) == Prefixed(a + b, r)
  {
    if r.Some? {
      Assoc(a, b, r.value);
    }
  }

  /** The first scan of `parse_string`: where the closing quote is. */
  function QuoteAt(s: Bytes): (r: Option<nat>)
    ensures r.Some? ==> r.value < |s| && s[r.value] == QUOTE
  {
    if s == [] then None
    else if s[0] == QUOTE then Some(0)
    else if s[0] == BACKSLASH then
      if |s| < 2 then None else Plus(2, QuoteAt(s[2..]))
    else Plus(1, QuoteAt(s[1..]))
  }

  function Plus(n: nat, r: Option<nat>): Option<nat> {
    if r.None? then None else Some(n + r.value)
  }

  /** The bytes the first scan counts as skipped. */
  function Skipped(s: Bytes): nat {
    if s == [] then 0
    else if s[0] == BACKSLASH then
      if |s| < 2 then 1 else 1 + Skipped(s[2..])
    else Skipped(s[1..])
  }

  /** `parse_string` on the input from its offset: the text and the bytes used. */
  function ParseString(s: Bytes): (r: Option<(Bytes, nat)>)
    ensures r.Some? ==> 2 <= r.value.1 <= |s| && s[0] == QUOTE && s[r.value.1 - 1] == QUOTE
  {
    if s == [] || s[0] != QUOTE then None
    else
      var q := QuoteAt(s[1..]);
      if q.None? then None
      else
        var t := Unescape(s[1..1 + q.value]);
        if t.None? then None else Some((t.value, q.value + 2))
  }

  // ---------- Well-formed literals ----------

  /** What a string literal is made of: a byte as it is, a two-character escape, a `\u` escape, a surrogate pair. */
  datatype Piece = Raw(b: Byte) | Short(c: Byte) | Unit(hex: Bytes) | Pair(high: Bytes, low: Bytes) {
    predicate Valid() {
      match this
      case Raw(b) => b != QUOTE && b != BACKSLASH
      case Short(c) => ShortEscape(c).Some?
      case Unit(hex) => IsHex4(hex) && IsScalar(Hex4(hex))
      case Pair(high, low) => IsHex4(high) && IsHex4(low) && 0xD800 <= Hex4(high) < 0xDC00 <= Hex4(low) < 0xE000
    }

    /** How it is spelled. */
    function Spell(): Bytes {
      match this
      case Raw(b) => [b]
      case Short(c) => [BACKSLASH, c]
      case Unit(hex) => [BACKSLASH, 117] + hex
      case Pair(high, low) => [BACKSLASH, 117] + high + [BACKSLASH, 117] + low
    }

    /** What it stands for. */
    function Denote(): Bytes
      requires Valid()
    {
      match this
      case Raw(b) => [b]
      case Short(c) => [ShortEscape(c).value]
      case Unit(hex) => Utf8(Hex4(hex))
      case Pair(high, low) => Utf8(Combine(Hex4(high), Hex4(low)))
    }
  }

  predicate IsHex4(s: Bytes) {
    |s| == 4 && forall i :: 0 <= i < 4 ==> HexValue(s[i]).Some?
  }

  predicate AllValid(ps: seq<Piece>) {
    forall i :: 0 <= i < |ps| ==> ps[i].Valid()
  }

  function Spelling(ps: seq<Piece>): Bytes {
    if ps == [] then [] else ps[0].Spell() + Spelling(ps[1..])
  }

  function Meaning(ps: seq<Piece>): Bytes
    requires AllValid(ps)
  {
    if ps == [] then [] else ps[0].Denote() + Meaning(ps[1..])
  }

  /** One piece in front of anything: both scans step over exactly that piece. */
  lemma PieceStep(p: Piece, s: Bytes)
    requires p.Valid()
    ensures QuoteAt(p.Spell() + s) == Plus(|p.Spell()|, QuoteAt(s))
    ensures Unescape(p.Spell() + s) == Prefixed(p.Denote(), Unescape(s))
  {
    hide Hex4, Utf16, Utf8, Combine, QuoteAt, Unescape, ShortEscape, Prefixed, Plus;
    match p
    case Raw(b) => RawStep(b, s);
    case Short(c) => ShortStep(c, s);
    case Unit(hex) => UnitStep(hex, s);
    case Pair(high, low) => PairStep(high, low, s);
  }

  lemma RawStep(b: Byte, s: Bytes)
    requires Raw(b).Valid()
    ensures QuoteAt([b] + s) == Plus(1, QuoteAt(s)) && Unescape([b] + s) == Prefixed([b], Unescape(s))
  {
    assert ([b] + s)[1..] == s;
  }

  lemma ShortStep(c: Byte, s: Bytes)
    requires Short(c).Valid()
    ensures QuoteAt([BACKSLASH, c] + s) == Plus(2, QuoteAt(s))
    ensures Unescape([BACKSLASH, c] + s) == Prefixed([ShortEscape(c).value], Unescape(s))
  {
    hide ShortEscape;
    NotUnicode(c);
    assert ([BACKSLASH, c] + s)[2..] == s;
  }

  lemma NotUnicode(c: Byte)
    requires ShortEscape(c).Some?
    ensures c != 117
  {
  }

  lemma UnitStep(hex: Bytes, s: Bytes)
    requires Unit(hex).Valid()
    ensures QuoteAt(Unit(hex).Spell() + s) == Plus(6, QuoteAt(s))
    ensures Unescape(Unit(hex).Spell() + s) == Prefixed(Unit(hex).Denote(), Unescape(s))
  {
    hide Hex4, Utf8, Unescape, QuoteAt, Prefixed;
    assert Unit(hex).Spell() + s == [BACKSLASH, 117] + (hex + s);
    EscapeScan(hex + s);
    HexScan(hex, s);
    UnitDecode(hex, s);
  }

  lemma UnitDecode(hex: Bytes, s: Bytes)
    requires Unit(hex).Valid()
    ensures Unescape(Unit(hex).Spell() + s) == Prefixed(Unit(hex).Denote(), Unescape(s))
  {
    hide Hex4, Utf8, QuoteAt;
    var t := Unit(hex).Spell() + s;
    assert t[2..6] == hex && t[6..] == s;
  }

  lemma PairStep(high: Bytes, low: Bytes, s: Bytes)
    requires Pair(high, low).Valid()
    ensures QuoteAt(Pair(high, low).Spell() + s) == Plus(12, QuoteAt(s))
    ensures Unescape(Pair(high, low).Spell() + s) == Prefixed(Pair(high, low).Denote(), Unescape(s))
  {
    hide Hex4, Utf8, Combine, Unescape, QuoteAt, Prefixed, Plus;
    PairScan(high, low, s);
    PairDecode(high, low, s);
  }

  lemma PairScan(high: Bytes, low: Bytes, s: Bytes)
    requires Pair(high, low).Valid()
    ensures QuoteAt(Pair(high, low).Spell() + s) == Plus(12, QuoteAt(s))
  {
    hide Hex4, Utf8, Combine, Unescape, QuoteAt, Prefixed;
    var rest := [BACKSLASH, 117] + (low + s);
    PairSpelled(high, low, s);
    HexScan(high, rest);
    HexScan(low, s);
    EscapeScan(high + rest);
    EscapeScan(low + s);
  }

  lemma PairSpelled(high: Bytes, low: Bytes, s: Bytes)
    ensures Pair(high, low).Spell() + s == [BACKSLASH, 117] + (high + ([BACKSLASH, 117] + (low + s)))
  {
    Assoc([BACKSLASH, 117] + high + [BACKSLASH, 117], low, s);
    Assoc([BACKSLASH, 117] + high, [BACKSLASH, 117], low + s);
    Assoc([BACKSLASH, 117], high, [BACKSLASH, 117] + (low + s));
  }

  lemma EscapeScan(s: Bytes)
    ensures QuoteAt([BACKSLASH, 117] + s) == Plus(2, QuoteAt(s))
  {
    assert ([BACKSLASH, 117] + s)[2..] == s;
  }

  lemma PairDecode(high: Bytes, low: Bytes, s: Bytes)
    requires Pair(high, low).Valid()
    ensures Unescape(Pair(high, low).Spell() + s) == Prefixed(Pair(high, low).Denote(), Unescape(s))
  {
    hide Hex4, Utf8, Combine, QuoteAt;
    var t := Pair(high, low).Spell() + s;
    assert t[2..6] == high && t[8..12] == low && t[12..] == s && t[6] == BACKSLASH && t[7] == 117;
  }

  lemma HexScan(hex: Bytes, s: Bytes)
    requires IsHex4(hex)
    ensures QuoteAt(hex + s) == Plus(4, QuoteAt(s))
  {
    assert forall i :: 0 <= i < 4 ==> HexValue(hex[i]).Some?;
    PlainScan(hex, s);
  }

  lemma {:induction false} PlainScan(p: Bytes, s: Bytes)
    requires forall i :: 0 <= i < |p| ==> p[i] != QUOTE && p[i] != BACKSLASH
    ensures QuoteAt(p + s) == Plus(|p|, QuoteAt(s))
  {
    if p != [] {
      PlainScan(p[1..], s);
      assert (p + s)[1..] == p[1..] + s;
    } else {
      assert p + s == s;
    }
  }

  lemma {:induction false} PiecesScan(ps: seq<Piece>, rest: Bytes)
    requires AllValid(ps)
    ensures QuoteAt(Spelling(ps) + [QUOTE] + rest) == Some(|Spelling(ps)|)
    ensures Unescape(Spelling(ps)) == Some(Meaning(ps))
  {
    hide QuoteAt, Unescape, Piece.Valid, Piece.Spell, Piece.Denote;
    if ps == [] {
      Empty([QUOTE]);
      QuoteHere([QUOTE] + rest);
    } else {
      var p, tail := ps[0].Spell(), Spelling(ps[1..]);
      PiecesScan(ps[1..], rest);
      PieceStep(ps[0], tail + [QUOTE] + rest);
      PieceStep(ps[0], tail);
      Assoc(p, tail, [QUOTE]);
      Assoc(p, tail + [QUOTE], rest);
    }
  }

  lemma QuoteHere(s: Bytes)
    requires |s| > 0 && s[0] == QUOTE
    ensures QuoteAt(s) == Some(0) && Unescape([]) == Some([])
  {
  }

  /** `parse_string` on a well-formed literal yields what it denotes and stops behind the closing quote. */
  lemma LiteralDecodes(ps: seq<Piece>, rest: Bytes)
    requires AllValid(ps)
    ensures ParseString([QUOTE] + Spelling(ps) + [QUOTE] + rest) == Some((Meaning(ps), |Spelling(ps)| + 2))
  {
    hide QuoteAt, Unescape, Spelling, Meaning, Piece.Valid;
    PiecesScan(ps, rest);
    var s := [QUOTE] + Spelling(ps) + [QUOTE] + rest;
    assert s[1..] == Spelling(ps) + [QUOTE] + rest;
    assert s[1..1 + |Spelling(ps)|] == Spelling(ps);
  }

  // ---------- Escaping and back ----------

  function PieceOf(b: Byte): (r: Piece) {
    if |EscapeByte(b)| == 1 then Raw(b)
    else if |EscapeByte(b)| == 2 then Short(EscapeByte(b)[1])
    else Unit([48, 48, HexDigit(b / 16 % 16), HexDigit(b % 16)])
  }

  lemma PieceOfByte(b: Byte)
    ensures PieceOf(b).Valid() && PieceOf(b).Spell() == EscapeByte(b) && PieceOf(b).Denote() == [b]
  {
    if |EscapeByte(b)| > 2 {
      assert b < 32;
      assert HexValue(HexDigit(b / 16)) == Some(b / 16) && HexValue(HexDigit(b % 16)) == Some(b % 16);
      assert PieceOf(b).Spell() == EscapeByte(b);
    }
  }

  function PiecesOf(s: Bytes): seq<Piece> {
    if s == [] then [] else [PieceOf(s[0])] + PiecesOf(s[1..])
  }

  lemma {:induction false} EscapedPieces(s: Bytes)
    ensures AllValid(PiecesOf(s)) && Spelling(PiecesOf(s)) == Escape(s) && Meaning(PiecesOf(s)) == s
  {
    if s != [] {
      EscapedPieces(s[1..]);
      PieceOfByte(s[0]);
      assert PiecesOf(s)[1..] == PiecesOf(s[1..]);
    }
  }

  /** Escaping is undone by parsing, for every byte string. */
  lemma QuotedRoundTrip(s: Bytes, rest: Bytes)
    ensures ParseString(Quoted(s) + rest) == Some((s, |Quoted(s)|))
  {
    EscapedPieces(s);
    LiteralDecodes(PiecesOf(s), rest);
  }

  /** The size computed by the first scan, which counts the opening quote too, is enough for the output. */
  lemma {:induction false} SizeEnough(s: Bytes)
    requires Unescape(s).Some?
    ensures |Unescape(s).value| + Skipped(s) <= |s| + 1
  {
    hide Utf8, Hex4, Combine;
    if s == [] || s == [BACKSLASH] {
    } else if s[0] != BACKSLASH {
      SizeEnough(s[1..]);
    } else if s[1] == 117 {
      var n := Utf16(s).value.1;
      SizeEnough(s[n..]);
      SkippedBound(s, n);
    } else {
      SizeEnough(s[2..]);
    }
  }

  /** Among `n` bytes at most half are skipped. */
  lemma {:induction false} SkippedBound(s: Bytes, n: nat)
    requires n <= |s| && n % 2 == 0
    ensures Skipped(s) <= n / 2 + Skipped(s[n..])
  {
    if n > 0 {
      SkippedStep(s);
      SkippedBound(s[2..], n - 2);
      assert s[2..][n - 2..] == s[n..];
    } else {
      assert s[0..] == s;
    }
  }

  lemma SkippedStep(s: Bytes)
    requires |s| >= 2
    ensures Skipped(s) <= 1 + Skipped(s[2..])
  {
    SkippedShift(s[1..]);
    assert s[1..][1..] == s[2..];
  }

  lemma {:induction false} SkippedShift(s: Bytes)
    requires |s| >= 1
    ensures Skipped(s[1..]) <= Skipped(s) <= 1 + Skipped(s[1..])
  {
    if s[0] == BACKSLASH && |s| >= 2 {
      SkippedShift(s[1..]);
      assert s[1..][1..] == s[2..];
    }
  }

  /** What the first scan has counted when it meets the closing quote. */
  function SkippedTo(s: Bytes): nat {
    if s == [] || s[0] == QUOTE then 0
    else if s[0] == BACKSLASH then
      if |s| < 2 then 1 else 1 + SkippedTo(s[2..])
    else SkippedTo(s[1..])
  }

  lemma {:induction false} SkippedUpTo(s: Bytes)
    requires QuoteAt(s).Some?
    ensures SkippedTo(s) == Skipped(s[..QuoteAt(s).value])
  {
    var q := QuoteAt(s).value;
    if s[0] != QUOTE {
      var n := if s[0] == BACKSLASH then 2 else 1;
      SkippedUpTo(s[n..]);
      assert s[..q][n..] == s[n..][..q - n];
    }
  }

  lemma {:induction false} SkippedFew(s: Bytes)
    ensures Skipped(s) <= |s|
  {
    if s != [] {
      SkippedFew(s[1..]);
      if |s| >= 2 {
        SkippedFew(s[2..]);
      }
    }
  }
}
