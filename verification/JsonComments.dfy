/**
 What `cJSON_Minify` does with every kind of text, comments included, and that comments between
 the tokens of a printed tree leave its unformatted text.
 */
module JsonComments {
  import opened Options
  import opened JsonText
  import opened JsonString
  import opened JsonParse
  import opened JsonRoundTrip
  import opened JsonMinify

  // ---------- Comments ----------

  /** `p` holds a star with a slash behind it. */
  predicate Closes(p: Bytes) {
    exists i :: 0 <= i < |p| - 1 && p[i] == '*' as int && p[i + 1] == '/' as int
  }

  lemma {:induction false} LineEnds(p: Bytes, rest: Bytes)
    requires '\n' as int !in p && (rest == [] || rest[0] == '\n' as int)
    ensures LineComment(p + rest) == |p|
  {
    if p == [] {
      Empty(rest);
    } else {
      LineEnds(p[1..], rest);
      assert (p + rest)[1..] == p[1..] + rest;
    }
  }

  /** A line comment goes together with the newline behind it. */
  lemma LineCommentGoes(p: Bytes, rest: Bytes)
    requires '\n' as int !in p
    ensures Minify(Ascii("//") + p + Ascii("\n") + rest) == Minify(rest)
  {
    hide Minify, LineComment;
    var s, t := Ascii("//") + p + Ascii("\n") + rest, Ascii("\n") + rest;
    MinifyStep(s);
    LineEnds(Ascii("/") + p, t);
    assert s[1..] == (Ascii("/") + p) + t;
    assert s[1 + (1 + |p|)..] == t;
    MinifyStep(t);
    assert t[1..] == rest;
  }

  /** A line comment at the end of the text goes too. */
  lemma LastCommentGoes(p: Bytes)
    requires '\n' as int !in p
    ensures Minify(Ascii("//") + p) == Some([])
  {
    hide Minify, LineComment;
    var s := Ascii("//") + p;
    MinifyStep(s);
    LineEnds(Ascii("/") + p, []);
    assert s[1..] == (Ascii("/") + p) + [];
    assert s[1 + (1 + |p|)..] == [];
    MinifyNothing();
  }

  lemma {:induction false} FirstClose(p: Bytes, rest: Bytes)
    requires !Closes(p)
    ensures CommentEnd(p + (Ascii("*/") + rest)) == Some(|p|)
  {
    var s := p + (Ascii("*/") + rest);
    if p != [] {
      assert !Closes(p[1..]) by {
        assert forall i :: 0 <= i < |p[1..]| ==> p[1..][i] == p[i + 1];
      }
      FirstClose(p[1..], rest);
      assert s[1..] == p[1..] + (Ascii("*/") + rest);
      assert s[0] == p[0] && s[1] == if |p| > 1 then p[1] else '*' as int;
    }
  }

  lemma {:induction false} NoClose(p: Bytes)
    requires !Closes(p)
    ensures CommentEnd(p).None?
  {
    if |p| >= 2 {
      assert !Closes(p[1..]) by {
        assert forall i :: 0 <= i < |p[1..]| ==> p[1..][i] == p[i + 1];
      }
      NoClose(p[1..]);
    }
  }

  /** A slash and a star in front of `p` close nothing, unless `p` begins with a slash. */
  lemma OpensOnly(p: Bytes)
    requires !Closes(p) && (p == [] || p[0] != '/' as int)
    ensures !Closes(Ascii("/*") + p)
  {
    var q := Ascii("/*") + p;
    forall i | 0 <= i < |q| - 1
      ensures !(q[i] == '*' as int && q[i + 1] == '/' as int)
    {
      if i >= 2 {
        assert q[i] == p[i - 2] && q[i + 1] == p[i - 1];
      }
    }
  }

  lemma EarlyClose(t: Bytes)
    ensures Minify(Ascii("/*/") + t) == Minify(t)
  {
    hide Minify, CommentEnd, Closes;
    var s := Ascii("/*/") + t;
    MinifyStep(s);
    SlashOnly();
    FirstClose(Ascii("/"), t);
    assert s == Ascii("/") + (Ascii("*/") + t);
    assert s[3..] == t;
  }

  /**
   A block comment goes; but one that begins with a slash ends at that slash, because the search
   for the end begins at the star that opens the comment.
   */
  lemma BlockCommentGoes(p: Bytes, rest: Bytes)
    requires !Closes(p)
    ensures Minify(Ascii("/*") + p + Ascii("*/") + rest)
      == if p != [] && p[0] == '/' as int then Minify(p[1..] + Ascii("*/") + rest) else Minify(rest)
  {
    hide Minify, CommentEnd, Closes;
    var s := Ascii("/*") + p + Ascii("*/") + rest;
    if p != [] && p[0] == '/' as int {
      EarlyClose(p[1..] + Ascii("*/") + rest);
      assert s == Ascii("/*/") + (p[1..] + Ascii("*/") + rest);
    } else {
      MinifyStep(s);
      OpensOnly(p);
      FirstClose(Ascii("/*") + p, rest);
      assert s == (Ascii("/*") + p) + (Ascii("*/") + rest);
      assert s[|p| + 4..] == rest;
    }
  }

  lemma SlashOnly()
    ensures !Closes(Ascii("/"))
  {
  }

  /** A block comment that is not closed: the scan leaves the text. */
  lemma OpenComment(p: Bytes)
    requires !Closes(p) && (p == [] || p[0] != '/' as int)
    ensures Minify(Ascii("/*") + p).None?
  {
    hide Minify, CommentEnd, Closes;
    OpensOnly(p);
    NoClose(Ascii("/*") + p);
    MinifyStep(Ascii("/*") + p);
  }

  // ---------- What stays ----------

  /** The four blanks go, and every other byte that opens neither a comment nor a string stays. */
  lemma ByteStep(b: Byte, rest: Bytes)
    requires b != '\"' as int
    requires b == '/' as int ==> rest == [] || (rest[0] != '/' as int && rest[0] != '*' as int)
    ensures Minify([b] + rest)
      == if b as char in " \t\r\n" then Minify(rest) else Prefixed([b], Minify(rest))
  {
    hide Minify;
    var s := [b] + rest;
    MinifyStep(s);
    assert s[1..] == rest;
    assert " \t\r\n" == [' ', '\t', '\r', '\n'];
  }

  // ---------- Between the tokens ----------

  /** What may stand between tokens: a blank, a comment to the end of its line, a comment between marks. */
  datatype Aside = Space(c: char) | LineNote(p: Bytes) | BlockNote(p: Bytes) {
    predicate Valid() {
      match this
      case Space(c) => c in " \t\r\n"
      case LineNote(p) => '\n' as int !in p
      case BlockNote(p) => !Closes(p) && (p == [] || p[0] != '/' as int)
    }

    function Spell(): Bytes
      requires Valid()
    {
      match this
      case Space(c) => Ascii([c])
      case LineNote(p) => Ascii("//") + p + Ascii("\n")
      case BlockNote(p) => Ascii("/*") + p + Ascii("*/")
    }
  }

  predicate AllAside(g: seq<Aside>) {
    forall i :: 0 <= i < |g| ==> g[i].Valid()
  }

  function Gap(g: seq<Aside>): Bytes
    requires AllAside(g)
  {
    if g == [] then [] else g[0].Spell() + Gap(g[1..])
  }

  lemma AsideGoes(a: Aside, rest: Bytes)
    requires a.Valid()
    ensures Minify(a.Spell() + rest) == Minify(rest)
  {
    hide Minify, Closes;
    match a
    case Space(c) =>
      assert a.Spell() == [c as int];
      ByteStep(c as int, rest);
    case LineNote(p) => LineCommentGoes(p, rest);
    case BlockNote(p) => BlockCommentGoes(p, rest);
  }

  lemma {:induction false} GapGoes(g: seq<Aside>, rest: Bytes)
    requires AllAside(g)
    ensures Minify(Gap(g) + rest) == Minify(rest)
  {
    hide Minify, Aside.Valid, Aside.Spell;
    if g == [] {
      Empty(rest);
    } else {
      AsideGoes(g[0], Gap(g[1..]) + rest);
      Assoc(g[0].Spell(), Gap(g[1..]), rest);
      GapGoes(g[1..], rest);
    }
  }

  /** The tokens of a tree's text. */
  function Tokens(lib: CLib, t: Json): seq<Bytes>
    decreases t, 0
  {
    match t
    case Array(l) => [[OPEN_ARRAY]] + (ItemTokens(lib, l) + [[CLOSE_ARRAY]])
    case Object(l) => [[OPEN_OBJECT]] + (MemberTokens(lib, l) + [[CLOSE_OBJECT]])
    case _ => [Print(lib, t, false, 0)]
  }

  function ItemTokens(lib: CLib, l: Items): seq<Bytes>
    decreases l, 0
  {
    match l
    case NoItem => []
    case Item(v, next) =>
      Tokens(lib, v) + ((if next.NoItem? then [] else [[COMMA]]) + ItemTokens(lib, next))
  }

  function MemberTokens(lib: CLib, l: Members): seq<Bytes>
    decreases l, 0
  {
    match l
    case NoMember => []
    case Member(key, v, next) =>
      [Quoted(key), [COLON]]
      + (Tokens(lib, v) + ((if next.NoMember? then [] else [[COMMA]]) + MemberTokens(lib, next)))
  }

  function Joined(ts: seq<Bytes>): Bytes {
    if ts == [] then [] else ts[0] + Joined(ts[1..])
  }

  lemma {:induction false} JoinedConcat(a: seq<Bytes>, b: seq<Bytes>)
    ensures Joined(a + b) == Joined(a) + Joined(b)
  {
    if a == [] {
      assert a + b == b;
      Empty(Joined(b));
    } else {
      assert (a + b)[1..] == a[1..] + b;
      JoinedConcat(a[1..], b);
      Assoc(a[0], Joined(a[1..]), Joined(b));
    }
  }

  lemma JoinedOne(a: Bytes)
    ensures Joined([a]) == a
  {
    assert [a][1..] == [];
  }

  /** Without anything between them the tokens are the unformatted text. */
  lemma {:induction false} TokensJoined(lib: CLib, t: Json, d: nat)
    ensures Joined(Tokens(lib, t)) == Print(lib, t, false, d)
    decreases t, 0
  {
    hide Joined, PrintItems, PrintMembers, ItemTokens, MemberTokens, Quoted, NumberText;
    match t
    case Array(l) =>
      ItemsJoined(lib, l, d + 1);
      JoinedConcat(ItemTokens(lib, l), [[CLOSE_ARRAY]]);
      JoinedConcat([[OPEN_ARRAY]], ItemTokens(lib, l) + [[CLOSE_ARRAY]]);
      JoinedOne([OPEN_ARRAY]);
      JoinedOne([CLOSE_ARRAY]);
    case Object(l) =>
      MembersJoined(lib, l, d + 1);
      JoinedConcat(MemberTokens(lib, l), [[CLOSE_OBJECT]]);
      JoinedConcat([[OPEN_OBJECT]], MemberTokens(lib, l) + [[CLOSE_OBJECT]]);
      JoinedOne([OPEN_OBJECT]);
      JoinedOne([CLOSE_OBJECT]);
      Empty([CLOSE_OBJECT]);
      Empty(PrintMembers(lib, l, false, d + 1) + [CLOSE_OBJECT]);
    case _ => JoinedOne(Print(lib, t, false, 0));
  }

  lemma JoinedNone()
    ensures Joined([]) == []
  {
  }

  lemma JoinedComma(more: bool)
    ensures Joined(if more then [[COMMA]] else []) == if more then [COMMA] else []
  {
    if more {
      JoinedOne([COMMA]);
    }
  }

  lemma {:induction false} ItemsJoined(lib: CLib, l: Items, d: nat)
    ensures Joined(ItemTokens(lib, l)) == PrintItems(lib, l, false, d)
    decreases l, 1
  {
    hide Joined, Print, Tokens;
    if l.NoItem? {
      JoinedNone();
    } else {
      var c := if l.next.NoItem? then [] else [[COMMA]];
      TokensJoined(lib, l.value, d);
      ItemsJoined(lib, l.next, d);
      JoinedComma(l.next.Item?);
      JoinedConcat(c, ItemTokens(lib, l.next));
      JoinedConcat(Tokens(lib, l.value), c + ItemTokens(lib, l.next));
      Empty(PrintItems(lib, l.next, false, d));
    }
  }

  lemma {:induction false} MembersJoined(lib: CLib, l: Members, d: nat)
    ensures Joined(MemberTokens(lib, l)) == PrintMembers(lib, l, false, d)
    decreases l, 1
  {
    hide Joined, Print, Tokens, Quoted;
    if l.NoMember? {
      JoinedNone();
    } else {
      var c := if l.next.NoMember? then [] else [[COMMA]];
      var q, v, m := Quoted(l.key), Tokens(lib, l.value), MemberTokens(lib, l.next);
      TokensJoined(lib, l.value, d);
      MembersJoined(lib, l.next, d);
      JoinedComma(l.next.Member?);
      JoinedConcat(c, m);
      JoinedConcat(v, c + m);
      JoinedConcat([q, [COLON]], v + (c + m));
      JoinedTwo(q, [COLON]);
      MembersText(lib, l, d);
      Assoc(q, [COLON], Print(lib, l.value, false, d) + PrintNextMember(lib, l.next, false, d));
    }
  }

  lemma JoinedTwo(a: Bytes, b: Bytes)
    ensures Joined([a, b]) == a + b
  {
    assert [a, b][1..] == [b];
    JoinedOne(b);
  }

  /** The members of an unformatted text. */
  lemma MembersText(lib: CLib, l: Members, d: nat)
    requires l.Member?
    ensures PrintMembers(lib, l, false, d)
      == Quoted(l.key) + ([COLON] + (Print(lib, l.value, false, d) + PrintNextMember(lib, l.next, false, d)))
    ensures PrintNextMember(lib, l.next, false, d)
      == (if l.next.NoMember? then [] else [COMMA]) + PrintMembers(lib, l.next, false, d)
  {
    hide Print, Quoted;
    Empty(PrintMember(lib, l, false, d));
    Empty(Print(lib, l.value, false, d) + PrintNextMember(lib, l.next, false, d));
    Empty(PrintMembers(lib, l.next, false, d));
  }

  /** A token is a string, or made of bytes that mean nothing to the minifier. */
  ghost predicate Atom(tok: Bytes) {
    (forall i :: 0 <= i < |tok| ==> Plain(tok[i])) || exists s :: tok == Quoted(s)
  }

  ghost predicate AllAtoms(ts: seq<Bytes>) {
    forall i :: 0 <= i < |ts| ==> Atom(ts[i])
  }

  lemma AtomStays(tok: Bytes, rest: Bytes)
    requires Atom(tok)
    ensures Minify(tok + rest) == Prefixed(tok, Minify(rest))
  {
    hide Minify, Quoted, Prefixed;
    if forall i :: 0 <= i < |tok| ==> Plain(tok[i]) {
      PlainStays(tok, rest);
    } else {
      var s :| tok == Quoted(s);
      StringStays(s, rest);
    }
  }

  lemma ScalarAtom(lib: CLib, t: Json)
    requires Wf(lib, t) && !t.Array? && !t.Object?
    ensures Atom(Print(lib, t, false, 0))
  {
    hide Quoted, Decimal, StrTod;
  }

  lemma MarksAtoms()
    ensures AllAtoms([[OPEN_ARRAY], [CLOSE_ARRAY], [OPEN_OBJECT], [CLOSE_OBJECT], [COMMA], [COLON]])
    ensures Atom([OPEN_ARRAY]) && Atom([CLOSE_ARRAY]) && Atom([OPEN_OBJECT]) && Atom([CLOSE_OBJECT])
    ensures Atom([COMMA]) && Atom([COLON])
  {
  }

  lemma QuotedAtom(s: Bytes)
    ensures Atom(Quoted(s))
  {
  }

  lemma AtomsConcat(a: seq<Bytes>, b: seq<Bytes>)
    requires AllAtoms(a) && AllAtoms(b)
    ensures AllAtoms(a + b)
  {
  }

  lemma AtomsOne(tok: Bytes)
    requires Atom(tok)
    ensures AllAtoms([tok]) && AllAtoms([])
  {
  }

  lemma {:induction false} TokensAtoms(lib: CLib, t: Json)
    requires Wf(lib, t)
    ensures AllAtoms(Tokens(lib, t))
    decreases t, 0
  {
    hide AllAtoms, Atom, Print;
    MarksAtoms();
    match t
    case Array(l) =>
      ItemsAtoms(lib, l);
      AtomsOne([OPEN_ARRAY]);
      AtomsOne([CLOSE_ARRAY]);
      AtomsConcat(ItemTokens(lib, l), [[CLOSE_ARRAY]]);
      AtomsConcat([[OPEN_ARRAY]], ItemTokens(lib, l) + [[CLOSE_ARRAY]]);
    case Object(l) =>
      MembersAtoms(lib, l);
      AtomsOne([OPEN_OBJECT]);
      AtomsOne([CLOSE_OBJECT]);
      AtomsConcat(MemberTokens(lib, l), [[CLOSE_OBJECT]]);
      AtomsConcat([[OPEN_OBJECT]], MemberTokens(lib, l) + [[CLOSE_OBJECT]]);
    case _ =>
      ScalarAtom(lib, t);
      AtomsOne(Print(lib, t, false, 0));
  }

  lemma {:induction false} ItemsAtoms(lib: CLib, l: Items)
    requires WfItems(lib, l)
    ensures AllAtoms(ItemTokens(lib, l))
    decreases l, 1
  {
    hide AllAtoms, Atom, Tokens;
    MarksAtoms();
    AtomsOne([COMMA]);
    if l.Item? {
      var c := if l.next.NoItem? then [] else [[COMMA]];
      TokensAtoms(lib, l.value);
      ItemsAtoms(lib, l.next);
      AtomsConcat(c, ItemTokens(lib, l.next));
      AtomsConcat(Tokens(lib, l.value), c + ItemTokens(lib, l.next));
    }
  }

  lemma {:induction false} MembersAtoms(lib: CLib, l: Members)
    requires WfMembers(lib, l)
    ensures AllAtoms(MemberTokens(lib, l))
    decreases l, 1
  {
    hide AllAtoms, Atom, Tokens, Quoted;
    MarksAtoms();
    AtomsOne([COMMA]);
    if l.Member? {
      var c := if l.next.NoMember? then [] else [[COMMA]];
      TokensAtoms(lib, l.value);
      MembersAtoms(lib, l.next);
      QuotedAtom(l.key);
      AtomsOne(Quoted(l.key));
      AtomsOne([COLON]);
      AtomsConcat([Quoted(l.key)], [[COLON]]);
      assert [Quoted(l.key)] + [[COLON]] == [Quoted(l.key), [COLON]];
      AtomsConcat(c, MemberTokens(lib, l.next));
      AtomsConcat(Tokens(lib, l.value), c + MemberTokens(lib, l.next));
      AtomsConcat([Quoted(l.key), [COLON]], Tokens(lib, l.value) + (c + MemberTokens(lib, l.next)));
    }
  }

  /** Tokens with something between them: behind token `i` stands `gs[i]`. */
  function Woven(ts: seq<Bytes>, gs: seq<seq<Aside>>): Bytes
    requires |gs| == |ts| && forall i :: 0 <= i < |gs| ==> AllAside(gs[i])
  {
    if ts == [] then [] else ts[0] + (Gap(gs[0]) + Woven(ts[1..], gs[1..]))
  }

  lemma {:induction false} WovenMinified(ts: seq<Bytes>, gs: seq<seq<Aside>>)
    requires |gs| == |ts| && AllAtoms(ts) && forall i :: 0 <= i < |gs| ==> AllAside(gs[i])
    ensures Minify(Woven(ts, gs)) == Some(Joined(ts))
  {
    hide Minify, AllAside, Atom;
    if ts == [] {
      MinifyNothing();
    } else {
      var rest := Woven(ts[1..], gs[1..]);
      AtomStays(ts[0], Gap(gs[0]) + rest);
      GapGoes(gs[0], rest);
      WovenMinified(ts[1..], gs[1..]);
    }
  }

  /**
   Blanks and comments between the tokens of a tree's text, before them and behind them, are
   minified to its unformatted text, and that parses to the tree up to the nesting limit.
   */
  lemma CommentsGo(lib: CLib, t: Json, lead: seq<Aside>, gs: seq<seq<Aside>>)
    requires Wf(lib, t) && |gs| == |Tokens(lib, t)|
    requires AllAside(lead) && forall i :: 0 <= i < |gs| ==> AllAside(gs[i])
    ensures Minify(Gap(lead) + Woven(Tokens(lib, t), gs)) == Some(Print(lib, t, false, 0))
    ensures Depth(t) <= NESTING_LIMIT ==>
      Parse(lib, Minify(Gap(lead) + Woven(Tokens(lib, t), gs)).value, true) == Some((t, |Print(lib, t, false, 0)|))
  {
    hide Minify, AllAside, Wf, Print, Tokens, Parse, Depth, Woven, AllAtoms;
    GapGoes(lead, Woven(Tokens(lib, t), gs));
    TokensAtoms(lib, t);
    WovenMinified(Tokens(lib, t), gs);
    TokensJoined(lib, t, 0);
    RoundTrip(lib, t, false, true);
  }
}
