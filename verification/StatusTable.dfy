/**
 Status tables of fdb_utils.c on flash that can only clear bits. A status table needs no erase:
 each status programs its own mark, and the last mark programmed is the status.
 */
module StatusTable {
  import opened Options

  /** Write granularity: single bits, or units of `width` bytes (1 for 8 bits, 4 for 32 bits). */
  datatype Gran = Bit | Units(width: nat) {
    predicate Valid() {
      Units? ==> width > 0
    }

    /** FDB_STATUS_TABLE_SIZE. */
    function TableSize(num: nat): nat
      requires num > 0
    {
      if Bit? then (num + 7) / 8 else (num - 1) * width
    }

    /** The index of the byte that holds the mark of status `k + 1`. */
    function MarkByte(k: nat): nat {
      if Bit? then k / 8 else k * width
    }
  }

  type Table = seq<bv8>

  /** 0x80 >> k */
  function Mask(k: nat): bv8
    requires k < 8
  {
    match k
    case 0 => 0x80
    case 1 => 0x40
    case 2 => 0x20
    case 3 => 0x10
    case 4 => 0x08
    case 5 => 0x04
    case 6 => 0x02
    case 7 => 0x01
  }

  /** 0xFF >> k */
  function Ones(k: nat): bv8
    requires k < 8
  {
    match k
    case 0 => 0xFF
    case 1 => 0x7F
    case 2 => 0x3F
    case 3 => 0x1F
    case 4 => 0x0F
    case 5 => 0x07
    case 6 => 0x03
    case 7 => 0x01
  }

  /** The constants are the shifts of the source. */
  lemma MarksAreShifts(k: nat)
    requires k < 8
    ensures Mask(k) == (0x80 as bv8) >> k && Ones(k) == (0xFF as bv8) >> k
  {
  }

  lemma MarkInTable(gran: Gran, num: nat, k: nat)
    requires gran.Valid() && 0 < num && k < num - 1
    ensures gran.MarkByte(k) < gran.TableSize(num)
  {
    if gran.Units? {
      MulLess(k, num - 1, gran.width);
    }
  }

  lemma MulLess(a: nat, b: nat, w: nat)
    requires a < b && w > 0
    ensures a * w + w <= b * w
  {
    var d := b - a;
    assert b * w == a * w + d * w;
    assert d * w == (d - 1) * w + w;
  }

  /** The mark of status `k + 1` is programmed. */
  predicate Cleared(gran: Gran, table: Table, k: nat)
    requires gran.MarkByte(k) < |table|
  {
    if gran.Bit? then table[k / 8] & Mask(k % 8) == 0 else table[k * gran.width] == 0
  }

  /** The highest status up to `k` whose mark is programmed. */
  function StatusOf(gran: Gran, table: Table, num: nat, k: nat): (r: nat)
    requires gran.Valid() && 0 < num && k < num && |table| == gran.TableSize(num)
    ensures r <= k
  {
    if k == 0 then 0
    else
      MarkInTable(gran, num, k - 1);
      if Cleared(gran, table, k - 1) then k else StatusOf(gran, table, num, k - 1)
  }

  /** `_fdb_get_status`. */
  method GetStatus(gran: Gran, table: Table, num: nat) returns (r: nat)
    requires gran.Valid() && 0 < num && |table| == gran.TableSize(num)
    ensures r == StatusOf(gran, table, num, num - 1)
  {
    var i, k := 0, num - 1;
    while k > 0
      invariant 0 <= k && i + k == num - 1
      invariant StatusOf(gran, table, num, num - 1) == StatusOf(gran, table, num, k)
    {
      k := k - 1;
      MarkInTable(gran, num, k);
      if Cleared(gran, table, k) {
        break;
      }
      i := i + 1;
    }
    r := num - 1 - i;
  }

  /** `_fdb_set_status`: the table to program for `index`, and the byte that matters. */
  method SetStatus(gran: Gran, num: nat, index: nat) returns (table: Table, byteIndex: Option<nat>)
    requires gran.Valid() && index < num
    ensures |table| == gran.TableSize(num) && (byteIndex.None? <==> index == 0)
    ensures index > 0 ==> byteIndex == Some(gran.MarkByte(index - 1)) && byteIndex.value < |table|
    ensures forall j :: 0 <= j < |table| && byteIndex != Some(j) ==> table[j] == 0xFF
    ensures index > 0 ==> table[byteIndex.value] == if gran.Bit? then Ones(index % 8) else 0
  {
    table := seq(gran.TableSize(num), _ => 0xFF as bv8);
    byteIndex := None;
    if index > 0 {
      MarkInTable(gran, num, index - 1);
      byteIndex := Some(gran.MarkByte(index - 1));
      table := table[byteIndex.value := if gran.Bit? then table[byteIndex.value] & Ones(index % 8) else 0];
    }
  }

  // ---------- Programming ----------

  /** Programming can only clear bits: old contents AND new data, at `at`. */
  function Program(mem: Table, at: nat, data: Table): (r: Table)
    requires at + |data| <= |mem|
    ensures |r| == |mem|
    ensures forall j :: 0 <= j < |mem| ==> r[j] == if at <= j < at + |data| then mem[j] & data[j - at] else mem[j]
  {
    seq(|mem|, j requires 0 <= j < |mem| => if at <= j < at + |data| then mem[j] & data[j - at] else mem[j])
  }

  /** What programming status `s` does to the table on flash. */
  function Written(gran: Gran, table: Table, num: nat, s: nat): (r: Table)
    requires gran.Valid() && s < num && |table| == gran.TableSize(num)
    ensures |r| == |table|
  {
    if s == 0 then table
    else
      MarkInTable(gran, num, s - 1);
      var b := gran.MarkByte(s - 1);
      table[b := if gran.Bit? then table[b] & Ones(s % 8) else 0]
  }

  /** `_fdb_write_status`: program one unit of the table, nothing for status 0. */
  method WriteStatus(gran: Gran, mem: Table, num: nat, s: nat) returns (r: Table)
    requires gran.Valid() && s < num && |mem| == gran.TableSize(num)
    ensures r == Written(gran, mem, num, s)
  {
    var table, byteIndex := SetStatus(gran, num, s);
    if byteIndex.None? {
      return mem;
    }
    var b := byteIndex.value;
    if gran.Bit? {
      r := Program(mem, b, [table[b]]);
    } else {
      UnitInTable(gran, num, s - 1);
      r := Program(mem, b, table[b..b + gran.width]);
      forall j | 0 <= j < |mem|
        ensures r[j] == Written(gran, mem, num, s)[j]
      {
        AndFacts(mem[j]);
      }
    }
  }

  lemma AndFacts(x: bv8)
    ensures x & 0xFF == x && x & 0 == 0
  {
  }

  lemma UnitInTable(gran: Gran, num: nat, k: nat)
    requires gran.Units? && gran.Valid() && k + 1 < num
    ensures k * gran.width + gran.width <= (num - 1) * gran.width
  {
    MulLess(k, num - 1, gran.width);
  }

  function WrittenAll(gran: Gran, table: Table, num: nat, ss: seq<nat>): (r: Table)
    requires gran.Valid() && 0 < num && |table| == gran.TableSize(num) && forall i :: 0 <= i < |ss| ==> ss[i] < num
    ensures |r| == |table|
  {
    if ss == [] then table
    else Written(gran, WrittenAll(gran, table, num, ss[..|ss| - 1]), num, ss[|ss| - 1])
  }

  function Max(ss: seq<nat>): nat {
    if ss == [] then 0
    else if ss[|ss| - 1] > Max(ss[..|ss| - 1]) then ss[|ss| - 1]
    else Max(ss[..|ss| - 1])
  }

  function Blank(gran: Gran, num: nat): Table
    requires num > 0
  {
    seq(gran.TableSize(num), _ => 0xFF as bv8)
  }

  // ---------- Reading back ----------

  /** With the mark of `m` programmed and none above, the status is `m`. */
  lemma {:induction false} StatusIs(gran: Gran, table: Table, num: nat, m: nat, k: nat)
    requires gran.Valid() && 0 < num && m <= k < num && |table| == gran.TableSize(num)
    requires forall j: nat :: j < num - 1 ==> gran.MarkByte(j) < |table|
    requires m > 0 ==> Cleared(gran, table, m - 1)
    requires forall j: nat :: m <= j < k ==> !Cleared(gran, table, j)
    ensures StatusOf(gran, table, num, k) == m
    decreases k
  {
    if k > m {
      StatusIs(gran, table, num, m, k - 1);
    }
  }

  lemma MarksInTable(gran: Gran, num: nat)
    requires gran.Valid() && 0 < num
    ensures forall j: nat :: j < num - 1 ==> gran.MarkByte(j) < gran.TableSize(num)
  {
    forall j: nat | j < num - 1
      ensures gran.MarkByte(j) < gran.TableSize(num)
    {
      MarkInTable(gran, num, j);
    }
  }

  /** Marks of different statuses lie in different units. */
  lemma MarksApart(width: nat, j: nat, k: nat)
    requires width > 0 && j * width == k * width
    ensures j == k
  {
  }

  /** In unit tables exactly the marks of the written statuses are programmed. */
  lemma {:induction false} UnitMarks(gran: Gran, num: nat, ss: seq<nat>, k: nat)
    requires gran.Units? && gran.Valid() && 0 < num && k < num - 1 && forall i :: 0 <= i < |ss| ==> ss[i] < num
    ensures gran.MarkByte(k) < gran.TableSize(num)
    ensures Cleared(gran, WrittenAll(gran, Blank(gran, num), num, ss), k) <==> k + 1 in ss
  {
    MarkInTable(gran, num, k);
    if ss != [] {
      var s, rest := ss[|ss| - 1], ss[..|ss| - 1];
      UnitMarks(gran, num, rest, k);
      assert ss == rest + [s];
      if s > 0 && s - 1 != k && (s - 1) * gran.width == k * gran.width {
        MarksApart(gran.width, s - 1, k);
      }
    }
  }

  lemma BitAnd(x: bv8, s: nat, k: nat)
    requires s < 8 && k < 8
    ensures (x & Ones(s)) & Mask(k) == 0 <==> x & Mask(k) == 0 || k < s
  {
    BitTable(s, k);
    assert (x & Ones(s)) & Mask(k) == x & (Ones(s) & Mask(k));
    AndFacts(x);
  }

  lemma BitTable(s: nat, k: nat)
    requires s < 8 && k < 8
    ensures Ones(s) & Mask(k) == if k < s then 0 else Mask(k)
  {
  }

  lemma ClearedBit(table: Table, k: nat)
    requires |table| == 1 && k < 8
    ensures Cleared(Bit, table, k) <==> table[0] & Mask(k) == 0
  {
    assert k / 8 == 0 && k % 8 == k;
  }

  lemma WrittenIs(table: Table, num: nat, s: nat)
    requires 0 < s < num <= 8 && |table| == 1
    ensures Written(Bit, table, num, s) == [table[0] & Ones(s)]
  {
    assert (s - 1) / 8 == 0 && s % 8 == s;
    hide Ones;
  }

  lemma WrittenBit(table: Table, num: nat, s: nat, k: nat)
    requires 0 < num <= 8 && |table| == 1 && s < num && k < num - 1
    ensures Cleared(Bit, Written(Bit, table, num, s), k) <==> Cleared(Bit, table, k) || k < s
  {
    if s > 0 {
      hide Ones, Mask, Cleared, Written;
      WrittenIs(table, num, s);
      ClearedBit(table, k);
      ClearedBit([table[0] & Ones(s)], k);
      BitAnd(table[0], s, k);
    }
  }

  /** In a one-bit table of at most 8 statuses the marks up to the highest written status are programmed. */
  lemma {:induction false} BitMarks(num: nat, ss: seq<nat>, k: nat)
    requires 0 < num <= 8 && k < num - 1 && forall i :: 0 <= i < |ss| ==> ss[i] < num
    ensures Cleared(Bit, WrittenAll(Bit, Blank(Bit, num), num, ss), k) <==> k < Max(ss)
  {
    if ss == [] {
      BitTable(0, k);
    } else {
      hide Cleared, Written;
      var s, rest := ss[|ss| - 1], ss[..|ss| - 1];
      BitMarks(num, rest, k);
      WrittenBit(WrittenAll(Bit, Blank(Bit, num), num, rest), num, s, k);
    }
  }

  lemma {:induction false} MaxIn(ss: seq<nat>)
    ensures Max(ss) > 0 ==> Max(ss) in ss
    ensures forall i :: 0 <= i < |ss| ==> ss[i] <= Max(ss)
  {
    if ss != [] {
      MaxIn(ss[..|ss| - 1]);
      assert ss == ss[..|ss| - 1] + [ss[|ss| - 1]];
    }
  }

  lemma {:induction false} StatusMeans(gran: Gran, table: Table, num: nat, k: nat)
    requires gran.Valid() && 0 < num && k < num && |table| == gran.TableSize(num)
    requires forall j: nat :: j < num - 1 ==> gran.MarkByte(j) < |table|
    ensures
      var q := StatusOf(gran, table, num, k);
      (q > 0 ==> Cleared(gran, table, q - 1)) && forall j: nat :: q <= j < k ==> !Cleared(gran, table, j)
  {
    if k > 0 && !Cleared(gran, table, k - 1) {
      StatusMeans(gran, table, num, k - 1);
    }
  }

  lemma WrittenMark(gran: Gran, table: Table, num: nat, s: nat, k: nat)
    requires gran.Valid() && 0 < num && (gran.Bit? ==> num <= 8) && s < num && k < num - 1
    requires |table| == gran.TableSize(num)
    requires forall j: nat :: j < num - 1 ==> gran.MarkByte(j) < |table|
    ensures Cleared(gran, table, k) || k + 1 == s ==> Cleared(gran, Written(gran, table, num, s), k)
    ensures k >= s && !Cleared(gran, table, k) ==> !Cleared(gran, Written(gran, table, num, s), k)
  {
    if gran.Bit? {
      WrittenBit(table, num, s, k);
    } else if s > 0 {
      UnitMark(gran, table, num, s, k);
    }
  }

  lemma UnitMark(gran: Gran, table: Table, num: nat, s: nat, k: nat)
    requires gran.Units? && gran.Valid() && 0 < s < num && k < num - 1 && |table| == gran.TableSize(num)
    requires gran.MarkByte(k) < |table|
    ensures Cleared(gran, Written(gran, table, num, s), k) <==> Cleared(gran, table, k) || k + 1 == s
  {
    MarkInTable(gran, num, s - 1);
    var a, b := gran.MarkByte(k), gran.MarkByte(s - 1);
    MarksDiffer(gran.width, k, s - 1);
    assert a == b <==> k == s - 1;
    hide Gran.MarkByte;
  }

  lemma MarksDiffer(width: nat, j: nat, k: nat)
    requires width > 0
    ensures j * width == k * width <==> j == k
  {
    if j * width == k * width {
      MarksApart(width, j, k);
    }
  }

  /** Writing a status raises the status read, whatever the table held. */
  lemma StatusAfterWrite(gran: Gran, table: Table, num: nat, s: nat)
    requires gran.Valid() && 0 < num && (gran.Bit? ==> num <= 8) && s < num && |table| == gran.TableSize(num)
    ensures
      var q := StatusOf(gran, table, num, num - 1);
      StatusOf(gran, Written(gran, table, num, s), num, num - 1) == if s > q then s else q
  {
    hide Written, Cleared, StatusOf;
    MarksInTable(gran, num);
    StatusMeans(gran, table, num, num - 1);
    var q, table' := StatusOf(gran, table, num, num - 1), Written(gran, table, num, s);
    var m := if s > q then s else q;
    forall k: nat | k < num - 1
      ensures (k + 1 == m ==> Cleared(gran, table', k)) && (k >= m ==> !Cleared(gran, table', k))
    {
      WrittenMark(gran, table, num, s, k);
    }
    StatusIs(gran, table', num, m, num - 1);
  }

  /** Tables as status writes leave them: unit bytes blank or programmed, bits cleared from the left. */
  ghost predicate PlainTable(gran: Gran, table: Table) {
    if gran.Bit? then |table| == 1 && exists k: nat :: k < 8 && table[0] == Ones(k)
    else forall j :: 0 <= j < |table| ==> table[j] == 0 || table[j] == 0xFF
  }

  lemma OnesTwice(a: nat, b: nat)
    requires a < 8 && b < 8
    ensures Ones(a) & Ones(b) == Ones(if a > b then a else b)
  {
  }

  lemma PlainWritten(gran: Gran, table: Table, num: nat, s: nat)
    requires gran.Valid() && 0 < num && (gran.Bit? ==> num <= 8) && s < num && |table| == gran.TableSize(num)
    requires PlainTable(gran, table)
    ensures PlainTable(gran, Written(gran, table, num, s))
  {
    if gran.Bit? && s > 0 {
      var k: nat :| k < 8 && table[0] == Ones(k);
      WrittenIs(table, num, s);
      OnesTwice(k, s);
      var m := if k > s then k else s;
      assert Written(gran, table, num, s)[0] == Ones(m);
    }
  }

  lemma PlainBlank(gran: Gran, num: nat)
    requires gran.Valid() && 0 < num && (gran.Bit? ==> num <= 8)
    ensures PlainTable(gran, Blank(gran, num))
  {
    if gran.Bit? {
      assert Blank(gran, num)[0] == Ones(0);
    }
  }

  /** After an erase, any sequence of status writes reads back as the highest status written. */
  lemma ReadsBackMax(gran: Gran, num: nat, ss: seq<nat>)
    requires gran.Valid() && 0 < num && (gran.Bit? ==> num <= 8) && forall i :: 0 <= i < |ss| ==> ss[i] < num
    ensures StatusOf(gran, WrittenAll(gran, Blank(gran, num), num, ss), num, num - 1) == Max(ss)
  {
    hide WrittenAll, Cleared, StatusOf, Max;
    var table, m := WrittenAll(gran, Blank(gran, num), num, ss), Max(ss);
    MaxIn(ss);
    MarksInTable(gran, num);
    forall k: nat | k < num - 1
      ensures if k + 1 == m then Cleared(gran, table, k) else k >= m ==> !Cleared(gran, table, k)
    {
      if gran.Bit? {
        BitMarks(num, ss, k);
      } else {
        UnitMarks(gran, num, ss, k);
      }
    }
    StatusIs(gran, table, num, m, num - 1);
  }

  /** At one-bit granularity status 8 leaves no mark, in every table that has it. */
  lemma EighthStatusLost(num: nat)
    requires num > 8
    ensures StatusOf(Bit, WrittenAll(Bit, Blank(Bit, num), num, [8]), num, num - 1) == 0
  {
    var table := WrittenAll(Bit, Blank(Bit, num), num, [8]);
    MarksInTable(Bit, num);
    assert WrittenAll(Bit, Blank(Bit, num), num, [8][..0]) == Blank(Bit, num);
    assert table == Blank(Bit, num) by {
      AndFacts(0xFF);
    }
    forall k: nat | k < num - 1
      ensures !Cleared(Bit, table, k)
    {
      BitTable(0, k % 8);
    }
    StatusIs(Bit, table, num, 0, num - 1);
  }

  /** Every sequence of statuses below `num` reads back as its highest. */
  ghost predicate ReadsBack(gran: Gran, num: nat)
    requires gran.Valid() && 0 < num
  {
    forall ss: seq<nat> :: (forall i :: 0 <= i < |ss| ==> ss[i] < num) ==>
      StatusOf(gran, WrittenAll(gran, Blank(gran, num), num, ss), num, num - 1) == Max(ss)
  }

  /** Status tables work exactly for units of any count, and for single bits up to 8 statuses. */
  lemma ReadsBackIff(gran: Gran, num: nat)
    requires gran.Valid() && 0 < num
    ensures ReadsBack(gran, num) <==> gran.Units? || num <= 8
  {
    hide StatusOf, WrittenAll, Max;
    if gran.Units? || num <= 8 {
      forall ss: seq<nat> | forall i :: 0 <= i < |ss| ==> ss[i] < num
        ensures StatusOf(gran, WrittenAll(gran, Blank(gran, num), num, ss), num, num - 1) == Max(ss)
      {
        ReadsBackMax(gran, num, ss);
      }
    } else {
      EighthStatusLost(num);
      MaxIn([8]);
      assert [8][0] <= Max([8]);
    }
  }

  lemma BitKept(x: bv8, b: nat, k: nat)
    requires b < 8 && k < 8 && x & Ones(b) == Ones(b)
    ensures k >= b ==> x & Mask(k) != 0
  {
    BitTable(b, k);
    assert x & (Ones(b) & Mask(k)) == (x & Ones(b)) & Mask(k);
  }

  lemma TornMark(a: nat, b: nat, x: bv8, k: nat)
    requires a < 8 && b < 8 && k < 8 && x & Ones(b) == Ones(b) && x & Ones(a) == x
    ensures k < a ==> Cleared(Bit, [x], k)
    ensures k >= b ==> !Cleared(Bit, [x], k)
  {
    hide Ones, Mask;
    BitAnd(x, a, k);
    BitKept(x, b, k);
  }

  /** A one-bit update cut short by power loss reads as a status between the old and the new one. */
  lemma TornBitUpdate(num: nat, a: nat, b: nat, x: bv8)
    requires 0 < num <= 8 && a <= b < num
    requires x & Ones(b) == Ones(b) && x & Ones(a) == x
    ensures a <= StatusOf(Bit, [x], num, num - 1) <= b
  {
    hide Ones, Mask, Cleared;
    forall k: nat | k < num - 1
      ensures k < a ==> Cleared(Bit, [x], k)
      ensures k >= b ==> !Cleared(Bit, [x], k)
    {
      TornMark(a, b, x, k);
    }
    StatusBetween([x], num, a, b, num - 1);
  }

  lemma {:induction false} StatusBetween(table: Table, num: nat, a: nat, b: nat, k: nat)
    requires 0 < num <= 8 && a <= b < num && k < num && |table| == 1
    requires forall j: nat :: j < num - 1 ==> (j < a ==> Cleared(Bit, table, j)) && (j >= b ==> !Cleared(Bit, table, j))
    ensures StatusOf(Bit, table, num, k) <= b && (a <= k ==> a <= StatusOf(Bit, table, num, k))
    decreases k
  {
    if k > 0 {
      StatusBetween(table, num, a, b, k - 1);
    }
  }
}
