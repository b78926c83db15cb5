/** Searching a sector byte by byte: the 32-byte window that looks for the next magic word, and the last run of 0xFF. */
module SectorScan {
  import opened Options
  import opened Crc
  import opened RecordCodec

  /** The magic word stands at `p`. */
  predicate MagicAt(mem: Bytes, p: int) {
    0 <= p && p + 4 <= |mem| && mem[p..p + 4] == MAGIC
  }

  /** `find_next_kv_addr`: windows of 32 bytes, 28 apart. */
  method FindNextKvAddr(l: Layout, mem: Bytes, start: nat, end: nat) returns (r: Option<nat>)
    requires l.Valid() && end <= |mem|
    ensures r.Some? ==> start <= r.value < end && MagicAt(mem, r.value + l.MagicOff())
    ensures r.Some? ==> forall p :: start + l.MagicOff() <= p < r.value + l.MagicOff() ==> !MagicAt(mem, p)
    ensures r.None? ==> forall p :: start + l.MagicOff() <= p && p + 32 < end ==> !MagicAt(mem, p)
    ensures r.None? && start + 32 < end ==> forall p :: start + l.MagicOff() <= p < start + 28 ==> !MagicAt(mem, p)
  {
    var s := start;
    while s < end && s + 32 < end
      invariant s == start || start + 28 <= s
      invariant forall p :: start + l.MagicOff() <= p < s ==> !MagicAt(mem, p)
      decreases end - s
    {
      var i := 0;
      while i < 28 && s + i < end
        invariant 0 <= i <= 28
        invariant forall p :: start + l.MagicOff() <= p < s + i ==> !MagicAt(mem, p)
      {
        if mem[s + i..s + i + 4] == MAGIC && s + i - l.MagicOff() >= start {
          return Some(s + i - l.MagicOff());
        }
        i := i + 1;
      }
      s := s + 28;
    }
    r := None;
  }

  /** `_fdb_continue_ff_addr`: `a` is where the last run of 0xFF begins. */
  method ContinueFfAddr(l: Layout, mem: Bytes, start: nat, end: nat) returns (r: nat, ghost a: nat)
    requires l.Valid() && start <= end <= |mem|
    ensures start < end && mem[end - 1] == 0xFF ==>
      start <= a < end && Erased(mem, a, end - a) && (a == start || mem[a - 1] != 0xFF) && r == l.Align(a)
    ensures !(start < end && mem[end - 1] == 0xFF) ==> r == end
  {
    var s, addr, last := start, start, 0 as bv8;
    while s < end
      invariant start <= s && start <= addr && (start < s ==> start < end)
      invariant last == 0xFF <==> start < s && mem[(if s < end then s else end) - 1] == 0xFF
      invariant var t := if s < end then s else end;
        last == 0xFF ==> addr < t && Erased(mem, addr, t - addr) && (addr == start || mem[addr - 1] != 0xFF)
      decreases end - s
    {
      var size := if s + 32 < end then 32 else end - s;
      var i := 0;
      while i < size
        invariant 0 <= i <= size && start <= addr
        invariant last == 0xFF <==> start < s + i && mem[s + i - 1] == 0xFF
        invariant last == 0xFF ==>
          addr < s + i && Erased(mem, addr, s + i - addr) && (addr == start || mem[addr - 1] != 0xFF)
      {
        if last != 0xFF && mem[s + i] == 0xFF {
          addr := s + i;
        }
        last := mem[s + i];
        i := i + 1;
      }
      s := s + 32;
    }
    a := addr;
    if last == 0xFF {
      r := l.Align(addr);
    } else {
      r := end;
    }
  }

  /** Where a sector lies: its header from `base` on, its records from First to End. */
  datatype Place = Place(base: nat, secSize: nat, secHdr: nat) {
    function First(): nat { base + secHdr }
    function End(): nat { base + secSize }
  }
}
