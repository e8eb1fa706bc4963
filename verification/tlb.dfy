/** The software-managed TLB table of `MMU` (src/mmu.h, src/mmu.cpp): an
    ordered sequence of entries and a round-robin replacement pointer, with the
    read, write, random-write, probe and flush maintenance operations.  Wired
    entries, ASID matching and the translation itself are not modelled. */
module Tlb {
  import opened Base

  /** `TLBEntry`, one mapping of a virtual page to a physical frame. */
  datatype TlbEntry = TlbEntry(
    valid: bool,
    vpn: u32,
    pfn: u32,
    asid: u32,
    global: bool,
    dirty: bool,
    validP: bool,   // PFN valid
    pageMask: u32)

  /** A value-initialised `TLBEntry{}`: invalid, dirty, PFN-valid, all numbers zero. */
  const DEFAULT_ENTRY: TlbEntry := TlbEntry(false, 0, 0, 0, false, true, true, 0)

  /** The `tlbSize` constructor default. */
  const DEFAULT_TLB_SIZE: u32 := 64

  /** The table and the `randomPtr` cursor used by TLBWR. */
  datatype Mmu = Mmu(tlb: seq<TlbEntry>, randomPtr: u32)

  /** What the MMU keeps true: a table no larger than an `unsigned` can count,
      and a replacement pointer inside a non-empty table. */
  predicate Valid(m: Mmu) {
    |m.tlb| < U32_MODULUS && (|m.tlb| > 0 ==> m.randomPtr < |m.tlb|)
  }

  /** Whether slot `e` answers a probe for `vpn`. */
  predicate Matches(e: TlbEntry, vpn: u32) {
    e.valid && e.vpn == vpn
  }

  /** A table with `tlbSize` default entries (64 unless given) and the pointer at 0. */
  function Create(tlbSize: u32 := DEFAULT_TLB_SIZE): (m: Mmu)
    ensures Valid(m) && |m.tlb| == tlbSize && m.randomPtr == 0
    ensures forall i :: 0 <= i < |m.tlb| ==>
      && !m.tlb[i].valid && m.tlb[i].dirty && m.tlb[i].validP && !m.tlb[i].global
      && m.tlb[i].vpn == 0 && m.tlb[i].pfn == 0 && m.tlb[i].asid == 0 && m.tlb[i].pageMask == 0
    ensures forall vpn: u32 :: FirstMatch(m.tlb, vpn) == -1
  {
    Mmu(seq(tlbSize, _ => DEFAULT_ENTRY), 0)
  }

  /** `MMU::readTLBEntry`: the stored entry, or nothing past the end. */
  function ReadEntry(m: Mmu, index: u32): (r: Option<TlbEntry>)
    ensures r.None? <==> index >= |m.tlb|
    ensures r.Some? ==> r.value == m.tlb[index]
  {
    if index >= |m.tlb| then None else Some(m.tlb[index])
  }

  /** The slot `writeTLBEntry` stores into: the index itself, or the index
      wrapped modulo the table size when it is out of range. */
  function WriteSlot(m: Mmu, index: u32): (k: nat)
    requires |m.tlb| > 0
    ensures k < |m.tlb|
    ensures index < |m.tlb| ==> k == index
    ensures index >= |m.tlb| ==> k == index % |m.tlb|
  {
    if index >= |m.tlb| then index % |m.tlb| else index
  }

  /** `MMU::writeTLBEntry`.  On an empty table the source's `index % tlb.size()`
      divides by zero, so a non-empty table is required. */
  function WriteEntry(m: Mmu, index: u32, e: TlbEntry): (r: Mmu)
    requires |m.tlb| > 0
    ensures |r.tlb| == |m.tlb| && r.randomPtr == m.randomPtr
    ensures r.tlb[WriteSlot(m, index)] == e
    ensures forall j :: 0 <= j < |m.tlb| && j != WriteSlot(m, index) ==> r.tlb[j] == m.tlb[j]
    ensures Valid(m) ==> Valid(r)
  {
    m.(tlb := m.tlb[WriteSlot(m, index) := e])
  }

  /** The store `tlb[index] = e` that ends `MMU::insertTLBEntry`; the checks
      before it are not modelled, so only in-range indices are. */
  function InsertEntry(m: Mmu, index: u32, e: TlbEntry): (r: Mmu)
    requires index < |m.tlb|
    ensures ReadEntry(r, index) == Some(e)
    ensures forall j: u32 :: j != index ==> ReadEntry(r, j) == ReadEntry(m, j)
    ensures r.randomPtr == m.randomPtr
  {
    m.(tlb := m.tlb[index := e])
  }

  /** `MMU::writeTLBRandom`: returns the updated table and the index written.
      An empty table is left alone and 0 is returned.  The body keeps the
      source's `randomPtr % size` and the 32-bit wrap of `randomPtr + 1`; under
      the MMU invariant neither has any effect. */
  function WriteRandom(m: Mmu, e: TlbEntry): (r: (Mmu, u32))
    requires Valid(m)
    ensures Valid(r.0)
    ensures |m.tlb| == 0 ==> r == (m, 0)
    ensures |m.tlb| > 0 ==>
      && r.1 == m.randomPtr
      && |r.0.tlb| == |m.tlb|
      && r.0.tlb[r.1] == e
      && (forall j :: 0 <= j < |m.tlb| && j != r.1 ==> r.0.tlb[j] == m.tlb[j])
      && r.0.randomPtr == (m.randomPtr + 1) % |m.tlb|
  {
    if |m.tlb| == 0 then (m, 0)
    else
      var n := |m.tlb|;
      DivModUnique(m.randomPtr, n, 0, m.randomPtr);
      DivModUnique(m.randomPtr + 1, U32_MODULUS, 0, m.randomPtr + 1);
      var idx := m.randomPtr % n;
      var next := ((m.randomPtr + 1) % U32_MODULUS) % n;
      (Mmu(m.tlb[idx := e], next), idx)
  }

  /** `MMU::flushAll`: every entry becomes invalid; nothing else changes. */
  function Flush(m: Mmu): (r: Mmu)
    ensures |r.tlb| == |m.tlb| && r.randomPtr == m.randomPtr
    ensures forall i :: 0 <= i < |r.tlb| ==> r.tlb[i] == m.tlb[i].(valid := false)
  {
    Mmu(seq(|m.tlb|, i requires 0 <= i < |m.tlb| => m.tlb[i].(valid := false)), m.randomPtr)
  }

  // ----- probe ---------------------------------------------------------------

  /** Reference definition of a probe: the first matching slot at or after
      `from`, or -1 when there is none. */
  function FirstMatchFrom(tlb: seq<TlbEntry>, vpn: u32, from: nat): (r: int)
    requires from <= |tlb|
    ensures r == -1 || from <= r < |tlb|
    ensures r == -1 <==> forall j :: from <= j < |tlb| ==> !Matches(tlb[j], vpn)
    ensures r != -1 ==> Matches(tlb[r], vpn) && forall j :: from <= j < r ==> !Matches(tlb[j], vpn)
    decreases |tlb| - from
  {
    if from == |tlb| then -1
    else if Matches(tlb[from], vpn) then from
    else FirstMatchFrom(tlb, vpn, from + 1)
  }

  function FirstMatch(tlb: seq<TlbEntry>, vpn: u32): int {
    FirstMatchFrom(tlb, vpn, 0)
  }

  /** `MMU::probeTLB`: the scan over the table, skipping invalid slots. */
  method Probe(m: Mmu, vpn: u32) returns (r: int)
    ensures r == -1 || 0 <= r < |m.tlb|
    ensures r == -1 <==> forall j :: 0 <= j < |m.tlb| ==> !Matches(m.tlb[j], vpn)
    ensures r != -1 ==> m.tlb[r].valid && m.tlb[r].vpn == vpn
    ensures r != -1 ==> forall j :: 0 <= j < r ==> !Matches(m.tlb[j], vpn)
    ensures r == FirstMatch(m.tlb, vpn)
  {
    var i := 0;
    while i < |m.tlb|
      invariant 0 <= i <= |m.tlb|
      invariant forall j :: 0 <= j < i ==> !Matches(m.tlb[j], vpn)
      invariant FirstMatchFrom(m.tlb, vpn, i) == FirstMatch(m.tlb, vpn)
    {
      if !m.tlb[i].valid {
        i := i + 1;
        continue;
      }
      if m.tlb[i].vpn == vpn {
        return i;
      }
      i := i + 1;
    }
    return -1;
  }

  // ----- properties ------------------------------------------------------------

  /** A table without valid entries answers every probe with -1. */
  lemma NoValidNoMatch(tlb: seq<TlbEntry>)
    requires forall i :: 0 <= i < |tlb| ==> !tlb[i].valid
    ensures forall vpn: u32 :: FirstMatch(tlb, vpn) == -1
  {
  }

  /** Round trip: reading back an in-range slot just written yields the entry. */
  lemma ReadAfterWrite(m: Mmu, index: u32, e: TlbEntry, other: u32)
    requires index < |m.tlb|
    ensures ReadEntry(WriteEntry(m, index, e), index) == Some(e)
    ensures other != index ==> ReadEntry(WriteEntry(m, index, e), other) == ReadEntry(m, other)
  {
  }

  /** Probes look only at `valid` and `vpn`: two tables that agree on those
      answer every probe alike, whatever their ASID, global, PFN or page-mask bits. */
  lemma ProbeIgnoresOtherFields(a: seq<TlbEntry>, b: seq<TlbEntry>, vpn: u32, from: nat)
    requires |a| == |b| && from <= |a|
    requires forall i :: 0 <= i < |a| ==> a[i].valid == b[i].valid && a[i].vpn == b[i].vpn
    ensures FirstMatchFrom(a, vpn, from) == FirstMatchFrom(b, vpn, from)
    decreases |a| - from
  {
  }

  /** After `flushAll` every probe misses, and flushing again changes nothing. */
  lemma FlushEmptiesProbe(m: Mmu, vpn: u32)
    ensures FirstMatch(Flush(m).tlb, vpn) == -1
    ensures Flush(Flush(m)) == Flush(m)
  {
  }

  /** After writing a valid entry for `vpn` at slot `index`, a probe for `vpn`
      finds a slot no later than `index`; an earlier slot only when it already
      matched before the write. */
  lemma ProbeFindsWritten(m: Mmu, index: u32, e: TlbEntry)
    requires index < |m.tlb| && e.valid
    ensures 0 <= FirstMatch(WriteEntry(m, index, e).tlb, e.vpn) <= index
    ensures FirstMatch(WriteEntry(m, index, e).tlb, e.vpn) < index ==>
      FirstMatch(WriteEntry(m, index, e).tlb, e.vpn) == FirstMatch(m.tlb, e.vpn)
  {
    var f := FirstMatch(WriteEntry(m, index, e).tlb, e.vpn);
    if f < index {
      assert Matches(m.tlb[f], e.vpn);
    }
  }

  // ----- round-robin replacement ----------------------------------------------------

  /** Successive `writeTLBRandom` calls with the entries `es`: the final table
      and the indices written, in order. */
  function WriteRandomAll(m: Mmu, es: seq<TlbEntry>): (r: (Mmu, seq<u32>))
    requires Valid(m)
    ensures Valid(r.0) && |r.1| == |es|
    decreases |es|
  {
    if |es| == 0 then (m, [])
    else
      var (m1, idx) := WriteRandom(m, es[0]);
      var (m2, rest) := WriteRandomAll(m1, es[1..]);
      (m2, [idx] + rest)
  }

  /** The `k`-th random write goes to slot `(randomPtr + k) mod size`: slots are
      visited round-robin from the pointer, wired or not. */
  lemma {:induction false} RoundRobin(m: Mmu, es: seq<TlbEntry>)
    requires Valid(m) && |m.tlb| > 0
    ensures forall k :: 0 <= k < |es| ==> WriteRandomAll(m, es).1[k] == (m.randomPtr + k) % |m.tlb|
    ensures Valid(WriteRandomAll(m, es).0)
    ensures WriteRandomAll(m, es).0.randomPtr == (m.randomPtr + |es|) % |m.tlb|
    decreases |es|
  {
    if |es| > 0 {
      var n := |m.tlb|;
      var (m1, idx) := WriteRandom(m, es[0]);
      RoundRobin(m1, es[1..]);
      var rest := WriteRandomAll(m1, es[1..]).1;
      forall k | 1 <= k < |es|
        ensures WriteRandomAll(m, es).1[k] == (m.randomPtr + k) % n
      {
        assert WriteRandomAll(m, es).1[k] == rest[k - 1];
        ModAddShift(m.randomPtr, k - 1, n);
      }
      ModAddShift(m.randomPtr, |es| - 1, n);
    }
  }

  /** `size` consecutive random writes touch every slot of the table, so no
      slot (in particular no wired slot) is ever protected from replacement. */
  lemma RandomWritesCoverTable(m: Mmu, es: seq<TlbEntry>)
    requires Valid(m) && |m.tlb| > 0 && |es| >= |m.tlb|
    ensures forall s :: 0 <= s < |m.tlb| ==> s in WriteRandomAll(m, es).1
  {
    var n := |m.tlb|;
    RoundRobin(m, es);
    forall s | 0 <= s < n
      ensures s in WriteRandomAll(m, es).1
    {
      var k := if s >= m.randomPtr then s - m.randomPtr else s + n - m.randomPtr;
      assert 0 <= k < n;
      assert (m.randomPtr + k) % n == s by {
        if s >= m.randomPtr {
          DivModUnique(m.randomPtr + k, n, 0, s);
        } else {
          assert m.randomPtr + k == 1 * n + s;
          DivModUnique(m.randomPtr + k, n, 1, s);
        }
      }
      assert WriteRandomAll(m, es).1[k] == s;
    }
  }
}
