/**
 * performRelocation of linkerexe.cpp. The relocation entries of each SHT_RELA
 * section are read from the file in one block; for each R_X86_64_64 entry the
 * C++ stores S + A through a raw pointer, at r_offset, or at r_offset + sh_addr
 * when e_type is ET_DYN. Every other type, R_X86_64_NONE included, only
 * prints a message. There is no binding check and no "not found" check.
 *
 * The address space the stores land in is a map from address to 64-bit word,
 * and S, the value the C++ fetches from symbolTable with a key built from
 * r_info, is a function of r_info supplied by the caller.
 */
module LinkerExe {

  import opened Elf
  import opened Maps
  import opened Seqs

  /** The 64-bit words of the address space, by address. */
  type Memory = map<u64, u64>

  /** Every SHT_RELA section can be read. */
  predicate ExeDefined(file: seq<u8>, headers: seq<Shdr>)
  {
    forall j :: 0 <= j < |headers| && headers[j].sh_type == SHT_RELA ==> EntriesReadable(file, headers[j])
  }

  /** The vector relocationEntries: sh_size / 24 entries, the i-th at sh_offset + 24 * i. */
  function RelaEntries(file: seq<u8>, sh: Shdr): (r: seq<Rela>)
    requires EntriesReadable(file, sh)
    ensures |r| == sh.sh_size / 24
    ensures forall i :: 0 <= i < |r| ==>
      sh.sh_offset + 24 * i + 24 <= |file| && r[i] == DecodeRela(file, sh.sh_offset + 24 * i)
  {
    seq(sh.sh_size / 24, i requires 0 <= i < sh.sh_size / 24 => DecodeRela(file, sh.sh_offset + 24 * i))
  }

  /** The address the C++ casts to uint64_t *: r_offset + sh_addr modulo 2^64 for ET_DYN, r_offset otherwise. */
  function Address(eType: u16, sh: Shdr, e: Rela): (r: u64)
    ensures eType == ET_DYN ==> (r - (e.r_offset + sh.sh_addr)) % TWO64 == 0
    ensures eType != ET_DYN ==> r == e.r_offset
  {
    if eType == ET_DYN then Wrap(e.r_offset as int + sh.sh_addr) else e.r_offset
  }

  /** The stores one entry performs: one (address, S + A) for R_X86_64_64, none for any other type. */
  function EntryStores(eType: u16, sh: Shdr, e: Rela, symbolValue: u64 -> u64): (r: seq<(u64, u64)>)
  {
    if RType(e.r_info) == R_X86_64_64 then [(Address(eType, sh, e), EntryWord(e, symbolValue))] else []
  }

  /** S + A, modulo 2^64: the one uint64_t value congruent to their sum. */
  function EntryWord(e: Rela, symbolValue: u64 -> u64): (r: u64)
    ensures (r - (symbolValue(e.r_info) + e.r_addend)) % TWO64 == 0
  {
    Wrap(symbolValue(e.r_info) as int + e.r_addend)
  }

  /** The stores of each entry of a section, entry by entry. */
  function EntryRuns(eType: u16, sh: Shdr, es: seq<Rela>, symbolValue: u64 -> u64): (r: seq<seq<(u64, u64)>>)
    ensures |r| == |es|
    ensures forall i :: 0 <= i < |es| ==> r[i] == EntryStores(eType, sh, es[i], symbolValue)
  {
    seq(|es|, i requires 0 <= i < |es| => EntryStores(eType, sh, es[i], symbolValue))
  }

  /** The stores of each section header, header by header: none unless it is SHT_RELA. */
  function SectionStoreRuns(file: seq<u8>, eType: u16, headers: seq<Shdr>, symbolValue: u64 -> u64): (r: seq<seq<(u64, u64)>>)
    requires ExeDefined(file, headers)
    ensures |r| == |headers|
    ensures forall j :: 0 <= j < |headers| ==> r[j] == SectionStores(file, eType, headers[j], symbolValue)
  {
    seq(|headers|, j requires 0 <= j < |headers| => SectionStores(file, eType, headers[j], symbolValue))
  }

  function SectionStores(file: seq<u8>, eType: u16, sh: Shdr, symbolValue: u64 -> u64): (r: seq<(u64, u64)>)
    requires sh.sh_type == SHT_RELA ==> EntriesReadable(file, sh)
  {
    if sh.sh_type == SHT_RELA then Flatten(EntryRuns(eType, sh, RelaEntries(file, sh), symbolValue)) else []
  }

  /**
   * The address space after the loop: every store in order, the last store to
   * an address deciding its word. No address is ever removed, and a file
   * without SHT_RELA sections leaves the address space as it was.
   */
  function ExeRelocate(file: seq<u8>, eType: u16, headers: seq<Shdr>, symbolValue: u64 -> u64, memory: Memory): (r: Memory)
    requires ExeDefined(file, headers)
    ensures memory.Keys <= r.Keys
    ensures (forall j :: 0 <= j < |headers| ==> headers[j].sh_type != SHT_RELA) ==> r == memory
  {
    InsertAllKeys(memory, Flatten(SectionStoreRuns(file, eType, headers, symbolValue)));
    FlattenEmpty(SectionStoreRuns(file, eType, headers, symbolValue));
    InsertAll(memory, Flatten(SectionStoreRuns(file, eType, headers, symbolValue)))
  }

  /** Entry i of the RELA section of header j stores to address a. */
  predicate StoresTo(file: seq<u8>, eType: u16, headers: seq<Shdr>, j: int, i: int, a: u64)
    requires ExeDefined(file, headers)
  {
    && 0 <= j < |headers| && headers[j].sh_type == SHT_RELA
    && 0 <= i < headers[j].sh_size / 24
    && RType(RelaEntries(file, headers[j])[i].r_info) == R_X86_64_64
    && Address(eType, headers[j], RelaEntries(file, headers[j])[i]) == a
  }

  // ---------------------------------------------------------------------------
  // The loop

  /** performRelocation: the address space after every entry of every SHT_RELA section. */
  method PerformRelocation(file: seq<u8>, eType: u16, headers: seq<Shdr>, symbolValue: u64 -> u64, memory: Memory)
      returns (mem: Memory)
    requires ExeDefined(file, headers)
    ensures mem == ExeRelocate(file, eType, headers, symbolValue, memory)
  {
    mem := memory;
    var j := 0;
    while j < |headers|
      invariant 0 <= j <= |headers|
      invariant mem == ExeUpTo(file, eType, headers, symbolValue, memory, j)
    {
      ExeUpToStep(file, eType, headers, symbolValue, memory, j);
      var sh := headers[j];
      if sh.sh_type == SHT_RELA {
        var entries := RelaEntries(file, sh);
        mem := ApplyEntries(eType, sh, entries, symbolValue, mem);
      }
      j := j + 1;
    }
    ExeUpToAll(file, eType, headers, symbolValue, memory);
  }

  /** The address space after the sections before header k. */
  function ExeUpTo(file: seq<u8>, eType: u16, headers: seq<Shdr>, symbolValue: u64 -> u64, memory: Memory, k: nat): (r: Memory)
    requires ExeDefined(file, headers) && k <= |headers|
  {
    InsertAll(memory, Flatten(SectionStoreRuns(file, eType, headers, symbolValue)[..k]))
  }

  /** Header k adds the stores of its entries, if it is SHT_RELA, after those of the headers before it. */
  lemma ExeUpToStep(file: seq<u8>, eType: u16, headers: seq<Shdr>, symbolValue: u64 -> u64, memory: Memory, k: nat)
    requires ExeDefined(file, headers) && k < |headers|
    ensures var before := ExeUpTo(file, eType, headers, symbolValue, memory, k);
      ExeUpTo(file, eType, headers, symbolValue, memory, k + 1)
        == if headers[k].sh_type == SHT_RELA
           then InsertAll(before, Flatten(EntryRuns(eType, headers[k], RelaEntries(file, headers[k]), symbolValue)))
           else before
  {
    var before := ExeUpTo(file, eType, headers, symbolValue, memory, k);
    InsertAllRuns(memory, SectionStoreRuns(file, eType, headers, symbolValue), k);
    InsertAllEmpty(before);
  }

  /** Past the last header, the prefix is the whole of ExeRelocate. */
  lemma ExeUpToAll(file: seq<u8>, eType: u16, headers: seq<Shdr>, symbolValue: u64 -> u64, memory: Memory)
    requires ExeDefined(file, headers)
    ensures ExeUpTo(file, eType, headers, symbolValue, memory, |headers|) == ExeRelocate(file, eType, headers, symbolValue, memory)
  {
    assert SectionStoreRuns(file, eType, headers, symbolValue)[..|headers|] == SectionStoreRuns(file, eType, headers, symbolValue);
  }

  /** The loop over the entries of one section. */
  method ApplyEntries(eType: u16, sh: Shdr, entries: seq<Rela>, symbolValue: u64 -> u64, memory: Memory)
      returns (mem: Memory)
    ensures mem == InsertAll(memory, Flatten(EntryRuns(eType, sh, entries, symbolValue)))
  {
    ghost var runs := EntryRuns(eType, sh, entries, symbolValue);
    mem := memory;
    var i := 0;
    while i < |entries|
      invariant 0 <= i <= |entries|
      invariant mem == InsertAll(memory, Flatten(runs[..i]))
    {
      EntryRunsStep(eType, sh, entries, symbolValue, memory, i);
      var entry := entries[i];
      if RType(entry.r_info) == R_X86_64_64 {
        var address := Address(eType, sh, entry);
        var word := EntryWord(entry, symbolValue);
        mem := mem[address := word];
      }
      i := i + 1;
    }
    assert runs[..i] == runs;
  }

  /** Entry i adds its store, if any, after the stores of the entries before it. */
  lemma EntryRunsStep(eType: u16, sh: Shdr, es: seq<Rela>, symbolValue: u64 -> u64, memory: Memory, i: nat)
    requires i < |es|
    ensures var runs := EntryRuns(eType, sh, es, symbolValue);
      var before := InsertAll(memory, Flatten(runs[..i]));
      InsertAll(memory, Flatten(runs[..i + 1]))
        == if RType(es[i].r_info) == R_X86_64_64 then before[Address(eType, sh, es[i]) := EntryWord(es[i], symbolValue)] else before
  {
    var runs := EntryRuns(eType, sh, es, symbolValue);
    var before := InsertAll(memory, Flatten(runs[..i]));
    InsertAllRuns(memory, runs, i);
    InsertAllOne(before, Address(eType, sh, es[i]), EntryWord(es[i], symbolValue));
  }

  // ---------------------------------------------------------------------------
  // What the loop computes

  /** The word entry i of header j stores: S + A, modulo 2^64. */
  function StoredValue(file: seq<u8>, headers: seq<Shdr>, symbolValue: u64 -> u64, j: nat, i: nat): (r: u64)
    requires ExeDefined(file, headers) && j < |headers| && headers[j].sh_type == SHT_RELA && i < headers[j].sh_size / 24
  {
    EntryWord(RelaEntries(file, headers[j])[i], symbolValue)
  }

  /** Where the stores of entry i of header j begin among all the stores. */
  function Position(file: seq<u8>, eType: u16, headers: seq<Shdr>, symbolValue: u64 -> u64, j: nat, i: nat): (r: nat)
    requires ExeDefined(file, headers) && j < |headers| && headers[j].sh_type == SHT_RELA && i < headers[j].sh_size / 24
  {
    Start(SectionStoreRuns(file, eType, headers, symbolValue), j)
      + Start(EntryRuns(eType, headers[j], RelaEntries(file, headers[j]), symbolValue), i)
  }

  /** Within one section, every store is that of an R_X86_64_64 entry, where that entry's stores begin. */
  lemma EntryLocate(eType: u16, sh: Shdr, es: seq<Rela>, symbolValue: u64 -> u64, p: nat) returns (i: nat)
    requires p < |Flatten(EntryRuns(eType, sh, es, symbolValue))|
    ensures i < |es| && RType(es[i].r_info) == R_X86_64_64
    ensures p == Start(EntryRuns(eType, sh, es, symbolValue), i)
    ensures Flatten(EntryRuns(eType, sh, es, symbolValue))[p] == (Address(eType, sh, es[i]), EntryWord(es[i], symbolValue))
  {
    var z;
    i, z := FlattenLocate(EntryRuns(eType, sh, es, symbolValue), p);
  }

  /** An entry that stores finds its store at its position. */
  lemma StoreAt(file: seq<u8>, eType: u16, headers: seq<Shdr>, symbolValue: u64 -> u64, j: nat, i: nat, a: u64)
    requires ExeDefined(file, headers) && StoresTo(file, eType, headers, j, i, a)
    ensures Position(file, eType, headers, symbolValue, j, i) < |Flatten(SectionStoreRuns(file, eType, headers, symbolValue))|
    ensures Flatten(SectionStoreRuns(file, eType, headers, symbolValue))[Position(file, eType, headers, symbolValue, j, i)]
      == (a, StoredValue(file, headers, symbolValue, j, i))
  {
    var outer := SectionStoreRuns(file, eType, headers, symbolValue);
    var inner := EntryRuns(eType, headers[j], RelaEntries(file, headers[j]), symbolValue);
    EntryRunAt(file, eType, headers, symbolValue, j, i, a);
    SectionRunAt(file, eType, headers, symbolValue, j);
    FlattenNestedAt(outer, inner, j, i, (a, StoredValue(file, headers, symbolValue, j, i)), Position(file, eType, headers, symbolValue, j, i));
  }

  /** The stores of entry i of header j: the single store (a, S + A). */
  lemma EntryRunAt(file: seq<u8>, eType: u16, headers: seq<Shdr>, symbolValue: u64 -> u64, j: nat, i: nat, a: u64)
    requires ExeDefined(file, headers) && StoresTo(file, eType, headers, j, i, a)
    ensures EntryRuns(eType, headers[j], RelaEntries(file, headers[j]), symbolValue)[i] == [(a, StoredValue(file, headers, symbolValue, j, i))]
  {
  }

  /** The stores of RELA header j: those of its entries, one after the other. */
  lemma SectionRunAt(file: seq<u8>, eType: u16, headers: seq<Shdr>, symbolValue: u64 -> u64, j: nat)
    requires ExeDefined(file, headers) && j < |headers| && headers[j].sh_type == SHT_RELA
    ensures SectionStoreRuns(file, eType, headers, symbolValue)[j] == Flatten(EntryRuns(eType, headers[j], RelaEntries(file, headers[j]), symbolValue))
  {
  }

  /** Every store of the run is the store of some entry, at that entry's position. */
  lemma LocateStore(file: seq<u8>, eType: u16, headers: seq<Shdr>, symbolValue: u64 -> u64, k: nat)
      returns (j: nat, i: nat)
    requires ExeDefined(file, headers) && k < |Flatten(SectionStoreRuns(file, eType, headers, symbolValue))|
    ensures StoresTo(file, eType, headers, j, i, Flatten(SectionStoreRuns(file, eType, headers, symbolValue))[k].0)
    ensures Flatten(SectionStoreRuns(file, eType, headers, symbolValue))[k].1 == StoredValue(file, headers, symbolValue, j, i)
    ensures k == Position(file, eType, headers, symbolValue, j, i)
  {
    var outer := SectionStoreRuns(file, eType, headers, symbolValue);
    var p;
    j, p := FlattenLocate(outer, k);
    assert headers[j].sh_type == SHT_RELA;
    i := EntryLocate(eType, headers[j], RelaEntries(file, headers[j]), symbolValue, p);
  }

  /** Positions are ordered as (header, entry) pairs are, lexicographically. */
  lemma PositionOrder(file: seq<u8>, eType: u16, headers: seq<Shdr>, symbolValue: u64 -> u64, j: nat, i: nat, j2: nat, i2: nat, a: u64, a2: u64)
    requires ExeDefined(file, headers)
    requires StoresTo(file, eType, headers, j, i, a) && StoresTo(file, eType, headers, j2, i2, a2)
    requires Position(file, eType, headers, symbolValue, j, i) < Position(file, eType, headers, symbolValue, j2, i2)
    ensures j < j2 || (j == j2 && i < i2)
  {
    var outer := SectionStoreRuns(file, eType, headers, symbolValue);
    var inner := EntryRuns(eType, headers[j], RelaEntries(file, headers[j]), symbolValue);
    var inner2 := EntryRuns(eType, headers[j2], RelaEntries(file, headers[j2]), symbolValue);
    FlattenAt(inner, i, 0);
    FlattenAt(inner2, i2, 0);
    FlattenOrder(outer, j, Start(inner, i), j2, Start(inner2, i2));
    if j == j2 {
      FlattenOrder(inner, i, 0, i2, 0);
    }
  }

  /**
   * The word at an address is what the last R_X86_64_64 entry targeting it
   * stores, S + A: the word that was there before does not enter into it.
   */
  lemma ExeLastWins(file: seq<u8>, eType: u16, headers: seq<Shdr>, symbolValue: u64 -> u64, memory: Memory, j: nat, i: nat, a: u64)
    requires ExeDefined(file, headers) && StoresTo(file, eType, headers, j, i, a)
    requires forall j2, i2 :: j <= j2 && (j < j2 || i < i2) ==> !StoresTo(file, eType, headers, j2, i2, a)
    ensures a in ExeRelocate(file, eType, headers, symbolValue, memory)
    ensures ExeRelocate(file, eType, headers, symbolValue, memory)[a] == StoredValue(file, headers, symbolValue, j, i)
  {
    var all := Flatten(SectionStoreRuns(file, eType, headers, symbolValue));
    var k := Position(file, eType, headers, symbolValue, j, i);
    StoreAt(file, eType, headers, symbolValue, j, i, a);
    forall k2 | k < k2 < |all|
      ensures all[k2].0 != a
    {
      var j2, i2 := LocateStore(file, eType, headers, symbolValue, k2);
      PositionOrder(file, eType, headers, symbolValue, j, i, j2, i2, a, all[k2].0);
    }
    InsertAllLastWins(memory, all, k);
  }

  /** An address that no R_X86_64_64 entry targets keeps its word, or its absence. */
  lemma ExeUntouched(file: seq<u8>, eType: u16, headers: seq<Shdr>, symbolValue: u64 -> u64, memory: Memory, a: u64)
    requires ExeDefined(file, headers)
    requires forall j, i :: !StoresTo(file, eType, headers, j, i, a)
    ensures a in ExeRelocate(file, eType, headers, symbolValue, memory) <==> a in memory
    ensures a in memory ==> ExeRelocate(file, eType, headers, symbolValue, memory)[a] == memory[a]
  {
    var all := Flatten(SectionStoreRuns(file, eType, headers, symbolValue));
    forall k | 0 <= k < |all|
      ensures all[k].0 != a
    {
      var j, i := LocateStore(file, eType, headers, symbolValue, k);
    }
    InsertAllUntouched(memory, all, a);
  }

}
