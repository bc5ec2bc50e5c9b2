/**
 * The global state of linker.cpp and the three passes that work on it:
 * parseObjectFile fills symbolTable (and replaces sectionNames),
 * resolveSymbolReferences walks it, and performRelocation patches a file's
 * bytes in place. File contents, section headers and the section-name table
 * are what the C++ reads from its streams; they arrive here as values.
 */
module StaticLinker {

  import opened Wrappers
  import opened Elf
  import opened Maps
  import opened Seqs
  import opened Steps
  import opened SymbolTable
  import opened Relocation

  /** The globals symbolTable and sectionNames. */
  class Linker {

    var symbolTable: Table
    var sectionNames: seq<char>

    /** Both globals start out empty. */
    constructor ()
      ensures symbolTable == map[] && sectionNames == []
    {
      symbolTable := map[];
      sectionNames := [];
    }

    /**
     * parseObjectFile: sectionNames becomes the file's section-name table, then
     * every entry of every SHT_SYMTAB section is assigned into symbolTable in
     * file order, so the last entry bearing a name decides its value.
     */
    method ParseObjectFile(file: seq<u8>, headers: seq<Shdr>, names: seq<char>)
      requires ParseDefined(file, headers, names)
      modifies this
      ensures sectionNames == names
      ensures symbolTable == ParseSymbols(old(symbolTable), file, headers, names)
    {
      sectionNames := names;
      ghost var start := symbolTable;
      var j := 0;
      while j < |headers|
        invariant 0 <= j <= |headers|
        invariant sectionNames == names
        invariant symbolTable == ParseUpTo(start, file, headers, names, j)
      {
        ParseUpToStep(start, file, headers, names, j);
        var sh := headers[j];
        if sh.sh_type == SHT_SYMTAB {
          var entries := SymEntries(file, sh);
          AddSymbols(sh, entries);
        }
        j := j + 1;
      }
      ParseUpToAll(start, file, headers, names);
    }

    /** The inner loop of parseObjectFile: symbolTable[name] = {st_value} for each entry in turn. */
    method AddSymbols(sh: Shdr, entries: seq<Sym>)
      requires NamesTerminated(sectionNames, sh, entries)
      modifies this
      ensures sectionNames == old(sectionNames)
      ensures symbolTable == InsertAll(old(symbolTable), SymbolPairs(sectionNames, sh, entries))
    {
      ghost var pairs := SymbolPairs(sectionNames, sh, entries);
      var i := 0;
      while i < |entries|
        invariant 0 <= i <= |entries|
        invariant sectionNames == old(sectionNames)
        invariant symbolTable == InsertAll(old(symbolTable), pairs[..i])
      {
        var name := SymbolName(sectionNames, sh, entries[i]);
        InsertAllPrefix(old(symbolTable), pairs, i);
        symbolTable := symbolTable[name := SymbolEntry(entries[i].st_value)];
        i := i + 1;
      }
      assert pairs[..i] == pairs;
    }

    /**
     * resolveSymbolReferences: for every entry whose value is 0 it looks the
     * entry's own name up and copies the value found, which is that same 0,
     * so the table comes out as it went in.
     */
    method ResolveSymbolReferences()
      modifies this
      ensures symbolTable == old(symbolTable) && sectionNames == old(sectionNames)
    {
      var pending := symbolTable.Keys;
      while pending != {}
        invariant pending <= symbolTable.Keys
        invariant symbolTable == old(symbolTable) && sectionNames == old(sectionNames)
        decreases |pending|
      {
        var name :| name in pending;
        if symbolTable[name].value == 0 {
          if name in symbolTable {
            symbolTable := symbolTable[name := symbolTable[name].(value := symbolTable[name].value)];
          }
        }
        pending := pending - {name};
      }
    }

    /**
     * performRelocation: every SHT_RELA section, in header order, patches the
     * file's bytes entry by entry, each entry read from the bytes as the
     * entries before it left them.
     */
    method PerformRelocation(fileData: array<u8>, headers: seq<Shdr>)
      requires Relocate(fileData[..], headers, sectionNames, symbolTable).Some?
      modifies fileData
      ensures fileData[..] == Relocate(old(fileData[..]), headers, sectionNames, symbolTable).value
    {
      ghost var init := fileData[..];
      var j := 0;
      while j < |headers|
        invariant 0 <= j <= |headers|
        invariant RelocateUpTo(init, headers, sectionNames, symbolTable, j) == Some(fileData[..])
      {
        RunPrefix(SectionStep(headers, sectionNames, symbolTable), init, j + 1, |headers|);
        RelocateUpToStep(init, headers, sectionNames, symbolTable, j);
        var sh := headers[j];
        if sh.sh_type == SHT_RELA {
          RelocateEntries(fileData, headers, sh);
        }
        j := j + 1;
      }
    }

    /** The entry loop of performRelocation for the RELA section sh: its sh_size / 24 entries in order. */
    method RelocateEntries(fileData: array<u8>, headers: seq<Shdr>, sh: Shdr)
      requires RelocateSection(fileData[..], headers, sectionNames, symbolTable, sh, sh.sh_size / 24).Some?
      modifies fileData
      ensures Some(fileData[..]) == RelocateSection(old(fileData[..]), headers, sectionNames, symbolTable, sh, sh.sh_size / 24)
    {
      var count := sh.sh_size / 24;
      ghost var before := fileData[..];
      var i := 0;
      while i < count
        invariant 0 <= i <= count
        invariant RelocateSection(before, headers, sectionNames, symbolTable, sh, i) == Some(fileData[..])
      {
        RunPrefix(EntryStep(headers, sectionNames, symbolTable, sh), before, i + 1, count);
        RelocateSectionStep(before, headers, sectionNames, symbolTable, sh, i);
        ApplyRelocation(fileData, headers, sh, i);
        i := i + 1;
      }
    }

    /** One iteration of the entry loop of performRelocation. */
    method ApplyRelocation(fileData: array<u8>, headers: seq<Shdr>, sh: Shdr, i: nat)
      requires RelaStep(fileData[..], headers, sectionNames, symbolTable, sh, i).Some?
      modifies fileData
      ensures fileData[..] == RelaStep(old(fileData[..]), headers, sectionNames, symbolTable, sh, i).value
    {
      ghost var buf := fileData[..];
      ghost var d := Decide(buf, headers, sectionNames, symbolTable, sh, i);
      assert RelaStep(buf, headers, sectionNames, symbolTable, sh, i) == Patch(buf, d);
      var eo := EntryOffset(sh, i);
      var entry := DecodeRela(fileData[..], eo);
      var symtab := headers[sh.sh_link];
      var so := SymbolOffset(symtab, entry.r_info);
      var sym := DecodeSym(fileData[..], so);
      if StBind(sym.st_info) == STB_LOCAL {
        assert d == SkippedLocal;
        return;
      }
      var name := SymbolName(sectionNames, symtab, sym);
      if name !in symbolTable {
        assert d == NotFound(name);
        return;
      }
      var symbolValue := symbolTable[name].value;
      assert d == Apply(RType(entry.r_info), entry.r_offset, symbolValue, entry.r_addend);
      PatchTarget(fileData, RType(entry.r_info), entry.r_offset, symbolValue, entry.r_addend);
    }

  }

  /** The switch of performRelocation on the relocation type, at fileData[offset]. */
  method PatchTarget(fileData: array<u8>, rtype: u32, offset: u64, symbolValue: u64, addend: u64)
    requires Patch(fileData[..], Apply(rtype, offset, symbolValue, addend)).Some?
    modifies fileData
    ensures Some(fileData[..]) == Patch(old(fileData[..]), Apply(rtype, offset, symbolValue, addend))
  {
    var word := LoadU64(fileData[..], offset);
    if rtype == R_X86_64_64 {
      var value := Wrap(word as int + symbolValue + addend);
      assert Patched(rtype, word, symbolValue, addend, offset) == Some(value);
      StoreWord(fileData, offset, value);
    } else if rtype == R_X86_64_PC32 {
      var value := Wrap(word as int + symbolValue + addend - offset);
      assert Patched(rtype, word, symbolValue, addend, offset) == Some(value);
      StoreWord(fileData, offset, value);
    }
  }

  /** *(uint64_t *)&a[off] = v, byte by byte in little-endian order. */
  method StoreWord(a: array<u8>, off: nat, v: u64)
    requires off + 8 <= a.Length
    modifies a
    ensures a[..] == StoreU64(old(a[..]), off, v)
  {
    Pow256Widths();
    var bytes := EncodeLE(v, 8);
    ghost var prev := a[..];
    for k := 0 to 8
      invariant forall x :: 0 <= x < a.Length ==> a[x] == if off <= x < off + k then bytes[x - off] else prev[x]
    {
      a[off + k] := bytes[k];
    }
    assert a[..] == prev[..off] + bytes + prev[off + 8..];
  }

}
