/**
 * The relocation engine of linker.cpp (performRelocation): every SHT_RELA
 * section, in header order, patches the in-memory copy of the file, entry by
 * entry. Entries and the symbols they name are decoded from the buffer as it
 * is at that moment, so a patch can change what a later entry reads.
 *
 * The formulas are the code's, not those of section 4.4 of the System V AMD64
 * psABI: the word already at the target is added in, and R_X86_64_PC32 writes
 * all 64 bits.
 *
 * The C++ has undefined behaviour when an index leaves fileData, sh_link leaves
 * the section headers, or a name has no NUL inside the name table; those
 * entries yield None here, and callers are required to avoid them.
 */
module Relocation {

  import opened Wrappers
  import opened Elf
  import opened SymbolTable
  import opened Steps

  /** &fileData[sh_offset + i * sizeof(Elf64_Rela)], in size_t arithmetic. */
  function EntryOffset(sh: Shdr, i: nat): (r: u64)
  {
    Wrap(sh.sh_offset + 24 * i)
  }

  /** &fileData[symtab.sh_offset + ELF64_R_SYM(info) * sizeof(Elf64_Sym)], in size_t arithmetic. */
  function SymbolOffset(symtab: Shdr, info: u64): (r: u64)
  {
    Wrap(symtab.sh_offset + 24 * RSym(info))
  }

  /** What the C++ decides about one relocation entry before it touches the target. */
  datatype Decision =
    | Undefined                 // an access the C++ makes is out of range
    | SkippedLocal              // the symbol's binding is STB_LOCAL
    | NotFound(name: string)    // "Symbol not found"
    | Apply(rtype: u32, offset: u64, s: u64, a: u64)

  /**
   * Decodes entry i of RELA section sh from buf and looks its symbol up in
   * table. The decision is undefined exactly when a read leaves the buffer,
   * sh_link leaves the headers, or a non-local symbol's name has no NUL in the
   * name table. The binding is tested before the name is built, so a local
   * symbol is skipped whatever its name; an entry reaches the switch only with
   * a non-local symbol whose name the table holds, and then S is that name's
   * value and the type, P and A are the entry's.
   */
  function Decide(buf: seq<u8>, headers: seq<Shdr>, names: seq<char>, table: Table, sh: Shdr, i: nat): (d: Decision)
    ensures EntryOffset(sh, i) + 24 > |buf| || sh.sh_link >= |headers| ==> d == Undefined
    ensures !d.Undefined? ==>
      && EntryOffset(sh, i) + 24 <= |buf| && sh.sh_link < |headers|
      && SymbolOffset(headers[sh.sh_link], DecodeRela(buf, EntryOffset(sh, i)).r_info) + 24 <= |buf|
    ensures !d.Undefined? ==>
      var symtab := headers[sh.sh_link];
      var sym := DecodeSym(buf, SymbolOffset(symtab, DecodeRela(buf, EntryOffset(sh, i)).r_info));
      (d.SkippedLocal? <==> StBind(sym.st_info) == STB_LOCAL)
    ensures d.Undefined? <==>
      || EntryOffset(sh, i) + 24 > |buf| || sh.sh_link >= |headers|
      || var symtab := headers[sh.sh_link];
         var so := SymbolOffset(symtab, DecodeRela(buf, EntryOffset(sh, i)).r_info);
         || so + 24 > |buf|
         || (StBind(DecodeSym(buf, so).st_info) != STB_LOCAL && !Terminated(names, symtab.sh_name + DecodeSym(buf, so).st_name))
    ensures d.NotFound? ==>
      var symtab := headers[sh.sh_link];
      var sym := DecodeSym(buf, SymbolOffset(symtab, DecodeRela(buf, EntryOffset(sh, i)).r_info));
      && Terminated(names, symtab.sh_name + sym.st_name)
      && d.name == SymbolName(names, symtab, sym)
      && d.name !in table
    ensures d.Apply? ==>
      var e := DecodeRela(buf, EntryOffset(sh, i));
      var symtab := headers[sh.sh_link];
      var sym := DecodeSym(buf, SymbolOffset(symtab, e.r_info));
      && Terminated(names, symtab.sh_name + sym.st_name)
      && SymbolName(names, symtab, sym) in table
      && d.s == table[SymbolName(names, symtab, sym)].value
      && d.rtype == RType(e.r_info) && d.offset == e.r_offset && d.a == e.r_addend
  {
    var eo := EntryOffset(sh, i);
    if eo + 24 > |buf| || sh.sh_link >= |headers| then Undefined
    else
      var e := DecodeRela(buf, eo);
      var symtab := headers[sh.sh_link];
      var so := SymbolOffset(symtab, e.r_info);
      if so + 24 > |buf| then Undefined
      else
        var sym := DecodeSym(buf, so);
        if StBind(sym.st_info) == STB_LOCAL then SkippedLocal
        else if !Terminated(names, symtab.sh_name + sym.st_name) then Undefined
        else
          var name := SymbolName(names, symtab, sym);
          if name !in table then NotFound(name)
          else Apply(RType(e.r_info), e.r_offset, table[name].value, e.r_addend)
  }

  /**
   * The word the switch leaves at the target, given the word there before;
   * None leaves it alone. Only R_X86_64_64 and R_X86_64_PC32 write, and the
   * word written is the one uint64_t value congruent to word + S + A, or to
   * word + S + A - P, modulo 2^64.
   */
  function Patched(rtype: u32, word: u64, s: u64, a: u64, p: u64): (r: Option<u64>)
    ensures r.Some? <==> rtype == R_X86_64_64 || rtype == R_X86_64_PC32
    ensures rtype == R_X86_64_64 ==> (r.value - (word + s + a)) % TWO64 == 0
    ensures rtype == R_X86_64_PC32 ==> (r.value - (word + s + a - p)) % TWO64 == 0
  {
    if rtype == R_X86_64_64 then Some(Wrap(word as int + s + a))
    else if rtype == R_X86_64_PC32 then Some(Wrap(word as int + s + a - p))
    else None
  }

  /** buf after the switch on the decision d; None where the C++ behaviour is undefined. */
  function Patch(buf: seq<u8>, d: Decision): (r: Option<seq<u8>>)
    ensures r.Some? ==> |r.value| == |buf|
    ensures r.Some? <==> match d
      case Undefined => false
      case Apply(_, p, _, _) => p + 8 <= |buf|
      case _ => true
    ensures d.SkippedLocal? || d.NotFound? ==> r == Some(buf)
  {
    match d
    case Undefined => None
    case SkippedLocal => Some(buf)
    case NotFound(_) => Some(buf)
    case Apply(t, p, s, a) =>
      if p + 8 > |buf| then None
      else
        match Patched(t, LoadU64(buf, p), s, a, p)
        case None => Some(buf)
        case Some(w) => Some(StoreU64(buf, p, w))
  }

  /**
   * The switch on the relocation type: R_X86_64_64 adds S + A to the 64-bit
   * word at the target, R_X86_64_PC32 adds S + A - P, any other type leaves
   * the buffer alone, and no byte outside the target word changes.
   */
  lemma PatchApply(buf: seq<u8>, t: u32, p: u64, s: u64, a: u64)
    requires p + 8 <= |buf|
    ensures var r := Patch(buf, Apply(t, p, s, a));
      && r.Some?
      && (forall k :: 0 <= k < |buf| && !(p <= k < p + 8) ==> r.value[k] == buf[k])
      && (t == R_X86_64_64 ==> LoadU64(r.value, p) == Wrap(LoadU64(buf, p) as int + s + a))
      && (t == R_X86_64_PC32 ==> LoadU64(r.value, p) == Wrap(LoadU64(buf, p) as int + s + a - p))
      && (t != R_X86_64_64 && t != R_X86_64_PC32 ==> r.value == buf)
  {
  }

  /** buf after entry i of RELA section sh. */
  function RelaStep(buf: seq<u8>, headers: seq<Shdr>, names: seq<char>, table: Table, sh: Shdr, i: nat): (r: Option<seq<u8>>)
    ensures r.Some? ==> |r.value| == |buf|
  {
    Patch(buf, Decide(buf, headers, names, table, sh, i))
  }

  /** With an empty symbol table no entry gets as far as the switch. */
  lemma DecideEmptyTable(buf: seq<u8>, headers: seq<Shdr>, names: seq<char>, sh: Shdr, i: nat)
    ensures !Decide(buf, headers, names, map[], sh, i).Apply?
  {
  }

  /** The entries of RELA section sh as a loop body: entry i patches the buffer left by entry i - 1. */
  function EntryStep(headers: seq<Shdr>, names: seq<char>, table: Table, sh: Shdr): (step: (seq<u8>, nat) -> Option<seq<u8>>)
  {
    (b: seq<u8>, i: nat) => RelaStep(b, headers, names, table, sh, i)
  }

  /** buf after the first n entries of RELA section sh. */
  function RelocateSection(buf: seq<u8>, headers: seq<Shdr>, names: seq<char>, table: Table, sh: Shdr, n: nat): (r: Option<seq<u8>>)
  {
    Run(EntryStep(headers, names, table, sh), buf, n)
  }

  /** Entry n runs on what the first n entries leave, if they leave anything. */
  lemma RelocateSectionStep(buf: seq<u8>, headers: seq<Shdr>, names: seq<char>, table: Table, sh: Shdr, n: nat)
    ensures RelocateSection(buf, headers, names, table, sh, n + 1) ==
      match RelocateSection(buf, headers, names, table, sh, n)
      case None => None
      case Some(b) => RelaStep(b, headers, names, table, sh, n)
  {
  }

  /** The section headers as a loop body: a RELA section applies its sh_size / 24 entries, any other leaves the buffer. */
  function SectionStep(headers: seq<Shdr>, names: seq<char>, table: Table): (step: (seq<u8>, nat) -> Option<seq<u8>>)
  {
    (b: seq<u8>, j: nat) =>
      if j < |headers| && headers[j].sh_type == SHT_RELA
      then RelocateSection(b, headers, names, table, headers[j], headers[j].sh_size / 24)
      else Some(b)
  }

  /** buf after the SHT_RELA sections among the first k headers, in header order. */
  function RelocateUpTo(buf: seq<u8>, headers: seq<Shdr>, names: seq<char>, table: Table, k: nat): (r: Option<seq<u8>>)
  {
    Run(SectionStep(headers, names, table), buf, k)
  }

  /** Header k runs on what the headers before it leave, if they leave anything. */
  lemma RelocateUpToStep(buf: seq<u8>, headers: seq<Shdr>, names: seq<char>, table: Table, k: nat)
    requires k < |headers|
    ensures RelocateUpTo(buf, headers, names, table, k + 1) ==
      match RelocateUpTo(buf, headers, names, table, k)
      case None => None
      case Some(b) =>
        if headers[k].sh_type == SHT_RELA
        then RelocateSection(b, headers, names, table, headers[k], headers[k].sh_size / 24)
        else Some(b)
  {
  }

  /** Only SHT_RELA headers act: without one, every prefix of the pass is defined and leaves the buffer alone. */
  lemma {:induction false} RelocateUpToNoRela(buf: seq<u8>, headers: seq<Shdr>, names: seq<char>, table: Table, k: nat)
    ensures (forall j :: 0 <= j < |headers| ==> headers[j].sh_type != SHT_RELA) ==>
      RelocateUpTo(buf, headers, names, table, k) == Some(buf)
  {
    if k > 0 {
      RelocateUpToNoRela(buf, headers, names, table, k - 1);
    }
  }

  /** The whole of performRelocation's loop over the section headers; a file without SHT_RELA sections keeps its bytes. */
  function Relocate(buf: seq<u8>, headers: seq<Shdr>, names: seq<char>, table: Table): (r: Option<seq<u8>>)
    ensures (forall j :: 0 <= j < |headers| ==> headers[j].sh_type != SHT_RELA) ==> r == Some(buf)
  {
    RelocateUpToNoRela(buf, headers, names, table, |headers|);
    RelocateUpTo(buf, headers, names, table, |headers|)
  }

  /** Relocating the entries of one section never changes the size of the buffer. */
  lemma RelocateSectionKeepsLength(buf: seq<u8>, headers: seq<Shdr>, names: seq<char>, table: Table, sh: Shdr, n: nat)
    ensures RelocateSection(buf, headers, names, table, sh, n).Some? ==>
      |RelocateSection(buf, headers, names, table, sh, n).value| == |buf|
  {
    RunKeeps(EntryStep(headers, names, table, sh), (b: seq<u8>) => |b| == |buf|, buf, n);
  }

  /** Relocation never changes the size of the buffer. */
  lemma RelocateKeepsLength(buf: seq<u8>, headers: seq<Shdr>, names: seq<char>, table: Table)
    ensures Relocate(buf, headers, names, table).Some? ==> |Relocate(buf, headers, names, table).value| == |buf|
  {
    var step := SectionStep(headers, names, table);
    forall b: seq<u8>, j: nat | |b| == |buf| && step(b, j).Some?
      ensures |step(b, j).value| == |buf|
    {
      if j < |headers| && headers[j].sh_type == SHT_RELA {
        RelocateSectionKeepsLength(b, headers, names, table, headers[j], headers[j].sh_size / 24);
      }
    }
    RunKeeps(step, (b: seq<u8>) => |b| == |buf|, buf, |headers|);
  }

  /** With an empty symbol table no entry gets as far as the switch, so a defined step leaves the buffer. */
  lemma RelaStepEmptyTable(b: seq<u8>, headers: seq<Shdr>, names: seq<char>, sh: Shdr, i: nat)
    ensures RelaStep(b, headers, names, map[], sh, i).Some? ==> RelaStep(b, headers, names, map[], sh, i) == Some(b)
  {
    DecideEmptyTable(b, headers, names, sh, i);
  }

  /** With an empty symbol table the entries of a section leave the buffer unchanged, where defined. */
  lemma EmptyTableSectionIdentity(buf: seq<u8>, headers: seq<Shdr>, names: seq<char>, sh: Shdr, n: nat)
    ensures RelocateSection(buf, headers, names, map[], sh, n).Some? ==>
      RelocateSection(buf, headers, names, map[], sh, n) == Some(buf)
  {
    var step := EntryStep(headers, names, map[], sh);
    forall b: seq<u8>, i: nat | b == buf && step(b, i).Some?
      ensures step(b, i).value == buf
    {
      RelaStepEmptyTable(b, headers, names, sh, i);
    }
    RunKeeps(step, (b: seq<u8>) => b == buf, buf, n);
  }

  /**
   * With an empty symbol table every entry is skipped, as local or as not
   * found, so a relocation run that is defined returns the buffer unchanged.
   */
  lemma EmptyTableIdentity(buf: seq<u8>, headers: seq<Shdr>, names: seq<char>)
    ensures Relocate(buf, headers, names, map[]).Some? ==> Relocate(buf, headers, names, map[]) == Some(buf)
  {
    var step := SectionStep(headers, names, map[]);
    forall b: seq<u8>, j: nat | b == buf && step(b, j).Some?
      ensures step(b, j).value == buf
    {
      if j < |headers| && headers[j].sh_type == SHT_RELA {
        EmptyTableSectionIdentity(b, headers, names, headers[j], headers[j].sh_size / 24);
      }
    }
    RunKeeps(step, (b: seq<u8>) => b == buf, buf, |headers|);
  }

}
