/**
 * What parseObjectFile puts into the global symbol table: for every SHT_SYMTAB
 * section, in header order, every one of its sh_size / 24 entries, in table
 * order, as the pair (name, st_value). The name is the NUL-terminated string
 * at offset sh_name + st_name of the section-header string table (not of the
 * string table the symbol table links to), exactly as the C++ builds it.
 */
module SymbolTable {

  import opened Elf
  import opened Maps
  import opened Seqs

  /** struct SymbolEntry */
  datatype SymbolEntry = SymbolEntry(value: u64)

  /** std::map<std::string, SymbolEntry> */
  type Table = map<string, SymbolEntry>

  /** The entries of a symbol-table section: sh_size / 24 of them, the i-th at sh_offset + 24 * i. */
  function SymEntries(file: seq<u8>, sh: Shdr): (r: seq<Sym>)
    requires EntriesReadable(file, sh)
    ensures |r| == sh.sh_size / 24
    ensures forall i :: 0 <= i < |r| ==>
      sh.sh_offset + 24 * i + 24 <= |file| && r[i] == DecodeSym(file, sh.sh_offset + 24 * i)
  {
    seq(sh.sh_size / 24, i requires 0 <= i < sh.sh_size / 24 => DecodeSym(file, sh.sh_offset + 24 * i))
  }

  /** The name the C++ gives to a symbol of the table described by sh. */
  function SymbolName(names: seq<char>, sh: Shdr, s: Sym): (name: string)
    requires Terminated(names, sh.sh_name + s.st_name)
  {
    CString(names, sh.sh_name + s.st_name)
  }

  /** Every symbol's name ends with a NUL inside the name table. */
  predicate NamesTerminated(names: seq<char>, sh: Shdr, syms: seq<Sym>)
  {
    forall i :: 0 <= i < |syms| ==> Terminated(names, sh.sh_name + syms[i].st_name)
  }

  /** The assignments symbolTable[name] = {st_value} that one symbol table performs, in order. */
  function SymbolPairs(names: seq<char>, sh: Shdr, syms: seq<Sym>): (r: seq<(string, SymbolEntry)>)
    requires NamesTerminated(names, sh, syms)
    ensures |r| == |syms|
    ensures forall i :: 0 <= i < |syms| ==> r[i] == (SymbolName(names, sh, syms[i]), SymbolEntry(syms[i].st_value))
  {
    seq(|syms|, i requires 0 <= i < |syms| => (SymbolName(names, sh, syms[i]), SymbolEntry(syms[i].st_value)))
  }

  /** Everything parseObjectFile reads is inside the file and every name it builds is terminated. */
  predicate ParseDefined(file: seq<u8>, headers: seq<Shdr>, names: seq<char>)
  {
    forall j :: 0 <= j < |headers| && headers[j].sh_type == SHT_SYMTAB ==>
      EntriesReadable(file, headers[j]) && NamesTerminated(names, headers[j], SymEntries(file, headers[j]))
  }

  /** The assignments one section header leads to: none unless it is a symbol table. */
  function SectionPairs(file: seq<u8>, sh: Shdr, names: seq<char>): (r: seq<(string, SymbolEntry)>)
    requires sh.sh_type == SHT_SYMTAB ==> EntriesReadable(file, sh) && NamesTerminated(names, sh, SymEntries(file, sh))
  {
    if sh.sh_type == SHT_SYMTAB then SymbolPairs(names, sh, SymEntries(file, sh)) else []
  }

  /** The assignments of every section, in header order. */
  function SectionRuns(file: seq<u8>, headers: seq<Shdr>, names: seq<char>): (r: seq<seq<(string, SymbolEntry)>>)
    requires ParseDefined(file, headers, names)
    ensures |r| == |headers|
    ensures forall j :: 0 <= j < |headers| ==> r[j] == SectionPairs(file, headers[j], names)
  {
    seq(|headers|, j requires 0 <= j < |headers| => SectionPairs(file, headers[j], names))
  }

  /** The assignments one object file performs, in the order the C++ performs them. */
  function ObjectPairs(file: seq<u8>, headers: seq<Shdr>, names: seq<char>): (r: seq<(string, SymbolEntry)>)
    requires ParseDefined(file, headers, names)
  {
    Flatten(SectionRuns(file, headers, names))
  }

  /**
   * The symbol table after parsing one object file: no name is ever removed,
   * and a file without SHT_SYMTAB sections leaves the table as it was.
   */
  function ParseSymbols(table: Table, file: seq<u8>, headers: seq<Shdr>, names: seq<char>): (r: Table)
    requires ParseDefined(file, headers, names)
    ensures table.Keys <= r.Keys
    ensures (forall j :: 0 <= j < |headers| ==> headers[j].sh_type != SHT_SYMTAB) ==> r == table
  {
    InsertAllKeys(table, ObjectPairs(file, headers, names));
    FlattenEmpty(SectionRuns(file, headers, names));
    InsertAll(table, ObjectPairs(file, headers, names))
  }

  /** The symbol table after the sections before header k. */
  function ParseUpTo(table: Table, file: seq<u8>, headers: seq<Shdr>, names: seq<char>, k: nat): (r: Table)
    requires ParseDefined(file, headers, names) && k <= |headers|
  {
    InsertAll(table, Flatten(SectionRuns(file, headers, names)[..k]))
  }

  /** Section k adds its own assignments after those of the sections before it. */
  lemma ParseUpToStep(table: Table, file: seq<u8>, headers: seq<Shdr>, names: seq<char>, k: nat)
    requires ParseDefined(file, headers, names) && k < |headers|
    ensures ParseUpTo(table, file, headers, names, k + 1)
      == InsertAll(ParseUpTo(table, file, headers, names, k), SectionPairs(file, headers[k], names))
  {
    InsertAllRuns(table, SectionRuns(file, headers, names), k);
  }

  /** Past the last header, the prefix is the whole of ParseSymbols. */
  lemma ParseUpToAll(table: Table, file: seq<u8>, headers: seq<Shdr>, names: seq<char>)
    requires ParseDefined(file, headers, names)
    ensures ParseUpTo(table, file, headers, names, |headers|) == ParseSymbols(table, file, headers, names)
  {
    assert SectionRuns(file, headers, names)[..|headers|] == SectionRuns(file, headers, names);
  }

  /**
   * Entry i of the symbol table of header j sets its name to its st_value,
   * unless a later entry of the same file (later in the same table, or in a
   * later table) bears the same name.
   */
  lemma ParseSymbolsLastWins(table: Table, file: seq<u8>, headers: seq<Shdr>, names: seq<char>, j: nat, i: nat, name: string)
    requires ParseDefined(file, headers, names) && Names(file, headers, names, j, i, name)
    requires forall j2, i2 :: j <= j2 && (j2 > j || i2 > i) ==> !Names(file, headers, names, j2, i2, name)
    ensures name in ParseSymbols(table, file, headers, names)
    ensures ParseSymbols(table, file, headers, names)[name] == SymbolEntry(SymEntries(file, headers[j])[i].st_value)
  {
    var xs := SectionRuns(file, headers, names);
    var pairs := Flatten(xs);
    var at := Start(xs, j) + i;
    FlattenAt(xs, j, i);
    assert pairs[at] == (name, SymbolEntry(SymEntries(file, headers[j])[i].st_value));
    forall k | at < k < |pairs|
      ensures pairs[k].0 != name
    {
      var j2, i2 := FlattenLocate(xs, k);
      FlattenOrder(xs, j, i, j2, i2);
      assert !Names(file, headers, names, j2, i2, name);
    }
    InsertAllLastWins(table, pairs, at);
  }

  /** A name that no symbol of the file bears keeps its presence and its entry. */
  lemma ParseSymbolsUntouched(table: Table, file: seq<u8>, headers: seq<Shdr>, names: seq<char>, name: string)
    requires ParseDefined(file, headers, names)
    requires forall j, i :: !Names(file, headers, names, j, i, name)
    ensures name in ParseSymbols(table, file, headers, names) <==> name in table
    ensures name in table ==> ParseSymbols(table, file, headers, names)[name] == table[name]
  {
    var xs := SectionRuns(file, headers, names);
    var pairs := Flatten(xs);
    forall k | 0 <= k < |pairs|
      ensures pairs[k].0 != name
    {
      var j, i := FlattenLocate(xs, k);
      assert !Names(file, headers, names, j, i, name);
    }
    InsertAllUntouched(table, pairs, name);
  }

  /** Every name a symbol of the file bears is a key afterwards. */
  lemma ParseSymbolsAddsNames(table: Table, file: seq<u8>, headers: seq<Shdr>, names: seq<char>, j: nat, i: nat, name: string)
    requires ParseDefined(file, headers, names) && Names(file, headers, names, j, i, name)
    ensures name in ParseSymbols(table, file, headers, names)
  {
    var xs := SectionRuns(file, headers, names);
    FlattenAt(xs, j, i);
    InsertAllKeys(table, Flatten(xs));
    assert Flatten(xs)[Start(xs, j) + i].0 == name;
  }

  /** A key afterwards was a key before or is the name of a symbol of the file. */
  lemma ParseSymbolsNoOtherKeys(table: Table, file: seq<u8>, headers: seq<Shdr>, names: seq<char>, name: string)
      returns (j: nat, i: nat)
    requires ParseDefined(file, headers, names)
    requires name in ParseSymbols(table, file, headers, names) && name !in table
    ensures Names(file, headers, names, j, i, name)
  {
    var xs := SectionRuns(file, headers, names);
    var pairs := Flatten(xs);
    InsertAllKeys(table, pairs);
    assert name in (set k | 0 <= k < |pairs| :: pairs[k].0);
    var k :| 0 <= k < |pairs| && pairs[k].0 == name;
    j, i := FlattenLocate(xs, k);
  }

  /** Entry i of the symbol table of header j bears the name name. */
  predicate Names(file: seq<u8>, headers: seq<Shdr>, names: seq<char>, j: int, i: int, name: string)
    requires ParseDefined(file, headers, names)
  {
    0 <= j < |headers| && headers[j].sh_type == SHT_SYMTAB && 0 <= i < headers[j].sh_size / 24 &&
    SymbolName(names, headers[j], SymEntries(file, headers[j])[i]) == name
  }

}
