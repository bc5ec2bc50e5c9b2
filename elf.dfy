/**
 * The ELF-64 structures the linker decodes, laid out as in the "Object Files"
 * chapter of the System V generic ABI, with the x86-64 little-endian byte order.
 * Integers are unbounded here; the C++ fixed widths appear as subset types and
 * every uint64_t wrap-around is written out with Wrap.
 */
module Elf {

  import opened Wrappers

  const TWO8: nat := 0x100
  const TWO16: nat := 0x1_0000
  const TWO32: nat := 0x1_0000_0000
  const TWO64: nat := 0x1_0000_0000_0000_0000

  type u8 = x: nat | x < TWO8
  type u16 = x: nat | x < TWO16
  type u32 = x: nat | x < TWO32
  type u64 = x: nat | x < TWO64

  /** uint64_t arithmetic: the mathematical result reduced modulo 2^64. */
  function Wrap(x: int): (r: u64)
    ensures 0 <= x < TWO64 ==> r == x
    ensures (x - r) % TWO64 == 0
  {
    x % TWO64
  }

  // Section types (sh_type)
  const SHT_NULL: u32 := 0
  const SHT_SYMTAB: u32 := 2
  const SHT_RELA: u32 := 4
  const SHT_NOBITS: u32 := 8

  // Object file types (e_type)
  const ET_DYN: u16 := 3

  // Symbol bindings (upper nibble of st_info)
  const STB_LOCAL: nat := 0

  // x86-64 relocation types
  const R_X86_64_NONE: u32 := 0
  const R_X86_64_64: u32 := 1
  const R_X86_64_PC32: u32 := 2

  /** Elf64_Shdr */
  datatype Shdr = Shdr(
    sh_name: u32, sh_type: u32, sh_flags: u64, sh_addr: u64, sh_offset: u64,
    sh_size: u64, sh_link: u32, sh_info: u32, sh_addralign: u64, sh_entsize: u64)

  /** Elf64_Sym: 24 bytes */
  datatype Sym = Sym(st_name: u32, st_info: u8, st_other: u8, st_shndx: u16, st_value: u64, st_size: u64)

  /** Elf64_Rela: 24 bytes; the signed r_addend is kept as its 64-bit pattern, as the linker reads it into a uint64_t. */
  datatype Rela = Rela(r_offset: u64, r_info: u64, r_addend: u64)

  /**
   * The stream read of sh_size bytes at sh_offset, into a vector of
   * sh_size / 24 entries of 24 bytes, stays inside the file and fills the
   * vector exactly.
   */
  predicate EntriesReadable(file: seq<u8>, sh: Shdr)
  {
    sh.sh_offset + sh.sh_size <= |file| && sh.sh_size % 24 == 0
  }

  // ---------------------------------------------------------------------------
  // Little-endian integers

  function Pow256(n: nat): (r: nat)
    ensures r > 0
  {
    if n == 0 then 1 else 256 * Pow256(n - 1)
  }

  lemma Pow256Widths()
    ensures Pow256(1) == TWO8 && Pow256(2) == TWO16 && Pow256(4) == TWO32 && Pow256(8) == TWO64
  {
    assert Pow256(2) == 256 * Pow256(1);
    assert Pow256(4) == 256 * (256 * Pow256(2));
    assert Pow256(8) == 256 * (256 * (256 * (256 * Pow256(4))));
  }

  /** The n-byte little-endian unsigned integer at buf[off..off+n). */
  function LoadLE(buf: seq<u8>, off: nat, n: nat): (r: nat)
    requires off + n <= |buf|
    decreases n
    ensures r < Pow256(n)
  {
    if n == 0 then 0 else buf[off] + 256 * LoadLE(buf, off + 1, n - 1)
  }

  /** The n-byte little-endian representation of v. */
  function EncodeLE(v: nat, n: nat): (r: seq<u8>)
    requires v < Pow256(n)
    ensures |r| == n
  {
    if n == 0 then [] else [v % 256] + EncodeLE(v / 256, n - 1)
  }

  /** Reading back the bytes of an encoding, wherever they sit, gives the value. */
  lemma {:induction false} LoadEncodeLE(pre: seq<u8>, v: nat, n: nat, post: seq<u8>)
    requires v < Pow256(n)
    decreases n
    ensures LoadLE(pre + EncodeLE(v, n) + post, |pre|, n) == v
  {
    if n > 0 {
      var pre' := pre + [v % 256];
      assert pre + EncodeLE(v, n) + post == pre' + EncodeLE(v / 256, n - 1) + post;
      LoadEncodeLE(pre', v / 256, n - 1, post);
    }
  }

  /** Encoding the value read from some bytes gives those bytes back. */
  lemma {:induction false} EncodeLoadLE(buf: seq<u8>, off: nat, n: nat)
    requires off + n <= |buf|
    decreases n
    ensures EncodeLE(LoadLE(buf, off, n), n) == buf[off..off + n]
  {
    if n > 0 {
      EncodeLoadLE(buf, off + 1, n - 1);
      DivModByte(buf[off], LoadLE(buf, off + 1, n - 1));
      assert buf[off..off + n] == [buf[off]] + buf[off + 1..off + n];
    }
  }

  lemma DivModByte(b: u8, x: nat)
    ensures (b + 256 * x) % 256 == b && (b + 256 * x) / 256 == x
  {
  }

  /** The uint64_t at buf[off..off+8), as *(uint64_t *)&buf[off] reads it on x86-64. */
  function LoadU64(buf: seq<u8>, off: nat): (r: u64)
    requires off + 8 <= |buf|
  {
    Pow256Widths();
    LoadLE(buf, off, 8)
  }

  function LoadU32(buf: seq<u8>, off: nat): (r: u32)
    requires off + 4 <= |buf|
  {
    Pow256Widths();
    LoadLE(buf, off, 4)
  }

  function LoadU16(buf: seq<u8>, off: nat): (r: u16)
    requires off + 2 <= |buf|
  {
    Pow256Widths();
    LoadLE(buf, off, 2)
  }

  /** buf after the store *(uint64_t *)&buf[off] = v. */
  function StoreU64(buf: seq<u8>, off: nat, v: u64): (r: seq<u8>)
    requires off + 8 <= |buf|
    ensures |r| == |buf|
    ensures LoadU64(r, off) == v
    ensures forall k :: 0 <= k < |buf| && !(off <= k < off + 8) ==> r[k] == buf[k]
  {
    Pow256Widths();
    var r := buf[..off] + EncodeLE(v, 8) + buf[off + 8..];
    LoadEncodeLE(buf[..off], v, 8, buf[off + 8..]);
    r
  }

  /** Storing the word that is already there changes nothing. */
  lemma StoreLoadU64(buf: seq<u8>, off: nat)
    requires off + 8 <= |buf|
    ensures StoreU64(buf, off, LoadU64(buf, off)) == buf
  {
    EncodeLoadLE(buf, off, 8);
    assert buf == buf[..off] + buf[off..off + 8] + buf[off + 8..];
  }

  // ---------------------------------------------------------------------------
  // Entries of the symbol and relocation tables

  /** The Elf64_Sym whose 24 bytes start at buf[off]. */
  function DecodeSym(buf: seq<u8>, off: nat): (s: Sym)
    requires off + 24 <= |buf|
  {
    Sym(LoadU32(buf, off), buf[off + 4], buf[off + 5], LoadU16(buf, off + 6), LoadU64(buf, off + 8), LoadU64(buf, off + 16))
  }

  /** The 24 bytes an Elf64_Sym occupies. */
  function EncodeSym(s: Sym): (r: seq<u8>)
    ensures |r| == 24
  {
    Pow256Widths();
    EncodeLE(s.st_name, 4) + [s.st_info, s.st_other] + EncodeLE(s.st_shndx, 2)
      + EncodeLE(s.st_value, 8) + EncodeLE(s.st_size, 8)
  }

  lemma DecodeEncodeSym(s: Sym, pre: seq<u8>, post: seq<u8>)
    ensures DecodeSym(pre + EncodeSym(s) + post, |pre|) == s
  {
    Pow256Widths();
    var name, shndx := EncodeLE(s.st_name, 4), EncodeLE(s.st_shndx, 2);
    var value, size := EncodeLE(s.st_value, 8), EncodeLE(s.st_size, 8);
    var buf := pre + EncodeSym(s) + post;
    assert buf == pre + name + ([s.st_info, s.st_other] + shndx + value + size + post);
    LoadEncodeLE(pre, s.st_name, 4, [s.st_info, s.st_other] + shndx + value + size + post);
    assert buf == (pre + name + [s.st_info, s.st_other]) + shndx + (value + size + post);
    LoadEncodeLE(pre + name + [s.st_info, s.st_other], s.st_shndx, 2, value + size + post);
    assert buf == (pre + name + [s.st_info, s.st_other] + shndx) + value + (size + post);
    LoadEncodeLE(pre + name + [s.st_info, s.st_other] + shndx, s.st_value, 8, size + post);
    assert buf == (pre + name + [s.st_info, s.st_other] + shndx + value) + size + post;
    LoadEncodeLE(pre + name + [s.st_info, s.st_other] + shndx + value, s.st_size, 8, post);
  }

  /** The Elf64_Rela whose 24 bytes start at buf[off]. */
  function DecodeRela(buf: seq<u8>, off: nat): (e: Rela)
    requires off + 24 <= |buf|
  {
    Rela(LoadU64(buf, off), LoadU64(buf, off + 8), LoadU64(buf, off + 16))
  }

  /** The 24 bytes an Elf64_Rela occupies. */
  function EncodeRela(e: Rela): (r: seq<u8>)
    ensures |r| == 24
  {
    Pow256Widths();
    EncodeLE(e.r_offset, 8) + EncodeLE(e.r_info, 8) + EncodeLE(e.r_addend, 8)
  }

  lemma DecodeEncodeRela(e: Rela, pre: seq<u8>, post: seq<u8>)
    ensures DecodeRela(pre + EncodeRela(e) + post, |pre|) == e
  {
    Pow256Widths();
    var offset, info, addend := EncodeLE(e.r_offset, 8), EncodeLE(e.r_info, 8), EncodeLE(e.r_addend, 8);
    var buf := pre + EncodeRela(e) + post;
    assert buf == pre + offset + (info + addend + post);
    LoadEncodeLE(pre, e.r_offset, 8, info + addend + post);
    assert buf == (pre + offset) + info + (addend + post);
    LoadEncodeLE(pre + offset, e.r_info, 8, addend + post);
    assert buf == (pre + offset + info) + addend + post;
    LoadEncodeLE(pre + offset + info, e.r_addend, 8, post);
  }

  // ---------------------------------------------------------------------------
  // Field macros of <elf.h>

  /** ELF64_R_SYM(info): the symbol index, info >> 32. */
  function RSym(info: u64): (r: u32)
  {
    info / TWO32
  }

  /** ELF64_R_TYPE(info): the relocation type, info & 0xffffffff. */
  function RType(info: u64): (r: u32)
  {
    info % TWO32
  }

  /** ELF64_R_INFO(sym, type): the inverse of the two macros above. */
  function RInfo(sym: u32, rtype: u32): (r: u64)
    ensures RSym(r) == sym && RType(r) == rtype
  {
    sym * TWO32 + rtype
  }

  lemma RInfoOfFields(info: u64)
    ensures RInfo(RSym(info), RType(info)) == info
  {
  }

  /** ELF64_ST_BIND(st_info): the binding, st_info >> 4. */
  function StBind(info: u8): (r: nat)
    ensures r < 16
  {
    info / 16
  }

  // ---------------------------------------------------------------------------
  // NUL-terminated names inside a string table

  /** The index of the first NUL at or after start, if the table has one. */
  function NulFrom(table: seq<char>, start: nat): (r: Option<nat>)
    decreases |table| - start
    ensures r.Some? ==> start <= r.value < |table| && table[r.value] == '\0'
    ensures r.Some? ==> forall k :: start <= k < r.value ==> table[k] != '\0'
    ensures r.None? ==> forall k :: start <= k < |table| ==> table[k] != '\0'
  {
    if start >= |table| then None
    else if table[start] == '\0' then Some(start)
    else NulFrom(table, start + 1)
  }

  /** A std::string built from &table[start] stays inside the table. */
  predicate Terminated(table: seq<char>, start: nat)
  {
    NulFrom(table, start).Some?
  }

  /** The std::string built from the char pointer &table[start]. */
  function CString(table: seq<char>, start: nat): (s: string)
    requires Terminated(table, start)
    ensures start + |s| < |table| && table[start + |s|] == '\0'
    ensures s == table[start..start + |s|]
    ensures forall k :: 0 <= k < |s| ==> s[k] != '\0'
  {
    table[start..NulFrom(table, start).value]
  }

}
