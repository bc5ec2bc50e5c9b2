/**
 * The offset bookkeeping of combineSections in linker.cpp. The first object
 * file seeds a map from section name to sh_offset; then every later file
 * whose name differs from the first one's walks its section headers, and each
 * section that is neither SHT_NULL nor SHT_NOBITS adds the offset recorded for
 * its name to itself (operator[] reads an absent name as 0 and inserts it),
 * stores the sum back into the map and into the header's sh_offset.
 *
 * Section names are looked up in the section-name table of the first file,
 * for the headers of every file, as the C++ does.
 */
module Combine {

  import opened Elf

  /** std::map<std::string, uint64_t> sectionOffsets */
  type Offsets = map<string, u64>

  /** The sections whose offsets are recorded and rewritten. */
  predicate Qualifies(sh: Shdr)
  {
    sh.sh_type != SHT_NULL && sh.sh_type != SHT_NOBITS
  }

  /** &sectionNames[sh_name] as a std::string. */
  function SectionName(names: seq<char>, sh: Shdr): (r: string)
    requires Terminated(names, sh.sh_name)
  {
    CString(names, sh.sh_name)
  }

  /** Every name the C++ builds for a qualifying header ends inside the name table. */
  predicate NamesDefined(names: seq<char>, hs: seq<Shdr>)
  {
    forall i :: 0 <= i < |hs| && Qualifies(hs[i]) ==> Terminated(names, hs[i].sh_name)
  }

  /** Header i qualifies and bears the name name. */
  predicate Named(names: seq<char>, hs: seq<Shdr>, i: int, name: string)
    requires NamesDefined(names, hs)
  {
    0 <= i < |hs| && Qualifies(hs[i]) && SectionName(names, hs[i]) == name
  }

  /** sectionOffsets[name] read through operator[]: 0 for a name not present. */
  function Get(m: Offsets, name: string): (r: u64)
  {
    if name in m then m[name] else 0
  }

  function Pow2(n: nat): (r: nat)
    ensures r > 0
  {
    if n == 0 then 1 else 2 * Pow2(n - 1)
  }

  // ---------------------------------------------------------------------------
  // The specification of the three loops

  /** The map after the seeding loop has seen the first k headers of the first file. */
  function SeedUpTo(names: seq<char>, hs: seq<Shdr>, k: nat): (r: Offsets)
    requires NamesDefined(names, hs) && k <= |hs|
  {
    if k == 0 then map[]
    else
      var m := SeedUpTo(names, hs, k - 1);
      if Qualifies(hs[k - 1]) then m[SectionName(names, hs[k - 1]) := hs[k - 1].sh_offset] else m
  }

  /** The map and the header vector after the loop over one later file has seen its first k headers. */
  function FileUpTo(m: Offsets, names: seq<char>, hs: seq<Shdr>, k: nat): (r: (Offsets, seq<Shdr>))
    requires NamesDefined(names, hs) && k <= |hs|
    ensures |r.1| == |hs|
  {
    if k == 0 then (m, hs)
    else
      var prev := FileUpTo(m, names, hs, k - 1);
      var sh := hs[k - 1];
      if Qualifies(sh) then
        var name := SectionName(names, sh);
        var newOffset := Wrap(Get(prev.0, name) as int + Get(prev.0, name));
        (prev.0[name := newOffset], prev.1[k - 1 := sh.(sh_offset := newOffset)])
      else prev
  }

  /** What combineSections reads: a name table for the first file's qualifying headers and every later file's. */
  predicate CombineDefined(files: seq<string>, fileHeaders: seq<seq<Shdr>>, names: seq<char>)
  {
    && |files| == |fileHeaders| && 0 < |files|
    && forall f :: 0 <= f < |files| && (f == 0 || files[f] != files[0]) ==> NamesDefined(names, fileHeaders[f])
  }

  /** The map and every file's header vector after the loop over files has seen the first f files. */
  function CombineUpTo(files: seq<string>, fileHeaders: seq<seq<Shdr>>, names: seq<char>, f: nat): (r: (Offsets, seq<seq<Shdr>>))
    requires CombineDefined(files, fileHeaders, names) && f <= |files|
    ensures |r.1| == |fileHeaders|
  {
    if f == 0 then (SeedUpTo(names, fileHeaders[0], |fileHeaders[0]|), fileHeaders)
    else
      var prev := CombineUpTo(files, fileHeaders, names, f - 1);
      if files[f - 1] == files[0] then prev
      else
        var hs := fileHeaders[f - 1];
        var done := FileUpTo(prev.0, names, hs, |hs|);
        (done.0, prev.1[f - 1 := done.1])
  }

  // ---------------------------------------------------------------------------
  // The loops themselves

  /**
   * combineSections without its output: the final sectionOffsets map and,
   * for every file, its section headers as they stand once the loop is done
   * with it.
   */
  method CombineSections(files: seq<string>, fileHeaders: seq<seq<Shdr>>, names: seq<char>)
      returns (offsets: Offsets, headers: seq<seq<Shdr>>)
    requires CombineDefined(files, fileHeaders, names)
    ensures (offsets, headers) == CombineUpTo(files, fileHeaders, names, |files|)
  {
    var first := fileHeaders[0];
    offsets := map[];
    var k := 0;
    while k < |first|
      invariant 0 <= k <= |first|
      invariant offsets == SeedUpTo(names, first, k)
    {
      if first[k].sh_type != SHT_NULL && first[k].sh_type != SHT_NOBITS {
        offsets := offsets[SectionName(names, first[k]) := first[k].sh_offset];
      }
      k := k + 1;
    }
    headers := fileHeaders;
    var f := 0;
    while f < |files|
      invariant 0 <= f <= |files|
      invariant (offsets, headers) == CombineUpTo(files, fileHeaders, names, f)
    {
      if files[f] != files[0] {
        var rewritten;
        offsets, rewritten := CombineFile(offsets, names, fileHeaders[f]);
        headers := headers[f := rewritten];
      }
      f := f + 1;
    }
  }

  /** The loop over the section headers of one later file. */
  method CombineFile(m: Offsets, names: seq<char>, hs: seq<Shdr>) returns (offsets: Offsets, rewritten: seq<Shdr>)
    requires NamesDefined(names, hs)
    ensures (offsets, rewritten) == FileUpTo(m, names, hs, |hs|)
  {
    offsets, rewritten := m, hs;
    var k := 0;
    while k < |hs|
      invariant 0 <= k <= |hs|
      invariant (offsets, rewritten) == FileUpTo(m, names, hs, k)
      invariant rewritten[k..] == hs[k..]
    {
      assert rewritten[k] == hs[k];
      var sh := rewritten[k];
      if sh.sh_type != SHT_NULL && sh.sh_type != SHT_NOBITS {
        var name := SectionName(names, sh);
        var previousSize := Get(offsets, name);
        var newOffset := Wrap(Get(offsets, name) as int + previousSize);
        offsets := offsets[name := newOffset];
        rewritten := rewritten[k := sh.(sh_offset := newOffset)];
      }
      k := k + 1;
    }
  }

  // ---------------------------------------------------------------------------
  // What the loops compute

  /** The number of qualifying headers among the first k that bear the name name. */
  function Count(names: seq<char>, hs: seq<Shdr>, k: nat, name: string): (c: nat)
    requires NamesDefined(names, hs) && k <= |hs|
  {
    if k == 0 then 0
    else Count(names, hs, k - 1, name) + (if Named(names, hs, k - 1, name) then 1 else 0)
  }

  /** The count is 0 exactly when no qualifying header among the first k bears the name. */
  lemma {:induction false} CountZero(names: seq<char>, hs: seq<Shdr>, k: nat, name: string)
    requires NamesDefined(names, hs) && k <= |hs|
    ensures Count(names, hs, k, name) == 0 <==> forall j :: 0 <= j < k ==> !Named(names, hs, j, name)
  {
    if k > 0 {
      CountZero(names, hs, k - 1, name);
    }
  }

  lemma WrapMul(x: nat, y: nat)
    ensures Wrap(Wrap(x) * y) == Wrap(x * y)
  {
    var q, r := x / TWO64, x % TWO64;
    assert x * y == (q * y) * TWO64 + r * y;
    ModMultiple(q * y, r * y);
  }

  lemma MulAssoc(x: nat, y: nat, z: nat)
    ensures (x * y) * z == x * (y * z)
  {
  }

  lemma ModMultiple(a: nat, b: nat)
    ensures (a * TWO64 + b) % TWO64 == b % TWO64
  {
  }

  lemma {:induction false} Pow2Add(a: nat, b: nat)
    ensures Pow2(a + b) == Pow2(a) * Pow2(b)
  {
    if b > 0 {
      Pow2Add(a, b - 1);
    }
  }

  /**
   * The seed: a name is present exactly when some qualifying header of the
   * first file bears it, and then it holds the sh_offset of the last such header.
   */
  lemma {:induction false} SeedLastWins(names: seq<char>, hs: seq<Shdr>, k: nat, i: nat, name: string)
    requires NamesDefined(names, hs) && k <= |hs|
    requires i < k && Named(names, hs, i, name)
    requires forall j :: i < j < k ==> !Named(names, hs, j, name)
    ensures name in SeedUpTo(names, hs, k) && SeedUpTo(names, hs, k)[name] == hs[i].sh_offset
  {
    if i < k - 1 {
      SeedLastWins(names, hs, k - 1, i, name);
      assert !Named(names, hs, k - 1, name);
    }
  }

  /**
   * Every key of the seed is the name of a qualifying header of the first
   * file, and holds the sh_offset of one such header.
   */
  lemma {:induction false} SeedKeys(names: seq<char>, hs: seq<Shdr>, k: nat, name: string) returns (j: nat)
    requires NamesDefined(names, hs) && k <= |hs|
    requires name in SeedUpTo(names, hs, k)
    ensures j < k && Named(names, hs, j, name) && SeedUpTo(names, hs, k)[name] == hs[j].sh_offset
  {
    if Qualifies(hs[k - 1]) && SectionName(names, hs[k - 1]) == name {
      j := k - 1;
    } else {
      j := SeedKeys(names, hs, k - 1, name);
    }
  }

  lemma {:induction false} SeedAbsent(names: seq<char>, hs: seq<Shdr>, k: nat, name: string)
    requires NamesDefined(names, hs) && k <= |hs|
    requires forall j :: 0 <= j < k ==> !Named(names, hs, j, name)
    ensures name !in SeedUpTo(names, hs, k)
  {
    if k > 0 {
      SeedAbsent(names, hs, k - 1, name);
      assert !Named(names, hs, k - 1, name);
    }
  }

  /** Adding a wrapped offset to itself doubles the product once more. */
  lemma DoubleWrapped(x: nat, c: nat)
    ensures Wrap(Wrap(x * Pow2(c)) + Wrap(x * Pow2(c))) == Wrap(x * Pow2(c + 1))
  {
    var g := x * Pow2(c);
    WrapMul(g, 2);
    assert g * 2 == x * Pow2(c + 1);
  }

  /** Doubling a wrapped product a times and then b times is doubling it a + b times. */
  lemma WrapPow2(x: nat, a: nat, b: nat)
    ensures Wrap(Wrap(x * Pow2(a)) * Pow2(b)) == Wrap(x * Pow2(a + b))
  {
    var p, q := Pow2(a), Pow2(b);
    Pow2Add(a, b);
    WrapMul(x * p, q);
    MulAssoc(x, p, q);
  }

  /**
   * One later file doubles, modulo 2^64, the offset of a name once for every
   * qualifying header bearing it; a name that was absent counts as 0 and so
   * stays 0.
   */
  lemma {:induction false} FileOffsets(m: Offsets, names: seq<char>, hs: seq<Shdr>, k: nat, name: string)
    requires NamesDefined(names, hs) && k <= |hs|
    ensures Get(FileUpTo(m, names, hs, k).0, name) == Wrap(Get(m, name) * Pow2(Count(names, hs, k, name)))
  {
    if k == 0 {
      assert Get(m, name) * Pow2(0) == Get(m, name);
    } else {
      FileOffsets(m, names, hs, k - 1, name);
      if Named(names, hs, k - 1, name) {
        DoubleWrapped(Get(m, name), Count(names, hs, k - 1, name));
      }
    }
  }

  /**
   * The keys after one later file are the keys before and the names of the
   * file's qualifying headers: operator[] inserts a name it does not find.
   */
  lemma {:induction false} FileKeys(m: Offsets, names: seq<char>, hs: seq<Shdr>, k: nat, name: string)
    requires NamesDefined(names, hs) && k <= |hs|
    ensures name in FileUpTo(m, names, hs, k).0 <==> name in m || exists j :: 0 <= j < k && Named(names, hs, j, name)
  {
    if k > 0 {
      FileKeys(m, names, hs, k - 1, name);
      if Named(names, hs, k - 1, name) {
        assert name in FileUpTo(m, names, hs, k).0;
      } else if name in FileUpTo(m, names, hs, k).0 {
        assert name in FileUpTo(m, names, hs, k - 1).0;
      } else {
        assert !exists j :: 0 <= j < k && Named(names, hs, j, name);
      }
    }
  }

  /**
   * Header i of a later file keeps every field but sh_offset; if it qualifies,
   * its sh_offset becomes the offset the map holds for its name once the
   * header has been seen, otherwise it keeps its sh_offset as well.
   */
  lemma {:induction false} FileHeaders(m: Offsets, names: seq<char>, hs: seq<Shdr>, k: nat, i: nat)
    requires NamesDefined(names, hs) && k <= |hs| && i < |hs|
    ensures FileUpTo(m, names, hs, k).1[i] == if i < k && Qualifies(hs[i])
      then hs[i].(sh_offset := Get(FileUpTo(m, names, hs, i + 1).0, SectionName(names, hs[i])))
      else hs[i]
  {
    if k > 1 || (k > 0 && k - 1 != i) {
      FileHeaders(m, names, hs, k - 1, i);
    }
  }

  /** The number of times the files loop, over the first f files, doubles the offset of name. */
  function TotalCount(files: seq<string>, fileHeaders: seq<seq<Shdr>>, names: seq<char>, f: nat, name: string): (c: nat)
    requires CombineDefined(files, fileHeaders, names) && f <= |files|
  {
    if f == 0 then 0
    else
      TotalCount(files, fileHeaders, names, f - 1, name)
        + if files[f - 1] == files[0] then 0 else Count(names, fileHeaders[f - 1], |fileHeaders[f - 1]|, name)
  }

  /**
   * The whole run: the offset of a name is its seeded offset (0 if the first
   * file has no such section) doubled, modulo 2^64, once for every qualifying
   * section bearing it in a file whose name differs from the first file's.
   */
  lemma {:induction false} CombineOffsets(files: seq<string>, fileHeaders: seq<seq<Shdr>>, names: seq<char>, f: nat, name: string)
    requires CombineDefined(files, fileHeaders, names) && f <= |files|
    ensures Get(CombineUpTo(files, fileHeaders, names, f).0, name)
      == Wrap(Get(SeedUpTo(names, fileHeaders[0], |fileHeaders[0]|), name) * Pow2(TotalCount(files, fileHeaders, names, f, name)))
  {
    var seed := Get(SeedUpTo(names, fileHeaders[0], |fileHeaders[0]|), name);
    if f == 0 {
      assert seed * Pow2(0) == seed;
    } else {
      CombineOffsets(files, fileHeaders, names, f - 1, name);
      if files[f - 1] != files[0] {
        var hs := fileHeaders[f - 1];
        FileOffsets(CombineUpTo(files, fileHeaders, names, f - 1).0, names, hs, |hs|, name);
        WrapPow2(seed, TotalCount(files, fileHeaders, names, f - 1, name), Count(names, hs, |hs|, name));
      }
    }
  }

  /** Files whose name is the first file's, the first file included, keep their headers. */
  lemma {:induction false} CombineSkips(files: seq<string>, fileHeaders: seq<seq<Shdr>>, names: seq<char>, f: nat, g: nat)
    requires CombineDefined(files, fileHeaders, names) && f <= |files|
    requires g < |files| && (files[g] == files[0] || g >= f)
    ensures CombineUpTo(files, fileHeaders, names, f).1[g] == fileHeaders[g]
  {
    if f > 0 {
      CombineSkips(files, fileHeaders, names, f - 1, g);
    }
  }

}
