/** Loading an ELF image: program headers become mappings, mappings become words of a load script, and the
    loader inside the tracee interprets the script. */
module LoadImage {
  const WORD: nat := 8
  const WORD_RANGE: nat := 0x1_0000_0000_0000_0000
  const PF_X: nat := 1
  const PF_W: nat := 2
  const PF_R: nat := 4
  const PROT_READ: nat := 1
  const PROT_WRITE: nat := 2
  const PROT_EXEC: nat := 4

  // ----- pages

  predicate IsPage(page: nat) {
    0 < page < WORD_RANGE && page % WORD == 0
  }

  /** `x & page_mask`: the start of the page of `x`. */
  function Floor(page: nat, x: nat): (r: nat)
    requires IsPage(page)
    ensures r <= x < r + page
  {
    if x < page then 0 else page + Floor(page, x - page)
  }

  lemma {:induction false} FloorMeans(page: nat, x: nat)
    requires IsPage(page)
    ensures Floor(page, x) == x - x % page
  {
    if x < page {
      DivUnique(x, page, 0, x);
    } else {
      FloorMeans(page, x - page);
      assert x - page == ((x - page) / page) * page + (x - page) % page;
      DivUnique(x, page, (x - page) / page + 1, (x - page) % page);
    }
  }

  function Ceil(page: nat, x: nat): (r: nat)
    requires IsPage(page)
    ensures x <= r < x + page
  {
    Floor(page, x + page - 1)
  }

  ghost predicate Aligned(page: nat, x: nat)
    requires IsPage(page)
  {
    exists k: nat :: x == k * page
  }

  lemma DivUnique(x: nat, d: nat, q: nat, r: nat)
    requires d > 0 && x == q * d + r && r < d
    ensures x % d == r && x / d == q
  {
    var q' := x / d;
    assert x == q' * d + x % d;
    if q' < q {
      MulLess(q', q, d);
    } else if q < q' {
      MulLess(q, q', d);
    }
  }

  lemma MulLess(a: nat, b: nat, d: nat)
    requires a < b
    ensures a * d + d <= b * d
  {
    assert b * d == a * d + (b - a) * d;
    MulPositive(b - a, d);
  }

  lemma MulPositive(n: nat, d: nat)
    requires n > 0
    ensures n * d >= d
  {
  }

  lemma FloorAligned(page: nat, x: nat)
    requires IsPage(page)
    ensures Aligned(page, Floor(page, x))
  {
    FloorMeans(page, x);
    assert x == (x / page) * page + x % page;
    assert Floor(page, x) == (x / page) * page;
  }

  lemma AlignedFloor(page: nat, x: nat)
    requires IsPage(page)
    ensures Aligned(page, x) <==> x % page == 0
    ensures Aligned(page, x) ==> Floor(page, x) == x
  {
    FloorMeans(page, x);
    if Aligned(page, x) {
      var k: nat :| x == k * page;
      DivUnique(x, page, k, 0);
    } else {
      assert x == (x / page) * page + x % page;
    }
  }

  lemma AlignedSum(page: nat, x: nat, y: nat)
    requires IsPage(page) && Aligned(page, x) && Aligned(page, y)
    ensures Aligned(page, x + y) && (x >= y ==> Aligned(page, x - y))
    ensures x < y ==> x + page <= y
  {
    var k: nat, l: nat :| x == k * page && y == l * page;
    assert x + y == (k + l) * page;
    if k < l {
      MulLess(k, l, page);
    } else {
      assert x - y == (k - l) * page;
      MulPositive(k - l + 1, page);
    }
  }

  lemma PageWords(page: nat, x: nat)
    requires IsPage(page) && Aligned(page, x)
    ensures x % WORD == 0
  {
    var k: nat :| x == k * page;
    var w := page / WORD;
    assert page == w * WORD;
    assert x == (k * w) * WORD;
    DivUnique(x, WORD, k * w, 0);
  }

  // ----- headers and mappings

  /** A program header of type PT_LOAD. */
  datatype Header = Header(vaddr: nat, offset: nat, filesz: nat, memsz: nat, flags: nat)

  datatype Mapping = Mapping(addr: nat, length: nat, prot: nat, offset: nat, clearLength: nat, anonymous: bool)

  /** `bit` is a power of two. */
  predicate HasBit(n: nat, bit: nat)
    requires bit > 0
  {
    n / bit % 2 == 1
  }

  function Prot(h: Header): nat {
    (if HasBit(h.flags, PF_R) then PROT_READ else 0) + (if HasBit(h.flags, PF_W) then PROT_WRITE else 0)
    + (if HasBit(h.flags, PF_X) then PROT_EXEC else 0)
  }

  /** The right to read, write and execute, each if and only if the header asks for it, and no other bit. */
  predicate HasRights(prot: nat, flags: nat) {
    && prot < 8
    && (HasBit(prot, 1) <==> HasBit(flags, 4))
    && (HasBit(prot, 2) <==> HasBit(flags, 2))
    && (HasBit(prot, 4) <==> HasBit(flags, 1))
  }

  lemma ProtRights(h: Header)
    ensures HasRights(Prot(h), h.flags)
  {
  }

  /** Sums and differences of words wrap around. */
  function Plus(a: nat, b: nat): nat {
    if a + b < WORD_RANGE then a + b else (a + b) % WORD_RANGE
  }

  function Minus(a: nat, b: nat): nat {
    if b <= a < b + WORD_RANGE then a - b else (a - b) % WORD_RANGE
  }

  class LoadInfo {
    var mappings: seq<Mapping>

    constructor ()
      ensures mappings == []
    {
      mappings := [];
    }

    /** `add_mapping` */
    method AddMapping(page: nat, h: Header)
      requires IsPage(page)
      modifies this
      ensures mappings == old(mappings) + MappingsOf(page, h)
      ensures forall k :: |old(mappings)| <= k < |mappings| ==> HasRights(mappings[k].prot, h.flags)
    {
      MappingsProtected(page, h);
      var startAddress := Floor(page, h.vaddr);
      var endAddress := Floor(page, Minus(Plus(Plus(h.vaddr, h.filesz), page), 1));
      var mapping := Mapping(startAddress, Minus(endAddress, startAddress), Prot(h), Floor(page, h.offset), 0, false);
      if h.memsz > h.filesz {
        mapping := mapping.(clearLength := Minus(endAddress, Plus(h.vaddr, h.filesz)));
        mappings := mappings + [mapping];
        startAddress := endAddress;
        endAddress := Floor(page, Minus(Plus(Plus(h.vaddr, h.memsz), page), 1));
        if endAddress > startAddress {
          mappings := mappings + [Mapping(startAddress, Minus(endAddress, startAddress), mapping.prot, 0, 0, true)];
        }
      } else {
        mappings := mappings + [mapping];
      }
    }

    /** `add_load_base`, as far as the mappings are concerned. */
    method AddLoadBase(base: nat)
      modifies this
      ensures mappings == Shifted(old(mappings), base)
    {
      var i := 0;
      while i < |mappings|
        invariant i <= |mappings| == |old(mappings)|
        invariant forall j :: 0 <= j < |mappings| ==>
                    mappings[j] == if j < i then ShiftedOne(old(mappings)[j], base) else old(mappings)[j]
      {
        mappings := mappings[i := ShiftedOne(mappings[i], base)];
        i := i + 1;
      }
      ShiftedAt(old(mappings), base);
    }
  }

  function ShiftedOne(m: Mapping, base: nat): Mapping {
    m.(addr := Plus(m.addr, base))
  }

  function Shifted(ms: seq<Mapping>, base: nat): (r: seq<Mapping>)
    ensures |r| == |ms|
  {
    if ms == [] then [] else [ShiftedOne(ms[0], base)] + Shifted(ms[1..], base)
  }

  lemma ShiftedAt(ms: seq<Mapping>, base: nat)
    ensures forall j :: 0 <= j < |ms| ==> Shifted(ms, base)[j] == ShiftedOne(ms[j], base)
  {
    if ms != [] {
      ShiftedAt(ms[1..], base);
    }
  }

  /** The file mapping of a header, and the anonymous one for the pages beyond the file. */
  function MappingsOf(page: nat, h: Header): seq<Mapping>
    requires IsPage(page)
  {
    var start := Floor(page, h.vaddr);
    var end := Floor(page, Minus(Plus(Plus(h.vaddr, h.filesz), page), 1));
    var last := Floor(page, Minus(Plus(Plus(h.vaddr, h.memsz), page), 1));
    var clear := if h.memsz > h.filesz then Minus(end, Plus(h.vaddr, h.filesz)) else 0;
    [Mapping(start, Minus(end, start), Prot(h), Floor(page, h.offset), clear, false)]
    + if h.memsz > h.filesz && last > end then [Mapping(end, Minus(last, end), Prot(h), 0, 0, true)] else []
  }

  // ----- memory

  type Memory = map<nat, nat>

  function FileByte(file: seq<nat>, o: nat): nat {
    if o < |file| then file[o] else 0
  }

  function Range(addr: nat, length: nat): (r: set<nat>)
    ensures forall b :: b in r <==> addr <= b < addr + length
  {
    if length == 0 then {} else Range(addr, length - 1) + {addr + length - 1}
  }

  /** mmap of a file, with MAP_FIXED: whole pages, zero behind the end of the file. */
  function MapFile(mem: Memory, addr: nat, length: nat, file: seq<nat>, offset: nat): Memory {
    map a: nat | a in mem.Keys + Range(addr, length) ::
      if addr <= a < addr + length then FileByte(file, offset + (a - addr)) else mem[a]
  }

  function MapZero(mem: Memory, addr: nat, length: nat): Memory {
    map a: nat | a in mem.Keys + Range(addr, length) ::
      if addr <= a < addr + length then 0 else mem[a]
  }

  /** The access rights once a range has been mapped with those of `prot`. */
  function Protected(rights: map<nat, nat>, addr: nat, length: nat, prot: nat): map<nat, nat> {
    map a: nat | a in rights.Keys + Range(addr, length) :: if addr <= a < addr + length then prot else rights[a]
  }

  function Cleared(mem: Memory, lo: nat, hi: nat): Memory {
    map a: nat | a in mem :: if lo <= a < hi then 0 else mem[a]
  }

  function WordFloor(x: nat): (r: nat)
    ensures r <= x < r + WORD
  {
    x - x % WORD
  }

  function WordCeil(x: nat): (r: nat)
    ensures x <= r < x + WORD
  {
    if x % WORD == 0 then x else x + WORD - x % WORD
  }

  predicate Mapped(mem: Memory, lo: nat, hi: nat) {
    forall a :: lo <= a < hi ==> a in mem
  }

  /** What `clear` zeroes: bytes up to a word boundary, whole words, and the bytes of the last word. */
  function ClearLow(start: nat, end: nat): nat {
    if WordFloor(end) < start then WordFloor(end) else start
  }

  function ClearHigh(start: nat, end: nat): nat {
    if WordCeil(start) > end then WordCeil(start) else end
  }

  lemma ClearedMore(mem: Memory, lo: nat, mid: nat, hi: nat)
    requires lo <= mid <= hi
    ensures Cleared(Cleared(mem, lo, mid), mid, hi) == Cleared(mem, lo, hi)
  {
  }

  /** `clear` */
  method Clear(mem: Memory, start: nat, end: nat) returns (r: Memory)
    requires start <= end && Mapped(mem, ClearLow(start, end), ClearHigh(start, end))
    ensures r == Cleared(mem, ClearLow(start, end), ClearHigh(start, end))
  {
    var startBytes, endBytes := start % WORD, end % WORD;
    var startAligned := if startBytes != 0 then start + WORD - startBytes else start;
    var endAligned := end - endBytes;
    r := ClearBytes(mem, start, startAligned);
    r := ClearWords(r, startAligned, endAligned);
    ghost var middle := if endAligned > startAligned then endAligned else startAligned;
    ClearedMore(mem, start, startAligned, middle);
    ClearedTwice(mem, start, middle, endAligned, end);
    r := ClearBytes(r, endAligned, end);
  }

  method ClearBytes(mem: Memory, lo: nat, hi: nat) returns (r: Memory)
    requires lo <= hi && Mapped(mem, lo, hi)
    ensures r == Cleared(mem, lo, hi)
  {
    r := mem;
    var p := lo;
    assert Cleared(mem, lo, lo) == mem;
    while p < hi
      invariant lo <= p <= hi && r == Cleared(mem, lo, p)
    {
      ClearByte(mem, lo, p);
      r := r[p := 0];
      p := p + 1;
    }
  }

  method ClearWords(mem: Memory, lo: nat, hi: nat) returns (r: Memory)
    requires lo % WORD == 0 && hi % WORD == 0 && Mapped(mem, lo, hi)
    ensures r == Cleared(mem, lo, hi)
  {
    r := mem;
    var q := lo;
    assert Cleared(mem, lo, lo) == mem;
    while q < hi
      invariant lo <= q && (q <= hi || q == lo) && q % WORD == 0 && r == Cleared(mem, lo, q)
    {
      r := ClearWord(r, q);
      ClearedMore(mem, lo, q, q + WORD);
      q := q + WORD;
    }
    assert hi < lo ==> Cleared(mem, lo, hi) == mem;
  }

  lemma ClearedTwice(mem: Memory, a: nat, b: nat, c: nat, d: nat)
    requires a <= b && c <= d && c <= b && a <= d
    ensures Cleared(Cleared(mem, a, b), c, d) == Cleared(mem, if c < a then c else a, if b > d then b else d)
  {
  }

  method ClearWord(mem: Memory, q: nat) returns (r: Memory)
    requires Mapped(mem, q, q + WORD)
    ensures r == Cleared(mem, q, q + WORD)
  {
    r := mem[q := 0][q + 1 := 0][q + 2 := 0][q + 3 := 0][q + 4 := 0][q + 5 := 0][q + 6 := 0][q + 7 := 0];
  }

  lemma ClearByte(mem: Memory, lo: nat, p: nat)
    requires lo <= p && p in mem
    ensures Cleared(mem, lo, p)[p := 0] == Cleared(mem, lo, p + 1)
  {
  }

  /** It zeroes exactly what it is asked to, unless the range starts inside a word and ends inside the same
      one; an end on a word boundary is always fine. */
  lemma ClearExact(start: nat, end: nat)
    requires start < end
    ensures ClearLow(start, end) == start && ClearHigh(start, end) == end <==>
            start % WORD == 0 || WordCeil(start) <= end
    ensures end % WORD == 0 ==> start % WORD == 0 || WordCeil(start) <= end
  {
  }

  // ----- the load script

  const LOAD_ACTION_OPEN_NEXT: nat := 0
  const LOAD_ACTION_OPEN: nat := 1
  const LOAD_ACTION_MMAP_FILE: nat := 2
  const LOAD_ACTION_MMAP_ANON: nat := 3
  const LOAD_ACTION_MAKE_STACK_EXEC: nat := 4
  const LOAD_ACTION_START_TRACED: nat := 5
  const LOAD_ACTION_START: nat := 6

  datatype Statement =
    | Open(next: bool, path: nat)
    | Mmap(mapping: Mapping)
    | MakeStackExec(start: nat)
    | Start(traced: bool, stackPointer: nat, entryPoint: nat, phdr: nat, phent: nat, phnum: nat, entry: nat, execfn: nat)

  /** `LOAD_STATEMENT_SIZE`, in words. */
  function SizeOf(s: Statement): nat {
    if s.Mmap? then 6 else if s.Start? then 8 else 2
  }

  /** The words of a statement, action first. */
  function Encode(s: Statement): (r: seq<nat>)
    ensures |r| == SizeOf(s)
  {
    match s
    case Open(next, path) => [if next then LOAD_ACTION_OPEN_NEXT else LOAD_ACTION_OPEN, path]
    case Mmap(m) =>
      [if m.anonymous then LOAD_ACTION_MMAP_ANON else LOAD_ACTION_MMAP_FILE,
       m.addr, m.length, m.prot, m.offset, m.clearLength]
    case MakeStackExec(start) => [LOAD_ACTION_MAKE_STACK_EXEC, start]
    case Start(traced, sp, ep, phdr, phent, phnum, entry, execfn) =>
      [if traced then LOAD_ACTION_START_TRACED else LOAD_ACTION_START, sp, ep, phdr, phent, phnum, entry, execfn]
  }

  function Flat(ws: seq<seq<nat>>): seq<nat> {
    if ws == [] then [] else Flat(ws[..|ws| - 1]) + ws[|ws| - 1]
  }

  function Encodings(ss: seq<Statement>): (r: seq<seq<nat>>)
    ensures |r| == |ss| && forall i :: 0 <= i < |ss| ==> r[i] == Encode(ss[i])
  {
    seq(|ss|, i requires 0 <= i < |ss| => Encode(ss[i]))
  }

  /** The words of a script. */
  function EncodeAll(ss: seq<Statement>): seq<nat> {
    if ss == [] then [] else EncodeAll(ss[..|ss| - 1]) + Encode(ss[|ss| - 1])
  }

  lemma {:induction false} EncodeAllIsFlat(ss: seq<Statement>)
    ensures EncodeAll(ss) == Flat(Encodings(ss))
  {
    if ss != [] {
      EncodeAllIsFlat(ss[..|ss| - 1]);
      assert Encodings(ss)[..|ss| - 1] == Encodings(ss[..|ss| - 1]);
    }
  }

  lemma {:induction false} FlatConcat(a: seq<seq<nat>>, b: seq<seq<nat>>)
    ensures Flat(a + b) == Flat(a) + Flat(b)
  {
    if b == [] {
      assert a + b == a;
    } else {
      FlatConcat(a, b[..|b| - 1]);
      assert (a + b)[..|a + b| - 1] == a + b[..|b| - 1];
    }
  }

  lemma {:induction false} FlatAt(ws: seq<seq<nat>>, i: nat)
    requires i < |ws|
    ensures var start := |Flat(ws[..i])|;
            && start + |ws[i]| <= |Flat(ws)| && Flat(ws)[start..start + |ws[i]|] == ws[i]
            && start + |ws[i]| == |Flat(ws[..i + 1])|
  {
    assert ws[..i + 1][..i] == ws[..i];
    if i < |ws| - 1 {
      var before := ws[..|ws| - 1];
      FlatAt(before, i);
      assert before[..i] == ws[..i] && before[..i + 1] == ws[..i + 1];
    } else {
      assert ws[..i + 1] == ws;
    }
  }

  function Mmaps(ms: seq<Mapping>): (r: seq<Statement>)
    ensures |r| == |ms| && forall i :: 0 <= i < |ms| ==> r[i] == Mmap(ms[i])
  {
    seq(|ms|, i requires 0 <= i < |ms| => Mmap(ms[i]))
  }

  /** `transcript_mappings`: append the statements of the mappings to the script. */
  method TranscriptMappings(script: seq<nat>, ms: seq<Mapping>) returns (r: seq<nat>)
    ensures r == script + EncodeAll(Mmaps(ms))
  {
    r := script;
    var i := 0;
    assert Mmaps(ms)[..0] == [];
    while i < |ms|
      invariant i <= |ms| && r == script + EncodeAll(Mmaps(ms)[..i])
    {
      r := r + [if ms[i].anonymous then LOAD_ACTION_MMAP_ANON else LOAD_ACTION_MMAP_FILE];
      r := r + [ms[i].addr, ms[i].length, ms[i].prot, ms[i].offset, ms[i].clearLength];
      assert Mmaps(ms)[..i + 1][..i] == Mmaps(ms)[..i];
      i := i + 1;
    }
    assert Mmaps(ms)[..i] == Mmaps(ms);
  }

  // ----- the loader

  datatype File = NoFile | Contents(bytes: seq<nat>)

  /** What the started program is told in its auxiliary vector, and the name it is given. */
  datatype Aux = Aux(phdr: nat, phent: nat, phnum: nat, entry: nat, base: nat, execfn: nat)

  datatype State = Running | Fatal | Started(traced: bool, stackPointer: nat, entryPoint: nat, aux: Aux)

  /** The bytes of the mapped addresses, the access rights of each, and the places from which the stack has been
      made executable. */
  datatype Machine = Machine(mem: Memory, rights: map<nat, nat>, stacks: seq<nat>, fd: File, atBase: nat,
                             resetAtBase: bool, state: State)

  /** The kernel refuses an empty mapping, and one that is not on a page boundary. */
  predicate MmapFails(page: nat, m: Mapping)
    requires IsPage(page)
  {
    m.length == 0 || m.addr % page != 0 || (!m.anonymous && m.offset % page != 0)
  }

  /** The range that `clear` is asked to zero. */
  function ClearStart(m: Mapping): nat {
    Minus(Plus(m.addr, m.length), m.clearLength)
  }

  predicate ClearFaults(mem: Memory, m: Mapping) {
    var end := Plus(m.addr, m.length);
    || end < ClearStart(m) || !HasBit(m.prot, PROT_WRITE)
    || !Mapped(mem, ClearLow(ClearStart(m), end), ClearHigh(ClearStart(m), end))
  }

  function MmapStep(page: nat, mc: Machine, m: Mapping): Machine
    requires IsPage(page)
  {
    if MmapFails(page, m) || (!m.anonymous && mc.fd.NoFile?) then mc.(state := Fatal)
    else if m.anonymous then
      mc.(mem := MapZero(mc.mem, m.addr, m.length), rights := Protected(mc.rights, m.addr, m.length, m.prot))
    else
      var mem := MapFile(mc.mem, m.addr, m.length, mc.fd.bytes, m.offset);
      var end := Plus(m.addr, m.length);
      if m.clearLength != 0 && ClearFaults(mem, m) then mc.(state := Fatal)
      else
        mc.(mem := if m.clearLength != 0 then Cleared(mem, ClearLow(ClearStart(m), end), ClearHigh(ClearStart(m), end))
                   else mem,
            rights := Protected(mc.rights, m.addr, m.length, m.prot),
            atBase := if mc.resetAtBase then m.addr else mc.atBase, resetAtBase := false)
  }

  /** One statement.  `files` gives the file behind the path string at an address. */
  function Step(page: nat, files: map<nat, seq<nat>>, mc: Machine, s: Statement): Machine
    requires IsPage(page)
  {
    match s
    case Open(next, path) =>
      if (next && mc.fd.NoFile?) || path !in files then mc.(state := Fatal)
      else mc.(fd := Contents(files[path]), resetAtBase := true)
    case Mmap(m) => MmapStep(page, mc, m)
    case MakeStackExec(start) => mc.(stacks := mc.stacks + [start])
    case Start(traced, sp, ep, phdr, phent, phnum, entry, execfn) =>
      if mc.fd.NoFile? then mc.(state := Fatal)
      else mc.(state := Started(traced, sp, ep, Aux(phdr, phent, phnum, entry, mc.atBase, execfn)))
  }

  ghost function Execute(page: nat, files: map<nat, seq<nat>>, mc: Machine, ss: seq<Statement>): Machine
    requires IsPage(page)
  {
    if ss == [] then mc
    else
      var before := Execute(page, files, mc, ss[..|ss| - 1]);
      if before.state != Running then before else Step(page, files, before, ss[|ss| - 1])
  }

  lemma EncodedAt(ss: seq<Statement>, i: nat)
    requires i < |ss|
    ensures var start := |EncodeAll(ss[..i])|;
            && start + |Encode(ss[i])| <= |EncodeAll(ss)|
            && EncodeAll(ss)[start..start + |Encode(ss[i])|] == Encode(ss[i])
            && start + |Encode(ss[i])| == |EncodeAll(ss[..i + 1])|
  {
    FlatAt(Encodings(ss), i);
    EncodeAllIsFlat(ss);
    EncodingsPrefix(ss, i);
    EncodingsPrefix(ss, i + 1);
  }

  lemma EncodingsPrefix(ss: seq<Statement>, i: nat)
    requires i <= |ss|
    ensures EncodeAll(ss[..i]) == Flat(Encodings(ss)[..i])
  {
    EncodeAllIsFlat(ss[..i]);
    assert Encodings(ss)[..i] == Encodings(ss[..i]);
  }

  /** The interpreter has dealt with the first `i` statements. */
  ghost predicate Progress(page: nat, files: map<nat, seq<nat>>, mc0: Machine, ss: seq<Statement>, i: nat,
                           cursor: nat, mc: Machine)
    requires IsPage(page) && i <= |ss|
  {
    cursor == |EncodeAll(ss[..i])| && mc == Execute(page, files, mc0, ss[..i])
  }

  ghost predicate StatementAt(script: seq<nat>, cursor: nat, s: Statement) {
    cursor + SizeOf(s) <= |script| && script[cursor..cursor + SizeOf(s)] == Encode(s)
  }

  lemma ProgressStart(page: nat, files: map<nat, seq<nat>>, mc: Machine, ss: seq<Statement>)
    requires IsPage(page)
    ensures Progress(page, files, mc, ss, 0, 0, mc)
  {
  }

  lemma ProgressHere(page: nat, files: map<nat, seq<nat>>, mc0: Machine, ss: seq<Statement>, i: nat, cursor: nat,
                     mc: Machine)
    requires IsPage(page) && i < |ss| && Progress(page, files, mc0, ss, i, cursor, mc)
    ensures StatementAt(EncodeAll(ss), cursor, ss[i])
  {
    hide Execute, EncodeAll, Encode;
    EncodedAt(ss, i);
  }

  lemma ProgressStep(page: nat, files: map<nat, seq<nat>>, mc0: Machine, ss: seq<Statement>, i: nat, cursor: nat,
                     mc: Machine)
    requires IsPage(page) && i < |ss| && Progress(page, files, mc0, ss, i, cursor, mc) && mc.state == Running
    ensures Progress(page, files, mc0, ss, i + 1, cursor + SizeOf(ss[i]), Step(page, files, mc, ss[i]))
  {
    EncodedAt(ss, i);
    ExecuteOne(page, files, mc0, ss, i);
  }

  lemma ProgressEnd(page: nat, files: map<nat, seq<nat>>, mc0: Machine, ss: seq<Statement>, i: nat, cursor: nat,
                    mc: Machine)
    requires IsPage(page) && i <= |ss| && Progress(page, files, mc0, ss, i, cursor, mc) && mc.state != Running
    ensures mc == Execute(page, files, mc0, ss)
  {
    StopsThere(page, files, mc0, ss, i);
  }

  /** `_start`, the statement interpreter, up to the jump to the program. */
  method Interpret(page: nat, files: map<nat, seq<nat>>, mem: Memory, rights: map<nat, nat>, script: seq<nat>,
                   ghost ss: seq<Statement>) returns (mc: Machine)
    requires IsPage(page) && script == EncodeAll(ss) && ss != [] && ss[|ss| - 1].Start?
    ensures mc == Execute(page, files, Machine(mem, rights, [], NoFile, 0, true, Running), ss)
    ensures mc.state != Running
  {
    hide Progress;
    mc := Machine(mem, rights, [], NoFile, 0, true, Running);
    ghost var mc0 := mc;
    var cursor := 0;
    ghost var i := 0;
    ProgressStart(page, files, mc, ss);
    while mc.state == Running
      invariant i <= |ss| && (i == |ss| ==> mc.state != Running)
      invariant Progress(page, files, mc0, ss, i, cursor, mc)
      decreases |ss| - i
    {
      ProgressHere(page, files, mc0, ss, i, cursor, mc);
      ProgressStep(page, files, mc0, ss, i, cursor, mc);
      mc, cursor := InterpretOne(page, files, mc, script, cursor, ss[i]);
      i := i + 1;
    }
    ProgressEnd(page, files, mc0, ss, i, cursor, mc);
  }

  lemma ExecuteOne(page: nat, files: map<nat, seq<nat>>, mc: Machine, ss: seq<Statement>, i: nat)
    requires IsPage(page) && i < |ss| && Execute(page, files, mc, ss[..i]).state == Running
    ensures Execute(page, files, mc, ss[..i + 1]) == Step(page, files, Execute(page, files, mc, ss[..i]), ss[i])
  {
    assert ss[..i + 1][..i] == ss[..i];
  }

  /** One round of the interpreter. */
  method InterpretOne(page: nat, files: map<nat, seq<nat>>, mc: Machine, script: seq<nat>, cursor: nat, ghost s: Statement)
    returns (r: Machine, next: nat)
    requires IsPage(page) && StatementAt(script, cursor, s)
    ensures r == Step(page, files, mc, s) && next == cursor + SizeOf(s)
  {
    WordsAt(script, cursor, Encode(s));
    assert script[cursor + 0] == Encode(s)[0] && script[cursor + 1] == Encode(s)[1];
    var action := script[cursor];
    if action == LOAD_ACTION_OPEN_NEXT || action == LOAD_ACTION_OPEN {
      assert s == Open(action == LOAD_ACTION_OPEN_NEXT, script[cursor + 1]);
      r := InterpretOpen(files, mc, action == LOAD_ACTION_OPEN_NEXT, script[cursor + 1]);
      next := cursor + 2;
    } else if action == LOAD_ACTION_MMAP_FILE || action == LOAD_ACTION_MMAP_ANON {
      var m := Mapping(script[cursor + 1], script[cursor + 2], script[cursor + 3], script[cursor + 4],
                       script[cursor + 5], action == LOAD_ACTION_MMAP_ANON);
      assert s == Mmap(m);
      r := InterpretMmap(page, mc, m);
      next := cursor + 6;
    } else if action == LOAD_ACTION_MAKE_STACK_EXEC {
      assert s == MakeStackExec(script[cursor + 1]);
      r := mc.(stacks := mc.stacks + [script[cursor + 1]]);
      next := cursor + 2;
    } else {
      var traced := action == LOAD_ACTION_START_TRACED;
      var aux := Aux(script[cursor + 3], script[cursor + 4], script[cursor + 5], script[cursor + 6], mc.atBase,
                     script[cursor + 7]);
      assert s == Start(traced, script[cursor + 1], script[cursor + 2], aux.phdr, aux.phent, aux.phnum, aux.entry,
                        aux.execfn);
      r := if mc.fd.NoFile? then mc.(state := Fatal)
           else mc.(state := Started(traced, script[cursor + 1], script[cursor + 2], aux));
      next := cursor + 8;
    }
  }

  /** The open actions; OPEN_NEXT closes the previous file first. */
  method InterpretOpen(files: map<nat, seq<nat>>, mc: Machine, closeFirst: bool, path: nat) returns (r: Machine)
    ensures r == if (closeFirst && mc.fd.NoFile?) || path !in files then mc.(state := Fatal)
                 else mc.(fd := Contents(files[path]), resetAtBase := true)
  {
    if closeFirst && mc.fd.NoFile? {
      return mc.(state := Fatal);
    }
    if path !in files {
      return mc.(state := Fatal);
    }
    r := mc.(fd := Contents(files[path]));
    r := r.(resetAtBase := true);
  }

  lemma WordsAt(script: seq<nat>, cursor: nat, ws: seq<nat>)
    requires cursor + |ws| <= |script| && script[cursor..cursor + |ws|] == ws
    ensures forall k :: 0 <= k < |ws| ==> script[cursor + k] == ws[k]
  {
    forall k | 0 <= k < |ws| ensures script[cursor + k] == ws[k] {
      assert script[cursor..cursor + |ws|][k] == script[cursor + k];
    }
  }

  /** Once the machine has stopped, the rest of the script does not matter. */
  lemma {:induction false} StopsThere(page: nat, files: map<nat, seq<nat>>, mc: Machine, ss: seq<Statement>, i: nat)
    requires IsPage(page) && i <= |ss| && Execute(page, files, mc, ss[..i]).state != Running
    ensures Execute(page, files, mc, ss) == Execute(page, files, mc, ss[..i])
  {
    if i < |ss| {
      assert ss[..|ss| - 1][..i] == ss[..i];
      StopsThere(page, files, mc, ss[..|ss| - 1], i);
    } else {
      assert ss[..i] == ss;
    }
  }

  /** The mmap actions. */
  method InterpretMmap(page: nat, mc: Machine, m: Mapping) returns (r: Machine)
    requires IsPage(page)
    ensures r == MmapStep(page, mc, m)
  {
    if MmapFails(page, m) || (!m.anonymous && mc.fd.NoFile?) {
      return mc.(state := Fatal);
    }
    if m.anonymous {
      return mc.(mem := MapZero(mc.mem, m.addr, m.length), rights := Protected(mc.rights, m.addr, m.length, m.prot));
    }
    var mem := MapFile(mc.mem, m.addr, m.length, mc.fd.bytes, m.offset);
    if m.clearLength != 0 {
      if ClearFaults(mem, m) {
        return mc.(state := Fatal);
      }
      mem := Clear(mem, Minus(Plus(m.addr, m.length), m.clearLength), Plus(m.addr, m.length));
    }
    r := mc.(mem := mem, rights := Protected(mc.rights, m.addr, m.length, m.prot));
    if r.resetAtBase {
      r := r.(atBase := m.addr, resetAtBase := false);
    }
  }

  // ----- the image

  /** A header that can be loaded at `base`: congruent, not larger in the file than in memory, with a file
      mapping that is not empty, writable if bytes behind the file part of a page have to be zeroed, without
      overflow. */
  ghost predicate Loadable(page: nat, base: nat, file: seq<nat>, h: Header)
    requires IsPage(page)
  {
    && Aligned(page, base) && h.offset % page == h.vaddr % page && h.filesz <= h.memsz
    && Floor(page, h.vaddr) < Ceil(page, h.vaddr + h.filesz)
    && (h.filesz < h.memsz && h.vaddr + h.filesz < Ceil(page, h.vaddr + h.filesz) ==> HasBit(h.flags, PF_W))
    && base + h.vaddr + h.memsz + page < WORD_RANGE && h.offset + h.filesz <= |file|
  }

  /** The pages of a header. */
  function First(page: nat, base: nat, h: Header): nat
    requires IsPage(page)
  {
    base + Floor(page, h.vaddr)
  }

  function Last(page: nat, base: nat, h: Header): nat
    requires IsPage(page)
  {
    base + Ceil(page, h.vaddr + (if h.memsz > h.filesz then h.memsz else h.filesz))
  }

  /** File bytes, then zeros. */
  ghost predicate ImageOf(mem: Memory, base: nat, file: seq<nat>, h: Header) {
    forall a :: base + h.vaddr <= a < base + h.vaddr + h.memsz ==>
      a in mem && mem[a] == if a < base + h.vaddr + h.filesz then FileByte(file, h.offset + (a - base - h.vaddr)) else 0
  }

  ghost predicate SameOutside(mem: Memory, mem': Memory, lo: nat, hi: nat) {
    forall a :: a in mem && !(lo <= a < hi) ==> a in mem' && mem'[a] == mem[a]
  }

  /** Every address of the range has the rights that the flags ask for. */
  ghost predicate AllRights(rights: map<nat, nat>, lo: nat, hi: nat, flags: nat) {
    forall a :: lo <= a < hi ==> a in rights && HasRights(rights[a], flags)
  }

  ghost predicate AllProt(rights: map<nat, nat>, lo: nat, hi: nat, prot: nat) {
    forall a :: lo <= a < hi ==> a in rights && rights[a] == prot
  }

  /** The image of the header is in memory, and all its pages have exactly the access rights it asks for. */
  ghost predicate HeaderIn(mc: Machine, page: nat, base: nat, file: seq<nat>, h: Header)
    requires IsPage(page)
  {
    ImageOf(mc.mem, base, file, h) && AllRights(mc.rights, First(page, base, h), Last(page, base, h), h.flags)
  }

  /** Neither bytes nor rights have changed outside of the range. */
  ghost predicate Untouched(mc: Machine, mc': Machine, lo: nat, hi: nat) {
    SameOutside(mc.mem, mc'.mem, lo, hi) && SameOutside(mc.rights, mc'.rights, lo, hi)
  }

  lemma CeilMonotone(page: nat, x: nat, y: nat)
    requires IsPage(page) && x <= y
    ensures Ceil(page, x) <= Ceil(page, y)
  {
    FloorAligned(page, x + page - 1);
    FloorAligned(page, y + page - 1);
    if Ceil(page, x) > Ceil(page, y) {
      AlignedSum(page, Ceil(page, y), Ceil(page, x));
    }
  }

  /** The mappings of a header without the wrap-around of words. */
  lemma MappingsExact(page: nat, base: nat, file: seq<nat>, h: Header)
    requires IsPage(page) && Loadable(page, base, file, h)
    ensures var first, end, last := First(page, base, h), base + Ceil(page, h.vaddr + h.filesz), Last(page, base, h);
            var clear := if h.memsz > h.filesz then end - (base + h.vaddr + h.filesz) else 0;
            && first < end <= last < WORD_RANGE
            && Shifted(MappingsOf(page, h), base) ==
               [Mapping(first, end - first, Prot(h), Floor(page, h.offset), clear, false)]
               + if last > end then [Mapping(end, last - end, Prot(h), 0, 0, true)] else []
  {
    MappingsWithin(page, base, h);
  }

  lemma MappingsWithin(page: nat, base: nat, h: Header)
    requires IsPage(page) && h.filesz <= h.memsz && base + h.vaddr + h.memsz + page < WORD_RANGE
    requires Floor(page, h.vaddr) < Ceil(page, h.vaddr + h.filesz)
    ensures var first, end, last := First(page, base, h), base + Ceil(page, h.vaddr + h.filesz), Last(page, base, h);
            var clear := if h.memsz > h.filesz then end - (base + h.vaddr + h.filesz) else 0;
            && first < end <= last < WORD_RANGE
            && Shifted(MappingsOf(page, h), base) ==
               [Mapping(first, end - first, Prot(h), Floor(page, h.offset), clear, false)]
               + if last > end then [Mapping(end, last - end, Prot(h), 0, 0, true)] else []
  {
    hide MappingsOf, Shifted, Floor, Ceil, Prot;
    CeilMonotone(page, h.vaddr + h.filesz, h.vaddr + h.memsz);
    MappingsPlain(page, h);
    var start, end, last := Floor(page, h.vaddr), Ceil(page, h.vaddr + h.filesz), Ceil(page, h.vaddr + h.memsz);
    ShiftedPair(base, start, end, last, Prot(h), Floor(page, h.offset), h.vaddr + h.filesz, h.memsz > h.filesz);
  }

  lemma MappingsPlain(page: nat, h: Header)
    requires IsPage(page) && h.filesz <= h.memsz && h.vaddr + h.memsz + page < WORD_RANGE
    ensures var start, end, last := Floor(page, h.vaddr), Ceil(page, h.vaddr + h.filesz), Ceil(page, h.vaddr + h.memsz);
            MappingsOf(page, h) ==
            [Mapping(start, Minus(end, start), Prot(h), Floor(page, h.offset),
                     if h.memsz > h.filesz then Minus(end, h.vaddr + h.filesz) else 0, false)]
            + (if h.memsz > h.filesz && last > end then [Mapping(end, Minus(last, end), Prot(h), 0, 0, true)] else [])
  {
    NoWrap(page, h.vaddr, h.filesz);
    NoWrap(page, h.vaddr, h.memsz);
  }

  lemma NoWrap(page: nat, a: nat, b: nat)
    requires IsPage(page) && a + b + page < WORD_RANGE
    ensures Minus(Plus(Plus(a, b), page), 1) == a + b + page - 1 && Plus(a, b) == a + b
  {
  }

  lemma ShiftedPair(base: nat, start: nat, end: nat, last: nat, prot: nat, offset: nat, fileEnd: nat, extra: bool)
    requires start <= end <= last && base + last < WORD_RANGE && fileEnd <= end
    ensures var clear := if extra then Minus(end, fileEnd) else 0;
            Shifted([Mapping(start, Minus(end, start), prot, offset, clear, false)]
                    + (if extra && last > end then [Mapping(end, Minus(last, end), prot, 0, 0, true)] else []), base) ==
            [Mapping(base + start, end - start, prot, offset, if extra then end - fileEnd else 0, false)]
            + (if extra && last > end then [Mapping(base + end, last - end, prot, 0, 0, true)] else [])
  {
    var clear := if extra then Minus(end, fileEnd) else 0;
    var m := Mapping(start, Minus(end, start), prot, offset, clear, false);
    if extra && last > end {
      var m2 := Mapping(end, Minus(last, end), prot, 0, 0, true);
      assert Shifted([m, m2], base) == [ShiftedOne(m, base), ShiftedOne(m2, base)];
      assert [m] + [m2] == [m, m2];
    } else {
      assert Shifted([m], base) == [ShiftedOne(m, base)];
      assert [m] + [] == [m];
    }
  }

  /** Every mapping made for a header, the anonymous one included, has the rights that its flags ask for. */
  lemma MappingsProtected(page: nat, h: Header)
    requires IsPage(page)
    ensures forall m :: m in MappingsOf(page, h) ==> HasRights(m.prot, h.flags)
  {
    ProtRights(h);
  }

  function ExecuteMmaps(page: nat, mc: Machine, ms: seq<Mapping>): Machine
    requires IsPage(page)
  {
    if ms == [] then mc
    else
      var before := ExecuteMmaps(page, mc, ms[..|ms| - 1]);
      if before.state != Running then before else MmapStep(page, before, ms[|ms| - 1])
  }

  /** The script part of the mappings does what the mappings say. */
  lemma {:induction false} MmapsExecuted(page: nat, files: map<nat, seq<nat>>, mc: Machine, front: seq<Statement>,
                                         ms: seq<Mapping>)
    requires IsPage(page) && Execute(page, files, mc, front).state == Running
    ensures Execute(page, files, mc, front + Mmaps(ms)) == ExecuteMmaps(page, Execute(page, files, mc, front), ms)
  {
    if ms == [] {
      assert front + Mmaps(ms) == front;
    } else {
      var n := |ms| - 1;
      MmapsExecuted(page, files, mc, front, ms[..n]);
      var ss := front + Mmaps(ms);
      assert ss[..|ss| - 1] == front + Mmaps(ms[..n]) && ss[|ss| - 1] == Mmap(ms[n]);
    }
  }

  lemma OneMoreMmap(page: nat, mc: Machine, ms: seq<Mapping>, m: Mapping)
    requires IsPage(page)
    ensures var before := ExecuteMmaps(page, mc, ms);
            ExecuteMmaps(page, mc, ms + [m]) == if before.state != Running then before else MmapStep(page, before, m)
  {
    assert (ms + [m])[..|ms|] == ms;
  }

  lemma {:induction false} MmapsConcat(page: nat, mc: Machine, a: seq<Mapping>, b: seq<Mapping>)
    requires IsPage(page) && ExecuteMmaps(page, mc, a).state == Running
    ensures ExecuteMmaps(page, mc, a + b) == ExecuteMmaps(page, ExecuteMmaps(page, mc, a), b)
  {
    if b == [] {
      assert a + b == a;
    } else {
      var b', m := b[..|b| - 1], b[|b| - 1];
      MmapsConcat(page, mc, a, b');
      assert a + b == (a + b') + [m] && b == b' + [m];
      OneMoreMmap(page, mc, a + b', m);
      OneMoreMmap(page, ExecuteMmaps(page, mc, a), b', m);
    }
  }

  lemma SameRemainder(page: nat, x: nat, y: nat)
    requires IsPage(page) && x % page == y % page
    ensures x - Floor(page, x) == y - Floor(page, y)
  {
    FloorMeans(page, x);
    FloorMeans(page, y);
  }

  /** File bytes up to `fileEnd`, then zeros if `zeroed`. */
  ghost predicate FilePages(mem: Memory, lo: nat, hi: nat, fileEnd: nat, zeroed: bool, file: seq<nat>, offset: nat) {
    forall a :: lo <= a < hi ==>
      && a in mem
      && (a < fileEnd ==> mem[a] == FileByte(file, offset + (a - lo)))
      && (a >= fileEnd && zeroed ==> mem[a] == 0)
  }

  lemma FileThenClear(mem: Memory, lo: nat, length: nat, fileEnd: nat, file: seq<nat>, offset: nat)
    requires lo <= fileEnd <= lo + length
    ensures var m1 := MapFile(mem, lo, length, file, offset);
            && Mapped(m1, fileEnd, lo + length)
            && FilePages(m1, lo, lo + length, fileEnd, false, file, offset)
            && FilePages(Cleared(m1, fileEnd, lo + length), lo, lo + length, fileEnd, true, file, offset)
            && SameOutside(mem, m1, lo, lo + length)
            && SameOutside(mem, Cleared(m1, fileEnd, lo + length), lo, lo + length)
  {
  }

  /** The range that the loader clears behind the file part is what the mapping asks for. */
  lemma ClearsTail(page: nat, m: Mapping, fileEnd: nat)
    requires IsPage(page) && Aligned(page, m.addr + m.length) && m.addr <= fileEnd < m.addr + m.length < WORD_RANGE
    requires m.clearLength == m.addr + m.length - fileEnd
    ensures Plus(m.addr, m.length) == m.addr + m.length && ClearStart(m) == fileEnd
    ensures ClearLow(fileEnd, m.addr + m.length) == fileEnd
    ensures ClearHigh(fileEnd, m.addr + m.length) == m.addr + m.length
  {
    PageWords(page, m.addr + m.length);
    ClearExact(fileEnd, m.addr + m.length);
  }

  /** The file mapping. */
  lemma FileMapped(page: nat, mc: Machine, file: seq<nat>, m: Mapping, fileEnd: nat)
    requires IsPage(page) && mc.state == Running && mc.fd == Contents(file) && !m.anonymous
    requires m.length > 0 && Aligned(page, m.addr) && Aligned(page, m.offset) && Aligned(page, m.addr + m.length)
    requires m.addr <= fileEnd <= m.addr + m.length < WORD_RANGE
    requires m.clearLength != 0 ==> m.clearLength == m.addr + m.length - fileEnd && HasBit(m.prot, PROT_WRITE)
    ensures var r := MmapStep(page, mc, m);
            && r.state == Running && r.fd == mc.fd && Untouched(mc, r, m.addr, m.addr + m.length)
            && AllProt(r.rights, m.addr, m.addr + m.length, m.prot)
            && FilePages(r.mem, m.addr, m.addr + m.length, fileEnd, m.clearLength != 0, file, m.offset)
  {
    hide HasBit, Cleared, MapFile, Protected, SameOutside, FilePages, AllProt, Mapped, Aligned, ClearLow, ClearHigh;
    AlignedFloor(page, m.addr);
    AlignedFloor(page, m.offset);
    ProtectedRange(mc.rights, m.addr, m.length, m.prot);
    FileThenClear(mc.mem, m.addr, m.length, fileEnd, file, m.offset);
    if m.clearLength != 0 {
      ClearsTail(page, m, fileEnd);
    }
  }

  lemma ZeroMapped(page: nat, mc: Machine, m: Mapping)
    requires IsPage(page) && mc.state == Running && m.anonymous && m.length > 0 && Aligned(page, m.addr)
    ensures var r := MmapStep(page, mc, m);
            && r.state == Running && r.fd == mc.fd && Untouched(mc, r, m.addr, m.addr + m.length)
            && AllProt(r.rights, m.addr, m.addr + m.length, m.prot)
            && (forall a :: m.addr <= a < m.addr + m.length ==> a in r.mem && r.mem[a] == 0)
  {
    AlignedFloor(page, m.addr);
    ProtectedRange(mc.rights, m.addr, m.length, m.prot);
  }

  lemma ProtectedRange(rights: map<nat, nat>, addr: nat, length: nat, prot: nat)
    ensures AllProt(Protected(rights, addr, length, prot), addr, addr + length, prot)
    ensures SameOutside(rights, Protected(rights, addr, length, prot), addr, addr + length)
  {
  }

  /** The two parts make up the image. */
  lemma PartsMakeImage(base: nat, file: seq<nat>, h: Header, m1: Memory, m2: Memory, first: nat, end: nat, last: nat,
                       offset: nat)
    requires FilePages(m1, first, end, base + h.vaddr + h.filesz,
                       h.filesz < h.memsz && end > base + h.vaddr + h.filesz, file, offset)
    requires first <= base + h.vaddr && base + h.vaddr + h.filesz <= end <= last && base + h.vaddr + h.memsz <= last
    requires offset + (base + h.vaddr - first) == h.offset
    requires SameOutside(m1, m2, end, last) && forall a :: end <= a < last ==> a in m2 && m2[a] == 0
    ensures ImageOf(m2, base, file, h)
  {
    forall a | base + h.vaddr <= a < base + h.vaddr + h.memsz
      ensures a in m2
      ensures m2[a] == if a < base + h.vaddr + h.filesz then FileByte(file, h.offset + (a - base - h.vaddr)) else 0
    {
      if a < end {
        assert a in m1 && m2[a] == m1[a];
        assert offset + (a - first) == h.offset + (a - base - h.vaddr);
      }
    }
  }

  lemma OutsideTwice(m0: Memory, m1: Memory, m2: Memory, first: nat, end: nat, last: nat)
    requires SameOutside(m0, m1, first, end) && SameOutside(m1, m2, end, last) && first <= end <= last
    ensures SameOutside(m0, m2, first, last)
  {
  }

  /** Running the mappings of one header puts its image into memory, and touches nothing but its pages. */
  lemma HeaderLoaded(page: nat, base: nat, file: seq<nat>, h: Header, mc: Machine)
    requires IsPage(page) && Loadable(page, base, file, h) && mc.state == Running && mc.fd == Contents(file)
    ensures var r := ExecuteMmaps(page, mc, Shifted(MappingsOf(page, h), base));
            && r.state == Running && r.fd == mc.fd && HeaderIn(r, page, base, file, h)
            && Untouched(mc, r, First(page, base, h), Last(page, base, h))
  {
    MappingsExact(page, base, file, h);
    HeaderAligned(page, base, h);
    SameRemainder(page, h.offset, h.vaddr);
    ProtRights(h);
    var first, end, last := First(page, base, h), base + Ceil(page, h.vaddr + h.filesz), Last(page, base, h);
    PartsLoaded(page, base, file, h, mc, Shifted(MappingsOf(page, h), base), first, end, last);
  }

  lemma PartsLoaded(page: nat, base: nat, file: seq<nat>, h: Header, mc: Machine, ms: seq<Mapping>,
                    first: nat, end: nat, last: nat)
    requires IsPage(page) && mc.state == Running && mc.fd == Contents(file) && h.filesz <= h.memsz
    requires first < end <= last < WORD_RANGE && first <= base + h.vaddr && base + h.vaddr + h.filesz <= end
    requires base + h.vaddr + h.memsz <= last && (h.filesz == h.memsz ==> last == end)
    requires 1 <= |ms| <= 2 && (|ms| == 2 <==> last > end)
    requires ms[0] == Mapping(first, end - first, Prot(h), ms[0].offset,
                              if h.memsz > h.filesz then end - (base + h.vaddr + h.filesz) else 0, false)
    requires |ms| == 2 ==> ms[1] == Mapping(end, last - end, Prot(h), 0, 0, true)
    requires ms[0].offset + (base + h.vaddr - first) == h.offset
    requires Aligned(page, first) && Aligned(page, end) && Aligned(page, ms[0].offset)
    requires h.filesz < h.memsz && base + h.vaddr + h.filesz < end ==> HasBit(Prot(h), PROT_WRITE)
    ensures var r := ExecuteMmaps(page, mc, ms);
            && r.state == Running && r.fd == mc.fd && ImageOf(r.mem, base, file, h) && Untouched(mc, r, first, last)
            && AllProt(r.rights, first, last, Prot(h))
  {
    hide HasBit, Prot, SameOutside, FilePages, MmapStep, ExecuteMmaps, ImageOf;
    FileMapped(page, mc, file, ms[0], base + h.vaddr + h.filesz);
    var mc1 := MmapStep(page, mc, ms[0]);
    FirstMmap(page, mc, ms);
    if last > end {
      ZeroMapped(page, mc1, ms[1]);
      var mc2 := MmapStep(page, mc1, ms[1]);
      PartsMakeImage(base, file, h, mc1.mem, mc2.mem, first, end, last, ms[0].offset);
      OutsideTwice(mc.mem, mc1.mem, mc2.mem, first, end, last);
      OutsideTwice(mc.rights, mc1.rights, mc2.rights, first, end, last);
      RightsJoin(mc1.rights, mc2.rights, first, end, last, Prot(h));
    } else {
      NothingMore(mc1.mem, end, last);
      PartsMakeImage(base, file, h, mc1.mem, mc1.mem, first, end, last, ms[0].offset);
    }
  }

  lemma NothingMore(mem: Memory, lo: nat, hi: nat)
    ensures SameOutside(mem, mem, lo, hi)
  {
  }

  lemma RightsJoin(r1: map<nat, nat>, r2: map<nat, nat>, lo: nat, mid: nat, hi: nat, prot: nat)
    requires AllProt(r1, lo, mid, prot) && SameOutside(r1, r2, mid, hi) && AllProt(r2, mid, hi, prot)
    ensures AllProt(r2, lo, hi, prot)
  {
    forall a | lo <= a < hi ensures a in r2 && r2[a] == prot {
    }
  }

  lemma FirstMmap(page: nat, mc: Machine, ms: seq<Mapping>)
    requires IsPage(page) && 1 <= |ms| <= 2 && mc.state == Running && MmapStep(page, mc, ms[0]).state == Running
    ensures ExecuteMmaps(page, mc, ms) ==
            if |ms| == 1 then MmapStep(page, mc, ms[0]) else MmapStep(page, MmapStep(page, mc, ms[0]), ms[1])
  {
    assert ms[..0] == [] && ms[..1][..0] == [] && ms[..1][0] == ms[0];
    assert ExecuteMmaps(page, mc, ms[..1]) == MmapStep(page, mc, ms[0]);
  }

  lemma HeaderAligned(page: nat, base: nat, h: Header)
    requires IsPage(page) && Aligned(page, base)
    ensures Aligned(page, First(page, base, h)) && Aligned(page, base + Ceil(page, h.vaddr + h.filesz))
    ensures Aligned(page, Floor(page, h.offset))
  {
    FloorAligned(page, h.vaddr);
    FloorAligned(page, h.vaddr + h.filesz + page - 1);
    FloorAligned(page, h.offset);
    AlignedSum(page, base, Floor(page, h.vaddr));
    AlignedSum(page, base, Ceil(page, h.vaddr + h.filesz));
  }

  // ----- several headers

  function AllMappings(page: nat, hs: seq<Header>): seq<Mapping>
    requires IsPage(page)
  {
    if hs == [] then [] else AllMappings(page, hs[..|hs| - 1]) + MappingsOf(page, hs[|hs| - 1])
  }

  lemma {:induction false} ShiftedConcat(a: seq<Mapping>, b: seq<Mapping>, base: nat)
    ensures Shifted(a + b, base) == Shifted(a, base) + Shifted(b, base)
  {
    if a == [] {
      assert a + b == b;
    } else {
      assert (a + b)[1..] == a[1..] + b;
      ShiftedConcat(a[1..], b, base);
    }
  }

  ghost predicate PagesApart(page: nat, base: nat, hs: seq<Header>)
    requires IsPage(page)
  {
    forall i, j :: 0 <= i < j < |hs| ==>
      || Last(page, base, hs[i]) <= First(page, base, hs[j])
      || Last(page, base, hs[j]) <= First(page, base, hs[i])
  }

  ghost predicate AllImages(mc: Machine, page: nat, base: nat, file: seq<nat>, hs: seq<Header>)
    requires IsPage(page)
  {
    forall i {:trigger hs[i]} :: 0 <= i < |hs| ==> HeaderIn(mc, page, base, file, hs[i])
  }

  ghost predicate AllLoadable(page: nat, base: nat, file: seq<nat>, hs: seq<Header>)
    requires IsPage(page)
  {
    && PagesApart(page, base, hs)
    && forall i {:trigger hs[i]} :: 0 <= i < |hs| ==> Loadable(page, base, file, hs[i])
  }

  /** Meaning preservation: running the mappings of a list of headers whose pages do not overlap leaves the
      image of every one of them in memory, with the access rights that it asks for on all its pages. */
  lemma {:induction false} ImageLoaded(page: nat, base: nat, file: seq<nat>, hs: seq<Header>, mc: Machine)
    requires IsPage(page) && mc.state == Running && mc.fd == Contents(file) && AllLoadable(page, base, file, hs)
    ensures var r := ExecuteMmaps(page, mc, Shifted(AllMappings(page, hs), base));
            r.state == Running && r.fd == mc.fd && AllImages(r, page, base, file, hs)
  {
    if hs != [] {
      var n := |hs| - 1;
      var before, h := hs[..n], hs[n];
      assert AllLoadable(page, base, file, before);
      ImageLoaded(page, base, file, before, mc);
      var a, b := Shifted(AllMappings(page, before), base), Shifted(MappingsOf(page, h), base);
      ShiftedConcat(AllMappings(page, before), MappingsOf(page, h), base);
      MmapsConcat(page, mc, a, b);
      var mid := ExecuteMmaps(page, mc, a);
      HeaderLoaded(page, base, file, h, mid);
      ImagesKept(page, base, file, hs, mid, ExecuteMmaps(page, mid, b));
    }
  }

  lemma ImagesKept(page: nat, base: nat, file: seq<nat>, hs: seq<Header>, mc: Machine, mc': Machine)
    requires IsPage(page) && hs != [] && AllLoadable(page, base, file, hs)
    requires AllImages(mc, page, base, file, hs[..|hs| - 1]) && HeaderIn(mc', page, base, file, hs[|hs| - 1])
    requires Untouched(mc, mc', First(page, base, hs[|hs| - 1]), Last(page, base, hs[|hs| - 1]))
    ensures AllImages(mc', page, base, file, hs)
  {
    var n := |hs| - 1;
    forall i {:trigger hs[i]} | 0 <= i < |hs| ensures HeaderIn(mc', page, base, file, hs[i]) {
      if i < n {
        assert hs[..n][i] == hs[i];
        ImageKept(page, base, file, hs[i], First(page, base, hs[n]), Last(page, base, hs[n]), mc, mc');
      }
    }
  }

  /** Other pages are left alone. */
  lemma ImageKept(page: nat, base: nat, file: seq<nat>, h: Header, lo: nat, hi: nat, mc: Machine, mc': Machine)
    requires IsPage(page) && HeaderIn(mc, page, base, file, h) && h.filesz <= h.memsz
    requires Untouched(mc, mc', lo, hi) && (Last(page, base, h) <= lo || hi <= First(page, base, h))
    ensures HeaderIn(mc', page, base, file, h)
  {
    forall a | base + h.vaddr <= a < base + h.vaddr + h.memsz
      ensures a in mc'.mem && mc'.mem[a] == mc.mem[a]
    {
      assert First(page, base, h) <= a < Last(page, base, h);
    }
  }
}
