/** Running the load script of a program: from the first statement to the jump. */
module LoadProgram {
  import opened LoadImage
  import opened LoadScript

  // ----- the base that the program is told

  predicate KeepsBase(mc: Machine, r: Machine) {
    !mc.resetAtBase ==> !r.resetAtBase && r.atBase == mc.atBase
  }

  lemma {:induction false} BaseKept(page: nat, mc: Machine, ms: seq<Mapping>)
    requires IsPage(page)
    ensures KeepsBase(mc, ExecuteMmaps(page, mc, ms))
  {
    if ms != [] {
      BaseKept(page, mc, ms[..|ms| - 1]);
    }
  }

  /** The first mapping behind an open decides what the base is. */
  lemma FirstIsBase(page: nat, mc: Machine, ms: seq<Mapping>)
    requires IsPage(page) && mc.state == Running && mc.resetAtBase && ms != [] && !ms[0].anonymous
    requires ExecuteMmaps(page, mc, ms).state == Running
    ensures ExecuteMmaps(page, mc, ms).atBase == ms[0].addr
  {
    var first, rest := ms[..1], ms[1..];
    assert ms == first + rest;
    OneMmap(page, mc, first);
    FirstBase(page, mc, ms[0]);
    hide ExecuteMmaps, MmapStep;
    var one := ExecuteMmaps(page, mc, first);
    if one.state != Running {
      StaysStopped(page, mc, first, rest);
    } else {
      MmapsConcat(page, mc, first, rest);
      BaseKept(page, one, rest);
    }
  }

  lemma OneMmap(page: nat, mc: Machine, ms: seq<Mapping>)
    requires IsPage(page) && mc.state == Running && |ms| == 1
    ensures ExecuteMmaps(page, mc, ms) == MmapStep(page, mc, ms[0])
  {
    assert ms[..0] == [];
  }

  lemma FirstBase(page: nat, mc: Machine, m: Mapping)
    requires IsPage(page) && mc.state == Running && mc.resetAtBase && !m.anonymous
    ensures var r := MmapStep(page, mc, m); r.state == Running ==> r.atBase == m.addr && !r.resetAtBase
  {
  }

  lemma {:induction false} StaysStopped(page: nat, mc: Machine, a: seq<Mapping>, b: seq<Mapping>)
    requires IsPage(page) && ExecuteMmaps(page, mc, a).state != Running
    ensures ExecuteMmaps(page, mc, a + b).state != Running
  {
    if b == [] {
      assert a + b == a;
    } else {
      StaysStopped(page, mc, a, b[..|b| - 1]);
      assert (a + b)[..|a + b| - 1] == a + b[..|b| - 1];
    }
  }

  lemma {:induction false} FirstMapping(page: nat, hs: seq<Header>)
    requires IsPage(page) && hs != []
    ensures AllMappings(page, hs) != [] && AllMappings(page, hs)[0] == MappingsOf(page, hs[0])[0]
  {
    if |hs| > 1 {
      FirstMapping(page, hs[..|hs| - 1]);
    } else {
      assert hs[..0] == [] && AllMappings(page, []) == [];
      assert AllMappings(page, hs) == [] + MappingsOf(page, hs[0]);
    }
  }

  // ----- one file

  /** What the loader needs of a file: headers that can be loaded at `base`, and their mappings. */
  ghost predicate IsObject(page: nat, base: nat, file: seq<nat>, hs: seq<Header>, ms: seq<Mapping>)
    requires IsPage(page)
  {
    hs != [] && AllLoadable(page, base, file, hs) && ms == Shifted(AllMappings(page, hs), base)
  }

  /** Opening a file and mapping it leaves its images in memory, and its first address as the base. */
  lemma ObjectLoaded(page: nat, base: nat, file: seq<nat>, hs: seq<Header>, ms: seq<Mapping>, mc: Machine)
    requires IsPage(page) && IsObject(page, base, file, hs, ms)
    requires mc.state == Running && mc.fd == Contents(file) && mc.resetAtBase
    ensures ms != []
    ensures var r := ExecuteMmaps(page, mc, ms);
            r.state == Running && r.fd == mc.fd && AllImages(r, page, base, file, hs) && r.atBase == ms[0].addr
  {
    ImageLoaded(page, base, file, hs, mc);
    FirstMapping(page, hs);
    ShiftedAt(AllMappings(page, hs), base);
    FirstIsBase(page, mc, ms);
  }

  /** The pages of the header lie apart from those of the others, which are loaded at `base'`. */
  ghost predicate ApartFrom(page: nat, base: nat, h: Header, base': nat, hs': seq<Header>)
    requires IsPage(page)
  {
    forall j {:trigger hs'[j]} :: 0 <= j < |hs'| ==>
      Last(page, base, h) <= First(page, base', hs'[j]) || Last(page, base', hs'[j]) <= First(page, base, h)
  }

  ghost predicate ObjectsApart(page: nat, base: nat, hs: seq<Header>, base': nat, hs': seq<Header>)
    requires IsPage(page)
  {
    forall i {:trigger hs[i]} :: 0 <= i < |hs| ==> ApartFrom(page, base, hs[i], base', hs')
  }

  /** Loading another file does not touch an image that lies apart from it. */
  lemma {:induction false} ImageSurvives(page: nat, base: nat, file: seq<nat>, h: Header, base': nat, file': seq<nat>,
                                         hs': seq<Header>, mc: Machine)
    requires IsPage(page) && mc.state == Running && mc.fd == Contents(file') && AllLoadable(page, base', file', hs')
    requires HeaderIn(mc, page, base, file, h) && h.filesz <= h.memsz && ApartFrom(page, base, h, base', hs')
    ensures HeaderIn(ExecuteMmaps(page, mc, Shifted(AllMappings(page, hs'), base')), page, base, file, h)
  {
    if hs' != [] {
      var n := |hs'| - 1;
      var before, last := hs'[..n], hs'[n];
      assert AllLoadable(page, base', file', before) && ApartFrom(page, base, h, base', before);
      ImageSurvives(page, base, file, h, base', file', before, mc);
      ImageLoaded(page, base', file', before, mc);
      var a, b := Shifted(AllMappings(page, before), base'), Shifted(MappingsOf(page, last), base');
      ShiftedConcat(AllMappings(page, before), MappingsOf(page, last), base');
      MmapsConcat(page, mc, a, b);
      var mid := ExecuteMmaps(page, mc, a);
      HeaderLoaded(page, base', file', last, mid);
      ImageKept(page, base, file, h, First(page, base', last), Last(page, base', last), mid, ExecuteMmaps(page, mid, b));
    }
  }

  lemma ImagesSurvive(page: nat, base: nat, file: seq<nat>, hs: seq<Header>, base': nat, file': seq<nat>,
                      hs': seq<Header>, mc: Machine)
    requires IsPage(page) && mc.state == Running && mc.fd == Contents(file') && AllLoadable(page, base', file', hs')
    requires AllImages(mc, page, base, file, hs) && AllLoadable(page, base, file, hs)
    requires ObjectsApart(page, base, hs, base', hs')
    ensures AllImages(ExecuteMmaps(page, mc, Shifted(AllMappings(page, hs'), base')), page, base, file, hs)
  {
    forall i {:trigger hs[i]} | 0 <= i < |hs|
      ensures HeaderIn(ExecuteMmaps(page, mc, Shifted(AllMappings(page, hs'), base')), page, base, file, hs[i])
    {
      ImageSurvives(page, base, file, hs[i], base', file', hs', mc);
    }
  }

  // ----- the whole script

  lemma {:induction false} StacksKept(page: nat, mc: Machine, ms: seq<Mapping>)
    requires IsPage(page)
    ensures ExecuteMmaps(page, mc, ms).stacks == mc.stacks
  {
    if ms != [] {
      StacksKept(page, mc, ms[..|ms| - 1]);
    }
  }

  lemma OneMore(page: nat, files: map<nat, seq<nat>>, mc: Machine, front: seq<Statement>, s: Statement)
    requires IsPage(page) && Execute(page, files, mc, front).state == Running
    ensures Execute(page, files, mc, front + [s]) == Step(page, files, Execute(page, files, mc, front), s)
  {
    assert (front + [s])[..|front|] == front;
  }

  /** One file of the script. */
  lemma FileLoaded(page: nat, files: map<nat, seq<nat>>, mc: Machine, front: seq<Statement>, next: bool, path: nat,
                   base: nat, hs: seq<Header>, ms: seq<Mapping>)
    requires IsPage(page) && path in files && IsObject(page, base, files[path], hs, ms)
    requires var r := Execute(page, files, mc, front); r.state == Running && !(next && r.fd.NoFile?)
    ensures ms != []
    ensures var before := Execute(page, files, mc, front);
            var ready := before.(fd := Contents(files[path]), resetAtBase := true);
            var r := Execute(page, files, mc, front + [Open(next, path)] + Mmaps(ms));
            && r == ExecuteMmaps(page, ready, ms)
            && r.state == Running && !r.fd.NoFile? && AllImages(r, page, base, files[path], hs) && r.atBase == ms[0].addr
            && r.stacks == before.stacks
  {
    OneMore(page, files, mc, front, Open(next, path));
    MmapsExecuted(page, files, mc, front + [Open(next, path)], ms);
    ObjectLoaded(page, base, files[path], hs, ms, Execute(page, files, mc, front + [Open(next, path)]));
    StacksKept(page, Execute(page, files, mc, front + [Open(next, path)]), ms);
  }

  /** The objects that a program is made of: its own file, and that of its ELF interpreter. */
  datatype Objects = Objects(base: nat, headers: seq<Header>, interpreterBase: nat, interpreterHeaders: seq<Header>)

  ghost predicate CanLoad(page: nat, files: map<nat, seq<nat>>, p: Program, l: Layout, o: Objects)
    requires IsPage(page)
  {
    && l.string1 in files && IsObject(page, o.base, files[l.string1], o.headers, p.mappings)
    && (p.interpreter.Interpreter? ==>
          && l.string2 in files
          && IsObject(page, o.interpreterBase, files[l.string2], o.interpreterHeaders, p.interpreter.mappings)
          && ObjectsApart(page, o.base, o.headers, o.interpreterBase, o.interpreterHeaders))
  }

  /** Both files are in memory, and the base is the first address of the last one. */
  ghost predicate IsLoaded(page: nat, files: map<nat, seq<nat>>, p: Program, l: Layout, o: Objects, mc: Machine)
    requires IsPage(page) && p.mappings != [] && l.string1 in files
    requires p.interpreter.Interpreter? ==> p.interpreter.mappings != [] && l.string2 in files
  {
    && AllImages(mc, page, o.base, files[l.string1], o.headers)
    && (p.interpreter.Interpreter? ==> AllImages(mc, page, o.interpreterBase, files[l.string2], o.interpreterHeaders))
    && mc.atBase == if p.interpreter.Interpreter? then p.interpreter.mappings[0].addr else p.mappings[0].addr
  }

  lemma FilesLoaded(page: nat, files: map<nat, seq<nat>>, mem: Memory, rights: map<nat, nat>, p: Program, l: Layout,
                    o: Objects)
    requires IsPage(page) && CanLoad(page, files, p, l, o)
    ensures p.mappings != [] && (p.interpreter.Interpreter? ==> p.interpreter.mappings != [])
    ensures var r := Execute(page, files, Machine(mem, rights, [], NoFile, 0, true, Running), Loads(p, l));
            r.state == Running && !r.fd.NoFile? && IsLoaded(page, files, p, l, o, r) && r.stacks == []
  {
    var mc := Machine(mem, rights, [], NoFile, 0, true, Running);
    var own := [Open(false, l.string1)] + Mmaps(p.mappings);
    assert [] + [Open(false, l.string1)] == [Open(false, l.string1)];
    FileLoaded(page, files, mc, [], false, l.string1, o.base, o.headers, p.mappings);
    if p.interpreter.Interpreter? {
      var ms := p.interpreter.mappings;
      FileLoaded(page, files, mc, own, true, l.string2, o.interpreterBase, o.interpreterHeaders, ms);
      var ready := Execute(page, files, mc, own).(fd := Contents(files[l.string2]), resetAtBase := true);
      ImagesSurvive(page, o.base, files[l.string1], o.headers, o.interpreterBase, files[l.string2],
                    o.interpreterHeaders, ready);
      assert Loads(p, l) == own + [Open(true, l.string2)] + Mmaps(ms);
    } else {
      assert Loads(p, l) == own;
    }
  }

  /** From the script to the jump: the loader opens and maps the program and, if it has one, its ELF
      interpreter, makes the stack executable if one of them asks for it, and jumps to the interpreter or the
      program with the images of all headers of both in memory.  The program is told where its own headers and
      entry point are, and where the last file has been loaded. */
  lemma ProgramLoaded(page: nat, files: map<nat, seq<nat>>, mem: Memory, rights: map<nat, nat>, p: Program, sp: nat,
                      stackPage: nat, traced: bool, l: Layout, o: Objects)
    requires IsPage(page) && CanLoad(page, files, p, l, o)
    ensures p.mappings != [] && (p.interpreter.Interpreter? ==> p.interpreter.mappings != [])
    ensures var mc := Machine(mem, rights, [], NoFile, 0, true, Running);
            var r := Execute(page, files, mc, Script(p, sp, stackPage, traced, l));
            && IsLoaded(page, files, p, l, o, r)
            && r.stacks == (if p.executableStack || (p.interpreter.Interpreter? && p.interpreter.executableStack)
                            then [stackPage] else [])
            && r.state.Started? && r.state.traced == traced && r.state.stackPointer == sp
            && r.state.entryPoint == (if p.interpreter.Interpreter? then p.interpreter.entry else p.entry)
            && r.state.aux.entry == p.entry && r.state.aux.phent == p.phentsize && r.state.aux.phnum == p.phnum
            && r.state.aux.base == r.atBase && r.state.aux.execfn == l.string3
            && r.state.aux.phdr == Plus(p.phoff, p.mappings[0].addr)
  {
    var mc := Machine(mem, rights, [], NoFile, 0, true, Running);
    FilesLoaded(page, files, mem, rights, p, l, o);
    var start := StartOf(p, sp, traced, l);
    hide Loads, IsLoaded, Execute;
    if NeedsExecutableStack(p) {
      OneMore(page, files, mc, Loads(p, l), MakeStackExec(stackPage));
      StackOnly(page, files, p, l, o, Execute(page, files, mc, Loads(p, l)), stackPage);
      OneMore(page, files, mc, Loads(p, l) + [MakeStackExec(stackPage)], start);
      StartOnly(page, files, p, l, o, Execute(page, files, mc, Loads(p, l) + [MakeStackExec(stackPage)]), start);
      assert Script(p, sp, stackPage, traced, l) == Loads(p, l) + [MakeStackExec(stackPage)] + [start];
    } else {
      OneMore(page, files, mc, Loads(p, l), start);
      StartOnly(page, files, p, l, o, Execute(page, files, mc, Loads(p, l)), start);
      assert Script(p, sp, stackPage, traced, l) == Loads(p, l) + [start];
    }
  }

  lemma StackOnly(page: nat, files: map<nat, seq<nat>>, p: Program, l: Layout, o: Objects, mc: Machine, start: nat)
    requires IsPage(page) && CanLoad(page, files, p, l, o)
    requires p.mappings != [] && (p.interpreter.Interpreter? ==> p.interpreter.mappings != [])
    requires IsLoaded(page, files, p, l, o, mc)
    ensures IsLoaded(page, files, p, l, o, Step(page, files, mc, MakeStackExec(start)))
  {
    hide HeaderIn;
    SameImages(page, o.base, files[l.string1], o.headers, mc, Step(page, files, mc, MakeStackExec(start)));
    if p.interpreter.Interpreter? {
      SameImages(page, o.interpreterBase, files[l.string2], o.interpreterHeaders, mc,
                 Step(page, files, mc, MakeStackExec(start)));
    }
  }

  lemma StartOnly(page: nat, files: map<nat, seq<nat>>, p: Program, l: Layout, o: Objects, mc: Machine, s: Statement)
    requires IsPage(page) && CanLoad(page, files, p, l, o) && s.Start?
    requires p.mappings != [] && (p.interpreter.Interpreter? ==> p.interpreter.mappings != [])
    requires IsLoaded(page, files, p, l, o, mc)
    ensures IsLoaded(page, files, p, l, o, Step(page, files, mc, s))
  {
    hide HeaderIn;
    SameImages(page, o.base, files[l.string1], o.headers, mc, Step(page, files, mc, s));
    if p.interpreter.Interpreter? {
      SameImages(page, o.interpreterBase, files[l.string2], o.interpreterHeaders, mc, Step(page, files, mc, s));
    }
  }

  lemma SameImages(page: nat, base: nat, file: seq<nat>, hs: seq<Header>, mc: Machine, mc': Machine)
    requires IsPage(page) && mc'.mem == mc.mem && mc'.rights == mc.rights && AllImages(mc, page, base, file, hs)
    ensures AllImages(mc', page, base, file, hs)
  {
    forall i {:trigger hs[i]} | 0 <= i < |hs| ensures HeaderIn(mc', page, base, file, hs[i]) {
      assert HeaderIn(mc, page, base, file, hs[i]);
    }
  }

  ghost predicate HoldsByte(mem: Memory, a: nat, byte: nat) {
    a in mem && mem[a] == byte
  }

  lemma FirstAddress(page: nat, base: nat, file: seq<nat>, hs: seq<Header>, ms: seq<Mapping>)
    requires IsPage(page) && IsObject(page, base, file, hs, ms) && hs[0].offset == 0
    ensures ms != [] && ms[0].addr == base + hs[0].vaddr
    ensures base + hs[0].vaddr + hs[0].memsz < WORD_RANGE && hs[0].filesz <= hs[0].memsz
  {
    var h := hs[0];
    assert Loadable(page, base, file, h);
    FirstMapping(page, hs);
    ShiftedAt(AllMappings(page, hs), base);
    MappingsExact(page, base, file, h);
    ShiftedAt(MappingsOf(page, h), base);
    SameRemainder(page, h.vaddr, h.offset);
  }

  /** When the first header is for the start of the file, the place that the program is told for its headers is
      where they are in memory. */
  lemma HeadersFound(page: nat, base: nat, file: seq<nat>, hs: seq<Header>, ms: seq<Mapping>, mc: Machine, phoff: nat,
                     i: nat)
    requires IsPage(page) && IsObject(page, base, file, hs, ms) && AllImages(mc, page, base, file, hs)
    requires hs[0].offset == 0 && phoff + i < hs[0].filesz
    ensures ms != [] && HoldsByte(mc.mem, Plus(phoff, ms[0].addr) + i, FileByte(file, phoff + i))
  {
    FirstAddress(page, base, file, hs, ms);
    hide IsObject, Floor, Ceil, AllRights;
    assert HeaderIn(mc, page, base, file, hs[0]);
    ImageByte(mc.mem, base, file, hs[0], phoff + i);
  }

  lemma ImageByte(mem: Memory, base: nat, file: seq<nat>, h: Header, i: nat)
    requires ImageOf(mem, base, file, h) && i < h.filesz <= h.memsz
    ensures HoldsByte(mem, base + h.vaddr + i, FileByte(file, h.offset + i))
  {
  }
}
