/** Compiling a list of system calls to a classic BPF program that the kernel runs on every system call. */
module SeccompFilter {
  import opened Common

  const PR_VOID: nat := 0
  const UINT32_MAX: nat := 0xFFFF_FFFF
  const SYSCALL_AVOIDER: nat := 0xFFFF_FFFF_FFFF_FFFE
  const SECCOMP_RET_KILL: nat := 0
  const SECCOMP_RET_TRACE: nat := 0x7ff0_0000
  const SECCOMP_RET_ALLOW: nat := 0x7fff_0000
  const LENGTH_TRACE_SYSCALL: nat := 2
  const LENGTH_END_SECTION: nat := 1
  const LEN_RANGE: nat := 0x1_0000   // struct sock_fprog counts statements in 16 bits

  // ----- system call numbers

  /** The numbers of one ABI: the neutral value of each, and where they start. */
  datatype Abi = Abi(table: seq<nat>, offset: nat)

  function IndexOf(table: seq<nat>, v: nat): (i: nat)
    ensures i <= |table| && (i < |table| ==> table[i] == v) && forall j :: 0 <= j < i ==> table[j] != v
  {
    if table == [] || table[0] == v then 0 else 1 + IndexOf(table[1..], v)
  }

  function Detranslated(abi: Abi, v: nat): (r: nat)
  {
    if v == PR_VOID || IndexOf(abi.table, v) == |abi.table| then SYSCALL_AVOIDER
    else IndexOf(abi.table, v) + abi.offset
  }

  /** `translate_sysnum`, with the upper bound of the table respected. */
  function Translated(abi: Abi, nr: nat): nat {
    if nr < abi.offset || nr - abi.offset >= |abi.table| then PR_VOID else abi.table[nr - abi.offset]
  }

  /** The number of a system call is the place of its first entry, unless there is none or it is no call at all. */
  lemma DetranslatedPlace(abi: Abi, v: nat)
    ensures var r := Detranslated(abi, v);
            if v == 0 || v !in abi.table then r == 0xFFFF_FFFF_FFFF_FFFE
            else
              && abi.offset <= r < abi.offset + |abi.table| && abi.table[r - abi.offset] == v
              && v !in abi.table[..r - abi.offset]
  {
    var i := IndexOf(abi.table, v);
    if i < |abi.table| {
      FirstPlace(abi.table, v, i);
    }
  }

  lemma FirstPlace(table: seq<nat>, v: nat, k: nat)
    requires k < |table|
    ensures IndexOf(table, v) == k <==> table[k] == v && v !in table[..k]
  {
    var i := IndexOf(table, v);
    assert i < k ==> v in table[..k] by {
      if i < k {
        assert table[..k][i] == v;
      }
    }
  }

  /** `detranslate_sysnum` */
  method DetranslateSysnum(abi: Abi, sysnum: nat) returns (r: nat)
    ensures r == Detranslated(abi, sysnum)
  {
    if sysnum == PR_VOID {
      return SYSCALL_AVOIDER;
    }
    var i := 0;
    while i < |abi.table|
      invariant i <= |abi.table| && forall j :: 0 <= j < i ==> abi.table[j] != sysnum
    {
      if abi.table[i] == sysnum {
        return i + abi.offset;
      }
      i := i + 1;
    }
    return SYSCALL_AVOIDER;
  }

  /** Off the avoider value, translating back gives the neutral number again: no two of them share a number. */
  lemma DetranslateInjective(abi: Abi, v: nat, w: nat)
    requires Detranslated(abi, v) != SYSCALL_AVOIDER
    ensures Translated(abi, Detranslated(abi, v)) == v
    ensures Detranslated(abi, v) == Detranslated(abi, w) ==> v == w
  {
  }

  // ----- merging lists

  datatype Filtered = Filtered(value: nat, flags: nat)

  /** Bitwise or. */
  function Or(a: nat, b: nat): (r: nat) {
    if a == 0 && b == 0 then 0 else 2 * Or(a / 2, b / 2) + (if a % 2 == 1 || b % 2 == 1 then 1 else 0)
  }

  lemma OrZero(a: nat)
    ensures Or(0, a) == a && Or(a, 0) == a
  {
    if a > 0 {
      OrZero(a / 2);
    }
  }

  lemma {:induction false} OrAssoc(a: nat, b: nat, c: nat)
    ensures Or(Or(a, b), c) == Or(a, Or(b, c))
  {
    if a + b + c > 0 {
      OrAssoc(a / 2, b / 2, c / 2);
      OrHalf(a, b);
      OrHalf(b, c);
      OrHalf(Or(a, b), c);
      OrHalf(a, Or(b, c));
      OrByHalves(Or(Or(a, b), c), Or(a, Or(b, c)));
    }
  }

  lemma OrHalf(a: nat, b: nat)
    ensures Or(a, b) / 2 == Or(a / 2, b / 2)
    ensures Or(a, b) % 2 == 1 <==> a % 2 == 1 || b % 2 == 1
  {
  }

  lemma OrByHalves(x: nat, y: nat)
    requires x / 2 == y / 2 && (x % 2 == 1 <==> y % 2 == 1)
    ensures x == y
  {
  }

  /** All the flags that a list asks for with a system call, none if it is not listed. */
  function FlagsOf(l: seq<Filtered>, v: nat): Option<nat> {
    if l == [] then None
    else
      var before, last := FlagsOf(l[..|l| - 1], v), l[|l| - 1];
      if last.value != v then before
      else if before.None? then Some(last.flags)
      else Some(Or(before.value, last.flags))
  }

  /** The k-th bit of a number. */
  predicate Bit(n: nat, k: nat) {
    if k == 0 then n % 2 == 1 else Bit(n / 2, k - 1)
  }

  lemma {:induction false} OrBits(a: nat, b: nat, k: nat)
    ensures Bit(Or(a, b), k) <==> Bit(a, k) || Bit(b, k)
  {
    OrHalf(a, b);
    if k > 0 {
      OrBits(a / 2, b / 2, k - 1);
    }
  }

  /** A flag is asked for with a system call exactly if some entry for it has that flag. */
  lemma {:induction false} FlagsBits(l: seq<Filtered>, v: nat, k: nat)
    ensures FlagsOf(l, v).Some? <==> exists i :: 0 <= i < |l| && l[i].value == v
    ensures FlagsOf(l, v).Some? ==>
              (Bit(FlagsOf(l, v).value, k) <==> exists i :: 0 <= i < |l| && l[i].value == v && Bit(l[i].flags, k))
  {
    hide Or, Bit;
    if l != [] {
      var before, x := l[..|l| - 1], l[|l| - 1];
      FlagsBits(before, v, k);
      if FlagsOf(before, v).Some? {
        OrBits(FlagsOf(before, v).value, x.flags, k);
      }
      assert forall i :: 0 <= i < |before| ==> before[i] == l[i];
    }
  }

  ghost predicate Listed(l: seq<Filtered>, v: nat) {
    exists i :: 0 <= i < |l| && l[i].value == v
  }

  ghost predicate Distinct(l: seq<Filtered>) {
    forall i, j :: 0 <= i < j < |l| ==> l[i].value != l[j].value
  }

  lemma {:induction false} FlagsListed(l: seq<Filtered>, v: nat)
    ensures FlagsOf(l, v).Some? <==> Listed(l, v)
  {
    if l != [] {
      FlagsListed(l[..|l| - 1], v);
      if Listed(l, v) && l[|l| - 1].value != v {
        var i :| 0 <= i < |l| && l[i].value == v;
        assert l[..|l| - 1][i].value == v;
      }
      if Listed(l[..|l| - 1], v) {
        var i :| 0 <= i < |l| - 1 && l[..|l| - 1][i].value == v;
        assert l[i].value == v;
      }
    }
  }

  /** In a list without repetition the flags of an entry are all there is. */
  lemma {:induction false} FlagsDistinct(l: seq<Filtered>, i: nat)
    requires Distinct(l) && i < |l|
    ensures FlagsOf(l, l[i].value) == Some(l[i].flags)
  {
    if i == |l| - 1 {
      FlagsListed(l[..|l| - 1], l[i].value);
    } else {
      FlagsDistinct(l[..|l| - 1], i);
    }
  }

  lemma {:induction false} FlagsUpdate(l: seq<Filtered>, j: nat, flags: nat, v: nat)
    requires Distinct(l) && j < |l|
    ensures FlagsOf(l[j := Filtered(l[j].value, Or(l[j].flags, flags))], v) == FlagsOf(l + [Filtered(l[j].value, flags)], v)
  {
    var l' := l[j := Filtered(l[j].value, Or(l[j].flags, flags))];
    assert (l + [Filtered(l[j].value, flags)])[..|l|] == l;
    if v == l[j].value {
      assert Distinct(l');
      FlagsDistinct(l, j);
      FlagsDistinct(l', j);
    } else {
      FlagsOther(l, j, l'[j], v);
    }
  }

  lemma {:induction false} FlagsOther(l: seq<Filtered>, j: nat, x: Filtered, v: nat)
    requires j < |l| && x.value == l[j].value && v != x.value
    ensures FlagsOf(l[j := x], v) == FlagsOf(l, v)
  {
    if j == |l| - 1 {
      assert l[j := x][..|l| - 1] == l[..|l| - 1];
    } else {
      FlagsOther(l[..|l| - 1], j, x, v);
      assert l[j := x][..|l| - 1] == l[..|l| - 1][j := x];
    }
  }

  /** Two lists that ask for the same flags still do with one more entry. */
  lemma FlagsExtend(l: seq<Filtered>, m: seq<Filtered>, x: Filtered, v: nat)
    requires FlagsOf(l, v) == FlagsOf(m, v)
    ensures FlagsOf(l + [x], v) == FlagsOf(m + [x], v)
  {
    assert (l + [x])[..|l|] == l && (m + [x])[..|m|] == m;
  }

  function Both(x: Option<nat>, y: Option<nat>): Option<nat> {
    if x.None? then y else if y.None? then x else Some(Or(x.value, y.value))
  }

  /** The flags of two lists together are the flags of each, or-ed. */
  lemma {:induction false} FlagsConcat(l: seq<Filtered>, m: seq<Filtered>, v: nat)
    ensures FlagsOf(l + m, v) == Both(FlagsOf(l, v), FlagsOf(m, v))
  {
    if m == [] {
      assert l + m == l;
    } else {
      var m', x := m[..|m| - 1], m[|m| - 1];
      FlagsConcat(l, m', v);
      assert (l + m)[..|l + m| - 1] == l + m' && (l + m)[|l + m| - 1] == x;
      if x.value == v && FlagsOf(l, v).Some? && FlagsOf(m', v).Some? {
        OrAssoc(FlagsOf(l, v).value, FlagsOf(m', v).value, x.flags);
      }
    }
  }

  /** `merge_filtered_sysnums`: every listed system call once, with all its flags or-ed together. */
  method MergeFilteredSysnums(sysnums: seq<Filtered>, newSysnums: seq<Filtered>) returns (r: seq<Filtered>)
    requires Distinct(sysnums)
    ensures Distinct(r)
    ensures forall v :: FlagsOf(r, v) == FlagsOf(sysnums + newSysnums, v)
  {
    r := sysnums;
    var i := 0;
    assert sysnums + newSysnums[..0] == sysnums;
    while i < |newSysnums|
      invariant i <= |newSysnums| && Distinct(r)
      invariant forall v :: FlagsOf(r, v) == FlagsOf(sysnums + newSysnums[..i], v)
    {
      ghost var before, all := r, sysnums + newSysnums[..i];
      assert sysnums + newSysnums[..i + 1] == all + [newSysnums[i]];
      r := MergeOne(r, newSysnums[i]);
      forall v ensures FlagsOf(r, v) == FlagsOf(all + [newSysnums[i]], v) {
        FlagsExtend(before, all, newSysnums[i], v);
      }
      i := i + 1;
    }
    assert newSysnums[..i] == newSysnums;
  }

  /** Search for the given number; add an entry, or merge the flags. */
  method MergeOne(sysnums: seq<Filtered>, x: Filtered) returns (r: seq<Filtered>)
    requires Distinct(sysnums)
    ensures Distinct(r)
    ensures forall v :: FlagsOf(r, v) == FlagsOf(sysnums + [x], v)
  {
    var j := 0;
    while j < |sysnums| && sysnums[j].value != x.value
      invariant j <= |sysnums| && forall k :: 0 <= k < j ==> sysnums[k].value != x.value
    {
      j := j + 1;
    }
    if j == |sysnums| {
      r := sysnums + [x];
    } else {
      r := sysnums[j := Filtered(sysnums[j].value, Or(sysnums[j].flags, x.flags))];
      assert x == Filtered(sysnums[j].value, x.flags);
      forall v ensures FlagsOf(r, v) == FlagsOf(sysnums + [x], v) {
        FlagsUpdate(sysnums, j, x.flags, v);
      }
    }
  }

  // ----- classic BPF

  datatype Field = Nr | Arch

  datatype Statement =
    | Load(field: Field)
    | JumpIfEqual(k: nat, jt: nat, jf: nat)
    | Jump(k: nat)
    | Return(k: nat)

  /** The value that a program returns, if its jumps stay inside. */
  function Run(prog: seq<Statement>, pc: nat, acc: nat, arch: nat, nr: nat): Option<nat>
    decreases |prog| - pc
  {
    if pc >= |prog| then None
    else
      match prog[pc]
      case Load(f) => Run(prog, pc + 1, if f == Arch then arch else nr, arch, nr)
      case JumpIfEqual(k, jt, jf) => Run(prog, pc + 1 + (if acc == k then jt else jf), acc, arch, nr)
      case Jump(k) => Run(prog, pc + 1 + k, acc, arch, nr)
      case Return(k) => Some(k)
  }

  /** What stands in front of a program or behind its end makes no difference. */
  lemma {:induction false} RunShift(front: seq<Statement>, prog: seq<Statement>, pc: nat, acc: nat, arch: nat, nr: nat)
    ensures Run(front + prog, |front| + pc, acc, arch, nr) == Run(prog, pc, acc, arch, nr)
    decreases |prog| - pc
  {
    if pc < |prog| {
      assert (front + prog)[|front| + pc] == prog[pc];
      match prog[pc]
      case Load(f) => RunShift(front, prog, pc + 1, if f == Arch then arch else nr, arch, nr);
      case JumpIfEqual(k, jt, jf) => RunShift(front, prog, pc + 1 + (if acc == k then jt else jf), acc, arch, nr);
      case Jump(k) => RunShift(front, prog, pc + 1 + k, acc, arch, nr);
      case Return(k) =>
    }
  }

  /** A system call number to trace, and the flags that go with it. */
  datatype Trace = Trace(nr: nat, flags: nat)

  function TraceCode(ts: seq<Trace>): (r: seq<Statement>)
    ensures |r| == LENGTH_TRACE_SYSCALL * |ts|
  {
    if ts == [] then []
    else
      var t := ts[|ts| - 1];
      TraceCode(ts[..|ts| - 1]) + [JumpIfEqual(t.nr, 0, 1), Return(SECCOMP_RET_TRACE + t.flags)]
  }

  function SectionCode(arch: nat, ts: seq<Trace>): seq<Statement> {
    [Load(Arch), JumpIfEqual(arch, 1, 0), Jump(LENGTH_END_SECTION + |ts| * LENGTH_TRACE_SYSCALL + 1), Load(Nr)]
    + TraceCode(ts) + [Return(SECCOMP_RET_ALLOW)]
  }

  datatype Section = Section(arch: nat, traces: seq<Trace>)

  function ProgramCode(ss: seq<Section>): seq<Statement> {
    if ss == [] then [Return(SECCOMP_RET_KILL)]
    else SectionCode(ss[0].arch, ss[0].traces) + ProgramCode(ss[1..])
  }

  /** What the program is meant to decide: the first entry for the number in the section of the architecture. */
  function FirstTrace(ts: seq<Trace>, nr: nat): Option<Trace> {
    if ts == [] then None else if ts[0].nr == nr then Some(ts[0]) else FirstTrace(ts[1..], nr)
  }

  function Verdict(ss: seq<Section>, arch: nat, nr: nat): nat {
    if ss == [] then SECCOMP_RET_KILL
    else if ss[0].arch == arch then
      match FirstTrace(ss[0].traces, nr)
      case None => SECCOMP_RET_ALLOW
      case Some(t) => SECCOMP_RET_TRACE + t.flags
    else Verdict(ss[1..], arch, nr)
  }

  lemma {:induction false} TraceCodeAt(ts: seq<Trace>, i: nat)
    requires i < |ts|
    ensures TraceCode(ts)[2 * i] == JumpIfEqual(ts[i].nr, 0, 1)
    ensures TraceCode(ts)[2 * i + 1] == Return(SECCOMP_RET_TRACE + ts[i].flags)
  {
    if i < |ts| - 1 {
      TraceCodeAt(ts[..|ts| - 1], i);
    }
  }

  /** The trace entries of a section from the `i`-th on, with the number in the accumulator. */
  lemma {:induction false} RunTraces(prog: seq<Statement>, ts: seq<Trace>, i: nat, start: nat, arch: nat, nr: nat)
    requires i <= |ts| && start + 2 * |ts| < |prog|
    requires prog[start..start + 2 * |ts|] == TraceCode(ts) && prog[start + 2 * |ts|] == Return(SECCOMP_RET_ALLOW)
    ensures Run(prog, start + 2 * i, nr, arch, nr) ==
            (match FirstTrace(ts[i..], nr)
             case None => Some(SECCOMP_RET_ALLOW)
             case Some(t) => Some(SECCOMP_RET_TRACE + t.flags))
    decreases |ts| - i
  {
    if i < |ts| {
      TraceCodeAt(ts, i);
      assert prog[start + 2 * i] == prog[start..start + 2 * |ts|][2 * i];
      assert prog[start + 2 * i + 1] == prog[start..start + 2 * |ts|][2 * i + 1];
      RunTraces(prog, ts, i + 1, start, arch, nr);
      assert ts[i..][1..] == ts[i + 1..] && start + 2 * (i + 1) == start + 2 * i + 2;
    }
  }

  /** The compiled program decides as meant, on every architecture and number; in particular no jump leaves it. */
  lemma {:induction false} ProgramCorrect(ss: seq<Section>, acc: nat, arch: nat, nr: nat)
    ensures Run(ProgramCode(ss), 0, acc, arch, nr) == Some(Verdict(ss, arch, nr))
  {
    if ss != [] {
      var prog, ts := ProgramCode(ss), ss[0].traces;
      var section := SectionCode(ss[0].arch, ts);
      assert prog == section + ProgramCode(ss[1..]);
      assert prog[0] == Load(Arch) && prog[1] == JumpIfEqual(ss[0].arch, 1, 0) && prog[3] == Load(Nr);
      assert prog[2] == Jump(|ts| * 2 + 2);
      if ss[0].arch == arch {
        assert prog[4..4 + 2 * |ts|] == TraceCode(ts) && prog[4 + 2 * |ts|] == Return(SECCOMP_RET_ALLOW);
        RunTraces(prog, ts, 0, 4, arch, nr);
        assert ts[0..] == ts;
        calc {
          Run(prog, 0, acc, arch, nr);
          Run(prog, 1, arch, arch, nr);
          Run(prog, 3, arch, arch, nr);
          Run(prog, 4, nr, arch, nr);
        }
      } else {
        ProgramCorrect(ss[1..], arch, arch, nr);
        RunShift(section, ProgramCode(ss[1..]), 0, arch, arch, nr);
        calc {
          Run(prog, 0, acc, arch, nr);
          Run(prog, 1, arch, arch, nr);
          Run(prog, 2, arch, arch, nr);
          Run(prog, 3 + (|ts| * 2 + 2), arch, arch, nr);
        }
        assert |section| == 3 + (|ts| * 2 + 2);
      }
    }
  }

  // ----- from lists to sections

  /** The entries of a list that an ABI has a number for, in order. */
  function AbiTraces(abi: Abi, l: seq<Filtered>): seq<Trace> {
    if l == [] then []
    else
      var x := l[|l| - 1];
      var nr := Detranslated(abi, x.value);
      AbiTraces(abi, l[..|l| - 1]) + if nr == SYSCALL_AVOIDER then [] else [Trace(nr, x.flags)]
  }

  function Traces(abis: seq<Abi>, l: seq<Filtered>): seq<Trace> {
    if abis == [] then [] else Traces(abis[..|abis| - 1], l) + AbiTraces(abis[|abis| - 1], l)
  }

  datatype Architecture = Architecture(value: nat, abis: seq<Abi>)

  function Sections(archs: seq<Architecture>, l: seq<Filtered>): (r: seq<Section>)
    ensures |r| == |archs|
  {
    if archs == [] then [] else [Section(archs[0].value, Traces(archs[0].abis, l))] + Sections(archs[1..], l)
  }

  /** `nr` is the number of the neutral system call `v` in one of the ABIs. */
  ghost predicate Names(abis: seq<Abi>, nr: nat, v: nat) {
    exists j :: 0 <= j < |abis| && Detranslated(abis[j], v) == nr
  }

  /** The ABIs of an architecture have ranges of their own. */
  ghost predicate RangesApart(abis: seq<Abi>) {
    forall i, j :: 0 <= i < j < |abis| ==>
      || abis[i].offset + |abis[i].table| <= abis[j].offset
      || abis[j].offset + |abis[j].table| <= abis[i].offset
  }

  /** Over ABIs with ranges of their own, a number stands for one system call at most. */
  lemma OneMeaning(abis: seq<Abi>, nr: nat, v: nat, w: nat)
    requires RangesApart(abis) && nr != SYSCALL_AVOIDER && Names(abis, nr, v) && Names(abis, nr, w)
    ensures v == w
  {
    var i :| 0 <= i < |abis| && Detranslated(abis[i], v) == nr;
    var j :| 0 <= j < |abis| && Detranslated(abis[j], w) == nr;
    assert i == j;
    DetranslateInjective(abis[i], v, w);
  }

  ghost predicate Explains(abis: seq<Abi>, l: seq<Filtered>, t: Trace) {
    t.nr != SYSCALL_AVOIDER && exists k :: 0 <= k < |l| && l[k].flags == t.flags && Names(abis, t.nr, l[k].value)
  }

  lemma {:induction false} AbiTraceExplained(abi: Abi, l: seq<Filtered>, t: Trace)
    requires t in AbiTraces(abi, l)
    ensures t.nr != SYSCALL_AVOIDER
    ensures exists k :: 0 <= k < |l| && l[k].flags == t.flags && Detranslated(abi, l[k].value) == t.nr
  {
    var x := l[|l| - 1];
    if t in AbiTraces(abi, l[..|l| - 1]) {
      AbiTraceExplained(abi, l[..|l| - 1], t);
      var k :| 0 <= k < |l| - 1 && l[..|l| - 1][k].flags == t.flags && Detranslated(abi, l[..|l| - 1][k].value) == t.nr;
      assert l[k].flags == t.flags;
    } else {
      assert x.flags == t.flags;
    }
  }

  /** Every trace entry stands for a listed system call. */
  lemma {:induction false} TraceExplained(abis: seq<Abi>, l: seq<Filtered>, t: Trace)
    requires t in Traces(abis, l)
    ensures Explains(abis, l, t)
  {
    var before, abi := abis[..|abis| - 1], abis[|abis| - 1];
    if t in Traces(before, l) {
      TraceExplained(before, l, t);
      var k :| 0 <= k < |l| && l[k].flags == t.flags && Names(before, t.nr, l[k].value);
      var j :| 0 <= j < |before| && Detranslated(before[j], l[k].value) == t.nr;
      assert abis[j] == before[j];
      assert Names(abis, t.nr, l[k].value);
    } else {
      AbiTraceExplained(abi, l, t);
      var k :| 0 <= k < |l| && l[k].flags == t.flags && Detranslated(abi, l[k].value) == t.nr;
      assert abis[|abis| - 1] == abi && Names(abis, t.nr, l[k].value);
    }
  }

  lemma {:induction false} AbiEntryTraced(abi: Abi, l: seq<Filtered>, k: nat)
    requires k < |l| && Detranslated(abi, l[k].value) != SYSCALL_AVOIDER
    ensures Trace(Detranslated(abi, l[k].value), l[k].flags) in AbiTraces(abi, l)
  {
    if k < |l| - 1 {
      AbiEntryTraced(abi, l[..|l| - 1], k);
    }
  }

  /** Every listed system call that an ABI has a number for has a trace entry. */
  lemma {:induction false} EntryTraced(abis: seq<Abi>, l: seq<Filtered>, j: nat, k: nat)
    requires j < |abis| && k < |l| && Detranslated(abis[j], l[k].value) != SYSCALL_AVOIDER
    ensures Trace(Detranslated(abis[j], l[k].value), l[k].flags) in Traces(abis, l)
  {
    if j < |abis| - 1 {
      EntryTraced(abis[..|abis| - 1], l, j, k);
    } else {
      AbiEntryTraced(abis[j], l, k);
    }
  }

  lemma {:induction false} FirstTraceIn(ts: seq<Trace>, nr: nat)
    ensures match FirstTrace(ts, nr)
            case Some(t) => t in ts && t.nr == nr
            case None => forall t :: t in ts ==> t.nr != nr
  {
    if ts != [] {
      FirstTraceIn(ts[1..], nr);
    }
  }

  /** A number is traced with the flags of the one listed system call it stands for, or not traced when it
      stands for none. */
  lemma TraceMeaning(abis: seq<Abi>, l: seq<Filtered>, nr: nat, v: nat)
    requires RangesApart(abis) && Distinct(l) && nr != SYSCALL_AVOIDER && Names(abis, nr, v)
    ensures match FirstTrace(Traces(abis, l), nr)
            case Some(t) => FlagsOf(l, v) == Some(t.flags)
            case None => FlagsOf(l, v) == None
  {
    var ts := Traces(abis, l);
    FirstTraceIn(ts, nr);
    FlagsListed(l, v);
    match FirstTrace(ts, nr)
    case Some(t) =>
      TraceExplained(abis, l, t);
      var k :| 0 <= k < |l| && l[k].flags == t.flags && Names(abis, t.nr, l[k].value);
      OneMeaning(abis, nr, v, l[k].value);
      FlagsDistinct(l, k);
    case None =>
      if Listed(l, v) {
        var k :| 0 <= k < |l| && l[k].value == v;
        var j :| 0 <= j < |abis| && Detranslated(abis[j], v) == nr;
        EntryTraced(abis, l, j, k);
      }
  }

  lemma NotTraced(abis: seq<Abi>, l: seq<Filtered>, nr: nat)
    requires forall k :: 0 <= k < |l| ==> !Names(abis, nr, l[k].value)
    ensures FirstTrace(Traces(abis, l), nr) == None
  {
    var ts := Traces(abis, l);
    FirstTraceIn(ts, nr);
    if FirstTrace(ts, nr).Some? {
      TraceExplained(abis, l, FirstTrace(ts, nr).value);
    }
  }

  lemma {:induction false} SectionOf(archs: seq<Architecture>, l: seq<Filtered>, i: nat, nr: nat)
    requires i < |archs| && forall j :: 0 <= j < i ==> archs[j].value != archs[i].value
    ensures Verdict(Sections(archs, l), archs[i].value, nr) ==
            (match FirstTrace(Traces(archs[i].abis, l), nr)
             case None => SECCOMP_RET_ALLOW
             case Some(t) => SECCOMP_RET_TRACE + t.flags)
  {
    if i > 0 {
      assert archs[0].value != archs[i].value;
      SectionOf(archs[1..], l, i - 1, nr);
    }
  }

  lemma {:induction false} UnknownArch(archs: seq<Architecture>, l: seq<Filtered>, arch: nat, nr: nat)
    requires forall j :: 0 <= j < |archs| ==> archs[j].value != arch
    ensures Verdict(Sections(archs, l), arch, nr) == SECCOMP_RET_KILL
  {
    if archs != [] {
      assert archs[0].value != arch;
      UnknownArch(archs[1..], l, arch, nr);
    }
  }

  /** The verdict for a number that stands for the neutral system call `v`. */
  function Expected(l: seq<Filtered>, v: nat): nat {
    match FlagsOf(l, v)
    case Some(flags) => 0x7ff0_0000 + flags
    case None => 0x7fff_0000
  }

  /** `nr` stands for the system call `v`: the table of an ABI has it there, and not before. */
  ghost predicate StandsFor(abis: seq<Abi>, nr: nat, v: nat) {
    v != 0 && exists j {:trigger abis[j]} :: 0 <= j < |abis| && IsEntry(abis[j], nr, v)
  }

  ghost predicate IsEntry(abi: Abi, nr: nat, v: nat) {
    && abi.offset <= nr < abi.offset + |abi.table| && abi.table[nr - abi.offset] == v
    && v !in abi.table[..nr - abi.offset]
  }

  lemma EntryIs(abi: Abi, nr: nat, v: nat)
    requires nr != SYSCALL_AVOIDER
    ensures Detranslated(abi, v) == nr <==> v != 0 && IsEntry(abi, nr, v)
  {
    var i := IndexOf(abi.table, v);
    if i < |abi.table| && nr >= abi.offset && nr - abi.offset < |abi.table| {
      FirstPlace(abi.table, v, nr - abi.offset);
    }
  }

  lemma NamesStands(abis: seq<Abi>, nr: nat, v: nat)
    requires nr != SYSCALL_AVOIDER
    ensures Names(abis, nr, v) <==> StandsFor(abis, nr, v)
  {
    forall j | 0 <= j < |abis| ensures Detranslated(abis[j], v) == nr <==> v != 0 && IsEntry(abis[j], nr, v) {
      EntryIs(abis[j], nr, v);
    }
  }

  /** The filter as a whole, on the architecture of the `i`-th section: a number that stands for a listed system call
      is traced with all its flags, any other one is let through. */
  lemma FilterDecides(archs: seq<Architecture>, l: seq<Filtered>, acc: nat, i: nat, nr: nat)
    requires Distinct(l) && nr != SYSCALL_AVOIDER && i < |archs| && RangesApart(archs[i].abis)
    requires forall j :: 0 <= j < i ==> archs[j].value != archs[i].value
    ensures var r := Run(ProgramCode(Sections(archs, l)), 0, acc, archs[i].value, nr);
            && (forall v :: StandsFor(archs[i].abis, nr, v) ==> r == Some(Expected(l, v)))
            && ((forall v :: !StandsFor(archs[i].abis, nr, v)) ==> r == Some(0x7fff_0000))
  {
    hide StandsFor, Names;
    forall v ensures Names(archs[i].abis, nr, v) <==> StandsFor(archs[i].abis, nr, v) {
      NamesStands(archs[i].abis, nr, v);
    }
    ProgramCorrect(Sections(archs, l), acc, archs[i].value, nr);
    SectionOf(archs, l, i, nr);
    forall v | Names(archs[i].abis, nr, v)
      ensures Verdict(Sections(archs, l), archs[i].value, nr) == Expected(l, v)
    {
      TraceMeaning(archs[i].abis, l, nr, v);
    }
    if forall v :: !Names(archs[i].abis, nr, v) {
      NotTraced(archs[i].abis, l, nr);
    }
  }

  /** On any other architecture the filter kills. */
  lemma FilterKills(archs: seq<Architecture>, l: seq<Filtered>, acc: nat, arch: nat, nr: nat)
    requires forall j :: 0 <= j < |archs| ==> archs[j].value != arch
    ensures Run(ProgramCode(Sections(archs, l)), 0, acc, arch, nr) == Some(0)
  {
    ProgramCorrect(Sections(archs, l), acc, arch, nr);
    UnknownArch(archs, l, arch, nr);
  }

  // ----- the compiler

  datatype Status = Success | OutOfRange

  /** `struct sock_fprog` */
  class Program {
    var filter: seq<Statement>
    var len: nat

    constructor ()
      ensures filter == [] && len == 0
    {
      filter, len := [], 0;
    }

    /** `add_statements` */
    method AddStatements(statements: seq<Statement>)
      modifies `filter
      ensures filter == old(filter) + statements
    {
      var i := 0;
      while i < |statements|
        invariant i <= |statements| && filter == old(filter) + statements[..i]
      {
        filter := filter + [statements[i]];
        i := i + 1;
      }
      assert statements[..i] == statements;
    }

    /** `add_trace_syscall` */
    method AddTraceSyscall(syscall: nat, flag: nat) returns (status: Status)
      modifies `filter
      ensures status == OutOfRange <==> syscall > UINT32_MAX
      ensures status == Success ==>
                filter == old(filter) + [JumpIfEqual(syscall, 0, 1), Return(SECCOMP_RET_TRACE + flag)]
    {
      if syscall > UINT32_MAX {
        return OutOfRange;
      }
      AddStatements([JumpIfEqual(syscall, 0, 1), Return(SECCOMP_RET_TRACE + flag)]);
      return Success;
    }

    /** `start_arch_section` */
    method StartArchSection(arch: nat, nbTracedSyscalls: nat) returns (status: Status)
      modifies this
      ensures status == OutOfRange <==>
              LENGTH_END_SECTION + nbTracedSyscalls * LENGTH_TRACE_SYSCALL > UINT32_MAX - 1
      ensures status == Success ==>
                && len == |filter| % LEN_RANGE
                && filter == old(filter) + [Load(Arch), JumpIfEqual(arch, 1, 0),
                     Jump(LENGTH_END_SECTION + nbTracedSyscalls * LENGTH_TRACE_SYSCALL + 1), Load(Nr)]
    {
      var sectionLength := LENGTH_END_SECTION + nbTracedSyscalls * LENGTH_TRACE_SYSCALL;
      if sectionLength > UINT32_MAX - 1 {
        return OutOfRange;
      }
      AddStatements([Load(Arch), JumpIfEqual(arch, 1, 0), Jump(sectionLength + 1), Load(Nr)]);
      len := |filter| % LEN_RANGE;
      return Success;
    }

    /** `end_arch_section` */
    method EndArchSection(nbTracedSyscalls: nat) returns (status: Status)
      modifies `filter
      ensures filter == old(filter) + [Return(SECCOMP_RET_ALLOW)]
      ensures status == Success <==> |filter| - len == LENGTH_END_SECTION + nbTracedSyscalls * LENGTH_TRACE_SYSCALL
    {
      AddStatements([Return(SECCOMP_RET_ALLOW)]);
      if |filter| - len != LENGTH_END_SECTION + nbTracedSyscalls * LENGTH_TRACE_SYSCALL {
        return OutOfRange;
      }
      return Success;
    }

    /** `finalize_program_filter` */
    method Finalize()
      modifies this
      ensures filter == old(filter) + [Return(SECCOMP_RET_KILL)] && len == |filter| % LEN_RANGE
    {
      AddStatements([Return(SECCOMP_RET_KILL)]);
      len := |filter| % LEN_RANGE;
    }

    /** The traced system calls of one ABI. */
    method AddAbiTraces(abi: Abi, sysnums: seq<Filtered>) returns (status: Status)
      modifies `filter
      ensures status == Success <==> InRange(AbiTraces(abi, sysnums))
      ensures status == Success ==> filter == old(filter) + TraceCode(AbiTraces(abi, sysnums))
    {
      var k := 0;
      ghost var ts := AbiTraces(abi, sysnums[..0]);
      while k < |sysnums|
        invariant k <= |sysnums| && ts == AbiTraces(abi, sysnums[..k]) && InRange(ts)
        invariant filter == old(filter) + TraceCode(ts)
      {
        var syscall := DetranslateSysnum(abi, sysnums[k].value);
        AbiTracesStep(abi, sysnums, k);
        if syscall != SYSCALL_AVOIDER {
          status := AddTraceSyscall(syscall, sysnums[k].flags);
          if status != Success {
            AbiEntryTraced(abi, sysnums, k);
            return;
          }
        }
        k := k + 1;
        ts := AbiTraces(abi, sysnums[..k]);
      }
      assert sysnums[..k] == sysnums;
      status := Success;
    }

    /** The traced system calls of all ABIs of an architecture. */
    method AddTraces(abis: seq<Abi>, sysnums: seq<Filtered>) returns (status: Status)
      modifies `filter
      ensures status == Success <==> InRange(Traces(abis, sysnums))
      ensures status == Success ==> filter == old(filter) + TraceCode(Traces(abis, sysnums))
    {
      hide Detranslated, TraceCode, AbiTraces;
      var j := 0;
      while j < |abis|
        invariant j <= |abis| && InRange(Traces(abis[..j], sysnums))
        invariant filter == old(filter) + TraceCode(Traces(abis[..j], sysnums))
      {
        ghost var ts := Traces(abis[..j], sysnums);
        assert abis[..j + 1][..j] == abis[..j];
        status := AddAbiTraces(abis[j], sysnums);
        if status != Success {
          AbiTracesIncluded(abis, sysnums, j);
          return;
        }
        TraceCodeConcat(ts, AbiTraces(abis[j], sysnums));
        j := j + 1;
      }
      assert abis[..j] == abis;
      status := Success;
    }
  }

  lemma AbiTracesStep(abi: Abi, l: seq<Filtered>, k: nat)
    requires k < |l|
    ensures var ts, nr := AbiTraces(abi, l[..k]), Detranslated(abi, l[k].value);
            if nr == SYSCALL_AVOIDER then AbiTraces(abi, l[..k + 1]) == ts
            else
              && AbiTraces(abi, l[..k + 1]) == ts + [Trace(nr, l[k].flags)]
              && TraceCode(AbiTraces(abi, l[..k + 1])) ==
                 TraceCode(ts) + [JumpIfEqual(nr, 0, 1), Return(SECCOMP_RET_TRACE + l[k].flags)]
  {
    assert l[..k + 1][..k] == l[..k];
    var ts, t := AbiTraces(abi, l[..k]), Trace(Detranslated(abi, l[k].value), l[k].flags);
    assert (ts + [t])[..|ts|] == ts;
  }

  /** The BPF program compares 32-bit numbers. */
  ghost predicate InRange(ts: seq<Trace>) {
    forall t :: t in ts ==> t.nr <= UINT32_MAX
  }

  lemma {:induction false} AbiTracesIncluded(abis: seq<Abi>, l: seq<Filtered>, j: nat)
    requires j < |abis|
    ensures InRange(Traces(abis, l)) ==> InRange(AbiTraces(abis[j], l))
  {
    if j < |abis| - 1 {
      AbiTracesIncluded(abis[..|abis| - 1], l, j);
    }
  }

  lemma {:induction false} TraceCodeConcat(a: seq<Trace>, b: seq<Trace>)
    ensures TraceCode(a + b) == TraceCode(a) + TraceCode(b)
  {
    if b == [] {
      assert a + b == a;
    } else {
      assert (a + b)[..|a + b| - 1] == a + b[..|b| - 1];
      TraceCodeConcat(a, b[..|b| - 1]);
    }
  }

  /** The pre-computed number of traced system calls of an architecture. */
  method CountTraced(abis: seq<Abi>, sysnums: seq<Filtered>) returns (n: nat)
    ensures n == |Traces(abis, sysnums)|
  {
    n := 0;
    var j := 0;
    while j < |abis|
      invariant j <= |abis| && n == |Traces(abis[..j], sysnums)|
    {
      var k := 0;
      while k < |sysnums|
        invariant k <= |sysnums| && n == |Traces(abis[..j], sysnums)| + |AbiTraces(abis[j], sysnums[..k])|
      {
        var syscall := DetranslateSysnum(abis[j], sysnums[k].value);
        assert sysnums[..k + 1][..k] == sysnums[..k];
        if syscall != SYSCALL_AVOIDER {
          n := n + 1;
        }
        k := k + 1;
      }
      assert sysnums[..k] == sysnums && abis[..j + 1][..j] == abis[..j];
      j := j + 1;
    }
    assert abis[..j] == abis;
  }

  /** The sections that come before the final statement. */
  function SectionsCode(ss: seq<Section>): seq<Statement> {
    if ss == [] then []
    else SectionsCode(ss[..|ss| - 1]) + SectionCode(ss[|ss| - 1].arch, ss[|ss| - 1].traces)
  }

  lemma {:induction false} ProgramIsSections(ss: seq<Section>)
    ensures ProgramCode(ss) == SectionsCode(ss) + [Return(SECCOMP_RET_KILL)]
  {
    if ss != [] {
      ProgramIsSections(ss[1..]);
      FirstSection(ss);
    }
  }

  lemma {:induction false} FirstSection(ss: seq<Section>)
    requires ss != []
    ensures SectionsCode(ss) == SectionCode(ss[0].arch, ss[0].traces) + SectionsCode(ss[1..])
  {
    if |ss| > 1 {
      FirstSection(ss[..|ss| - 1]);
      assert ss[..|ss| - 1][1..] == ss[1..][..|ss| - 2];
    }
  }

  lemma {:induction false} SectionsSnoc(archs: seq<Architecture>, a: Architecture, l: seq<Filtered>)
    ensures Sections(archs + [a], l) == Sections(archs, l) + [Section(a.value, Traces(a.abis, l))]
  {
    if archs != [] {
      SectionsSnoc(archs[1..], a, l);
      assert (archs + [a])[1..] == archs[1..] + [a];
    }
  }

  /** The program that the compiler is after, and when nothing stands in its way. */
  function WholeProgram(archs: seq<Architecture>, l: seq<Filtered>): seq<Statement> {
    ProgramCode(Sections(archs, l))
  }

  /** A section can be compiled behind this many statements: its numbers have 32 bits, as has the jump over it, and
      the length field can still count the statements up to its head. */
  ghost predicate SectionCompiles(before: nat, ts: seq<Trace>) {
    before + 4 < 0x1_0000 && 1 + 2 * |ts| < 0xFFFF_FFFF && InRange(ts)
  }

  ghost predicate Compiles(archs: seq<Architecture>, l: seq<Filtered>, i: nat)
    requires i < |archs|
  {
    SectionCompiles(|SectionsCode(Sections(archs[..i], l))|, Traces(archs[i].abis, l))
  }

  /** `set_seccomp_filters`, up to the system calls that install the program.  It succeeds exactly if each section
      can be compiled.  Then the filter is the program for the list; its length field is right exactly if the length
      fits in 16 bits. */
  method SetSeccompFilters(archs: seq<Architecture>, sysnums: seq<Filtered>) returns (status: Status, program: Program)
    ensures status == Success ==>
              && program.filter == WholeProgram(archs, sysnums)
              && (program.len == |program.filter| <==> |program.filter| < LEN_RANGE)
    ensures status == Success <==> forall i :: 0 <= i < |archs| ==> Compiles(archs, sysnums, i)
  {
    hide Traces, SectionCode, ProgramCode, SectionCompiles;
    program := new Program();
    var i := 0;
    assert archs[..0] == [];
    while i < |archs|
      invariant i <= |archs| && fresh(program)
      invariant program.filter == SectionsCode(Sections(archs[..i], sysnums))
      invariant forall j :: 0 <= j < i ==> Compiles(archs, sysnums, j)
    {
      var nbTracedSyscalls := CountTraced(archs[i].abis, sysnums);
      status := AddSection(program, archs[i], sysnums, nbTracedSyscalls);
      assert status == Success <==> Compiles(archs, sysnums, i);
      if status != Success {
        return;
      }
      SectionsStep(archs, sysnums, i);
      i := i + 1;
    }
    assert archs[..i] == archs;
    program.Finalize();
    ProgramIsSections(Sections(archs, sysnums));
    status := Success;
  }

  method AddSection(program: Program, arch: Architecture, sysnums: seq<Filtered>, nbTracedSyscalls: nat)
    returns (status: Status)
    requires nbTracedSyscalls == |Traces(arch.abis, sysnums)|
    modifies program
    ensures status == Success ==>
              program.filter == old(program.filter) + SectionCode(arch.value, Traces(arch.abis, sysnums))
    ensures status == Success <==> SectionCompiles(|old(program.filter)|, Traces(arch.abis, sysnums))
  {
    status := program.StartArchSection(arch.value, nbTracedSyscalls);
    if status != Success {
      return;
    }
    status := program.AddTraces(arch.abis, sysnums);
    if status != Success {
      return;
    }
    status := program.EndArchSection(nbTracedSyscalls);
  }

  lemma SectionsStep(archs: seq<Architecture>, l: seq<Filtered>, i: nat)
    requires i < |archs|
    ensures SectionsCode(Sections(archs[..i + 1], l)) ==
            SectionsCode(Sections(archs[..i], l)) + SectionCode(archs[i].value, Traces(archs[i].abis, l))
  {
    var ss, s := Sections(archs[..i], l), Section(archs[i].value, Traces(archs[i].abis, l));
    assert archs[..i + 1] == archs[..i] + [archs[i]];
    SectionsSnoc(archs[..i], archs[i], l);
    assert (ss + [s])[..|ss|] == ss;
  }
}
