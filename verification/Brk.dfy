/** The emulation of brk(2): a heap that is a mapping of its own, resized with mremap(2).  The first page of
    the mapping is left out, for a heap can be empty and a mapping cannot. */
module Brk {
  const PAGE: nat := 0x1000
  const WORD_RANGE: nat := 0x1_0000_0000_0000_0000
  const INT_RANGE: nat := 0x1_0000_0000
  const PROT_READ: nat := 1
  const PROT_WRITE: nat := 2
  const MAP_PRIVATE: nat := 0x02
  const MAP_ANONYMOUS: nat := 0x20
  const MREMAP_MAYMOVE: nat := 1

  function PageUp(x: nat): (r: nat)
    ensures x <= r < x + PAGE
  {
    (x + PAGE - 1) / PAGE * PAGE
  }

  // ----- the kernel

  /** The system call that is made in place of brk. */
  datatype Call =
    | Void
    | Mmap(address: nat, length: nat, prot: nat, flags: nat)
    | Mremap(oldAddress: nat, oldSize: nat, newSize: nat, flags: nat)
    | Brk(address: nat)

  datatype Mapping = NoMapping | Mapping(start: nat, length: nat, prot: nat)

  predicate IsPlace(address: nat, length: nat) {
    0 < address && address % PAGE == 0 && address + PageUp(length) < WORD_RANGE
  }

  /** The results that stand for an error. */
  predicate IsErrno(result: nat) {
    WORD_RANGE - PAGE < result < WORD_RANGE
  }

  predicate HasFlag(flags: nat, flag: nat)
    requires flag > 0
  {
    flags / flag % 2 == 1
  }

  /** What the kernel may do.  There is no file to map, so that only an anonymous mapping is made; without
      MREMAP_MAYMOVE a mapping keeps its place, and the old range has to be the mapping's.  A new mapping is put
      where it is asked for if that is one of the places that are `free`. */
  ghost predicate KernelStep(k: Mapping, call: Call, result: nat, k': Mapping, free: set<nat>) {
    match call
    case Void => k' == k
    case Brk(_) => k' == k && result < WORD_RANGE
    case Mmap(address, length, prot, flags) =>
      || (IsErrno(result) && k' == k)
      || (HasFlag(flags, MAP_ANONYMOUS) && IsPlace(result, length) && k' == Mapping(result, PageUp(length), prot)
          && (address in free ==> result == address))
    case Mremap(oldAddress, oldSize, newSize, flags) =>
      || (IsErrno(result) && k' == k)
      || (k.Mapping? && k.start == oldAddress && k.length == PageUp(oldSize) && IsPlace(result, newSize)
          && (result == oldAddress || HasFlag(flags, MREMAP_MAYMOVE)) && k' == Mapping(result, PageUp(newSize), k.prot))
  }

  // ----- the emulation

  /** `(int) result` */
  function ToInt(result: nat): int {
    var low := result % INT_RANGE;
    if low >= INT_RANGE / 2 then low - INT_RANGE else low
  }

  predicate ReadsAsErrno(result: nat) {
    -(PAGE as int) < ToInt(result) < 0
  }

  /** Cutting the result down to an int neither hides an error nor takes a page address for one. */
  lemma ErrnoTest(result: nat)
    ensures IsErrno(result) ==> ReadsAsErrno(result)
    ensures result % PAGE == 0 ==> !ReadsAsErrno(result)
  {
    var low := result % INT_RANGE;
    assert INT_RANGE == 0x10_0000 * PAGE;
    if result % PAGE == 0 {
      LowAligned(result);
    }
    if IsErrno(result) {
      assert result - (WORD_RANGE - INT_RANGE) < INT_RANGE;
      assert result == (INT_RANGE - 1) * INT_RANGE + (result - (WORD_RANGE - INT_RANGE));
    }
  }

  lemma LowAligned(result: nat)
    requires result % PAGE == 0
    ensures (result % INT_RANGE) % PAGE == 0
  {
    var n := result / PAGE;
    assert result == n * PAGE;
    assert result == (n / 0x10_0000) * INT_RANGE + (n % 0x10_0000) * PAGE;
    assert result % INT_RANGE == (n % 0x10_0000) * PAGE;
  }

  datatype State = State(base: nat, size: nat, disabled: bool)

  function Break(s: State): nat {
    s.base + s.size
  }

  /** `translate_brk_enter`: which call is made for a request, `bss` being the end of the program's image. */
  function CallFor(s: State, request: nat, bss: nat): Call
    requires s.base == 0 || s.base >= PAGE
  {
    if s.disabled then Brk(request)
    else if s.base == 0 then 
      if request != 0 then Brk(request) else Mmap(bss, PAGE, PROT_READ + PROT_WRITE, MAP_PRIVATE + MAP_ANONYMOUS)
    else if request < s.base then Void
    else Mremap(s.base - PAGE, s.size + PAGE, request - s.base + PAGE, 0)
  }

  /** `translate_brk_exit`: the new state, and what the program gets to see. */
  function Answer(s: State, request: nat, call: Call, result: nat): (State, nat)
    requires call.Mremap? ==> call.newSize >= PAGE
  {
    if s.disabled then (s, result)
    else
      match call
      case Void => (s, Break(s))
      case Mmap(_, _, _, _) =>
        if ReadsAsErrno(result) then (s, 0)
        else (State(result + PAGE, 0, false), result + PAGE)
      case Mremap(_, _, newSize, _) =>
        if ReadsAsErrno(result) || s.base != result + PAGE then (s, Break(s))
        else (s.(size := newSize - PAGE), s.base + newSize - PAGE)
      case Brk(_) => (if result == request then s.(disabled := true) else s, result)
  }

  class Heap {
    var base: nat
    var size: nat
    var disabled: bool
    var call: Call      // the system call registers between the two stages

    ghost function View(): State
      reads this
    {
      State(base, size, disabled)
    }

    constructor ()
      ensures View() == State(0, 0, false)
    {
      base, size, disabled, call := 0, 0, false, Void;
    }

    /** The enter stage.  A disabled emulation leaves the call alone; a first brk(0) asks for one page of private
        memory behind the image.  Once there is a heap, the kernel is asked to resize exactly the mapping `k` that it
        has, to the pages that the requested heap and the first page take, or not at all. */
    method TranslateBrkEnter(newBrkAddress: nat, bss: nat, ghost k: Mapping)
      requires Inv(View(), k) && newBrkAddress < WORD_RANGE
      modifies `call
      ensures call == CallFor(View(), newBrkAddress, bss)
      ensures base != 0 && newBrkAddress >= base ==>
                && call.Mremap? && k.Mapping? && k.start == call.oldAddress && k.length == PageUp(call.oldSize)
                && k.start + call.newSize == newBrkAddress && call.newSize >= PAGE
      ensures base != 0 && newBrkAddress < base ==> call == Void
      ensures disabled || (base == 0 && newBrkAddress != 0) ==> call == Brk(newBrkAddress)
      ensures !disabled && base == 0 && newBrkAddress == 0 ==> call == Mmap(bss, 0x1000, 1 + 2, 0x02 + 0x20)
    {
      call := Brk(newBrkAddress);
      if disabled {
        return;
      }
      if base == 0 {
        if newBrkAddress != 0 {
          return;
        }
        call := Mmap(bss, PAGE, PROT_READ + PROT_WRITE, MAP_PRIVATE + MAP_ANONYMOUS);
        return;
      }
      if newBrkAddress < base {
        call := Void;
        return;
      }
      var newHeapSize, oldHeapSize := newBrkAddress - base, size;
      call := Mremap(base - PAGE, oldHeapSize + PAGE, newHeapSize + PAGE, 0);
    }

    /** The exit stage, with the result register from the kernel, whose mapping became `k'`.  A heap keeps its
        base and its mapping, and the program sees the break that it asked for, or the one from before. */
    method TranslateBrkExit(result: nat, request: nat, ghost bss: nat, ghost k: Mapping, ghost k': Mapping,
                            ghost free: set<nat>) returns (answer: nat)
      requires Inv(View(), k) && request < WORD_RANGE
      requires call == CallFor(View(), request, bss) && KernelStep(k, call, result, k', free)
      modifies `base, `size, `disabled
      ensures (View(), answer) == Answer(old(View()), request, call, result)
      ensures Inv(View(), k')
      ensures old(base) != 0 ==>
                && base == old(base) && answer == Break(View())
                && answer == if request >= base && !IsErrno(result) then request else old(Break(View()))
      ensures old(base) == 0 && base != 0 ==> answer == base && size == 0
    {
      ghost var s' := Answer(View(), request, call, result).0;
      StepInv(View(), k, Event(request, bss, result, free), s', k', Answer(View(), request, call, result).1);
      if base != 0 {
        RefinesBrk(View(), k, Event(request, bss, result, free), s', k', Answer(View(), request, call, result).1);
      }
      answer := result;
      if disabled {
        return;
      }
      match call {
        case Void =>
          answer := base + size;
        case Mmap(_, _, _, _) =>
          if ToInt(result) < 0 && ToInt(result) > -(PAGE as int) {
            return 0;
          }
          base := result + PAGE;
          size := 0;
          answer := base + size;
        case Mremap(_, _, newSize, _) =>
          if (ToInt(result) < 0 && ToInt(result) > -(PAGE as int)) || base != result + PAGE {
            return base + size;
          }
          size := newSize - PAGE;
          answer := base + size;
        case Brk(_) =>
          if result == request {
            disabled := true;
          }
      }
    }
  }

  // ----- the invariant

  /** The kernel's mapping is what the next mremap takes it to be: one page, then the heap, to read and write. */
  ghost predicate Inv(s: State, k: Mapping) {
    if s.base == 0 then s.size == 0 && k == NoMapping
    else
      && s.base > PAGE && (s.base - PAGE) % PAGE == 0 && !s.disabled
      && k == Mapping(s.base - PAGE, PageUp(s.size + PAGE), 1 + 2) && s.base - PAGE + PageUp(s.size + PAGE) < WORD_RANGE
  }

  /** One brk: request, what the kernel did, and what came of it. */
  datatype Event = Event(request: nat, bss: nat, result: nat, free: set<nat>)

  ghost predicate Step(s: State, k: Mapping, e: Event, s': State, k': Mapping, answer: nat) {
    && e.request < WORD_RANGE && (s.base == 0 || s.base >= PAGE)
    && KernelStep(k, CallFor(s, e.request, e.bss), e.result, k', e.free)
    && (s', answer) == Answer(s, e.request, CallFor(s, e.request, e.bss), e.result)
  }

  lemma StepInv(s: State, k: Mapping, e: Event, s': State, k': Mapping, answer: nat)
    requires Inv(s, k) && Step(s, k, e, s', k', answer)
    ensures Inv(s', k')
  {
    ErrnoTest(e.result);
    assert PageUp(PAGE) == PAGE;
  }

  /** The request to resize always names the kernel's mapping, and neither size wraps around. */
  lemma ResizeIsWellFormed(s: State, k: Mapping, request: nat, bss: nat)
    requires Inv(s, k) && request < WORD_RANGE && s.base != 0 && request >= s.base
    ensures var c := CallFor(s, request, bss);
            && c.Mremap? && k.Mapping? && k.start == c.oldAddress && k.length == PageUp(c.oldSize)
            && c.newSize < WORD_RANGE && PAGE <= c.newSize
  {
  }

  /** This is brk: once there is a heap its base stays, and a call gives the requested break, exactly if the
      kernel agreed to it, or else leaves the break where it was. */
  lemma RefinesBrk(s: State, k: Mapping, e: Event, s': State, k': Mapping, answer: nat)
    requires Inv(s, k) && Step(s, k, e, s', k', answer) && s.base != 0
    ensures s'.base == s.base && !s'.disabled && answer == Break(s')
    ensures Break(s') == if e.request >= s.base && !IsErrno(e.result) then e.request else Break(s)
  {
    ErrnoTest(e.result);
  }

  /** Before that, a first brk(0) sets the heap up, one page behind the image if that is free, or reports no heap;
      a first brk with an address is left to the kernel, and if that agrees, so are all later ones. */
  lemma FirstBrk(s: State, k: Mapping, e: Event, s': State, k': Mapping, answer: nat)
    requires Inv(s, k) && Step(s, k, e, s', k', answer) && s.base == 0
    ensures !s.disabled && e.request == 0 ==>
              && (IsErrno(e.result) ==> s' == s && answer == 0)
              && (!IsErrno(e.result) ==>
                    && s'.size == 0 && answer == Break(s') == e.result + 0x1000 && k' == Mapping(e.result, 0x1000, 1 + 2)
                    && (e.bss in e.free ==> answer == e.bss + 0x1000))
    ensures s.disabled || e.request != 0 ==> answer == e.result && s' == s.(disabled := s.disabled || e.result == e.request)
  {
    ErrnoTest(e.result);
  }

  // ----- whole runs

  ghost predicate IsRun(ss: seq<State>, ks: seq<Mapping>, es: seq<Event>, answers: seq<nat>) {
    && |ss| == |ks| == |es| + 1 && |answers| == |es| && ss[0] == State(0, 0, false) && ks[0] == NoMapping
    && forall i {:trigger es[i]} :: 0 <= i < |es| ==> Step(ss[i], ks[i], es[i], ss[i + 1], ks[i + 1], answers[i])
  }

  lemma {:induction false} RunInv(ss: seq<State>, ks: seq<Mapping>, es: seq<Event>, answers: seq<nat>, i: nat)
    requires IsRun(ss, ks, es, answers) && i < |ss|
    ensures Inv(ss[i], ks[i])
  {
    if i > 0 {
      RunInv(ss, ks, es, answers, i - 1);
      assert es[i - 1] == es[i - 1];
      StepInv(ss[i - 1], ks[i - 1], es[i - 1], ss[i], ks[i], answers[i - 1]);
    }
  }

  /** Over every run the base never moves once it is set, and the mapping always fits the heap. */
  lemma {:induction false} BaseNeverMoves(ss: seq<State>, ks: seq<Mapping>, es: seq<Event>, answers: seq<nat>, i: nat,
                                          j: nat)
    requires IsRun(ss, ks, es, answers) && i <= j < |ss| && ss[i].base != 0
    ensures ss[j].base == ss[i].base
    ensures ss[j].base >= PAGE && ks[j] == Mapping(ss[j].base - PAGE, PageUp(ss[j].size + PAGE), 1 + 2)
  {
    RunInv(ss, ks, es, answers, j);
    if i < j {
      BaseNeverMoves(ss, ks, es, answers, i, j - 1);
      RunInv(ss, ks, es, answers, j - 1);
      assert es[j - 1] == es[j - 1];
      RefinesBrk(ss[j - 1], ks[j - 1], es[j - 1], ss[j], ks[j], answers[j - 1]);
    }
  }
}
