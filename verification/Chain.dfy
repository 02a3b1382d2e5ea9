/** Chained system calls: after the call that a tracee asked for, others are issued in its name, one per pass
    through the sysenter and sysexit stages, before it gets to see a result. */
module Chain {
  const SYSCALL_AVOIDER: nat := 0xFFFF_FFFF_FFFF_FFFE
  const PR_BRK: nat := 12
  const MINUS_ONE: nat := 0xFFFF_FFFF_FFFF_FFFF
  const SYSTRAP_SIZE: nat := 2

  datatype Call = Call(sysnum: nat, args: seq<nat>)

  datatype Queue = NoQueue | Queue(calls: seq<Call>)

  datatype Workaround = Inactive | ProcessFaultyCall | ProcessReplacedCall

  /** The chain and the registers of a tracee.  Three histories go with them: the calls that were registered,
      those taken off the queue, and those that the kernel was made to run. */
  datatype State = State(
    syscalls: Queue, forceFinalResult: bool, finalResult: nat, workaround: Workaround, restoreOriginalRegs: bool,
    current: Call, original: Call, result: nat, ip: nat,
    registered: seq<Call>, taken: seq<Call>, issued: seq<Call>)

  /** What an extension may do to the arguments of a chained call. */
  datatype Edit = Keep | Replace(args: seq<nat>)

  /** What the handlers and the kernel do at the enter stage: the translated call and the calls they register,
      or the edit of a chained call, and whether the registers can be written with another number. */
  datatype Enter = Enter(translated: Call, register: seq<Call>, edit: Edit, pushFails: bool)

  datatype Force = NoForce | Force(result: nat)

  /** At the exit stage: the result, the calls registered by then, and a result to force at the end. */
  datatype Exit = Exit(result: nat, register: seq<Call>, force: Force)

  function Append(q: Queue, calls: seq<Call>): Queue {
    if calls == [] then q else Queue((if q.NoQueue? then [] else q.calls) + calls)
  }

  function Register(s: State, calls: seq<Call>): State {
    s.(syscalls := Append(s.syscalls, calls), registered := s.registered + calls)
  }

  /** Arguments that make a call fail; for brk, that make it harmless. */
  function FaultyCall(sysnum: nat): Call {
    Call(sysnum, if sysnum == PR_BRK then [0, MINUS_ONE, MINUS_ONE, MINUS_ONE, MINUS_ONE, MINUS_ONE]
                 else [MINUS_ONE, MINUS_ONE, MINUS_ONE, MINUS_ONE, MINUS_ONE, MINUS_ONE])
  }

  function Edited(call: Call, edit: Edit): Call {
    if edit.Keep? then call else Call(call.sysnum, edit.args)
  }

  /** The first half of the enter stage of `translate_syscall`: a call that the tracee asked for is translated;
      a chained one is shown to the extensions, unless it replaces a faulty call. */
  function Translated(s: State, e: Enter): State {
    var t := s.(restoreOriginalRegs := false, ip := s.ip + SYSTRAP_SIZE);
    if s.syscalls.NoQueue? then Register(t.(original := s.current, current := e.translated), e.register)
    else if s.workaround != ProcessReplacedCall then t.(current := Edited(s.current, e.edit))
    else t
  }

  ghost predicate CannotPush(s: State, e: Enter) {
    s.syscalls.NoQueue? && e.pushFails && s.original.sysnum != s.current.sysnum
  }

  /** The second half pushes the registers.  When the number of the call cannot be changed, the kernel gets to
      run a faulty call, and the real one is put in front of the chain. */
  ghost function Pushed(s: State, e: Enter): State {
    if !CannotPush(s, e) then s.(issued := s.issued + [s.current])
    else
      var faulty := FaultyCall(s.original.sysnum);
      var t := s.(current := faulty, issued := s.issued + [faulty]);
      if s.current.sysnum == SYSCALL_AVOIDER then t
      else t.(workaround := ProcessFaultyCall, syscalls := Queue([s.current]), registered := s.registered + [s.current])
  }

  ghost function EnterStage(s: State, e: Enter): State {
    Pushed(Translated(s, e), e)
  }

  /** `chain_next_syscall` */
  function ChainNext(s: State): State
    requires s.syscalls.Queue?
  {
    if s.syscalls.calls == [] then
      s.(syscalls := NoQueue, result := if s.forceFinalResult then s.finalResult else s.result,
         forceFinalResult := false, finalResult := 0)
    else if s.ip < SYSTRAP_SIZE then s
    else
      var next := s.syscalls.calls[0];
      s.(restoreOriginalRegs := false, syscalls := Queue(s.syscalls.calls[1..]), current := next,
         ip := s.ip - SYSTRAP_SIZE, taken := s.taken + [next])
  }

  function Handled(s: State, x: Exit): State {
    var t := Register(s, x.register);
    if x.force.NoForce? then t else t.(forceFinalResult := true, finalResult := x.force.result)
  }

  /** The exit translation of the call that was asked for, or what the extensions do about a chained call;
      neither for a faulty call. */
  function Watched(s: State, x: Exit): State {
    var t := s.(restoreOriginalRegs := true, result := x.result);
    if s.syscalls.NoQueue? || s.workaround == ProcessReplacedCall then Handled(t.(workaround := Inactive), x)
    else if s.workaround == ProcessFaultyCall then t.(workaround := ProcessReplacedCall)
    else Handled(t, x)
  }

  /** The end of the exit stage: the next call of the chain is forged, and the registers are pushed. */
  function Forged(s: State): State {
    var t := if s.syscalls.Queue? then ChainNext(s) else s;
    if t.restoreOriginalRegs then t.(current := t.original) else t
  }

  function ExitStage(s: State, x: Exit): State {
    Forged(Watched(s, x))
  }

  class Tracee {
    var syscalls: Queue
    var forceFinalResult: bool
    var finalResult: nat
    var workaround: Workaround
    var restoreOriginalRegs: bool
    var current: Call
    var original: Call
    var result: nat
    var ip: nat
    ghost var registered: seq<Call>
    ghost var taken: seq<Call>
    ghost var issued: seq<Call>

    ghost function View(): State
      reads this
    {
      State(syscalls, forceFinalResult, finalResult, workaround, restoreOriginalRegs, current, original, result, ip,
            registered, taken, issued)
    }

    /** A tracee about to execute the trap at `at` for the call `call`. */
    constructor (call: Call, at: nat)
      ensures Fresh(View(), call, at) && ForceOf(View()) == NoForce
    {
      syscalls, forceFinalResult, finalResult, workaround, restoreOriginalRegs := NoQueue, false, 0, Inactive, false;
      current, original, result, ip := call, call, 0, at;
      registered, taken, issued := [], [], [];
    }

    /** The tracee makes another call; only the histories start afresh. */
    method NextCall(call: Call, at: nat)
      requires Ended(View())
      modifies this
      ensures View() == Begun(old(View()), call, at) && Fresh(View(), call, at)
    {
      current, ip := call, at;
      registered, taken, issued := [], [], [];
    }

    /** `register_chained_syscall_internal` */
    method RegisterChainedSyscall(call: Call, atFront: bool)
      modifies `syscalls, `registered
      ensures syscalls == Queue(var q := if old(syscalls).NoQueue? then [] else old(syscalls).calls;
                                if atFront then [call] + q else q + [call])
      ensures registered == old(registered) + [call]
    {
      if syscalls.NoQueue? {
        syscalls := Queue([]);
      }
      syscalls := Queue(if atFront then [call] + syscalls.calls else syscalls.calls + [call]);
      registered := registered + [call];
    }

    method RegisterAll(calls: seq<Call>)
      modifies `syscalls, `registered
      ensures View() == Register(old(View()), calls)
    {
      var i := 0;
      while i < |calls|
        invariant i <= |calls| && View() == Register(old(View()), calls[..i])
      {
        RegisterChainedSyscall(calls[i], false);
        assert calls[..i + 1] == calls[..i] + [calls[i]];
        i := i + 1;
      }
      assert calls[..i] == calls;
    }

    /** `chain_next_syscall` */
    method ChainNextSyscall()
      requires syscalls.Queue? && ip >= SYSTRAP_SIZE
      modifies this
      ensures View() == ChainNext(old(View()))
    {
      if syscalls.calls == [] {
        syscalls := NoQueue;
        if forceFinalResult {
          result := finalResult;
        }
        forceFinalResult := false;
        finalResult := 0;
        return;
      }
      restoreOriginalRegs := false;
      var syscall := syscalls.calls[0];
      syscalls := Queue(syscalls.calls[1..]);
      taken := taken + [syscall];
      current := syscall;
      ip := ip - SYSTRAP_SIZE;
    }

    /** The enter stage of `translate_syscall`: whatever the handlers do, one call more is issued, the trap at
        `at` is behind the tracee, and what is queued is still to be taken. */
    method SysEnter(e: Enter, ghost at: nat)
      requires Ready(View(), at)
      modifies this
      ensures View() == EnterStage(old(View()), e)
      ensures Entered(View(), at) && issued == old(issued) + [IssuedAt(old(View()), e)]
    {
      EnterReady(View(), at, e);
      TranslateEnter(e);
      PushAtEnter(e);
    }

    method TranslateEnter(e: Enter)
      modifies this
      ensures View() == Translated(old(View()), e)
    {
      restoreOriginalRegs := false;
      ip := ip + SYSTRAP_SIZE;
      if syscalls.NoQueue? {
        original := current;
        current := e.translated;
        RegisterAll(e.register);
      } else if workaround != ProcessReplacedCall && e.edit.Replace? {
        current := Call(current.sysnum, e.edit.args);
      }
    }

    method PushAtEnter(e: Enter)
      modifies this
      ensures View() == Pushed(old(View()), e)
    {
      var overrideSysnum := syscalls.NoQueue?;
      if e.pushFails && overrideSysnum && original.sysnum != current.sysnum {
        if current.sysnum != SYSCALL_AVOIDER {
          workaround := ProcessFaultyCall;
          RegisterChainedSyscall(current, true);
          assert syscalls == Queue([current]);
        }
        current := FaultyCall(original.sysnum);
      }
      issued := issued + [current];
    }

    /** The exit stage: either the chain goes on, with the trap at `at` about to be executed again for the call
        that was taken last, or it is over and the registers of the tracee are restored. */
    method SysExit(x: Exit, ghost at: nat)
      requires Entered(View(), at)
      modifies this
      ensures View() == ExitStage(old(View()), x)
      ensures Inv(View(), at) && original == old(original) && issued == old(issued)
    {
      ExitInv(View(), at, x);
      TranslateExit(x);
      PushAtExit();
    }

    method TranslateExit(x: Exit)
      modifies this
      ensures View() == Watched(old(View()), x)
    {
      restoreOriginalRegs := true;
      result := x.result;
      if syscalls.NoQueue? || workaround == ProcessReplacedCall {
        workaround := Inactive;
        Handlers(x);
      } else if workaround == ProcessFaultyCall {
        workaround := ProcessReplacedCall;
      } else {
        Handlers(x);
      }
    }

    method PushAtExit()
      requires ip >= SYSTRAP_SIZE
      modifies this
      ensures View() == Forged(old(View()))
    {
      if syscalls.Queue? {
        ChainNextSyscall();
      }
      if restoreOriginalRegs {
        current := original;
      }
    }

    /** The exit translation, or the extensions that watch a chained call. */
    method Handlers(x: Exit)
      modifies `syscalls, `registered, `forceFinalResult, `finalResult
      ensures View() == Handled(old(View()), x)
    {
      RegisterAll(x.register);
      if x.force.Force? {
        forceFinalResult := true;
        finalResult := x.force.result;
      }
    }
  }

  // ----- the invariant

  /** No chain is under way. */
  ghost predicate Ended(s: State) {
    s.syscalls == NoQueue && s.workaround == Inactive
  }

  /** A tracee about to make a call.  A forced result may be left from an earlier one. */
  ghost predicate Fresh(s: State, call: Call, at: nat) {
    Ended(s) && s.current == call && s.ip == at && s.registered == [] && s.taken == [] && s.issued == []
  }

  function Begun(s: State, call: Call, at: nat): State {
    s.(current := call, ip := at, registered := [], taken := [], issued := [])
  }

  /** Between two rounds.  While the chain lasts the trap is about to be executed again, with the call that
      was taken last; nothing is lost, and nothing taken twice. */
  ghost predicate Inv(s: State, at: nat) {
    && s.issued != [] && s.workaround != ProcessFaultyCall
    && match s.syscalls
       case NoQueue =>
         && s.restoreOriginalRegs && s.ip == at + SYSTRAP_SIZE && s.workaround == Inactive && s.current == s.original
         && s.taken == s.registered && |s.issued| == |s.taken| + 1
       case Queue(calls) =>
         && !s.restoreOriginalRegs && s.ip == at && s.taken + calls == s.registered
         && s.taken != [] && s.current == s.taken[|s.taken| - 1] && |s.issued| == |s.taken|
  }

  /** About to execute the trap at `at`, for a call of the tracee or for a chained one. */
  ghost predicate Ready(s: State, at: nat) {
    Fresh(s, s.current, at) || (Inv(s, at) && s.syscalls.Queue?)
  }

  ghost function Round(s: State, e: Enter, x: Exit): State {
    ExitStage(EnterStage(s, e), x)
  }

  /** The call that the kernel runs first: the one that was asked for, or the faulty one in its place. */
  function FirstIssued(call: Call, e: Enter): Call {
    if e.pushFails && e.register == [] && call.sysnum != e.translated.sysnum then FaultyCall(call.sysnum)
    else e.translated
  }

  /** The call that the kernel runs later: the one that was forged, as edited. */
  function LaterIssued(s: State, e: Enter): Call {
    if s.workaround == ProcessReplacedCall then s.current else Edited(s.current, e.edit)
  }

  function IssuedAt(s: State, e: Enter): Call {
    if s.syscalls.NoQueue? then FirstIssued(s.current, e) else LaterIssued(s, e)
  }

  /** Inside a round, while the kernel runs the call: what was issued was taken off the queue, but for the
      first, and what is queued is still to be taken. */
  ghost predicate Entered(m: State, at: nat) {
    && m.ip == at + SYSTRAP_SIZE && |m.issued| == |m.taken| + 1
    && match m.syscalls
       case NoQueue => m.workaround == Inactive && m.taken == m.registered
       case Queue(calls) => m.taken + calls == m.registered && (m.workaround == ProcessFaultyCall ==> calls != [])
  }

  lemma FirstEnter(s: State, call: Call, at: nat, e: Enter)
    requires Fresh(s, call, at)
    ensures var m := EnterStage(s, e);
            && Entered(m, at) && m.taken == [] && m.original == call && m.issued == [FirstIssued(call, e)]
            && ForceOf(m) == ForceOf(s)
  {
    var m := Translated(s, e);
    assert m.syscalls.NoQueue? <==> e.register == [];
  }

  lemma LaterEnter(s: State, at: nat, e: Enter)
    requires Inv(s, at) && s.syscalls.Queue?
    ensures var m := EnterStage(s, e);
            && Entered(m, at) && m.syscalls == s.syscalls && m.taken == s.taken && m.original == s.original
            && m.issued == s.issued + [LaterIssued(s, e)] && m.workaround == s.workaround && ForceOf(m) == ForceOf(s)
  {
  }

  lemma EnterReady(s: State, at: nat, e: Enter)
    requires Ready(s, at)
    ensures Entered(EnterStage(s, e), at) && EnterStage(s, e).issued == s.issued + [IssuedAt(s, e)]
  {
    if Fresh(s, s.current, at) {
      FirstEnter(s, s.current, at, e);
    } else {
      LaterEnter(s, at, e);
    }
  }

  lemma WatchedEntered(m: State, at: nat, x: Exit)
    requires Entered(m, at)
    ensures var w := Watched(m, x);
            && Entered(w, at) && w.restoreOriginalRegs && w.original == m.original && w.issued == m.issued
            && w.taken == m.taken && m.registered <= w.registered
            && (w.workaround == Inactive
                || (w.workaround == ProcessReplacedCall && w.syscalls.Queue? && w.syscalls.calls != []))
  {
    if m.syscalls.Queue? {
      assert m.taken + (m.syscalls.calls + x.register) == m.registered + x.register;
    }
  }

  lemma ForgedInv(w: State, at: nat)
    requires Entered(w, at) && w.restoreOriginalRegs
    requires w.workaround == Inactive
             || (w.workaround == ProcessReplacedCall && w.syscalls.Queue? && w.syscalls.calls != [])
    ensures var t := Forged(w);
            Inv(t, at) && t.original == w.original && t.issued == w.issued && t.registered == w.registered
  {
    if w.syscalls.Queue? && w.syscalls.calls != [] {
      var calls := w.syscalls.calls;
      assert w.taken + calls == (w.taken + [calls[0]]) + calls[1..];
    }
  }

  lemma ExitInv(m: State, at: nat, x: Exit)
    requires Entered(m, at)
    ensures var t := ExitStage(m, x);
            Inv(t, at) && t.original == m.original && t.issued == m.issued && m.registered <= t.registered
  {
    WatchedEntered(m, at, x);
    ForgedInv(Watched(m, x), at);
  }

  /** In the first round the call that was asked for is issued, or the faulty one in its place. */
  lemma FirstRound(s: State, call: Call, at: nat, e: Enter, x: Exit)
    requires Fresh(s, call, at)
    ensures var t := Round(s, e, x); Inv(t, at) && t.original == call && t.issued == [FirstIssued(call, e)]
  {
    FirstEnter(s, call, at, e);
    ExitInv(EnterStage(s, e), at, x);
  }

  /** In a later round it is the next call of the chain. */
  lemma LaterRound(s: State, at: nat, e: Enter, x: Exit)
    requires Inv(s, at) && s.syscalls.Queue?
    ensures var t := Round(s, e, x);
            && Inv(t, at) && t.original == s.original && s.registered <= t.registered
            && t.issued == s.issued + [LaterIssued(s, e)]
  {
    LaterEnter(s, at, e);
    ExitInv(EnterStage(s, e), at, x);
  }

  // ----- whole runs

  /** A run for one call of the tracee: rounds until the chain is gone. */
  ghost predicate IsRun(ss: seq<State>, es: seq<Enter>, xs: seq<Exit>, call: Call, at: nat) {
    && |ss| == |es| + 1 && |xs| == |es| && Fresh(ss[0], call, at)
    && (forall i {:trigger es[i]} :: 0 <= i < |es| ==> ss[i + 1] == Round(ss[i], es[i], xs[i]))
    && (forall i {:trigger es[i]} :: 0 < i < |es| ==> ss[i].syscalls.Queue?)
  }

  lemma {:induction false} RunInv(ss: seq<State>, es: seq<Enter>, xs: seq<Exit>, call: Call, at: nat, i: nat)
    requires IsRun(ss, es, xs, call, at) && 0 < i < |ss|
    ensures Inv(ss[i], at) && ss[i].original == call && |ss[i].issued| == i
  {
    assert es[i - 1] == es[i - 1];
    if i == 1 {
      FirstRound(ss[0], call, at, es[0], xs[0]);
    } else {
      RunInv(ss, es, xs, call, at, i - 1);
      LaterRound(ss[i - 1], at, es[i - 1], xs[i - 1]);
    }
  }

  // ----- what the handlers asked for

  /** The number of the translated call could not be set: a faulty call runs in its place, and it is chained. */
  predicate Replaced(call: Call, first: Enter) {
    && first.pushFails && first.register == []
    && call.sysnum != first.translated.sysnum && first.translated.sysnum != SYSCALL_AVOIDER
  }

  function AllRegistered(xs: seq<Exit>): seq<Call> {
    if xs == [] then [] else AllRegistered(xs[..|xs| - 1]) + xs[|xs| - 1].register
  }

  /** All calls that are to be issued behind the first one, in order: those that the handlers register when the
      tracee makes its call, and those that they register at each exit, but for that of a faulty call, which no
      handler sees; the call that a faulty one stands in for comes before all others. */
  function Asked(call: Call, first: Enter, xs: seq<Exit>): seq<Call>
    requires xs != []
  {
    if Replaced(call, first) then [first.translated] + AllRegistered(xs[1..]) else first.register + AllRegistered(xs)
  }

  lemma EnterRegistered(s: State, call: Call, e: Enter)
    requires Fresh(s, call, s.ip)
    ensures var m := EnterStage(s, e);
            && m.registered == (if Replaced(call, e) then [e.translated] else e.register)
            && m.workaround == (if Replaced(call, e) then ProcessFaultyCall else Inactive)
            && (m.workaround == ProcessFaultyCall ==> m.syscalls.Queue?)
  {
    assert [] + e.register == e.register && [] + [e.translated] == [e.translated];
  }

  lemma ExitRegistered(m: State, at: nat, x: Exit)
    requires Entered(m, at) && (m.workaround == ProcessFaultyCall ==> m.syscalls.Queue?)
    ensures var t := ExitStage(m, x);
            if m.workaround == ProcessFaultyCall then t.registered == m.registered && t.workaround == ProcessReplacedCall
            else t.registered == m.registered + x.register && t.workaround == Inactive
  {
    WatchedEntered(m, at, x);
    ForgedInv(Watched(m, x), at);
  }

  lemma FirstRegistered(s: State, call: Call, at: nat, e: Enter, x: Exit)
    requires Fresh(s, call, at)
    ensures Round(s, e, x).registered == Asked(call, e, [x])
    ensures Round(s, e, x).workaround == if Replaced(call, e) then ProcessReplacedCall else Inactive
  {
    assert [x][..0] == [] && [x][1..] == [] && AllRegistered([x]) == [] + x.register && AllRegistered([]) == [];
    assert [e.translated] + [] == [e.translated] && [] + x.register == x.register;
    FirstEnter(s, call, at, e);
    hide EnterStage, ExitStage, Entered, Replaced;
    EnterRegistered(s, call, e);
    ExitRegistered(EnterStage(s, e), at, x);
  }

  lemma LaterRegistered(s: State, at: nat, e: Enter, x: Exit)
    requires Inv(s, at) && s.syscalls.Queue?
    ensures Round(s, e, x).registered == s.registered + x.register && Round(s, e, x).workaround == Inactive
  {
    LaterEnter(s, at, e);
    ExitRegistered(EnterStage(s, e), at, x);
  }

  lemma AskedMore(call: Call, first: Enter, xs: seq<Exit>, x: Exit)
    requires xs != []
    ensures Asked(call, first, xs + [x]) == Asked(call, first, xs) + x.register
  {
    assert (xs + [x])[..|xs|] == xs;
    assert (xs + [x])[1..] == xs[1..] + [x] && (xs[1..] + [x])[..|xs| - 1] == xs[1..];
  }

  /** What has been registered is what the handlers asked for. */
  lemma {:induction false} RegisteredIsAsked(ss: seq<State>, es: seq<Enter>, xs: seq<Exit>, call: Call, at: nat, i: nat)
    requires IsRun(ss, es, xs, call, at) && 0 < i < |ss|
    ensures ss[i].registered == Asked(call, es[0], xs[..i])
    ensures ss[i].workaround == if i == 1 && Replaced(call, es[0]) then ProcessReplacedCall else Inactive
  {
    hide Round, Asked, Replaced;
    assert es[i - 1] == es[i - 1];
    if i == 1 {
      assert xs[..1] == [xs[0]];
      FirstRegistered(ss[0], call, at, es[0], xs[0]);
    } else {
      RegisteredIsAsked(ss, es, xs, call, at, i - 1);
      RunInv(ss, es, xs, call, at, i - 1);
      LaterRegistered(ss[i - 1], at, es[i - 1], xs[i - 1]);
      assert xs[..i] == xs[..i - 1] + [xs[i - 1]];
      AskedMore(call, es[0], xs[..i - 1], xs[i - 1]);
    }
  }

  /** The kernel gets a chained call as it was asked for, with the edit of an extension; the call that a faulty
      one stood in for is not shown to extensions. */
  ghost predicate IssuedInOrder(issued: seq<Call>, asked: seq<Call>, es: seq<Enter>, call: Call, n: nat)
    requires n <= |issued| && n <= |es| && n <= |asked| + 1
  {
    forall k {:trigger issued[k]} :: 0 < k < n ==>
      issued[k] == if k == 1 && Replaced(call, es[0]) then asked[0] else Edited(asked[k - 1], es[k].edit)
  }

  lemma {:induction false} IssuedSoFar(ss: seq<State>, es: seq<Enter>, xs: seq<Exit>, call: Call, at: nat, i: nat)
    requires IsRun(ss, es, xs, call, at) && 0 < i < |ss|
    ensures Inv(ss[i], at) && |ss[i].issued| == i <= |ss[i].registered| + 1
    ensures IssuedInOrder(ss[i].issued, ss[i].registered, es, call, i)
  {
    hide Round, Fresh, Replaced;
    RunInv(ss, es, xs, call, at, i);
    if i > 1 {
      var s, t := ss[i - 1], ss[i];
      assert es[i - 1] == es[i - 1];
      IssuedSoFar(ss, es, xs, call, at, i - 1);
      LaterRound(s, at, es[i - 1], xs[i - 1]);
      RegisteredIsAsked(ss, es, xs, call, at, i - 1);
      assert s.current == s.taken[i - 2] == s.registered[i - 2] == t.registered[i - 2];
      forall k {:trigger t.issued[k]} | 0 < k < i
        ensures t.issued[k] == if k == 1 && Replaced(call, es[0]) then t.registered[0]
                               else Edited(t.registered[k - 1], es[k].edit)
      {
        if k < i - 1 {
          assert t.issued[k] == s.issued[k] && t.registered[k - 1] == s.registered[k - 1];
        }
      }
    }
  }

  /** When the chain is over every call that the handlers asked for has been issued, once and in order, behind the
      call that the tracee asked for; the tracee continues behind its trap with its own registers, which are
      restored then and only then. */
  lemma ChainComplete(ss: seq<State>, es: seq<Enter>, xs: seq<Exit>, call: Call, at: nat)
    requires IsRun(ss, es, xs, call, at) && |es| > 0 && ss[|es|].syscalls.NoQueue?
    ensures var t, asked := ss[|es|], Asked(call, es[0], xs);
            && |t.issued| == |asked| + 1 == |es|
            && t.issued[0] == FirstIssued(call, es[0]) && IssuedInOrder(t.issued, asked, es, call, |es|)
            && t.ip == at + SYSTRAP_SIZE && t.current == call && t.restoreOriginalRegs && Ended(t)
            && forall i :: 0 < i < |es| ==> !ss[i].restoreOriginalRegs && ss[i].ip == at
  {
    IssuedSoFar(ss, es, xs, call, at, |es|);
    RunInv(ss, es, xs, call, at, |es|);
    RegisteredIsAsked(ss, es, xs, call, at, |es|);
    assert xs[..|es|] == xs;
    FirstStays(ss, es, xs, call, at, |es|);
    forall i | 0 < i < |es| ensures !ss[i].restoreOriginalRegs && ss[i].ip == at {
      RunInv(ss, es, xs, call, at, i);
      assert es[i] == es[i];
    }
  }

  lemma {:induction false} FirstStays(ss: seq<State>, es: seq<Enter>, xs: seq<Exit>, call: Call, at: nat, i: nat)
    requires IsRun(ss, es, xs, call, at) && 0 < i < |ss|
    ensures ss[i].issued != [] && ss[i].issued[0] == FirstIssued(call, es[0])
  {
    hide Round, FirstIssued, LaterIssued, Inv, Fresh;
    assert es[i - 1] == es[i - 1];
    if i == 1 {
      FirstRound(ss[0], call, at, es[0], xs[0]);
    } else {
      FirstStays(ss, es, xs, call, at, i - 1);
      RunInv(ss, es, xs, call, at, i - 1);
      LaterRound(ss[i - 1], at, es[i - 1], xs[i - 1]);
    }
  }

  /** In the middle of a chain nothing is lost: what was taken, of which the last is next to be issued, and what
      is queued make up what the handlers have asked for so far. */
  lemma NothingLost(ss: seq<State>, es: seq<Enter>, xs: seq<Exit>, call: Call, at: nat, i: nat)
    requires IsRun(ss, es, xs, call, at) && 0 < i < |es|
    ensures var asked := Asked(call, es[0], xs[..i]);
            && ss[i].syscalls.Queue? && |ss[i].taken| == i && ss[i].taken + ss[i].syscalls.calls == asked
            && ss[i].current == asked[i - 1]
  {
    assert es[i] == es[i];
    RunInv(ss, es, xs, call, at, i);
    RegisteredIsAsked(ss, es, xs, call, at, i);
  }

  /** A faulty call has its six arguments all set to -1, so that the kernel refuses it; a brk gets a null address,
      and so changes nothing. */
  lemma FaultyArguments(sysnum: nat)
    ensures var c := FaultyCall(sysnum);
            && c.sysnum == sysnum && |c.args| == 6
            && forall i :: 0 <= i < 6 ==> c.args[i] == if sysnum == 12 && i == 0 then 0 else 0xFFFF_FFFF_FFFF_FFFF
  {
  }

  // ----- the forced result

  /** What `force_chain_final_result` left behind. */
  function ForceOf(s: State): Force {
    if s.forceFinalResult then Force(s.finalResult) else NoForce
  }

  function Later(f: Force, g: Force): Force {
    if g.NoForce? then f else g
  }

  /** The last result forced by a handler in the first n exits of a call; no handler sees the exit of a faulty
      call. */
  ghost function LastForced(ss: seq<State>, es: seq<Enter>, xs: seq<Exit>, n: nat): Force
    requires |ss| > |es| == |xs| >= n
  {
    if n == 0 then NoForce
    else
      var before := LastForced(ss, es, xs, n - 1);
      if EnterStage(ss[n - 1], es[n - 1]).workaround == ProcessFaultyCall then before
      else Later(before, xs[n - 1].force)
  }

  /** One exit: the forced result replaces that of the call exactly when the chain ends there. */
  lemma ForceAtExit(m: State, at: nat, x: Exit)
    requires Entered(m, at) && m.syscalls.Queue?
    ensures var t := ExitStage(m, x);
            var force := if m.workaround == ProcessFaultyCall then ForceOf(m) else Later(ForceOf(m), x.force);
            && t.result == (if t.syscalls.NoQueue? && force.Force? then force.result else x.result)
            && ForceOf(t) == (if t.syscalls.NoQueue? then NoForce else force)
  {
    var w := Watched(m, x);
    WatchedEntered(m, at, x);
    assert ForceOf(w) == if m.workaround == ProcessFaultyCall then ForceOf(m) else Later(ForceOf(m), x.force);
  }

  /** A chain needs two exits, so nothing is forced at the first. */
  lemma FirstForce(s: State, call: Call, at: nat, e: Enter, x: Exit)
    requires Fresh(s, call, at)
    ensures var m, t := EnterStage(s, e), Round(s, e, x);
            var force := if m.workaround == ProcessFaultyCall then ForceOf(s) else Later(ForceOf(s), x.force);
            t.result == x.result && ForceOf(t) == force && (t.syscalls.NoQueue? <==> t.registered == [])
  {
    var m := EnterStage(s, e);
    FirstEnter(s, call, at, e);
    WatchedEntered(m, at, x);
    if m.syscalls.Queue? {
      ForceAtExit(m, at, x);
    }
  }

  lemma {:induction false} ForcedSoFar(ss: seq<State>, es: seq<Enter>, xs: seq<Exit>, call: Call, at: nat, i: nat)
    requires IsRun(ss, es, xs, call, at) && 0 < i < |ss|
    ensures var force, t := Later(ForceOf(ss[0]), LastForced(ss, es, xs, i)), ss[i];
            && t.result == (if i > 1 && t.syscalls.NoQueue? && force.Force? then force.result else xs[i - 1].result)
            && ForceOf(t) == (if i > 1 && t.syscalls.NoQueue? then NoForce else force)
  {
    assert es[i - 1] == es[i - 1];
    if i == 1 {
      assert LastForced(ss, es, xs, 0) == NoForce;
      FirstForce(ss[0], call, at, es[0], xs[0]);
    } else {
      var s, e, x := ss[i - 1], es[i - 1], xs[i - 1];
      ForcedSoFar(ss, es, xs, call, at, i - 1);
      RunInv(ss, es, xs, call, at, i - 1);
      LaterEnter(s, at, e);
      ForceAtExit(EnterStage(s, e), at, x);
    }
  }

  /** What a call of the tracee returns, and what it leaves behind, from any state that earlier calls can have
      left. */
  lemma ForcedResult(ss: seq<State>, es: seq<Enter>, xs: seq<Exit>, call: Call, at: nat)
    requires IsRun(ss, es, xs, call, at) && |es| > 0 && ss[|es|].syscalls.NoQueue?
    ensures var force, t := Later(ForceOf(ss[0]), LastForced(ss, es, xs, |es|)), ss[|es|];
            && t.result == (if t.registered != [] && force.Force? then force.result else xs[|es| - 1].result)
            && ForceOf(t) == (if t.registered != [] then NoForce else force)
  {
    ForcedSoFar(ss, es, xs, call, at, |es|);
    RunInv(ss, es, xs, call, at, |es|);
  }

  /** What the call should return: the result forced last during this call, or that of the kernel. */
  ghost function Meant(ss: seq<State>, es: seq<Enter>, xs: seq<Exit>): nat
    requires |ss| > |es| == |xs| > 0
  {
    var force := LastForced(ss, es, xs, |es|);
    if force.Force? then force.result else xs[|es| - 1].result
  }

  predicate Harmless(force: Force, result: nat) {
    force.NoForce? || force.result == result
  }

  /** It returns that exactly if, with nothing registered, nothing was forced, or, with something registered and
      nothing forced, nothing was left from an earlier call; results that happen to be equal aside. */
  lemma MeantResult(ss: seq<State>, es: seq<Enter>, xs: seq<Exit>, call: Call, at: nat)
    requires IsRun(ss, es, xs, call, at) && |es| > 0 && ss[|es|].syscalls.NoQueue?
    ensures var force, kernel := LastForced(ss, es, xs, |es|), xs[|es| - 1].result;
            ss[|es|].result == Meant(ss, es, xs) <==>
              if ss[|es|].registered == [] then Harmless(force, kernel)
              else force.Force? || Harmless(ForceOf(ss[0]), kernel)
  {
    ForcedResult(ss, es, xs, call, at);
  }

  /** A forced result is left behind exactly if nothing was registered, and it was forced then or left before. */
  lemma LeftBehind(ss: seq<State>, es: seq<Enter>, xs: seq<Exit>, call: Call, at: nat)
    requires IsRun(ss, es, xs, call, at) && |es| > 0 && ss[|es|].syscalls.NoQueue?
    ensures ForceOf(ss[|es|]).Force? <==>
            ss[|es|].registered == [] && (LastForced(ss, es, xs, |es|).Force? || ForceOf(ss[0]).Force?)
  {
    ForcedResult(ss, es, xs, call, at);
  }

  /** The first failing family, with an input of it: a result forced where nothing is registered is not given to
      the tracee, and stays behind. */
  lemma ForcedWithoutChain(s: State, call: Call, at: nat, e: Enter, x: Exit)
    requires Fresh(s, call, at) && x.force.Force? && x.register == [] && e.register == [] && !e.pushFails
    ensures Round(s, e, x).syscalls.NoQueue? && Round(s, e, x).result == x.result
    ensures ForceOf(Round(s, e, x)) == x.force
  {
    FirstForce(s, call, at, e, x);
  }

  /** The second: the next call registers one call and forces nothing, and the tracee gets the old result. */
  lemma StaleResult(s: State, call: Call, at: nat, e: Enter, x: Exit, call': Call, at': nat, e': Enter, x': Exit,
                    chained: Call, e'': Enter, x'': Exit)
    requires Fresh(s, call, at) && x.force.Force? && x.register == [] && e.register == [] && !e.pushFails
    requires e'.register == [] && !e'.pushFails && x'.register == [chained] && x'.force.NoForce?
    requires x''.register == [] && x''.force.NoForce?
    ensures var first := Begun(Round(s, e, x), call', at');
            var last := Round(Round(first, e', x'), e'', x'');
            Fresh(first, call', at') && Ended(last) && last.result == x.force.result
  {
    ForcedWithoutChain(s, call, at, e, x);
    var first := Begun(Round(s, e, x), call', at');
    var second := Round(first, e', x');
    assert Append(NoQueue, [chained]) == Queue([chained]);
    assert second.syscalls == Queue([]) && second.workaround == Inactive && ForceOf(second) == x.force;
    FirstRound(first, call', at', e', x');
    LaterEnter(second, at', e'');
    ForceAtExit(EnterStage(second, e''), at', x'');
  }

  // ----- call after call

  /** What happened for one call of the tracee. */
  datatype Service = Service(ss: seq<State>, es: seq<Enter>, xs: seq<Exit>, call: Call, at: nat)

  ghost predicate IsService(v: Service) {
    IsRun(v.ss, v.es, v.xs, v.call, v.at) && |v.es| > 0 && v.ss[|v.es|].syscalls.NoQueue?
  }

  ghost function Final(v: Service): State
    requires IsService(v)
  {
    v.ss[|v.es|]
  }

  ghost function ForcedIn(v: Service): Force
    requires IsService(v)
  {
    LastForced(v.ss, v.es, v.xs, |v.es|)
  }

  /** A tracee from its start on, call after call. */
  ghost predicate IsSession(vs: seq<Service>) {
    && (forall i {:trigger vs[i]} :: 0 <= i < |vs| ==> IsService(vs[i]))
    && (forall i {:trigger vs[i]} :: 0 < i < |vs| ==> vs[i].ss[0] == Begun(Final(vs[i - 1]), vs[i].call, vs[i].at))
    && (vs != [] ==> ForceOf(vs[0].ss[0]) == NoForce)
  }

  /** What is left when the i-th call begins: what was forced last since a call was chained. */
  ghost function Leftover(vs: seq<Service>, i: nat): Force
    requires IsSession(vs) && i < |vs|
  {
    if i == 0 then NoForce
    else if Final(vs[i - 1]).registered != [] then NoForce
    else Later(Leftover(vs, i - 1), ForcedIn(vs[i - 1]))
  }

  lemma {:induction false} SessionForce(vs: seq<Service>, i: nat)
    requires IsSession(vs) && i < |vs|
    ensures ForceOf(vs[i].ss[0]) == Leftover(vs, i)
  {
    hide LastForced, Round;
    if i > 0 {
      var v := vs[i - 1];
      SessionForce(vs, i - 1);
      assert IsService(v) && vs[i].ss[0] == Begun(Final(v), vs[i].call, vs[i].at);
      ForcedResult(v.ss, v.es, v.xs, v.call, v.at);
    }
  }

  /** Every call that forces a result registers a call as well. */
  ghost predicate ForcesOnlyChains(vs: seq<Service>)
    requires IsSession(vs)
  {
    forall i {:trigger vs[i]} :: 0 <= i < |vs| && ForcedIn(vs[i]).Force? ==> Final(vs[i]).registered != []
  }

  lemma {:induction false} NothingLeft(vs: seq<Service>, i: nat)
    requires IsSession(vs) && i < |vs| && ForcesOnlyChains(vs)
    ensures Leftover(vs, i) == NoForce
  {
    hide IsService, Final, ForcedIn;
    if i > 0 {
      assert IsService(vs[i - 1]);
      NothingLeft(vs, i - 1);
    }
  }

  /** Then, over the whole life of a tracee, every call returns what is meant; no result crosses from one call to
      another. */
  lemma EveryResultMeant(vs: seq<Service>, i: nat)
    requires IsSession(vs) && i < |vs| && ForcesOnlyChains(vs)
    ensures IsService(vs[i]) && Final(vs[i]).result == Meant(vs[i].ss, vs[i].es, vs[i].xs)
  {
    assert IsService(vs[i]);
    SessionForce(vs, i);
    NothingLeft(vs, i);
    MeantResult(vs[i].ss, vs[i].es, vs[i].xs, vs[i].call, vs[i].at);
  }

  /** The exact result of any call in any session: a left-over result is given to the next call that chains
      something without forcing a result of its own. */
  lemma SessionResult(vs: seq<Service>, i: nat)
    requires IsSession(vs) && i < |vs|
    ensures IsService(vs[i])
    ensures var v := vs[i];
            var force, kernel := Later(Leftover(vs, i), ForcedIn(v)), v.xs[|v.es| - 1].result;
            Final(v).result == if Final(v).registered != [] && force.Force? then force.result else kernel
  {
    assert IsService(vs[i]);
    SessionForce(vs, i);
    ForcedResult(vs[i].ss, vs[i].es, vs[i].xs, vs[i].call, vs[i].at);
  }

  /** In the middle of a run the result that the kernel left is not touched. */
  lemma NotForcedEarlier(ss: seq<State>, es: seq<Enter>, xs: seq<Exit>, call: Call, at: nat, i: nat)
    requires IsRun(ss, es, xs, call, at) && 0 < i < |ss| && ss[i].syscalls.Queue?
    ensures ss[i].result == xs[i - 1].result
  {
    ForcedSoFar(ss, es, xs, call, at, i);
  }
}
