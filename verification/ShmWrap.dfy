/** Why a lookup must not be overtaken by 2^31 operations: a run in which it is, and gives a wrong answer. */
module ShmWrap {
  import opened Common
  import opened ShmCache
  import opened ShmProtocol

  /** The actions can be taken one after the other, however many operations a reader lives through. */
  ghost predicate Runs(s: State, acts: seq<Action>)
    decreases |acts|
  {
    acts == [] || (Enabled(s, acts[0]) && Runs(Next(s, acts[0]), acts[1..]))
  }

  ghost function End(s: State, acts: seq<Action>): State
    requires Runs(s, acts)
    decreases |acts|
  {
    if acts == [] then s else End(Next(s, acts[0]), acts[1..])
  }

  lemma {:induction false} RunOn(s: State, a: seq<Action>, b: seq<Action>)
    requires Runs(s, a) && Runs(End(s, a), b)
    ensures Runs(s, a + b) && End(s, a + b) == End(End(s, a), b)
    decreases |a|
  {
    hide Enabled, Next;
    if a == [] {
      assert a + b == b;
    } else {
      RunOn(Next(s, a[0]), a[1..], b);
      assert (a + b)[1..] == a[1..] + b;
    }
  }

  lemma OneStep(s: State, a: Action)
    requires Enabled(s, a)
    ensures Runs(s, [a]) && End(s, [a]) == Next(s, a)
  {
    assert [a][1..] == [];
  }

  /** The rest of the stores of an operation, and the release. */
  lemma {:induction false} Finish(s: State) returns (acts: seq<Action>)
    requires WriterOk(s) && s.writer.Writing?
    ensures Runs(s, acts)
    ensures var e := End(s, acts);
            WriterOk(e) && e.writer.Idle? && e.log == s.log + [s.writer.op] && e.readers == s.readers
    decreases |Stores(s.writer.op)| - s.writer.pc
  {
    var a := if s.writer.pc < |Stores(s.writer.op)| then StoreNext else ReleaseLock;
    WriterStep(s, a);
    OneStep(s, a);
    if a == StoreNext {
      var rest := Finish(Next(s, a));
      RunOn(s, [a], rest);
      acts := [a] + rest;
    } else {
      acts := [a];
    }
  }

  /** One whole operation, with nobody else moving. */
  lemma Operation(s: State, op: Op) returns (acts: seq<Action>)
    requires WriterOk(s) && s.writer.Idle? && IsOp(op)
    ensures Runs(s, acts)
    ensures var e := End(s, acts); WriterOk(e) && e.writer.Idle? && e.log == s.log + [op] && e.readers == s.readers
  {
    var s1 := Next(s, LoadLock(op));
    OneStep(s, LoadLock(op));
    WriterStep(s, LoadLock(op));
    var s2 := Next(s1, TakeLock);
    OneStep(s1, TakeLock);
    WriterStep(s1, TakeLock);
    var rest := Finish(s2);
    RunOn(s1, [TakeLock], rest);
    RunOn(s, [LoadLock(op)], [TakeLock] + rest);
    acts := [LoadLock(op)] + ([TakeLock] + rest);
  }

  function Times(op: Op, n: nat): (r: seq<Op>)
    ensures |r| == n && forall i :: 0 <= i < n ==> r[i] == op
  {
    seq(n, i => op)
  }

  lemma {:induction false} Operations(s: State, op: Op, n: nat) returns (acts: seq<Action>)
    requires WriterOk(s) && s.writer.Idle? && IsOp(op)
    ensures Runs(s, acts)
    ensures var e := End(s, acts);
            WriterOk(e) && e.writer.Idle? && e.log == s.log + Times(op, n) && e.readers == s.readers
  {
    if n == 0 {
      acts := [];
      assert s.log + Times(op, 0) == s.log;
    } else {
      var front := Operations(s, op, n - 1);
      var last := Operation(End(s, front), op);
      RunOn(s, front, last);
      acts := front + last;
      assert s.log + Times(op, n - 1) + [op] == s.log + Times(op, n);
    }
  }

  ghost predicate IsCopying(s: State, i: nat) {
    i < |s.readers| && s.readers[i].Copying? && forall c :: c in s.readers[i].copy ==> InEntry(c)
  }

  /** The reader went on copying what was missing; nothing else happened. */
  ghost predicate CopiedMore(s: State, e: State, i: nat)
    requires IsCopying(s, i)
  {
    && IsCopying(e, i) && e == s.(readers := s.readers[i := s.readers[i].(copy := e.readers[i].copy)])
    && forall c :: c in e.readers[i].copy ==>
         e.readers[i].copy[c] ==
         if c in s.readers[i].copy then s.readers[i].copy[c] else Get(s.mem, Loc(Slot(s.readers[i].guest), c))
  }

  lemma {:induction false} Fill(s: State, i: nat) returns (acts: seq<Action>)
    requires IsCopying(s, i)
    ensures Runs(s, acts) && CopiedMore(s, End(s, acts), i) && Complete(End(s, acts).readers[i].copy)
    decreases CELLS - |s.readers[i].copy|
  {
    var r := s.readers[i];
    CopyBounded(r.copy);
    if Complete(r.copy) {
      acts := [];
    } else {
      var c :| InEntry(c) && c !in r.copy;
      OneMoreCell(r.copy, c, Get(s.mem, Loc(Slot(r.guest), c)));
      var s' := Next(s, CopyCell(i, c));
      CopyBounded(s'.readers[i].copy);
      OneStep(s, CopyCell(i, c));
      var rest := Fill(s', i);
      RunOn(s, [CopyCell(i, c)], rest);
      acts := [CopyCell(i, c)] + rest;
    }
  }

  /** The reader has one byte of the old host path when it is overtaken. */
  lemma FirstByte(s: State, g: seq<nat>) returns (acts: seq<Action>)
    requires s.readers == [Ready] && IsString(g) && s.seqlock % 2 == 0
    ensures Runs(s, acts)
    ensures var copy := map[Host(0) := Get(s.mem, Loc(Slot(g), Host(0)))];
            End(s, acts) == s.(readers := [Copying(g, 0, |s.log|, s.seqlock, |s.log|, copy)])
  {
    var s1 := Next(s, Call(0, g));
    var s2 := Next(s1, LoadFirst(0));
    OneStep(s, Call(0, g));
    OneStep(s1, LoadFirst(0));
    OneStep(s2, CopyCell(0, Host(0)));
    RunOn(s1, [LoadFirst(0)], [CopyCell(0, Host(0))]);
    RunOn(s, [Call(0, g)], [LoadFirst(0)] + [CopyCell(0, Host(0))]);
    acts := [Call(0, g)] + ([LoadFirst(0)] + [CopyCell(0, Host(0))]);
  }

  const BEFORE: seq<nat> := [1]
  const AFTER: seq<nat> := [2, 2]
  const TORN: seq<nat> := [1, 2]

  lemma {:induction false} LastOfMany(g: seq<nat>, n: nat)
    ensures LastFor([Insert(g, BEFORE)] + Times(Insert(g, AFTER), n), Slot(g)) ==
            Some((g, if n == 0 then BEFORE else AFTER))
  {
    var log := [Insert(g, BEFORE)] + Times(Insert(g, AFTER), n);
    assert log[|log| - 1] == if n == 0 then Insert(g, BEFORE) else Insert(g, AFTER);
  }

  /** One byte of the old host path and the rest of the new one. */
  lemma TornCopy(log: seq<Op>, copy: Copy, g: seq<nat>)
    requires IsString(g) && |g| < PATH_MAX && Complete(copy) && LastFor(log, Slot(g)) == Some((g, AFTER))
    requires copy[Host(0)] == 1
    requires forall c :: c in copy && c != Host(0) ==> copy[c] == Get(Replay(log), Loc(Slot(g), c))
    ensures Decide(copy, g) == Hit(TORN)
  {
    ReplayHolds(log, Slot(g));
    assert InEntry(Active) && InEntry(HashOf);
    assert forall i: nat :: i < PATH_MAX ==> InEntry(Guest(i)) && InEntry(Host(i));
    GuestPadded(copy, g, 0);
    forall j: nat {:trigger Padded(TORN, j)} | j < PATH_MAX ensures copy[Host(j)] == Padded(TORN, j) {
      assert j > 0 ==> copy[Host(j)] == Padded(AFTER, j);
    }
    HostPadded(copy, TORN, 0);
  }

  /** The table held first one host path and then another for the same guest path; the answer is neither. */
  lemma NeverRight(g: seq<nat>, n: nat, k: nat)
    requires k <= n + 1
    ensures Answer(([Insert(g, BEFORE)] + Times(Insert(g, AFTER), n))[..k], g) != Hit(TORN)
  {
    var log := ([Insert(g, BEFORE)] + Times(Insert(g, AFTER), n))[..k];
    match LastFor(log, Slot(g))
    case None =>
    case Some((g', h')) =>
      LastIsOp(log, Slot(g), g', h');
  }

  lemma OldByte(g: seq<nat>)
    ensures Get(Replay([Insert(g, BEFORE)]), Loc(Slot(g), Host(0))) == 1
  {
    var log := [Insert(g, BEFORE)];
    ReplayHolds(log, Slot(g));
    assert log[|log| - 1] == Insert(g, BEFORE);
    assert Padded(BEFORE, 0) == 1;
  }

  /** At the end of the copy the counter reads as before. */
  lemma Overtaken(s1: State, s3: State, s4: State, g: seq<nat>)
    requires WriterOk(s1) && s1.writer.Idle? && s1.log == [Insert(g, BEFORE)]
    requires WriterOk(s3) && s3.writer.Idle? && s3.log == s1.log + Times(Insert(g, AFTER), HALF_RANGE)
    requires s3.readers == [Copying(g, 0, 1, s1.seqlock, 1, map[Host(0) := Get(s1.mem, Loc(Slot(g), Host(0)))])]
    requires IsCopying(s3, 0) && CopiedMore(s3, s4, 0) && Complete(s4.readers[0].copy)
    requires IsString(g) && |g| < PATH_MAX
    ensures Enabled(s4, LoadSecond(0)) && s4.log == s3.log
    ensures Next(s4, LoadSecond(0)).readers == [Returned(g, 1, 1, 1 + HALF_RANGE, Hit(TORN))]
  {
    hide Stores, Slot, Hash, Replay, Apply, LastFor, Decide, Times, Holds;
    var copy := s4.readers[0].copy;
    LastOfMany(g, HALF_RANGE);
    OldByte(g);
    assert InEntry(Host(0));
    TornCopy(s3.log, copy, g);
    WrapUndetected(1, 1 + HALF_RANGE, false);
    assert s3.seqlock == s1.seqlock;
  }

  /** A lookup that is overtaken by exactly 2^31 operations, all of them insertions, can return a pair that the
      table never held. */
  lemma OvertakenLookup(s: State, g: seq<nat>) returns (acts: seq<Action>)
    requires Init(s) && s.readers == [Ready] && IsString(g) && |g| < PATH_MAX
    ensures Runs(s, acts)
    ensures var e := End(s, acts);
            && |e.log| == 1 + HALF_RANGE
            && e.readers == [Returned(g, 1, 1, 1 + HALF_RANGE, Hit(TORN))]
            && forall k :: 0 <= k <= |e.log| ==> Answer(e.log[..k], g) != Hit(TORN)
  {
    assert Replay([]) == map[];
    hide Answer, Stores, Slot, Hash, Replay, Decide, Times;
    var a := Operation(s, Insert(g, BEFORE));
    var s1 := End(s, a);
    var b := FirstByte(s1, g);
    var s2 := End(s1, b);
    var c := Operations(s2, Insert(g, AFTER), HALF_RANGE);
    var s3 := End(s2, c);
    var d := Fill(s3, 0);
    var s4 := End(s3, d);
    Overtaken(s1, s3, s4, g);
    OneStep(s4, LoadSecond(0));
    RunOn(s3, d, [LoadSecond(0)]);
    RunOn(s2, c, d + [LoadSecond(0)]);
    RunOn(s1, b, c + (d + [LoadSecond(0)]));
    RunOn(s, a, b + (c + (d + [LoadSecond(0)])));
    acts := a + (b + (c + (d + [LoadSecond(0)])));
    forall k | 0 <= k <= 1 + HALF_RANGE ensures Answer(s3.log[..k], g) != Hit(TORN) {
      assert s3.log == [Insert(g, BEFORE)] + Times(Insert(g, AFTER), HALF_RANGE);
      NeverRight(g, HALF_RANGE, k);
    }
  }
}
