/** One writer and any number of readers of the shared path cache, interleaved access by access. */
module ShmProtocol {
  import opened Common
  import opened ShmCache

  /** Where the writer is: between operations, between reading the lock and taking it, or after `pc` of
      the stores of an operation. */
  datatype Writer = Idle | Loaded(op: Op, v: nat) | Writing(op: Op, v: nat, pc: nat)

  /** Where a reader is.  `start` and `seen` record the number of operations that were complete when the
      lookup began and when its present round began, `at` and `end` those for the answer it gave. */
  datatype Reader =
    | Ready
    | AtTop(guest: seq<nat>, retries: nat, start: nat)
    | Copying(guest: seq<nat>, retries: nat, start: nat, seq1: nat, seen: nat, copy: Copy)
    | Returned(guest: seq<nat>, start: nat, at: nat, end: nat, result: Result)

  /** `log` is the history of complete operations; only the proofs look at it. */
  datatype State = State(seqlock: nat, mem: Memory, writer: Writer, readers: seq<Reader>, log: seq<Op>)

  datatype Action =
    | LoadLock(op: Op) | TakeLock | StoreNext | ReleaseLock
    | Call(r: nat, guest: seq<nat>) | LoadFirst(r: nat) | CopyCell(r: nat, c: Cell) | LoadSecond(r: nat)

  predicate IsWriterAction(a: Action) {
    a.LoadLock? || a.TakeLock? || a.StoreNext? || a.ReleaseLock?
  }

  ghost predicate Enabled(s: State, a: Action) {
    match a
    case LoadLock(op) => s.writer.Idle? && IsOp(op)
    case TakeLock => s.writer.Loaded?
    case StoreNext => s.writer.Writing? && s.writer.pc < |Stores(s.writer.op)|
    case ReleaseLock => s.writer.Writing? && s.writer.pc == |Stores(s.writer.op)|
    case Call(r, g) => r < |s.readers| && (s.readers[r].Ready? || s.readers[r].Returned?) && IsString(g)
    case LoadFirst(r) => r < |s.readers| && s.readers[r].AtTop?
    case CopyCell(r, c) => r < |s.readers| && s.readers[r].Copying? && InEntry(c) && c !in s.readers[r].copy
    case LoadSecond(r) => r < |s.readers| && s.readers[r].Copying? && Complete(s.readers[r].copy)
  }

  /** The test at the end of a failed round. */
  function Retry(r: Reader, now: nat): Reader
    requires r.AtTop? || r.Copying?
  {
    if r.retries > 10 then Returned(r.guest, r.start, now, now, GaveUp)
    else AtTop(r.guest, r.retries + 1, r.start)
  }

  ghost function NextReader(s: State, a: Action): Reader
    requires Enabled(s, a) && !IsWriterAction(a)
  {
    var now := |s.log|;
    match a
    case Call(_, g) => AtTop(g, 0, now)
    case LoadFirst(i) =>
      var r := s.readers[i];
      if s.seqlock % 2 == 1 then Retry(r, now) else Copying(r.guest, r.retries, r.start, s.seqlock, now, map[])
    case CopyCell(i, c) =>
      var r := s.readers[i];
      r.(copy := r.copy[c := Get(s.mem, Loc(Slot(r.guest), c))])
    case LoadSecond(i) =>
      var r := s.readers[i];
      if r.seq1 == s.seqlock then Returned(r.guest, r.start, r.seen, now, Decide(r.copy, r.guest))
      else Retry(r, now)
  }

  ghost function Next(s: State, a: Action): State
    requires Enabled(s, a)
  {
    match a
    case LoadLock(op) => s.(writer := Loaded(op, s.seqlock))
    case TakeLock => s.(seqlock := (s.writer.v + 1) % RANGE, writer := Writing(s.writer.op, s.writer.v, 0))
    case StoreNext =>
      var w := Stores(s.writer.op)[s.writer.pc];
      s.(mem := s.mem[w.loc := w.val], writer := s.writer.(pc := s.writer.pc + 1))
    case ReleaseLock => s.(seqlock := (s.writer.v + 2) % RANGE, writer := Idle, log := s.log + [s.writer.op])
    case _ => s.(readers := s.readers[a.r := NextReader(s, a)])
  }

  /** Fewer than 2^31 operations complete while a reader copies an entry. */
  ghost predicate Prompt(s: State, a: Action)
    requires Enabled(s, a)
  {
    a.LoadSecond? ==> |s.log| < s.readers[a.r].seen + HALF_RANGE
  }

  // ----- the invariant

  ghost predicate WriterOk(s: State) {
    && (forall op :: op in s.log ==> IsOp(op))
    && match s.writer
       case Idle => s.seqlock == 2 * |s.log| % RANGE && s.mem == Replay(s.log)
       case Loaded(op, v) =>
         IsOp(op) && v == s.seqlock && v == 2 * |s.log| % RANGE && s.mem == Replay(s.log)
       case Writing(op, v, pc) =>
         && IsOp(op) && v == 2 * |s.log| % RANGE && s.seqlock == (2 * |s.log| + 1) % RANGE
         && pc <= |Stores(op)| && s.mem == Apply(Replay(s.log), Stores(op)[..pc])
  }

  /** As long as the round has seen no write, the copy agrees with the table; an answer was right at some
      point between call and return. */
  ghost predicate ReaderOk(s: State, r: Reader) {
    match r
    case Ready => true
    case AtTop(g, retries, start) => retries <= 11 && start <= |s.log|
    case Copying(g, retries, start, seq1, seen, copy) =>
      && retries <= 11 && start <= seen <= |s.log| && seq1 == 2 * seen % RANGE
      && (forall c :: c in copy ==> InEntry(c))
      && (seen == |s.log| && !s.writer.Writing? ==> CopyOf(copy, s.mem, Slot(g)))
    case Returned(g, start, at, end, result) =>
      && start <= at <= end <= |s.log|
      && (result != GaveUp ==> result == Answer(s.log[..at], g))
  }

  ghost predicate Inv(s: State) {
    && WriterOk(s)
    && forall i {:trigger s.readers[i]} :: 0 <= i < |s.readers| ==> ReaderOk(s, s.readers[i])
  }

  ghost predicate Init(s: State) {
    && s.seqlock == 0 && s.mem == map[] && s.writer == Idle && s.log == []
    && forall i :: 0 <= i < |s.readers| ==> s.readers[i] == Ready
  }

  lemma WriterStep(s: State, a: Action)
    requires WriterOk(s) && Enabled(s, a) && IsWriterAction(a)
    ensures WriterOk(Next(s, a))
  {
    hide Stores, Apply;
    Wrap(|s.log|);
    if a.StoreNext? {
      OneMoreStore(Replay(s.log), Stores(s.writer.op), s.writer.pc);
    } else if a.ReleaseLock? {
      OneMoreOp(s.log, s.writer.op);
      assert Stores(s.writer.op)[..s.writer.pc] == Stores(s.writer.op);
    } else if a.TakeLock? {
      NoStore(Replay(s.log), Stores(s.writer.op));
    }
  }

  lemma OneMoreStore(m: Memory, ws: seq<Store>, pc: nat)
    requires pc < |ws|
    ensures Apply(m, ws[..pc + 1]) == Apply(m, ws[..pc])[ws[pc].loc := ws[pc].val]
  {
    assert ws[..pc + 1][..pc] == ws[..pc];
  }

  lemma NoStore(m: Memory, ws: seq<Store>)
    ensures Apply(m, ws[..0]) == m
  {
  }

  lemma OneMoreOp(log: seq<Op>, op: Op)
    ensures Replay(log + [op]) == Apply(Replay(log), Stores(op))
  {
    assert (log + [op])[..|log|] == log;
  }

  lemma Wrap(n: nat)
    ensures (2 * n % RANGE + 1) % RANGE == (2 * n + 1) % RANGE
    ensures (2 * n % RANGE + 2) % RANGE == 2 * (n + 1) % RANGE
  {
  }

  /** A reader that does not move stays consistent whatever the writer does. */
  lemma ReaderFrame(s: State, a: Action, r: Reader)
    requires WriterOk(s) && ReaderOk(s, r) && Enabled(s, a) && IsWriterAction(a)
    ensures ReaderOk(Next(s, a), r)
  {
    if r.Returned? {
      assert Next(s, a).log[..r.at] == s.log[..r.at];
    }
  }

  /** Equal counter readings, less than half the range apart, mean that nothing was written in between. */
  lemma SameReading(seen: nat, now: nat, writing: bool)
    requires seen <= now < seen + HALF_RANGE
    requires 2 * seen % RANGE == (2 * now + if writing then 1 else 0) % RANGE
    ensures seen == now && !writing
  {
    var d := 2 * now + (if writing then 1 else 0) - 2 * seen;
    assert 0 <= d < RANGE;
    assert (2 * seen + d) % RANGE == 2 * seen % RANGE;
  }

  /** Without that bound: the readings are equal if and only if no write is going on and the number of
      operations in between is a multiple of 2^31. */
  lemma WrapUndetected(seen: nat, now: nat, writing: bool)
    requires seen <= now
    ensures 2 * seen % RANGE == (2 * now + if writing then 1 else 0) % RANGE <==>
            !writing && (now - seen) % HALF_RANGE == 0
  {
    var n, w := now - seen, if writing then 1 else 0;
    var q, d := n / HALF_RANGE, 2 * (n % HALF_RANGE) + w;
    assert 2 * now + w == 2 * seen + d + q * RANGE;
    WholeTurns(2 * seen + d, q);
    SameRemainder(2 * seen, d);
  }

  lemma WholeTurns(x: nat, q: nat)
    ensures (x + q * RANGE) % RANGE == x % RANGE
  {
  }

  lemma SameRemainder(x: nat, d: nat)
    requires d < RANGE
    ensures x % RANGE == (x + d) % RANGE <==> d == 0
  {
  }

  lemma Parity(s: State)
    requires WriterOk(s)
    ensures s.seqlock % 2 == 1 <==> s.writer.Writing?
    ensures s.seqlock == (2 * |s.log| + if s.writer.Writing? then 1 else 0) % RANGE
  {
  }

  lemma ReaderStep(s: State, a: Action)
    requires Inv(s) && Enabled(s, a) && !IsWriterAction(a) && Prompt(s, a)
    ensures ReaderOk(s, NextReader(s, a))
  {
    var r := s.readers[a.r];
    assert ReaderOk(s, r);
    Parity(s);
    if a.LoadSecond? && r.seq1 == s.seqlock {
      SameReading(r.seen, |s.log|, s.writer.Writing?);
      CleanCopy(s.log, r.copy, r.guest);
      assert s.log[..r.seen] == s.log;
    }
  }

  lemma StepInv(s: State, a: Action)
    requires Inv(s) && Enabled(s, a) && Prompt(s, a)
    ensures Inv(Next(s, a)) && s.log <= Next(s, a).log
  {
    var s' := Next(s, a);
    if IsWriterAction(a) {
      WriterStep(s, a);
      forall i {:trigger s'.readers[i]} | 0 <= i < |s'.readers| ensures ReaderOk(s', s'.readers[i]) {
        ReaderFrame(s, a, s.readers[i]);
      }
    } else {
      ReaderStep(s, a);
      forall i {:trigger s'.readers[i]} | 0 <= i < |s'.readers| ensures ReaderOk(s', s'.readers[i]) {
        assert ReaderOk(s, s.readers[i]);
        SameShared(s, s', s'.readers[i]);
      }
    }
  }

  lemma SameShared(s: State, s': State, r: Reader)
    requires s'.log == s.log && s'.writer == s.writer && s'.mem == s.mem && ReaderOk(s, r)
    ensures ReaderOk(s', r)
  {
  }

  // ----- whole runs

  ghost predicate IsRun(ss: seq<State>, acts: seq<Action>) {
    && |ss| == |acts| + 1 && Init(ss[0])
    && forall j {:trigger acts[j]} :: 0 <= j < |acts| ==>
         Enabled(ss[j], acts[j]) && Prompt(ss[j], acts[j]) && ss[j + 1] == Next(ss[j], acts[j])
  }

  lemma {:induction false} RunInv(ss: seq<State>, acts: seq<Action>, j: nat)
    requires IsRun(ss, acts) && j < |ss|
    ensures Inv(ss[j])
  {
    if j > 0 {
      RunInv(ss, acts, j - 1);
      assert acts[j - 1] == acts[j - 1];
      StepInv(ss[j - 1], acts[j - 1]);
    } else {
      assert Replay([]) == map[];
    }
  }

  lemma {:induction false} LogGrows(ss: seq<State>, acts: seq<Action>, i: nat, j: nat)
    requires IsRun(ss, acts) && i <= j < |ss|
    ensures ss[i].log <= ss[j].log
  {
    if i < j {
      LogGrows(ss, acts, i, j - 1);
      assert acts[j - 1] == acts[j - 1];
    }
  }

  /** The history passes through every length in between. */
  lemma {:induction false} Instant(ss: seq<State>, acts: seq<Action>, i: nat, j: nat, k: nat) returns (t: nat)
    requires IsRun(ss, acts) && i <= j < |ss| && |ss[i].log| <= k <= |ss[j].log|
    ensures i <= t <= j && ss[t].log == ss[j].log[..k]
  {
    if k == |ss[j].log| {
      t := j;
    } else {
      assert i < j && acts[j - 1] == acts[j - 1];
      t := Instant(ss, acts, i, j - 1, k);
      LogGrows(ss, acts, j - 1, j);
    }
  }

  /** Between call and return a reader remembers when it was called and for what. */
  lemma {:induction false} CallRemembered(ss: seq<State>, acts: seq<Action>, r: nat, c: nat, j: nat)
    requires IsRun(ss, acts) && c < j < |ss| && r < |ss[c].readers| && acts[c].Call? && acts[c].r == r
    requires forall k :: c < k < j ==> !(acts[k].Call? && acts[k].r == r)
    ensures r < |ss[j].readers| && !ss[j].readers[r].Ready?
    ensures ss[j].readers[r].guest == acts[c].guest && ss[j].readers[r].start == |ss[c].log|
  {
    assert acts[j - 1] == acts[j - 1];
    if j > c + 1 {
      CallRemembered(ss, acts, r, c, j - 1);
    }
  }

  /** Linearizability.  However the steps interleave, a lookup that returns an answer returns the one that
      was right at some instant between its call and its return. */
  lemma Linearizable(ss: seq<State>, acts: seq<Action>, r: nat, c: nat, e: nat) returns (t: nat)
    requires IsRun(ss, acts) && c < e < |ss| && r < |ss[c].readers| && acts[c].Call? && acts[c].r == r
    requires forall k :: c < k < e ==> !(acts[k].Call? && acts[k].r == r)
    requires r < |ss[e].readers| && ss[e].readers[r].Returned? && ss[e].readers[r].result != GaveUp
    ensures c <= t <= e
    ensures ss[e].readers[r].result == Answer(ss[t].log, acts[c].guest)
  {
    CallRemembered(ss, acts, r, c, e);
    RunInv(ss, acts, e);
    var d := ss[e].readers[r];
    assert ReaderOk(ss[e], d);
    t := Instant(ss, acts, c, e, d.at);
  }

  /** When every inserted path is shorter than 256 bytes, a hit names exactly the pair that was inserted
      last in the entry, with no clear after it; and a miss means that the path was not there. */
  lemma HitIsExact(ss: seq<State>, acts: seq<Action>, r: nat, c: nat, e: nat) returns (t: nat)
    requires IsRun(ss, acts) && c < e < |ss| && r < |ss[c].readers| && acts[c].Call? && acts[c].r == r
    requires forall k :: c < k < e ==> !(acts[k].Call? && acts[k].r == r)
    requires r < |ss[e].readers| && ss[e].readers[r].Returned? && ss[e].readers[r].result != GaveUp
    requires forall op :: op in ss[e].log && op.Insert? ==> |op.guest| < PATH_MAX && |op.host| < PATH_MAX
    ensures c <= t <= e
    ensures var g, log, result := acts[c].guest, ss[t].log, ss[e].readers[r].result;
            if result.Hit? then Current(log, g, result.host) else forall x :: !Current(log, g, x)
  {
    t := Linearizable(ss, acts, r, c, e);
    LogGrows(ss, acts, t, e);
    forall op | op in ss[t].log ensures op in ss[e].log {
      var k :| 0 <= k < |ss[t].log| && ss[t].log[k] == op;
      assert ss[e].log[k] == op;
    }
    match ss[e].readers[r].result
    case Hit(h) => ExactAnswer(ss[t].log, acts[c].guest, h);
    case Absent => ExactAnswer(ss[t].log, acts[c].guest, []);
    case GaveUp =>
  }

  // ----- the history

  /** The operations that the writer has begun. */
  function Begun(acts: seq<Action>): seq<Op> {
    if acts == [] then []
    else Begun(acts[..|acts| - 1]) + if acts[|acts| - 1].LoadLock? then [acts[|acts| - 1].op] else []
  }

  /** The history is what the writer has been asked for, in that order, up to the operation that it is at. */
  lemma {:induction false} HistoryIsAsked(ss: seq<State>, acts: seq<Action>, n: nat)
    requires IsRun(ss, acts) && n < |ss|
    ensures ss[n].log + (if ss[n].writer.Idle? then [] else [ss[n].writer.op]) == Begun(acts[..n])
  {
    hide Stores, Apply, Decide, Prompt, NextReader;
    if n > 0 {
      HistoryIsAsked(ss, acts, n - 1);
      assert acts[..n][..n - 1] == acts[..n - 1];
      assert ss[n] == Next(ss[n - 1], acts[n - 1]);
    }
  }

  // ----- a lookup ends, whatever the writer does

  const CELLS: nat := 2 + 2 * PATH_MAX
  const ROUND: nat := CELLS + 2

  lemma {:induction false} CellsBounded(cells: set<Cell>, n: nat)
    requires forall c :: c in cells ==> (c.Guest? || c.Host? ==> c.i < n)
    ensures |cells| <= 2 + 2 * n
  {
    if n == 0 {
      forall c | c in cells ensures c == Active || c == HashOf {
        assert !(c.Guest? || c.Host?);
      }
      SmallerSet(cells, {Active, HashOf});
    } else {
      var rest := cells - {Guest(n - 1), Host(n - 1)};
      CellsBounded(rest, n - 1);
      SmallerSet(cells, rest + {Guest(n - 1), Host(n - 1)});
    }
  }

  lemma SmallerSet<T>(a: set<T>, b: set<T>)
    requires a <= b
    ensures |a| <= |b|
  {
    assert b == a + (b - a) && |a + (b - a)| == |a| + |b - a|;
  }

  lemma CopyBounded(copy: Copy)
    requires forall c :: c in copy ==> InEntry(c)
    ensures |copy| <= CELLS
  {
    CellsBounded(copy.Keys, PATH_MAX);
    assert |copy.Keys| == |copy|;
  }

  lemma OneMoreCell(copy: Copy, c: Cell, v: nat)
    requires c !in copy
    ensures |copy[c := v]| == |copy| + 1
  {
    assert copy[c := v].Keys == copy.Keys + {c};
    assert |copy.Keys| == |copy| && |copy[c := v].Keys| == |copy[c := v]|;
  }

  /** How many steps of its own a lookup has left at most. */
  ghost function StepsLeft(r: Reader): (n: int) {
    match r
    case AtTop(_, retries, _) => (12 - retries) * ROUND
    case Copying(_, retries, _, _, _, copy) => (12 - retries) * ROUND - 1 - |copy|
    case _ => 0
  }

  lemma StepsLeftPositive(s: State, r: Reader)
    requires ReaderOk(s, r) && (r.AtTop? || r.Copying?)
    ensures StepsLeft(r) > 0 && r.retries <= 11
    ensures r.Copying? ==> forall c :: c in r.copy ==> InEntry(c)
  {
    if r.Copying? {
      CopyBounded(r.copy);
    }
  }

  /** A failed round. */
  lemma RetryNearer(r: Reader, now: nat)
    requires r.AtTop? || (r.Copying? && |r.copy| <= CELLS)
    requires r.retries <= 11
    ensures StepsLeft(Retry(r, now)) < StepsLeft(r)
  {
  }

  /** Each step of a reader brings it nearer to its end: a lookup has at most 12 rounds. */
  lemma OwnStep(s: State, a: Action)
    requires Inv(s) && Enabled(s, a) && !IsWriterAction(a) && !a.Call?
    ensures StepsLeft(NextReader(s, a)) < StepsLeft(s.readers[a.r])
  {
    var r := s.readers[a.r];
    assert ReaderOk(s, r);
    StepsLeftPositive(s, r);
    hide Retry, Inv, ReaderOk;
    match a
    case LoadFirst(_) => RetryNearer(r, |s.log|);
    case CopyCell(_, c) => OneMoreCell(r.copy, c, Get(s.mem, Loc(Slot(r.guest), c)));
    case LoadSecond(_) =>
      CopyBounded(r.copy);
      RetryNearer(r, |s.log|);
  }

  /** A reader is never blocked, not even by a writer that stopped half way. */
  lemma NeverBlocked(s: State, i: nat) returns (a: Action)
    requires Inv(s) && i < |s.readers| && (s.readers[i].AtTop? || s.readers[i].Copying?)
    ensures Enabled(s, a) && !IsWriterAction(a) && !a.Call? && a.r == i
  {
    var r := s.readers[i];
    if r.AtTop? {
      a := LoadFirst(i);
    } else if Complete(r.copy) {
      a := LoadSecond(i);
    } else {
      var c :| InEntry(c) && c !in r.copy;
      a := CopyCell(i, c);
    }
  }

  ghost function OwnSteps(acts: seq<Action>, r: nat, c: nat, e: nat): nat
    requires c <= e <= |acts|
  {
    if c == e then 0
    else OwnSteps(acts, r, c, e - 1) + if !IsWriterAction(acts[e - 1]) && acts[e - 1].r == r then 1 else 0
  }

  /** In every run a lookup takes at most 12 rounds of at most 516 steps, after the call itself. */
  lemma {:induction false} LookupEnds(ss: seq<State>, acts: seq<Action>, r: nat, c: nat, e: nat)
    requires IsRun(ss, acts) && c < e < |ss| && r < |ss[c].readers| && acts[c].Call? && acts[c].r == r
    requires forall k :: c < k < e ==> !(acts[k].Call? && acts[k].r == r)
    ensures r < |ss[e].readers|
    ensures OwnSteps(acts, r, c + 1, e) + StepsLeft(ss[e].readers[r]) <= 12 * ROUND
    ensures OwnSteps(acts, r, c + 1, e) <= 12 * ROUND
  {
    assert acts[e - 1] == acts[e - 1];
    RunInv(ss, acts, e - 1);
    if e > c + 1 {
      LookupEnds(ss, acts, r, c, e - 1);
      if !IsWriterAction(acts[e - 1]) && acts[e - 1].r == r {
        OwnStep(ss[e - 1], acts[e - 1]);
      }
    }
    RunInv(ss, acts, e);
    var d := ss[e].readers[r];
    assert ReaderOk(ss[e], d);
    if d.AtTop? || d.Copying? {
      StepsLeftPositive(ss[e], d);
    }
  }

  // ----- when a lookup gives up

  /** How many rounds the reader began between the two instants. */
  ghost function Rounds(acts: seq<Action>, r: nat, c: nat, e: nat): nat
    requires c <= e <= |acts|
  {
    if c == e then 0 else Rounds(acts, r, c, e - 1) + if acts[e - 1] == LoadFirst(r) then 1 else 0
  }

  /** The round that the reader began at `i` read the counter again at `j`. */
  ghost predicate SecondReading(acts: seq<Action>, r: nat, i: nat, j: nat)
    requires i < j < |acts|
  {
    acts[j] == LoadSecond(r) && forall k :: i < k < j ==> acts[k] != LoadFirst(r)
  }

  /** The round that began at `i` met a write: the counter was odd, or another one at its end. */
  ghost predicate MetAWrite(ss: seq<State>, acts: seq<Action>, r: nat, i: nat, e: nat)
    requires i < e <= |acts| < |ss|
  {
    ss[i].seqlock % 2 == 1 ||
    exists j :: i < j < e && SecondReading(acts, r, i, j) && ss[j].seqlock != ss[i].seqlock
  }

  /** It met none: the counter was even, and the same at its end. */
  ghost predicate MetNone(ss: seq<State>, acts: seq<Action>, r: nat, i: nat, e: nat)
    requires i < e <= |acts| < |ss|
  {
    ss[i].seqlock % 2 == 0 &&
    exists j :: i < j < e && SecondReading(acts, r, i, j) && ss[j].seqlock == ss[i].seqlock
  }

  /** All rounds begun after `c` and before `n` met a write before `e`. */
  ghost predicate AllMetAWrite(ss: seq<State>, acts: seq<Action>, r: nat, c: nat, n: nat, e: nat)
    requires n <= e <= |acts| < |ss|
  {
    forall i {:trigger acts[i]} :: c < i < n && acts[i] == LoadFirst(r) ==> MetAWrite(ss, acts, r, i, e)
  }

  /** `i` is where the last round before `e` began. */
  ghost predicate LastRound(acts: seq<Action>, r: nat, c: nat, i: nat, e: nat)
    requires e <= |acts|
  {
    c < i < e && acts[i] == LoadFirst(r) && forall k :: i < k < e ==> acts[k] != LoadFirst(r)
  }

  /** The last round began at `i` with an even reading; those before it have met writes. */
  ghost predicate ReadsSince(ss: seq<State>, acts: seq<Action>, r: nat, c: nat, i: nat, e: nat, seq1: nat)
    requires e <= |acts| < |ss|
  {
    LastRound(acts, r, c, i, e) && seq1 == ss[i].seqlock && seq1 % 2 == 0 && AllMetAWrite(ss, acts, r, c, i, e)
  }

  /** The last round began at `i` and met no write; those before it have. */
  ghost predicate AnswersIn(ss: seq<State>, acts: seq<Action>, r: nat, c: nat, i: nat, e: nat)
    requires e <= |acts| < |ss|
  {
    LastRound(acts, r, c, i, e) && MetNone(ss, acts, r, i, e) && AllMetAWrite(ss, acts, r, c, i, e)
  }

  /** What the rounds of a lookup that began at `c` have to do with where it is. */
  ghost predicate RoundsFit(ss: seq<State>, acts: seq<Action>, r: nat, c: nat, e: nat, d: Reader)
    requires c < e <= |acts| < |ss|
  {
    match d
    case Ready => true
    case AtTop(_, retries, _) => Rounds(acts, r, c, e) == retries && AllMetAWrite(ss, acts, r, c, e, e)
    case Copying(_, retries, _, seq1, _, _) =>
      && Rounds(acts, r, c, e) == retries + 1
      && exists i: nat :: ReadsSince(ss, acts, r, c, i, e, seq1)
    case Returned(_, _, _, _, result) =>
      if result == GaveUp then Rounds(acts, r, c, e) == 12 && AllMetAWrite(ss, acts, r, c, e, e)
      else
        && Rounds(acts, r, c, e) <= 12
        && exists i: nat :: AnswersIn(ss, acts, r, c, i, e)
  }

  /** What a round met, it has met later on as well. */
  lemma MetKept(ss: seq<State>, acts: seq<Action>, r: nat, c: nat, n: nat, e: nat)
    requires n <= e < |acts| < |ss| && AllMetAWrite(ss, acts, r, c, n, e)
    ensures AllMetAWrite(ss, acts, r, c, n, e + 1)
  {
    forall i {:trigger acts[i]} | c < i < n && acts[i] == LoadFirst(r) ensures MetAWrite(ss, acts, r, i, e + 1) {
      assert MetAWrite(ss, acts, r, i, e);
    }
  }

  /** A step of somebody else, or one that copies a cell. */
  lemma RoundsStay(ss: seq<State>, acts: seq<Action>, r: nat, c: nat, e: nat, d: Reader, d': Reader)
    requires c < e < |acts| < |ss| && RoundsFit(ss, acts, r, c, e, d)
    requires acts[e] != LoadFirst(r) && (d' == d || (d.Copying? && d'.Copying? && d' == d.(copy := d'.copy)))
    ensures RoundsFit(ss, acts, r, c, e + 1, d')
  {
    match d
    case Ready =>
    case AtTop(_, retries, _) => MetKept(ss, acts, r, c, e, e);
    case Copying(_, retries, _, seq1, _, _) =>
      var i: nat :| ReadsSince(ss, acts, r, c, i, e, seq1);
      MetKept(ss, acts, r, c, i, e);
      assert ReadsSince(ss, acts, r, c, i, e + 1, seq1);
    case Returned(_, _, _, _, result) =>
      if result == GaveUp {
        MetKept(ss, acts, r, c, e, e);
      } else {
        var i: nat :| AnswersIn(ss, acts, r, c, i, e);
        MetKept(ss, acts, r, c, i, e);
        assert AnswersIn(ss, acts, r, c, i, e + 1);
      }
  }

  lemma FirstReading(ss: seq<State>, acts: seq<Action>, r: nat, c: nat, e: nat)
    requires c < e < |acts| < |ss| && r < |ss[e].readers| && acts[e] == LoadFirst(r) && Enabled(ss[e], acts[e])
    requires RoundsFit(ss, acts, r, c, e, ss[e].readers[r])
    requires ss[e].readers[r].retries <= 11
    ensures RoundsFit(ss, acts, r, c, e + 1, NextReader(ss[e], acts[e]))
  {
    MetKept(ss, acts, r, c, e, e);
    if ss[e].seqlock % 2 == 1 {
      assert MetAWrite(ss, acts, r, e, e + 1);
    } else {
      assert ReadsSince(ss, acts, r, c, e, e + 1, ss[e].seqlock);
    }
  }

  lemma SecondReadingDone(ss: seq<State>, acts: seq<Action>, r: nat, c: nat, e: nat)
    requires c < e < |acts| < |ss| && r < |ss[e].readers| && acts[e] == LoadSecond(r) && Enabled(ss[e], acts[e])
    requires RoundsFit(ss, acts, r, c, e, ss[e].readers[r])
    requires ss[e].readers[r].retries <= 11
    ensures RoundsFit(ss, acts, r, c, e + 1, NextReader(ss[e], acts[e]))
  {
    var d := ss[e].readers[r];
    var i: nat :| ReadsSince(ss, acts, r, c, i, e, d.seq1);
    MetKept(ss, acts, r, c, i, e);
    assert SecondReading(acts, r, i, e);
    if d.seq1 == ss[e].seqlock {
      assert AnswersIn(ss, acts, r, c, i, e + 1);
      DecidedNotGivenUp(d.copy, d.guest);
    } else {
      assert MetAWrite(ss, acts, r, i, e + 1);
    }
  }

  lemma DecidedNotGivenUp(copy: Copy, g: seq<nat>)
    requires Complete(copy)
    ensures Decide(copy, g) != GaveUp
  {
  }

  lemma NoRounds(ss: seq<State>, acts: seq<Action>, r: nat, c: nat, d: Reader)
    requires c < |acts| < |ss| && acts[c].Call? && d.AtTop? && d.retries == 0
    ensures RoundsFit(ss, acts, r, c, c + 1, d)
  {
    assert Rounds(acts, r, c, c) == 0;
  }

  lemma {:induction false} RoundsSoFar(ss: seq<State>, acts: seq<Action>, r: nat, c: nat, e: nat)
    requires IsRun(ss, acts) && c < e < |ss| && r < |ss[c].readers| && acts[c].Call? && acts[c].r == r
    requires forall k :: c < k < e ==> !(acts[k].Call? && acts[k].r == r)
    ensures r < |ss[e].readers| && RoundsFit(ss, acts, r, c, e, ss[e].readers[r])
  {
    hide RoundsFit, WriterOk, Stores, Replay, Decide;
    assert acts[e - 1] == acts[e - 1];
    if e == c + 1 {
      NoRounds(ss, acts, r, c, ss[e].readers[r]);
    } else {
      RoundsSoFar(ss, acts, r, c, e - 1);
      RunInv(ss, acts, e - 1);
      var s, a := ss[e - 1], acts[e - 1];
      var d := s.readers[r];
      assert ReaderOk(s, d);
      if a == LoadFirst(r) {
        FirstReading(ss, acts, r, c, e - 1);
      } else if a == LoadSecond(r) {
        SecondReadingDone(ss, acts, r, c, e - 1);
      } else {
        RoundsStay(ss, acts, r, c, e - 1, d, ss[e].readers[r]);
      }
    }
  }

  /** A lookup gives up when it has begun exactly 12 rounds and each of them met a write; otherwise it answers in
      the first round that met none, the twelfth at the latest. */
  lemma GivesUpExactly(ss: seq<State>, acts: seq<Action>, r: nat, c: nat, e: nat)
    requires IsRun(ss, acts) && c < e < |ss| && r < |ss[c].readers| && acts[c].Call? && acts[c].r == r
    requires forall k :: c < k < e ==> !(acts[k].Call? && acts[k].r == r)
    requires r < |ss[e].readers| && ss[e].readers[r].Returned?
    ensures if ss[e].readers[r].result == GaveUp then
              Rounds(acts, r, c, e) == 12 && AllMetAWrite(ss, acts, r, c, e, e)
            else
              Rounds(acts, r, c, e) <= 12 && exists i: nat :: AnswersIn(ss, acts, r, c, i, e)
  {
    RoundsSoFar(ss, acts, r, c, e);
  }
}
