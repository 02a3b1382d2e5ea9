/** Running scripts: the interpreter named by a script takes its place, and the arguments are rewritten in the
    memory of the tracee. */
module ExpandShebang {
  import opened Common
  import opened Words
  import opened Argv
  import Shebang

  type Path = seq<Byte>

  type Errno = e: int | e > 0 witness 1

  /** What there is at a path: something that cannot be executed, something that cannot be read, or a file. */
  datatype File = Unusable(errno: Errno) | Unreadable(errno: Errno) | Readable(content: seq<Byte>)

  type Files = Path -> File

  datatype Outcome = Failed(status: int) | Expanded(path: Path, args: seq<Pointee>, depth: nat)

  /** `translate_and_check_exec` */
  function Check(files: Files, path: Path): int {
    if path == [] then -Shebang.ENOEXEC
    else
      match files(path)
      case Unusable(errno) => -(errno as int)
      case _ => 0
  }

  /** The arguments for the interpreter of a script: interpreter, optional argument, script, and what followed the
      first argument. */
  function Rewrite(args: seq<Pointee>, interpreter: Path, argument: seq<Byte>, script: Path): seq<Pointee> {
    [Argv.Text(interpreter)] + (if argument == [] then [] else [Argv.Text(argument)]) + [Argv.Text(script)]
    + if args == [] then [] else args[1..]
  }

  function Expand(files: Files, path: Path, args: seq<Pointee>, depth: nat): Outcome
    decreases MAXSYMLINKS - depth
  {
    if depth >= MAXSYMLINKS then Failed(-Shebang.ELOOP)
    else if Check(files, path) != 0 then Failed(Check(files, path))
    else
      match files(path)
      case Unusable(errno) => Failed(-(errno as int))
      case Unreadable(errno) => Failed(-(errno as int))
      case Readable(content) =>
        match Shebang.Extract(content)
        case NoShebang => Expanded(path, args, depth)
        case Malformed => Failed(-Shebang.ENOEXEC)
        case Interpreter(interpreter, argument) =>
          if Check(files, interpreter) != 0 then Failed(Check(files, interpreter))
          else Expand(files, interpreter, Rewrite(args, interpreter, argument, path), depth + 1)
  }

  // ----- chains of scripts

  /** What running a path leads to: a program, a script that is run by what comes next, a failure, or something that
      can be executed and is not looked at. */
  datatype Chain =
    | Program(path: Path)
    | Script(path: Path, argument: seq<Byte>, rest: Chain)
    | Broken(path: Path, errno: Errno)
    | Unseen(path: Path)

  predicate Executable(files: Files, path: Path) {
    path != [] && !files(path).Unusable?
  }

  predicate IsChain(files: Files, c: Chain) {
    match c
    case Program(path) =>
      Executable(files, path) && files(path).Readable? && Shebang.Extract(files(path).content) == Shebang.NoShebang
    case Script(path, argument, rest) =>
      && Executable(files, path) && files(path).Readable?
      && Shebang.Extract(files(path).content) == Shebang.Interpreter(rest.path, argument) && IsChain(files, rest)
    case Broken(path, errno) =>
      if path == [] then errno == 8
      else if !files(path).Readable? then errno == files(path).errno
      else errno == 8 && Shebang.Extract(files(path).content) == Shebang.Malformed
    case Unseen(path) => Executable(files, path)
  }

  function Length(c: Chain): nat {
    if c.Script? then 1 + Length(c.rest) else 0
  }

  function Last(c: Chain): Chain {
    if c.Script? then Last(c.rest) else c
  }

  /** What a chain puts in front of the arguments: its last program, and going back through the chain each
      argument, if any, and each script. */
  function Spine(c: Chain, behind: seq<Pointee>): seq<Pointee> {
    if c.Script? then
      Spine(c.rest, (if c.argument == [] then [] else [Argv.Text(c.argument)]) + [Argv.Text(c.path)] + behind)
    else [Argv.Text(c.path)] + behind
  }

  function Rest(args: seq<Pointee>): seq<Pointee> {
    if args == [] then [] else args[1..]
  }

  /** The outcome of a chain that begins below the limit.  An interpreter that cannot be executed is found out
      together with its script, one round before its turn. */
  function ChainOutcome(files: Files, c: Chain, args: seq<Pointee>, depth: nat): Outcome {
    var last, n := Last(c), depth + Length(c);
    if last.Broken? && (n < 20 || (n == 20 && c.Script? && !Executable(files, last.path))) then
      Failed(-(last.errno as int))
    else if n >= 20 || !last.Program? then Failed(-40)
    else Expanded(last.path, if c.Script? then Spine(c, Rest(args)) else args, n)
  }

  lemma RewrittenArgs(args: seq<Pointee>, interpreter: Path, argument: seq<Byte>, script: Path)
    ensures var args' := Rewrite(args, interpreter, argument, script);
            var behind := (if argument == [] then [] else [Argv.Text(argument)]) + [Argv.Text(script)] + Rest(args);
            args' == [Argv.Text(interpreter)] + behind && Rest(args') == behind
  {
    var behind := (if argument == [] then [] else [Argv.Text(argument)]) + [Argv.Text(script)] + Rest(args);
    assert Rewrite(args, interpreter, argument, script) == [Argv.Text(interpreter)] + behind;
  }

  /** The k-fold rewriting in closed form: the arguments behind the first stay what they were; the first failure
      counts; and there may be 19 scripts in a row, not 20. */
  lemma {:induction false} ChainExpands(files: Files, c: Chain, args: seq<Pointee>, depth: nat)
    requires IsChain(files, c) && depth < MAXSYMLINKS && (Last(c).Unseen? ==> depth + Length(c) >= MAXSYMLINKS)
    ensures Expand(files, c.path, args, depth) == ChainOutcome(files, c, args, depth)
    decreases c
  {
    hide Shebang.Extract;
    if c.Script? {
      assert Length(c) == 1 + Length(c.rest) && Last(c) == Last(c.rest);
      assert c.rest.Script? || Last(c.rest) == c.rest;
      var args' := Rewrite(args, c.rest.path, c.argument, c.path);
      if depth + 1 < MAXSYMLINKS {
        ChainExpands(files, c.rest, args', depth + 1);
      }
      RewrittenArgs(args, c.rest.path, c.argument, c.path);
      assert Expand(files, c.path, args, depth)
          == if Check(files, c.rest.path) != 0 then Failed(Check(files, c.rest.path))
             else Expand(files, c.rest.path, args', depth + 1);
      assert IsChain(files, c.rest);
      if !Executable(files, c.rest.path) {
        assert c.rest.Broken? && Check(files, c.rest.path) == -(c.rest.errno as int);
      } else if depth + 1 >= MAXSYMLINKS {
        assert Expand(files, c.rest.path, args', depth + 1) == Failed(-40);
        assert depth + Length(c) >= 20;
        assert c.rest.Script? ==> depth + Length(c) > 20;
      } else {
        assert Spine(c, Rest(args)) == Spine(c.rest, Rest(args'));
      }
    }
  }

  /** Any path begins a chain, which can be followed as far as one likes. */
  function Follow(files: Files, path: Path, n: nat): Chain
    decreases n
  {
    if path == [] then Broken(path, 8)
    else
      match files(path)
      case Unusable(errno) => Broken(path, errno)
      case Unreadable(errno) => if n == 0 then Unseen(path) else Broken(path, errno)
      case Readable(content) =>
        if n == 0 then Unseen(path)
        else
          match Shebang.Extract(content)
          case NoShebang => Program(path)
          case Malformed => Broken(path, 8)
          case Interpreter(interpreter, argument) => Script(path, argument, Follow(files, interpreter, n - 1))
  }

  lemma {:induction false} Follows(files: Files, path: Path, n: nat)
    ensures var c := Follow(files, path, n); IsChain(files, c) && c.path == path && (Last(c).Unseen? ==> Length(c) >= n)
    decreases n
  {
    if n > 0 && Executable(files, path) && files(path).Readable? {
      var line := Shebang.Extract(files(path).content);
      if line.Interpreter? {
        Follows(files, line.path, n - 1);
      }
    }
  }

  /** So the outcome is known for every file system, path and arguments. */
  lemma EveryOutcome(files: Files, path: Path, args: seq<Pointee>)
    ensures exists c :: IsChain(files, c) && c.path == path && (Last(c).Unseen? ==> Length(c) >= 20)
                        && Expand(files, path, args, 0) == ChainOutcome(files, c, args, 0)
  {
    var c := Follow(files, path, 20);
    Follows(files, path, 20);
    ChainExpands(files, c, args, 0);
  }

  // ----- the rewriting in memory

  function Meanings(xs: seq<XPointer>, mem: seq<Byte>): (r: seq<Pointee>)
    ensures |r| == |xs|
  {
    seq(|xs|, i requires 0 <= i < |xs| => Meaning(xs[i], mem))
  }

  /** An array for these arguments, whose pointers into the tracee are among those that it was fetched with. */
  ghost predicate IsArgv(xs: seq<XPointer>, mem: seq<Byte>, args: seq<Pointee>, w: nat, remotes: seq<nat>) {
    && Terminated(xs, w) && Meanings(xs, mem) == args + [Null]
    && forall i {:trigger xs[i]} :: 0 <= i < |xs| && xs[i].local.NotCached? && xs[i].remote != 0 ==> xs[i].remote in remotes
  }

  /** The entries after a rewriting: what is in front is cached. */
  ghost predicate Rewritten(xs: seq<XPointer>, zs: seq<XPointer>, front: seq<seq<Byte>>) {
    var n := |front|;
    && xs != [] && |zs| == n + (if |xs| == 1 then 1 else |xs| - 1)
    && (forall i {:trigger zs[i]} :: 0 <= i < n ==> zs[i].local == Cached(front[i]))
    && (forall i {:trigger zs[i]} :: 0 <= i < n ==> zs[i].remote == 0 || zs[i].remote == xs[0].remote)
    && (forall i {:trigger zs[i]} :: n <= i < |zs| ==> zs[i] == if |xs| == 1 then xs[0] else xs[i - n + 1])
  }

  function Front(interpreter: Path, argument: seq<Byte>, script: Path): seq<seq<Byte>> {
    [interpreter] + (if argument == [] then [] else [argument]) + [script]
  }

  /** Rewriting the entries rewrites what they mean. */
  lemma RewrittenMeans(xs: seq<XPointer>, zs: seq<XPointer>, mem: seq<Byte>, args: seq<Pointee>, w: nat, remotes: seq<nat>,
                       interpreter: Path, argument: seq<Byte>, script: Path)
    requires IsArgv(xs, mem, args, w, remotes) && Rewritten(xs, zs, Front(interpreter, argument, script))
    requires IsText(interpreter) && IsText(argument) && IsText(script)
    ensures IsArgv(zs, mem, Rewrite(args, interpreter, argument, script), w, remotes) && AnyCached(zs)
  {
    var front := Front(interpreter, argument, script);
    var n := |front|;
    var args' := Rewrite(args, interpreter, argument, script) + [Null];
    assert |args| + 1 == |xs|;
    assert |args'| == |zs|;
    forall i | 0 <= i < |zs| ensures Meanings(zs, mem)[i] == args'[i] {
      if i >= n && |xs| > 1 {
        assert Meanings(xs, mem)[i - n + 1] == (args + [Null])[i - n + 1];
      } else if i >= n {
        assert Meanings(xs, mem)[0] == (args + [Null])[0];
      }
    }
    assert zs[0].local.Cached?;
    assert zs[|zs| - 1] == xs[|xs| - 1];
    forall i | 0 <= i < |zs| ensures EntryKept(xs, zs, i, w, remotes) {
      if i >= n {
        var j := if |xs| == 1 then 0 else i - n + 1;
        assert zs[i] == xs[j];
      } else {
        assert xs[0].remote < Power256(w);
        assert front[i] == interpreter || front[i] == argument || front[i] == script;
      }
    }
    KeptAll(xs, zs, w, remotes);
  }

  ghost predicate EntryKept(xs: seq<XPointer>, zs: seq<XPointer>, i: nat, w: nat, remotes: seq<nat>)
    requires i < |zs|
  {
    && (i < |zs| - 1 ==> zs[i].local.Cached? || zs[i].remote != 0)
    && zs[i].remote < Power256(w) && (zs[i].local.Cached? ==> IsText(zs[i].local.text))
    && (zs[i].local.NotCached? && zs[i].remote != 0 ==> zs[i].remote in remotes)
  }

  lemma KeptAll(xs: seq<XPointer>, zs: seq<XPointer>, w: nat, remotes: seq<nat>)
    requires zs != [] && zs[|zs| - 1] == NULL_ENTRY
    requires forall i {:trigger EntryKept(xs, zs, i, w, remotes)} :: 0 <= i < |zs| ==> EntryKept(xs, zs, i, w, remotes)
    ensures Terminated(zs, w)
    ensures forall i {:trigger zs[i]} :: 0 <= i < |zs| && zs[i].local.NotCached? && zs[i].remote != 0 ==>
              zs[i].remote in remotes
  {
    forall i {:trigger zs[i]} | 0 <= i < |zs|
      ensures i < |zs| - 1 ==> zs[i].local.Cached? || zs[i].remote != 0
      ensures zs[i].remote < Power256(w) && (zs[i].local.Cached? ==> IsText(zs[i].local.text))
      ensures zs[i].local.NotCached? && zs[i].remote != 0 ==> zs[i].remote in remotes
    {
      assert EntryKept(xs, zs, i, w, remotes);
    }
  }

  /** What has been written is in front. */
  ghost predicate CachedFront(xs: seq<XPointer>, n: int) {
    0 <= n <= |xs| && forall i {:trigger xs[i]} :: 0 <= i < |xs| ==> (xs[i].local.Cached? <==> i < n)
  }

  lemma RewrittenFront(xs: seq<XPointer>, zs: seq<XPointer>, front: seq<seq<Byte>>, n: nat)
    requires Rewritten(xs, zs, front) && CachedFront(xs, n) && (|xs| == 1 ==> n == 0)
    ensures CachedFront(zs, |front| + if n == 0 then 0 else n - 1)
  {
  }

  /** The room that strings take, with their terminators. */
  function Strings(args: seq<Pointee>): nat {
    if args == [] then 0
    else Strings(args[..|args| - 1]) + if args[|args| - 1].Text? then |args[|args| - 1].s| + 1 else 0
  }

  lemma {:induction false} TextsNeed(xs: seq<XPointer>, mem: seq<Byte>, args: seq<Pointee>, n: nat, k: nat)
    requires CachedFront(xs, n) && Meanings(xs, mem) == args + [Null] && n <= |args| && k <= |xs|
    ensures TextSize(xs[..k]) == Strings(args[..if k < n then k else n])
  {
    if k > 0 {
      TextsNeed(xs, mem, args, n, k - 1);
      assert xs[..k][..k - 1] == xs[..k - 1];
      if k <= n {
        assert args[..k][..k - 1] == args[..k - 1];
        assert Meanings(xs, mem)[k - 1] == args[k - 1];
        assert xs[k - 1].local.Cached?;
      }
    }
  }

  /** The room on the stack for these arguments if the first n strings are new: the pointers, then the strings. */
  function Needed(args: seq<Pointee>, n: nat, w: nat): nat
    requires n <= |args|
  {
    (if w == 4 then 4 else 8) * (|args| + 1) + Strings(args[..n])
  }

  lemma BlockNeeds(xs: seq<XPointer>, mem: seq<Byte>, args: seq<Pointee>, n: nat, w: nat)
    requires CachedFront(xs, n) && Meanings(xs, mem) == args + [Null] && n <= |args|
    ensures BlockSize(xs, w) == Needed(args, n, w)
  {
    TextsNeed(xs, mem, args, n, |xs|);
    assert |xs| == |args| + 1;
  }

  lemma FrontWritten(xs: seq<XPointer>, ys: seq<XPointer>, zs: seq<XPointer>, front: seq<seq<Byte>>)
    requires xs != [] && front != [] && ys == Resized(xs, 0, |front| - 1 + if |xs| == 1 then 1 else 0) && |zs| == |ys|
    requires xs[0].remote == 0 || |xs| > 1
    requires forall i {:trigger zs[i]} :: 0 <= i < |zs| ==>
               zs[i] == if i < |front| then XPointer(ys[i].remote, Cached(front[i])) else ys[i]
    ensures Rewritten(xs, zs, front)
  {
    var delta := |front| - 1 + if |xs| == 1 then 1 else 0;
    forall i | 0 <= i < |ys| ensures ys[i] == if i < delta then NULL_ENTRY else xs[i - delta] {
    }
  }

  lemma ArgvShape(xs: seq<XPointer>, mem: seq<Byte>, args: seq<Pointee>, w: nat, remotes: seq<nat>)
    requires IsArgv(xs, mem, args, w, remotes)
    ensures |xs| == |args| + 1 && (xs[0].remote == 0 || |xs| > 1)
  {
  }

  /** Room is made in front of the array, and these strings are written there; a first argument makes way for them. */
  method WriteFront(argv: ArrayOfXPointers, front: seq<seq<Byte>>)
    requires front != [] && argv.xpointers.Length > 0 && (argv.xpointers[0].remote == 0 || argv.xpointers.Length > 1)
    modifies argv, argv.xpointers
    ensures argv.xpointers == old(argv.xpointers) || fresh(argv.xpointers)
    ensures Rewritten(old(argv.xpointers[..]), argv.xpointers[..], front)
  {
    hide Resized, IsResized, Rewritten;
    ghost var xs := argv.xpointers[..];
    argv.Resize(0, |front| - 1 + if argv.xpointers.Length == 1 then 1 else 0);
    ghost var ys := argv.xpointers[..];
    argv.WriteAll(front);
    FrontWritten(xs, ys, argv.xpointers[..], front);
  }

  /** The arguments of one script, in place. */
  method RewriteArgv(argv: ArrayOfXPointers, interpreter: Path, argument: seq<Byte>, script: Path,
                     ghost mem: seq<Byte>, ghost args: seq<Pointee>, ghost w: nat, ghost remotes: seq<nat>, ghost n: nat)
    requires IsArgv(argv.xpointers[..], mem, args, w, remotes) && CachedFront(argv.xpointers[..], n) && n <= |args|
    requires IsText(interpreter) && IsText(argument) && IsText(script)
    modifies argv, argv.xpointers
    ensures argv.xpointers == old(argv.xpointers) || fresh(argv.xpointers)
    ensures IsArgv(argv.xpointers[..], mem, Rewrite(args, interpreter, argument, script), w, remotes)
    ensures AnyCached(argv.xpointers[..])
    ensures var added := if argument == [] then 2 else 3;
            CachedFront(argv.xpointers[..], added + if n == 0 then 0 else n - 1)
  {
    ghost var xs := argv.xpointers[..];
    ArgvShape(xs, mem, args, w, remotes);
    hide IsArgv, CachedFront, IsText, AnyCached, Rewritten, Rewrite;
    if argument != [] {
      WriteFront(argv, [interpreter, argument, script]);
    } else {
      WriteFront(argv, [interpreter, script]);
    }
    ghost var front := Front(interpreter, argument, script);
    assert front == if argument == [] then [interpreter, script] else [interpreter, argument, script];
    RewrittenMeans(xs, argv.xpointers[..], mem, args, w, remotes, interpreter, argument, script);
    RewrittenFront(xs, argv.xpointers[..], front, n);
  }

  /** The strings of the tracee lie outside of a region. */
  ghost predicate OwnApart(remotes: seq<nat>, mem: seq<Byte>, from: nat, to: nat) {
    from <= to && forall r :: r in remotes && r != 0 ==> Apart(XPointer(r, NotCached), mem, from, to - from)
  }

  /** The tracee finds these arguments behind its register. */
  ghost predicate Finds(mem: seq<Byte>, argv: nat, w: nat, args: seq<Pointee>)
    requires w > 0
  {
    match PointersAt(mem, argv, w)
    case Unreadable => false
    case Pointers(remotes) => Meanings(Entries(remotes), mem) == args + [Null]
  }

  lemma PushedFinds(xs: seq<XPointer>, mem: seq<Byte>, mem': seq<Byte>, at: nat, top: nat, w: nat, args: seq<Pointee>,
                    remotes: seq<nat>)
    requires IsArgv(xs, mem, args, w, remotes) && Pushed(xs, mem, mem', at, w) && 0 < at && at + BlockSize(xs, w) <= top
    requires |mem| <= Power256(w) && OwnApart(remotes, mem, at, top)
    ensures Finds(mem', at, w, args)
  {
    PushFetch(xs, mem, at, w);
    var found := Entries(Remotes(xs, at, w));
    forall i | 0 <= i < |xs| ensures Meanings(found, mem')[i] == Meanings(xs, mem)[i] {
      assert xs[i].local.Cached? || xs[i].remote == 0 || Apart(xs[i], mem, at, BlockSize(xs, w)) by {
        if xs[i].local.NotCached? && xs[i].remote != 0 {
          assert xs[i].remote in remotes;
          assert Apart(XPointer(xs[i].remote, NotCached), mem, at, top - at);
        }
      }
    }
  }

  lemma {:induction false} PointersShape(mem: seq<Byte>, addr: nat, w: nat, i: nat)
    requires w > 0 && PointersAt(mem, addr, w).Pointers? && i < |PointersAt(mem, addr, w).remotes|
    ensures var remotes := PointersAt(mem, addr, w).remotes;
            remotes[i] < Power256(w) && (remotes[i] == 0 <==> i == |remotes| - 1)
    decreases i
  {
    ValueBound(mem[addr..addr + w]);
    var remotes := PointersAt(mem, addr, w).remotes;
    if remotes[0] != 0 && i > 0 {
      PointersShape(mem, addr + w, w, i - 1);
      assert remotes[i] == PointersAt(mem, addr + w, w).remotes[i - 1];
    } else if remotes[0] != 0 {
      PointersNonEmpty(mem, addr + w, w);
    }
  }

  /** The arguments that a tracee was given. */
  ghost function Given(remotes: seq<nat>, mem: seq<Byte>): seq<Pointee>
    requires remotes != []
  {
    Meanings(Entries(remotes), mem)[..|remotes| - 1]
  }

  lemma FetchedIsArgv(mem: seq<Byte>, addr: nat, w: nat)
    requires w > 0 && PointersAt(mem, addr, w).Pointers?
    ensures var remotes := PointersAt(mem, addr, w).remotes;
            remotes != [] && IsArgv(Entries(remotes), mem, Given(remotes, mem), w, remotes)
  {
    var remotes := PointersAt(mem, addr, w).remotes;
    PointersNonEmpty(mem, addr, w);
    forall i | 0 <= i < |remotes| ensures remotes[i] < Power256(w) && (remotes[i] == 0 <==> i == |remotes| - 1) {
      PointersShape(mem, addr, w, i);
    }
    var ms := Meanings(Entries(remotes), mem);
    assert ms == ms[..|remotes| - 1] + [ms[|remotes| - 1]];
  }

  lemma {:induction false} CStringIsText(s: seq<Byte>)
    ensures IsText(Shebang.CString(s))
  {
    if s != [] && s[0] != 0 {
      CStringIsText(s[1..]);
    }
  }

  lemma {:induction false} PathIsText(c: seq<Byte>, pos: nat, path: seq<Byte>)
    requires 0 < pos <= |c|
    ensures var line := Shebang.Slurp(c, pos, path); line.Interpreter? && IsText(line.path) && IsText(line.argument)
    decreases |c| - pos
  {
    CStringIsText(path);
    if pos < |c| {
      PathIsText(c, pos + 1, path + [if Shebang.Blank(c[pos - 1]) then 0 else c[pos - 1]]);
    }
    ArgumentIsText(c, pos, []);
  }

  lemma {:induction false} ArgumentIsText(c: seq<Byte>, pos: nat, argument: seq<Byte>)
    requires 0 < pos <= |c|
    ensures IsText(Shebang.SlurpArgument(c, pos, argument))
    decreases |c| - pos
  {
    CStringIsText(argument);
    CStringIsText(Shebang.Strip(argument));
    if pos < |c| {
      ArgumentIsText(c, pos + 1, argument + [c[pos - 1]]);
    }
  }

  lemma LineIsText(c: seq<Byte>)
    ensures var line := Shebang.Extract(c); line.Interpreter? ==> IsText(line.path) && IsText(line.argument)
  {
    if |c| >= 2 && c[0] == Shebang.HASH && c[1] == Shebang.BANG && Shebang.Skip(c, 2).Reached? {
      PathIsText(c, Shebang.Skip(c, 2).pos, []);
    }
  }

  /** The arguments of a tracee, if its pointers can be read. */
  ghost predicate Readable(t: Tracee, args: seq<Pointee>, remotes: seq<nat>)
    requires t.w > 0
    reads t
  {
    && PointersAt(t.mem, t.argv, t.w) == Pointers(remotes) && remotes != []
    && args == Given(remotes, t.mem)
  }

  method FetchArgv(t: Tracee, ghost args: seq<Pointee>, ghost remotes: seq<nat>)
    returns (status: int, argv: ArrayOfXPointers)
    requires t.w > 0 && (PointersAt(t.mem, t.argv, t.w).Pointers? ==> Readable(t, args, remotes))
    ensures fresh(argv) && fresh(argv.xpointers)
    ensures if PointersAt(t.mem, t.argv, t.w).Pointers?
            then
              status == 0 && IsArgv(argv.xpointers[..], t.mem, args, t.w, remotes) && CachedFront(argv.xpointers[..], 0)
            else status == -EFAULT
  {
    var xs;
    status, xs := FetchArray(t);
    argv := new ArrayOfXPointers(xs);
    if status == 0 {
      FetchedIsArgv(t.mem, t.argv, t.w);
    }
  }

  /** A script whose interpreter can be executed. */
  predicate RunsByOther(files: Files, path: Path) {
    && Executable(files, path) && files(path).Readable?
    && match Shebang.Extract(files(path).content)
       case Interpreter(interpreter, _) => Executable(files, interpreter)
       case _ => false
  }

  /** For a tracee whose pointers cannot be read it makes a difference only whether there is a script to run. */
  ghost predicate NoPointers(files: Files, userPath: Path, status: int, program: Path) {
    if RunsByOther(files, userPath) then status == -14
    else
      match Expand(files, userPath, [], 0)
      case Failed(failure) => status == failure
      case Expanded(path, _, depth) => status == 0 && program == path == userPath
  }

  /** One turn of the loop of `expand_shebang`: nothing left to do, a failure, or an interpreter and its
      argument. */
  datatype Turn = Stop | Fail(status: int) | Next(interpreter: Path, argument: seq<Byte>)

  method NextInterpreter(files: Files, path: Path) returns (turn: Turn)
    ensures NoPointers(files, path, match turn case Stop => 0 case Fail(status) => status case Next(_, _) => -14, path)
    ensures forall args: seq<Pointee>, depth: nat | depth < MAXSYMLINKS ::
              Expand(files, path, args, depth) ==
              match turn
              case Stop => Expanded(path, args, depth)
              case Fail(status) => Failed(status)
              case Next(interpreter, argument) =>
                Expand(files, interpreter, Rewrite(args, interpreter, argument, path), depth + 1)
    ensures turn.Next? ==> IsText(turn.interpreter) && IsText(turn.argument)
    ensures turn.Fail? ==> turn.status != 0
  {
    var status := Check(files, path);
    if status != 0 {
      return Fail(status);
    }
    var file := files(path);
    if file.Unreadable? {
      return Fail(-(file.errno as int));
    }
    var line := Shebang.ExtractShebang(file.content);
    if line.NoShebang? {
      return Stop;
    }
    if line.Malformed? {
      return Fail(-Shebang.ENOEXEC);
    }
    status := Check(files, line.path);
    if status != 0 {
      return Fail(status);
    }
    LineIsText(file.content);
    turn := Next(line.path, line.argument);
  }

  /** The loop of `expand_shebang`; the array is fetched when the first script is found. */
  method ExpandAll(t: Tracee, files: Files, userPath: Path, ghost given: seq<Pointee>, ghost remotes: seq<nat>)
    returns (status: int, program: Path, argv: ArrayOfXPointers?, ghost args: seq<Pointee>)
    requires IsWordSize(t.w) && IsText(userPath)
    requires PointersAt(t.mem, t.argv, t.w).Pointers? ==> Readable(t, given, remotes)
    ensures status <= 0
    ensures PointersAt(t.mem, t.argv, t.w).Pointers? ==>
              var out := Expand(files, userPath, given, 0);
              if out.Failed? then status == out.status && status != 0
              else status == 0 && program == out.path && args == out.args && (argv == null <==> out.depth == 0)
    ensures PointersAt(t.mem, t.argv, t.w).Unreadable? ==> NoPointers(files, userPath, status, program) && argv == null
    ensures status == 0 && argv == null ==> program == userPath
    ensures status == 0 && argv != null ==>
              && fresh(argv) && fresh(argv.xpointers) && AnyCached(argv.xpointers[..])
              && IsArgv(argv.xpointers[..], t.mem, args, t.w, remotes) && PointersAt(t.mem, t.argv, t.w).Pointers?
              && |args| > |Rest(given)| && CachedFront(argv.xpointers[..], |args| - |Rest(given)|)
  {
    hide IsArgv, Rewrite, PointersAt, IsText, AnyCached, CachedFront, NoPointers, Expand, Rest;
    status, program, argv, args := 0, userPath, null, given;
    var i := 0;
    while i < MAXSYMLINKS
      invariant i <= MAXSYMLINKS && IsText(program) && status == 0
      invariant if i == 0 then argv == null && program == userPath && args == given else argv != null
      invariant Expand(files, userPath, given, 0) == Expand(files, program, args, i)
      invariant argv != null ==>
        && fresh(argv) && fresh(argv.xpointers) && AnyCached(argv.xpointers[..])
        && IsArgv(argv.xpointers[..], t.mem, args, t.w, remotes) && PointersAt(t.mem, t.argv, t.w).Pointers?
        && |args| > |Rest(given)| && CachedFront(argv.xpointers[..], |args| - |Rest(given)|)
    {
      var turn := NextInterpreter(files, program);
      match turn {
        case Stop => return;
        case Fail(failure) =>
          FailsBelow(files, program, args, i);
          status := failure;
          return;
        case Next(interpreter, argument) =>
          if argv == null {
            status, argv := FetchArgv(t, given, remotes);
            if status < 0 {
              argv := null;
              return;
            }
          }
          ghost var n := if i == 0 then 0 else |args| - |Rest(given)|;
          RewrittenArgs(args, interpreter, argument, program);
          RestShorter(args);
          RestShorter(given);
          RewriteArgv(argv, interpreter, argument, program, t.mem, args, t.w, remotes, n);
          args := Rewrite(args, interpreter, argument, program);
          program := interpreter;
          i := i + 1;
      }
    }
    AtLimit(files, program, args);
    status := -Shebang.ELOOP;
  }

  lemma AtLimit(files: Files, path: Path, args: seq<Pointee>)
    ensures Expand(files, path, args, MAXSYMLINKS) == Failed(-Shebang.ELOOP)
  {
  }

  lemma RestShorter(args: seq<Pointee>)
    ensures |Rest(args)| == if args == [] then 0 else |args| - 1
  {
  }

  lemma {:induction false} FailsBelow(files: Files, path: Path, args: seq<Pointee>, depth: nat)
    ensures var out := Expand(files, path, args, depth); out.Failed? ==> out.status < 0
    decreases MAXSYMLINKS - depth
  {
    if depth < MAXSYMLINKS && Check(files, path) == 0 && files(path).Readable? {
      var line := Shebang.Extract(files(path).content);
      if line.Interpreter? {
        FailsBelow(files, line.path, Rewrite(args, line.path, line.argument, path), depth + 1);
      }
    }
  }

  /** What `expand_shebang` does for a tracee whose pointers can be read: nothing if it fails or if there is no
      script; otherwise the tracee finds the arguments of the outcome, below its stack pointer and the red zone.  It
      fails for want of room exactly if the new strings and the pointers do not fit there. */
  ghost predicate Done(out: Outcome, given: seq<Pointee>, status: int, program: Path, mem: seq<Byte>, argv: nat, sp: nat,
                       zone: nat, mem': seq<Byte>, argv': nat, w: nat, remotes: seq<nat>)
    requires w > 0
  {
    if out.Failed? then status == out.status < 0 && mem' == mem && argv' == argv
    else if out.depth == 0 then status == 0 && program == out.path && mem' == mem && argv' == argv
    else
      && |out.args| > |Rest(given)|
      && var needed := Needed(out.args, |out.args| - |Rest(given)|, w);
         if sp <= needed + zone then status == -7 && mem' == mem && argv' == argv
         else if sp - zone > |mem| then status == -14 && mem' == mem && argv' == argv
         else
           && status == 1 && program == out.path && argv' == sp - zone - needed
           && (OwnApart(remotes, mem, argv', sp) ==> Finds(mem', argv', w, out.args))
  }

  /** `expand_shebang` */
  method ExpandShebang(t: Tracee, files: Files, userPath: Path) returns (status: int, program: Path)
    requires IsWordSize(t.w) && |t.mem| <= Power256(t.w) && IsText(userPath)
    modifies t
    ensures match PointersAt(old(t.mem), old(t.argv), t.w)
            case Unreadable =>
              NoPointers(files, userPath, status, program) && t.mem == old(t.mem) && t.argv == old(t.argv)
            case Pointers(remotes) =>
              && remotes != []
              && var given := Given(remotes, old(t.mem));
                 Done(Expand(files, userPath, given, 0), given, status, program, old(t.mem), old(t.argv), old(t.sp),
                      if old(t.sp) == t.originalSp then 128 else 0, t.mem, t.argv, t.w, remotes)
  {
    ghost var remotes: seq<nat> := [];
    ghost var given: seq<Pointee> := [];
    if PointersAt(t.mem, t.argv, t.w).Pointers? {
      FetchedIsArgv(t.mem, t.argv, t.w);
      remotes := PointersAt(t.mem, t.argv, t.w).remotes;
      given := Given(remotes, t.mem);
      FailsBelow(files, userPath, given, 0);
    }
    var argv;
    ghost var args;
    status, program, argv, args := ExpandAll(t, files, userPath, given, remotes);
    if status < 0 || argv == null {
      return;
    }
    ghost var xs := argv.xpointers[..];
    BlockNeeds(xs, t.mem, args, |args| - |Rest(given)|, t.w);
    status := argv.Push(t);
    if status < 0 {
      return;
    }
    if OwnApart(remotes, old(t.mem), t.argv, old(t.sp)) {
      PushedFinds(xs, old(t.mem), t.mem, t.argv, old(t.sp), t.w, args, remotes);
    }
    status := 1;
  }
}
