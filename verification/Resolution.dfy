/** Resolving the symbolic links of a path, on lists of names: the recursion of `canonicalize`, and the
    procedure of section 4.13 (Pathname Resolution) of IEEE Std 1003.1-2017 that it implements. */
module Resolution {
  import opened Common
  import opened Paths

  /** A path string, taken apart. */
  datatype Text = Text(chars: string, absolute: bool, names: Path, slash: bool)

  function Parse(s: string): Text {
    Text(s, s != "" && s[0] == '/', Names(s), s != "" && s[|s| - 1] == '/')
  }

  /** What lstat and readlink say about a canonical guest path, links as seen from the guest. */
  datatype Node = Missing | Dir | File | Link(target: Text)

  type Fs = Path -> Node

  datatype Errno = ENAMETOOLONG | ENOENT | ENOTDIR | ELOOP | EINVAL

  /** A path, or an error, after following so many links. */
  datatype Outcome = Found(path: Path, links: nat) | Failed(error: Errno, links: nat)

  function Plus(o: Outcome, n: nat): Outcome {
    match o
    case Found(p, links) => Found(p, links + n)
    case Failed(e, links) => Failed(e, links + n)
  }

  ghost predicate IsFs(fs: Fs) {
    && fs([]) == Dir
    && forall p {:trigger fs(p)} :: fs(p).Link? ==> AreNames(fs(p).target.names)
  }

  function Parent(p: Path): Path {
    if p == [] then [] else p[..|p| - 1]
  }

  function Start(base: Path, t: Text): Path {
    if t.absolute then [] else base
  }

  // ----- canonicalize

  predicate TooLong(p: Path) {
    |Cat(p)| + 1 >= PATH_MAX
  }

  /** A component that is not the last one must be a directory or a link. */
  function Check(n: Node): Outcome {
    match n
    case Missing => Failed(ENOENT, 0)
    case File => Failed(ENOTDIR, 0)
    case _ => Found([], 0)
  }

  /** What one component asks for. */
  datatype Move = Stop(error: Errno) | Enter(path: Path) | Follow(target: Text)

  /** What the loop of `canonicalize` does with the component `c` met in `at`.  `follow` says whether the last
      component is followed when it is a link. */
  function NextMove(fs: Fs, at: Path, c: string, last: bool, follow: bool): Move {
    if |c| >= NAME_MAX then Stop(ENAMETOOLONG)
    else if c == "." then Enter(at)
    else if c == ".." then Enter(Parent(at))
    else if TooLong(at + [c]) then Stop(ENAMETOOLONG)
    else
      var n := fs(at + [c]);
      if !last && Check(n).Failed? then Stop(Check(n).error)
      else if !n.Link? || (last && !follow) then Enter(at + [c])
      else Follow(n.target)
  }

  /** The loop of `canonicalize` at recursion depth `level`, `k` links having been followed at that depth. */
  function Walk(fs: Fs, at: Path, rest: Path, follow: bool, level: nat, k: nat): Outcome
    requires level <= MAXSYMLINKS
    decreases MAXSYMLINKS - level, |rest|
  {
    if rest == [] then Found(at, 0)
    else
      match NextMove(fs, at, rest[0], |rest| == 1, follow)
      case Stop(e) => Failed(e, 0)
      case Enter(p) => Walk(fs, p, rest[1..], follow, level, k)
      case Follow(target) => WalkLink(fs, at, target, rest[1..], follow, level, k)
  }

  /** Follow a link that was met in `at`, and go on with the components behind it. */
  function WalkLink(fs: Fs, at: Path, target: Text, rest: Path, follow: bool, level: nat, k: nat): Outcome
    requires level <= MAXSYMLINKS
    decreases MAXSYMLINKS - level, |rest| + 1, 0
  {
    if |target.chars| >= PATH_MAX then Failed(ENAMETOOLONG, 1)
    else if level + k + 1 > MAXSYMLINKS then Failed(ELOOP, 1)
    else
      var inner := Walk(fs, Start(at, target), target.names, true, level + k + 1, 0);
      if inner.Failed? then Plus(inner, 1)
      else if rest != [] && Check(fs(inner.path)).Failed? then Plus(Check(fs(inner.path)), inner.links + 1)
      else Plus(Walk(fs, inner.path, rest, follow, level, k + 1), inner.links + 1)
  }

  /** `canonicalize` as called from outside. */
  function Canonicalized(fs: Fs, base: Path, t: Text, derefFinal: bool): Outcome {
    Walk(fs, Start(base, t), t.names, derefFinal || t.slash, 0, 0)
  }

  // ----- the standard's procedure

  /** The standard's rules for one component: it is looked up in the directory that the components before it
      lead to; ".", ".." and links have their own; one that is not the last has to lead on. */
  function RuledMove(fs: Fs, at: Path, c: string, last: bool, follow: bool): Move {
    match c
    case "." => Enter(at)
    case ".." => Enter(Parent(at))
    case _ =>
      match fs(at + [c])
      case Dir => Enter(at + [c])
      case Link(target) => if last && !follow then Enter(at + [c]) else Follow(target)
      case Missing => if last then Enter(at + [c]) else Stop(ENOENT)
      case File => if last then Enter(at + [c]) else Stop(ENOTDIR)
  }

  /** Pathname resolution with a work list: the contents of a link are put in front of the names that
      remain; at most `fuel` links are followed. */
  function Resolve(fs: Fs, at: Path, todo: Path, follow: bool, fuel: nat): Outcome
    decreases fuel, |todo|
  {
    if todo == [] then Found(at, 0)
    else
      match RuledMove(fs, at, todo[0], |todo| == 1, follow)
      case Stop(e) => Failed(e, 0)
      case Enter(p) => Resolve(fs, p, todo[1..], follow, fuel)
      case Follow(target) =>
        if fuel == 0 then Failed(ELOOP, 1)
        else Plus(Resolve(fs, Start(at, target), target.names + todo[1..], follow, fuel - 1), 1)
  }

  /** A name that fits into its buffer, and leads to a path that fits into its own, with the null at its end. */
  predicate ShortMove(at: Path, c: string) {
    |c| < NAME_MAX && (IsPlain(c) ==> |Render(at + [c])| < PATH_MAX - 1)
  }

  /** Whatever resolution meets is short: names, paths, and the texts of links. */
  predicate AllShort(fs: Fs, at: Path, todo: Path, follow: bool, fuel: nat)
    decreases fuel, |todo|
  {
    todo == [] ||
    (ShortMove(at, todo[0]) &&
     match RuledMove(fs, at, todo[0], |todo| == 1, follow)
     case Stop(_) => true
     case Enter(p) => AllShort(fs, p, todo[1..], follow, fuel)
     case Follow(target) =>
       fuel > 0 ==>
         |target.chars| < PATH_MAX && AllShort(fs, Start(at, target), target.names + todo[1..], follow, fuel - 1))
  }

  /** The whole procedure: an empty path is refused, and one that ends in "/", be it after its last link has
      been put in, has to lead to a directory. */
  function Standard(fs: Fs, base: Path, t: Text, derefFinal: bool, fuel: nat): Outcome {
    if t.chars == "" then Failed(ENOENT, 0)
    else ResolveAll(fs, Start(base, t), t.names, t.slash, derefFinal || t.slash, fuel)
  }

  function ResolveAll(fs: Fs, at: Path, todo: Path, slash: bool, follow: bool, fuel: nat): Outcome
    decreases fuel, |todo|
  {
    if todo == [] then if slash && !fs(at).Dir? then NoDirectory(fs, at) else Found(at, 0)
    else
      match RuledMove(fs, at, todo[0], |todo| == 1, follow)
      case Stop(e) => Failed(e, 0)
      case Enter(p) => ResolveAll(fs, p, todo[1..], slash, follow, fuel)
      case Follow(target) =>
        if fuel == 0 then Failed(ELOOP, 1)
        else
          var slash' := slash || (|todo| == 1 && target.slash);
          Plus(ResolveAll(fs, Start(at, target), target.names + todo[1..], slash', follow, fuel - 1), 1)
  }

  function NoDirectory(fs: Fs, p: Path): Outcome {
    Failed(if fs(p).Missing? then ENOENT else ENOTDIR, 0)
  }

  /** Does the path end in "/" once its last link, if any, has been put in? */
  predicate EndsInSlash(fs: Fs, at: Path, todo: Path, slash: bool, follow: bool, fuel: nat)
    decreases fuel, |todo|
  {
    if slash || todo == [] then slash
    else
      match RuledMove(fs, at, todo[0], |todo| == 1, follow)
      case Stop(e) => false
      case Enter(p) => EndsInSlash(fs, p, todo[1..], slash, follow, fuel)
      case Follow(target) =>
        fuel > 0 &&
        EndsInSlash(fs, Start(at, target), target.names + todo[1..], |todo| == 1 && target.slash, follow, fuel - 1)
  }

  // ----- where the walk can be

  /** A directory whose every proper prefix is a directory too. */
  ghost predicate Settled(fs: Fs, p: Path) {
    forall i {:trigger p[..i]} :: 0 <= i <= |p| ==> fs(p[..i]) == Dir
  }

  ghost predicate Fits(p: Path) {
    forall i {:trigger p[i]} :: 0 <= i < |p| ==> |p[i]| < NAME_MAX && !TooLong(p[..i + 1])
  }

  lemma SettledParent(fs: Fs, p: Path)
    requires Settled(fs, p)
    ensures Settled(fs, Parent(p)) && fs(p) == Dir
  {
    assert p[..|p|] == p;
    forall i {:trigger Parent(p)[..i]} | 0 <= i <= |Parent(p)| ensures fs(Parent(p)[..i]) == Dir {
      assert Parent(p)[..i] == p[..i];
    }
  }

  lemma SettledChild(fs: Fs, p: Path, c: string)
    requires Settled(fs, p) && fs(p + [c]) == Dir
    ensures Settled(fs, p + [c])
  {
    var q := p + [c];
    forall i {:trigger q[..i]} | 0 <= i <= |q| ensures fs(q[..i]) == Dir {
      if i <= |p| {
        assert q[..i] == p[..i];
      } else {
        assert q[..i] == q;
      }
    }
  }

  lemma FitsParent(p: Path)
    requires Fits(p)
    ensures Fits(Parent(p))
  {
    forall i {:trigger Parent(p)[i]} | 0 <= i < |Parent(p)|
      ensures |Parent(p)[i]| < NAME_MAX && !TooLong(Parent(p)[..i + 1])
    {
      assert Parent(p)[i] == p[i] && Parent(p)[..i + 1] == p[..i + 1];
    }
  }

  lemma FitsChild(p: Path, c: string)
    requires Fits(p) && |c| < NAME_MAX && !TooLong(p + [c])
    ensures Fits(p + [c])
  {
    var q := p + [c];
    forall i {:trigger q[i]} | 0 <= i < |q| ensures |q[i]| < NAME_MAX && !TooLong(q[..i + 1]) {
      if i < |p| {
        assert q[i] == p[i] && q[..i + 1] == p[..i + 1];
      } else {
        assert q[..i + 1] == q;
      }
    }
  }

  /** What the result of a walk is like. */
  ghost predicate Arrived(fs: Fs, p: Path, follow: bool) {
    IsCanonical(p) && Fits(p) && Settled(fs, Parent(p)) && (follow ==> !fs(p).Link?)
  }

  ghost predicate InDirectory(fs: Fs, at: Path) {
    IsCanonical(at) && Fits(at) && Settled(fs, at)
  }

  /** One move keeps to directories; the last one may lead elsewhere. */
  lemma MoveArrives(fs: Fs, at: Path, c: string, last: bool, follow: bool)
    requires IsFs(fs) && InDirectory(fs, at) && IsName(c)
    ensures match NextMove(fs, at, c, last, follow)
            case Stop(e) => e != ELOOP && e != EINVAL
            case Enter(p) => Arrived(fs, p, follow) && (!last ==> InDirectory(fs, p))
            case Follow(target) => AreNames(target.names) && (last ==> follow)
  {
    SettledParent(fs, at);
    FitsParent(at);
    match NextMove(fs, at, c, last, follow)
    case Stop(e) =>
    case Enter(p) =>
      if c == "." {
      } else if c == ".." {
        SettledParent(fs, p);
      } else {
        FitsChild(at, c);
        assert Parent(at + [c]) == at;
        if !last {
          SettledChild(fs, at, c);
        }
      }
    case Follow(target) =>
  }

  /** The result is canonical, everything above it is a directory, and it is not a link if it was to be
      followed. */
  lemma {:induction false} WalkArrives(fs: Fs, at: Path, rest: Path, follow: bool, level: nat, k: nat)
    requires IsFs(fs) && AreNames(rest) && level <= MAXSYMLINKS
    requires if rest == [] then Arrived(fs, at, follow) else InDirectory(fs, at)
    ensures var o := Walk(fs, at, rest, follow, level, k); o.Found? ==> Arrived(fs, o.path, follow)
    decreases MAXSYMLINKS - level, |rest|
  {
    if rest != [] {
      MoveArrives(fs, at, rest[0], |rest| == 1, follow);
      match NextMove(fs, at, rest[0], |rest| == 1, follow)
      case Stop(e) =>
      case Enter(p) => WalkArrives(fs, p, rest[1..], follow, level, k);
      case Follow(target) => LinkArrives(fs, at, target, rest[1..], follow, level, k);
    }
  }

  /** A directory is a place to arrive at. */
  lemma StartArrived(fs: Fs, at: Path, follow: bool)
    requires InDirectory(fs, at)
    ensures Arrived(fs, at, follow)
  {
    SettledParent(fs, at);
  }

  lemma {:induction false} LinkArrives(fs: Fs, at: Path, target: Text, rest: Path, follow: bool, level: nat, k: nat)
    requires IsFs(fs) && InDirectory(fs, at) && AreNames(rest) && level <= MAXSYMLINKS && AreNames(target.names)
    requires rest == [] ==> follow
    ensures var o := WalkLink(fs, at, target, rest, follow, level, k); o.Found? ==> Arrived(fs, o.path, follow)
    decreases MAXSYMLINKS - level, |rest| + 1, 0
  {
    if |target.chars| < PATH_MAX && level + k + 1 <= MAXSYMLINKS {
      var inner := Walk(fs, Start(at, target), target.names, true, level + k + 1, 0);
      InnerArrives(fs, at, target, level + k + 1);
      if inner.Found? && !(rest != [] && Check(fs(inner.path)).Failed?) {
        if rest != [] {
          ArrivedDir(fs, inner.path);
        }
        WalkArrives(fs, inner.path, rest, follow, level, k + 1);
      }
    }
  }

  lemma {:induction false} InnerArrives(fs: Fs, at: Path, target: Text, level: nat)
    requires IsFs(fs) && InDirectory(fs, at) && AreNames(target.names) && level <= MAXSYMLINKS
    ensures var o := Walk(fs, Start(at, target), target.names, true, level, 0);
            o.Found? ==> Arrived(fs, o.path, true)
    decreases MAXSYMLINKS - level, |target.names| + 1, 0
  {
    InnerStart(fs, at, target);
    StartArrived(fs, Start(at, target), true);
    WalkArrives(fs, Start(at, target), target.names, true, level, 0);
  }

  lemma InnerStart(fs: Fs, at: Path, target: Text)
    requires IsFs(fs) && InDirectory(fs, at)
    ensures InDirectory(fs, Start(at, target))
  {
    assert InDirectory(fs, []);
  }

  lemma ArrivedDir(fs: Fs, p: Path)
    requires Arrived(fs, p, true) && !Check(fs(p)).Failed?
    ensures InDirectory(fs, p)
  {
    if p != [] {
      assert p == Parent(p) + [p[|p| - 1]];
      SettledChild(fs, Parent(p), p[|p| - 1]);
    }
  }

  // ----- the walk follows the standard

  /** The work list with the limits of the program's buffers. */
  function ResolveShort(fs: Fs, at: Path, todo: Path, follow: bool, fuel: nat): Outcome
    decreases fuel, |todo|
  {
    if todo == [] then Found(at, 0)
    else if !ShortMove(at, todo[0]) then Failed(ENAMETOOLONG, 0)
    else
      match RuledMove(fs, at, todo[0], |todo| == 1, follow)
      case Stop(e) => Failed(e, 0)
      case Enter(p) => ResolveShort(fs, p, todo[1..], follow, fuel)
      case Follow(target) =>
        if fuel == 0 then Failed(ELOOP, 1)
        else if |target.chars| >= PATH_MAX then Failed(ENAMETOOLONG, 1)
        else Plus(ResolveShort(fs, Start(at, target), target.names + todo[1..], follow, fuel - 1), 1)
  }

  /** How the work list goes on behind a walk: `p` is no longer the last component. */
  function Continue(fs: Fs, p: Path, more: Path, follow: bool, fuel: nat): Outcome {
    if more != [] && Check(fs(p)).Failed? then Check(fs(p)) else ResolveShort(fs, p, more, follow, fuel)
  }

  /** What the work list makes of the names of a walk that ended in `o`, followed by `more`. */
  ghost predicate Agrees(fs: Fs, o: Outcome, more: Path, follow: bool, fuel: nat, r: Outcome) {
    match o
    case Found(p, n) =>
      if n <= fuel then r == Plus(Continue(fs, p, more, follow, fuel - n), n) else r.Failed? && r.error == ELOOP
    case Failed(e, n) =>
      if n > fuel then r.Failed? && r.error == ELOOP else e != ELOOP ==> r == o
  }

  lemma {:induction false} WalkAgrees(fs: Fs, at: Path, rest: Path, follow: bool, level: nat, k: nat,
                                      more: Path, follow': bool, fuel: nat)
    requires IsFs(fs) && AreNames(rest) && level <= MAXSYMLINKS
    requires if more == [] then follow == follow' else follow
    requires rest != [] ==> InDirectory(fs, at)
    ensures Agrees(fs, Walk(fs, at, rest, follow, level, k), more, follow', fuel,
                   if rest == [] then Continue(fs, at, more, follow', fuel)
                   else ResolveShort(fs, at, rest + more, follow', fuel))
    decreases MAXSYMLINKS - level, |rest|, 2
  {
    if rest != [] {
      var c, last, tail := rest[0], |rest| == 1, rest[1..];
      assert (rest + more)[1..] == tail + more && (rest + more)[0] == c;
      MoveArrives(fs, at, c, last, follow);
      var last' := |rest + more| == 1;
      match NextMove(fs, at, c, last, follow)
      case Stop(e) =>
      case Enter(p) =>
        WalkAgrees(fs, p, tail, follow, level, k, more, follow', fuel);
        EnterAgrees(fs, at, rest, more, follow, follow', fuel, p);
      case Follow(target) =>
        LinkAgrees(fs, at, target, tail, follow, level, k, more, follow', fuel);
        assert target.names + (tail + more) == target.names + (rest + more)[1..];
    }
  }

  /** Behind the last component of a link the work list still checks for a directory. */
  lemma EnterAgrees(fs: Fs, at: Path, rest: Path, more: Path, follow: bool, follow': bool, fuel: nat, p: Path)
    requires IsFs(fs) && InDirectory(fs, at) && rest != []
    requires if more == [] then follow == follow' else follow
    requires NextMove(fs, at, rest[0], |rest| == 1, follow) == Enter(p)
    ensures ResolveShort(fs, at, rest + more, follow', fuel) ==
            if |rest| == 1 then Continue(fs, p, more, follow', fuel)
            else ResolveShort(fs, p, rest[1..] + more, follow', fuel)
  {
    assert (rest + more)[1..] == rest[1..] + more && (rest + more)[0] == rest[0];
    EnteredMove(fs, at, rest[0], |rest| == 1, |rest + more| == 1, follow, follow', p);
    hide NextMove, RuledMove, ShortMove, IsFs;
    if |rest| == 1 {
      assert rest[1..] + more == more;
    }
  }

  /** A move that is the last of a walk, when it is not the last of the work list. */
  lemma EnteredMove(fs: Fs, at: Path, c: string, last: bool, last': bool, follow: bool, follow': bool, p: Path)
    requires IsFs(fs) && InDirectory(fs, at) && NextMove(fs, at, c, last, follow) == Enter(p)
    requires if last' then last && follow == follow' else last ==> follow
    ensures ShortMove(at, c)
    ensures RuledMove(fs, at, c, last', follow')
         == if last && !last' && Check(fs(p)).Failed? then Stop(Check(fs(p)).error) else Enter(p)
    ensures Check(fs(p)).Failed? ==> Check(fs(p)).links == 0
  {
    SettledParent(fs, at);
    SettledParent(fs, Parent(at));
  }

  lemma {:induction false} LinkAgrees(fs: Fs, at: Path, target: Text, rest: Path, follow: bool, level: nat, k: nat,
                                      more: Path, follow': bool, fuel: nat)
    requires IsFs(fs) && InDirectory(fs, at) && AreNames(rest) && level <= MAXSYMLINKS && AreNames(target.names)
    requires if more == [] then follow == follow' else follow
    requires rest == [] ==> follow
    ensures Agrees(fs, WalkLink(fs, at, target, rest, follow, level, k), more, follow', fuel,
                   if fuel == 0 then Failed(ELOOP, 1)
                   else if |target.chars| >= PATH_MAX then Failed(ENAMETOOLONG, 1)
                   else Plus(ResolveShort(fs, Start(at, target), target.names + (rest + more), follow', fuel - 1), 1))
    decreases MAXSYMLINKS - level, |rest| + 1, 1
  {
    if |target.chars| < PATH_MAX && level + k + 1 <= MAXSYMLINKS {
      InnerArrives(fs, at, target, level + k + 1);
      if fuel > 0 {
        InnerAgrees(fs, at, target, level + k + 1, rest + more, follow', fuel - 1);
        BehindAgrees(fs, at, target, rest, follow, level, k, more, follow', fuel,
                     ResolveShort(fs, Start(at, target), target.names + (rest + more), follow', fuel - 1));
      }
    }
  }

  /** The names of a link's text, in front of what remains. */
  lemma {:induction false} InnerAgrees(fs: Fs, at: Path, target: Text, level: nat, more: Path, follow: bool, fuel: nat)
    requires IsFs(fs) && InDirectory(fs, at) && AreNames(target.names) && level <= MAXSYMLINKS
    requires more == [] ==> follow
    ensures Agrees(fs, Walk(fs, Start(at, target), target.names, true, level, 0), more, follow, fuel,
                   ResolveShort(fs, Start(at, target), target.names + more, follow, fuel))
    decreases MAXSYMLINKS - level, |target.names|, 3
  {
    InnerStart(fs, at, target);
    SettledParent(fs, Start(at, target));
    WalkAgrees(fs, Start(at, target), target.names, true, level, 0, more, follow, fuel);
    assert [] + more == more;
  }

  /** The components behind a link, whose own names led to `inner`. */
  lemma {:induction false} BehindAgrees(fs: Fs, at: Path, target: Text, rest: Path, follow: bool, level: nat, k: nat,
                                        more: Path, follow': bool, fuel: nat, r: Outcome)
    requires IsFs(fs) && AreNames(rest) && level + k + 1 <= MAXSYMLINKS && |target.chars| < PATH_MAX && fuel > 0
    requires if more == [] then follow == follow' else follow
    requires var inner := Walk(fs, Start(at, target), target.names, true, level + k + 1, 0);
             && (inner.Found? ==> Arrived(fs, inner.path, true))
             && Agrees(fs, inner, rest + more, follow', fuel - 1, r)
    ensures Agrees(fs, WalkLink(fs, at, target, rest, follow, level, k), more, follow', fuel, Plus(r, 1))
    decreases MAXSYMLINKS - level, |rest| + 1, 0
  {
    hide Agrees, ResolveShort, Arrived;
    var inner := Walk(fs, Start(at, target), target.names, true, level + k + 1, 0);
    if inner.Failed? {
      InnerFailed(fs, inner, rest + more, more, follow', fuel, r);
    } else if rest == [] {
      assert rest + more == more;
      InnerLast(fs, inner, more, follow', fuel, r);
    } else if Check(fs(inner.path)).Failed? {
      InnerNoDirectory(fs, inner, rest, more, follow', fuel, r);
    } else {
      TailAgrees(fs, inner, rest, follow, level, k, more, follow', fuel, r);
    }
  }

  lemma {:induction false} TailAgrees(fs: Fs, inner: Outcome, rest: Path, follow: bool, level: nat, k: nat,
                                      more: Path, follow': bool, fuel: nat, r: Outcome)
    requires IsFs(fs) && AreNames(rest) && rest != [] && level + k + 1 <= MAXSYMLINKS && fuel > 0
    requires if more == [] then follow == follow' else follow
    requires inner.Found? && Arrived(fs, inner.path, true) && !Check(fs(inner.path)).Failed?
    requires Agrees(fs, inner, rest + more, follow', fuel - 1, r)
    ensures Agrees(fs, Plus(Walk(fs, inner.path, rest, follow, level, k + 1), inner.links + 1), more, follow', fuel,
                   Plus(r, 1))
    decreases MAXSYMLINKS - level, |rest|, 3
  {
    ArrivedDir(fs, inner.path);
    if fuel > inner.links {
      WalkAgrees(fs, inner.path, rest, follow, level, k + 1, more, follow', fuel - inner.links - 1);
    }
    InnerPassed(fs, inner, Walk(fs, inner.path, rest, follow, level, k + 1), rest, more, follow', fuel, r);
  }

  lemma InnerFailed(fs: Fs, inner: Outcome, all: Path, more: Path, follow: bool, fuel: nat, r: Outcome)
    requires fuel > 0 && inner.Failed? && Agrees(fs, inner, all, follow, fuel - 1, r)
    ensures Agrees(fs, Plus(inner, 1), more, follow, fuel, Plus(r, 1))
  {
  }

  lemma InnerLast(fs: Fs, inner: Outcome, more: Path, follow: bool, fuel: nat, r: Outcome)
    requires fuel > 0 && inner.Found? && Agrees(fs, inner, more, follow, fuel - 1, r)
    ensures Agrees(fs, Plus(Found(inner.path, 0), inner.links + 1), more, follow, fuel, Plus(r, 1))
  {
  }

  lemma InnerNoDirectory(fs: Fs, inner: Outcome, rest: Path, more: Path, follow: bool, fuel: nat, r: Outcome)
    requires fuel > 0 && inner.Found? && rest != [] && Check(fs(inner.path)).Failed?
    requires Agrees(fs, inner, rest + more, follow, fuel - 1, r)
    ensures Agrees(fs, Plus(Check(fs(inner.path)), inner.links + 1), more, follow, fuel, Plus(r, 1))
  {
  }

  lemma InnerPassed(fs: Fs, inner: Outcome, tail: Outcome, rest: Path, more: Path, follow: bool, fuel: nat, r: Outcome)
    requires fuel > 0 && inner.Found? && rest != [] && !Check(fs(inner.path)).Failed?
    requires Agrees(fs, inner, rest + more, follow, fuel - 1, r)
    requires fuel > inner.links ==>
               Agrees(fs, tail, more, follow, fuel - inner.links - 1,
                      ResolveShort(fs, inner.path, rest + more, follow, fuel - inner.links - 1))
    ensures Agrees(fs, Plus(tail, inner.links + 1), more, follow, fuel, Plus(r, 1))
  {
  }

  // ----- how many links are followed

  /** The k-th link at a level recurses k levels down, so a walk follows less than 2^(levels left) links;
      it gives up on circular links only after more links than there are levels left. */
  lemma {:induction false} LinksBounded(fs: Fs, at: Path, rest: Path, follow: bool, level: nat, k: nat)
    requires level + k <= MAXSYMLINKS
    ensures var o := Walk(fs, at, rest, follow, level, k);
            && o.links + (if o.Found? then 1 else 0) <= Pow2(MAXSYMLINKS - level - k)
            && (o.Failed? && o.error == ELOOP ==> o.links > MAXSYMLINKS - level - k)
    decreases MAXSYMLINKS - level, |rest|
  {
    if rest != [] {
      match NextMove(fs, at, rest[0], |rest| == 1, follow)
      case Stop(e) =>
      case Enter(p) => LinksBounded(fs, p, rest[1..], follow, level, k);
      case Follow(target) => LinkBounded(fs, at, target, rest[1..], follow, level, k);
    }
  }

  lemma {:induction false} LinkBounded(fs: Fs, at: Path, target: Text, rest: Path, follow: bool, level: nat, k: nat)
    requires level + k <= MAXSYMLINKS
    ensures var o := WalkLink(fs, at, target, rest, follow, level, k);
            && o.links + (if o.Found? then 1 else 0) <= Pow2(MAXSYMLINKS - level - k)
            && (o.Failed? && o.error == ELOOP ==> o.links > MAXSYMLINKS - level - k)
    decreases MAXSYMLINKS - level, |rest| + 1, 0
  {
    if |target.chars| < PATH_MAX && level + k + 1 <= MAXSYMLINKS {
      var inner := Walk(fs, Start(at, target), target.names, true, level + k + 1, 0);
      LinksBounded(fs, Start(at, target), target.names, true, level + k + 1, 0);
      if inner.Found? {
        LinksBounded(fs, inner.path, rest, follow, level, k + 1);
      }
    }
  }

  // ----- the main results

  lemma TopAgrees(fs: Fs, base: Path, t: Text, derefFinal: bool, fuel: nat)
    requires IsFs(fs) && InDirectory(fs, base) && AreNames(t.names)
    ensures var follow := derefFinal || t.slash;
            Agrees(fs, Canonicalized(fs, base, t, derefFinal), [], follow, fuel,
                   ResolveShort(fs, Start(base, t), t.names, follow, fuel))
  {
    var follow := derefFinal || t.slash;
    InnerStart(fs, base, t);
    assert t.names + [] == t.names;
    WalkAgrees(fs, Start(base, t), t.names, follow, 0, 0, [], follow, fuel);
  }

  lemma {:induction false} ShortResolves(fs: Fs, at: Path, todo: Path, follow: bool, fuel: nat)
    ensures var r := ResolveShort(fs, at, todo, follow, fuel);
            if AllShort(fs, at, todo, follow, fuel) then r == Resolve(fs, at, todo, follow, fuel)
            else r.Failed? && r.error == ENAMETOOLONG
    decreases fuel, |todo|
  {
    if todo != [] && ShortMove(at, todo[0]) {
      match RuledMove(fs, at, todo[0], |todo| == 1, follow)
      case Stop(e) =>
      case Enter(p) => ShortResolves(fs, p, todo[1..], follow, fuel);
      case Follow(target) =>
        if fuel > 0 {
          ShortResolves(fs, Start(at, target), target.names + todo[1..], follow, fuel - 1);
        }
    }
  }

  lemma {:induction false} NoErrorOfItsOwn(fs: Fs, at: Path, todo: Path, follow: bool, fuel: nat)
    ensures var r := Resolve(fs, at, todo, follow, fuel); r.Failed? ==> r.error != ENAMETOOLONG && r.error != EINVAL
    decreases fuel, |todo|
  {
    if todo != [] {
      match RuledMove(fs, at, todo[0], |todo| == 1, follow)
      case Stop(e) =>
      case Enter(p) => NoErrorOfItsOwn(fs, p, todo[1..], follow, fuel);
      case Follow(target) =>
        if fuel > 0 {
          NoErrorOfItsOwn(fs, Start(at, target), target.names + todo[1..], follow, fuel - 1);
        }
    }
  }

  predicate IsError(o: Outcome, e: Errno) {
    o.Failed? && o.error == e
  }

  /** `canonicalize` is pathname resolution.  ELOOP apart, it gives the same path or the same error as the
      standard's procedure with room for 2^MAXSYMLINKS links if everything that this meets is short, and
      ENAMETOOLONG if not. */
  lemma CanonicalizeResolves(fs: Fs, base: Path, t: Text, derefFinal: bool, fuel: nat)
    requires IsFs(fs) && InDirectory(fs, base) && AreNames(t.names) && fuel >= Pow2(MAXSYMLINKS)
    ensures var o, start, follow := Canonicalized(fs, base, t, derefFinal), Start(base, t), derefFinal || t.slash;
            !IsError(o, ELOOP) ==>
              if AllShort(fs, start, t.names, follow, fuel) then
                o == Resolve(fs, start, t.names, follow, fuel) && !IsError(o, ENAMETOOLONG)
              else IsError(o, ENAMETOOLONG)
  {
    hide Walk, RuledMove, Pow2;
    LinksBounded(fs, Start(base, t), t.names, derefFinal || t.slash, 0, 0);
    TopAgrees(fs, base, t, derefFinal, fuel);
    ShortResolves(fs, Start(base, t), t.names, derefFinal || t.slash, fuel);
    NoErrorOfItsOwn(fs, Start(base, t), t.names, derefFinal || t.slash, fuel);
  }

  lemma {:induction false} RulesApart(fs: Fs, at: Path, todo: Path, slash: bool, follow: bool, fuel: nat)
    ensures var r := Resolve(fs, at, todo, follow, fuel);
            ResolveAll(fs, at, todo, slash, follow, fuel) ==
            if r.Found? && EndsInSlash(fs, at, todo, slash, follow, fuel) && !fs(r.path).Dir?
            then Plus(NoDirectory(fs, r.path), r.links) else r
    decreases fuel, |todo|
  {
    if todo != [] {
      match RuledMove(fs, at, todo[0], |todo| == 1, follow)
      case Stop(e) =>
      case Enter(p) => RulesApart(fs, p, todo[1..], slash, follow, fuel);
      case Follow(target) =>
        if fuel > 0 {
          var slash' := slash || (|todo| == 1 && target.slash);
          RulesApart(fs, Start(at, target), target.names + todo[1..], slash', follow, fuel - 1);
        }
    }
  }

  /** If everything is short, and ELOOP apart, `canonicalize` does what the standard's whole procedure does if
      and only if the path is not empty and does not put a "/" behind something that is no directory. */
  lemma CanonicalizeStandard(fs: Fs, base: Path, t: Text, derefFinal: bool, fuel: nat)
    requires IsFs(fs) && InDirectory(fs, base) && AreNames(t.names) && fuel >= Pow2(MAXSYMLINKS)
    requires t.chars == "" ==> t.names == []
    ensures var o := Canonicalized(fs, base, t, derefFinal);
            var slash := EndsInSlash(fs, Start(base, t), t.names, t.slash, derefFinal || t.slash, fuel);
            !IsError(o, ELOOP) && AllShort(fs, Start(base, t), t.names, derefFinal || t.slash, fuel) ==>
              (o == Standard(fs, base, t, derefFinal, fuel) <==>
               t.chars != "" && !(o.Found? && slash && !fs(o.path).Dir?))
  {
    CanonicalizeResolves(fs, base, t, derefFinal, fuel);
    RulesApart(fs, Start(base, t), t.names, t.slash, derefFinal || t.slash, fuel);
  }

  /** It never gives up on a path that takes at most MAXSYMLINKS links, and then only lengths matter. */
  lemma EnoughLinks(fs: Fs, base: Path, t: Text, derefFinal: bool)
    requires IsFs(fs) && InDirectory(fs, base) && AreNames(t.names)
    requires !IsError(Resolve(fs, Start(base, t), t.names, derefFinal || t.slash, MAXSYMLINKS), ELOOP)
    ensures var o, start, follow := Canonicalized(fs, base, t, derefFinal), Start(base, t), derefFinal || t.slash;
            if AllShort(fs, start, t.names, follow, MAXSYMLINKS) then o == Resolve(fs, start, t.names, follow, MAXSYMLINKS)
            else IsError(o, ENAMETOOLONG)
  {
    hide Walk, RuledMove, Pow2;
    LinksBounded(fs, Start(base, t), t.names, derefFinal || t.slash, 0, 0);
    TopAgrees(fs, base, t, derefFinal, MAXSYMLINKS);
    ShortResolves(fs, Start(base, t), t.names, derefFinal || t.slash, MAXSYMLINKS);
  }

  /** One component of a path that is canonical already. */
  lemma CanonicalMove(fs: Fs, p: Path, i: nat, last: bool, follow: bool)
    requires Arrived(fs, p, follow) && i < |p|
    requires if last then i + 1 == |p| else i + 1 < |p| || follow
    ensures NextMove(fs, p[..i], p[i], last, follow) ==
            if !last && i + 1 == |p| && Check(fs(p)).Failed? then Stop(Check(fs(p)).error) else Enter(p[..i + 1])
  {
    assert p[..i] + [p[i]] == p[..i + 1];
    if i + 1 < |p| {
      assert Parent(p)[..i + 1] == p[..i + 1];
    } else {
      assert p[..i + 1] == p;
    }
  }

  /** A path that is canonical already resolves to itself, without following a link. */
  lemma {:induction false} CanonicalStays(fs: Fs, p: Path, i: nat, follow: bool)
    requires Arrived(fs, p, follow) && i <= |p|
    ensures Walk(fs, p[..i], p[i..], follow, 0, 0) == Found(p, 0)
    decreases |p| - i
  {
    if i == |p| {
      assert p[..i] == p;
    } else {
      CanonicalMove(fs, p, i, i + 1 == |p|, follow);
      CanonicalStays(fs, p, i + 1, follow);
      assert p[i..][1..] == p[i + 1..] && p[i..][0] == p[i];
    }
  }

  /** What the end of a path string asks of the end of the canonical path. */
  function SuffixOf(t: Text): Suffix {
    if t.names == [] then NoSuffix
    else if t.names[|t.names| - 1] == "." then Dot
    else if t.names[|t.names| - 1] == ".." || t.slash then Slash
    else NoSuffix
  }

  /** In terms of the string: a dot at the end stays one, two dots or a separator ask for a separator, anything else
      for nothing. */
  lemma SuffixAsked(s: string)
    requires '\0' !in s && Names(s) != []
    ensures SuffixOf(Parse(s)) == if EndsIn(Trimmed(s), ".") then Dot
                                  else if EndsIn(Trimmed(s), "..") || EndsIn(s, "") then Slash
                                  else NoSuffix
  {
    assert EndsIn(s, "") <==> s == "" || s[|s| - 1] == '/';
    NoNames();
    hide Names, Trimmed, EndsIn;
    LastName(s, ".");
    LastName(s, "..");
  }

  /** A path that ends in "." leads to a directory. */
  lemma {:induction false} DotMeansDirectory(fs: Fs, at: Path, rest: Path, follow: bool, level: nat, k: nat)
    requires IsFs(fs) && InDirectory(fs, at) && AreNames(rest) && level <= MAXSYMLINKS
    requires rest != [] && rest[|rest| - 1] == "."
    ensures var o := Walk(fs, at, rest, follow, level, k); o.Found? ==> fs(o.path) == Dir
    decreases |rest|, 1
  {
    MoveArrives(fs, at, rest[0], |rest| == 1, follow);
    if |rest| == 1 {
      SettledParent(fs, at);
    } else {
      match NextMove(fs, at, rest[0], false, follow)
      case Stop(e) =>
      case Enter(p) => DotMeansDirectory(fs, p, rest[1..], follow, level, k);
      case Follow(target) => DotBehindLink(fs, at, target, rest[1..], follow, level, k);
    }
  }

  lemma {:induction false} DotBehindLink(fs: Fs, at: Path, target: Text, rest: Path, follow: bool, level: nat, k: nat)
    requires IsFs(fs) && InDirectory(fs, at) && AreNames(rest) && level <= MAXSYMLINKS && AreNames(target.names)
    requires rest != [] && rest[|rest| - 1] == "."
    ensures var o := WalkLink(fs, at, target, rest, follow, level, k); o.Found? ==> fs(o.path) == Dir
    decreases |rest| + 1, 0
  {
    if |target.chars| < PATH_MAX && level + k + 1 <= MAXSYMLINKS {
      var inner := Walk(fs, Start(at, target), target.names, true, level + k + 1, 0);
      InnerArrives(fs, at, target, level + k + 1);
      if inner.Found? && !Check(fs(inner.path)).Failed? {
        ArrivedDir(fs, inner.path);
        DotMeansDirectory(fs, inner.path, rest, follow, level, k + 1);
      }
    }
  }

  /** Canonicalizing a result again is the identity, its finality suffix included. */
  lemma CanonicalizeIdempotent(fs: Fs, base: Path, t: Text, base': Path)
    requires IsFs(fs) && InDirectory(fs, base) && AreNames(t.names)
    requires Canonicalized(fs, base, t, true).Found?
    ensures var p := Canonicalized(fs, base, t, true).path;
            && Canonicalized(fs, base', Parse(WithSuffix(p, SuffixOf(t))), true) == Found(p, 0)
            && Arrived(fs, p, true)
  {
    InnerStart(fs, base, t);
    InnerArrives(fs, base, t, 0);
    var p := Canonicalized(fs, base, t, true).path;
    NamesOfSuffix(p, SuffixOf(t));
    CanonicalStays(fs, p, 0, true);
    assert p[..0] == [] && p[0..] == p;
    if SuffixOf(t) == Dot {
      DotMeansDirectory(fs, Start(base, t), t.names, true, 0, 0);
      DotBehind(fs, p, 0);
    }
  }

  /** A "." behind a canonical path only checks that the path can be entered. */
  lemma {:induction false} DotBehind(fs: Fs, p: Path, i: nat)
    requires Arrived(fs, p, true) && i <= |p|
    ensures Walk(fs, p[..i], p[i..] + ["."], true, 0, 0) ==
            if i < |p| && Check(fs(p)).Failed? then Check(fs(p)) else Found(p, 0)
    decreases |p| - i
  {
    var rest := p[i..] + ["."];
    if i == |p| {
      assert p[..i] == p && rest == ["."] && rest[1..] == [];
    } else {
      CanonicalMove(fs, p, i, false, true);
      DotBehind(fs, p, i + 1);
      assert rest[1..] == p[i + 1..] + ["."] && rest[0] == p[i];
    }
  }
}
