/** `canonicalize` on strings: a buffer that is rewritten component by component. */
module Canonicalize {
  import opened Common
  import opened Paths
  import opened Resolution

  datatype Finality = NotFinal | FinalNormal | FinalSlash | FinalDot

  datatype Result = Success | Error(errno: Errno)

  // ----- parsing, one component at a time

  lemma SkipTwice(s: string)
    ensures SkipSlashes(SkipSlashes(s)) == SkipSlashes(s)
  {
  }

  lemma NamesSkip(s: string)
    ensures Names(SkipSlashes(s)) == Names(s)
  {
    SkipTwice(s);
  }

  /** The component at the head of `s`, and what is left behind it. */
  function Head(s: string): string {
    FirstName(SkipSlashes(s))
  }

  function Behind(s: string): string {
    SkipSlashes(s)[|Head(s)|..]
  }

  lemma NamesUnfold(s: string)
    ensures Names(s) == if SkipSlashes(s) == "" then [] else [Head(s)] + Names(SkipSlashes(Behind(s)))
    ensures SkipSlashes(s) == "" ==> Head(s) == "" && Behind(s) == ""
    ensures Names(s) == [] <==> SkipSlashes(s) == ""
    ensures Head(s) == "" <==> SkipSlashes(s) == ""
  {
    if SkipSlashes(s) != "" {
      NamesSkip(Behind(s));
    }
  }

  /** Skip separators from `i` on. */
  method SkipFrom(user: string, i: nat) returns (j: nat)
    requires i <= |user|
    ensures i <= j <= |user| && user[j..] == SkipSlashes(user[i..])
  {
    j := i;
    while j < |user| && user[j] == '/'
      invariant i <= j <= |user| && SkipSlashes(user[j..]) == SkipSlashes(user[i..])
    {
      assert user[j..][1..] == user[j + 1..];
      j := j + 1;
    }
  }

  /** `next_component` */
  method NextComponent(user: string, cursor: nat) returns (ok: bool, finality: Finality, component: string, next: nat)
    requires cursor <= |user|
    ensures ok <==> |Head(user[cursor..])| < NAME_MAX
    ensures cursor <= next <= |user| && component == Head(user[cursor..])
    ensures user[next..] == SkipSlashes(Behind(user[cursor..]))
    ensures finality == if user[next..] != "" then NotFinal
                        else if Behind(user[cursor..]) != "" then FinalSlash else FinalNormal
    ensures SkipSlashes(user[cursor..]) != "" ==> cursor < next
  {
    var start := SkipFrom(user, cursor);
    var end := NameEnd(user, start);
    component := user[start..end];
    assert user[start..][|component|..] == user[end..];
    ok := |component| < NAME_MAX;
    var wantDir := end < |user|;
    next := SkipFrom(user, end);
    finality := if next < |user| then NotFinal else if wantDir then FinalSlash else FinalNormal;
  }

  /** The end of the name that starts at `start`. */
  method NameEnd(user: string, start: nat) returns (end: nat)
    requires start <= |user|
    ensures start <= end <= |user| && user[start..end] == FirstName(user[start..])
  {
    end := start;
    while end < |user| && user[end] != '/'
      invariant start <= end <= |user| && '/' !in user[start..end]
    {
      end := end + 1;
    }
    FirstNameIs(user[start..], end - start);
  }

  lemma FirstNameIs(s: string, n: nat)
    requires n <= |s| && '/' !in s[..n] && (n < |s| ==> s[n] == '/')
    ensures FirstName(s) == s[..n]
  {
    if n > 0 {
      assert s[0] in s[..n] && s[1..][..n - 1] == s[..n][1..];
      FirstNameIs(s[1..], n - 1);
    }
  }

  // ----- the file system as the code sees it

  /** `join_paths` with a name, and `pop_component`, on the text of a canonical path. */
  method JoinName(text: string, c: string, ghost at: Path) returns (ok: bool, joined: string)
    requires IsText(text, at) && IsPlain(c)
    ensures ok <==> !TooLong(at + [c])
    ensures ok ==> IsText(joined, at + [c])
  {
    JoinedName(at, c);
    var status;
    status, joined := JoinPaths(text, c);
    ok := status == Done;
  }

  method PopName(text: string, ghost at: Path) returns (popped: string)
    requires IsText(text, at)
    ensures IsText(popped, Parent(at))
  {
    popped := PopComponent(text);
    assert popped == Render(Parent(at));
  }

  /** The text of a link is a non-empty string. */
  ghost predicate Readable(fs: Fs) {
    forall p {:trigger fs(p)} :: fs(p).Link? ==>
      fs(p).target == Parse(fs(p).target.chars) && fs(p).target.chars != "" && '\0' !in fs(p).target.chars
  }

  /** `substitute_binding_stat`: is there a link at this path?  A component that is not final has to be a
      directory or a link. */
  method BindingStat(fs: Fs, path: string, final: bool, ghost p: Path) returns (r: Result, isLink: bool)
    requires Names(path) == p
    ensures !final && Check(fs(p)).Failed? ==> r == Error(Check(fs(p)).error)
    ensures final || !Check(fs(p)).Failed? ==> r == Success && (isLink <==> fs(p).Link?)
  {
    var node := fs(Names(path));
    if !final && !node.Dir? && !node.Link? {
      return Error(if node.Missing? then ENOENT else ENOTDIR), false;
    }
    return Success, node.Link?;
  }

  /** The same for the text of a canonical path. */
  method Stat(fs: Fs, path: string, final: bool, ghost p: Path) returns (r: Result, isLink: bool)
    requires IsText(path, p)
    ensures !final && Check(fs(p)).Failed? ==> r == Error(Check(fs(p)).error)
    ensures final || !Check(fs(p)).Failed? ==> r == Success && (isLink <==> fs(p).Link?)
  {
    CanonicalNames(p);
    r, isLink := BindingStat(fs, path, final, p);
  }

  method ReadLink(fs: Fs, path: string, ghost p: Path) returns (target: string)
    requires Readable(fs) && IsText(path, p) && fs(p).Link?
    ensures fs(p).target == Parse(target) && target != "" && '\0' !in target
  {
    CanonicalNames(p);
    target := fs(Names(path)).target.chars;
  }

  // ----- one component

  /** Following one link, without the components behind it. */
  function LinkStep(fs: Fs, at: Path, target: Text, last: bool, level: nat, k: nat): Outcome
    requires level <= MAXSYMLINKS
  {
    if |target.chars| >= PATH_MAX then Failed(ENAMETOOLONG, 1)
    else if level + k + 1 > MAXSYMLINKS then Failed(ELOOP, 1)
    else
      var inner := Walk(fs, Start(at, target), target.names, true, level + k + 1, 0);
      if inner.Failed? then Plus(inner, 1)
      else if !last && Check(fs(inner.path)).Failed? then Plus(Check(fs(inner.path)), inner.links + 1)
      else Plus(inner, 1)
  }

  lemma WalkLinkStep(fs: Fs, at: Path, target: Text, rest: Path, follow: bool, level: nat, k: nat)
    requires level <= MAXSYMLINKS
    ensures var o := LinkStep(fs, at, target, rest == [], level, k);
            WalkLink(fs, at, target, rest, follow, level, k) ==
            if o.Failed? then o else Plus(Walk(fs, o.path, rest, follow, level, k + 1), o.links)
  {
  }

  /** What a component does, link included. */
  function Advance(fs: Fs, at: Path, c: string, last: bool, follow: bool, level: nat, k: nat): Outcome
    requires level <= MAXSYMLINKS
  {
    match NextMove(fs, at, c, last, follow)
    case Stop(e) => Failed(e, 0)
    case Enter(p) => Found(p, 0)
    case Follow(target) => LinkStep(fs, at, target, last, level, k)
  }

  predicate IsFollowed(fs: Fs, at: Path, c: string, last: bool, follow: bool) {
    NextMove(fs, at, c, last, follow).Follow?
  }

  lemma WalkAdvance(fs: Fs, at: Path, rest: Path, follow: bool, level: nat, k: nat)
    requires level <= MAXSYMLINKS && rest != []
    ensures var o := Advance(fs, at, rest[0], |rest| == 1, follow, level, k);
            var k' := if IsFollowed(fs, at, rest[0], |rest| == 1, follow) then k + 1 else k;
            Walk(fs, at, rest, follow, level, k) ==
            if o.Failed? then o else Plus(Walk(fs, o.path, rest[1..], follow, level, k'), o.links)
  {
    match NextMove(fs, at, rest[0], |rest| == 1, follow)
    case Stop(e) =>
    case Enter(p) =>
    case Follow(target) => WalkLinkStep(fs, at, target, rest[1..], follow, level, k);
  }

  lemma {:induction false} AdvanceArrives(fs: Fs, at: Path, c: string, last: bool, follow: bool, level: nat, k: nat)
    requires IsFs(fs) && InDirectory(fs, at) && IsName(c) && level <= MAXSYMLINKS
    ensures var o := Advance(fs, at, c, last, follow, level, k);
            o.Found? ==> Arrived(fs, o.path, follow) && (!last ==> InDirectory(fs, o.path))
  {
    MoveArrives(fs, at, c, last, follow);
    match NextMove(fs, at, c, last, follow)
    case Stop(e) =>
    case Enter(p) =>
    case Follow(target) =>
      if |target.chars| < PATH_MAX && level + k + 1 <= MAXSYMLINKS {
        InnerArrives(fs, at, target, level + k + 1);
        var inner := Walk(fs, Start(at, target), target.names, true, level + k + 1, 0);
        if inner.Found? && !Check(fs(inner.path)).Failed? {
          ArrivedDir(fs, inner.path);
        }
      }
  }

  // ----- the whole

  /** What `canonicalize` makes of the buffer: the result of the walk, with a suffix at the outermost level.
      A path without any component adds a separator. */
  ghost predicate Canonicalizes(fs: Fs, before: string, user: string, derefFinal: bool, level: nat, r: Result,
                                after: string)
  {
    var t := Parse(user);
    if level > MAXSYMLINKS then r == Error(ELOOP)
    else if |before| >= PATH_MAX then r == Error(ENAMETOOLONG)
    else if !t.absolute && !(before != "" && before[0] == '/') then r == Error(EINVAL)
    else LoopResult(fs, Start(Names(before), t), t, derefFinal, level, r, after)
  }

  ghost predicate LoopResult(fs: Fs, start: Path, t: Text, derefFinal: bool, level: nat, r: Result, after: string)
    requires level <= MAXSYMLINKS
  {
    if t.names == [] then
      var joined := Joined(Render(start), "");
      if |joined| + 1 >= PATH_MAX then r == Error(ENAMETOOLONG) else r == Success && after == joined
    else
      match Walk(fs, start, t.names, derefFinal || t.slash, level, 0)
      case Failed(e, _) => r == Error(e)
      case Found(p, _) =>
        var path := if level == 0 then WithSuffix(p, SuffixOf(t)) else Render(p);
        if level == 0 && SuffixOf(t) != NoSuffix && |path| + 1 >= PATH_MAX then r == Error(ENAMETOOLONG)
        else r == Success && after == path
  }

  lemma JoinedSuffix(p: Path)
    requires AreNames(p)
    ensures Joined(Render(p), "") == WithSuffix(p, Slash)
    ensures Joined(Render(p), ".") == WithSuffix(p, Dot)
  {
    StrippedIsCat(p);
  }

  lemma LastChar(user: string, cursor: nat)
    requires cursor <= |user| && SkipSlashes(user[cursor..]) != "" && SkipSlashes(Behind(user[cursor..])) == ""
    ensures Parse(user).slash <==> Behind(user[cursor..]) != ""
  {
    var s := user[cursor..];
    SkipLast(s);
    LastOfName(s);
    if Behind(s) != "" {
      AllSlashes(Behind(s));
    }
    hide Names, SkipSlashes, FirstName, Behind;
    assert s[|s| - 1] == user[|user| - 1];
  }

  lemma SkipLast(s: string)
    ensures SkipSlashes(s) != "" ==> s != "" && SkipSlashes(s)[|SkipSlashes(s)| - 1] == s[|s| - 1]
  {
  }

  lemma LastOfName(s: string)
    requires SkipSlashes(s) != ""
    ensures var t := SkipSlashes(s);
            if Behind(s) == "" then t[|t| - 1] != '/' else t[|t| - 1] == Behind(s)[|Behind(s)| - 1]
  {
    var t := SkipSlashes(s);
    if Behind(s) == "" {
      assert t == Head(s) && t[|t| - 1] in Head(s);
    }
  }

  lemma AllSlashes(s: string)
    requires SkipSlashes(s) == "" && s != ""
    ensures s[|s| - 1] == '/'
  {
  }

  function FinalityOf(s: Suffix): Finality {
    match s
    case NoSuffix => FinalNormal
    case Slash => FinalSlash
    case Dot => FinalDot
  }

  /** Where the loop of `canonicalize` is: `at` is what the buffer holds, `rest` are the components left,
      `n` links have been followed. */
  ghost predicate LoopInv(fs: Fs, t: Text, start: Path, follow: bool, level: nat, text: string, at: Path,
                          rest: Path, finality: Finality, k: nat, n: nat)
  {
    && level <= MAXSYMLINKS && IsCanonical(at)
    && if t.names == [] then
         if finality == NotFinal then at == start && rest == [] && InDirectory(fs, at) && IsText(text, at)
         else
           finality == FinalNormal && text == Joined(Render(start), "") && |text| + 1 < PATH_MAX
       else
         && IsText(text, at)
         && if finality == NotFinal then
              && InDirectory(fs, at) && rest != [] && AreNames(rest)
              && t.names[|t.names| - 1] == rest[|rest| - 1]
              && Walk(fs, start, t.names, follow, level, 0) == Plus(Walk(fs, at, rest, follow, level, k), n)
            else
              Walk(fs, start, t.names, follow, level, 0) == Found(at, n) && finality == FinalityOf(SuffixOf(t))
  }

  /** How the end of the path string is understood, from its last component. */
  function LastFinality(c: string, finality: Finality): Finality {
    if finality == NotFinal then NotFinal
    else if c == "." then FinalDot
    else if c == ".." then FinalSlash
    else finality
  }

  /** The loop is right again once a component has been dealt with. */
  lemma LoopStep(fs: Fs, t: Text, start: Path, follow: bool, level: nat, text: string, at: Path, rest: Path,
                 k: nat, n: nat, finality: Finality, text': string)
    requires IsFs(fs) && LoopInv(fs, t, start, follow, level, text, at, rest, NotFinal, k, n) && t.names != []
    requires |rest| == 1 <==> finality != NotFinal
    requires finality != NotFinal ==> finality == if t.slash then FinalSlash else FinalNormal
    ensures var last := finality != NotFinal;
            var o := Advance(fs, at, rest[0], last, follow, level, k);
            && IsName(rest[0])
            && (o.Failed? ==> Walk(fs, start, t.names, follow, level, 0) == Failed(o.error, o.links + n))
            && (o.Found? && IsText(text', o.path) ==>
                  LoopInv(fs, t, start, follow, level, text', o.path, rest[1..], LastFinality(rest[0], finality),
                          if IsFollowed(fs, at, rest[0], last, follow) then k + 1 else k, n + o.links))
  {
    hide Advance, IsFs, InDirectory, IsText, Parse, Joined, Render, NextMove;
    WalkStep(fs, start, t.names, follow, level, at, rest, k, n);
    if |rest| == 1 {
      assert rest[1..] == [];
    }
  }

  /** What the parser does to the names that remain. */
  lemma NextNames(user: string, cursor: nat, next: nat, finality: Finality)
    requires cursor <= next <= |user| && Names(user[cursor..]) != []
    requires user[next..] == SkipSlashes(Behind(user[cursor..]))
    requires finality == if user[next..] != "" then NotFinal
                         else if Behind(user[cursor..]) != "" then FinalSlash else FinalNormal
    ensures var rest := Names(user[cursor..]);
            && rest[0] == Head(user[cursor..]) && rest[1..] == Names(user[next..])
            && (|rest| == 1 <==> finality != NotFinal)
            && (|rest| == 1 ==> (finality == FinalSlash <==> Parse(user).slash))
  {
    NamesUnfold(user[cursor..]);
    NamesUnfold(user[next..]);
    SkipTwice(Behind(user[cursor..]));
    if finality != NotFinal {
      LastChar(user, cursor);
    }
  }

  /** One component of a walk. */
  lemma WalkStep(fs: Fs, start: Path, names: Path, follow: bool, level: nat, at: Path, rest: Path, k: nat, n: nat)
    requires IsFs(fs) && InDirectory(fs, at) && AreNames(rest) && rest != [] && level <= MAXSYMLINKS
    requires Walk(fs, start, names, follow, level, 0) == Plus(Walk(fs, at, rest, follow, level, k), n)
    ensures var last := |rest| == 1;
            var o := Advance(fs, at, rest[0], last, follow, level, k);
            var k' := if IsFollowed(fs, at, rest[0], last, follow) then k + 1 else k;
            && (o.Failed? ==> Walk(fs, start, names, follow, level, 0) == Failed(o.error, o.links + n))
            && (o.Found? ==>
                  && Walk(fs, start, names, follow, level, 0) ==
                     Plus(Walk(fs, o.path, rest[1..], follow, level, k'), n + o.links)
                  && IsCanonical(o.path) && (!last ==> InDirectory(fs, o.path)))
  {
    WalkAdvance(fs, at, rest, follow, level, k);
    AdvanceArrives(fs, at, rest[0], |rest| == 1, follow, level, k);
  }

  lemma FitsInBuffer(p: Path)
    requires Fits(p)
    ensures |Render(p)| < PATH_MAX
  {
    if p != [] {
      assert p[..|p| - 1 + 1] == p && p[|p| - 1] == p[|p| - 1];
    }
  }

  /** What is left of the names in the buffer of a component that is neither "." nor "..". */
  ghost predicate Descended(fs: Fs, at: Path, c: string, last: bool, follow: bool, level: nat, k: nat,
                            r: Result, text: string, k': nat)
    requires level <= MAXSYMLINKS
  {
    match Advance(fs, at, c, last, follow, level, k)
    case Failed(e, _) => r == Error(e)
    case Found(p, _) =>
      r == Success && IsText(text, p) && k' == if IsFollowed(fs, at, c, last, follow) then k + 1 else k
  }

  class GuestPath {
    var text: string

    constructor (path: string)
      ensures text == path
    {
      text := path;
    }

    /** `canonicalize`; the buffer holds a canonical directory if the path is relative to it. */
    method Canonicalize(fs: Fs, user: string, derefFinal: bool, level: nat) returns (r: Result)
      requires IsFs(fs) && Readable(fs) && '\0' !in user
      requires text != "" && text[0] == '/' && !(user != "" && user[0] == '/') ==>
                 text == Render(Names(text)) && InDirectory(fs, Names(text))
      modifies this
      ensures Canonicalizes(fs, old(text), user, derefFinal, level, r, text)
      decreases MAXSYMLINKS + 1 - level, 5
    {
      if level > MAXSYMLINKS {
        return Error(ELOOP);
      }
      if |text| >= PATH_MAX {
        return Error(ENAMETOOLONG);
      }
      ghost var t := Parse(user);
      ghost var start := Start(Names(text), t);
      if !(user != "" && user[0] == '/') {
        if !(text != "" && text[0] == '/') {
          return Error(EINVAL);
        }
      } else {
        text := "/";
      }
      r := Loop(fs, user, derefFinal, level, start);
    }

    /** The loop over the components. */
    method Loop(fs: Fs, user: string, derefFinal: bool, level: nat, ghost start: Path) returns (r: Result)
      requires IsFs(fs) && Readable(fs) && '\0' !in user && level <= MAXSYMLINKS
      requires InDirectory(fs, start) && text == Render(start)
      modifies this
      ensures LoopResult(fs, start, Parse(user), derefFinal, level, r, text)
      decreases MAXSYMLINKS + 1 - level, 4
    {
      var cursor, finality, symlinksFollowed := 0, NotFinal, 0;
      ghost var t, at, rest, n: nat := Parse(user), start, Names(user), 0;
      ghost var follow := derefFinal || t.slash;
      assert user[0..] == user;
      NamesAreNames(user);
      while finality == NotFinal
        invariant cursor <= |user| && (finality == NotFinal ==> rest == Names(user[cursor..]))
        invariant LoopInv(fs, t, start, follow, level, text, at, rest, finality, symlinksFollowed, n)
        decreases |rest|, if finality == NotFinal then 1 else 0
      {
        ghost var from := cursor;
        var ok, component;
        ok, finality, component, cursor := NextComponent(user, cursor);
        NamesUnfold(user[from..]);
        if component == "" {
          r := NoComponent(fs, component, at);
          if r.Error? {
            return;
          }
        } else {
          NextNames(user, from, cursor, finality);
          r, symlinksFollowed, at, n := NextStep(fs, t, start, component, ok, finality, derefFinal, level,
                                                symlinksFollowed, at, rest, n);
          if r.Error? {
            return;
          }
          rest := rest[1..];
          finality := LastFinality(component, finality);
        }
      }
      r := Finish(finality, level, at, t);
    }

    /** A path without components goes through the loop once. */
    method NoComponent(fs: Fs, component: string, ghost at: Path) returns (r: Result)
      requires IsFs(fs) && InDirectory(fs, at) && IsText(text, at) && component == ""
      modifies this
      ensures |Joined(Render(at), "")| + 1 >= PATH_MAX ==> r == Error(ENAMETOOLONG)
      ensures |Joined(Render(at), "")| + 1 < PATH_MAX ==> r == Success && text == Joined(Render(at), "")
    {
      var status, scratch := JoinPaths(text, component);
      if status != Done {
        return Error(ENAMETOOLONG);
      }
      JoinedSuffix(at);
      NamesOfSuffix(at, Slash);
      SettledParent(fs, at);
      var isLink;
      r, isLink := BindingStat(fs, scratch, true, at);
      if r.Error? {
        return;
      }
      status, scratch := JoinPaths(text, component);
      text := scratch;
    }

    /** One round of the loop. */
    method NextStep(fs: Fs, ghost t: Text, ghost start: Path, component: string, ok: bool, finality: Finality,
                    derefFinal: bool, level: nat, k: nat, ghost at: Path, ghost rest: Path, ghost n: nat)
      returns (r: Result, k': nat, ghost at': Path, ghost n': nat)
      requires IsFs(fs) && Readable(fs) && t.names != []
      requires LoopInv(fs, t, start, derefFinal || t.slash, level, text, at, rest, NotFinal, k, n)
      requires component == rest[0] && (ok <==> |component| < NAME_MAX)
      requires |rest| == 1 <==> finality != NotFinal
      requires finality != NotFinal ==> finality == if t.slash then FinalSlash else FinalNormal
      modifies this
      ensures r.Error? ==>
                var o := Walk(fs, start, t.names, derefFinal || t.slash, level, 0); o.Failed? && o.error == r.errno
      ensures r.Success? ==>
                LoopInv(fs, t, start, derefFinal || t.slash, level, text, at', rest[1..],
                        LastFinality(component, finality), k', n')
      decreases MAXSYMLINKS + 1 - level, 3
    {
      ghost var follow, last := derefFinal || t.slash, finality != NotFinal;
      ghost var o := Advance(fs, at, component, last, follow, level, k);
      if o.Failed? {
        LoopStep(fs, t, start, follow, level, text, at, rest, k, n, finality, "");
      }
      assert IsName(component);
      at', n', k' := at, n, k;
      if !ok {
        return Error(ENAMETOOLONG), k', at', n';
      }
      if component == "." {
        r := Success;
      } else if component == ".." {
        text := PopName(text, at);
        r := Success;
      } else {
        r, k' := Descend(fs, component, finality, derefFinal, level, k, at, follow);
        if r.Error? {
          return;
        }
      }
      LoopStep(fs, t, start, follow, level, old(text), at, rest, k, n, finality, text);
      at', n' := o.path, n + o.links;
    }

    /** A component that is neither "." nor "..". */
    method Descend(fs: Fs, component: string, finality: Finality, derefFinal: bool, level: nat, k: nat,
                   ghost at: Path, ghost follow: bool) returns (r: Result, k': nat)
      requires IsFs(fs) && Readable(fs) && InDirectory(fs, at) && IsText(text, at) && level <= MAXSYMLINKS
      requires IsPlain(component) && |component| < NAME_MAX
      requires finality != FinalDot && (finality != NotFinal ==> (follow <==> derefFinal || finality == FinalSlash))
      modifies this
      ensures Descended(fs, at, component, finality != NotFinal, follow, level, k, r, text, k')
      decreases MAXSYMLINKS + 1 - level, 2
    {
      k' := k;
      var ok, scratch := JoinName(text, component, at);
      if !ok {
        return Error(ENAMETOOLONG), k';
      }
      var isLink;
      r, isLink := Stat(fs, scratch, finality != NotFinal, at + [component]);
      if r.Error? {
        return;
      }
      if !isLink || (finality == FinalNormal && !derefFinal) {
        ok, text := JoinName(text, component, at);
        return;
      }
      var target := ReadLink(fs, scratch, at + [component]);
      r, k' := FollowLink(fs, target, finality, level, k, at);
    }

    /** Read the link, canonicalize its text, and check where that leads. */
    method FollowLink(fs: Fs, target: string, finality: Finality, level: nat, k: nat, ghost at: Path)
      returns (r: Result, k': nat)
      requires IsFs(fs) && Readable(fs) && InDirectory(fs, at) && IsText(text, at) && level <= MAXSYMLINKS
      requires target != "" && '\0' !in target
      modifies this
      ensures match LinkStep(fs, at, Parse(target), finality != NotFinal, level, k)
              case Failed(e, _) => r == Error(e)
              case Found(p, _) => r == Success && IsText(text, p) && k' == k + 1
      decreases MAXSYMLINKS + 1 - level, 1
    {
      hide Walk, IsText, InDirectory, Readable, IsFs, Names;
      k' := k;
      if |target| >= PATH_MAX {
        return Error(ENAMETOOLONG), k';
      }
      k' := k + 1;
      ghost var p;
      r, p := CanonicalizeLink(fs, target, level + k', at);
      if r.Error? {
        return;
      }
      var isLink;
      r, isLink := Stat(fs, text, finality != NotFinal, p);
      if r.Error? {
        return;
      }
      assert !isLink;
    }

    /** The recursive call. */
    method CanonicalizeLink(fs: Fs, target: string, level: nat, ghost at: Path) returns (r: Result, ghost p: Path)
      requires IsFs(fs) && Readable(fs) && InDirectory(fs, at) && IsText(text, at) && level > 0
      requires target != "" && '\0' !in target && |target| < PATH_MAX
      modifies this
      ensures level > MAXSYMLINKS ==> r == Error(ELOOP)
      ensures level <= MAXSYMLINKS ==>
                var t := Parse(target);
                match Walk(fs, Start(at, t), t.names, true, level, 0)
                case Failed(e, _) => r == Error(e)
                case Found(q, _) => r == Success && p == q && IsText(text, p) && !fs(p).Link?
      decreases MAXSYMLINKS + 1 - level, 6
    {
      CanonicalNames(at);
      FitsInBuffer(at);
      NamesAreNames(target);
      p := [];
      r := Canonicalize(fs, target, true, level);
      if r.Success? {
        LinkFollowed(fs, at, Parse(target), level, text);
        p := Walk(fs, Start(at, Parse(target)), Parse(target).names, true, level, 0).path;
        InnerArrives(fs, at, Parse(target), level);
      }
    }

    /** Behind the loop: the outermost call restores what the end of the path string asked for. */
    method Finish(finality: Finality, level: nat, ghost at: Path, ghost t: Text) returns (r: Result)
      requires t.names != [] ==> IsText(text, at) && finality == FinalityOf(SuffixOf(t))
      requires t.names == [] ==> finality == FinalNormal
      modifies this
      ensures t.names == [] ==> r == Success && text == old(text)
      ensures t.names != [] ==>
                var path := if level == 0 then WithSuffix(at, SuffixOf(t)) else Render(at);
                if level == 0 && SuffixOf(t) != NoSuffix && |path| + 1 >= PATH_MAX then r == Error(ENAMETOOLONG)
                else r == Success && text == path
    {
      r := Success;
      if level == 0 {
        if t.names != [] {
          JoinedSuffix(at);
        }
        if finality == FinalSlash || finality == FinalDot {
          var status, joined := JoinPaths(text, if finality == FinalSlash then "" else ".");
          if status != Done {
            return Error(ENAMETOOLONG);
          }
          text := joined;
        }
      }
    }
  }

  /** The inner call has led where the link leads, and not to another link. */
  lemma {:induction false} LinkFollowed(fs: Fs, at: Path, target: Text, level: nat, text: string)
    requires IsFs(fs) && InDirectory(fs, at) && 0 < level <= MAXSYMLINKS && AreNames(target.names)
    requires target == Parse(target.chars) && target.chars != ""
    requires LoopResult(fs, Start(at, target), target, true, level, Success, text)
    ensures var inner := Walk(fs, Start(at, target), target.names, true, level, 0);
            && inner.Found? && text == Render(inner.path) && Names(text) == inner.path && !fs(inner.path).Link?
  {
    InnerArrives(fs, at, target, level);
    var inner := Walk(fs, Start(at, target), target.names, true, level, 0);
    if target.names == [] {
      OnlySlashes(target.chars);
      JoinedSuffix([]);
    }
    CanonicalNames(inner.path);
  }

  lemma OnlySlashes(s: string)
    requires Names(s) == [] && s != ""
    ensures s[0] == '/'
  {
  }

  lemma RootIn(fs: Fs)
    requires IsFs(fs)
    ensures InDirectory(fs, [])
  {
  }

  lemma WalkCorrect(fs: Fs, base: Path, t: Text, derefFinal: bool, fuel: nat)
    requires IsFs(fs) && InDirectory(fs, base) && AreNames(t.names) && fuel >= Pow2(MAXSYMLINKS)
    requires Canonicalized(fs, base, t, derefFinal).Found?
    ensures var o, start, follow := Canonicalized(fs, base, t, derefFinal), Start(base, t), derefFinal || t.slash;
            Arrived(fs, o.path, follow) && o.links < Pow2(MAXSYMLINKS) && Resolve(fs, start, t.names, follow, fuel) == o
  {
    InnerStart(fs, base, t);
    hide Walk, Resolve, AllShort, Pow2, IsFs, InDirectory, Arrived;
    var start, follow := Start(base, t), derefFinal || t.slash;
    StartArrived(fs, start, follow);
    WalkArrives(fs, start, t.names, follow, 0, 0);
    LinksBounded(fs, start, t.names, follow, 0, 0);
    CanonicalizeResolves(fs, base, t, derefFinal, fuel);
  }

  /** A successful canonicalization is what the standard's procedure finds, written out with what the end of
      the path string asks for; everything above it is a directory. */
  lemma CanonicalizeCorrect(fs: Fs, before: string, user: string, derefFinal: bool, after: string, fuel: nat)
    returns (p: Path, links: nat)
    requires IsFs(fs) && '\0' !in user && fuel >= Pow2(MAXSYMLINKS) && Names(user) != []
    requires Parse(user).absolute || InDirectory(fs, Names(before))
    requires Canonicalizes(fs, before, user, derefFinal, 0, Success, after)
    ensures var t := Parse(user);
            && after == WithSuffix(p, SuffixOf(t)) && Arrived(fs, p, derefFinal || t.slash) && links < Pow2(MAXSYMLINKS)
            && Resolve(fs, Start(Names(before), t), t.names, derefFinal || t.slash, fuel) == Found(p, links)
  {
    RootIn(fs);
    hide Walk, Resolve, AllShort, WithSuffix, SuffixOf, Pow2, IsFs, InDirectory, Arrived, Names, Joined, Render;
    var t := Parse(user);
    var start := Start(Names(before), t);
    var base := if t.absolute then [] else Names(before);
    var o := Canonicalized(fs, base, t, derefFinal);
    p, links := o.path, o.links;
    NamesAreNames(user);
    assert Start(base, t) == start;
    WalkCorrect(fs, base, t, derefFinal, fuel);
  }

  lemma WalkAnswers(fs: Fs, base: Path, t: Text, derefFinal: bool, fuel: nat)
    requires IsFs(fs) && InDirectory(fs, base) && AreNames(t.names) && fuel >= Pow2(MAXSYMLINKS)
    ensures var o, start, follow := Canonicalized(fs, base, t, derefFinal), Start(base, t), derefFinal || t.slash;
            if IsError(o, ELOOP) then IsError(Resolve(fs, start, t.names, follow, MAXSYMLINKS), ELOOP)
            else if AllShort(fs, start, t.names, follow, fuel) then o == Resolve(fs, start, t.names, follow, fuel)
            else IsError(o, ENAMETOOLONG)
  {
    hide Walk, Resolve, AllShort, Pow2;
    CanonicalizeResolves(fs, base, t, derefFinal, fuel);
    if !IsError(Resolve(fs, Start(base, t), t.names, derefFinal || t.slash, MAXSYMLINKS), ELOOP) {
      EnoughLinks(fs, base, t, derefFinal);
      NoErrorOfItsOwn(fs, Start(base, t), t.names, derefFinal || t.slash, MAXSYMLINKS);
    }
  }

  /** Whatever the answer is, it is the one of the standard's procedure, or the one error that is its due: a
      base, name, path or link text that does not fit, or a base that is not absolute.  ELOOP means more than
      MAXSYMLINKS links. */
  lemma CanonicalizeAnswers(fs: Fs, before: string, user: string, derefFinal: bool, r: Result, after: string, fuel: nat)
    requires IsFs(fs) && '\0' !in user && fuel >= Pow2(MAXSYMLINKS) && Names(user) != []
    requires Parse(user).absolute || InDirectory(fs, Names(before))
    requires Canonicalizes(fs, before, user, derefFinal, 0, r, after)
    ensures var t := Parse(user);
            var start, follow := Start(Names(before), t), derefFinal || t.slash;
            && (r == Error(ELOOP) ==> IsError(Resolve(fs, start, t.names, follow, MAXSYMLINKS), ELOOP))
            && (r != Error(ELOOP) ==>
                  if |before| >= PATH_MAX then r == Error(ENAMETOOLONG)
                  else if !t.absolute && CharAt(before, 0) != '/' then r == Error(EINVAL)
                  else if !AllShort(fs, start, t.names, follow, fuel) then r == Error(ENAMETOOLONG)
                  else
                    match Resolve(fs, start, t.names, follow, fuel)
                    case Failed(e, _) => r == Error(e)
                    case Found(p, _) =>
                      var path := WithSuffix(p, SuffixOf(t));
                      if SuffixOf(t) != NoSuffix && |path| >= PATH_MAX - 1 then r == Error(ENAMETOOLONG)
                      else r == Success && after == path)
  {
    RootIn(fs);
    hide Walk, Resolve, AllShort, WithSuffix, SuffixOf, Pow2, IsFs, InDirectory, Names, Joined, Render;
    var t := Parse(user);
    var base := if t.absolute then [] else Names(before);
    NamesAreNames(user);
    assert Start(base, t) == Start(Names(before), t);
    WalkAnswers(fs, base, t, derefFinal, fuel);
  }

  /** A path without any name is the one case where the buffer may not end up canonical: it gains a separator,
      unless it is the root. */
  lemma EmptyPath(fs: Fs, at: Path, user: string, derefFinal: bool, r: Result, after: string)
    requires IsCanonical(at) && Names(user) == [] && Canonicalizes(fs, Render(at), user, derefFinal, 0, r, after)
    ensures var start := Start(at, Parse(user));
            && r == (if |Render(at)| >= PATH_MAX || |WithSuffix(start, Slash)| >= PATH_MAX - 1 then Error(ENAMETOOLONG)
                     else Success)
            && (r == Success ==> after == WithSuffix(start, Slash) && (after == Render(start) <==> start == []))
  {
    CanonicalNames(at);
    JoinedSuffix(at);
    JoinedSuffix([]);
  }
}
