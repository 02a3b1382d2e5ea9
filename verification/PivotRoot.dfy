/** What the emulation of pivot_root is meant to do, on names, and when the string tests of the code do it. */
module PivotRoot {
  import opened Paths
  import opened Bindings

  /** `root` is the guest path that becomes "/"; the old root appears at `put`, unless that is empty. */
  datatype Plan = Plan(root: Path, put: Path)

  /** What lies under the new root moves with it; anything else is also put under the old root. */
  function TargetOf(plan: Plan, g: Path): Target<Path> {
    if g == [] then Stays
    else if plan.root != [] && plan.root < g then MovesTo(g[|plan.root|..])
    else if plan.put != [] && !(plan.put <= g) && |Cat(plan.put)| + |Render(g)| < PATH_MAX then CopiedTo(plan.put + g)
    else Stays
  }

  function PivotOne(v: Pivot, plan: Plan, g: Path, h: Path): Pivot {
    match TargetOf(plan, g)
    case Stays => v
    case MovesTo(to) => Unbind(Bind(v, to, Render(to), h), g)
    case CopiedTo(to) => Bind(v, to, Render(to), h)
  }

  function PivotAll(v: Pivot, plan: Plan, l: seq<Binding>): Pivot {
    if l == [] then v
    else
      var b := l[|l| - 1];
      PivotOne(PivotAll(v, plan, l[..|l| - 1]), plan, b.guest.names, b.host.names)
  }

  function PivotStart(t: Table, plan: Plan, newHost: Path, oldHost: Path): Pivot {
    var v := Bind(Pivot(t - {[]}, {}), [], "/", newHost);
    if plan.put != [] then Bind(v, plan.put, Render(plan.put), oldHost) else v
  }

  predicate GoesTo(plan: Plan, b: Binding, k: Path) {
    TargetOf(plan, b.guest.names) == MovesTo(k) || TargetOf(plan, b.guest.names) == CopiedTo(k)
  }

  /** A binding made during the pivot stays, unless some binding of the old tree goes there. */
  lemma {:induction false} BoundStays(v: Pivot, plan: Plan, l: seq<Binding>, k: Path)
    requires k in v.bound && k in v.table && forall b :: b in l ==> !GoesTo(plan, b, k)
    ensures var w := PivotAll(v, plan, l); k in w.bound && k in w.table && w.table[k] == v.table[k]
  {
    if l != [] {
      BoundStays(v, plan, l[..|l| - 1], k);
      assert l[|l| - 1] in l;
    }
  }

  /** What goes to a place that no other binding goes to is found there. */
  lemma {:induction false} Lands(v: Pivot, plan: Plan, l: seq<Binding>, n: nat, k: Path)
    requires n < |l| && GoesTo(plan, l[n], k)
    requires forall i :: 0 <= i < |l| && i != n ==> !GoesTo(plan, l[i], k)
    ensures var w := PivotAll(v, plan, l);
            k in w.bound && k in w.table && w.table[k] == Place(Render(k), l[n].host.names)
  {
    if n < |l| - 1 {
      Lands(v, plan, l[..|l| - 1], n, k);
    }
  }

  /** After the pivot "/" leads to the new root; the old root is reached at `put`, unless the old tree had a
      binding at that very place. */
  lemma RootsAfterPivot(t: Table, plan: Plan, newRoot: Path, oldRoot: Path, l: seq<Binding>)
    ensures var w := PivotAll(PivotStart(t, plan, newRoot, oldRoot), plan, l).table;
            && [] in w && w[[]] == Place("/", newRoot)
            && (plan.put != [] && (forall b :: b in l ==> b.guest.names != plan.root + plan.put) ==>
                  plan.put in w && w[plan.put] == Place(Render(plan.put), oldRoot))
  {
    var v := PivotStart(t, plan, newRoot, oldRoot);
    BoundStays(v, plan, l, []);
    if plan.put != [] && forall b :: b in l ==> b.guest.names != plan.root + plan.put {
      forall b | b in l ensures !GoesTo(plan, b, plan.put) {
        var g := b.guest.names;
        if plan.root < g {
          assert g == plan.root + g[|plan.root|..];
        }
      }
      BoundStays(v, plan, l, plan.put);
    }
  }

  /** A binding under the new root keeps its host path under the new name, unless that name lies below the
      place of the old root. */
  lemma MovedWithRoot(v: Pivot, plan: Plan, l: seq<Binding>, n: nat)
    requires GuestSorted(l) && n < |l| && plan.root != [] && plan.root < l[n].guest.names
    requires plan.put == [] || !(plan.put <= l[n].guest.names[|plan.root|..])
    ensures var k, w := l[n].guest.names[|plan.root|..], PivotAll(v, plan, l).table;
            k in w && w[k] == Place(Render(k), l[n].host.names)
  {
    var k := l[n].guest.names[|plan.root|..];
    assert l[n].guest.names == plan.root + k;
    DistinctFrom(l, n);
    forall i | 0 <= i < |l| && i != n ensures !GoesTo(plan, l[i], k) {
      var g := l[i].guest.names;
      if plan.root < g {
        assert g == plan.root + g[|plan.root|..];
      }
      assert plan.put <= plan.put + g;
    }
    Lands(v, plan, l, n, k);
  }


  // ----- the string tests of the code, on canonical paths

  /** What stands in front of an alias under `p`, part by part. */
  function Under(p: Path, s: Suffix): Path {
    match s
    case NoSuffix => p
    case Slash => p + [""]
    case Dot => p + ["."]
  }

  /** What the code takes for the place of the old root below `n`, when the end `s` of `put_old` is kept. */
  function PutOld(n: Path, p: Path, s: Suffix): Path {
    if n < p || (n == p && s == Dot) then Under(p[|n|..], s) else []
  }

  lemma SuffixIsPart(p: Path, s: Suffix)
    requires IsCanonical(p)
    ensures AreParts(Under(p, s))
    ensures p != [] || s == Dot ==> WithSuffix(p, s) == Cat(Under(p, s)) && |Cat(Under(p, s))| > 1
  {
    CatShape(p);
    match s
    case NoSuffix =>
    case Slash => CatConcat(p, [""]);
    case Dot => CatConcat(p, ["."]);
  }

  lemma StrictPrefix(n: Path, w: Path)
    requires AreParts(n) && AreParts(w)
    ensures Cat(n) <= Cat(w) && CharAt(Cat(w), |Cat(n)|) == '/' <==> n < w
    ensures n <= w ==> Cat(n) <= Cat(w) && Cat(w)[|Cat(n)|..] == Cat(w[|n|..])
  {
    CatPrefix(n, w);
    if n <= w {
      var rest := w[|n|..];
      assert w == n + rest;
      CatConcat(n, rest);
      if rest != [] {
        assert Cat(rest)[0] == '/';
      }
    }
  }

  lemma UnderBelow(n: Path, p: Path, s: Suffix)
    requires IsCanonical(n)
    ensures n < Under(p, s) <==> n < p || (n == p && s != NoSuffix)
    ensures n <= p ==> Under(p, s)[|n|..] == Under(p[|n|..], s)
  {
    var w := Under(p, s);
    assert w[..|p|] == p;
    if n < w && |n| <= |p| {
      assert n == w[..|n|] == p[..|n|];
    }
  }

  lemma OldRootText(n: string, w: string)
    requires '\0' !in w && |n| > 1
    ensures OldRootAt(n, w) ==
            if n <= w && CharAt(w, |n|) == '/' && |w[|n|..]| > 1 then w[|n|..] else ""
  {
    if n <= w {
      NoEndIn(w[|n|..], 1);
    }
  }

  lemma OldRootMeaning(n: Path, p: Path, s: Suffix)
    requires IsCanonical(n) && IsCanonical(p)
    ensures AreParts(PutOld(n, p, s))
    ensures OldRootAt(Render(n), WithSuffix(p, s)) == Cat(PutOld(n, p, s))
  {
    var w := Under(p, s);
    SuffixIsPart(p, s);
    NoEnd(w);
    CatShape(n);
    if n == [] {
      assert p[|n|..] == p;
      assert WithSuffix(p, s)[0..] == WithSuffix(p, s);
    } else if p == [] && s != Dot {
    } else {
      StrictPrefix(n, w);
      OldRootText(Cat(n), Cat(w));
      UnderBelow(n, p, s);
      BelowOldRoot(n, p, s);
      hide Cat, Under, WithSuffix, OldRootAt;
    }
  }

  /** What is left below the new root is more than a separator, unless it is only that. */
  lemma BelowOldRoot(n: Path, p: Path, s: Suffix)
    requires IsCanonical(n) && IsCanonical(p)
    ensures n <= p ==> AreParts(Under(p[|n|..], s)) && (|Cat(Under(p[|n|..], s))| > 1 <==> n < p || s == Dot)
  {
    if n <= p {
      var rest := p[|n|..];
      SuffixIsPart(rest, s);
      assert Cat([""]) == "/";
    }
  }

  /** A part that is no name keeps a path from having a canonical one inside it. */
  lemma NotCanonical(u: Path, g: Path)
    requires IsCanonical(g) && u <= g
    ensures IsCanonical(u)
  {
    assert forall i :: 0 <= i < |u| ==> u[i] == g[i];
  }

  lemma KeyOfCat(p: Path)
    requires AreParts(p) && p != [] && p[|p| - 1] != ""
    ensures Key(Cat(p)) == p && IsAbsolute(Cat(p))
  {
    hide Cat, Parts, Key;
    var c := p[|p| - 1];
    assert IsPart(c) && c[|c| - 1] in c;
    LastOfCat(p);
    PartsOfCat(p);
    NoEnd(p);
    StartsWithSlash(p);
    WholeKey(Cat(p));
  }

  lemma StartsWithSlash(p: Path)
    requires p != []
    ensures Cat(p) != "" && Cat(p)[0] == '/'
  {
  }

  lemma WholeKey(s: string)
    requires s != "" && s[|s| - 1] != '/'
    ensures Key(s) == Parts(s)
  {
    assert s[..|s|] == s;
  }

  function TextOf(target: Target<Path>): Target<string> {
    match target
    case Stays => Stays
    case MovesTo(k) => MovesTo(Render(k))
    case CopiedTo(k) => CopiedTo(Render(k))
  }

  /** The string tests decide what the plan says, whatever the parts in front of the aliases are. */
  lemma TargetMeaning(plan: Plan, g: Path)
    requires IsCanonical(plan.root) && AreParts(plan.put) && IsCanonical(g)
    ensures TextTarget(Roots(Render(plan.root), Cat(plan.put)), Render(g)) == TextOf(TargetOf(plan, g))
  {
    CatShape(g);
    if g != [] {
      UnderRoot(Render(g), Render(plan.root), g, plan.root);
      CatPrefix(plan.put, g);
      CatConcat(plan.put, g);
    }
  }

  lemma TargetKey(plan: Plan, g: Path)
    requires AreParts(plan.put) && IsCanonical(g)
    ensures var target := TargetOf(plan, g); !target.Stays? ==> target.to != [] && Key(Render(target.to)) == target.to
  {
    var target := TargetOf(plan, g);
    if !target.Stays? {
      assert target.to[|target.to| - 1] == g[|g| - 1];
      KeyOfCat(target.to);
    }
  }

  ghost predicate AllClean(l: seq<Binding>) {
    forall b :: b in l ==> IsText(b.guest.path, b.guest.names)
  }

  /** The loop of the code, on canonical paths, is the one on names. */
  lemma {:induction false} PivotMeaning(v: Pivot, plan: Plan, l: seq<Binding>)
    requires IsCanonical(plan.root) && AreParts(plan.put) && AllClean(l)
    ensures TextPivotAll(v, Roots(Render(plan.root), Cat(plan.put)), l) == PivotAll(v, plan, l)
  {
    if l != [] {
      var b := l[|l| - 1];
      assert b in l;
      PivotMeaning(v, plan, l[..|l| - 1]);
      TargetMeaning(plan, b.guest.names);
      TargetKey(plan, b.guest.names);
    }
  }

  // ----- when pivot_root does what it is meant to do

  ghost predicate CleanKeys(t: Table) {
    forall k :: k in t ==> IsCanonical(k) && t[k].path == Render(k)
  }

  /** A list of bindings with canonical guest paths, and the table that it shows. */
  ghost predicate Canonical(t: Table, l: seq<Binding>) {
    GuestSorted(l) && Rooted(l) && Shows(l, t) && AllClean(l) && CleanKeys(t)
  }

  function PlanFor(n: Path, p: Path): Plan {
    Plan(n, if n <= p then p[|n|..] else [])
  }

  /** The table that pivot_root is meant to leave: new root `n` on the host path `newHost`, put_old `p`. */
  function Specified(t: Table, l: seq<Binding>, n: Path, p: Path, newHost: Path, oldHost: Path): Table {
    PivotAll(PivotStart(t, PlanFor(n, p), newHost, oldHost), PlanFor(n, p), l).table
  }

  /** The table that the code leaves, `put_old` being spelled with the end `s`. */
  function Left(t: Table, l: seq<Binding>, n: Path, p: Path, s: Suffix, newHost: Path, oldHost: Path): Table {
    var r := Roots(Render(n), OldRootAt(Render(n), WithSuffix(p, s)));
    TextPivotAll(TextPivotStart(t, r, newHost, oldHost), r, l).table
  }

  /** The end of `put_old` does no harm: there is none, or the path is not below the new root at all, or it is
      the new root with a "/". */
  predicate EndIsHarmless(n: Path, p: Path, s: Suffix) {
    s == NoSuffix || !(n <= p) || (n == p && s != Dot)
  }

  lemma LeftMeans(t: Table, l: seq<Binding>, n: Path, p: Path, s: Suffix, newHost: Path, oldHost: Path)
    requires IsCanonical(n) && IsCanonical(p) && AllClean(l)
    ensures var u := PutOld(n, p, s);
            && AreParts(u)
            && Left(t, l, n, p, s, newHost, oldHost) ==
               PivotAll(TextPivotStart(t, Roots(Render(n), Cat(u)), newHost, oldHost), Plan(n, u), l).table
  {
    var u := PutOld(n, p, s);
    OldRootMeaning(n, p, s);
    PivotMeaning(TextPivotStart(t, Roots(Render(n), Cat(u)), newHost, oldHost), Plan(n, u), l);
  }

  lemma StartMeans(t: Table, n: Path, u: Path, newHost: Path, oldHost: Path)
    requires AreParts(u) && (u == [] || u[|u| - 1] != "")
    ensures TextPivotStart(t, Roots(Render(n), Cat(u)), newHost, oldHost) == PivotStart(t, Plan(n, u), newHost, oldHost)
  {
    if u != [] {
      KeyOfCat(u);
    }
  }

  lemma HarmlessEnd(t: Table, l: seq<Binding>, n: Path, p: Path, s: Suffix, newHost: Path, oldHost: Path)
    requires IsCanonical(n) && IsCanonical(p) && AllClean(l) && EndIsHarmless(n, p, s)
    ensures Left(t, l, n, p, s, newHost, oldHost) == Specified(t, l, n, p, newHost, oldHost)
  {
    var u := PutOld(n, p, s);
    LeftMeans(t, l, n, p, s, newHost, oldHost);
    assert u == PlanFor(n, p).put by {
      if n == p {
        assert p[|n|..] == [];
      }
    }
    assert IsCanonical(u);
    StartMeans(t, n, u, newHost, oldHost);
  }

  /** What is bound during the pivot is not given up again. */
  lemma {:induction false} BoundKept(v: Pivot, plan: Plan, l: seq<Binding>, k: Path)
    requires k in v.bound && k in v.table
    ensures var w := PivotAll(v, plan, l); k in w.bound && k in w.table
  {
    if l != [] {
      BoundKept(v, plan, l[..|l| - 1], k);
    }
  }

  lemma {:induction false} GoneThere(v: Pivot, plan: Plan, l: seq<Binding>, b: Binding, k: Path)
    requires b in l && GoesTo(plan, b, k)
    ensures var w := PivotAll(v, plan, l); k in w.bound && k in w.table
  {
    var front := l[..|l| - 1];
    if b == l[|l| - 1] {
    } else {
      assert b in front by {
        assert l == front + [l[|l| - 1]];
      }
      GoneThere(v, plan, front, b, k);
    }
  }

  lemma CanonicalParts(a: Path, b: Path)
    requires IsCanonical(a) && IsCanonical(b)
    ensures IsCanonical(a + b)
    ensures forall i :: 0 <= i <= |a| ==> IsCanonical(a[i..])
  {
  }

  lemma {:induction false} StaysClean(v: Pivot, plan: Plan, l: seq<Binding>)
    requires CleanKeys(v.table) && IsCanonical(plan.put) && AllClean(l)
    ensures CleanKeys(PivotAll(v, plan, l).table)
  {
    if l != [] {
      var b := l[|l| - 1];
      assert b in l;
      StaysClean(v, plan, l[..|l| - 1]);
      CanonicalParts(b.guest.names, []);
      CanonicalParts(plan.put, b.guest.names);
    }
  }

  /** All paths in the table that pivot_root is meant to leave are canonical. */
  lemma SpecifiedIsClean(t: Table, l: seq<Binding>, n: Path, p: Path, newHost: Path, oldHost: Path)
    requires CleanKeys(t) && AllClean(l) && IsCanonical(n) && IsCanonical(p)
    ensures CleanKeys(Specified(t, l, n, p, newHost, oldHost))
  {
    CanonicalParts(p, []);
    StaysClean(PivotStart(t, PlanFor(n, p), newHost, oldHost), PlanFor(n, p), l);
  }

  lemma NotClean(p: Path, q: Path, s: Suffix)
    requires s != NoSuffix
    ensures !IsCanonical(Under(p, s) + q)
  {
    assert (Under(p, s) + q)[|p|] == if s == Slash then "" else ".";
  }

  /** A "/." that is kept: the old root is bound where no path leads. */
  lemma DotIsHarmful(t: Table, l: seq<Binding>, n: Path, p: Path, newHost: Path, oldHost: Path)
    requires CleanKeys(t) && AllClean(l) && IsCanonical(n) && IsCanonical(p) && n <= p
    ensures Left(t, l, n, p, Dot, newHost, oldHost) != Specified(t, l, n, p, newHost, oldHost)
  {
    var u := PutOld(n, p, Dot);
    LeftMeans(t, l, n, p, Dot, newHost, oldHost);
    StartMeans(t, n, u, newHost, oldHost);
    BoundKept(PivotStart(t, Plan(n, u), newHost, oldHost), Plan(n, u), l, u);
    SpecifiedIsClean(t, l, n, p, newHost, oldHost);
    NotClean(p[|n|..], [], Dot);
    assert u == u + [];
  }

  /** A "/" that is kept, and an old binding that is copied: its alias has an empty name in it. */
  lemma CopyIsHarmful(t: Table, l: seq<Binding>, n: Path, p: Path, b: Binding, newHost: Path, oldHost: Path)
    requires CleanKeys(t) && AllClean(l) && IsCanonical(n) && IsCanonical(p) && n < p
    requires b in l && b.guest.names != [] && !(n != [] && n < b.guest.names)
    requires |WithSuffix(p[|n|..], Slash)| + |b.guest.path| < PATH_MAX
    ensures Left(t, l, n, p, Slash, newHost, oldHost) != Specified(t, l, n, p, newHost, oldHost)
  {
    var u, g := PutOld(n, p, Slash), b.guest.names;
    LeftMeans(t, l, n, p, Slash, newHost, oldHost);
    CopyComes(n, p, b);
    NotClean(p[|n|..], g, Slash);
    hide PivotAll, GoesTo, TextPivotStart, TextPivotAll, Left, Specified;
    GoneThere(TextPivotStart(t, Roots(Render(n), Cat(u)), newHost, oldHost), Plan(n, u), l, b, u + g);
    SpecifiedIsClean(t, l, n, p, newHost, oldHost);
  }

  lemma CopyComes(n: Path, p: Path, b: Binding)
    requires IsCanonical(p) && n < p && IsText(b.guest.path, b.guest.names)
    requires b.guest.names != [] && !(n != [] && n < b.guest.names)
    requires |WithSuffix(p[|n|..], Slash)| + |b.guest.path| < PATH_MAX
    ensures var u := PutOld(n, p, Slash); GoesTo(Plan(n, u), b, u + b.guest.names)
  {
    var u, g := PutOld(n, p, Slash), b.guest.names;
    CanonicalParts(p, []);
    SuffixIsPart(p[|n|..], Slash);
    assert u == u + [];
    NotClean(p[|n|..], [], Slash);
    if u <= g {
      NotCanonical(u, g);
    }
  }

  lemma KeyOfSlash(p: Path)
    requires IsCanonical(p) && p != []
    ensures WithSuffix(p, Slash) == Cat(p + [""]) && Key(Cat(p + [""])) == p && Cat(p + [""]) != Render(p)
  {
    CatConcat(p, [""]);
    CatShape(p);
    assert Cat([""]) == "/";
    assert (Cat(p) + "/")[..|Cat(p)|] == Cat(p);
    PartsOfCat(p);
  }

  /** A "/" that is kept, and no binding that takes the place of the old root: that one is misspelled. */
  lemma SlashIsHarmful(t: Table, l: seq<Binding>, n: Path, p: Path, newHost: Path, oldHost: Path)
    requires CleanKeys(t) && AllClean(l) && IsCanonical(n) && IsCanonical(p) && n < p
    requires n == [] || forall b :: b in l ==> b.guest.names != p
    ensures Left(t, l, n, p, Slash, newHost, oldHost) != Specified(t, l, n, p, newHost, oldHost)
  {
    var rest := p[|n|..];
    var u := PutOld(n, p, Slash);
    LeftMeans(t, l, n, p, Slash, newHost, oldHost);
    CanonicalParts(p, []);
    KeyOfSlash(rest);
    forall b | b in l ensures !GoesTo(Plan(n, u), b, rest) {
      NobodyAt(n, p, b.guest.names);
    }
    BoundStays(TextPivotStart(t, Roots(Render(n), Cat(u)), newHost, oldHost), Plan(n, u), l, rest);
    BoundKept(PivotStart(t, PlanFor(n, p), newHost, oldHost), PlanFor(n, p), l, rest);
    SpecifiedIsClean(t, l, n, p, newHost, oldHost);
  }

  lemma NobodyAt(n: Path, p: Path, g: Path)
    requires IsCanonical(p) && n < p && (n == [] || g != p)
    ensures var target := TargetOf(Plan(n, PutOld(n, p, Slash)), g);
            target != MovesTo(p[|n|..]) && target != CopiedTo(p[|n|..])
  {
    var rest := p[|n|..];
    CanonicalParts(p, []);
    NotClean(rest, g, Slash);
    if n < g && g[|n|..] == rest {
      assert g == n + rest == p;
    }
  }

  ghost predicate SameAt(v: Table, w: Table, x: Path) {
    (x in v <==> x in w) && (x in v ==> v[x] == w[x])
  }

  /** The two pivots did the same, but for what is bound at `k`. */
  ghost predicate SameBut(v: Pivot, w: Pivot, k: Path) {
    && v.bound == w.bound && k in v.bound && k in v.table && k in w.table
    && forall x {:trigger SameAt(v.table, w.table, x)} :: x != k ==> SameAt(v.table, w.table, x)
  }

  ghost predicate AllUnder(n: Path, l: seq<Binding>) {
    n != [] && forall b :: b in l ==> b.guest.names == [] || n < b.guest.names
  }

  lemma SameMove(v: Pivot, w: Pivot, g: Path, to: Path, h: Path, k: Path)
    requires SameBut(v, w, k)
    ensures SameBut(Unbind(Bind(v, to, Render(to), h), g), Unbind(Bind(w, to, Render(to), h), g), k)
  {
    var v', w' := Unbind(Bind(v, to, Render(to), h), g), Unbind(Bind(w, to, Render(to), h), g);
    forall x | x != k ensures SameAt(v'.table, w'.table, x) {
      assert SameAt(v.table, w.table, x);
    }
  }

  lemma {:induction false} MovesOnly(v: Pivot, w: Pivot, n: Path, a: Path, b: Path, l: seq<Binding>, k: Path)
    requires SameBut(v, w, k) && AllUnder(n, l)
    ensures SameBut(PivotAll(v, Plan(n, a), l), PivotAll(w, Plan(n, b), l), k)
  {
    hide SameBut, Unbind, Bind;
    if l != [] {
      var x, front := l[|l| - 1], l[..|l| - 1];
      assert x in l;
      MovesOnly(v, w, n, a, b, front, k);
      if x.guest.names != [] {
        SameMove(PivotAll(v, Plan(n, a), front), PivotAll(w, Plan(n, b), front), x.guest.names, x.guest.names[|n|..],
                 x.host.names, k);
      }
    }
  }

  lemma OnlyThere(n: Path, a: Path, l: seq<Binding>, i: nat, k: Path)
    requires AllUnder(n, l) && GuestSorted(l) && i < |l| && n < l[i].guest.names == n + k
    ensures GoesTo(Plan(n, a), l[i], k)
    ensures forall j :: 0 <= j < |l| && j != i ==> !GoesTo(Plan(n, a), l[j], k)
  {
    assert l[i].guest.names[|n|..] == k;
    DistinctFrom(l, i);
    forall j | 0 <= j < |l| && j != i ensures !GoesTo(Plan(n, a), l[j], k) {
      assert l[j] in l;
      if l[j].guest.names != [] {
        OneSource(n, l[i].guest.names, l[j].guest.names);
      }
    }
  }

  /** With nothing to copy, the place of the old root does not matter if a binding moves there. */
  lemma SameLanding(v: Pivot, w: Pivot, n: Path, a: Path, b: Path, l: seq<Binding>, i: nat, k: Path)
    requires SameBut(v, w, k) && AllUnder(n, l) && GuestSorted(l) && i < |l| && n < l[i].guest.names == n + k
    ensures PivotAll(v, Plan(n, a), l).table == PivotAll(w, Plan(n, b), l).table
  {
    hide SameBut, PivotAll, GoesTo, TargetOf, GuestSorted;
    MovesOnly(v, w, n, a, b, l, k);
    OnlyThere(n, a, l, i, k);
    OnlyThere(n, b, l, i, k);
    Lands(v, Plan(n, a), l, i, k);
    Lands(w, Plan(n, b), l, i, k);
    SameTables(PivotAll(v, Plan(n, a), l), PivotAll(w, Plan(n, b), l), k);
  }

  lemma SameTables(v: Pivot, w: Pivot, k: Path)
    requires SameBut(v, w, k) && k in v.table && k in w.table && v.table[k] == w.table[k]
    ensures v.table == w.table
  {
    forall x ensures (x in v.table <==> x in w.table) && (x in v.table ==> v.table[x] == w.table[x]) {
      assert x != k ==> SameAt(v.table, w.table, x);
    }
    assert v.table.Keys == w.table.Keys;
  }

  lemma SlashStart(t: Table, n: Path, rest: Path, newHost: Path, oldHost: Path)
    requires IsCanonical(rest) && rest != []
    ensures SameBut(TextPivotStart(t, Roots(Render(n), Cat(rest + [""])), newHost, oldHost),
                    PivotStart(t, Plan(n, rest), newHost, oldHost), rest)
  {
    KeyOfSlash(rest);
    var v := TextPivotStart(t, Roots(Render(n), Cat(rest + [""])), newHost, oldHost);
    var w := PivotStart(t, Plan(n, rest), newHost, oldHost);
    forall x | x != rest ensures SameAt(v.table, w.table, x) {
    }
  }

  /** The exception: a binding at `p` itself takes the place of the misspelled one, and nothing is copied. */
  lemma SlashForgiven(t: Table, l: seq<Binding>, n: Path, p: Path, newHost: Path, oldHost: Path)
    requires Canonical(t, l) && IsCanonical(n) && IsCanonical(p) && n < p && AllUnder(n, l)
    requires exists b :: b in l && b.guest.names == p
    ensures Left(t, l, n, p, Slash, newHost, oldHost) == Specified(t, l, n, p, newHost, oldHost)
  {
    var rest := p[|n|..];
    assert p == n + rest;
    LeftMeans(t, l, n, p, Slash, newHost, oldHost);
    CanonicalParts(p, []);
    SlashStart(t, n, rest, newHost, oldHost);
    var b :| b in l && b.guest.names == p;
    SameLanding(TextPivotStart(t, Roots(Render(n), Cat(rest + [""])), newHost, oldHost),
                PivotStart(t, Plan(n, rest), newHost, oldHost), n, rest + [""], rest, l, Position(l, b), rest);
  }

  lemma OneSource(n: Path, p: Path, g: Path)
    requires n < p && g != p && n < g
    ensures g[|n|..] != p[|n|..]
  {
    assert g == n + g[|n|..] && p == n + p[|n|..];
  }

  predicate IsForgiven(l: seq<Binding>, n: Path, p: Path, s: Suffix) {
    s == Slash && n != [] && n < p && (exists b :: b in l && b.guest.names == p)
    && forall b :: b in l ==> b.guest.names == [] || n < b.guest.names
  }

  /** The aliases of all bindings below the place of the old root fit into a buffer. */
  ghost predicate AliasesFit(l: seq<Binding>, n: Path, p: Path, s: Suffix) {
    n <= p ==> forall b :: b in l ==> |WithSuffix(p[|n|..], s)| + |b.guest.path| < PATH_MAX
  }

  /** pivot_root leaves the table that it is meant to leave if, and as long as the aliases fit only if, the end of
      put_old does no harm or happens to be forgiven. */
  lemma PivotExact(t: Table, l: seq<Binding>, n: Path, p: Path, s: Suffix, newHost: Path, oldHost: Path)
    requires Canonical(t, l) && IsCanonical(n) && IsCanonical(p)
    ensures var asMeant := Left(t, l, n, p, s, newHost, oldHost) == Specified(t, l, n, p, newHost, oldHost);
            && (EndIsHarmless(n, p, s) || IsForgiven(l, n, p, s) ==> asMeant)
            && (asMeant && AliasesFit(l, n, p, s) ==> EndIsHarmless(n, p, s) || IsForgiven(l, n, p, s))
  {
    hide Left, Specified;
    if EndIsHarmless(n, p, s) {
      HarmlessEnd(t, l, n, p, s, newHost, oldHost);
    } else if s == Dot {
      DotIsHarmful(t, l, n, p, newHost, oldHost);
    } else if IsForgiven(l, n, p, s) {
      SlashForgiven(t, l, n, p, newHost, oldHost);
    } else if n == [] || forall b :: b in l ==> b.guest.names != p {
      SlashIsHarmful(t, l, n, p, newHost, oldHost);
    } else if AliasesFit(l, n, p, s) {
      var b :| b in l && b.guest.names != [] && !(n < b.guest.names);
      CopyIsHarmful(t, l, n, p, b, newHost, oldHost);
    }
  }

  ghost predicate AlwaysAsSpecified(n: Path, p: Path, s: Suffix) {
    forall t, l, newHost, oldHost :: Canonical(t, l) ==>
      Left(t, l, n, p, s, newHost, oldHost) == Specified(t, l, n, p, newHost, oldHost)
  }

  lemma RootOnly(b: Binding)
    requires b == Binding(0, Location("/", []), Location("/", []), false, false)
    ensures Canonical(map[[] := Place("/", [])], [b])
  {
    assert b in [b];
  }

  /** It does so for every table if and only if the end of put_old does no harm. */
  lemma PutOldExactly(n: Path, p: Path, s: Suffix)
    requires IsCanonical(n) && IsCanonical(p)
    ensures AlwaysAsSpecified(n, p, s) <==> EndIsHarmless(n, p, s)
  {
    hide Left, Specified;
    if EndIsHarmless(n, p, s) {
      forall t, l, newHost, oldHost | Canonical(t, l)
        ensures Left(t, l, n, p, s, newHost, oldHost) == Specified(t, l, n, p, newHost, oldHost)
      {
        HarmlessEnd(t, l, n, p, s, newHost, oldHost);
      }
    } else {
      var b := Binding(0, Location("/", []), Location("/", []), false, false);
      RootOnly(b);
      if s == Dot {
        DotIsHarmful(map[[] := Place("/", [])], [b], n, p, [], []);
      } else {
        SlashIsHarmful(map[[] := Place("/", [])], [b], n, p, [], []);
      }
    }
  }

  // ----- pivot_root(".", ".")

  ghost predicate SeenAlike(v: Pivot, w: Pivot, x: Path) {
    SameAt(v.table, w.table, x) && (x in v.bound <==> x in w.bound)
  }

  /** The two pivots look the same from all canonical paths. */
  ghost predicate LookAlike(v: Pivot, w: Pivot) {
    forall x {:trigger SeenAlike(v, w, x)} :: IsCanonical(x) ==> SeenAlike(v, w, x)
  }

  lemma BindUnseen(v: Pivot, w: Pivot, k: Path, path: string, h: Path)
    requires LookAlike(v, w) && !IsCanonical(k)
    ensures LookAlike(Bind(v, k, path, h), w)
  {
    forall x | IsCanonical(x) ensures SeenAlike(Bind(v, k, path, h), w, x) {
      assert SeenAlike(v, w, x);
    }
  }

  lemma MoveAlike(v: Pivot, w: Pivot, to: Path, h: Path, g: Path)
    requires LookAlike(v, w) && IsCanonical(g)
    ensures LookAlike(Unbind(Bind(v, to, Render(to), h), g), Unbind(Bind(w, to, Render(to), h), g))
  {
    var v', w' := Unbind(Bind(v, to, Render(to), h), g), Unbind(Bind(w, to, Render(to), h), g);
    assert SeenAlike(v, w, g);
    forall x | IsCanonical(x) ensures SeenAlike(v', w', x) {
      assert SeenAlike(v, w, x);
    }
  }

  lemma {:induction false} AliasesUnseen(v: Pivot, w: Pivot, n: Path, p: Path, l: seq<Binding>)
    requires LookAlike(v, w) && AllClean(l)
    ensures LookAlike(PivotAll(v, Plan(n, Under(p, Dot)), l), PivotAll(w, Plan(n, []), l))
  {
    hide LookAlike, Unbind, Bind, Under;
    if l != [] {
      var b, front := l[|l| - 1], l[..|l| - 1];
      var g := b.guest.names;
      assert b in l;
      AliasesUnseen(v, w, n, p, front);
      var v', w' := PivotAll(v, Plan(n, Under(p, Dot)), front), PivotAll(w, Plan(n, []), front);
      match TargetOf(Plan(n, Under(p, Dot)), g)
      case Stays =>
      case MovesTo(to) => MoveAlike(v', w', to, b.host.names, g);
      case CopiedTo(to) =>
        NotClean(p, g, Dot);
        BindUnseen(v', w', to, Render(to), b.host.names);
    }
  }

  lemma DotAlike(t: Table, l: seq<Binding>, n: Path, rest: Path, newHost: Path, oldHost: Path)
    requires AllClean(l)
    ensures var u := Under(rest, Dot);
            LookAlike(PivotAll(PivotStart(t, Plan(n, u), newHost, oldHost), Plan(n, u), l),
                      PivotAll(PivotStart(t, Plan(n, []), newHost, oldHost), Plan(n, []), l))
  {
    hide LookAlike;
    var u := Under(rest, Dot);
    var v, w := PivotStart(t, Plan(n, u), newHost, oldHost), PivotStart(t, Plan(n, []), newHost, oldHost);
    NotClean(rest, [], Dot);
    assert u + [] == u;
    AlikeItself(w);
    BindUnseen(w, w, u, Render(u), oldHost);
    AliasesUnseen(v, w, n, rest, l);
  }

  lemma AlikeItself(v: Pivot)
    ensures LookAlike(v, v)
  {
  }

  lemma DotRootStays(t: Table, l: seq<Binding>, n: Path, rest: Path, newHost: Path, oldHost: Path)
    requires AllClean(l)
    ensures var u := Under(rest, Dot);
            var w := PivotAll(PivotStart(t, Plan(n, u), newHost, oldHost), Plan(n, u), l).table;
            u in w && w[u] == Place(Render(u), oldHost)
  {
    var u := Under(rest, Dot);
    NotClean(rest, [], Dot);
    assert u + [] == u;
    forall b | b in l ensures !GoesTo(Plan(n, u), b, u) {
      CanonicalParts(b.guest.names, []);
    }
    BoundStays(PivotStart(t, Plan(n, u), newHost, oldHost), Plan(n, u), l, u);
  }

  /** With a "/." kept at its end, put_old is the same as none for every path that can be looked up: the old
      root is bound under a name that no canonical path has. */
  lemma DotHidesOldRoot(t: Table, l: seq<Binding>, n: Path, p: Path, newHost: Path, oldHost: Path)
    requires AllClean(l) && IsCanonical(n) && IsCanonical(p) && n <= p
    ensures var after, none := Left(t, l, n, p, Dot, newHost, oldHost),
                               PivotAll(PivotStart(t, Plan(n, []), newHost, oldHost), Plan(n, []), l).table;
            var u := Under(p[|n|..], Dot);
            && (forall x :: IsCanonical(x) ==> SameAt(after, none, x))
            && u in after && after[u] == Place(Render(u), oldHost)
  {
    hide PivotAll, PivotStart, TextPivotStart, TextPivotAll, Left, SameAt;
    var u := PutOld(n, p, Dot);
    LeftMeans(t, l, n, p, Dot, newHost, oldHost);
    StartMeans(t, n, u, newHost, oldHost);
    DotAlike(t, l, n, p[|n|..], newHost, oldHost);
    DotRootStays(t, l, n, p[|n|..], newHost, oldHost);
    var v := PivotAll(PivotStart(t, Plan(n, u), newHost, oldHost), Plan(n, u), l);
    var w := PivotAll(PivotStart(t, Plan(n, []), newHost, oldHost), Plan(n, []), l);
    forall x | IsCanonical(x) ensures SameAt(v.table, w.table, x) {
      assert SeenAlike(v, w, x);
    }
  }

  /** The call that detaches the old root: it should be bound nowhere, and the old bindings only where they
      were.  It is bound at "/.", and they are under "/./" too; lookups do not notice. */
  lemma PivotDotDot(t: Table, l: seq<Binding>, n: Path, newHost: Path, oldHost: Path)
    requires Canonical(t, l) && IsCanonical(n)
    ensures var after, meant := Left(t, l, n, n, Dot, newHost, oldHost), Specified(t, l, n, n, newHost, oldHost);
            && after != meant
            && (forall x :: IsCanonical(x) ==> SameAt(after, meant, x))
            && ["."] in after && after[["."]] == Place("/.", oldHost)
            && forall i {:trigger l[i]} :: 0 <= i < |l| && CopiedUnder(n, ["."], l[i].guest.names) ==>
                 var k := ["."] + l[i].guest.names; k in after && after[k] == Place(Render(k), l[i].host.names)
  {
    assert n[|n|..] == [] && Under([], Dot) == ["."];
    assert PlanFor(n, n) == Plan(n, []);
    hide PivotAll, PivotStart, TextPivotAll, TextPivotStart, Left, SameAt;
    DotHidesOldRoot(t, l, n, n, newHost, oldHost);
    DotIsHarmful(t, l, n, n, newHost, oldHost);
    assert Cat(["."]) == "/.";
    LeftMeans(t, l, n, n, Dot, newHost, oldHost);
    var v := TextPivotStart(t, Roots(Render(n), Cat(["."])), newHost, oldHost);
    forall i {:trigger l[i]} | 0 <= i < |l| && CopiedUnder(n, ["."], l[i].guest.names)
      ensures var k, w := ["."] + l[i].guest.names, PivotAll(v, Plan(n, ["."]), l).table;
              k in w && w[k] == Place(Render(k), l[i].host.names)
    {
      AliasLands(v, n, l, i);
    }
  }

  /** A binding of the old tree whose alias under `u` fits. */
  predicate CopiedUnder(n: Path, u: Path, g: Path) {
    g != [] && !(n != [] && n < g) && |Cat(u)| + |Render(g)| < PATH_MAX
  }

  lemma AliasLands(v: Pivot, n: Path, l: seq<Binding>, i: nat)
    requires GuestSorted(l) && AllClean(l) && i < |l| && CopiedUnder(n, ["."], l[i].guest.names)
    ensures var k, w := ["."] + l[i].guest.names, PivotAll(v, Plan(n, ["."]), l).table;
            k in w && w[k] == Place(Render(k), l[i].host.names)
  {
    var k := ["."] + l[i].guest.names;
    assert l[i] in l;
    NotClean([], l[i].guest.names, Dot);
    DistinctFrom(l, i);
    forall j | 0 <= j < |l| && j != i ensures !GoesTo(Plan(n, ["."]), l[j], k) {
      assert l[j] in l;
      CanonicalParts(l[j].guest.names, []);
      assert (["."] + l[j].guest.names)[1..] == l[j].guest.names && k[1..] == l[i].guest.names;
    }
    Lands(v, Plan(n, ["."]), l, i, k);
  }

  lemma SubstitutedLength(text: string, n: nat, prefix: string)
    requires 1 < n <= |text| && prefix != "" && |text| + |prefix| < PATH_MAX
    ensures Substituted(text, n, prefix).0 == Done
    ensures |Substituted(text, n, prefix).1| ==
            if |prefix| > 1 then |prefix| + |text| - n else if n < |text| then |text| - n else 1
  {
  }

  lemma Lengths(p: Path, suffix: Suffix, rest: Path, h: Path)
    requires IsCanonical(p) && IsCanonical(rest) && IsCanonical(h) && p != [] && rest != []
    ensures |WithSuffix(p, suffix)| == |Render(p)| + (match suffix case NoSuffix => 0 case Slash => 1 case Dot => 2)
    ensures |Render(p + rest)| == |Render(p)| + |Render(rest)| && |Render(p)| > 1 && |Render(rest)| > 1
    ensures |Render(h + rest)| == (if h == [] then 0 else |Render(h)|) + |Render(rest)|
    ensures |Render(h)| > 1 <==> h != []
  {
    CatShape(p);
    CatShape(rest);
    CatShape(h);
    CatConcat(p, rest);
    CatConcat(h, rest);
  }

  /** What a guest path that kept its end does to lookups: below it names are glued to the host path in the
      wrong way.  It substitutes exactly when there was nothing to chop. */
  lemma PutOldMustBeChopped(p: Path, suffix: Suffix, rest: Path, h: Path)
    requires IsCanonical(p) && IsCanonical(rest) && IsCanonical(h) && p != [] && rest != []
    requires |Render(p + rest)| + |Render(h)| < PATH_MAX
    ensures |WithSuffix(p, suffix)| <= |Render(p + rest)|
    ensures Substituted(Render(p + rest), |WithSuffix(p, suffix)|, Render(h)) == (Done, Render(h + rest)) <==>
            suffix == NoSuffix
  {
    Lengths(p, suffix, rest, h);
    SubstituteMeaning(p, rest, h);
    assert WithSuffix(p, NoSuffix) == Render(p);
    hide Cat, Render, WithSuffix, Substituted;
    SubstitutedLength(Render(p + rest), |WithSuffix(p, suffix)|, Render(h));
  }

  // ----- the bindings that the loop reads after they have been freed

  predicate TextGoesTo(r: Roots, b: Binding, k: Path) {
    var target := TextTarget(r, b.guest.path);
    !target.Stays? && Key(target.to) == k
  }

  lemma BoundByOne(v: Pivot, r: Roots, b: Binding, k: Path)
    ensures k in TextPivotOne(v, r, b).bound <==> k in v.bound || TextGoesTo(r, b, k)
  {
  }

  lemma {:induction false} BoundExactly(v: Pivot, r: Roots, l: seq<Binding>, k: Path)
    ensures k in TextPivotAll(v, r, l).bound <==> k in v.bound || exists j :: 0 <= j < |l| && TextGoesTo(r, l[j], k)
  {
    if l != [] {
      var m := |l| - 1;
      BoundExactly(v, r, l[..m], k);
      BoundByOne(TextPivotAll(v, r, l[..m]), r, l[m], k);
      hide TextPivotOne, TextGoesTo;
      forall j | 0 <= j < m && TextGoesTo(r, l[..m][j], k) ensures TextGoesTo(r, l[j], k) {
      }
      forall j | 0 <= j < m && TextGoesTo(r, l[j], k) ensures TextGoesTo(r, l[..m][j], k) {
      }
    }
  }

  /** The old root goes where this binding is, or some binding before it on the list does. */
  ghost predicate ReplacedBefore(r: Roots, l: seq<Binding>, i: nat)
    requires i < |l|
  {
    || (r.oldRoot != "" && l[i].guest.names == Key(r.oldRoot))
    || exists j :: 0 <= j < i && TextGoesTo(r, l[j], l[i].guest.names)
  }

  lemma FreedAt(t: Table, r: Roots, l: seq<Binding>, i: nat, newHost: Path, oldHost: Path)
    requires i < |l|
    ensures ReadsFreed(TextPivotStart(t, r, newHost, oldHost), r, l, i) <==>
            !l[i].kept && l[i].guest.names != [] && ReplacedBefore(r, l, i)
  {
    var k := l[i].guest.names;
    BoundExactly(TextPivotStart(t, r, newHost, oldHost), r, l[..i], k);
    if j :| 0 <= j < i && TextGoesTo(r, l[j], k) {
      assert TextGoesTo(r, l[..i][j], k);
    }
  }

  /** The loop stays clear of freed bindings if and only if none of the command line is replaced before its
      turn. */
  lemma FreedExactly(t: Table, r: Roots, l: seq<Binding>, newHost: Path, oldHost: Path)
    ensures NoneFreed(TextPivotStart(t, r, newHost, oldHost), r, l) <==>
            forall i :: 0 <= i < |l| && !l[i].kept && l[i].guest.names != [] ==> !ReplacedBefore(r, l, i)
  {
    hide TextPivotStart, ReadsFreed, ReplacedBefore;
    forall i: nat | i < |l|
      ensures ReadsFreed(TextPivotStart(t, r, newHost, oldHost), r, l, i) <==>
              !l[i].kept && l[i].guest.names != [] && ReplacedBefore(r, l, i)
    {
      FreedAt(t, r, l, i, newHost, oldHost);
    }
  }

  /** A mount below the new root on the name of a binding of the command line, as in "-b /usr" and a mount on
      "/newroot/usr": wherever the old root goes, the pivot reads the binding of "/usr" when it is freed. */
  lemma MountOverStartup(t: Table, l: seq<Binding>, n: Path, j: nat, i: nat, putOld: string, newHost: Path, oldHost: Path)
    requires AllClean(l) && j < i < |l| && IsCanonical(n) && n != []
    requires l[i].guest.names != [] && !l[i].kept && l[j].guest.names == n + l[i].guest.names
    ensures var r := Roots(Render(n), OldRootAt(Render(n), putOld));
            !NoneFreed(TextPivotStart(t, r, newHost, oldHost), r, l)
  {
    var r, k := Roots(Render(n), OldRootAt(Render(n), putOld)), l[i].guest.names;
    assert l[i] in l && l[j] in l;
    UnderRoot(l[j].guest.path, Render(n), n + k, n);
    assert (n + k)[|n|..] == k;
    CanonicalNames(k);
    KeyOfRender(k);
    TextChars(l[j].guest.path, n + k);
    assert TextGoesTo(r, l[j], k);
    FreedAt(t, r, l, i, newHost, oldHost);
  }

  // ----- looking paths up after the pivot

  /** `k` is the longest guest path of the table above `q`. */
  ghost predicate Matches(t: Table, q: Path, k: Path) {
    k in t && k <= q && forall x :: x in t && x <= q ==> x <= k
  }

  /** The guest path `q` leads to the host path `h`. */
  ghost predicate Leads(t: Table, q: Path, h: Path) {
    exists k :: Matches(t, q, k) && h == t[k].host + q[|k|..]
  }

  lemma LeadsBy(t: Table, q: Path, k: Path, h: Path)
    requires Matches(t, q, k)
    ensures Leads(t, q, h) <==> h == t[k].host + q[|k|..]
  {
    forall x | Matches(t, q, x) ensures x == k {
      PrefixOrder(x, k, q);
    }
  }

  lemma ShorterPrefix(x: Path, q: Path)
    requires x <= q && q != []
    ensures x == q || x <= q[..|q| - 1]
  {
    if |x| == |q| {
      assert x == q;
    }
  }

  lemma {:induction false} MatchExists(t: Table, q: Path) returns (k: Path)
    requires [] in t
    ensures Matches(t, q, k)
  {
    if q in t {
      k := q;
    } else {
      var front := q[..|q| - 1];
      k := MatchExists(t, front);
      forall x | x in t && x <= q ensures x <= k {
        ShorterPrefix(x, q);
      }
    }
  }

  predicate Leaves(plan: Plan, g: Path) {
    g != [] && plan.root != [] && plan.root < g
  }

  lemma {:induction false} Untouched(v: Pivot, plan: Plan, l: seq<Binding>, k: Path)
    requires forall b :: b in l ==> !GoesTo(plan, b, k) && !(b.guest.names == k && Leaves(plan, k))
    ensures var w := PivotAll(v, plan, l); SameAt(w.table, v.table, k) && (k in w.bound <==> k in v.bound)
  {
    if l != [] {
      assert l[|l| - 1] in l;
      Untouched(v, plan, l[..|l| - 1], k);
    }
  }

  lemma {:induction false} GivenUp(v: Pivot, plan: Plan, l: seq<Binding>, i: nat, k: Path)
    requires i < |l| && l[i].guest.names == k && Leaves(plan, k) && k !in v.bound
    requires forall b :: b in l ==> !GoesTo(plan, b, k)
    ensures var w := PivotAll(v, plan, l); k !in w.table && k !in w.bound
  {
    var front := l[..|l| - 1];
    assert l[|l| - 1] in l;
    if i < |l| - 1 {
      GivenUp(v, plan, front, i, k);
    } else {
      NotBound(v, plan, front, k);
    }
  }

  lemma {:induction false} NotBound(v: Pivot, plan: Plan, l: seq<Binding>, k: Path)
    requires k !in v.bound && forall b :: b in l ==> !GoesTo(plan, b, k)
    ensures k !in PivotAll(v, plan, l).bound
  {
    if l != [] {
      assert l[|l| - 1] in l;
      NotBound(v, plan, l[..|l| - 1], k);
    }
  }

  /** A binding of the old tree that stays where it is. */
  predicate StaysPut(t: Table, n: Path, g: Path) {
    g in t && g != [] && !(n != [] && n < g)
  }

  /** What is bound at `k` after the pivot, if `k` is not below the place of the old root. */
  ghost predicate BoundAfter(t: Table, w: Table, n: Path, newHost: Path, k: Path) {
    if k == [] then k in w && w[k].host == newHost
    else if n + k in t then k in w && w[k].host == t[n + k].host
    else if StaysPut(t, n, k) then k in w && w[k].host == t[k].host
    else k !in w
  }

  lemma NobodyComes(t: Table, l: seq<Binding>, plan: Plan, k: Path)
    requires Shows(l, t) && k != [] && (plan.root == [] || plan.root + k !in t) && (plan.put == [] || !(plan.put <= k))
    ensures forall b :: b in l ==> !GoesTo(plan, b, k)
  {
    forall b | b in l ensures !GoesTo(plan, b, k) {
      var g := b.guest.names;
      if plan.root != [] && plan.root < g {
        assert g == plan.root + g[|plan.root|..];
      }
      assert plan.put <= plan.put + g;
    }
  }

  lemma KeysAfter(t: Table, l: seq<Binding>, plan: Plan, newHost: Path, oldHost: Path, k: Path)
    requires Canonical(t, l) && (plan.put == [] || !(plan.put <= k))
    ensures BoundAfter(t, PivotAll(PivotStart(t, plan, newHost, oldHost), plan, l).table, plan.root, newHost, k)
  {
    var n, v := plan.root, PivotStart(t, plan, newHost, oldHost);
    if k == [] {
      RootsAfterPivot(t, plan, newHost, oldHost, l);
    } else if n != [] && n + k in t {
      var b :| b in l && b.guest.names == n + k;
      assert (n + k)[|n|..] == k;
      MovedWithRoot(v, plan, l, Position(l, b));
    } else {
      assert n == [] ==> n + k == k;
      NobodyComes(t, l, plan, k);
      if k in t && Leaves(plan, k) {
        var b :| b in l && b.guest.names == k;
        GivenUp(v, plan, l, Position(l, b), k);
      } else {
        Untouched(v, plan, l, k);
      }
    }
  }

  /** A binding of the old tree above `q` that is deeper than all that moved there. */
  ghost predicate Shadows(t: Table, n: Path, q: Path, g: Path) {
    StaysPut(t, n, g) && g <= q && forall m :: n + m in t && m <= q ==> m < g
  }

  /** The longest of them takes the path. */
  lemma ShadowedLookup(t: Table, l: seq<Binding>, plan: Plan, newHost: Path, oldHost: Path, q: Path, g: Path, h: Path)
    requires Canonical(t, l) && (plan.put == [] || !(plan.put <= q))
    requires Shadows(t, plan.root, q, g)
    requires forall x :: StaysPut(t, plan.root, x) && x <= q ==> x <= g
    ensures Leads(PivotAll(PivotStart(t, plan, newHost, oldHost), plan, l).table, q, h) <==> h == t[g].host + q[|g|..]
  {
    var n, w := plan.root, PivotAll(PivotStart(t, plan, newHost, oldHost), plan, l).table;
    PrefixOrder(plan.put, g, q);
    KeysAfter(t, l, plan, newHost, oldHost, g);
    forall x | x in w && x <= q ensures x <= g {
      PrefixOrder(plan.put, x, q);
      KeysAfter(t, l, plan, newHost, oldHost, x);
    }
    LeadsBy(w, q, g, h);
  }

  /** In the new tree a path leads to what the same path below the new root led to before, if no binding that
      stays in place is in the way. */
  lemma NewTreeLookup(t: Table, l: seq<Binding>, plan: Plan, newHost: Path, oldHost: Path, q: Path, h: Path)
    requires Canonical(t, l) && (plan.put == [] || !(plan.put <= q)) && Leads(t, plan.root, newHost)
    requires forall g :: !Shadows(t, plan.root, q, g)
    ensures Leads(PivotAll(PivotStart(t, plan, newHost, oldHost), plan, l).table, q, h) <==> Leads(t, plan.root + q, h)
  {
    var n, w := plan.root, PivotAll(PivotStart(t, plan, newHost, oldHost), plan, l).table;
    var b := l[|l| - 1];
    assert b in l;
    var k := MatchExists(t, n + q);
    var m := if n <= k then k[|n|..] else [];
    hide PivotAll, PivotStart, Canonical, Shows;
    forall x | x in w && x <= q ensures x <= m {
      PrefixOrder(plan.put, x, q);
      KeysAfter(t, l, plan, newHost, oldHost, x);
      NothingDeeper(t, n, q, k, x);
    }
    NewTreeMatch(t, n, q, k, newHost);
    PrefixOrder(plan.put, m, q);
    KeysAfter(t, l, plan, newHost, oldHost, m);
    hide BoundAfter, Leads;
    LeadsBy(w, q, m, h);
    LeadsBy(t, n + q, k, h);
  }

  lemma NothingDeeper(t: Table, n: Path, q: Path, k: Path, x: Path)
    requires Matches(t, n + q, k) && !Shadows(t, n, q, x) && x <= q
    requires x == [] || n + x in t || StaysPut(t, n, x)
    ensures x <= if n <= k then k[|n|..] else []
  {
    var y := x;
    if x != [] && n + x !in t {
      y :| n + y in t && y <= q && !(y < x);
      PrefixOrder(x, y, q);
    }
    if y != [] {
      assert n + y <= n + q;
      assert n + y <= k;
      assert y <= k[|n|..];
    }
  }

  lemma SplitPrefix(n: Path, q: Path, k: Path)
    requires k <= n + q
    ensures n < k ==> k[|n|..] <= q && k == n + k[|n|..] && (n + q)[|k|..] == q[|k| - |n|..]
    ensures !(n < k) ==> k <= n && (n + q)[|k|..] == n[|k|..] + q
  {
    assert (n + q)[..|k|] == k;
    if |n| < |k| {
      assert k[..|n|] == n;
      assert k[|n|..] == (n + q)[|n|..|k|] == q[..|k| - |n|];
    } else {
      assert k == n[..|k|];
    }
  }

  lemma NewTreeMatch(t: Table, n: Path, q: Path, k: Path, newHost: Path)
    requires Matches(t, n + q, k) && Leads(t, n, newHost)
    ensures var m := if n <= k then k[|n|..] else [];
            && m <= q && (m != [] ==> n + m == k && (n + q)[|k|..] == q[|m|..])
            && (m == [] ==> newHost + q == t[k].host + (n + q)[|k|..])
  {
    hide Leads;
    SplitPrefix(n, q, k);
    if !(n < k) {
      forall x | x in t && x <= n ensures x <= k {
        assert x <= n + q;
      }
      LeadsBy(t, n, k, newHost);
    }
  }

  /** What the table binds outside the new root. */
  function OldTree(t: Table, n: Path): Table {
    map k | k in t && (k == [] || StaysPut(t, n, k)) :: t[k]
  }

  /** Nothing is bound at put_old or below it, as seen from either root, and the aliases fit. */
  ghost predicate FreePlace(t: Table, plan: Plan) {
    forall k :: k in t ==> !(plan.put <= k) && !(plan.root + plan.put <= k) && |Cat(plan.put)| + |Render(k)| < PATH_MAX
  }

  lemma Alias(t: Table, l: seq<Binding>, plan: Plan, b: Binding)
    requires Shows(l, t) && FreePlace(t, plan) && plan.put != [] && b in l
    ensures StaysPut(t, plan.root, b.guest.names) <==> TargetOf(plan, b.guest.names) == CopiedTo(plan.put + b.guest.names)
  {
  }

  lemma Rejoin(a: Path, x: Path, b: Path)
    ensures a <= x ==> x == a + x[|a|..] && (b <= x[|a|..] ==> a + b <= x)
    ensures (a + b)[|a|..] == b
  {
    if a <= x && b <= x[|a|..] {
      assert x == a + (b + x[|a|..][|b|..]);
    }
  }

  lemma OnlyAliasesCome(t: Table, l: seq<Binding>, plan: Plan, k: Path, b: Binding)
    requires Shows(l, t) && FreePlace(t, plan) && plan.put != [] && plan.put <= k && b in l
    ensures GoesTo(plan, b, k) ==> StaysPut(t, plan.root, b.guest.names) && k[|plan.put|..] == b.guest.names
  {
    Rejoin(plan.root, b.guest.names, plan.put);
    Rejoin(plan.put, k, b.guest.names);
  }

  /** Below the place of the old root there is an alias of each binding outside the new root, and nothing
      else. */
  lemma AliasesAfter(t: Table, l: seq<Binding>, plan: Plan, newHost: Path, oldHost: Path, y: Path)
    requires Canonical(t, l) && FreePlace(t, plan) && plan.put != [] && [] in t && oldHost == t[[]].host
    ensures var w, k := PivotAll(PivotStart(t, plan, newHost, oldHost), plan, l).table, plan.put + y;
            (k in w <==> y in OldTree(t, plan.root)) && (k in w ==> w[k].host == t[y].host)
  {
    if y == [] {
      assert plan.put + y == plan.put;
      forall b | b in l ensures b.guest.names != plan.root + plan.put {
        assert b.guest.names in t;
      }
      RootsAfterPivot(t, plan, newHost, oldHost, l);
    } else if StaysPut(t, plan.root, y) {
      var b :| b in l && b.guest.names == y;
      AliasFound(t, l, plan, PivotStart(t, plan, newHost, oldHost), Position(l, b));
    } else {
      NoAlias(t, l, plan, newHost, oldHost, y);
    }
  }

  lemma NoAlias(t: Table, l: seq<Binding>, plan: Plan, newHost: Path, oldHost: Path, y: Path)
    requires Shows(l, t) && FreePlace(t, plan) && plan.put != [] && y != [] && !StaysPut(t, plan.root, y)
    ensures plan.put + y !in PivotAll(PivotStart(t, plan, newHost, oldHost), plan, l).table
  {
    hide PivotAll, TargetOf;
    var k := plan.put + y;
    Rejoin(plan.put, k, y);
    forall b | b in l ensures !GoesTo(plan, b, k) && b.guest.names != k {
      assert b.guest.names in t;
      OnlyAliasesCome(t, l, plan, k, b);
    }
    Untouched(PivotStart(t, plan, newHost, oldHost), plan, l, k);
  }

  lemma AliasFound(t: Table, l: seq<Binding>, plan: Plan, v: Pivot, i: nat)
    requires GuestSorted(l) && Shows(l, t) && FreePlace(t, plan) && plan.put != []
    requires i < |l| && StaysPut(t, plan.root, l[i].guest.names)
    ensures var w, k := PivotAll(v, plan, l).table, plan.put + l[i].guest.names;
            k in w && w[k].host == t[l[i].guest.names].host
  {
    hide PivotAll;
    var k := plan.put + l[i].guest.names;
    Rejoin(plan.put, k, l[i].guest.names);
    assert l[i] in l;
    Alias(t, l, plan, l[i]);
    DistinctFrom(l, i);
    forall j | 0 <= j < |l| && j != i ensures !GoesTo(plan, l[j], k) {
      assert l[j] in l;
      OnlyAliasesCome(t, l, plan, k, l[j]);
    }
    Lands(v, plan, l, i, k);
  }

  /** Below put_old a path leads to what it led to in the old tree, the new root's own bindings apart. */
  lemma OldTreeLookup(t: Table, l: seq<Binding>, plan: Plan, newHost: Path, q: Path, h: Path)
    requires Canonical(t, l) && FreePlace(t, plan) && plan.put != [] && [] in t
    ensures Leads(PivotAll(PivotStart(t, plan, newHost, t[[]].host), plan, l).table, plan.put + q, h) <==>
            Leads(OldTree(t, plan.root), q, h)
  {
    hide PivotAll, PivotStart, FreePlace, Canonical;
    var w, o := PivotAll(PivotStart(t, plan, newHost, t[[]].host), plan, l).table, OldTree(t, plan.root);
    var k := MatchExists(o, q);
    AliasesAfter(t, l, plan, newHost, t[[]].host, k);
    forall x | x in w && x <= plan.put + q ensures x <= plan.put + k {
      SplitPrefix(plan.put, q, x);
      if plan.put < x {
        AliasesAfter(t, l, plan, newHost, t[[]].host, x[|plan.put|..]);
      }
    }
    assert plan.put + k <= plan.put + q;
    assert (plan.put + q)[|plan.put + k|..] == q[|k|..];
    LeadsBy(w, plan.put + q, plan.put + k, h);
    LeadsBy(o, q, k, h);
  }
}
