/** Translating guest paths to host paths through the bindings, and back. */
module Translation {
  import opened Paths
  import opened Bindings

  datatype Status = Untouched | Replaced | NotBound | NotPermitted

  /** What is left of `p` below its prefix `a`, put below `b`. */
  function Rebase(p: Path, a: Path, b: Path): Path
    requires a <= p
  {
    b + p[|a|..]
  }

  /** `b` is the binding whose guest path is the longest one above `p`. */
  ghost predicate IsGuestMatch(l: seq<Binding>, p: Path, b: Binding) {
    b in l && b.guest.names <= p && forall x :: x in l && x.guest.names <= p ==> x.guest.names <= b.guest.names
  }

  /** `b` is the binding with the longest host path above `h`, and the oldest of them. */
  ghost predicate IsHostMatch(l: seq<Binding>, h: Path, b: Binding) {
    && b in l && b.host.names <= h
    && forall x :: x in l && x.host.names <= h ==>
         x.host.names <= b.host.names && (x.host.names == b.host.names ==> x == b || b.id < x.id)
  }

  /** The host path of the root. */
  function RootOf(l: seq<Binding>): Path
    requires l != []
  {
    l[|l| - 1].host.names
  }

  ghost predicate Belongs(l: seq<Binding>, h: Path)
    requires l != []
  {
    RootOf(l) <= h
  }

  /** `detranslate_path` for a path that is not the text of a link: below a root other than "/" the root is
      cut off; elsewhere the deepest binding is followed back; what is bound nowhere is refused. */
  ghost predicate Detranslates(guest: seq<Binding>, host: seq<Binding>, h: Path, ok: bool, r: Path)
    requires guest != []
  {
    if RootOf(guest) != [] && Belongs(guest, h) then ok && r == h[|RootOf(guest)|..]
    else if exists x :: x in host && x.host.names <= h then
      ok && exists b :: IsHostMatch(host, h, b) && b.host.names <= h && r == Rebase(h, b.host.names, b.guest.names)
    else !ok
  }

  /** In a sorted list the first match is the oldest of the deepest ones. */
  lemma FirstHostIsDeepest(l: seq<Binding>, i: nat, h: Path)
    requires HostSorted(l) && i < |l| && l[i].host.names <= h
    requires forall j :: 0 <= j < i ==> !(l[j].host.names <= h)
    ensures IsHostMatch(l, h, l[i])
  {
    forall x | x in l && x.host.names <= h
      ensures x.host.names <= l[i].host.names && (x.host.names == l[i].host.names ==> x == l[i] || l[i].id < x.id)
    {
      var j := Position(l, x);
      PrefixOrder(x.host.names, l[i].host.names, h);
      assert i < j ==> HostPair(l, i, j);
    }
  }

  /** `get_binding` on the host side. */
  method GetHostBinding(lists: BindingLists, path: Location) returns (r: Match)
    requires lists.Valid() && Spells(path.path, path.names)
    ensures lists.guest != []
    ensures r.Matched? <==> (exists x :: x in lists.host && x.host.names <= path.names) &&
                            !(RootOf(lists.guest) != [] && Belongs(lists.guest, path.names))
    ensures r.Matched? ==> IsHostMatch(lists.host, path.names, r.binding) && r.binding in lists.guest
  {
    TextSpells("/", []);
    hide Spells, ComparePaths, Shows, GuestSorted, Key;
    var root := lists.guest[|lists.guest| - 1].host;
    assert lists.guest[|lists.guest| - 1] in lists.guest;
    TextsCompare(root.path, "/", root.names, []);
    TextsCompare(root.path, path.path, root.names, path.names);
    var belongs := ComparePaths(root.path, path.path);
    var i := 0;
    while i < |lists.host|
      invariant i <= |lists.host|
      invariant forall j :: 0 <= j < i && lists.host[j].host.names <= path.names ==>
                  RootOf(lists.guest) != [] && Belongs(lists.guest, path.names)
    {
      var binding := lists.host[i];
      assert binding in lists.host;
      TextsCompare(binding.host.path, path.path, binding.host.names, path.names);
      var comparison := ComparePaths(binding.host.path, path.path);
      if comparison == PathsAreEqual || comparison == Path1IsPrefix {
        if !(ComparePaths(root.path, "/") != PathsAreEqual && (belongs == PathsAreEqual || belongs == Path1IsPrefix)) {
          FirstHostIsDeepest(lists.host, i, path.names);
          return Matched(binding);
        }
      }
      i := i + 1;
    }
    NoHostMatch(lists.host, path.names, RootOf(lists.guest) != [] && Belongs(lists.guest, path.names));
    return NoMatch;
  }

  lemma NoHostMatch(l: seq<Binding>, h: Path, belongs: bool)
    requires forall j :: 0 <= j < |l| && l[j].host.names <= h ==> belongs
    ensures (exists x :: x in l && x.host.names <= h) ==> belongs
  {
    forall x | x in l && x.host.names <= h ensures belongs {
      assert l[Position(l, x)] == x;
    }
  }

  /** Whether a path fits when one prefix of its names is replaced by another; the file system root is taken to be
      longer than it is. */
  predicate RebaseFits(p: Path, a: Path, b: Path)
    requires a <= p
  {
    b == [] || |Cat(Rebase(p, a, b))| + (if p == [] then 1 else 0) < PATH_MAX
  }

  /** The replacement at the end of `substitute_binding`.  A result that does not fit leaves the path as it
      was, and the error is not reported. */
  method SubstitutePrefix(path: Location, from: Location, to: Location) returns (r: Location)
    requires IsText(path.path, path.names) && IsText(from.path, from.names) && IsText(to.path, to.names)
    requires from.names <= path.names && from.names != to.names
    ensures IsText(r.path, r.names)
    ensures if RebaseFits(path.names, from.names, to.names) then r.names == Rebase(path.names, from.names, to.names)
            else r == path
  {
    CanonicalNames(path.names);
    CanonicalNames(from.names);
    CanonicalNames(to.names);
    var rest := path.names[|from.names|..];
    assert path.names == from.names + rest;
    SubstituteMeaning(from.names, rest, to.names);
    RootsApart(from, to);
    var status, text := SubstitutePathPrefix(path.path, |from.path|, to.path);
    r := if status == Done then Location(text, to.names + rest) else path;
  }

  lemma RootsApart(a: Location, b: Location)
    requires IsText(a.path, a.names) && IsText(b.path, b.names) && a.names != b.names
    ensures !(|a.path| == 1 && |b.path| == 1)
  {
    TextChars(a.path, a.names);
    TextChars(b.path, b.names);
  }

  /** The paths of the binding are spelled in the canonical way. */
  ghost predicate IsClean(b: Binding) {
    IsText(b.host.path, b.host.names) && IsText(b.guest.path, b.guest.names)
  }

  /** `substitute_binding` on the guest side. */
  method SubstituteGuest(lists: BindingLists, path: Location) returns (status: Status, r: Location)
    requires lists.Valid() && IsText(path.path, path.names)
    requires forall b :: b in lists.guest && b.guest.names <= path.names ==> IsClean(b)
    ensures IsText(r.path, r.names)
    ensures exists b :: IsGuestMatch(lists.guest, path.names, b) && b.guest.names <= path.names &&
              (status == if b.host.names != b.guest.names then Replaced else Untouched) &&
              if status == Replaced && !RebaseFits(path.names, b.guest.names, b.host.names) then r == path
              else r.names == Rebase(path.names, b.guest.names, b.host.names)
  {
    TextSpells(path.path, path.names);
    var m := lists.GetGuestBinding(path);
    var binding := m.binding;
    assert IsGuestMatch(lists.guest, path.names, binding);
    if !binding.needSubstitution {
      return Untouched, path;
    }
    r := SubstitutePrefix(path, binding.guest, binding.host);
    status := Replaced;
  }

  /** What `detranslate_path` does with a path that no binding takes: the root is cut off. */
  method CutRoot(lists: BindingLists, path: Location) returns (ok: bool, r: Location)
    requires lists.Valid() && IsText(path.path, path.names)
    requires forall b :: b in lists.guest && b.host.names <= path.names ==> IsClean(b)
    ensures lists.guest != [] && (ok <==> Belongs(lists.guest, path.names))
    ensures ok ==> IsText(r.path, r.names) && r.names == path.names[|RootOf(lists.guest)|..]
  {
    var rootBinding := lists.guest[|lists.guest| - 1];
    var root := rootBinding.host;
    assert rootBinding in lists.guest && Proper(rootBinding);
    TextSpells(path.path, path.names);
    TextsCompare(root.path, path.path, root.names, path.names);
    assert IsText("/", []);
    hide Spells, ComparePaths, Linked, Key, IsText;
    match ComparePaths(root.path, path.path) {
      case Path1IsPrefix =>
        UnderRoot(path.path, root.path, path.names, root.names);
        RootText(root);
        var length := |root.path|;
        if length == 1 {
          length := 0;
        }
        return true, Location(path.path[length..], path.names[|root.names|..]);
      case PathsAreEqual =>
        return true, Location("/", []);
      case _ =>
        return false, path;
    }
  }

  /** A binding takes the host path before the root does. */
  ghost predicate IsBound(guest: seq<Binding>, host: seq<Binding>, h: Path)
    requires guest != []
  {
    !(RootOf(guest) != [] && Belongs(guest, h)) && exists x :: x in host && x.host.names <= h
  }

  /** `detranslate_path` without referrer, for a canonical path whose guest form fits.  The status is -EPERM for a
      path that is refused, zero for one that a binding leaves as it is, and otherwise the size of the result. */
  method DetranslatePath(lists: BindingLists, path: Location) returns (status: int, r: Location)
    requires lists.Valid() && IsText(path.path, path.names)
    requires forall b :: b in lists.guest && b.host.names <= path.names ==>
               IsClean(b) && RebaseFits(path.names, b.host.names, b.guest.names)
    ensures lists.guest != [] && Detranslates(lists.guest, lists.host, path.names, status >= 0, r.names)
    ensures status >= 0 ==> IsText(r.path, r.names)
    ensures status == -1 || status == 0 || status == |r.path| + 1
    ensures status == 0 <==> status >= 0 && r.names == path.names && IsBound(lists.guest, lists.host, path.names)
  {
    var ok;
    TextSpells(path.path, path.names);
    hide Spells, ComparePaths, Shows, GuestSorted, HostSorted, Key, IsText, Cat, Rebase;
    var m := GetHostBinding(lists, path);
    if !m.Matched? {
      ok, r := CutRoot(lists, path);
      status := if ok then |r.path| + 1 else -1;
    } else if !m.binding.needSubstitution {
      RebaseMoves(path.names, m.binding.host.names, m.binding.guest.names);
      return 0, path;
    } else {
      RebaseMoves(path.names, m.binding.host.names, m.binding.guest.names);
      r := SubstitutePrefix(path, m.binding.host, m.binding.guest);
      status := |r.path| + 1;
    }
  }

  lemma RebaseMoves(p: Path, a: Path, b: Path)
    requires a <= p
    ensures Rebase(p, a, b) == p <==> a == b
  {
    if Rebase(p, a, b) == p {
      assert |b| == |a|;
      assert b == p[..|b|];
    }
  }

  lemma RootText(a: Location)
    requires IsText(a.path, a.names)
    ensures |a.path| == 1 <==> a.names == []
  {
    TextChars(a.path, a.names);
  }

  // ----- there and back

  ghost predicate Apart(a: Path, b: Path) {
    !(a <= b) && !(b <= a)
  }

  /** The host paths of the bindings other than the root lie side by side, and apart from a root other than
      "/" as well; none of them is "/" itself. */
  ghost predicate HostsApart(l: seq<Binding>)
    requires l != []
  {
    && (forall x, y :: x in l && y in l && x != y && x.guest.names != [] && y.guest.names != [] ==>
          Apart(x.host.names, y.host.names))
    && (forall x :: x in l && x.guest.names != [] ==>
          x.host.names != [] && (RootOf(l) != [] ==> Apart(x.host.names, RootOf(l))))
  }

  /** Some binding other than the root reaches the host path `h`. */
  ghost predicate BoundAway(l: seq<Binding>, h: Path) {
    exists x :: x in l && x.guest.names != [] && x.host.names <= h
  }

  lemma TwoPrefixes(a: Path, b: Path, c: Path)
    requires a <= c && b <= c
    ensures a <= b || b <= a
  {
  }

  /** Translating a guest path and translating it back gives the path again, with one exception: with "/" as
      the root, a path outside all bindings whose host path a binding reaches comes back under that binding. */
  lemma RoundTrip(guest: seq<Binding>, host: seq<Binding>, p: Path, b: Binding, ok: bool, r: Path)
    requires GuestSorted(guest) && Rooted(guest) && (forall x :: x in guest <==> x in host) && HostsApart(guest)
    requires IsGuestMatch(guest, p, b)
    requires b.guest.names <= p && Detranslates(guest, host, Rebase(p, b.guest.names, b.host.names), ok, r)
    ensures ok && (r == p <==> RootOf(guest) != [] || b.guest.names != [] || !BoundAway(guest, p))
  {
    if b.guest.names == [] {
      OneRoot(guest, b);
      RootRoundTrip(guest, host, p, b, ok, r);
    } else {
      BoundRoundTrip(guest, host, p, b, ok, r);
    }
  }

  lemma BoundRoundTrip(guest: seq<Binding>, host: seq<Binding>, p: Path, b: Binding, ok: bool, r: Path)
    requires GuestSorted(guest) && Rooted(guest) && (forall x :: x in guest <==> x in host) && HostsApart(guest)
    requires b in guest && b.guest.names != [] && b.guest.names <= p
    requires Detranslates(guest, host, Rebase(p, b.guest.names, b.host.names), ok, r)
    ensures ok && r == p
  {
    var h := Rebase(p, b.guest.names, b.host.names);
    RebaseBack(p, b.guest.names, b.host.names);
    NotUnderRoot(guest, b, h);
    assert b in host;
    var x := FollowedBack(guest, host, h, ok, r);
    SameBinding(guest, b, x);
  }

  lemma RebaseBack(p: Path, a: Path, b: Path)
    requires a <= p
    ensures b <= Rebase(p, a, b) && Rebase(Rebase(p, a, b), b, a) == p
  {
  }

  lemma NotUnderRoot(guest: seq<Binding>, b: Binding, h: Path)
    requires guest != [] && HostsApart(guest) && b in guest && b.guest.names != [] && b.host.names <= h
    ensures !(RootOf(guest) != [] && Belongs(guest, h))
  {
    if RootOf(guest) <= h {
      TwoPrefixes(RootOf(guest), b.host.names, h);
    }
  }

  lemma FollowedBack(guest: seq<Binding>, host: seq<Binding>, h: Path, ok: bool, r: Path) returns (x: Binding)
    requires guest != [] && Detranslates(guest, host, h, ok, r)
    requires !(RootOf(guest) != [] && Belongs(guest, h)) && exists b :: b in host && b.host.names <= h
    ensures ok && IsHostMatch(host, h, x) && r == Rebase(h, x.host.names, x.guest.names)
  {
    x :| IsHostMatch(host, h, x) && x.host.names <= h && r == Rebase(h, x.host.names, x.guest.names);
  }

  lemma SameBinding(guest: seq<Binding>, b: Binding, x: Binding)
    requires GuestSorted(guest) && Rooted(guest) && HostsApart(guest) && b in guest && x in guest
    requires b.guest.names != [] && b.host.names <= x.host.names
    ensures x == b
  {
    if x.guest.names == [] {
      OneRoot(guest, x);
    }
  }

  lemma OneRoot(l: seq<Binding>, b: Binding)
    requires GuestSorted(l) && Rooted(l) && b in l && b.guest.names == []
    ensures b == l[|l| - 1]
  {
    RootIsLast(l, b);
  }

  lemma RootRoundTrip(guest: seq<Binding>, host: seq<Binding>, p: Path, b: Binding, ok: bool, r: Path)
    requires GuestSorted(guest) && Rooted(guest) && (forall x :: x in guest <==> x in host) && HostsApart(guest)
    requires IsGuestMatch(guest, p, b) && b.guest.names == [] && b == guest[|guest| - 1]
    requires Detranslates(guest, host, b.host.names + p, ok, r)
    ensures ok && (r == p <==> RootOf(guest) != [] || !BoundAway(guest, p))
  {
    if RootOf(guest) == [] {
      assert b.host.names + p == p;
      var x :| IsHostMatch(host, p, x) && x.host.names <= p && r == Rebase(p, x.host.names, x.guest.names);
      if x.guest.names == [] {
        OneRoot(guest, x);
        assert r == p;
      } else {
        assert x.guest.names <= r;
      }
    }
  }
}
