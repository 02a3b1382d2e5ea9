/** The binding lists of a tracee: one sorted for looking guest paths up, one for host paths, edited by
    insertions and by the emulation of mount, umount and pivot_root. */
module Bindings {
  import opened Paths

  /** An absolute path: its string, and the parts by which it is compared. */
  datatype Location = Location(path: string, names: Path)

  ghost predicate Spells(s: string, p: Path) {
    IsAbsolute(s) && p == Key(s)
  }

  /** `kept`: something else than the two lists owns the binding too, so that it outlives its removal.  This
      is so for all bindings made by `insort_binding3`; those of the command line belong to the lists alone. */
  datatype Binding = Binding(id: nat, host: Location, guest: Location, needSubstitution: bool, kept: bool)

  ghost predicate Proper(b: Binding) {
    && Spells(b.host.path, b.host.names) && Spells(b.guest.path, b.guest.names)
    && (b.needSubstitution <==> b.host.names != b.guest.names)
  }

  lemma TextsCompare(a: string, b: string, p: Path, q: Path)
    requires Spells(a, p) && Spells(b, q)
    ensures a != "" && b != "" && ComparePaths(a, b) == Relation(p, q)
  {
    CompareKeys(a, b);
  }

  /** The string of a canonical path spells its names; "/" is the only one that spells none. */
  lemma TextSpells(s: string, p: Path)
    ensures IsText(s, p) ==> Spells(s, p)
    ensures Spells(s, []) <==> s == "/"
  {
    if IsText(s, p) {
      CanonicalNames(p);
      KeyOfRender(p);
    }
    if Spells(s, []) {
      KeyCat(s);
    }
  }

  // ----- sorted lists

  ghost predicate GuestPair(l: seq<Binding>, i: nat, j: nat)
    requires i < |l| && j < |l|
  {
    !(l[i].guest.names <= l[j].guest.names)
  }

  /** No binding comes before one whose guest path lies inside its own; guest paths are distinct. */
  ghost predicate GuestSorted(l: seq<Binding>) {
    forall i, j {:trigger GuestPair(l, i, j)} :: 0 <= i < j < |l| ==> GuestPair(l, i, j)
  }

  ghost predicate HostPair(l: seq<Binding>, i: nat, j: nat)
    requires i < |l| && j < |l|
  {
    && !(l[i].host.names < l[j].host.names) && l[i] != l[j]
    && (l[i].host.names == l[j].host.names ==> l[i].id < l[j].id)
  }

  /** No binding comes before one whose host path lies inside its own; among equal ones the oldest comes first. */
  ghost predicate HostSorted(l: seq<Binding>) {
    forall i, j {:trigger HostPair(l, i, j)} :: 0 <= i < j < |l| ==> HostPair(l, i, j)
  }

  function InsertAt(l: seq<Binding>, k: nat, b: Binding): (r: seq<Binding>)
    requires k <= |l|
    ensures |r| == |l| + 1
  {
    l[..k] + [b] + l[k..]
  }

  lemma InsertedElements(l: seq<Binding>, k: nat, b: Binding)
    requires k <= |l|
    ensures forall x :: x in InsertAt(l, k, b) <==> x in l || x == b
  {
    assert l == l[..k] + l[k..];
  }

  lemma InsertGuest(l: seq<Binding>, k: nat, b: Binding)
    requires GuestSorted(l) && k <= |l|
    requires k > 0 ==> b.guest.names <= l[k - 1].guest.names
    requires forall i :: 0 <= i < |l| ==> l[i].guest.names != b.guest.names
    requires forall i :: k <= i < |l| ==> !(b.guest.names <= l[i].guest.names)
    ensures GuestSorted(InsertAt(l, k, b))
  {
    var r := InsertAt(l, k, b);
    forall i, j | 0 <= i < j < |r| ensures GuestPair(r, i, j) {
      if j == k {
        assert i < k - 1 ==> GuestPair(l, i, k - 1);
        PrefixOrder(l[i].guest.names, b.guest.names, l[k - 1].guest.names);
      } else if i != k {
        assert GuestPair(l, if i < k then i else i - 1, if j < k then j else j - 1);
      }
    }
  }

  lemma PrefixOrder(a: Path, b: Path, c: Path)
    ensures a <= b && b <= c ==> a <= c
    ensures a <= b && b <= a ==> a == b
    ensures a < b && b <= c ==> a < c
    ensures a <= c && b <= c ==> a <= b || b <= a
  {
  }

  lemma InsertHost(l: seq<Binding>, k: nat, b: Binding)
    requires HostSorted(l) && k <= |l| && b !in l
    requires k > 0 ==> b.host.names <= l[k - 1].host.names
    requires forall i :: k <= i < |l| ==> !(b.host.names <= l[i].host.names)
    requires forall x :: x in l ==> x.id < b.id
    ensures HostSorted(InsertAt(l, k, b))
  {
    var r := InsertAt(l, k, b);
    forall i, j | 0 <= i < j < |r| ensures HostPair(r, i, j) {
      if j == k {
        assert i < k - 1 ==> HostPair(l, i, k - 1);
        PrefixOrder(l[i].host.names, b.host.names, l[k - 1].host.names);
        assert l[i] in l;
      } else if i != k {
        assert HostPair(l, if i < k then i else i - 1, if j < k then j else j - 1);
      } else {
        assert l[j - 1] in l;
      }
    }
  }

  function Position(l: seq<Binding>, b: Binding): (i: nat)
    ensures i <= |l| && (i < |l| ==> l[i] == b) && (b in l <==> i < |l|)
  {
    if l == [] || l[0] == b then 0 else Position(l[1..], b) + 1
  }

  function RemoveAt(l: seq<Binding>, k: nat): (r: seq<Binding>)
    requires k < |l|
    ensures |r| == |l| - 1 && forall i :: 0 <= i < |r| ==> r[i] == l[if i < k then i else i + 1]
  {
    l[..k] + l[k + 1..]
  }

  /** `CIRCLEQ_REMOVE`, of a binding that may not be on the list. */
  function Without(l: seq<Binding>, b: Binding): seq<Binding> {
    if b in l then RemoveAt(l, Position(l, b)) else l
  }

  lemma RemovedSorted(l: seq<Binding>, k: nat)
    requires k < |l|
    ensures GuestSorted(l) ==> GuestSorted(RemoveAt(l, k))
    ensures HostSorted(l) ==> HostSorted(RemoveAt(l, k))
  {
    var r := RemoveAt(l, k);
    forall i, j | 0 <= i < j < |r|
      ensures GuestSorted(l) ==> GuestPair(r, i, j)
      ensures HostSorted(l) ==> HostPair(r, i, j)
    {
      var i', j' := if i < k then i else i + 1, if j < k then j else j + 1;
      assert GuestSorted(l) ==> GuestPair(l, i', j');
      assert HostSorted(l) ==> HostPair(l, i', j');
    }
  }

  lemma RemovedElements(l: seq<Binding>, k: nat)
    requires k < |l| && forall i :: 0 <= i < |l| && i != k ==> l[i] != l[k]
    ensures forall x :: x in RemoveAt(l, k) <==> x in l && x != l[k]
  {
    var r := RemoveAt(l, k);
    forall x | x in l && x != l[k] ensures x in r {
      var i := Position(l, x);
      assert r[if i < k then i else i - 1] == x;
    }
  }

  lemma WithoutSorted(l: seq<Binding>, b: Binding)
    ensures GuestSorted(l) ==> GuestSorted(Without(l, b))
    ensures HostSorted(l) ==> HostSorted(Without(l, b))
    ensures GuestSorted(l) || HostSorted(l) ==> forall x :: x in Without(l, b) <==> x in l && x != b
  {
    if b in l {
      var k := Position(l, b);
      RemovedSorted(l, k);
      if GuestSorted(l) || HostSorted(l) {
        forall i | 0 <= i < |l| && i != k ensures l[i] != l[k] {
          var lo, hi := if i < k then i else k, if i < k then k else i;
          assert GuestSorted(l) ==> GuestPair(l, lo, hi);
          assert HostSorted(l) ==> HostPair(l, lo, hi);
        }
        RemovedElements(l, k);
      }
    }
  }

  /** Inserting behind a binding and removing that one is replacing it. */
  lemma ReplaceInPlace(l: seq<Binding>, k: nat, b: Binding)
    requires k < |l| && forall i :: 0 <= i < k ==> l[i] != l[k]
    ensures Without(InsertAt(l, k + 1, b), l[k]) == l[k := b]
  {
    var r := InsertAt(l, k + 1, b);
    assert forall i :: 0 <= i <= k ==> r[i] == l[i];
    assert r[k] == l[k] && l[k] in r;
    PositionOf(r, l[k], k);
    InsertThenRemove(l, k, b);
  }

  lemma InsertThenRemove(l: seq<Binding>, k: nat, b: Binding)
    requires k < |l|
    ensures RemoveAt(InsertAt(l, k + 1, b), k) == l[k := b]
  {
  }

  lemma ReplaceGuest(l: seq<Binding>, k: nat, b: Binding)
    requires GuestSorted(l) && k < |l| && l[k].guest.names == b.guest.names
    ensures GuestSorted(l[k := b])
    ensures forall x :: x in l[k := b] <==> x == b || (x in l && x.guest.names != b.guest.names)
  {
    var r := l[k := b];
    DistinctFrom(l, k);
    assert r[k] == b;
    forall i, j | 0 <= i < j < |r| ensures GuestPair(r, i, j) {
      assert GuestPair(l, i, j);
    }
    forall x | x in l && x.guest.names != b.guest.names ensures x in r {
      assert r[Position(l, x)] == x;
    }
    forall x | x in r && x != b ensures x in l && x.guest.names != b.guest.names {
      assert l[Position(r, x)] == x;
    }
  }

  lemma DistinctFrom(l: seq<Binding>, k: nat)
    requires GuestSorted(l) && k < |l|
    ensures forall i :: 0 <= i < |l| && i != k ==> l[i].guest.names != l[k].guest.names
  {
    forall i | 0 <= i < |l| && i != k ensures l[i].guest.names != l[k].guest.names {
      assert if i < k then GuestPair(l, i, k) else GuestPair(l, k, i);
    }
  }

  lemma PositionOf(l: seq<Binding>, b: Binding, k: nat)
    requires k < |l| && l[k] == b && forall i :: 0 <= i < k ==> l[i] != b
    ensures Position(l, b) == k
  {
    if k > 0 {
      assert l[0] != b;
      PositionOf(l[1..], b, k - 1);
    }
  }

  // ----- what the lists stand for

  /** The spelling of a guest path, and the host path it is bound to. */
  datatype Place = Place(path: string, host: Path)

  type Table = map<Path, Place>

  function PlaceOf(b: Binding): Place {
    Place(b.guest.path, b.host.names)
  }

  /** The list binds the guest paths of the table to its host paths. */
  ghost predicate Shows(l: seq<Binding>, t: Table) {
    && (forall b :: b in l ==> b.guest.names in t && t[b.guest.names] == PlaceOf(b))
    && (forall g :: g in t ==> exists b :: b in l && b.guest.names == g)
  }

  /** The root is inside nothing else, so sorting puts it last. */
  lemma RootIsLast(l: seq<Binding>, b: Binding)
    requires GuestSorted(l) && b in l && b.guest.names == []
    ensures l[|l| - 1] == b
  {
    var i := Position(l, b);
    assert i < |l| - 1 ==> GuestPair(l, i, |l| - 1);
  }

  lemma ShowsInserted(l: seq<Binding>, t: Table, b: Binding, l': seq<Binding>)
    requires Shows(l, t)
    requires forall x :: x in l' <==> x == b || (x in l && x.guest.names != b.guest.names)
    ensures Shows(l', t[b.guest.names := PlaceOf(b)])
  {
    var t' := t[b.guest.names := PlaceOf(b)];
    forall g | g in t' ensures exists x :: x in l' && x.guest.names == g {
      if g == b.guest.names {
        assert b in l';
      } else {
        var x :| x in l && x.guest.names == g;
        assert x in l';
      }
    }
  }

  lemma ShowsRemoved(l: seq<Binding>, t: Table, b: Binding, l': seq<Binding>)
    requires Shows(l, t) && GuestSorted(l) && b in l
    requires forall x :: x in l' <==> x in l && x != b
    ensures Shows(l', t - {b.guest.names})
  {
    DistinctFrom(l, Position(l, b));
    forall x | x in l' ensures x.guest.names != b.guest.names {
      assert l[Position(l, x)] == x;
    }
    forall g | g in t - {b.guest.names} ensures exists x :: x in l' && x.guest.names == g {
      var x :| x in l && x.guest.names == g;
      assert x in l';
    }
  }

  datatype Match = NoMatch | Matched(binding: Binding)

  /** In a sorted list the first match is the binding with the longest guest path. */
  lemma FirstMatchIsLongest(l: seq<Binding>, i: nat, p: Path)
    requires GuestSorted(l) && i < |l| && l[i].guest.names <= p
    requires forall j :: 0 <= j < i ==> !(l[j].guest.names <= p)
    ensures forall b :: b in l && b.guest.names <= p ==> b.guest.names <= l[i].guest.names
  {
    forall b | b in l && b.guest.names <= p ensures b.guest.names <= l[i].guest.names {
      var j := Position(l, b);
      PrefixOrder(b.guest.names, l[i].guest.names, p);
      assert i < j ==> GuestPair(l, i, j);
    }
  }

  /** Both lists hold the same bindings, sorted, and show the table. */
  ghost predicate Linked(guest: seq<Binding>, host: seq<Binding>, nextId: nat, t: Table) {
    && GuestSorted(guest) && HostSorted(host)
    && (forall b :: b in guest <==> b in host)
    && (forall b :: b in guest ==> Proper(b) && b.id < nextId)
    && Shows(guest, t)
  }

  /** The root is bound, and comes last. */
  ghost predicate Rooted(guest: seq<Binding>) {
    guest != [] && guest[|guest| - 1].guest.names == []
  }

  lemma Fresh(guest: seq<Binding>, host: seq<Binding>, nextId: nat, t: Table, b: Binding)
    requires Linked(guest, host, nextId, t) && b.id >= nextId
    ensures b !in guest && b !in host && forall x :: x in host ==> Proper(x) && x.id < nextId
  {
  }

  lemma LinkedInserted(guest: seq<Binding>, host: seq<Binding>, nextId: nat, t: Table, b: Binding,
                       guest': seq<Binding>, host': seq<Binding>)
    requires Linked(guest, host, nextId, t) && Proper(b) && b.id == nextId
    requires GuestSorted(guest') && HostSorted(host')
    requires forall x :: x in guest' <==> x == b || (x in guest && x.guest.names != b.guest.names)
    requires forall x :: x in host' <==> x == b || (x in host && x.guest.names != b.guest.names)
    ensures Linked(guest', host', nextId + 1, t[b.guest.names := PlaceOf(b)])
    ensures Rooted(guest) || b.guest.names == [] ==> Rooted(guest')
  {
    ShowsInserted(guest, t, b, guest');
    if b.guest.names == [] {
      RootIsLast(guest', b);
    } else if Rooted(guest) {
      assert guest[|guest| - 1] in guest;
      RootIsLast(guest', guest[|guest| - 1]);
    }
  }

  lemma LinkedRemoved(guest: seq<Binding>, host: seq<Binding>, nextId: nat, t: Table, b: Binding)
    requires Linked(guest, host, nextId, t) && b in guest
    ensures Linked(Without(guest, b), Without(host, b), nextId, t - {b.guest.names})
    ensures forall x :: x in Without(guest, b) <==> x in guest && x != b
    ensures Rooted(guest) && b.guest.names != [] ==> Rooted(Without(guest, b))
  {
    hide Without, GuestSorted, HostSorted, Proper, Shows;
    WithoutSorted(guest, b);
    WithoutSorted(host, b);
    ShowsRemoved(guest, t, b, Without(guest, b));
    if Rooted(guest) && b.guest.names != [] {
      assert guest[|guest| - 1] in guest;
      RootIsLast(Without(guest, b), guest[|guest| - 1]);
    }
  }

  // ----- pivot_root

  /** The table during a pivot, and the guest paths bound since it began. */
  datatype Pivot = Pivot(table: Table, bound: set<Path>)

  function Bind(v: Pivot, g: Path, path: string, h: Path): Pivot {
    Pivot(v.table[g := Place(path, h)], v.bound + {g})
  }

  /** Drop the binding `g` had before the pivot, if it still has it. */
  function Unbind(v: Pivot, g: Path): Pivot {
    if g in v.bound then v else Pivot(v.table - {g}, v.bound)
  }

  datatype Target<T> = Stays | MovesTo(to: T) | CopiedTo(to: T)

  /** The guest path that becomes "/", and the one where the old root goes, "" if there is none. */
  datatype Roots = Roots(newRoot: string, oldRoot: string)

  function TextTarget(r: Roots, g: string): Target<string> {
    if g == "/" then Stays
    else if |r.newRoot| < |g| && r.newRoot <= g && g[|r.newRoot|] == '/' then MovesTo(g[|r.newRoot|..])
    else if r.oldRoot != "" && !StopsAtName(r.oldRoot, g) && |r.oldRoot| + |g| < PATH_MAX then CopiedTo(r.oldRoot + g)
    else Stays
  }

  function TextPivotOne(v: Pivot, r: Roots, b: Binding): Pivot {
    match TextTarget(r, b.guest.path)
    case Stays => v
    case MovesTo(to) => Unbind(Bind(v, Key(to), to, b.host.names), b.guest.names)
    case CopiedTo(to) => Bind(v, Key(to), to, b.host.names)
  }

  function TextPivotAll(v: Pivot, r: Roots, l: seq<Binding>): Pivot {
    if l == [] then v else TextPivotOne(TextPivotAll(v, r, l[..|l| - 1]), r, l[|l| - 1])
  }

  function TextPivotStart(t: Table, r: Roots, newHost: Path, oldHost: Path): Pivot {
    var v := Bind(Pivot(t - {[]}, {}), [], "/", newHost);
    if r.oldRoot != "" then Bind(v, Key(r.oldRoot), r.oldRoot, oldHost) else v
  }

  /** Where `put_old` is, seen from the new root. */
  function OldRootAt(newRoot: string, putOld: string): string {
    if newRoot <= putOld && (CharAt(putOld, |newRoot|) == '/' || |newRoot| == 1) then
      var after := putOld[if |newRoot| == 1 then 0 else |newRoot|..];
      if CharAt(after, 0) == '/' && CharAt(after, 1) != '\0' then after else ""
    else ""
  }

  /** The loop reads a binding that is gone: only the lists owned it, and it has been replaced since the pivot
      began. */
  ghost predicate ReadsFreed(v: Pivot, r: Roots, l: seq<Binding>, i: nat)
    requires i < |l|
  {
    l[i].guest.names != [] && !l[i].kept && l[i].guest.names in TextPivotAll(v, r, l[..i]).bound
  }

  ghost predicate NoneFreed(v: Pivot, r: Roots, l: seq<Binding>) {
    forall i :: 0 <= i < |l| ==> !ReadsFreed(v, r, l, i)
  }

  lemma OneMore(v: Pivot, r: Roots, l: seq<Binding>, i: nat)
    requires i < |l|
    ensures TextPivotAll(v, r, l[..i + 1]) == TextPivotOne(TextPivotAll(v, r, l[..i]), r, l[i])
  {
    assert l[..i + 1][..i] == l[..i] && l[..i + 1][i] == l[i];
  }

  class BindingLists {
    var guest: seq<Binding>
    var host: seq<Binding>
    var nextId: nat
    ghost var table: Table   // guest path to host path

    ghost predicate Consistent()
      reads this
    {
      Linked(guest, host, nextId, table)
    }

    ghost predicate Valid()
      reads this
    {
      Consistent() && Rooted(guest)
    }

    /** A file system with nothing but a root. */
    constructor (root: Location)
      requires Spells(root.path, root.names)
      ensures Valid() && table == map[[] := Place("/", root.names)]
    {
      TextSpells("/", []);
      var b := Binding(0, root, Location("/", []), root.names != [], false);
      guest, host, nextId, table := [b], [b], 1, map[[] := Place("/", root.names)];
    }

    /** `remove_binding_from_all_lists` */
    method RemoveFromAllLists(b: Binding)
      modifies `guest, `host
      ensures guest == Without(old(guest), b) && host == Without(old(host), b)
    {
      if b in guest {
        guest := Without(guest, b);
      }
      if b in host {
        host := Without(host, b);
      }
    }

    /** `insort_binding` for the guest list: behind the last binding nested in the new one, or in the place
        of a binding with the same guest path. */
    method InsortGuest(b: Binding)
      requires Consistent() && Proper(b) && b !in guest
      modifies `guest, `host
      ensures GuestSorted(guest) && HostSorted(host)
      ensures forall x :: x in guest <==> x == b || (x in old(guest) && x.guest.names != b.guest.names)
      ensures forall x :: x in host <==> x in old(host) && x.guest.names != b.guest.names
    {
      hide Spells, ComparePaths, Shows, HostSorted;
      var previous, i := 0, 0;   // the new binding goes behind the first `previous` elements
      while i < |guest|
        invariant previous <= i <= |guest|
        invariant guest == old(guest) && host == old(host)
        invariant forall j :: 0 <= j < i ==> guest[j].guest.names != b.guest.names
        invariant previous > 0 ==> b.guest.names <= guest[previous - 1].guest.names
        invariant forall j :: previous <= j < i ==> !(b.guest.names <= guest[j].guest.names)
      {
        var other := guest[i];
        TextsCompare(b.guest.path, other.guest.path, b.guest.names, other.guest.names);
        match ComparePaths(b.guest.path, other.guest.path) {
          case PathsAreEqual =>
            Replace(b, i);
            return;
          case Path1IsPrefix =>
            previous := i + 1;
          case Path2IsPrefix =>
          case PathsAreNotComparable =>
        }
        i := i + 1;
      }
      assert forall j :: 0 <= j < |guest| ==> guest[j] in guest;
      InsertGuest(guest, previous, b);
      InsertedElements(guest, previous, b);
      guest := InsertAt(guest, previous, b);
      forall x | x in old(guest) ensures x.guest.names != b.guest.names {
        assert old(guest)[Position(old(guest), x)] == x;
      }
    }

    /** The new binding is put behind the old one, which is then removed from all lists. */
    method Replace(b: Binding, i: nat)
      requires GuestSorted(guest) && HostSorted(host) && (forall b :: b in guest <==> b in host)
      requires i < |guest| && guest[i].guest.names == b.guest.names && b !in guest
      modifies `guest, `host
      ensures GuestSorted(guest) && HostSorted(host)
      ensures forall x :: x in guest <==> x == b || (x in old(guest) && x.guest.names != b.guest.names)
      ensures forall x :: x in host <==> x in old(host) && x.guest.names != b.guest.names
    {
      var other := guest[i];
      DistinctFrom(guest, i);
      ReplaceGuest(guest, i, b);
      ReplaceInPlace(guest, i, b);
      WithoutSorted(host, other);
      forall x | x in host && x != other ensures x.guest.names != b.guest.names {
        assert x in guest && guest[Position(guest, x)] == x;
      }
      guest := InsertAt(guest, i + 1, b);
      RemoveFromAllLists(other);
    }

    /** `insort_binding` for the host list: behind the last binding nested in the new one or equal to it. */
    method InsortHost(b: Binding)
      requires HostSorted(host) && Proper(b) && b !in host && forall x :: x in host ==> Proper(x) && x.id < b.id
      modifies `host
      ensures HostSorted(host) && forall x :: x in host <==> x == b || x in old(host)
    {
      hide Spells, ComparePaths;
      var previous, i := 0, 0;
      while i < |host|
        invariant previous <= i <= |host| && host == old(host)
        invariant previous > 0 ==> b.host.names <= host[previous - 1].host.names
        invariant forall j :: previous <= j < i ==> !(b.host.names <= host[j].host.names)
      {
        var other := host[i];
        assert other in host;
        TextsCompare(b.host.path, other.host.path, b.host.names, other.host.names);
        match ComparePaths(b.host.path, other.host.path) {
          case PathsAreEqual =>
            previous := i + 1;
          case Path1IsPrefix =>
            previous := i + 1;
          case Path2IsPrefix =>
          case PathsAreNotComparable =>
        }
        i := i + 1;
      }
      InsertHost(host, previous, b);
      InsertedElements(host, previous, b);
      host := InsertAt(host, previous, b);
    }

    method InsortBoth(b: Binding)
      requires Consistent() && Proper(b) && b.id == nextId
      modifies `guest, `host
      ensures GuestSorted(guest) && HostSorted(host)
      ensures forall x :: x in guest <==> x == b || (x in old(guest) && x.guest.names != b.guest.names)
      ensures forall x :: x in host <==> x == b || (x in old(host) && x.guest.names != b.guest.names)
    {
      Fresh(guest, host, nextId, table, b);
      hide Proper, Shows, GuestSorted, HostSorted;
      InsortGuest(b);
      InsortHost(b);
    }

    /** `insort_binding2` for a new binding: the guest path now leads to the host path, whatever it led to
        before. */
    method Insort(h: Location, g: Location, kept: bool) returns (ghost b: Binding)
      requires Consistent() && Spells(h.path, h.names) && Spells(g.path, g.names)
      modifies this
      ensures Consistent() && table == old(table)[g.names := Place(g.path, h.names)] && nextId == old(nextId) + 1
      ensures old(Valid()) || g.names == [] ==> Valid()
      ensures b.id == old(nextId) && b.guest == g && b.kept == kept
      ensures b.host == h && (b.needSubstitution <==> h.names != g.names)
      ensures forall x :: x in guest <==> x == b || (x in old(guest) && x.guest.names != g.names)
    {
      TextsCompare(h.path, g.path, h.names, g.names);
      var new_ := Binding(nextId, h, g, ComparePaths(h.path, g.path) != PathsAreEqual, kept);
      b := new_;
      InsortBoth(new_);
      LinkedInserted(old(guest), old(host), nextId, table, b, guest, host);
      nextId := nextId + 1;
      table := table[g.names := PlaceOf(b)];
    }

    /** `get_binding` on the guest side: the binding with the longest guest path above `path`. */
    method GetGuestBinding(path: Location) returns (r: Match)
      requires Valid() && Spells(path.path, path.names)
      ensures r.Matched? && r.binding in guest && r.binding.guest.names <= path.names
      ensures forall b :: b in guest && b.guest.names <= path.names ==> b.guest.names <= r.binding.guest.names
    {
      hide Spells, ComparePaths;
      var i := 0;
      assert guest[|guest| - 1].guest.names <= path.names;
      while i < |guest|
        invariant i <= |guest|
        invariant forall j :: 0 <= j < i ==> !(guest[j].guest.names <= path.names)
      {
        var binding := guest[i];
        TextsCompare(binding.guest.path, path.path, binding.guest.names, path.names);
        var comparison := ComparePaths(binding.guest.path, path.path);
        if comparison == PathsAreEqual || comparison == Path1IsPrefix {
          FirstMatchIsLongest(guest, i, path.names);
          return Matched(binding);
        }
        i := i + 1;
      }
      return NoMatch;
    }

    /** `initialize_binding`, for a binding of the command line. */
    method InitializeBinding(h: Location, g: Location)
      requires Valid() && Spells(h.path, h.names) && Spells(g.path, g.names)
      modifies this
      ensures Valid() && table == old(table)[g.names := Place(g.path, h.names)]
      ensures var b := Binding(old(nextId), h, g, h.names != g.names, false);
              forall x :: x in guest <==> x == b || (x in old(guest) && x.guest.names != g.names)
    {
      ghost var b := Insort(h, g, false);
      assert b == Binding(old(nextId), h, g, h.names != g.names, false);
    }

    /** `emulate_mount`, from a host directory to a guest path. */
    method EmulateMount(h: Location, g: Location)
      requires Valid() && Spells(h.path, h.names) && Spells(g.path, g.names)
      modifies this
      ensures Valid() && table == old(table)[g.names := Place(g.path, h.names)]
      ensures var b := Binding(old(nextId), h, g, h.names != g.names, true);
              forall x :: x in guest <==> x == b || (x in old(guest) && x.guest.names != g.names)
    {
      ghost var b := Insort(h, g, true);
      assert b == Binding(old(nextId), h, g, h.names != g.names, true);
    }

    /** `emulate_umount`: drop the binding with exactly this spelling of the guest path, unless it is the root. */
    method EmulateUmount(g: Location)
      requires Valid() && Spells(g.path, g.names)
      modifies this
      ensures Valid()
      ensures table == if g.names != [] && g.names in old(table) && old(table)[g.names].path == g.path
                       then old(table) - {g.names} else old(table)
    {
      TextSpells(g.path, []);
      if g.path == "/" {
        return;
      }
      var binding := GetGuestBinding(g);
      assert Proper(binding.binding);
      MatchOfBound(g.names, binding.binding);
      if binding.binding.guest.path != g.path {
        return;
      }
      Forget(binding.binding);
    }

    /** The longest match of a guest path that is bound is its own binding. */
    lemma MatchOfBound(g: Path, b: Binding)
      requires Valid() && b in guest && b.guest.names <= g
      requires forall x :: x in guest && x.guest.names <= g ==> x.guest.names <= b.guest.names
      ensures g in table ==> b.guest.names == g && table[g] == PlaceOf(b)
    {
      if g in table {
        var x :| x in guest && x.guest.names == g;
      }
    }

    /** Take a binding off the lists, if it is still there. */
    method Forget(b: Binding)
      requires Consistent()
      modifies this
      ensures Consistent() && nextId == old(nextId)
      ensures table == if b in old(guest) then old(table) - {b.guest.names} else old(table)
      ensures old(Valid()) && b.guest.names != [] ==> Valid()
      ensures forall x :: x in guest <==> x in old(guest) && x != b
    {
      if b in guest {
        LinkedRemoved(guest, host, nextId, table, b);
        table := table - {b.guest.names};
      }
      RemoveFromAllLists(b);
    }

    /** `emulate_pivot_root`: `newRootHost` and `newRootGuest` are the host and guest path of the new root,
        `putOld` the guest path below it where the old root goes.  It is not `intact` when the loop gets to a
        binding that has been freed; what the program does from there on is not defined. */
    method EmulatePivotRoot(newRootHost: Location, newRootGuest: string, putOld: string) returns (intact: bool)
      requires Valid() && Spells(newRootHost.path, newRootHost.names) && IsAbsolute(newRootGuest) && IsAbsolute(putOld)
      modifies this
      ensures var r := Roots(newRootGuest, OldRootAt(newRootGuest, putOld));
              && [] in old(table)
              && var v := TextPivotStart(old(table), r, newRootHost.names, old(table)[[]].host);
                 && (intact <==> NoneFreed(v, r, old(guest)))
                 && (intact ==> Valid() && table == TextPivotAll(v, r, old(guest)).table)
    {
      var root := Location("/", []);
      TextSpells("/", []);
      var rootMatch := GetGuestBinding(root);
      var rootBinding := rootMatch.binding;
      OldRoot(rootBinding);
      var havePutOld, after := FindPutOld(newRootGuest, putOld);
      ghost var r := Roots(newRootGuest, if havePutOld then after.path else "");
      ghost var v := TextPivotStart(table, r, newRootHost.names, table[[]].host);
      var snapshot := guest;
      SwitchRoots(rootBinding, newRootHost, root, havePutOld, after, r);
      intact := PivotBindings(snapshot, rootBinding, newRootGuest, havePutOld, after, r, v);
    }

    /** The loop over the bindings from before the pivot. */
    method PivotBindings(snapshot: seq<Binding>, rootBinding: Binding, newRootGuest: string, havePutOld: bool,
                         after: Location, ghost r: Roots, ghost v: Pivot) returns (intact: bool)
      requires Valid() && table == v.table && Pending(snapshot, 0, guest, nextId, v.bound)
      requires rootBinding in snapshot && rootBinding.guest.names == []
      requires IsAbsolute(newRootGuest) && r.newRoot == newRootGuest
      requires havePutOld ==> Spells(after.path, after.names)
      requires r.oldRoot == if havePutOld then after.path else ""
      modifies this
      ensures intact <==> NoneFreed(v, r, snapshot)
      ensures intact ==> Valid() && table == TextPivotAll(v, r, snapshot).table
    {
      hide Spells, TextPivotOne, Pending, IsAbsolute, Linked;
      assert snapshot[..0] == [];
      var i := 0;
      while i < |snapshot|
        invariant i <= |snapshot| && Valid()
        invariant table == TextPivotAll(v, r, snapshot[..i]).table
        invariant Pending(snapshot, i, guest, nextId, TextPivotAll(v, r, snapshot[..i]).bound)
        invariant forall j :: 0 <= j < i ==> !ReadsFreed(v, r, snapshot, j)
      {
        ghost var w := TextPivotAll(v, r, snapshot[..i]);
        OneMore(v, r, snapshot, i);
        AtRound(snapshot, i, guest, nextId, w, r, rootBinding);
        if snapshot[i] == rootBinding {
        } else if !snapshot[i].kept && snapshot[i] !in guest {
          assert ReadsFreed(v, r, snapshot, i);
          return false;
        } else {
          PivotBinding(snapshot, i, newRootGuest, havePutOld, after, r, w);
        }
        i := i + 1;
      }
      assert snapshot[..i] == snapshot;
      intact := true;
    }

    /** The new root takes the place of the old one, which is bound again at `after`. */
    method SwitchRoots(rootBinding: Binding, newRootHost: Location, root: Location, havePutOld: bool, after: Location,
                       ghost r: Roots)
      requires Valid() && Spells(newRootHost.path, newRootHost.names) && root == Location("/", []) && Spells("/", [])
      requires rootBinding in guest && rootBinding.guest.names == []
      requires havePutOld ==> Spells(after.path, after.names)
      requires r.oldRoot == if havePutOld then after.path else ""
      modifies this
      ensures Valid() && [] in old(table)
      ensures var v := TextPivotStart(old(table), r, newRootHost.names, old(table)[[]].host);
              table == v.table && Pending(old(guest), 0, guest, nextId, v.bound)
    {
      OldRoot(rootBinding);
      ghost var l := guest;
      var oldRootHost := rootBinding.host;
      Forget(rootBinding);
      ghost var guest1, nextId1 := guest, nextId;
      ghost var b := Insort(newRootHost, root, true);
      PendingStart(l, rootBinding, nextId1, guest1, b, guest);
      if havePutOld {
        ghost var guest2, nextId2 := guest, nextId;
        b := Insort(oldRootHost, after, true);
        PendingInserted(l, 0, guest2, nextId2, {[]}, b, guest);
      }
    }

    lemma OldRoot(b: Binding)
      requires Valid() && b in guest && b.guest.names <= []
      ensures [] in table && table[[]] == PlaceOf(b) && b.guest.names == [] && Proper(b)
    {
    }

    /** The old root becomes reachable at `putOld` as seen from the new root. */
    method FindPutOld(newRootGuest: string, putOld: string) returns (have: bool, after: Location)
      requires IsAbsolute(newRootGuest) && IsAbsolute(putOld)
      ensures have ==> Spells(after.path, after.names)
      ensures OldRootAt(newRootGuest, putOld) == if have then after.path else ""
    {
      have, after := false, Location(putOld, Key(putOld));
      var length := |newRootGuest|;
      if length > |putOld| || putOld[..length] != newRootGuest {
        return;
      }
      if CharAt(putOld, length) == '/' || (length == 1 && newRootGuest[0] == '/') {
        var rest := putOld[if length == 1 then 0 else length..];
        if CharAt(rest, 0) == '/' && CharAt(rest, 1) != '\0' {
          have, after := true, Location(rest, Key(rest));
        }
      }
    }

    /** One round of the loop over the bindings from before the pivot. */
    method PivotBinding(l: seq<Binding>, i: nat, newRootGuest: string, havePutOld: bool, after: Location,
                        ghost r: Roots, ghost v: Pivot)
      requires Valid() && i < |l| && table == v.table && Pending(l, i, guest, nextId, v.bound)
      requires IsAbsolute(newRootGuest) && r.newRoot == newRootGuest
      requires havePutOld ==> Spells(after.path, after.names)
      requires r.oldRoot == if havePutOld then after.path else ""
      modifies this
      ensures Valid()
      ensures var w := TextPivotOne(v, r, l[i]);
              table == w.table && Pending(l, i + 1, guest, nextId, w.bound)
    {
      var b := l[i];
      assert PendingAt(b, guest, nextId, v.bound);
      if b.guest.path == "/" {
        return;
      }
      TextSpells(b.guest.path, []);
      var length := |newRootGuest|;
      if |b.guest.path| > length && b.guest.path[..length] == newRootGuest && b.guest.path[length] == '/' {
        var to := b.guest.path[length..];
        MoveBinding(l, i, Location(to, Key(to)), v);
      } else if havePutOld {
        CopyBinding(l, i, after, v);
      }
    }

    /** A binding under the new root is inserted again at its new place, and the old one removed. */
    method MoveBinding(l: seq<Binding>, i: nat, to: Location, ghost v: Pivot)
      requires Valid() && i < |l| && table == v.table && Pending(l, i, guest, nextId, v.bound)
      requires Spells(to.path, to.names) && l[i].guest.names != []
      modifies this
      ensures Valid()
      ensures var w := Unbind(Bind(v, to.names, to.path, l[i].host.names), l[i].guest.names);
              table == w.table && Pending(l, i + 1, guest, nextId, w.bound)
    {
      var b := l[i];
      assert PendingAt(b, guest, nextId, v.bound);
      ghost var guest0 := guest;
      ghost var new_ := Insort(b.host, to, true);
      PendingInserted(l, i, guest0, old(nextId), v.bound, new_, guest);
      assert PendingAt(b, guest, nextId, v.bound + {to.names});
      ghost var guest1 := guest;
      Forget(b);
      PendingRemoved(l, i, guest1, nextId, v.bound + {to.names}, guest);
    }

    /** Any other binding is inserted again under the place of the old root. */
    method CopyBinding(l: seq<Binding>, i: nat, after: Location, ghost v: Pivot)
      requires Valid() && i < |l| && table == v.table && Pending(l, i, guest, nextId, v.bound)
      requires Spells(after.path, after.names) && l[i].guest.names != []
      modifies this
      ensures Valid()
      ensures var g := l[i].guest.path;
              var w := if !StopsAtName(after.path, g) && |after.path| + |g| < PATH_MAX
                       then Bind(v, Key(after.path + g), after.path + g, l[i].host.names) else v;
              table == w.table && Pending(l, i + 1, guest, nextId, w.bound)
    {
      var b := l[i];
      assert PendingAt(b, guest, nextId, v.bound);
      var length := |after.path|;
      NoEndIn(b.guest.path, length);
      if length <= |b.guest.path| && b.guest.path[..length] == after.path
         && (CharAt(b.guest.path, length) == '\0' || CharAt(b.guest.path, length) == '/') {
        return;
      }
      var aliased := after.path + b.guest.path;
      if |aliased| >= PATH_MAX {
        return;
      }
      ghost var new_ := Insort(b.host, Location(aliased, Key(aliased)), true);
      PendingInserted(l, i, old(guest), old(nextId), v.bound, new_, guest);
    }
  }

  lemma NoEndIn(s: string, i: nat)
    requires '\0' !in s
    ensures CharAt(s, i) == '\0' <==> i >= |s|
  {
  }

  /** The bindings of the snapshot from `i` on are untouched, except those that have been replaced. */
  ghost predicate Pending(l: seq<Binding>, i: nat, guest: seq<Binding>, nextId: nat, bound: set<Path>) {
    && GuestSorted(l)
    && forall j :: i <= j < |l| ==> PendingAt(l[j], guest, nextId, bound)
  }

  ghost predicate PendingAt(b: Binding, guest: seq<Binding>, nextId: nat, bound: set<Path>) {
    Proper(b) && b.id < nextId && (b in guest <==> b.guest.names !in bound)
  }

  /** What is known of the binding whose turn it is. */
  lemma AtRound(l: seq<Binding>, i: nat, guest: seq<Binding>, nextId: nat, w: Pivot, r: Roots, root: Binding)
    requires i < |l| && Pending(l, i, guest, nextId, w.bound) && root in l && root.guest.names == []
    ensures l[i] in guest <==> l[i].guest.names !in w.bound
    ensures l[i] == root <==> l[i].guest.names == []
    ensures l[i] == root ==> TextPivotOne(w, r, l[i]) == w && Pending(l, i + 1, guest, nextId, w.bound)
  {
    assert PendingAt(l[i], guest, nextId, w.bound);
    DistinctFrom(l, Position(l, root));
    TextSpells(l[i].guest.path, []);
  }

  lemma PendingStart(l: seq<Binding>, root: Binding, nextId: nat, guest: seq<Binding>, b: Binding, guest': seq<Binding>)
    requires GuestSorted(l) && root in l && root.guest.names == [] && b.id == nextId && b.guest.names == []
    requires forall x :: x in l ==> Proper(x) && x.id < nextId
    requires forall x :: x in guest <==> x in l && x != root
    requires forall x :: x in guest' <==> x == b || (x in guest && x.guest.names != [])
    ensures Pending(l, 0, guest', nextId + 1, {[]})
  {
    DistinctFrom(l, Position(l, root));
    forall j | 0 <= j < |l| ensures PendingAt(l[j], guest', nextId + 1, {[]}) {
      assert l[j] in l;
    }
  }

  lemma PendingInserted(l: seq<Binding>, i: nat, guest: seq<Binding>, nextId: nat, bound: set<Path>, b: Binding,
                        guest': seq<Binding>)
    requires Pending(l, i, guest, nextId, bound) && b.id == nextId
    requires forall x :: x in guest' <==> x == b || (x in guest && x.guest.names != b.guest.names)
    ensures Pending(l, i, guest', nextId + 1, bound + {b.guest.names})
  {
    forall j | i <= j < |l| ensures PendingAt(l[j], guest', nextId + 1, bound + {b.guest.names}) {
      assert PendingAt(l[j], guest, nextId, bound);
    }
  }

  lemma PendingRemoved(l: seq<Binding>, i: nat, guest: seq<Binding>, nextId: nat, bound: set<Path>, guest': seq<Binding>)
    requires i < |l| && Pending(l, i, guest, nextId, bound)
    requires forall x :: x in guest' <==> x in guest && x != l[i]
    ensures Pending(l, i + 1, guest', nextId, bound)
  {
    DistinctFrom(l, i);
    forall j | i + 1 <= j < |l| ensures PendingAt(l[j], guest', nextId, bound) {
      assert PendingAt(l[j], guest, nextId, bound);
    }
  }
}
