/** Reallocating a chunk moves its structure to another address: the pointers to it are repaired. */
module TallocMove {
  import opened Memory
  import opened Lists
  import opened OwnershipGraph
  import opened TallocShape

  /** The address after the move of whatever was at `a`. */
  function At'(a: Addr, c: Addr, b: Addr): Addr {
    if a == c then b else a
  }

  function Before(a: Addr, c: Addr, b: Addr): Addr {
    if a == b then c else a
  }

  ghost function Renamed(s: seq<Addr>, c: Addr, b: Addr): (r: seq<Addr>)
    ensures |r| == |s| && forall i :: 0 <= i < |s| ==> r[i] == At'(s[i], c, b)
  {
    seq(|s|, i requires 0 <= i < |s| => At'(s[i], c, b))
  }

  lemma RenamedElements(s: seq<Addr>, c: Addr, b: Addr)
    requires b !in s && NoDup(s) && b != c
    ensures NoDup(Renamed(s, c, b))
    ensures forall q :: q in s ==> At'(q, c, b) in Renamed(s, c, b)
    ensures forall q :: q in Renamed(s, c, b) ==> q != c && (q in s || (q == b && c in s))
  {
    var r := Renamed(s, c, b);
    forall i, j | 0 <= i < j < |r| ensures r[i] != r[j] {
      assert s[i] in s && s[j] in s;
    }
    forall q | q in s ensures At'(q, c, b) in r {
      assert r[IndexOf(s, q)] == At'(q, c, b);
    }
    forall q | q in r ensures q != c && (q in s || (q == b && c in s)) {
      assert s[IndexOf(r, q)] in s;
    }
  }

  ghost function MovedShape(live: set<Addr>, s: Shape, c: Addr, b: Addr): Shape
    requires HasKeys(live, s) && c in live
  {
    var live' := live - {c} + {b};
    Shape(map d | d in live' :: Renamed(s.kids[Before(d, c, b)], c, b),
          map d | d in live' :: At'(s.up[Before(d, c, b)], c, b),
          map d | d in live' :: s.held[Before(d, c, b)])
  }

  /** `s'` is `s` with `c` now living at `b`, as seen from the structure at `d`. */
  ghost predicate MovedAt(live: set<Addr>, s: Shape, c: Addr, b: Addr, live': set<Addr>, s': Shape, d: Addr)
    requires HasKeys(live, s) && HasKeys(live', s') && d in live'
  {
    var e := Before(d, c, b);
    e in live && s'.kids[d] == Renamed(s.kids[e], c, b) && s'.up[d] == At'(s.up[e], c, b) && s'.held[d] == s.held[e]
  }

  ghost predicate IsMoved(live: set<Addr>, s: Shape, c: Addr, b: Addr, live': set<Addr>, s': Shape) {
    && HasKeys(live, s) && HasKeys(live', s') && live' == live - {c} + {b}
    && forall d {:trigger MovedAt(live, s, c, b, live', s', d)} :: d in live' ==> MovedAt(live, s, c, b, live', s', d)
  }

  lemma MovedShapeIsMoved(live: set<Addr>, s: Shape, c: Addr, b: Addr)
    requires HasKeys(live, s) && c in live && b != NULL
    ensures IsMoved(live, s, c, b, live - {c} + {b}, MovedShape(live, s, c, b))
  {
  }

  function MovedLinks(l: Links, c: Addr, b: Addr): Links
    requires c in l.next && c in l.prev
  {
    var next, prev := l.next[b := l.next[c]], l.prev[b := l.prev[c]];
    Links(if prev[b] != NULL then next[prev[b] := b] else next, if next[b] != NULL then prev[next[b] := b] else prev)
  }

  lemma MovedLinkAt(l: Links, head: Addr, s: seq<Addr>, c: Addr, b: Addr, i: nat)
    requires Rep(l, head, s) && c in s && b !in s && b != NULL && b != c && i < |s|
    requires c in l.next && c in l.prev
    ensures Linked(MovedLinks(l, c, b), Renamed(s, c, b), i)
  {
    var k := IndexOf(s, c);
    assert Linked(l, s, k) && Linked(l, s, i) && s[i] in s;
    assert k > 0 ==> s[k - 1] in s;
    assert k + 1 < |s| ==> s[k + 1] in s;
    assert i > 0 ==> s[i - 1] in s;
    assert i + 1 < |s| ==> s[i + 1] in s;
  }

  lemma MovedRep(l: Links, head: Addr, s: seq<Addr>, c: Addr, b: Addr)
    requires Rep(l, head, s) && c in s && b !in s && b != NULL && c in l.next && c in l.prev && b != c
    ensures Rep(MovedLinks(l, c, b), At'(head, c, b), Renamed(s, c, b))
  {
    RenamedElements(s, c, b);
    forall i | 0 <= i < |s| ensures Linked(MovedLinks(l, c, b), Renamed(s, c, b), i) {
      MovedLinkAt(l, head, s, c, b, i);
    }
    assert NULL !in Renamed(s, c, b);
  }

  /** The structure at `c` is copied to `b`, and the neighbours are told. */
  function MovedMem(m: Mem, c: Addr, b: Addr): Mem
    requires c in m.sib.next && c in m.sib.prev && c in m.parent && c in m.child && c in m.refs
  {
    var parent, child := m.parent[b := m.parent[c]], m.child[b := m.child[c]];
    m.(live := m.live - {c} + {b},
       child := if parent[b] != NULL then child[parent[b] := b] else child,
       parent := if child[b] != NULL then parent[child[b] := b] else parent,
       sib := MovedLinks(m.sib, c, b),
       refs := m.refs[b := m.refs[c]])
  }

  /** The chunk `c`, which nobody refers to, and a free address. */
  ghost predicate Movable(st: State, c: Addr, b: Addr) {
    && Consistent(st) && st.m.loop == {} && c in st.m.live && c !in st.m.ptr && st.shape.held[c] == []
    && b != NULL && b !in st.m.live && c != NULL
    && st.shape.up[c] != c && c !in st.shape.kids[c]
    && c in st.m.sib.next && c in st.m.sib.prev && c in st.m.parent && c in st.m.child && c in st.m.refs
  }

  lemma OpenMove(st: State, c: Addr, b: Addr)
    requires ValidState(st) && st.m.loop == {} && c in st.m.live && c !in st.m.ptr
    requires c in st.shape.held && st.shape.held[c] == [] && b != NULL && b !in st.m.live
    ensures Movable(st, c, b)
  {
    NodeFacts(st, c);
    HeadFields(st, c);
    assert RootAt(st.m.live, st.shape, st.m.sib, st.m.parent, st.m.loop, c);
  }

  lemma MovedTreeAt(st: State, c: Addr, b: Addr, live': set<Addr>, s': Shape, d: Addr)
    requires Movable(st, c, b) && IsMoved(st.m.live, st.shape, c, b, live', s') && d in live'
    ensures TreeAt(live', s', d)
  {
    var live, s, e := st.m.live, st.shape, Before(d, c, b);
    assert MovedAt(live, s, c, b, live', s', d) && TreeAt(live, s, e);
    RenamedElements(s.kids[e], c, b);
    forall k | k in s'.kids[d] ensures k in live' && s'.up[k] == d {
      assert MovedAt(live, s, c, b, live', s', k);
    }
    var p := s'.up[d];
    if p != NULL {
      assert MovedAt(live, s, c, b, live', s', p) && TreeAt(live, s, s.up[e]);
      RenamedElements(s.kids[s.up[e]], c, b);
    }
  }

  lemma MovedHandleAt(st: State, c: Addr, b: Addr, live': set<Addr>, s': Shape, d: Addr)
    requires Movable(st, c, b) && IsMoved(st.m.live, st.shape, c, b, live', s') && d in live'
    ensures HandleAt(live', st.m.ptr, s', d)
  {
    var live, s, e := st.m.live, st.shape, Before(d, c, b);
    assert MovedAt(live, s, c, b, live', s', d) && HandleAt(live, st.m.ptr, s, e) && TreeAt(live, s, e);
    assert HandleAt(live, st.m.ptr, s, c);
    if d in st.m.ptr {
      assert st.m.ptr[d] != c;
      assert MovedAt(live, s, c, b, live', s', st.m.ptr[d]);
    }
  }

  lemma MovedHandles(st: State, c: Addr, b: Addr, live': set<Addr>, s': Shape)
    requires Movable(st, c, b) && IsMoved(st.m.live, st.shape, c, b, live', s')
    ensures WellShaped(live', st.m.ptr, s')
  {
    forall d | d in live' ensures TreeAt(live', s', d) && HandleAt(live', st.m.ptr, s', d) {
      MovedTreeAt(st, c, b, live', s', d);
      MovedHandleAt(st, c, b, live', s', d);
    }
  }

  /** The list of siblings that `c` is on. */
  lemma OwnListMoved(st: State, c: Addr, b: Addr, m': Mem, p: Addr)
    requires Movable(st, c, b) && m' == MovedMem(st.m, c, b)
    requires p in st.m.live && st.shape.up[c] == p
    requires KidsAt(st.m.live, st.shape, st.m.sib, st.m.parent, st.m.child, p) && TreeAt(st.m.live, st.shape, p)
    requires TreeAt(st.m.live, st.shape, c)
    requires KidsAt(st.m.live, st.shape, st.m.sib, st.m.parent, st.m.child, c)
    ensures var ks' := Renamed(st.shape.kids[p], c, b);
            && p in m'.child && Rep(m'.sib, m'.child[p], ks')
            && forall i :: 0 <= i < |ks'| ==>
                 ks'[i] in m'.parent && m'.parent[ks'[i]] == if i == 0 then p else NULL
  {
    var ks := st.shape.kids[p];
    var cs := st.shape.kids[c];
    assert b !in ks && (cs != [] ==> cs[0] in cs && cs[0] !in ks);
    MovedRep(st.m.sib, st.m.child[p], ks, c, b);
    OwnParents(st, c, b, m', p);
  }

  lemma OwnParents(st: State, c: Addr, b: Addr, m': Mem, p: Addr)
    requires Movable(st, c, b) && m' == MovedMem(st.m, c, b)
    requires p in st.m.live && st.shape.up[c] == p
    requires KidsAt(st.m.live, st.shape, st.m.sib, st.m.parent, st.m.child, p) && TreeAt(st.m.live, st.shape, p)
    requires TreeAt(st.m.live, st.shape, c)
    requires KidsAt(st.m.live, st.shape, st.m.sib, st.m.parent, st.m.child, c)
    ensures var ks' := Renamed(st.shape.kids[p], c, b);
            && p in m'.child && m'.child[p] == At'(st.m.child[p], c, b)
            && forall i :: 0 <= i < |ks'| ==>
                 ks'[i] in m'.parent && m'.parent[ks'[i]] == if i == 0 then p else NULL
  {
    var ks, cs := st.shape.kids[p], st.shape.kids[c];
    var k := IndexOf(ks, c);
    assert st.m.parent[c] == if k == 0 then p else NULL;
    assert cs != [] ==> cs[0] in cs && cs[0] !in ks;
    assert b !in ks;
    forall i | 0 <= i < |ks|
      ensures At'(ks[i], c, b) in m'.parent && m'.parent[At'(ks[i], c, b)] == if i == 0 then p else NULL
    {
      assert ks[i] in ks;
    }
  }

  /** Every other list. */
  lemma OtherListMoved(st: State, c: Addr, b: Addr, m': Mem, p: Addr)
    requires Movable(st, c, b) && m' == MovedMem(st.m, c, b)
    requires p in st.m.live && st.shape.up[c] != p
    requires KidsAt(st.m.live, st.shape, st.m.sib, st.m.parent, st.m.child, p) && TreeAt(st.m.live, st.shape, p)
    requires Neighbours(st, c)
    ensures var ks := st.shape.kids[p];
            && At'(p, c, b) in m'.child && Rep(m'.sib, m'.child[At'(p, c, b)], ks)
            && forall i :: 0 <= i < |ks| ==>
                 ks[i] in m'.parent && m'.parent[ks[i]] == if i == 0 then At'(p, c, b) else NULL
  {
    var ks := st.shape.kids[p];
    forall q | q in ks ensures SameLinks(st.m.sib, m'.sib, q) {
      assert Linked(st.m.sib, ks, IndexOf(ks, q));
    }
    assert m'.child[At'(p, c, b)] == st.m.child[p];
    RepFrame(st.m.sib, m'.sib, st.m.child[p], ks);
    forall i | 0 <= i < |ks|
      ensures ks[i] in m'.parent && m'.parent[ks[i]] == if i == 0 then At'(p, c, b) else NULL
    {
      assert ks[i] in ks;
    }
  }

  /** Where the pointers of `c` lead. */
  ghost predicate Neighbours(st: State, c: Addr)
    requires HasKeys(st.m.live, st.shape) && c in st.m.live
    requires c in st.m.sib.next && c in st.m.sib.prev && c in st.m.parent && c in st.m.child
  {
    var up := st.shape.up;
    && (st.m.sib.next[c] != NULL ==> st.m.sib.next[c] in st.m.live && up[st.m.sib.next[c]] == up[c] != NULL)
    && (st.m.sib.prev[c] != NULL ==> st.m.sib.prev[c] in st.m.live && up[st.m.sib.prev[c]] == up[c] != NULL)
    && (st.m.parent[c] != NULL ==> st.m.parent[c] == up[c])
    && (st.shape.kids[c] != [] ==> st.m.child[c] == st.shape.kids[c][0])
    && (st.m.child[c] != NULL ==>
          st.shape.kids[c] != [] && st.m.child[c] in st.m.live && up[st.m.child[c]] == c)
  }

  lemma NeighboursOf(st: State, c: Addr, b: Addr)
    requires Movable(st, c, b)
    ensures Neighbours(st, c)
  {
    assert TreeAt(st.m.live, st.shape, c) && RootAt(st.m.live, st.shape, st.m.sib, st.m.parent, {}, c);
    assert KidsAt(st.m.live, st.shape, st.m.sib, st.m.parent, st.m.child, c);
    var cs := st.shape.kids[c];
    assert cs != [] ==> cs[0] in cs;
    var p := st.shape.up[c];
    if p != NULL {
      assert KidsAt(st.m.live, st.shape, st.m.sib, st.m.parent, st.m.child, p) && TreeAt(st.m.live, st.shape, p);
      var ks := st.shape.kids[p];
      var k := IndexOf(ks, c);
      assert Linked(st.m.sib, ks, k);
      assert k > 0 ==> ks[k - 1] in ks;
      assert k + 1 < |ks| ==> ks[k + 1] in ks;
    }
  }

  lemma MovedLists(st: State, c: Addr, b: Addr, m': Mem, s': Shape, d: Addr)
    requires Movable(st, c, b) && m' == MovedMem(st.m, c, b) && Neighbours(st, c) && d in m'.live
    requires IsMoved(st.m.live, st.shape, c, b, m'.live, s')
    ensures KidsAt(m'.live, s', m'.sib, m'.parent, m'.child, d)
  {
    var p := if d == b then c else d;
    assert KidsAt(st.m.live, st.shape, st.m.sib, st.m.parent, st.m.child, p) && TreeAt(st.m.live, st.shape, p);
    assert KidsAt(st.m.live, st.shape, st.m.sib, st.m.parent, st.m.child, c) && TreeAt(st.m.live, st.shape, c);
    assert MovedAt(st.m.live, st.shape, c, b, m'.live, s', d);
    if p == st.shape.up[c] {
      OwnListMoved(st, c, b, m', p);
    } else {
      OtherListMoved(st, c, b, m', p);
      assert Renamed(st.shape.kids[p], c, b) == st.shape.kids[p];
    }
  }

  lemma MovedRoots(st: State, c: Addr, b: Addr, m': Mem, s': Shape, d: Addr)
    requires Movable(st, c, b) && m' == MovedMem(st.m, c, b) && Neighbours(st, c) && d in m'.live
    requires IsMoved(st.m.live, st.shape, c, b, m'.live, s')
    ensures RootAt(m'.live, s', m'.sib, m'.parent, {}, d)
  {
    assert MovedAt(st.m.live, st.shape, c, b, m'.live, s', d);
    assert RootAt(st.m.live, st.shape, st.m.sib, st.m.parent, {}, c);
    if d != b {
      assert RootAt(st.m.live, st.shape, st.m.sib, st.m.parent, {}, d);
    }
  }

  lemma MovedRest(st: State, c: Addr, b: Addr, live': set<Addr>, s': Shape, d: Addr)
    requires Movable(st, c, b) && b in st.rank && c in st.rank && st.rank[b] == st.rank[c]
    requires IsMoved(st.m.live, st.shape, c, b, live', s') && d in live'
    ensures HeldAt(live', s', st.m.hnd, st.m.refs[b := st.m.refs[c]], d) && RankAt(live', st.m.ptr, s', st.rank, d)
  {
    var e := if d == b then c else d;
    assert MovedAt(st.m.live, st.shape, c, b, live', s', d);
    assert HeldAt(st.m.live, st.shape, st.m.hnd, st.m.refs, e) && RankAt(st.m.live, st.m.ptr, st.shape, st.rank, e);
    assert HandleAt(st.m.live, st.m.ptr, st.shape, e) && HandleAt(st.m.live, st.m.ptr, st.shape, c);
  }

  /** The graph under another name for `c`. */
  ghost predicate SameUpToName(g: Graph, c: Addr, b: Addr, g': Graph) {
    && c in g && b !in g && g'.Keys == g.Keys - {c} + {b}
    && forall v, o {:trigger SameEdge(g, c, b, g', v, o)} :: v in g ==> SameEdge(g, c, b, g', v, o)
  }

  ghost predicate SameEdge(g: Graph, c: Addr, b: Addr, g': Graph, v: Addr, o: Addr) {
    v in g && At'(v, c, b) in g' && (o != b ==> g'[At'(v, c, b)][At'(o, c, b)] == g[v][o])
  }

  lemma HoldersMoved(up: map<Addr, Addr>, up': map<Addr, Addr>, hs: seq<Addr>, c: Addr, b: Addr, o: Addr)
    requires forall h :: h in hs ==> h in up && h in up' && up[h] != b && up'[h] == At'(up[h], c, b)
    requires o != b
    ensures Holders(up', hs)[At'(o, c, b)] == Holders(up, hs)[o]
  {
    if hs != [] {
      HoldersMoved(up, up', hs[1..], c, b, o);
    }
  }

  lemma MovedEdge(st: State, c: Addr, b: Addr, st': State, v: Addr, o: Addr)
    requires Movable(st, c, b) && v in StateGraph(st)
    requires IsMoved(st.m.live, st.shape, c, b, st'.m.live, st'.shape) && st'.m.ptr == st.m.ptr
    ensures SameEdge(StateGraph(st), c, b, StateGraph(st'), v, o)
  {
    var v' := At'(v, c, b);
    GraphAt(st.m.live, st.m.ptr, st.shape, v);
    GraphAt(st'.m.live, st'.m.ptr, st'.shape, v');
    if o != b {
      MovedOwners(st, c, b, st'.m.live, st'.shape, v, o);
    }
  }

  lemma MovedOwners(st: State, c: Addr, b: Addr, live': set<Addr>, s': Shape, v: Addr, o: Addr)
    requires Movable(st, c, b) && IsMoved(st.m.live, st.shape, c, b, live', s') && v in st.m.live && o != b
    ensures At'(v, c, b) in live'
    ensures OwnersOf(s', At'(v, c, b))[At'(o, c, b)] == OwnersOf(st.shape, v)[o]
  {
    var live, s, v' := st.m.live, st.shape, At'(v, c, b);
    assert HandleAt(live, st.m.ptr, s, v) && TreeAt(live, s, v) && MovedAt(live, s, c, b, live', s', v');
    forall h | h in s.held[v] ensures h in s.up && h in s'.up && s.up[h] != b && s'.up[h] == At'(s.up[h], c, b) {
      assert TreeAt(live, s, h) && MovedAt(live, s, c, b, live', s', h);
    }
    OwnersMoved(s, s', v, v', c, b, o);
  }

  lemma OwnersMoved(s: Shape, s': Shape, v: Addr, v': Addr, c: Addr, b: Addr, o: Addr)
    requires v in s.up && v in s.held && v' in s'.up && v' in s'.held && o != b && s.up[v] != b
    requires s'.held[v'] == s.held[v] && s'.up[v'] == At'(s.up[v], c, b)
    requires forall h :: h in s.held[v] ==> h in s.up && h in s'.up && s.up[h] != b && s'.up[h] == At'(s.up[h], c, b)
    ensures OwnersOf(s', v')[At'(o, c, b)] == OwnersOf(s, v)[o]
  {
    HoldersMoved(s.up, s'.up, s.held[v], c, b, o);
  }

  /** After the move the heap is consistent, and ownership is what it was, under the new name. */
  lemma MovedState(st: State, c: Addr, b: Addr, st': State)
    requires ValidState(st) && st.m.loop == {} && c in st.m.live && c !in st.m.ptr
    requires c in st.shape.held && st.shape.held[c] == [] && b != NULL && b !in st.m.live
    requires Movable(st, c, b) && st'.m == MovedMem(st.m, c, b) && c in st.rank
    requires st'.shape == MovedShape(st.m.live, st.shape, c, b) && st'.rank == st.rank[b := st.rank[c]]
    ensures ValidState(st') && SameUpToName(StateGraph(st), c, b, StateGraph(st'))
  {
    MovedShapeIsMoved(st.m.live, st.shape, c, b);
    MovedHandles(st, c, b, st'.m.live, st'.shape);
    NeighboursOf(st, c, b);
    MovedSiblings(st, c, b, st'.m, st'.shape);
    ReRank(st, b, st.rank[c]);
    MovedRests(st.(rank := st'.rank), c, b, st'.m.live, st'.shape);
    MovedGraph(st, c, b, st');
    assert Consistent(st');
  }

  lemma MovedSiblings(st: State, c: Addr, b: Addr, m': Mem, s': Shape)
    requires Movable(st, c, b) && m' == MovedMem(st.m, c, b) && Neighbours(st, c)
    requires IsMoved(st.m.live, st.shape, c, b, m'.live, s')
    ensures SiblingRep(m'.live, s', m'.sib, m'.parent, m'.child, {})
  {
    forall d | d in m'.live
      ensures KidsAt(m'.live, s', m'.sib, m'.parent, m'.child, d)
      ensures RootAt(m'.live, s', m'.sib, m'.parent, {}, d)
    {
      MovedLists(st, c, b, m', s', d);
      MovedRoots(st, c, b, m', s', d);
    }
  }

  lemma MovedRests(st: State, c: Addr, b: Addr, live': set<Addr>, s': Shape)
    requires Movable(st, c, b) && b in st.rank && c in st.rank && st.rank[b] == st.rank[c]
    requires IsMoved(st.m.live, st.shape, c, b, live', s')
    ensures HandleRep(live', s', st.m.hnd, st.m.refs[b := st.m.refs[c]]) && RankOk(live', st.m.ptr, s', st.rank)
  {
    forall d | d in live'
      ensures HeldAt(live', s', st.m.hnd, st.m.refs[b := st.m.refs[c]], d)
      ensures RankAt(live', st.m.ptr, s', st.rank, d)
    {
      MovedRest(st, c, b, live', s', d);
    }
  }

  lemma ReRank(st: State, b: Addr, r: nat)
    requires Consistent(st) && b !in st.m.live && st.m.loop == {}
    ensures Consistent(st.(rank := st.rank[b := r]))
  {
    forall d | d in st.m.live ensures RankAt(st.m.live, st.m.ptr, st.shape, st.rank[b := r], d) {
      assert RankAt(st.m.live, st.m.ptr, st.shape, st.rank, d) && TreeAt(st.m.live, st.shape, d);
      assert HandleAt(st.m.live, st.m.ptr, st.shape, d);
    }
  }

  lemma MovedGraph(st: State, c: Addr, b: Addr, st': State)
    requires Movable(st, c, b)
    requires IsMoved(st.m.live, st.shape, c, b, st'.m.live, st'.shape) && st'.m.ptr == st.m.ptr
    ensures SameUpToName(StateGraph(st), c, b, StateGraph(st'))
  {
    var g, g' := StateGraph(st), StateGraph(st');
    MovedKeys(st, c, b, st');
    forall v, o | v in g ensures SameEdge(g, c, b, g', v, o) {
      MovedEdge(st, c, b, st', v, o);
    }
  }

  lemma MovedKeys(st: State, c: Addr, b: Addr, st': State)
    requires HasKeys(st.m.live, st.shape) && HasKeys(st'.m.live, st'.shape) && c in st.m.live && c !in st.m.ptr
    requires b !in st.m.live && b !in st.m.ptr
    requires st'.m.live == st.m.live - {c} + {b} && st'.m.ptr == st.m.ptr
    ensures c in StateGraph(st) && b !in StateGraph(st)
    ensures StateGraph(st').Keys == StateGraph(st).Keys - {c} + {b}
  {
    var keys, keys' := StateGraph(st).Keys, StateGraph(st').Keys;
    forall v ensures v in keys <==> v in st.m.live && v !in st.m.ptr {
      GraphAt(st.m.live, st.m.ptr, st.shape, v);
    }
    forall v ensures v in keys' <==> v in st'.m.live && v !in st'.m.ptr {
      GraphAt(st'.m.live, st'.m.ptr, st'.shape, v);
    }
    SameKeys(st.m.live, st.m.ptr.Keys, keys, keys', c, b);
  }

  lemma SameKeys(live: set<Addr>, handles: set<Addr>, keys: set<Addr>, keys': set<Addr>, c: Addr, b: Addr)
    requires forall v :: v in keys <==> v in live && v !in handles
    requires forall v :: v in keys' <==> v in live - {c} + {b} && v !in handles
    requires c in live && c !in handles && b !in live && b !in handles
    ensures keys' == keys - {c} + {b}
  {
  }
}
