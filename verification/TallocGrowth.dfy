/** What allocating a chunk and taking a reference do to a consistent heap. */
module TallocGrowth {
  import opened Memory
  import opened Lists
  import opened OwnershipGraph
  import opened TallocShape

  // ----- a fresh chunk without parent

  ghost function FreshShape(s: Shape, c: Addr): Shape {
    Shape(s.kids[c := []], s.up[c := NULL], s.held[c := []])
  }

  function FreshMem(m: Mem, c: Addr): Mem {
    m.(live := m.live + {c}, sib := Links(m.sib.next[c := NULL], m.sib.prev[c := NULL]),
       parent := m.parent[c := NULL], child := m.child[c := NULL], refs := m.refs[c := NULL])
  }

  lemma FreshTree(st: State, c: Addr)
    requires Consistent(st) && c !in st.m.live && c != NULL
    ensures WellShaped(st.m.live + {c}, st.m.ptr, FreshShape(st.shape, c))
  {
    var live', s' := st.m.live + {c}, FreshShape(st.shape, c);
    assert HasKeys(live', s');
    forall d | d in live' ensures TreeAt(live', s', d) && HandleAt(live', st.m.ptr, s', d) {
      if d != c {
        FreshAt(st, c, d);
      }
    }
  }

  lemma FreshAt(st: State, c: Addr, d: Addr)
    requires Consistent(st) && c !in st.m.live && c != NULL && d in st.m.live
    ensures HasKeys(st.m.live + {c}, FreshShape(st.shape, c))
    ensures TreeAt(st.m.live + {c}, FreshShape(st.shape, c), d)
    ensures HandleAt(st.m.live + {c}, st.m.ptr, FreshShape(st.shape, c), d)
  {
    assert TreeAt(st.m.live, st.shape, d) && HandleAt(st.m.live, st.m.ptr, st.shape, d);
  }

  lemma FreshSiblings(st: State, c: Addr)
    requires Consistent(st) && c !in st.m.live && c != NULL
    ensures var m' := FreshMem(st.m, c);
            SiblingRep(m'.live, FreshShape(st.shape, c), m'.sib, m'.parent, m'.child, m'.loop)
  {
    var m', s' := FreshMem(st.m, c), FreshShape(st.shape, c);
    assert HasKeys(m'.live, s');
    forall d | d in m'.live
      ensures KidsAt(m'.live, s', m'.sib, m'.parent, m'.child, d)
      ensures RootAt(m'.live, s', m'.sib, m'.parent, m'.loop, d)
    {
      if d != c {
        assert KidsAt(st.m.live, st.shape, st.m.sib, st.m.parent, st.m.child, d);
        assert RootAt(st.m.live, st.shape, st.m.sib, st.m.parent, st.m.loop, d);
        assert TreeAt(st.m.live, st.shape, d);
        var ks := st.shape.kids[d];
        forall q | q in ks ensures SameLinks(st.m.sib, m'.sib, q) {
          assert Linked(st.m.sib, ks, IndexOf(ks, q));
        }
        RepFrame(st.m.sib, m'.sib, st.m.child[d], ks);
        assert forall i :: 0 <= i < |ks| ==> ks[i] in ks;
      }
    }
  }

  lemma FreshRest(st: State, c: Addr, r: nat)
    requires Consistent(st) && c !in st.m.live && c != NULL && st.m.loop == {}
    ensures var m', s', rank' := FreshMem(st.m, c), FreshShape(st.shape, c), st.rank[c := r];
            && HandleRep(m'.live, s', m'.hnd, m'.refs) && RankOk(m'.live, m'.ptr, s', rank')
            && LoopOk(m'.live, m'.ptr, s', m'.parent, rank', m'.loop)
  {
    var m', s', rank' := FreshMem(st.m, c), FreshShape(st.shape, c), st.rank[c := r];
    assert HasKeys(m'.live, s');
    forall d | d in m'.live
      ensures HeldAt(m'.live, s', m'.hnd, m'.refs, d) && RankAt(m'.live, m'.ptr, s', rank', d)
    {
      if d != c {
        assert HeldAt(st.m.live, st.shape, st.m.hnd, st.m.refs, d) && TreeAt(st.m.live, st.shape, d);
        assert RankAt(st.m.live, st.m.ptr, st.shape, st.rank, d) && HandleAt(st.m.live, st.m.ptr, st.shape, d);
      }
    }
  }

  lemma FreshState(st: State, c: Addr, r: nat, st': State)
    requires ValidState(st) && c !in st.m.live && c != NULL && st.m.loop == {}
    requires st' == State(FreshMem(st.m, c), FreshShape(st.shape, c), st.rank[c := r])
    ensures ValidState(st') && c !in StateGraph(st)
    ensures StateGraph(st') == StateGraph(st)[c := multiset{NULL}]
  {
    FreshTree(st, c);
    FreshSiblings(st, c);
    FreshRest(st, c, r);
    GraphAt(st.m.live, st.m.ptr, st.shape, c);
    var g, h := StateGraph(st'), StateGraph(st)[c := multiset{NULL}];
    forall v ensures SameAt(g, h, v) {
      FreshOwners(st, c, st', v);
    }
    SameGraph(g, h);
  }

  lemma FreshOwners(st: State, c: Addr, st': State, v: Addr)
    requires Consistent(st) && c !in st.m.live && c != NULL && HasKeys(st'.m.live, st'.shape)
    requires st'.m == FreshMem(st.m, c) && st'.shape == FreshShape(st.shape, c)
    ensures SameAt(StateGraph(st'), StateGraph(st)[c := multiset{NULL}], v)
  {
    GraphAt(st.m.live, st.m.ptr, st.shape, v);
    GraphAt(st'.m.live, st'.m.ptr, st'.shape, v);
    if v in st.m.live {
      assert HandleAt(st.m.live, st.m.ptr, st.shape, v);
      HoldersAgree(st.shape.up, st'.shape.up, st.shape.held[v]);
    }
  }

  // ----- what an allocation promises

  /** `st'` is `st` with the new chunk `b`, whose only owner is `o`. */
  ghost predicate Allocated(st: State, o: Addr, b: Addr, st': State) {
    && ValidState(st') && st'.m.loop == {} && b != NULL
    && st'.m.live == st.m.live + {b} && b !in st.m.live && st'.m.ptr == st.m.ptr && b !in st.m.ptr
    && b in st'.shape.up && st'.shape.up[b] == o
    && b in st'.shape.kids && st'.shape.kids[b] == [] && b in st'.shape.held && st'.shape.held[b] == []
    && (forall c :: c in st.rank && c != b ==> c in st'.rank && st'.rank[c] == st.rank[c])
    && b !in StateGraph(st) && StateGraph(st') == StateGraph(st)[b := multiset{o}]
  }

  lemma AllocatedRoot(st: State, b: Addr, r: nat, st': State)
    requires ValidState(st) && b !in st.m.live && b != NULL && st.m.loop == {}
    requires st' == State(FreshMem(st.m, b), FreshShape(st.shape, b), st.rank[b := r])
    ensures Allocated(st, NULL, b, st')
  {
    FreshState(st, b, r, st');
  }

  lemma AllocatedBelow(st: State, o: Addr, b: Addr, st1: State, st2: State)
    requires Allocated(st, NULL, b, st1) && Stolen(st1, o, b, st2)
    requires b in st2.shape.kids && st2.shape.kids[b] == []
    ensures Allocated(st, o, b, st2)
  {
    assert Referent(st1.m.ptr, b) == b;
    ParentOfFresh(StateGraph(st), b, o);
  }

  // ----- turning a fresh chunk into a reference handle

  /** `h` becomes the first handle on `t`. */
  ghost predicate Referenced(st: State, h: Addr, t: Addr, st': State) {
    && h in st.m.live && h !in st.m.ptr && t in st.m.live && t !in st.m.ptr && t != h
    && HasKeys(st.m.live, st.shape)
    && st.shape.kids[h] == [] && st.shape.held[h] == [] && st.shape.up[h] != NULL
    && st'.shape == Shape(st.shape.kids, st.shape.up, st.shape.held[t := [h] + st.shape.held[t]])
    && st'.m == st.m.(ptr := st.m.ptr[h := t], hnd := st'.m.hnd, refs := st.m.refs[t := h]) && st'.rank == st.rank
    && Rep(st'.m.hnd, h, [h] + st.shape.held[t])
    && (forall q {:trigger SameLinks(st.m.hnd, st'.m.hnd, q)} ::
          q in st.m.hnd.next && q in st.m.hnd.prev && q !in st.shape.held[t] && q != h ==>
            SameLinks(st.m.hnd, st'.m.hnd, q))
  }

  lemma ReferencedShape(st: State, h: Addr, t: Addr, st': State)
    requires Consistent(st) && Referenced(st, h, t, st')
    ensures WellShaped(st'.m.live, st'.m.ptr, st'.shape)
  {
    var s, s' := st.shape, st'.shape;
    assert TreeAt(st.m.live, s, h) && HandleAt(st.m.live, st.m.ptr, s, h) && HandleAt(st.m.live, st.m.ptr, s, t);
    assert HasKeys(st.m.live, s');
    forall c | c in st.m.live ensures TreeAt(st.m.live, s', c) && HandleAt(st.m.live, st'.m.ptr, s', c) {
      assert TreeAt(st.m.live, s, c) && HandleAt(st.m.live, st.m.ptr, s, c);
      ReferencedHandleAt(st, h, t, st', c);
    }
  }

  lemma ReferencedHandleAt(st: State, h: Addr, t: Addr, st': State, c: Addr)
    requires Referenced(st, h, t, st') && c in st.m.live && HasKeys(st.m.live, st'.shape)
    requires TreeAt(st.m.live, st.shape, c) && HandleAt(st.m.live, st.m.ptr, st.shape, c)
    requires TreeAt(st.m.live, st.shape, h) && HandleAt(st.m.live, st.m.ptr, st.shape, h)
    requires HandleAt(st.m.live, st.m.ptr, st.shape, t)
    ensures HandleAt(st.m.live, st'.m.ptr, st'.shape, c)
  {
    assert st.shape.up[c] != h;
    assert c == t ==> forall k :: k in st'.shape.held[c] ==> k == h || k in st.shape.held[c];
  }

  lemma ReferencedRest(st: State, h: Addr, t: Addr, st': State)
    requires Consistent(st) && Referenced(st, h, t, st') && st.m.loop == {} && HasKeys(st.m.live, st'.shape)
    requires st.shape.up[h] in st.rank && t in st.rank && st.rank[st.shape.up[h]] < st.rank[t]
    ensures SiblingRep(st'.m.live, st'.shape, st'.m.sib, st'.m.parent, st'.m.child, st'.m.loop)
    ensures HandleRep(st'.m.live, st'.shape, st'.m.hnd, st'.m.refs)
    ensures RankOk(st'.m.live, st'.m.ptr, st'.shape, st'.rank)
  {
    var m, s, m', s' := st.m, st.shape, st'.m, st'.shape;
    forall c | c in m.live
      ensures KidsAt(m'.live, s', m'.sib, m'.parent, m'.child, c) && RootAt(m'.live, s', m'.sib, m'.parent, {}, c)
      ensures HeldAt(m'.live, s', m'.hnd, m'.refs, c) && RankAt(m'.live, m'.ptr, s', st.rank, c)
    {
      assert KidsAt(m.live, s, m.sib, m.parent, m.child, c) && RootAt(m.live, s, m.sib, m.parent, {}, c);
      assert HeldAt(m.live, s, m.hnd, m.refs, c) && RankAt(m.live, m.ptr, s, st.rank, c);
      if c != t {
        assert HandleAt(m.live, m.ptr, s, c) && HandleAt(m.live, m.ptr, s, t);
        ListApart(m.hnd, m'.hnd, m.refs[c], s.held[c], s.held[t], h);
      }
    }
  }

  lemma ListApart(l: Links, l': Links, head: Addr, s: seq<Addr>, other: seq<Addr>, h: Addr)
    requires Rep(l, head, s) && h !in s && forall q :: q in s ==> q !in other
    requires forall q {:trigger SameLinks(l, l', q)} ::
               q in l.next && q in l.prev && q !in other && q != h ==> SameLinks(l, l', q)
    ensures Rep(l', head, s)
  {
    forall q | q in s ensures SameLinks(l, l', q) {
      assert Linked(l, s, IndexOf(s, q));
    }
    RepFrame(l, l', head, s);
  }

  lemma ReferencedState(st: State, h: Addr, t: Addr, st': State)
    requires ValidState(st) && Referenced(st, h, t, st') && st.m.loop == {}
    requires st.shape.up[h] in st.rank && t in st.rank && st.rank[st.shape.up[h]] < st.rank[t]
    ensures ValidState(st')
    ensures StateGraph(st') == AddOwner(StateGraph(st) - {h}, t, st.shape.up[h])
  {
    ReferencedShape(st, h, t, st');
    ReferencedRest(st, h, t, st');
    var g, g' := AddOwner(StateGraph(st) - {h}, t, st.shape.up[h]), StateGraph(st');
    GraphAt(st.m.live, st.m.ptr, st.shape, t);
    forall v ensures SameAt(g', g, v) {
      ReferencedOwners(st, h, t, st', v);
    }
    SameGraph(g', g);
  }

  lemma ReferencedOwners(st: State, h: Addr, t: Addr, st': State, v: Addr)
    requires Referenced(st, h, t, st') && HasKeys(st.m.live, st'.shape) && t in StateGraph(st)
    ensures SameAt(StateGraph(st'), AddOwner(StateGraph(st) - {h}, t, st.shape.up[h]), v)
  {
    GraphAt(st.m.live, st.m.ptr, st.shape, v);
    GraphAt(st'.m.live, st'.m.ptr, st'.shape, v);
    AddOwnerAt(StateGraph(st), h, t, st.shape.up[h], v);
    if v in st.m.live {
      OneMoreHolder(st.shape, h, t, st'.shape, v);
    }
  }

  lemma AddOwnerAt(g: Graph, h: Addr, t: Addr, o: Addr, v: Addr)
    requires t in g && t != h
    ensures v in AddOwner(g - {h}, t, o) <==> v in g && v != h
    ensures v in g && v != h ==>
              AddOwner(g - {h}, t, o)[v] == if v == t then g[v] + multiset{o} else g[v]
  {
  }

  lemma OneMoreHolder(s: Shape, h: Addr, t: Addr, s': Shape, v: Addr)
    requires s' == Shape(s.kids, s.up, s'.held) && t in s.held && s'.held == s.held[t := [h] + s.held[t]]
    requires v in s.up && v in s.held && h in s.up
    ensures OwnersOf(s', v) == if v == t then OwnersOf(s, v) + multiset{s.up[h]} else OwnersOf(s, v)
  {
    if v == t {
      assert s'.held[v][1..] == s.held[t];
    }
  }

  lemma ReferenceTaken(st: State, o: Addr, h: Addr, t: Addr, st1: State, st2: State)
    requires ValidState(st) && Allocated(st, o, h, st1) && Referenced(st1, h, t, st2)
    requires o != NULL && o in st.rank && t in st.rank && st.rank[o] < st.rank[t] && o in st.m.live
    requires t in st.m.live && t !in st.m.ptr
    ensures ValidState(st2) && st2.m.loop == {}
    ensures t in StateGraph(st) && StateGraph(st2) == AddOwner(StateGraph(st), t, o)
  {
    AllocatedRanks(st, o, h, t, st1);
    ReferencedState(st1, h, t, st2);
    ChunkInGraph(st, t);
    AddRemove(StateGraph(st), h, multiset{o});
  }

  lemma AllocatedRanks(st: State, o: Addr, h: Addr, t: Addr, st1: State)
    requires Allocated(st, o, h, st1) && o in st.rank && t in st.rank && st.rank[o] < st.rank[t]
    requires o in st.m.live && t in st.m.live
    ensures o in st1.rank && t in st1.rank && st1.rank[o] < st1.rank[t]
  {
  }

  lemma AddRemove<V>(g: map<Addr, V>, h: Addr, x: V)
    requires h !in g
    ensures g[h := x] - {h} == g
  {
  }

  // ----- new ranks

  lemma LiftState(st: State, a: Addr, n: nat, st': State)
    requires ValidState(st) && st.m.loop == {}
    requires st'.m == st.m && st'.shape == st.shape && st'.rank == Lift(StateGraph(st), st.rank, a, n)
    ensures ValidState(st')
  {
    forall c | c in st.m.live ensures RankAt(st.m.live, st.m.ptr, st.shape, st'.rank, c) {
      OwnerEdges(st, c);
      var v := Referent(st.m.ptr, c);
      if st.shape.up[c] != NULL && Reaches(StateGraph(st), a, st.shape.up[c]) {
        ReachesStep(StateGraph(st), a, st.shape.up[c], v);
      }
    }
  }

  /** Ranks that also allow the edge from `o` to `v`, when `v` does not own `o`. */
  lemma LiftAbove(st: State, v: Addr, o: Addr, st': State)
    requires ValidState(st) && st.m.loop == {} && v in StateGraph(st) && o in StateGraph(st)
    requires !Reaches(StateGraph(st), v, o) && o in st.rank
    requires st'.m == st.m && st'.shape == st.shape
    requires st'.rank == Lift(StateGraph(st), st.rank, v, st.rank[o] + 1)
    ensures ValidState(st') && o in st'.rank && v in st'.rank && st'.rank[o] < st'.rank[v]
  {
    LiftState(st, v, st.rank[o] + 1, st');
    ReachesSelf(StateGraph(st), v);
    ChunkInGraph(st, v);
    NodeFacts(st, v);
  }

  // ----- reading the owners of a chunk off its lists

  lemma HoldersSize(up: map<Addr, Addr>, hs: seq<Addr>)
    requires forall h :: h in hs ==> h in up
    ensures |Holders(up, hs)| == |hs|
  {
    if hs != [] {
      HoldersSize(up, hs[1..]);
    }
  }

  lemma OwnerCount(st: State, c: Addr)
    requires ValidState(st) && c in st.m.live && c !in st.m.ptr
    ensures c in StateGraph(st) && StateGraph(st)[c] == OwnersOf(st.shape, c)
    ensures |StateGraph(st)[c]| == 1 + |st.shape.held[c]|
    ensures st.shape.up[c] in StateGraph(st)[c]
    ensures NULL !in Holders(st.shape.up, st.shape.held[c])
    ensures c in st.m.refs && (st.m.refs[c] == NULL <==> st.shape.held[c] == [])
    ensures st.m.refs[c] != NULL ==>
              && st.m.refs[c] in st.m.hnd.next
              && (st.m.hnd.next[st.m.refs[c]] == NULL <==> |st.shape.held[c]| == 1)
  {
    NodeFacts(st, c);
    OwnerEdges(st, c);
    HoldersSize(st.shape.up, st.shape.held[c]);
    HoldersIn(st.shape.up, st.shape.held[c], NULL);
    forall h | h in st.shape.held[c] ensures st.shape.up[h] != NULL {
      NodeFacts(st, h);
    }
    assert HeldAt(st.m.live, st.shape, st.m.hnd, st.m.refs, c);
    var hs := st.shape.held[c];
    if hs != [] {
      assert Linked(st.m.hnd, hs, 0);
      assert |hs| > 1 ==> hs[1] in hs;
    }
  }

  /** The `i`-th handle on `c`, as met when walking the list. */
  lemma HandleStep(st: State, c: Addr, i: nat)
    requires ValidState(st) && c in st.m.live && i < |st.shape.held[c]|
    ensures var h := st.shape.held[c][i];
            && h in st.m.live && h in st.m.ptr && st.m.ptr[h] == c && h !in st.m.loop && h in st.m.hnd.next
            && h in st.m.refs && st.m.refs[h] == NULL
            && st.m.hnd.next[h] == if i + 1 < |st.shape.held[c]| then st.shape.held[c][i + 1] else NULL
    ensures NULL !in st.shape.held[c]
  {
    NodeFacts(st, c);
    assert HeldAt(st.m.live, st.shape, st.m.hnd, st.m.refs, c) && Linked(st.m.hnd, st.shape.held[c], i);
    var h := st.shape.held[c][i];
    assert h in st.shape.held[c];
    NodeFacts(st, h);
    HeadFields(st, h);
    assert h in st.m.loop ==> LoopAt(st.m.live, st.m.ptr, st.shape, st.m.parent, st.rank, h);
  }

  /** A chunk that has been taken off its list and has no parent any more. */
  lemma UnparentState(st: State, c: Addr, parent1: map<Addr, Addr>, st': State)
    requires ValidState(st) && c in st.m.live && c !in st.m.ptr && st.m.loop == {}
    requires st'.m == st.m.(sib := st'.m.sib, parent := parent1[c := NULL], child := st'.m.child)
    requires st'.shape == DetachShape(st.shape, c) && st'.rank == st.rank
    requires SiblingRep(st.m.live, st'.shape, st'.m.sib, parent1, st'.m.child, {c})
    ensures ValidState(st') && c in st.shape.up
    ensures StateGraph(st') == AddOwner(DropOwner(StateGraph(st), c, st.shape.up[c]), c, NULL)
  {
    NodeFacts(st, c);
    DetachWellShaped(st.m.live, st.m.ptr, st.shape, c);
    SameHandles(st.m.live, st.shape, st'.shape, st.m.hnd, st.m.refs);
    UpRank(st.m.live, st.m.ptr, st.shape, st'.shape, st.rank, c);
    MoveGraph(st.m.live, st.m.ptr, st.shape, st'.shape, c);
    ClearParent(st.m.live, st'.shape, st'.m.sib, parent1, st'.m.child, c);
  }

  lemma ClearParent(live: set<Addr>, s: Shape, sib: Links, parent: map<Addr, Addr>, child: map<Addr, Addr>, c: Addr)
    requires Forest(live, s) && SiblingRep(live, s, sib, parent, child, {c}) && c in live && s.up[c] == NULL
    ensures SiblingRep(live, s, sib, parent[c := NULL], child, {})
  {
    forall d | d in live
      ensures KidsAt(live, s, sib, parent[c := NULL], child, d) && RootAt(live, s, sib, parent[c := NULL], {}, d)
    {
      assert KidsAt(live, s, sib, parent, child, d) && RootAt(live, s, sib, parent, {c}, d) && TreeAt(live, s, d);
      assert forall i :: 0 <= i < |s.kids[d]| ==> s.kids[d][i] in s.kids[d];
    }
  }

  lemma ParentOfFresh(g: Graph, c: Addr, ctx: Addr)
    ensures AddOwner(DropOwner(g[c := multiset{NULL}], c, NULL), c, ctx) == g[c := multiset{ctx}]
  {
    ExchangeOwner(g[c := multiset{NULL}], c, NULL, ctx);
    assert multiset{NULL} - multiset{NULL} + multiset{ctx} == multiset{ctx};
    UpdateTwice(g, c, multiset{NULL}, multiset{ctx});
  }

  // ----- unlinking an owner

  /** The outcome of unlinking `ctx` from `c`: nothing happens when `ctx` is no owner; the last owner takes
      the chunk with it; otherwise exactly one owner edge goes. */
  ghost predicate Unlinked(st: State, ctx: Addr, c: Addr, status: int, st': State)
    requires c in StateGraph(st)
  {
    var g, g' := StateGraph(st), StateGraph(st');
    if ctx !in g[c] then status == -1 && st' == st
    else if |g[c]| == 1 then status == 0 && Freed(g, c, g')
    else status == 0 && g' == DropOwner(g, c, ctx)
  }

  lemma UnreferencedOwner(st: State, ctx: Addr, c: Addr, h: Addr, st': State)
    requires ValidState(st) && c in st.m.live && c !in st.m.ptr
    requires h in st.shape.held[c] && h in st.shape.up && st.shape.up[h] == ctx
    requires StateGraph(st') == DropOwner(StateGraph(st), c, ctx)
    ensures c in StateGraph(st) && Unlinked(st, ctx, c, 0, st')
  {
    OwnerCount(st, c);
    HoldersIn(st.shape.up, st.shape.held[c], ctx);
  }

  lemma FirstHolder(st: State, c: Addr)
    requires ValidState(st) && c in st.m.live && c in st.m.refs && st.m.refs[c] != NULL
    ensures st.m.refs[c] in st.shape.up
    ensures st.shape.up[st.m.refs[c]] in Holders(st.shape.up, st.shape.held[c])
  {
    HeadFields(st, c);
    HoldersIn(st.shape.up, st.shape.held[c], st.shape.up[st.m.refs[c]]);
  }

  /** Once its handle `h` is gone, the holder of `h` may become the parent of `c`. */
  lemma LastReference(st: State, c: Addr, h: Addr, st1: State)
    requires ValidState(st) && c in st.m.live && c !in st.m.ptr && h in st.shape.held[c]
    requires Dropped(st, h, st1) && st1.rank == st.rank
    ensures var p := st.shape.up[h];
            && c in st1.m.live && p in st1.m.live && p !in st1.m.ptr && Referent(st1.m.ptr, c) == c
            && p in st.rank && c in st.rank && st.rank[p] < st.rank[c]
            && c in st1.shape.up && st1.shape.up[c] == st.shape.up[c]
  {
    NodeFacts(st, c);
    NodeFacts(st, h);
  }

  lemma ParentUnlinked(st: State, c: Addr, h: Addr, st1: State, st2: State)
    requires ValidState(st) && c in st.m.live && c !in st.m.ptr && h in st.shape.held[c] && h in st.shape.up
    requires Dropped(st, h, st1) && StateGraph(st1) == DropOwner(StateGraph(st), c, st.shape.up[h])
    requires st1.rank == st.rank && Stolen(st1, st.shape.up[h], c, st2)
    ensures c in StateGraph(st) && Unlinked(st, st.shape.up[c], c, 0, st2)
  {
    LastReference(st, c, h, st1);
    OwnerCount(st, c);
    OwnerEdges(st, c);
    PromoteReference(StateGraph(st), c, st.shape.up[c], st.shape.up[h]);
  }

  /** The outcome of replacing the owner `o` of `c` by `n`. */
  ghost predicate Reparented(g: Graph, o: Addr, n: Addr, c: Addr, r: Addr, g': Graph)
    requires c in g
  {
    if o in g[c] then r == c && g' == AddOwner(DropOwner(g, c, o), c, n)
    else r == NULL && g' == g
  }

  /** The outcome of freeing `c`: the only owner of a chunk may free it; a root with one reference is left
      to the holder of that reference; otherwise nothing happens. */
  ghost predicate FreeVerdict(st: State, c: Addr, status: int, st': State)
    requires c in StateGraph(st)
  {
    var g, g' := StateGraph(st), StateGraph(st');
    if |g[c]| == 1 then status == 0 && Freed(g, c, g')
    else if |g[c]| == 2 && NULL in g[c] then status == 0 && g' == DropOwner(g, c, NULL)
    else status == -1 && st' == st
  }

  lemma OnlyOutcome(g: Graph, c: Addr, g': Graph)
    requires Freed(g, c, g')
    ensures KillsDominated(g, c, g') && c !in g' && forall h :: Freed(g, c, h) ==> h == g'
  {
    FreedKills(g, c, g');
    hide Freed;
    DiesItself(g, c, g');
    forall h | Freed(g, c, h) ensures h == g' {
      FreedUnique(g, c, h, g');
    }
  }

  lemma DiesItself(g: Graph, c: Addr, g': Graph)
    requires Freed(g, c, g')
    ensures c !in g'
  {
    assert c in g' ==> Survives(g, c, c);
  }

  /** What a free does.  With one owner the chunk goes, with exactly what it dominates, and there is only one
      graph that this can leave; a root with one reference is no root any more, and nobody goes; with other
      owners nothing changes.  Whatever happens, no handle is left that points at a freed chunk or hangs off
      one. */
  lemma FreeKills(st: State, c: Addr, status: int, st': State)
    requires c in StateGraph(st) && FreeVerdict(st, c, status, st') && ValidState(st')
    ensures var g, g' := StateGraph(st), StateGraph(st');
            if |g[c]| == 1 then
              status == 0 && KillsDominated(g, c, g') && c !in g' && forall h :: Freed(g, c, h) ==> h == g'
            else if |g[c]| == 2 && NULL in g[c] then
              status == 0 && g'.Keys == g.Keys && g' == DropOwner(g, c, NULL) && |g'[c]| == 1
            else status == -1 && st' == st
    ensures HandlesLive(st')
  {
    if |StateGraph(st)[c]| == 1 {
      OnlyOutcome(StateGraph(st), c, StateGraph(st'));
    }
    forall h | h in st'.m.ptr ensures HandleLive(st', h) {
      NoDanglingHandle(st', h);
    }
  }

  ghost predicate HandleLive(st: State, h: Addr) {
    h in st.m.ptr && st.m.ptr[h] in st.m.live && h in st.shape.up && st.shape.up[h] in st.m.live
  }

  ghost predicate HandlesLive(st: State) {
    forall h {:trigger HandleLive(st, h)} :: h in st.m.ptr ==> HandleLive(st, h)
  }

  /** A live handle refers to a live chunk, hangs off a live chunk, and that chunk is an owner. */
  lemma NoDanglingHandle(st: State, h: Addr)
    requires ValidState(st) && h in st.m.ptr
    ensures st.m.ptr[h] in st.m.live && st.m.ptr[h] !in st.m.ptr
    ensures h in st.shape.up && st.shape.up[h] in st.m.live
    ensures st.m.ptr[h] in StateGraph(st) && st.shape.up[h] in StateGraph(st)[st.m.ptr[h]]
  {
    NodeFacts(st, h);
    OwnerEdges(st, h);
  }
}
