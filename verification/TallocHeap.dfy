/** The ownership operations of talloc on a heap of chunks and reference handles. */
module TallocHeap {
  import opened Memory
  import opened Lists
  import opened OwnershipGraph
  import opened TallocShape
  import opened TallocGrowth
  import opened TallocMove

  const TALLOC_MAX_DEPTH: nat := 10000
  const MAX_TALLOC_SIZE: nat := 0x10000000

  /** Flagging one more chunk is what makes the recursion end. */
  lemma FlagOneMore(live: set<Addr>, loop: set<Addr>, rank: map<Addr, nat>, c: Addr)
    requires c in live && c !in loop && LoopBelow(loop, rank, c)
    ensures LoopBelow(loop + {c}, rank, c)
    ensures live - (loop + {c}) < live - loop
  {
    assert c in live - loop;
  }

  class Heap {
    var m: Mem
    ghost var shape: Shape          // what the pointers in `m` mean
    ghost var rank: map<Addr, nat>   // a witness that ownership has no cycle

    ghost function View(): State
      reads this
    {
      State(m, shape, rank)
    }

    ghost predicate Valid()
      reads this
    {
      ValidState(View())
    }

    ghost function Graph(): Graph
      reads this
    {
      StateGraph(View())
    }

    /** Between two calls of the interface no free is in progress. */
    ghost predicate Idle()
      reads this
    {
      Valid() && m.loop == {}
    }

    ghost predicate IsChunk(c: Addr)
      reads this
    {
      c in m.live && c !in m.ptr
    }

    constructor ()
      ensures Idle() && Graph() == map[]
    {
      m := Mem({}, Links(map[], map[]), map[], map[], map[], Links(map[], map[]), map[], {});
      shape := Shape(map[], map[], map[]);
      rank := map[];
    }

    /** `talloc_parent_chunk`: walk back to the first sibling, which knows the parent. */
    method ParentOf(c: Addr) returns (p: Addr)
      requires Valid() && c in m.live
      ensures c in shape.up && (c !in m.loop ==> p == shape.up[c])
      ensures c in m.loop ==> c in m.parent && p == m.parent[c]
    {
      var tc := c;
      ghost var up := shape.up[c];
      assert TreeAt(m.live, shape, c) && RootAt(m.live, shape, m.sib, m.parent, m.loop, c);
      assert c in m.loop ==> LoopAt(m.live, m.ptr, shape, m.parent, rank, c);
      ghost var i: nat := 0;
      if up != NULL {
        assert KidsAt(m.live, shape, m.sib, m.parent, m.child, up);
        i := IndexOf(shape.kids[up], c);
        assert Linked(m.sib, shape.kids[up], i);
      }
      while m.sib.prev[tc] != NULL
        invariant tc in m.sib.prev
        invariant up == NULL ==> tc == c
        invariant up != NULL ==>
                    i < |shape.kids[up]| && shape.kids[up][i] == tc && Linked(m.sib, shape.kids[up], i)
        decreases i
      {
        tc := m.sib.prev[tc];
        i := i - 1;
        assert Linked(m.sib, shape.kids[up], i);
      }
      p := m.parent[tc];
    }

    /** `_talloc_is_parent`: is `c` met on the way from the handle `h` to the root?  A reference on `c` is
        never held below `c`, for ownership has no cycle. */
    method IsParent(h: Addr, c: Addr) returns (r: bool)
      requires Valid() && c in m.live && c !in m.ptr && h in m.ptr && m.ptr[h] == c
      ensures !r
    {
      var tc, depth := h, TALLOC_MAX_DEPTH;
      NodeFacts(View(), h);
      NodeFacts(View(), c);
      while tc != NULL
        invariant tc != NULL ==> tc in m.live && (tc == h || (tc !in m.ptr && tc in rank && rank[tc] < rank[c]))
        decreases depth
      {
        if depth == 0 {
          return false;
        }
        if tc == c {
          return true;
        }
        ParentRank(View(), tc);
        tc := ParentOf(tc);
        depth := depth - 1;
      }
      return false;
    }

    /** The pointer updates that take `c` off its sibling list; its `parent` field keeps its value. */
    method Unhook(c: Addr)
      requires Forest(m.live, shape) && SiblingRep(m.live, shape, m.sib, m.parent, m.child, m.loop)
      requires c in m.live && c !in m.loop
      modifies `m
      ensures m == old(m).(sib := m.sib, parent := m.parent, child := m.child)
      ensures shape.up[c] == NULL ==> m == old(m)
      ensures shape.up[c] != NULL ==>
                Bypassed(shape, c, old(m).sib, old(m).parent, old(m).child, m.sib, m.parent, m.child)
      ensures c in old(m).parent && (old(m).parent[c] == NULL || old(m).parent[c] == shape.up[c])
    {
      assert TreeAt(m.live, shape, c) && RootAt(m.live, shape, m.sib, m.parent, m.loop, c);
      if shape.up[c] != NULL {
        assert KidsAt(m.live, shape, m.sib, m.parent, m.child, shape.up[c]);
        ghost var s := shape.kids[shape.up[c]];
        ghost var i := IndexOf(s, c);
        assert Linked(m.sib, s, i);
        assert i > 0 ==> Linked(m.sib, s, i - 1) && s[i - 1] in s;
        assert i + 1 < |s| ==> Linked(m.sib, s, i + 1) && s[i + 1] in s;
      }
      var sib, parent, child := m.sib, m.parent, m.child;
      if parent[c] != NULL {
        var head;
        sib, head := TlistRemove(sib, child[parent[c]], c, shape.kids[shape.up[c]]);
        child := child[parent[c] := head];
        if child[parent[c]] != NULL {
          parent := parent[child[parent[c]] := parent[c]];
        }
      } else {
        if sib.prev[c] != NULL {
          sib := sib.(next := sib.next[sib.prev[c] := sib.next[c]]);
        }
        if sib.next[c] != NULL {
          sib := sib.(prev := sib.prev[sib.next[c] := sib.prev[c]]);
        }
        sib := Links(sib.next[c := NULL], sib.prev[c := NULL]);
        assert shape.up[c] == NULL ==> sib.next == m.sib.next && sib.prev == m.sib.prev;
      }
      m := m.(sib := sib, parent := parent, child := child);
    }

    /** Take `c` off its sibling list. */
    method Detach(c: Addr)
      requires Forest(m.live, shape) && SiblingRep(m.live, shape, m.sib, m.parent, m.child, m.loop)
      requires c in m.live && c !in m.loop
      modifies `m, `shape
      ensures m == old(m).(sib := m.sib, parent := m.parent, child := m.child)
      ensures shape == DetachShape(old(shape), c)
      ensures Forest(m.live, shape) && SiblingRep(m.live, shape, m.sib, m.parent, m.child, m.loop + {c})
      ensures c in m.parent && c in old(shape).up && (m.parent[c] == NULL || m.parent[c] == old(shape).up[c])
      ensures RootsKept(m.live, old(shape), c, old(m).parent, m.parent)
    {
      ghost var m0 := m;
      DetachForest(m.live, shape, c);
      Unhook(c);
      if shape.up[c] == NULL {
        DetachNothing(m.live, shape, m.sib, m.parent, m.child, m.loop, c);
      } else {
        DetachRep(m.live, shape, m0.sib, m0.parent, m0.child, m.loop, c, m.sib, m.parent, m.child);
      }
      shape := DetachShape(shape, c);
    }

    /** Hook `c` in front of the children of `p`. */
    method Attach(p: Addr, c: Addr)
      requires Forest(m.live, shape) && SiblingRep(m.live, shape, m.sib, m.parent, m.child, m.loop + {c})
      requires p in m.live && c in m.live && shape.up[c] == NULL
      modifies `m, `shape
      ensures m == old(m).(sib := m.sib, parent := m.parent, child := m.child)
      ensures shape == AttachShape(old(shape), p, c)
      ensures Forest(m.live, shape) && SiblingRep(m.live, shape, m.sib, m.parent, m.child, m.loop)
      ensures RootsKept(m.live, old(shape), c, old(m).parent, m.parent)
    {
      assert TreeAt(m.live, shape, p) && KidsAt(m.live, shape, m.sib, m.parent, m.child, p);
      var parent := m.parent[c := p];
      if m.child[p] != NULL {
        parent := parent[m.child[p] := NULL];
      }
      var sib, head := TlistAdd(m.sib, m.child[p], c, shape.kids[p]);
      AttachForest(m.live, shape, p, c);
      AttachRep(m.live, shape, m.sib, m.parent, m.child, m.loop, p, c, sib, parent);
      m := m.(sib := sib, parent := parent, child := m.child[p := head]);
      shape := AttachShape(shape, p, c);
    }

    /** Free a reference handle: its destructor takes it off the list of the chunk it refers to, then it
        leaves the children of its holder. */
    method FreeHandle(h: Addr)
      requires Valid() && h in m.ptr
      modifies `m, `shape
      ensures Valid() && Dropped(old(View()), h, View())
      ensures Graph() == DropOwner(old(Graph()), old(m).ptr[h], old(shape.up[h]))
    {
      ghost var st := View();
      NodeFacts(st, h);
      ghost var t := m.ptr[h];
      assert HeldAt(m.live, shape, m.hnd, m.refs, t);
      assert h in m.loop ==> LoopAt(m.live, m.ptr, shape, m.parent, rank, h);
      var hnd, head := TlistRemove(m.hnd, m.refs[m.ptr[h]], h, shape.held[t]);
      m := m.(hnd := hnd, refs := m.refs[m.ptr[h] := head]);
      Detach(h);
      m := m.(live := m.live - {h}, ptr := m.ptr - {h});
      shape := DropShape(st.shape, t, h);
      DropState(st, h, View());
    }

    /** `_talloc_steal_internal` for a new parent that is a chunk: `c` hangs off `p` afterwards, whatever
        owned it before.  Nothing moves when `c` is already the first child of `p`. */
    method StealInternal(p: Addr, c: Addr)
      requires Valid() && c in m.live && c !in m.loop && p in m.live && p !in m.ptr
      requires var v := Referent(m.ptr, c); p in rank && v in rank && rank[p] < rank[v]
      modifies `m, `shape
      ensures Stolen(old(View()), p, c, View())
    {
      ParentField(View(), c);
      if c == p || m.parent[c] == p {
        StolenAlready(View(), p, c);
        return;
      }
      ghost var st := View();
      Detach(c);
      ghost var parent1 := m.parent;
      Attach(p, c);
      MoveState(st, p, c, parent1, View());
    }

    /** `_tc_free_internal`, see `FreeOutcome`. */
    method FreeInternal(c: Addr) returns (status: int)
      requires Valid() && c in m.live && c !in m.loop
      requires c !in m.ptr ==> LoopBelow(m.loop, rank, c)
      modifies `m, `shape
      ensures FreeOutcome(old(View()), c, status, View())
      decreases m.live - m.loop, if c in m.refs && m.refs[c] != NULL then 5 else 4
    {
      ghost var st := View();
      HeadFields(st, c);
      if m.refs[c] != NULL {
        var h := m.refs[c];
        var isChild := IsParent(h, c);
        var _ := FreeInternal(h);
        if isChild {
          assert false;
        }
        ReferencedOutcome(st, c, View());
        return -1;
      }
      if c in m.loop {
        assert false;
      }
      if c in m.ptr {
        FreeHandle(c);
        HandleOutcome(st, c, View());
      } else {
        FreeUnreferenced(c);
      }
      return 0;
    }

    /** The rest of `_tc_free_internal`, for a chunk without references. */
    method FreeUnreferenced(c: Addr)
      requires Valid() && c in m.live && c !in m.loop && c !in m.ptr && c in m.refs && m.refs[c] == NULL
      requires LoopBelow(m.loop, rank, c)
      modifies `m, `shape
      ensures FreeOutcome(old(View()), c, 0, View())
      decreases m.live - m.loop, 3
    {
      ghost var st0 := View();
      HeadFields(st0, c);
      hide Consistent, Partial, Freed;
      DetachForFree(c);
      ghost var g1 := Graph();
      FlagOneMore(st0.m.live, st0.m.loop, rank, c);
      FreeChildren(c);
      ghost var st := View();
      m := m.(live := m.live - {c}, loop := m.loop - {c});
      shape := Forget(shape, c);
      FreedAtEnd(st0, c, st, g1, View());
    }

    /** The unreferenced chunk `c` leaves its list and gets the loop flag. */
    method DetachForFree(c: Addr)
      requires Valid() && c in m.live && c !in m.loop && c !in m.ptr && shape.held[c] == []
      modifies `m, `shape
      ensures Valid() && m == old(m).(sib := m.sib, parent := m.parent, child := m.child, loop := old(m).loop + {c})
      ensures c in old(Graph()) && Graph() == old(Graph())[c := multiset{NULL}]
    {
      ghost var st := View();
      Detach(c);
      m := m.(loop := m.loop + {c});
      DetachState(st, c, View());
    }

    /** `_tc_free_children_internal`: every child is freed, or handed over to the holder of its first
        reference. */
    method FreeChildren(c: Addr)
      requires Valid() && c in m.live && c !in m.ptr && LoopBelow(m.loop, rank, c)
      modifies `m, `shape
      ensures Valid() && m.loop == old(m).loop && m.live <= old(m).live
      ensures c in m.live && c !in m.ptr && shape.kids[c] == []
      ensures Partial(old(Graph()), c, Graph())
      decreases m.live - m.loop, 7
    {
      hide Consistent, Partial;
      ghost var g0 := Graph();
      StateRanked(View());
      ChunkInGraph(View(), c);
      PartialStart(g0, rank, c);
      HeadFields(View(), c);
      while m.child[c] != NULL
        invariant Valid() && m.loop == old(m).loop && m.live <= old(m).live && c in m.live && c !in m.ptr
        invariant c in m.child && (m.child[c] == NULL <==> shape.kids[c] == [])
        invariant Partial(g0, c, Graph())
        decreases m.live
      {
        FreeFirstChild(c, g0);
        PartialKeeps(g0, c, Graph());
        ChunkInGraph(View(), c);
        HeadFields(View(), c);
      }
    }

    /** One round of the loop over the children of `c`: the first child loses the owner `c`. */
    method FreeFirstChild(c: Addr, ghost g0: Graph)
      requires Valid() && c in m.live && c !in m.ptr && LoopBelow(m.loop, rank, c)
      requires c in m.child && m.child[c] != NULL
      requires Partial(g0, c, Graph())
      modifies `m, `shape
      ensures Valid() && m.loop == old(m).loop && m.live < old(m).live
      ensures Partial(g0, c, Graph())
      decreases m.live - m.loop, 6
    {
      ghost var st0 := View();
      FirstChild(st0, c);
      var k := m.child[c];
      HeadFields(st0, k);
      var newParent := NULL;
      if m.refs[k] != NULL {
        newParent := ParentOf(m.refs[k]);
      }
      if k !in m.ptr {
        RankAbove(m.loop, rank, c, k);
      }
      var status := FreeInternal(k);
      if status == -1 {
        ghost var st1 := View();
        ReadyToSteal(st0, c, st1);
        var p := ParentOf(k);
        if p == c {
          StealInternal(newParent, k);
        }
        HandedOver(g0, c, st0, st1, View());
      } else if k in st0.m.ptr {
        HandleFreed(g0, c, st0, View());
      } else {
        ChildFreed(g0, c, st0, View());
      }
    }

    // ----- the interface

    /** `__talloc_with_prefix`: a new chunk below `ctx`, or without parent when `ctx` is NULL.  `block` is
        the memory that was found for it, NULL when there was none. */
    method Alloc(ctx: Addr, block: Addr) returns (r: Addr)
      requires Idle() && (ctx == NULL || IsChunk(ctx)) && block !in m.live
      modifies this
      ensures Idle() && r == block
      ensures block == NULL ==> View() == old(View())
      ensures block != NULL ==> Allocated(old(View()), ctx, block, View())
    {
      if block == NULL {
        return NULL;
      }
      ghost var st := View();
      m, shape := FreshMem(m, block), FreshShape(shape, block);
      rank := rank[block := if ctx in st.rank then st.rank[ctx] + 1 else 0];
      AllocatedRoot(st, block, rank[block], View());
      if ctx != NULL {
        ghost var st1 := View();
        NodeFacts(st, ctx);
        NodeFacts(st1, ctx);
        HookFresh(ctx, block);
        AllocatedBelow(st, ctx, block, st1, View());
      }
      return block;
    }

    /** The new chunk `c` becomes the first child of `p`. */
    method HookFresh(p: Addr, c: Addr)
      requires Idle() && IsChunk(p) && IsChunk(c) && shape.up[c] == NULL && c !in shape.kids[p]
      requires p in rank && c in rank && rank[p] < rank[c]
      modifies `m, `shape
      ensures Stolen(old(View()), p, c, View()) && shape.kids[c] == old(shape).kids[c]
    {
      ghost var st := View();
      DetachNothing(m.live, shape, m.sib, m.parent, m.child, m.loop, c);
      Attach(p, c);
      MoveState(st, p, c, st.m.parent, View());
    }

    /** `_talloc_reference_loc`: `ctx` becomes one more owner of `t`, through a handle at `block`.  A
        reference must not make a chunk own itself. */
    method Reference(ctx: Addr, t: Addr, block: Addr) returns (r: Addr)
      requires Idle() && IsChunk(ctx) && block !in m.live
      requires t == NULL || (IsChunk(t) && !Reaches(Graph(), t, ctx))
      modifies this
      ensures Idle()
      ensures r == if block == NULL then NULL else t
      ensures r == NULL ==> m == old(m) && Graph() == old(Graph())
      ensures r != NULL ==> t in old(Graph()) && Graph() == AddOwner(old(Graph()), t, ctx)
    {
      if t == NULL {
        return NULL;
      }
      MakeRoom(ctx, t);
      ghost var st0 := View();
      var h := Alloc(ctx, block);
      if h == NULL {
        return NULL;
      }
      ghost var st1 := View();
      HookHandle(h, t);
      ReferenceTaken(st0, ctx, h, t, st1, View());
      return t;
    }

    /** The chunk `h` becomes the first reference handle on `t`. */
    method HookHandle(h: Addr, t: Addr)
      requires Idle() && IsChunk(h) && IsChunk(t) && h != t
      requires shape.kids[h] == [] && shape.held[h] == [] && shape.up[h] != NULL
      modifies `m, `shape
      ensures Referenced(old(View()), h, t, View())
    {
      ghost var st1 := View();
      NodeFacts(st1, h);
      NodeFacts(st1, t);
      assert HeldAt(m.live, shape, m.hnd, m.refs, t);
      var hnd, head := TlistAdd(m.hnd, m.refs[t], h, shape.held[t]);
      m := m.(ptr := m.ptr[h := t], hnd := hnd, refs := m.refs[t := head]);
      shape := Shape(shape.kids, shape.up, shape.held[t := [h] + shape.held[t]]);
    }

    /** Only the witness changes: `v` gets a rank above `o`, which `v` does not own. */
    ghost method MakeRoom(o: Addr, v: Addr)
      requires Idle() && IsChunk(o) && IsChunk(v) && !Reaches(Graph(), v, o)
      modifies `rank
      ensures Idle() && o in rank && v in rank && rank[o] < rank[v]
    {
      ChunkInGraph(View(), o);
      ChunkInGraph(View(), v);
      NodeFacts(View(), o);
      ghost var st := View();
      rank := Lift(Graph(), rank, v, rank[o] + 1);
      LiftAbove(st, v, o, View());
    }

    /** `_talloc_free_children`, for a context whose name is not one of its children. */
    method FreeChildrenOf(c: Addr)
      requires Idle() && (c == NULL || IsChunk(c))
      modifies `m, `shape
      ensures Idle()
      ensures c == NULL ==> View() == old(View())
      ensures c != NULL ==> ChildrenFreed(old(Graph()), c, Graph())
    {
      if c == NULL {
        return;
      }
      ghost var g := Graph();
      NodeFacts(View(), c);
      FreeChildren(c);
      AllChildrenFreed(g, c, View());
    }

    /** `_talloc_steal_loc`: exchange the parent of `c`. */
    method Steal(ctx: Addr, c: Addr) returns (r: Addr)
      requires Idle() && (c == NULL || IsChunk(c)) && (ctx == NULL || IsChunk(ctx))
      requires c != NULL && ctx != NULL && ctx != c ==> !Reaches(Graph(), c, ctx)
      modifies `m, `shape, `rank
      ensures Idle() && r == c
      ensures c == NULL || c == ctx ==> m == old(m) && Graph() == old(Graph())
      ensures c != NULL && c != ctx ==>
                && c in old(shape).up
                && Graph() == AddOwner(DropOwner(old(Graph()), c, old(shape).up[c]), c, ctx)
    {
      if c == NULL {
        return NULL;
      }
      if ctx != c {
        MoveParent(ctx, c);
      }
      return c;
    }

    /** `_talloc_steal_internal` without a new parent: `c` becomes a root. */
    method StealToNone(c: Addr)
      requires Idle() && IsChunk(c)
      modifies `m, `shape
      ensures Idle() && c in old(shape).up
      ensures Graph() == AddOwner(DropOwner(old(Graph()), c, old(shape).up[c]), c, NULL)
    {
      ghost var st := View();
      Detach(c);
      ghost var parent1 := m.parent;
      assert m.loop + {c} == {c};
      m := m.(parent := m.parent[c := NULL]);
      UnparentState(st, c, parent1, View());
    }

    /** `talloc_reparent`: the owner `o` of `c`, be it the parent or a reference, is replaced by `n`.
        A reference is never handed to NULL. */
    method Reparent(o: Addr, n: Addr, c: Addr) returns (r: Addr)
      requires Idle() && (c == NULL || IsChunk(c))
      requires c != NULL && n != NULL ==> IsChunk(n) && !Reaches(Graph(), c, n)
      requires c != NULL && n == NULL ==> c in shape.up && shape.up[c] == o
      modifies `m, `shape, `rank
      ensures Idle()
      ensures c == NULL ==> r == NULL && View() == old(View())
      ensures c != NULL ==> c in old(Graph()) && Reparented(old(Graph()), o, n, c, r, Graph())
    {
      if c == NULL {
        return NULL;
      }
      ghost var st0 := View();
      OwnerCount(st0, c);
      var p := ParentOf(c);
      if o == p {
        MoveParent(n, c);
        return c;
      }
      var h := FindHandle(o, c);
      if h == NULL {
        return NULL;
      }
      MoveHandle(n, c, h);
      return c;
    }

    /** `_talloc_steal_internal` for a chunk. */
    method MoveParent(n: Addr, c: Addr)
      requires Idle() && IsChunk(c) && (n != NULL ==> IsChunk(n) && !Reaches(Graph(), c, n))
      modifies `m, `shape, `rank
      ensures Idle() && c in old(shape).up
      ensures Graph() == AddOwner(DropOwner(old(Graph()), c, old(shape).up[c]), c, n)
    {
      if n == NULL {
        StealToNone(c);
      } else {
        MakeRoom(n, c);
        StealInternal(n, c);
      }
    }

    /** Hand the reference `h` on `c` over to `n`. */
    method MoveHandle(n: Addr, c: Addr, h: Addr)
      requires Idle() && IsChunk(c) && IsChunk(n) && !Reaches(Graph(), c, n) && h in shape.held[c]
      modifies `m, `shape, `rank
      ensures Idle() && c in old(Graph()) && h in old(shape).up
      ensures Reparented(old(Graph()), old(shape).up[h], n, c, c, Graph())
    {
      MakeRoom(n, c);
      ghost var st := View();
      HandleStep(st, c, IndexOf(shape.held[c], h));
      OwnerCount(st, c);
      OwnerEdges(st, h);
      StealInternal(n, h);
    }

    /** The walk along the references on `c` for the first one held by `o`. */
    method FindHandle(o: Addr, c: Addr) returns (h: Addr)
      requires Idle() && IsChunk(c)
      ensures h == NULL ==> o !in Holders(shape.up, shape.held[c])
      ensures h != NULL ==>
                && h in shape.held[c] && h in m.ptr && m.ptr[h] == c && h in m.live && h in shape.up && shape.up[h] == o
                && h !in m.loop && h in m.refs && m.refs[h] == NULL
    {
      ghost var st := View();
      HeadFields(st, c);
      NodeFacts(st, c);
      ghost var i: nat := 0;
      ghost var hs := shape.held[c];
      assert NULL !in hs;
      h := m.refs[c];
      while h != NULL
        invariant i <= |hs| && h == (if i < |hs| then hs[i] else NULL)
        invariant forall j :: 0 <= j < i ==> hs[j] in shape.up && shape.up[hs[j]] != o
        decreases |hs| - i
      {
        HandleStep(st, c, i);
        var p := ParentOf(h);
        if p == o {
          return h;
        }
        h := m.hnd.next[h];
        i := i + 1;
      }
      HoldersIn(shape.up, hs, o);
    }

    /** `talloc_unreference`: drop the first reference on `c` that hangs off `ctx`. */
    method Unreference(ctx: Addr, c: Addr) returns (status: int, h: Addr)
      requires Idle() && IsChunk(c)
      modifies `m, `shape
      ensures Idle()
      ensures c in old(shape).held
      ensures status == -1 ==> View() == old(View()) && ctx !in Holders(shape.up, shape.held[c])
      ensures status != -1 ==>
                && status == 0 && h in old(shape).held[c] && h in old(shape).up && old(shape).up[h] == ctx
                && Dropped(old(View()), h, View()) && Graph() == DropOwner(old(Graph()), c, ctx)
    {
      h := FindHandle(ctx, c);
      if h == NULL {
        return -1, h;
      }
      status := FreeInternal(h);
    }

    /** `talloc_unlink`: take the owner `ctx` away from `c`. */
    method Unlink(ctx: Addr, c: Addr) returns (status: int)
      requires Idle() && (c == NULL || IsChunk(c)) && (ctx == NULL || IsChunk(ctx))
      modifies `m, `shape
      ensures Idle()
      ensures c == NULL ==> status == -1 && View() == old(View())
      ensures c != NULL ==> c in old(Graph()) && Unlinked(old(View()), ctx, c, status, View())
    {
      if c == NULL {
        return -1;
      }
      ghost var st := View();
      OwnerCount(st, c);
      var h;
      status, h := Unreference(ctx, c);
      if status == 0 {
        UnreferencedOwner(st, ctx, c, h, View());
        return 0;
      }
      var p := ParentOf(c);
      if ctx != p {
        return -1;
      }
      if m.refs[c] == NULL {
        NodeFacts(st, c);
        status := FreeInternal(c);
        return status;
      }
      HeadFields(st, c);
      FirstHolder(st, c);
      var newParent := ParentOf(m.refs[c]);
      var again, h1 := Unreference(newParent, c);
      if again != 0 {
        assert false;
      }
      ghost var st1 := View();
      LastReference(st, c, h1, st1);
      StealInternal(newParent, c);
      ParentUnlinked(st, c, h1, st1, View());
      return 0;
    }

    /** `_talloc_free`: refuses a referenced chunk, unless it is a root with a single reference.  A chunk with one
        owner is freed, together with exactly the chunks that it dominates. */
    method Free(c: Addr) returns (status: int)
      requires Idle() && (c == NULL || IsChunk(c))
      modifies `m, `shape
      ensures Idle()
      ensures c == NULL ==> status == -1 && View() == old(View())
      ensures c != NULL ==> c in old(Graph()) && FreeVerdict(old(View()), c, status, View())
      ensures c != NULL && |old(Graph())[c]| == 1 ==> status == 0 && KillsDominated(old(Graph()), c, Graph())
      ensures c != NULL ==> HandlesLive(View())
    {
      status := FreeChunk(c);
      if c != NULL {
        FreeKills(old(View()), c, status, View());
      }
    }

    method FreeChunk(c: Addr) returns (status: int)
      requires Idle() && (c == NULL || IsChunk(c))
      modifies `m, `shape
      ensures Idle()
      ensures c == NULL ==> status == -1 && View() == old(View())
      ensures c != NULL ==> c in old(Graph()) && FreeVerdict(old(View()), c, status, View())
    {
      if c == NULL {
        return -1;
      }
      ghost var st := View();
      OwnerCount(st, c);
      if m.refs[c] != NULL {
        var p := ParentOf(c);
        if p == NULL && m.hnd.next[m.refs[c]] == NULL {
          status := Unlink(NULL, c);
          return status;
        }
        return -1;
      }
      NodeFacts(st, c);
      status := FreeInternal(c);
    }

    /** `_talloc_realloc` outside pools.  `block` is where the chunk of `size` bytes ends up: its old place,
        a new one, or NULL when memory ran out. */
    method Realloc(ctx: Addr, c: Addr, size: nat, block: Addr) returns (r: Addr)
      requires Idle() && (c == NULL || IsChunk(c)) && (ctx == NULL || IsChunk(ctx))
      requires block !in m.live || block == c
      modifies this
      ensures Idle()
      ensures size == 0 ==> r == NULL && (c == NULL ==> View() == old(View()))
      ensures size == 0 && c != NULL ==>
                c in old(Graph()) && exists status :: Unlinked(old(View()), ctx, c, status, View())
      ensures size != 0 && c == NULL ==> r == (if size < MAX_TALLOC_SIZE then block else NULL)
      ensures size != 0 && c == NULL && r != NULL ==> Allocated(old(View()), ctx, block, View())
      ensures size != 0 && c != NULL ==>
                && c in old(Graph())
                && r == if size < MAX_TALLOC_SIZE && |old(Graph())[c]| == 1 then block else NULL
      ensures size != 0 && c != NULL && r != NULL && r != c ==> SameUpToName(old(Graph()), c, r, Graph())
      ensures size != 0 && (r == NULL || r == c) ==> View() == old(View())
    {
      if size == 0 {
        var status := Unlink(ctx, c);
        return NULL;
      }
      if c != NULL {
        OwnerCount(View(), c);
      }
      if size >= MAX_TALLOC_SIZE {
        return NULL;
      }
      if c == NULL {
        r := Alloc(ctx, block);
        return;
      }
      if m.refs[c] != NULL || block == NULL {
        return NULL;
      }
      if block != c {
        MoveChunk(c, block);
      }
      return block;
    }

    /** The end of `_talloc_realloc`: the structure now lives at `b`, and the pointers to it follow. */
    method MoveChunk(c: Addr, b: Addr)
      requires Idle() && IsChunk(c) && shape.held[c] == [] && b != NULL && b !in m.live
      modifies this
      ensures Idle() && SameUpToName(old(Graph()), c, b, Graph())
    {
      ghost var st := View();
      NodeFacts(st, c);
      OpenMove(st, c, b);
      NeighboursOf(st, c, b);
      var next, prev := m.sib.next[b := m.sib.next[c]], m.sib.prev[b := m.sib.prev[c]];
      var parent, child := m.parent[b := m.parent[c]], m.child[b := m.child[c]];
      var tc := b;
      if parent[tc] != NULL {
        child := child[parent[tc] := tc];
      }
      if child[tc] != NULL {
        parent := parent[child[tc] := tc];
      }
      if prev[tc] != NULL {
        next := next[prev[tc] := tc];
      }
      if next[tc] != NULL {
        prev := prev[next[tc] := tc];
      }
      m := m.(live := m.live - {c} + {b}, sib := Links(next, prev), parent := parent, child := child,
              refs := m.refs[b := m.refs[c]]);
      shape := MovedShape(st.m.live, st.shape, c, b);
      rank := rank[b := rank[c]];
      MovedState(st, c, b, View());
    }
  }
}
