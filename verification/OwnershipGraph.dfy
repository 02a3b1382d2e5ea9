/** The ownership graph behind a talloc heap: who keeps whom alive.

    A graph maps every live chunk to the multiset of its owners, one occurrence for the parent edge and
    one for each reference.  The address `NULL` as an owner stands for "no parent": such a chunk is a
    root and stays until somebody frees it. */
module OwnershipGraph {
  import opened Memory

  type Graph = map<Addr, multiset<Addr>>

  /** `v` has an owner, and all its owners are live and of lower rank. */
  ghost predicate RankedAt(g: Graph, rank: map<Addr, nat>, v: Addr)
    requires v in g
  {
    && v in rank && g[v] != multiset{}
    && forall o :: o in g[v] && o != NULL ==> o in g && o in rank && rank[o] < rank[v]
  }

  /** `rank` grows along every edge: the graph has no cycle. */
  ghost predicate Ranked(g: Graph, rank: map<Addr, nat>) {
    && NULL !in g && g.Keys <= rank.Keys
    && forall v {:trigger RankedAt(g, rank, v)} :: v in g ==> RankedAt(g, rank, v)
  }

  /** An ownership path: it starts at a root and follows owner edges. */
  ghost predicate IsPath(g: Graph, p: seq<Addr>) {
    && p != []
    && (forall i :: 0 <= i < |p| ==> p[i] in g)
    && NULL in g[p[0]]
    && (forall i :: 0 < i < |p| ==> p[i - 1] in g[p[i]])
  }

  ghost predicate PathAvoiding(g: Graph, x: Addr, v: Addr, p: seq<Addr>) {
    IsPath(g, p) && p[|p| - 1] == v && x !in p
  }

  /** `v` is kept alive by an ownership path that does not go through `x`. */
  ghost predicate Survives(g: Graph, x: Addr, v: Addr) {
    exists p :: PathAvoiding(g, x, v, p)
  }

  /** The owner `o` lets go of `v` once. */
  ghost function DropOwner(g: Graph, v: Addr, o: Addr): Graph {
    if v in g then g[v := g[v] - multiset{o}] else g
  }

  /** The owner `o` takes hold of `v` once more. */
  ghost function AddOwner(g: Graph, v: Addr, o: Addr): Graph {
    if v in g then g[v := g[v] + multiset{o}] else g
  }

  /** Exchanging one owner for another. */
  lemma ExchangeOwner(g: Graph, v: Addr, o: Addr, o': Addr)
    requires v in g
    ensures AddOwner(DropOwner(g, v, o), v, o') == g[v := g[v] - multiset{o} + multiset{o'}]
  {
  }

  lemma KeepOwner(g: Graph, v: Addr, o: Addr)
    requires v in g && o in g[v]
    ensures AddOwner(DropOwner(g, v, o), v, o) == g
  {
    assert g[v] - multiset{o} + multiset{o} == g[v];
    ExchangeOwner(g, v, o, o);
  }

  lemma MultisetSwap(ms: multiset<Addr>, a: Addr, b: Addr)
    requires multiset{a} + multiset{b} <= ms
    ensures ms - multiset{b} - multiset{a} + multiset{b} == ms - multiset{a}
  {
  }

  /** Turning a reference held by `b` into the parent edge, in place of the parent `a`. */
  lemma PromoteReference(g: Graph, v: Addr, a: Addr, b: Addr)
    requires v in g && multiset{a} + multiset{b} <= g[v]
    ensures AddOwner(DropOwner(DropOwner(g, v, b), v, a), v, b) == DropOwner(g, v, a)
  {
    var x, y := g[v] - multiset{b}, g[v] - multiset{a};
    MultisetSwap(g[v], a, b);
    ExchangeOwner(g[v := x], v, a, b);
    UpdateTwice(g, v, x, y);
  }

  lemma UpdateTwice<V>(g: map<Addr, V>, v: Addr, x: V, y: V)
    ensures g[v := x][v := y] == g[v := y]
  {
  }

  /** `h` is what `g` becomes when `x` is freed: exactly the chunks dominated by `x` are gone, and every
      survivor has kept each of its surviving owners, as often as before. */
  ghost predicate Freed(g: Graph, x: Addr, h: Graph) {
    && (forall v {:trigger Survives(g, x, v)} :: v in h <==> v in g && Survives(g, x, v))
    && OwnersKept(g, h)
  }

  /** `h` is what `g` becomes when all children and references of `c` are dropped: `c` stays with its own
      owners and owns nothing, and exactly the chunks that depended on `c` are gone. */
  ghost predicate ChildrenFreed(g: Graph, c: Addr, h: Graph) {
    && c in g && c in h && h[c] == g[c] && Freed(g, c, h - {c})
    && forall v :: v in h ==> c !in h[v]
  }

  ghost predicate OwnersKept(g: Graph, h: Graph) {
    && h.Keys <= g.Keys
    && (forall v, o {:trigger h[v][o]} :: v in h ==>
          h[v][o] == if o == NULL || o in h then g[v][o] else 0)
  }

  /** The state of a child-freeing loop that started in `g` with `c` detached: `c` may have lost some of
      its out-edges and what they alone kept alive, nothing else has changed. */
  ghost predicate Partial(g: Graph, c: Addr, h: Graph) {
    && NULL !in g && c in g && c in h && h.Keys <= g.Keys && h[c] == g[c]
    && forall v {:trigger LostAt(g, c, h, v)} :: LostAt(g, c, h, v)
  }

  ghost predicate LostAt(g: Graph, c: Addr, h: Graph, v: Addr) {
    && (v in g && v != c ==> (Survives(g, c, v) <==> v in h && Survives(h, c, v)))
    && (v in g && v in h && v != c ==> forall o :: KeepsOwner(g, c, h, v, o))
    && (v in h ==> forall o :: o in h[v] && o != NULL ==> o in h)
  }

  ghost predicate KeepsOwner(g: Graph, c: Addr, h: Graph, v: Addr, o: Addr)
    requires v in g && v in h
  {
    o == NULL || (o in g && o != c && Survives(g, c, o)) ==> h[v][o] == g[v][o]
  }

  lemma PartialKeeps(g: Graph, c: Addr, h: Graph)
    requires Partial(g, c, h)
    ensures c in h && h[c] == g[c]
  {
  }

  // ----- basic facts about paths

  lemma ExtendPath(g: Graph, x: Addr, o: Addr, v: Addr)
    requires v in g && o in g[v] && v != x && Survives(g, x, o)
    ensures Survives(g, x, v)
  {
    var p :| PathAvoiding(g, x, o, p);
    assert PathAvoiding(g, x, v, p + [v]);
  }

  lemma RootSurvives(g: Graph, x: Addr, v: Addr)
    requires v in g && NULL in g[v] && v != x
    ensures Survives(g, x, v)
  {
    assert PathAvoiding(g, x, v, [v]);
  }

  lemma PrefixSurvives(g: Graph, x: Addr, p: seq<Addr>, i: nat)
    requires IsPath(g, p) && x !in p && i < |p|
    ensures Survives(g, x, p[i])
  {
    assert PathAvoiding(g, x, p[i], p[..i + 1]);
  }

  /** A path of `g` that avoids `x` is a path of any graph with the same edges at its nodes. */
  lemma TransportPath(g: Graph, h: Graph, x: Addr, p: seq<Addr>)
    requires IsPath(g, p) && x !in p
    requires forall i :: 0 <= i < |p| ==> p[i] in h
    requires NULL in h[p[0]]
    requires forall i :: 0 < i < |p| ==> p[i - 1] in h[p[i]]
    ensures Survives(h, x, p[|p| - 1])
  {
    assert PathAvoiding(h, x, p[|p| - 1], p);
  }

  /** In an acyclic graph a chunk whose rank does not exceed that of `x` never depends on `x`. */
  lemma {:induction false} LowRankSurvives(g: Graph, rank: map<Addr, nat>, x: Addr, v: Addr)
    requires Ranked(g, rank) && v in g && x in rank && v != x && rank[v] <= rank[x]
    ensures Survives(g, x, v)
    decreases rank[v]
  {
    assert RankedAt(g, rank, v);
    var o :| o in g[v];
    if NULL in g[v] {
      RootSurvives(g, x, v);
    } else {
      LowRankSurvives(g, rank, x, o);
      ExtendPath(g, x, o, v);
    }
  }

  /** When `x` owns nothing, every other chunk of an acyclic graph survives its removal. */
  lemma {:induction false} AllSurviveLeaf(g: Graph, rank: map<Addr, nat>, x: Addr, v: Addr)
    requires Ranked(g, rank) && v in g && v != x
    requires forall u :: u in g ==> x !in g[u]
    ensures Survives(g, x, v)
    decreases rank[v]
  {
    assert RankedAt(g, rank, v);
    var o :| o in g[v];
    if NULL in g[v] {
      RootSurvives(g, x, v);
    } else {
      AllSurviveLeaf(g, rank, x, o);
      ExtendPath(g, x, o, v);
    }
  }

  // ----- the child-freeing loop

  /** Survival avoiding `x` looks neither at the owners of `x` nor at the edges out of `x`. */
  lemma SurvivalAgrees(g: Graph, h: Graph, x: Addr, v: Addr)
    requires g.Keys == h.Keys
    requires forall u, o :: u in g && u != x && o != x ==> (o in g[u] <==> o in h[u])
    requires x != NULL
    ensures Survives(g, x, v) <==> Survives(h, x, v)
  {
    if Survives(g, x, v) {
      var p :| PathAvoiding(g, x, v, p);
      TransportPath(g, h, x, p);
    }
    if Survives(h, x, v) {
      var p :| PathAvoiding(h, x, v, p);
      TransportPath(h, g, x, p);
    }
  }

  lemma PartialStart(g: Graph, rank: map<Addr, nat>, c: Addr)
    requires Ranked(g, rank) && c in g
    ensures Partial(g, c, g)
  {
    forall v ensures LostAt(g, c, g, v) {
      if v in g {
        assert RankedAt(g, rank, v);
      }
    }
  }

  /** The loop drops one edge out of `c`.  Nothing else depends on it: the chunk at the other end keeps its other
      owners, each as often as before. */
  lemma PartialDropEdge(g: Graph, c: Addr, h: Graph, v: Addr)
    requires Partial(g, c, h) && v in h && v != c && c in h[v] && c != NULL
    ensures Partial(g, c, DropOwner(h, v, c))
    ensures forall o :: o != c ==> DropOwner(h, v, c)[v][o] == h[v][o]
  {
    var h' := DropOwner(h, v, c);
    forall u ensures LostAt(g, c, h', u) {
      DropEdgeAt(g, c, h, v, u);
    }
  }

  lemma DropEdgeAt(g: Graph, c: Addr, h: Graph, v: Addr, u: Addr)
    requires Partial(g, c, h) && v in h && v != c && c in h[v] && c != NULL
    ensures LostAt(g, c, DropOwner(h, v, c), u)
  {
    hide Survives;
    var h' := DropOwner(h, v, c);
    assert LostAt(g, c, h, u);
    DropEdgeSurvival(h, v, c, u);
    forall o | u in g && u in h' && u != c ensures KeepsOwner(g, c, h', u, o) {
      assert KeepsOwner(g, c, h, u, o);
    }
  }

  lemma DropEdgeSurvival(h: Graph, v: Addr, c: Addr, u: Addr)
    requires v in h && c != NULL
    ensures Survives(h, c, u) <==> Survives(DropOwner(h, v, c), c, u)
  {
    var h' := DropOwner(h, v, c);
    forall w, o | w in h && w != c && o != c ensures o in h[w] <==> o in h'[w] {
    }
    SurvivalAgrees(h, h', c, u);
  }

  /** The loop frees a child whose only owner is `c`, and what that child dominates. */
  lemma PartialFreeChild(g: Graph, rank: map<Addr, nat>, c: Addr, h: Graph, v: Addr, h': Graph)
    requires Partial(g, c, h) && v in h && v != c && h[v] == multiset{c}
    requires Ranked(h, rank) && c != NULL && Freed(h, v, h')
    ensures Partial(g, c, h')
  {
    KeepsItsOwners(rank, c, h, v, h');
    forall u ensures LostAt(g, c, h', u) {
      assert LostAt(g, c, h, u);
      SurvivalBeyond(c, h, v, h', u);
      forall o | u in g && u in h' && u != c ensures KeepsOwner(g, c, h', u, o) {
        assert KeepsOwner(g, c, h, u, o) && LostAt(g, c, h, o);
        SurvivalBeyond(c, h, v, h', o);
      }
      forall o | u in h' && o in h'[u] && o != NULL ensures o in h' {
        assert h'[u][o] == if o == NULL || o in h' then h[u][o] else 0;
      }
    }
  }

  /** The chunk `c`, whose child `v` is freed, and all the owners of `c` stay. */
  lemma KeepsItsOwners(rank: map<Addr, nat>, c: Addr, h: Graph, v: Addr, h': Graph)
    requires c in h && v in h && v != c && c in h[v] && c != NULL && Ranked(h, rank) && Freed(h, v, h')
    ensures c in h' && h'[c] == h[c]
  {
    assert RankedAt(h, rank, v) && RankedAt(h, rank, c);
    LowRankSurvives(h, rank, v, c);
    forall o ensures h'[c][o] == h[c][o] {
      if o in h[c] && o != NULL {
        LowRankSurvives(h, rank, v, o);
      }
    }
  }

  /** A chunk that survives without `c` does not depend on `v`, which `c` alone owns. */
  lemma SurvivalBeyond(c: Addr, h: Graph, v: Addr, h': Graph, u: Addr)
    requires v in h && v != c && h[v] == multiset{c} && c != NULL && Freed(h, v, h')
    ensures Survives(h, c, u) <==> Survives(h', c, u)
    ensures Survives(h, c, u) ==> u in h'
  {
    forall p | PathAvoiding(h, c, u, p) ensures u in h' && Survives(h', c, u) {
      forall i | 0 <= i < |p| ensures p[i] != v {
        assert i > 0 ==> p[i - 1] in h[p[i]];
      }
      forall i | 0 <= i < |p| ensures p[i] in h' {
        PrefixSurvives(h, v, p, i);
      }
      forall i | 0 < i < |p| ensures p[i - 1] in h'[p[i]] {
        assert h'[p[i]][p[i - 1]] == h[p[i]][p[i - 1]];
      }
      assert h'[p[0]][NULL] == h[p[0]][NULL];
      TransportPath(h, h', c, p);
    }
    forall p | PathAvoiding(h', c, u, p) ensures Survives(h, c, u) {
      forall i | 0 < i < |p| ensures p[i - 1] in h[p[i]] {
        assert h'[p[i]][p[i - 1]] == h[p[i]][p[i - 1]];
      }
      assert h'[p[0]][NULL] == h[p[0]][NULL];
      TransportPath(h', h, c, p);
    }
  }

  /** Once `c` has no child left, removing it finishes the job. */
  lemma PartialDone(g: Graph, rank: map<Addr, nat>, c: Addr, h: Graph)
    requires Partial(g, c, h) && Ranked(h, rank)
    requires forall u :: u in h ==> c !in h[u]
    ensures Freed(g, c, h - {c})
  {
    var h' := h - {c};
    assert h'.Keys == h.Keys - {c};
    forall v ensures v in h' <==> v in g && Survives(g, c, v) {
      assert LostAt(g, c, h, v);
      if v in h' {
        AllSurviveLeaf(h, rank, c, v);
      }
    }
    forall v, o {:trigger h'[v][o]} | v in h'
      ensures h'[v][o] == if o == NULL || o in h' then g[v][o] else 0
    {
      assert LostAt(g, c, h, v) && KeepsOwner(g, c, h, v, o) && h'[v] == h[v];
      if o != NULL && o !in h' {
        assert o !in h[v];
      }
    }
  }

  /** What is freed does not depend on how `x` itself was owned. */
  lemma FreedAfterDetach(g: Graph, x: Addr, ms: multiset<Addr>, h: Graph)
    requires x in g && x != NULL && Freed(g[x := ms], x, h)
    ensures Freed(g, x, h)
  {
    forall v ensures Survives(g, x, v) <==> Survives(g[x := ms], x, v) {
      SurvivalAgrees(g, g[x := ms], x, v);
    }
    assert !Survives(g, x, x);
  }

  // ----- what freeing means

  /** A chunk dies iff every ownership path to it goes through the freed chunk. */
  lemma DiesIffDominated(g: Graph, x: Addr, h: Graph, v: Addr)
    requires Freed(g, x, h) && v in g
    ensures v !in h <==> forall p :: IsPath(g, p) && p[|p| - 1] == v ==> x in p
  {
    assert v in h <==> Survives(g, x, v);
    if v !in h {
      forall p | IsPath(g, p) && p[|p| - 1] == v ensures x in p {
        assert !PathAvoiding(g, x, v, p);
      }
    }
  }

  /** Nothing leaks: each survivor is still owned all the way from a root. */
  lemma SurvivorsRooted(g: Graph, x: Addr, h: Graph, v: Addr)
    requires Freed(g, x, h) && v in h
    ensures exists p :: IsPath(h, p) && p[|p| - 1] == v
  {
    assert Survives(g, x, v);
    var p :| PathAvoiding(g, x, v, p);
    forall i | 0 <= i < |p| ensures p[i] in h {
      PrefixSurvives(g, x, p, i);
    }
    assert h[p[0]][NULL] == g[p[0]][NULL];
    forall i | 0 < i < |p| ensures p[i - 1] in h[p[i]] {
      assert h[p[i]][p[i - 1]] == g[p[i]][p[i - 1]];
    }
    assert IsPath(h, p);
  }

  /** Every ownership path to `v` goes through `x`. */
  ghost predicate Dominates(g: Graph, x: Addr, v: Addr) {
    forall p :: IsPath(g, p) && p[|p| - 1] == v ==> x in p
  }

  ghost predicate Rooted(h: Graph, v: Addr) {
    exists p :: IsPath(h, p) && p[|p| - 1] == v
  }

  /** From `g` to `h` exactly the chunks that `x` dominates have gone, the others are still owned all the way from
      a root, and they have kept all owners that remain. */
  ghost predicate KillsDominated(g: Graph, x: Addr, h: Graph) {
    && (forall v {:trigger Dominates(g, x, v)} :: v in g ==> (v !in h <==> Dominates(g, x, v)))
    && (forall v {:trigger Rooted(h, v)} :: v in h ==> Rooted(h, v))
    && OwnersKept(g, h)
  }

  lemma FreedKills(g: Graph, x: Addr, h: Graph)
    requires Freed(g, x, h)
    ensures KillsDominated(g, x, h)
  {
    forall v | v in g ensures v !in h <==> Dominates(g, x, v) {
      DiesIffDominated(g, x, h, v);
    }
    forall v | v in h ensures Rooted(h, v) {
      SurvivorsRooted(g, x, h, v);
    }
  }

  /** The specification leaves no freedom: there is one way to free `x`. */
  lemma FreedUnique(g: Graph, x: Addr, h: Graph, h': Graph)
    requires Freed(g, x, h) && Freed(g, x, h')
    ensures h == h'
  {
    forall v ensures v in h <==> v in h' {
      assert v in h <==> v in g && Survives(g, x, v);
    }
    assert h.Keys == h'.Keys;
    forall v | v in h ensures h[v] == h'[v] {
      forall o ensures h[v][o] == h'[v][o] {
        assert h[v][o] == if o == NULL || o in h then g[v][o] else 0;
        assert h'[v][o] == if o == NULL || o in h' then g[v][o] else 0;
      }
    }
  }

  // ----- adding edges without closing a cycle

  ghost predicate OwnsVia(g: Graph, a: Addr, b: Addr, p: seq<Addr>) {
    && p != [] && p[0] == a && p[|p| - 1] == b
    && (forall i :: 0 <= i < |p| ==> p[i] in g)
    && (forall i :: 0 < i < |p| ==> p[i - 1] in g[p[i]])
  }

  /** `a` is `b`, or owns it directly or through other chunks. */
  ghost predicate Reaches(g: Graph, a: Addr, b: Addr) {
    exists p :: OwnsVia(g, a, b, p)
  }

  lemma ReachesSelf(g: Graph, a: Addr)
    requires a in g
    ensures Reaches(g, a, a)
  {
    assert OwnsVia(g, a, a, [a]);
  }

  lemma ReachesStep(g: Graph, a: Addr, o: Addr, v: Addr)
    requires Reaches(g, a, o) && v in g && o in g[v]
    ensures Reaches(g, a, v)
  {
    var p :| OwnsVia(g, a, o, p);
    assert OwnsVia(g, a, v, p + [v]);
  }

  /** Lift everything that `a` owns by `n`. */
  ghost function Lift(g: Graph, rank: map<Addr, nat>, a: Addr, n: nat): map<Addr, nat> {
    map v | v in rank :: if Reaches(g, a, v) then rank[v] + n else rank[v]
  }
}
