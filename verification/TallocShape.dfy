/** The ownership part of talloc: chunks in intrusive sibling lists, reference handles, the recursive
    free, steal and unlink.

    Every field of `struct talloc_chunk` and `struct talloc_reference_handle` that the code updates is a
    map from the address of the structure to the field's value. */
module TallocShape {
  import opened Memory
  import opened Lists
  import opened OwnershipGraph

  /** What the pointers mean: the children of every chunk in list order, the logical parent of every
      chunk, and the handles that refer to every chunk in list order. */
  datatype Shape = Shape(kids: map<Addr, seq<Addr>>, up: map<Addr, Addr>, held: map<Addr, seq<Addr>>)

  ghost predicate HasKeys(live: set<Addr>, s: Shape) {
    NULL !in live && s.kids.Keys == live && s.up.Keys == live && s.held.Keys == live
  }

  /** `up` and `kids` agree at `c`. */
  ghost predicate TreeAt(live: set<Addr>, s: Shape, c: Addr)
    requires HasKeys(live, s) && c in live
  {
    && (s.up[c] != NULL ==> s.up[c] in live && c in s.kids[s.up[c]])
    && (forall k :: k in s.kids[c] ==> k in live && s.up[k] == c)
    && NoDup(s.kids[c])
  }

  ghost predicate Forest(live: set<Addr>, s: Shape) {
    && HasKeys(live, s)
    && (forall c {:trigger TreeAt(live, s, c)} :: c in live ==> TreeAt(live, s, c))
  }

  /** Handles are childless, owned by a chunk, and listed by the chunk they refer to. */
  ghost predicate HandleAt(live: set<Addr>, ptr: map<Addr, Addr>, s: Shape, c: Addr)
    requires HasKeys(live, s) && c in live
  {
    && s.up[c] !in ptr
    && (forall h :: h in s.held[c] ==> h in live && h in ptr && ptr[h] == c)
    && NoDup(s.held[c])
    && (c in ptr ==>
          && s.kids[c] == [] && s.held[c] == [] && s.up[c] != NULL
          && ptr[c] in live && ptr[c] !in ptr && c in s.held[ptr[c]])
  }

  ghost predicate WellShaped(live: set<Addr>, ptr: map<Addr, Addr>, s: Shape) {
    && Forest(live, s) && ptr.Keys <= live
    && (forall c {:trigger HandleAt(live, ptr, s, c)} :: c in live ==> HandleAt(live, ptr, s, c))
  }

  /** The sibling list of the children of `p`: doubly linked, `parent` set on the first child only. */
  ghost predicate KidsAt(live: set<Addr>, s: Shape, sib: Links, parent: map<Addr, Addr>, child: map<Addr, Addr>, p: Addr)
    requires HasKeys(live, s) && p in live
  {
    && p in child && Rep(sib, child[p], s.kids[p])
    && (forall i :: 0 <= i < |s.kids[p]| ==>
          s.kids[p][i] in parent && parent[s.kids[p][i]] == if i == 0 then p else NULL)
  }

  /** A chunk without parent is on no list.  The `parent` field of a chunk in `stale` may still hold the
      address it had before the chunk was taken off its list. */
  ghost predicate RootAt(live: set<Addr>, s: Shape, sib: Links, parent: map<Addr, Addr>, stale: set<Addr>, c: Addr)
    requires HasKeys(live, s) && c in live
  {
    && c in parent && c in sib.next && c in sib.prev
    && (s.up[c] == NULL ==> sib.next[c] == NULL && sib.prev[c] == NULL && (c !in stale ==> parent[c] == NULL))
  }

  ghost predicate SiblingRep(live: set<Addr>, s: Shape, sib: Links, parent: map<Addr, Addr>, child: map<Addr, Addr>,
                             stale: set<Addr>)
  {
    && HasKeys(live, s)
    && (forall p {:trigger KidsAt(live, s, sib, parent, child, p)} :: p in live ==>
          KidsAt(live, s, sib, parent, child, p))
    && (forall c {:trigger RootAt(live, s, sib, parent, stale, c)} :: c in live ==>
          RootAt(live, s, sib, parent, stale, c))
  }

  ghost predicate HeldAt(live: set<Addr>, s: Shape, hnd: Links, refs: map<Addr, Addr>, t: Addr)
    requires HasKeys(live, s) && t in live
  {
    t in refs && Rep(hnd, refs[t], s.held[t])
  }

  ghost predicate HandleRep(live: set<Addr>, s: Shape, hnd: Links, refs: map<Addr, Addr>) {
    && HasKeys(live, s)
    && (forall t {:trigger HeldAt(live, s, hnd, refs, t)} :: t in live ==> HeldAt(live, s, hnd, refs, t))
  }

  /** `rank` grows from a chunk to its children and to the chunks it refers to: no ownership cycle. */
  ghost predicate RankAt(live: set<Addr>, ptr: map<Addr, Addr>, s: Shape, rank: map<Addr, nat>, c: Addr)
    requires HasKeys(live, s) && c in live
  {
    && c in rank
    && (s.up[c] != NULL ==>
          var v := if c in ptr then ptr[c] else c;
          s.up[c] in rank && v in rank && rank[s.up[c]] < rank[v])
  }

  ghost predicate RankOk(live: set<Addr>, ptr: map<Addr, Addr>, s: Shape, rank: map<Addr, nat>) {
    && HasKeys(live, s)
    && (forall c {:trigger RankAt(live, ptr, s, rank, c)} :: c in live ==> RankAt(live, ptr, s, rank, c))
  }

  /** A chunk whose free is in progress has no owner left; its `parent` field may be out of date. */
  ghost predicate LoopAt(live: set<Addr>, ptr: map<Addr, Addr>, s: Shape, parent: map<Addr, Addr>, rank: map<Addr, nat>,
                         d: Addr)
  {
    && HasKeys(live, s)
    && d in live && d !in ptr && s.up[d] == NULL && s.held[d] == []
    && d in parent && d in rank
    && (parent[d] != NULL ==>
          parent[d] in live && parent[d] !in ptr && parent[d] in rank && rank[parent[d]] < rank[d])
  }

  ghost predicate LoopOk(live: set<Addr>, ptr: map<Addr, Addr>, s: Shape, parent: map<Addr, Addr>, rank: map<Addr, nat>,
                         loop: set<Addr>)
  {
    forall d {:trigger LoopAt(live, ptr, s, parent, rank, d)} :: d in loop ==> LoopAt(live, ptr, s, parent, rank, d)
  }

  /** The chunks without parent, except `c`, still have the same `parent` field. */
  ghost predicate RootsKept(live: set<Addr>, s: Shape, c: Addr, parent: map<Addr, Addr>, parent': map<Addr, Addr>) {
    forall d {:trigger d in parent'} :: d in live && d != c && d in s.up && s.up[d] == NULL ==>
      d in parent && d in parent' && parent'[d] == parent[d]
  }

  // ----- the ownership graph of a shape

  /** Who holds the handles of a list, with multiplicity. */
  ghost function Holders(up: map<Addr, Addr>, hs: seq<Addr>): multiset<Addr> {
    if hs == [] then multiset{}
    else Holders(up, hs[1..]) + (if hs[0] in up then multiset{up[hs[0]]} else multiset{})
  }

  ghost function OwnersOf(s: Shape, v: Addr): multiset<Addr>
    requires v in s.up && v in s.held
  {
    multiset{s.up[v]} + Holders(s.up, s.held[v])
  }

  ghost function GraphOf(live: set<Addr>, ptr: map<Addr, Addr>, s: Shape): Graph
    requires HasKeys(live, s)
  {
    map v | v in live && v !in ptr :: OwnersOf(s, v)
  }

  lemma GraphAt(live: set<Addr>, ptr: map<Addr, Addr>, s: Shape, v: Addr)
    requires HasKeys(live, s)
    ensures v in GraphOf(live, ptr, s) <==> v in live && v !in ptr
    ensures v in live && v !in ptr ==> GraphOf(live, ptr, s)[v] == OwnersOf(s, v)
  {
  }

  lemma HoldersConcat(up: map<Addr, Addr>, a: seq<Addr>, b: seq<Addr>)
    ensures Holders(up, a + b) == Holders(up, a) + Holders(up, b)
  {
    if a == [] {
      assert a + b == b;
    } else {
      assert (a + b)[1..] == a[1..] + b;
      HoldersConcat(up, a[1..], b);
    }
  }

  lemma HoldersWithout(up: map<Addr, Addr>, hs: seq<Addr>, h: Addr)
    requires h in hs && h in up
    ensures Holders(up, hs) == Holders(up, Without(hs, h)) + multiset{up[h]}
  {
    var i := IndexOf(hs, h);
    assert hs == hs[..i] + ([h] + hs[i + 1..]);
    HoldersConcat(up, hs[..i], [h] + hs[i + 1..]);
    HoldersConcat(up, hs[..i], hs[i + 1..]);
    assert ([h] + hs[i + 1..])[1..] == hs[i + 1..];
  }

  lemma HoldersAgree(up: map<Addr, Addr>, up': map<Addr, Addr>, hs: seq<Addr>)
    requires forall h :: h in hs ==> h in up && h in up' && up[h] == up'[h]
    ensures Holders(up, hs) == Holders(up', hs)
  {
    if hs != [] {
      HoldersAgree(up, up', hs[1..]);
    }
  }

  lemma HoldersIn(up: map<Addr, Addr>, hs: seq<Addr>, o: Addr)
    ensures o in Holders(up, hs) <==> exists h :: h in hs && h in up && up[h] == o
  {
    if hs != [] {
      HoldersIn(up, hs[1..], o);
    }
  }

  /** An owner of `v` is its parent or the holder of one of its handles. */
  lemma OwnerCases(s: Shape, v: Addr, o: Addr) returns (h: Addr)
    requires v in s.up && v in s.held && o in OwnersOf(s, v) && o != s.up[v]
    ensures h in s.held[v] && h in s.up && s.up[h] == o
  {
    HoldersIn(s.up, s.held[v], o);
    h :| h in s.held[v] && h in s.up && s.up[h] == o;
  }

  lemma RankedEdge(live: set<Addr>, ptr: map<Addr, Addr>, s: Shape, rank: map<Addr, nat>, v: Addr, o: Addr)
    requires WellShaped(live, ptr, s) && RankOk(live, ptr, s, rank)
    requires v in live && v !in ptr && o in OwnersOf(s, v) && o != NULL
    ensures o in live && o !in ptr && o in rank && v in rank && rank[o] < rank[v]
  {
    assert TreeAt(live, s, v) && HandleAt(live, ptr, s, v) && RankAt(live, ptr, s, rank, v);
    if o != s.up[v] {
      var h := OwnerCases(s, v, o);
      assert TreeAt(live, s, h) && HandleAt(live, ptr, s, h) && RankAt(live, ptr, s, rank, h);
    }
  }

  lemma RankedGraphAt(live: set<Addr>, ptr: map<Addr, Addr>, s: Shape, rank: map<Addr, nat>, g: Graph, v: Addr)
    requires WellShaped(live, ptr, s) && RankOk(live, ptr, s, rank) && g == GraphOf(live, ptr, s) && v in g
    ensures RankedAt(g, rank, v)
  {
    GraphAt(live, ptr, s, v);
    assert RankAt(live, ptr, s, rank, v);
    assert s.up[v] in g[v];
    forall o | o in g[v] && o != NULL ensures o in g && o in rank && rank[o] < rank[v] {
      RankedEdge(live, ptr, s, rank, v, o);
      GraphAt(live, ptr, s, o);
    }
  }

  lemma RankedGraph(live: set<Addr>, ptr: map<Addr, Addr>, s: Shape, rank: map<Addr, nat>)
    requires WellShaped(live, ptr, s) && RankOk(live, ptr, s, rank)
    ensures Ranked(GraphOf(live, ptr, s), rank)
  {
    var g := GraphOf(live, ptr, s);
    GraphAt(live, ptr, s, NULL);
    forall v | v in g ensures RankedAt(g, rank, v) {
      RankedGraphAt(live, ptr, s, rank, g, v);
    }
  }

  /** A chunk without children owns nothing. */
  lemma ChildlessOwnsNothing(live: set<Addr>, ptr: map<Addr, Addr>, s: Shape, c: Addr)
    requires WellShaped(live, ptr, s) && c in live && s.kids[c] == []
    ensures forall v :: v in GraphOf(live, ptr, s) ==> c !in GraphOf(live, ptr, s)[v]
  {
    assert TreeAt(live, s, c);
    forall v | v in live && v !in ptr ensures c !in OwnersOf(s, v) {
      assert TreeAt(live, s, v) && HandleAt(live, ptr, s, v);
      HoldersIn(s.up, s.held[v], c);
      assert forall h :: h in s.held[v] ==> h in live && TreeAt(live, s, h);
    }
  }

  // ----- taking a chunk off its sibling list

  ghost function DetachShape(s: Shape, c: Addr): Shape {
    var p := if c in s.up then s.up[c] else NULL;
    Shape(if p in s.kids then s.kids[p := Without(s.kids[p], c)] else s.kids, s.up[c := NULL], s.held)
  }

  lemma DetachForest(live: set<Addr>, s: Shape, c: Addr)
    requires Forest(live, s) && c in live && TreeAt(live, s, c)
    ensures Forest(live, DetachShape(s, c))
  {
    var s' := DetachShape(s, c);
    var p := s.up[c];
    if p != NULL {
      assert TreeAt(live, s, p);
      WithoutElements(s.kids[p], c);
    }
    forall d | d in live ensures TreeAt(live, s', d) {
      assert TreeAt(live, s, d);
    }
  }

  /** The effect on the pointers of taking `c` off the list of its parent. */
  ghost predicate Bypassed(s: Shape, c: Addr, sib: Links, parent: map<Addr, Addr>, child: map<Addr, Addr>,
                           sib': Links, parent': map<Addr, Addr>, child': map<Addr, Addr>)
  {
    && c in s.up && s.up[c] in s.kids && c in s.kids[s.up[c]]
    && var p := s.up[c];
    var ks := s.kids[p];
    var ks' := Without(ks, c);
    && sib' == Bypass(sib, ks, IndexOf(ks, c))
    && child' == child[p := if ks' == [] then NULL else ks'[0]]
    && parent' == if ks[0] == c && ks' != [] then parent[ks'[0] := p] else parent
  }

  lemma DetachOwnList(live: set<Addr>, s: Shape, sib: Links, parent: map<Addr, Addr>, child: map<Addr, Addr>,
                      c: Addr, sib': Links, parent': map<Addr, Addr>, child': map<Addr, Addr>)
    requires HasKeys(live, s) && Bypassed(s, c, sib, parent, child, sib', parent', child')
    requires s.up[c] in live && KidsAt(live, s, sib, parent, child, s.up[c]) && s.up[c] != NULL
    ensures KidsAt(live, DetachShape(s, c), sib', parent', child', s.up[c])
  {
    var p := s.up[c];
    var ks := s.kids[p];
    var ks' := Without(ks, c);
    var k := IndexOf(ks, c);
    WithoutElements(ks, c);
    BypassRep(sib, child[p], ks, c);
    forall i | 0 <= i < |ks'| ensures ks'[i] in parent' && parent'[ks'[i]] == if i == 0 then p else NULL {
      assert ks'[i] == ks[if i < k then i else i + 1];
    }
  }

  lemma DetachOtherList(live: set<Addr>, s: Shape, sib: Links, parent: map<Addr, Addr>, child: map<Addr, Addr>,
                        c: Addr, sib': Links, parent': map<Addr, Addr>, child': map<Addr, Addr>, q: Addr)
    requires HasKeys(live, s) && Bypassed(s, c, sib, parent, child, sib', parent', child')
    requires s.up[c] in live && KidsAt(live, s, sib, parent, child, s.up[c]) && s.up[c] != NULL
    requires q in live && q != s.up[c] && KidsAt(live, s, sib, parent, child, q)
    requires forall d :: d in s.kids[q] ==> d in live && s.up[d] == q
    requires forall d :: d in s.kids[s.up[c]] ==> d in live && s.up[d] == s.up[c]
    ensures KidsAt(live, DetachShape(s, c), sib', parent', child', q)
  {
    var ks, qs := s.kids[s.up[c]], s.kids[q];
    OtherListKept(sib, child[s.up[c]], ks, c, child[q], qs);
    WithoutElements(ks, c);
    forall i | 0 <= i < |qs| ensures qs[i] in parent' && parent'[qs[i]] == parent[qs[i]] {
      assert qs[i] in qs;
      if Without(ks, c) != [] { assert Without(ks, c)[0] in Without(ks, c); }
    }
  }

  lemma DetachRoot(live: set<Addr>, s: Shape, sib: Links, parent: map<Addr, Addr>, child: map<Addr, Addr>,
                   c: Addr, sib': Links, parent': map<Addr, Addr>, child': map<Addr, Addr>, stale: set<Addr>, d: Addr)
    requires HasKeys(live, s) && Bypassed(s, c, sib, parent, child, sib', parent', child')
    requires s.up[c] in live && KidsAt(live, s, sib, parent, child, s.up[c]) && s.up[c] != NULL
    requires d in live && RootAt(live, s, sib, parent, stale, d) && RootAt(live, s, sib, parent, stale, c)
    requires forall d :: d in s.kids[s.up[c]] ==> d in live && s.up[d] == s.up[c]
    ensures RootAt(live, DetachShape(s, c), sib', parent', stale + {c}, d)
    ensures s.up[d] == NULL ==> parent'[d] == parent[d]
  {
    var ks := s.kids[s.up[c]];
    var k := IndexOf(ks, c);
    WithoutElements(ks, c);
    if Without(ks, c) != [] { assert Without(ks, c)[0] in Without(ks, c); }
    if d !in ks {
      BypassFrame(sib, child[s.up[c]], ks, k, d);
    }
  }

  /** The pointers after `c` has been taken off its list represent the forest without that edge. */
  lemma DetachRep(live: set<Addr>, s: Shape, sib: Links, parent: map<Addr, Addr>, child: map<Addr, Addr>,
                  stale: set<Addr>, c: Addr, sib': Links, parent': map<Addr, Addr>, child': map<Addr, Addr>)
    requires Forest(live, s) && SiblingRep(live, s, sib, parent, child, stale)
    requires c in live && s.up[c] != NULL && Bypassed(s, c, sib, parent, child, sib', parent', child')
    ensures SiblingRep(live, DetachShape(s, c), sib', parent', child', stale + {c})
    ensures RootsKept(live, s, c, parent, parent')
  {
    assert TreeAt(live, s, c);
    assert TreeAt(live, s, s.up[c]) && KidsAt(live, s, sib, parent, child, s.up[c]);
    assert RootAt(live, s, sib, parent, stale, c);
    var s' := DetachShape(s, c);
    DetachOwnList(live, s, sib, parent, child, c, sib', parent', child');
    forall q | q in live ensures KidsAt(live, s', sib', parent', child', q) {
      assert TreeAt(live, s, q) && KidsAt(live, s, sib, parent, child, q);
      if q != s.up[c] {
        DetachOtherList(live, s, sib, parent, child, c, sib', parent', child', q);
      }
    }
    forall d | d in live
      ensures RootAt(live, s', sib', parent', stale + {c}, d)
      ensures s.up[d] == NULL ==> d in parent && d in parent' && parent'[d] == parent[d]
    {
      assert RootAt(live, s, sib, parent, stale, d);
      DetachRoot(live, s, sib, parent, child, c, sib', parent', child', stale, d);
    }
  }

  /** A chunk without parent needs no work; its `parent` field is simply no longer relied upon. */
  lemma DetachNothing(live: set<Addr>, s: Shape, sib: Links, parent: map<Addr, Addr>, child: map<Addr, Addr>,
                      stale: set<Addr>, c: Addr)
    requires SiblingRep(live, s, sib, parent, child, stale) && c in live && s.up[c] == NULL
    ensures DetachShape(s, c) == s && live <= parent.Keys
    ensures SiblingRep(live, s, sib, parent, child, stale + {c})
  {
    assert s.up[c := NULL] == s.up;
    forall d | d in live ensures d in parent && RootAt(live, s, sib, parent, stale + {c}, d) {
      assert RootAt(live, s, sib, parent, stale, d);
    }
  }

  // ----- putting a chunk in front of a list of children

  ghost function AttachShape(s: Shape, p: Addr, c: Addr): Shape
    requires p in s.kids
  {
    Shape(s.kids[p := [c] + s.kids[p]], s.up[c := p], s.held)
  }

  lemma AttachForest(live: set<Addr>, s: Shape, p: Addr, c: Addr)
    requires Forest(live, s) && p in live && c in live && s.up[c] == NULL
    ensures Forest(live, AttachShape(s, p, c))
  {
    var s' := AttachShape(s, p, c);
    assert TreeAt(live, s, p);
    forall d | d in live ensures TreeAt(live, s', d) {
      assert TreeAt(live, s, d);
    }
  }

  /** The effect on the pointers of hooking `c` in front of the children of `p`. */
  ghost predicate Hooked(s: Shape, p: Addr, c: Addr, sib: Links, parent: map<Addr, Addr>,
                         sib': Links, parent': map<Addr, Addr>)
  {
    && p in s.kids && Rep(sib', c, [c] + s.kids[p])
    && (forall q {:trigger SameLinks(sib, sib', q)} ::
          q in sib.next && q in sib.prev && q !in s.kids[p] && q != c ==> SameLinks(sib, sib', q))
    && parent' == if s.kids[p] == [] then parent[c := p] else parent[c := p][s.kids[p][0] := NULL]
  }

  lemma AttachList(live: set<Addr>, s: Shape, sib: Links, parent: map<Addr, Addr>, child: map<Addr, Addr>,
                   p: Addr, c: Addr, sib': Links, parent': map<Addr, Addr>, q: Addr)
    requires HasKeys(live, s) && Hooked(s, p, c, sib, parent, sib', parent')
    requires q in live && p in live && c in live && c !in s.kids[p] && c !in s.kids[q]
    requires KidsAt(live, s, sib, parent, child, q)
    requires q != p ==> forall d :: d in s.kids[q] ==> d !in s.kids[p]
    ensures KidsAt(live, AttachShape(s, p, c), sib', parent', child[p := c], q)
  {
    var qs, ks := s.kids[q], s.kids[p];
    assert ks != [] ==> ks[0] in ks;
    if q == p {
      forall i | 0 <= i < |ks| + 1
        ensures ([c] + ks)[i] in parent' && parent'[([c] + ks)[i]] == if i == 0 then p else NULL
      {
        assert i > 0 ==> ([c] + ks)[i] == ks[i - 1] && ks[i - 1] in ks;
      }
    } else {
      forall d | d in qs ensures SameLinks(sib, sib', d) {
        assert Linked(sib, qs, IndexOf(qs, d));
      }
      RepFrame(sib, sib', child[q], qs);
      assert forall i :: 0 <= i < |qs| ==> qs[i] in qs;
    }
  }

  lemma AttachRoot(live: set<Addr>, s: Shape, sib: Links, parent: map<Addr, Addr>,
                   p: Addr, c: Addr, sib': Links, parent': map<Addr, Addr>, stale: set<Addr>, d: Addr)
    requires HasKeys(live, s) && Hooked(s, p, c, sib, parent, sib', parent')
    requires p in live && d in live && c in live && p != NULL && RootAt(live, s, sib, parent, stale + {c}, d)
    requires d in s.kids[p] ==> s.up[d] == p
    requires forall k :: k in s.kids[p] ==> k in live && s.up[k] == p
    ensures RootAt(live, AttachShape(s, p, c), sib', parent', stale, d)
    ensures d != c && s.up[d] == NULL ==> d in parent && d in parent' && parent'[d] == parent[d]
  {
    var ks := s.kids[p];
    assert ks != [] ==> ks[0] in ks;
    if d == c {
      assert Linked(sib', [c] + ks, 0);
    } else if d in ks {
      assert ([c] + ks)[IndexOf(ks, d) + 1] == d;
      assert Linked(sib', [c] + ks, IndexOf(ks, d) + 1);
    } else {
      assert SameLinks(sib, sib', d);
    }
  }

  lemma AttachRep(live: set<Addr>, s: Shape, sib: Links, parent: map<Addr, Addr>, child: map<Addr, Addr>,
                  stale: set<Addr>, p: Addr, c: Addr, sib': Links, parent': map<Addr, Addr>)
    requires Forest(live, s) && SiblingRep(live, s, sib, parent, child, stale + {c})
    requires p in live && c in live && s.up[c] == NULL
    requires Hooked(s, p, c, sib, parent, sib', parent')
    ensures SiblingRep(live, AttachShape(s, p, c), sib', parent', child[p := c], stale)
    ensures RootsKept(live, s, c, parent, parent')
  {
    var s' := AttachShape(s, p, c);
    assert TreeAt(live, s, p);
    forall q | q in live ensures KidsAt(live, s', sib', parent', child[p := c], q) {
      assert TreeAt(live, s, q) && KidsAt(live, s, sib, parent, child, q);
      AttachList(live, s, sib, parent, child, p, c, sib', parent', q);
    }
    forall d | d in live
      ensures RootAt(live, s', sib', parent', stale, d)
      ensures d != c && s.up[d] == NULL ==> d in parent && d in parent' && parent'[d] == parent[d]
    {
      assert RootAt(live, s, sib, parent, stale + {c}, d);
      AttachRoot(live, s, sib, parent, p, c, sib', parent', stale, d);
    }
  }

  // ----- moving an owner edge

  ghost function MoveShape(s: Shape, p: Addr, c: Addr): Shape
    requires p in s.kids
  {
    AttachShape(DetachShape(s, c), p, c)
  }

  /** Handle bookkeeping only looks at `held`, at where handles hang, and at their having no child. */
  lemma HandlesKept(live: set<Addr>, ptr: map<Addr, Addr>, s: Shape, s': Shape)
    requires WellShaped(live, ptr, s) && Forest(live, s') && s'.held == s.held
    requires forall c :: c in live ==> s'.up[c] !in ptr && (c in ptr ==> s'.up[c] != NULL && s'.kids[c] == [])
    ensures WellShaped(live, ptr, s')
  {
    forall c | c in live ensures HandleAt(live, ptr, s', c) {
      assert HandleAt(live, ptr, s, c);
    }
  }

  lemma DetachWellShaped(live: set<Addr>, ptr: map<Addr, Addr>, s: Shape, c: Addr)
    requires WellShaped(live, ptr, s) && c in live && c !in ptr && TreeAt(live, s, c)
    ensures WellShaped(live, ptr, DetachShape(s, c))
  {
    DetachForest(live, s, c);
    forall d | d in live
      ensures var s' := DetachShape(s, c);
              s'.up[d] !in ptr && (d in ptr ==> s'.up[d] != NULL && s'.kids[d] == [])
    {
      assert HandleAt(live, ptr, s, d) && HandleAt(live, ptr, s, c);
    }
    HandlesKept(live, ptr, s, DetachShape(s, c));
  }

  lemma MoveWellShaped(live: set<Addr>, ptr: map<Addr, Addr>, s: Shape, p: Addr, c: Addr)
    requires WellShaped(live, ptr, s) && c in live && TreeAt(live, s, c) && p in live && p !in ptr
    ensures WellShaped(live, ptr, MoveShape(s, p, c))
  {
    DetachForest(live, s, c);
    AttachForest(live, DetachShape(s, c), p, c);
    forall d | d in live
      ensures var s' := MoveShape(s, p, c);
              s'.up[d] !in ptr && (d in ptr ==> s'.up[d] != NULL && s'.kids[d] == [])
    {
      assert HandleAt(live, ptr, s, d) && HandleAt(live, ptr, s, c);
    }
    HandlesKept(live, ptr, s, MoveShape(s, p, c));
  }

  lemma GraphUpdateAt(live: set<Addr>, ptr: map<Addr, Addr>, s: Shape, live': set<Addr>, ptr': map<Addr, Addr>, s': Shape,
                      c: Addr, ms: multiset<Addr>, v: Addr)
    requires HasKeys(live, s) && HasKeys(live', s') && c in live && c !in ptr
    requires v in live' && v !in ptr' <==> v in live && v !in ptr
    requires v in live && v !in ptr ==> OwnersOf(s', v) == if v == c then ms else OwnersOf(s, v)
    ensures SameAt(GraphOf(live', ptr', s'), GraphOf(live, ptr, s)[c := ms], v)
  {
    GraphAt(live, ptr, s, v);
    GraphAt(live', ptr', s', v);
  }

  ghost predicate SameAt(g: Graph, h: Graph, v: Addr) {
    (v in g <==> v in h) && (v in g ==> g[v] == h[v])
  }

  lemma SameGraph(g: Graph, h: Graph)
    requires forall v :: SameAt(g, h, v)
    ensures g == h
  {
    forall v ensures v in g <==> v in h {
      assert SameAt(g, h, v);
    }
    assert g.Keys == h.Keys;
    forall v | v in g ensures g[v] == h[v] {
      assert SameAt(g, h, v);
    }
  }

  lemma GraphUpdate(live: set<Addr>, ptr: map<Addr, Addr>, s: Shape, live': set<Addr>, ptr': map<Addr, Addr>, s': Shape,
                    c: Addr, ms: multiset<Addr>)
    requires HasKeys(live, s) && HasKeys(live', s') && c in live && c !in ptr
    requires forall v :: v in live' && v !in ptr' <==> v in live && v !in ptr
    requires forall v :: v in live && v !in ptr ==>
               OwnersOf(s', v) == if v == c then ms else OwnersOf(s, v)
    ensures GraphOf(live', ptr', s') == GraphOf(live, ptr, s)[c := ms]
  {
    var g, h := GraphOf(live', ptr', s'), GraphOf(live, ptr, s)[c := ms];
    forall v ensures SameAt(g, h, v) {
      GraphUpdateAt(live, ptr, s, live', ptr', s', c, ms, v);
    }
    SameGraph(g, h);
  }

  /** Giving the chunk `c` another parent replaces one owner of `c`. */
  lemma MoveGraph(live: set<Addr>, ptr: map<Addr, Addr>, s: Shape, s': Shape, c: Addr)
    requires WellShaped(live, ptr, s) && HasKeys(live, s') && s'.held == s.held
    requires c in live && c !in ptr && s'.up == s.up[c := s'.up[c]]
    ensures GraphOf(live, ptr, s') == AddOwner(DropOwner(GraphOf(live, ptr, s), c, s.up[c]), c, s'.up[c])
  {
    GraphAt(live, ptr, s, c);
    var ms := OwnersOf(s, c) - multiset{s.up[c]} + multiset{s'.up[c]};
    forall v {:trigger OwnersOf(s', v)} | v in live && v !in ptr
      ensures OwnersOf(s', v) == if v == c then ms else OwnersOf(s, v)
    {
      assert HandleAt(live, ptr, s, v);
      HoldersAgree(s.up, s'.up, s.held[v]);
    }
    GraphUpdate(live, ptr, s, live, ptr, s', c, ms);
    ExchangeOwner(GraphOf(live, ptr, s), c, s.up[c], s'.up[c]);
  }

  /** Giving a handle another holder replaces one owner of the chunk it refers to. */
  lemma MoveHandleGraph(live: set<Addr>, ptr: map<Addr, Addr>, s: Shape, s': Shape, h: Addr)
    requires WellShaped(live, ptr, s) && HasKeys(live, s') && s'.held == s.held
    requires h in ptr && s'.up == s.up[h := s'.up[h]]
    ensures ptr[h] in live && ptr[h] !in ptr
    ensures GraphOf(live, ptr, s') ==
            AddOwner(DropOwner(GraphOf(live, ptr, s), ptr[h], s.up[h]), ptr[h], s'.up[h])
  {
    var t := ptr[h];
    GraphAt(live, ptr, s, t);
    assert HandleAt(live, ptr, s, h) && HandleAt(live, ptr, s, t);
    forall v | v in live && v !in ptr
      ensures OwnersOf(s', v) ==
              if v == t then OwnersOf(s, t) - multiset{s.up[h]} + multiset{s'.up[h]} else OwnersOf(s, v)
    {
      MoveHandleOwners(live, ptr, s, s', h, v);
    }
    GraphUpdate(live, ptr, s, live, ptr, s', t, OwnersOf(s, t) - multiset{s.up[h]} + multiset{s'.up[h]});
    ExchangeOwner(GraphOf(live, ptr, s), t, s.up[h], s'.up[h]);
  }

  lemma MoveHandleOwners(live: set<Addr>, ptr: map<Addr, Addr>, s: Shape, s': Shape, h: Addr, v: Addr)
    requires HasKeys(live, s) && HasKeys(live, s') && s'.held == s.held && v in live && v !in ptr
    requires h in ptr && h in live && s'.up == s.up[h := s'.up[h]]
    requires HandleAt(live, ptr, s, v) && HandleAt(live, ptr, s, h)
    ensures OwnersOf(s', v) ==
            if v == ptr[h] then OwnersOf(s, v) - multiset{s.up[h]} + multiset{s'.up[h]} else OwnersOf(s, v)
  {
    if v == ptr[h] {
      MoveHolder(s.up, s'.up, s.held[v], h);
    } else {
      HoldersAgree(s.up, s'.up, s.held[v]);
    }
  }

  lemma MoveHolder(up: map<Addr, Addr>, up': map<Addr, Addr>, hs: seq<Addr>, h: Addr)
    requires h in hs && NoDup(hs) && h in up && h in up' && up' == up[h := up'[h]]
    requires forall k :: k in hs ==> k in up
    ensures up[h] in Holders(up, hs)
    ensures Holders(up', hs) == Holders(up, hs) - multiset{up[h]} + multiset{up'[h]}
  {
    HoldersWithout(up, hs, h);
    HoldersWithout(up', hs, h);
    WithoutElements(hs, h);
    HoldersAgree(up, up', Without(hs, h));
  }

  // ----- forgetting a structure that has been freed

  ghost function Forget(s: Shape, c: Addr): Shape {
    Shape(s.kids - {c}, s.up - {c}, s.held - {c})
  }

  lemma ForgetForest(live: set<Addr>, s: Shape, c: Addr)
    requires Forest(live, s) && c in live && s.kids[c] == [] && s.up[c] == NULL
    ensures Forest(live - {c}, Forget(s, c))
  {
    assert TreeAt(live, s, c);
    forall d | d in live - {c} ensures TreeAt(live - {c}, Forget(s, c), d) {
      assert TreeAt(live, s, d);
    }
  }

  lemma ForgetSiblingRep(live: set<Addr>, s: Shape, sib: Links, parent: map<Addr, Addr>, child: map<Addr, Addr>,
                         stale: set<Addr>, c: Addr)
    requires SiblingRep(live, s, sib, parent, child, stale + {c}) && c in live
    ensures SiblingRep(live - {c}, Forget(s, c), sib, parent, child, stale)
  {
    forall d | d in live - {c}
      ensures KidsAt(live - {c}, Forget(s, c), sib, parent, child, d)
      ensures RootAt(live - {c}, Forget(s, c), sib, parent, stale, d)
    {
      assert KidsAt(live, s, sib, parent, child, d) && RootAt(live, s, sib, parent, stale + {c}, d);
    }
  }

  lemma ForgetChunk(live: set<Addr>, ptr: map<Addr, Addr>, s: Shape, c: Addr)
    requires WellShaped(live, ptr, s) && c in live && c !in ptr
    requires s.kids[c] == [] && s.up[c] == NULL && s.held[c] == []
    ensures WellShaped(live - {c}, ptr, Forget(s, c))
    ensures GraphOf(live - {c}, ptr, Forget(s, c)) == GraphOf(live, ptr, s) - {c}
  {
    var live', s' := live - {c}, Forget(s, c);
    ForgetForest(live, s, c);
    assert HandleAt(live, ptr, s, c);
    forall d | d in live' ensures HandleAt(live', ptr, s', d) {
      assert HandleAt(live, ptr, s, d);
    }
    var g, h := GraphOf(live', ptr, s'), GraphOf(live, ptr, s) - {c};
    forall v ensures SameAt(g, h, v) {
      ForgetGraphAt(live, ptr, s, c, v);
    }
    SameGraph(g, h);
  }

  lemma ForgetGraphAt(live: set<Addr>, ptr: map<Addr, Addr>, s: Shape, c: Addr, v: Addr)
    requires WellShaped(live, ptr, s) && c in live && c !in ptr && HasKeys(live - {c}, Forget(s, c))
    ensures SameAt(GraphOf(live - {c}, ptr, Forget(s, c)), GraphOf(live, ptr, s) - {c}, v)
  {
    GraphAt(live, ptr, s, v);
    GraphAt(live - {c}, ptr, Forget(s, c), v);
    if v in live && v !in ptr && v != c {
      assert HandleAt(live, ptr, s, v);
      HoldersAgree(s.up, Forget(s, c).up, s.held[v]);
    }
  }

  // ----- dropping a reference handle

  ghost function DropShape(s: Shape, t: Addr, h: Addr): Shape {
    Forget(DetachShape(s, h).(held := if t in s.held then s.held[t := Without(s.held[t], h)] else s.held), h)
  }

  lemma DropForest(live: set<Addr>, s: Shape, t: Addr, h: Addr)
    requires Forest(live, s) && h in live && TreeAt(live, s, h) && s.kids[h] == []
    requires t in live && h in s.held[t]
    ensures Forest(live - {h}, DropShape(s, t, h))
  {
    var s0 := DetachShape(s, h);
    var s1 := s0.(held := s.held[t := Without(s.held[t], h)]);
    DetachForest(live, s, h);
    forall c | c in live ensures TreeAt(live, s1, c) {
      assert TreeAt(live, s0, c);
    }
    ForgetForest(live, s1, h);
  }

  lemma DropHandleAt(live: set<Addr>, ptr: map<Addr, Addr>, s: Shape, h: Addr, c: Addr)
    requires HasKeys(live, s) && h in ptr && h in live && TreeAt(live, s, h) && HandleAt(live, ptr, s, h)
    requires HandleAt(live, ptr, s, ptr[h]) && HasKeys(live - {h}, DropShape(s, ptr[h], h))
    requires c in live && c != h && HandleAt(live, ptr, s, c)
    ensures HandleAt(live - {h}, ptr - {h}, DropShape(s, ptr[h], h), c)
  {
    var t := ptr[h];
    WithoutElements(s.held[t], h);
    assert c in ptr && s.up[h] != NULL && c == s.up[h] ==> false;
  }

  lemma DropWellShaped(live: set<Addr>, ptr: map<Addr, Addr>, s: Shape, h: Addr)
    requires WellShaped(live, ptr, s) && h in ptr && TreeAt(live, s, h) && HandleAt(live, ptr, s, h)
    ensures WellShaped(live - {h}, ptr - {h}, DropShape(s, ptr[h], h))
  {
    DropForest(live, s, ptr[h], h);
    assert HandleAt(live, ptr, s, ptr[h]);
    forall c | c in live - {h} ensures HandleAt(live - {h}, ptr - {h}, DropShape(s, ptr[h], h), c) {
      assert HandleAt(live, ptr, s, c);
      DropHandleAt(live, ptr, s, h, c);
    }
  }

  lemma DropGraph(live: set<Addr>, ptr: map<Addr, Addr>, s: Shape, h: Addr)
    requires WellShaped(live, ptr, s) && h in ptr && TreeAt(live, s, h) && HandleAt(live, ptr, s, h)
    ensures s.up[h] in OwnersOf(s, ptr[h])
    ensures HasKeys(live - {h}, DropShape(s, ptr[h], h))
    ensures GraphOf(live - {h}, ptr - {h}, DropShape(s, ptr[h], h)) ==
            DropOwner(GraphOf(live, ptr, s), ptr[h], s.up[h])
  {
    GraphAt(live, ptr, s, ptr[h]);
    var t, s' := ptr[h], DropShape(s, ptr[h], h);
    DropWellShaped(live, ptr, s, h);
    forall v | v in live && v !in ptr
      ensures OwnersOf(s', v) == if v == t then OwnersOf(s, t) - multiset{s.up[h]} else OwnersOf(s, v)
    {
      assert HandleAt(live, ptr, s, v);
      DropOwners(live, ptr, s, h, v);
    }
    assert HandleAt(live, ptr, s, t);
    HoldersWithout(s.up, s.held[t], h);
    GraphUpdate(live, ptr, s, live - {h}, ptr - {h}, s', t, OwnersOf(s, t) - multiset{s.up[h]});
  }

  lemma DropOwners(live: set<Addr>, ptr: map<Addr, Addr>, s: Shape, h: Addr, v: Addr)
    requires HasKeys(live, s) && h in ptr && h in live && HandleAt(live, ptr, s, h)
    requires v in live && v !in ptr && HandleAt(live, ptr, s, v)
    ensures v in DropShape(s, ptr[h], h).up && v in DropShape(s, ptr[h], h).held
    ensures OwnersOf(DropShape(s, ptr[h], h), v) ==
            if v == ptr[h] then OwnersOf(s, v) - multiset{s.up[h]} else OwnersOf(s, v)
  {
    DropShapeAt(s, ptr[h], h, v);
    if v == ptr[h] {
      DropHolder(s.up, s.held[v], h);
    } else {
      assert h !in s.held[v];
      HoldersAgree(s.up, s.up - {h}, s.held[v]);
    }
  }

  lemma DropShapeAt(s: Shape, t: Addr, h: Addr, v: Addr)
    requires v in s.up && v in s.held && t in s.held && v != h
    ensures var s' := DropShape(s, t, h);
            && s'.up == s.up - {h} && v in s'.held
            && s'.held[v] == if v == t then Without(s.held[v], h) else s.held[v]
  {
  }

  lemma DropHolder(up: map<Addr, Addr>, hs: seq<Addr>, h: Addr)
    requires h in hs && NoDup(hs) && forall k :: k in hs ==> k in up
    ensures up[h] in Holders(up, hs)
    ensures Holders(up - {h}, Without(hs, h)) == Holders(up, hs) - multiset{up[h]}
  {
    WithoutElements(hs, h);
    HoldersWithout(up, hs, h);
    HoldersAgree(up, up - {h}, Without(hs, h));
  }

  lemma DropHandleRep(live: set<Addr>, ptr: map<Addr, Addr>, s: Shape, hnd: Links, refs: map<Addr, Addr>, h: Addr,
                      hnd': Links, head: Addr)
    requires WellShaped(live, ptr, s) && HandleRep(live, s, hnd, refs)
    requires h in ptr && TreeAt(live, s, h) && HandleAt(live, ptr, s, h)
    requires hnd' == Bypass(hnd, s.held[ptr[h]], IndexOf(s.held[ptr[h]], h))
    requires Rep(hnd', head, Without(s.held[ptr[h]], h))
    ensures HandleRep(live - {h}, DropShape(s, ptr[h], h), hnd', refs[ptr[h] := head])
  {
    var t := ptr[h];
    DropWellShaped(live, ptr, s, h);
    assert HeldAt(live, s, hnd, refs, t) && HandleAt(live, ptr, s, t);
    forall c | c in live - {h} ensures HeldAt(live - {h}, DropShape(s, t, h), hnd', refs[t := head], c) {
      assert HeldAt(live, s, hnd, refs, c) && HandleAt(live, ptr, s, c);
      if c != t {
        OtherListKept(hnd, refs[t], s.held[t], h, refs[c], s.held[c]);
      }
    }
  }

  lemma OtherListKept(l: Links, head: Addr, s: seq<Addr>, p: Addr, head': Addr, s': seq<Addr>)
    requires Rep(l, head, s) && p in s && Rep(l, head', s')
    requires forall q :: q in s' ==> q !in s
    ensures Rep(Bypass(l, s, IndexOf(s, p)), head', s')
  {
    var l' := Bypass(l, s, IndexOf(s, p));
    forall q | q in s' ensures SameLinks(l, l', q) {
      assert Linked(l, s', IndexOf(s', q));
      BypassFrame(l, head, s, IndexOf(s, p), q);
    }
    RepFrame(l, l', head', s');
  }

  lemma DropRank(live: set<Addr>, ptr: map<Addr, Addr>, s: Shape, rank: map<Addr, nat>, h: Addr)
    requires WellShaped(live, ptr, s) && RankOk(live, ptr, s, rank)
    requires h in ptr && TreeAt(live, s, h) && HandleAt(live, ptr, s, h)
    ensures RankOk(live - {h}, ptr - {h}, DropShape(s, ptr[h], h), rank)
  {
    DropWellShaped(live, ptr, s, h);
    forall c | c in live - {h} ensures RankAt(live - {h}, ptr - {h}, DropShape(s, ptr[h], h), rank, c) {
      assert RankAt(live, ptr, s, rank, c) && TreeAt(live, s, c);
    }
  }

  lemma DropSiblingRep(live: set<Addr>, s: Shape, sib: Links, parent: map<Addr, Addr>, child: map<Addr, Addr>,
                       stale: set<Addr>, t: Addr, h: Addr)
    requires SiblingRep(live, DetachShape(s, h), sib, parent, child, stale + {h})
    requires h in live && t in live && t != h && HasKeys(live, s)
    ensures SiblingRep(live - {h}, DropShape(s, t, h), sib, parent, child, stale)
  {
    var s1, s2 := Forget(DetachShape(s, h), h), DropShape(s, t, h);
    ForgetSiblingRep(live, DetachShape(s, h), sib, parent, child, stale, h);
    forall d | d in live - {h}
      ensures KidsAt(live - {h}, s2, sib, parent, child, d)
      ensures RootAt(live - {h}, s2, sib, parent, stale, d)
    {
      assert KidsAt(live - {h}, s1, sib, parent, child, d) && RootAt(live - {h}, s1, sib, parent, stale, d);
    }
  }

  lemma DropLoop(live: set<Addr>, ptr: map<Addr, Addr>, s: Shape, parent: map<Addr, Addr>, parent': map<Addr, Addr>,
                 rank: map<Addr, nat>, loop: set<Addr>, h: Addr)
    requires LoopOk(live, ptr, s, parent, rank, loop) && RootsKept(live, s, h, parent, parent')
    requires HasKeys(live, s) && h in ptr && h in live && HandleAt(live, ptr, s, h)
    ensures LoopOk(live - {h}, ptr - {h}, DropShape(s, ptr[h], h), parent', rank, loop)
  {
    forall d | d in loop ensures LoopAt(live - {h}, ptr - {h}, DropShape(s, ptr[h], h), parent', rank, d) {
      assert LoopAt(live, ptr, s, parent, rank, d);
    }
  }

  /** Dropping a handle, all together. */
  lemma DropAll(live: set<Addr>, ptr: map<Addr, Addr>, s: Shape, hnd: Links, refs: map<Addr, Addr>, rank: map<Addr, nat>,
                h: Addr, hnd': Links, head: Addr)
    requires WellShaped(live, ptr, s) && HandleRep(live, s, hnd, refs) && RankOk(live, ptr, s, rank)
    requires h in ptr && TreeAt(live, s, h) && HandleAt(live, ptr, s, h)
    requires hnd' == Bypass(hnd, s.held[ptr[h]], IndexOf(s.held[ptr[h]], h))
    requires Rep(hnd', head, Without(s.held[ptr[h]], h))
    ensures var live', ptr', s' := live - {h}, ptr - {h}, DropShape(s, ptr[h], h);
            && WellShaped(live', ptr', s') && RankOk(live', ptr', s', rank)
            && HandleRep(live', s', hnd', refs[ptr[h] := head])
            && GraphOf(live', ptr', s') == DropOwner(GraphOf(live, ptr, s), ptr[h], s.up[h])
  {
    DropHandleRep(live, ptr, s, hnd, refs, h, hnd', head);
    DropWellShaped(live, ptr, s, h);
    DropGraph(live, ptr, s, h);
    DropRank(live, ptr, s, rank, h);
  }

  // ----- whole states

  /** The allocator's memory.  Every field of `struct talloc_chunk` and `struct talloc_reference_handle`
      that the code updates is a map from the address of the structure to the value of the field. */
  datatype Mem = Mem(
    live: set<Addr>,            // structures that have not been freed
    sib: Links,                // next and prev of the chunks
    parent: map<Addr, Addr>,
    child: map<Addr, Addr>,
    refs: map<Addr, Addr>,       // first reference handle on a chunk
    hnd: Links,                // next and prev of the handles
    ptr: map<Addr, Addr>,        // the chunk each live handle refers to
    loop: set<Addr>)            // chunks with the loop flag: their free is in progress

  /** A memory with what its pointers mean, and a witness that ownership has no cycle. */
  datatype State = State(m: Mem, shape: Shape, rank: map<Addr, nat>)

  /** Every other chunk whose free is in progress ranks below `c`. */
  ghost predicate LoopBelow(loop: set<Addr>, rank: map<Addr, nat>, c: Addr) {
    c in rank && forall d :: d in loop && d != c ==> d in rank && rank[d] < rank[c]
  }

  ghost predicate Consistent(st: State) {
    && WellShaped(st.m.live, st.m.ptr, st.shape)
    && SiblingRep(st.m.live, st.shape, st.m.sib, st.m.parent, st.m.child, st.m.loop)
    && HandleRep(st.m.live, st.shape, st.m.hnd, st.m.refs)
    && RankOk(st.m.live, st.m.ptr, st.shape, st.rank)
    && LoopOk(st.m.live, st.m.ptr, st.shape, st.m.parent, st.rank, st.m.loop)
  }

  /** The heap invariant. */
  ghost predicate ValidState(st: State) {
    HasKeys(st.m.live, st.shape) && st.m.ptr.Keys <= st.m.live && Consistent(st)
  }

  ghost function StateGraph(st: State): Graph {
    if HasKeys(st.m.live, st.shape) then GraphOf(st.m.live, st.m.ptr, st.shape) else map[]
  }

  /** `st'` is `st` without the handle `h`, as far as the meaning of the pointers goes. */
  ghost predicate Dropped(st: State, h: Addr, st': State) {
    && h in st.m.ptr && h in st.m.live && h in st.shape.up
    && st'.m.live == st.m.live - {h} && st'.m.ptr == st.m.ptr - {h} && st'.m.loop == st.m.loop
    && st'.shape == DropShape(st.shape, st.m.ptr[h], h)
  }

  lemma DropState(st: State, h: Addr, st': State)
    requires ValidState(st) && Dropped(st, h, st')
    requires st'.rank == st.rank
    requires st.m.ptr[h] in st.shape.held && h in st.shape.held[st.m.ptr[h]]
    requires var t, hs := st.m.ptr[h], st.shape.held[st.m.ptr[h]];
             && st'.m.hnd == Bypass(st.m.hnd, hs, IndexOf(hs, h))
             && t in st'.m.refs && st'.m.refs == st.m.refs[t := st'.m.refs[t]]
             && Rep(st'.m.hnd, st'.m.refs[t], Without(hs, h))
    requires SiblingRep(st.m.live, DetachShape(st.shape, h), st'.m.sib, st'.m.parent, st'.m.child, st.m.loop + {h})
    requires RootsKept(st.m.live, st.shape, h, st.m.parent, st'.m.parent)
    ensures ValidState(st')
    ensures StateGraph(st') == DropOwner(StateGraph(st), st.m.ptr[h], st.shape.up[h])
  {
    assert HandleAt(st.m.live, st.m.ptr, st.shape, h) && TreeAt(st.m.live, st.shape, h);
    DropAll(st.m.live, st.m.ptr, st.shape, st.m.hnd, st.m.refs, st.rank, h, st'.m.hnd, st'.m.refs[st.m.ptr[h]]);
    DropSiblingRep(st.m.live, st.shape, st'.m.sib, st'.m.parent, st'.m.child, st.m.loop, st.m.ptr[h], h);
    DropLoop(st.m.live, st.m.ptr, st.shape, st.m.parent, st'.m.parent, st.rank, st.m.loop, h);
  }

  /** The chunk whose owners change when `c` moves: `c` itself, or the referent of the handle `c`. */
  ghost function Referent(ptr: map<Addr, Addr>, c: Addr): Addr {
    if c in ptr then ptr[c] else c
  }

  lemma NodeFacts(st: State, c: Addr)
    requires ValidState(st) && c in st.m.live
    ensures Consistent(st)
    ensures TreeAt(st.m.live, st.shape, c) && HandleAt(st.m.live, st.m.ptr, st.shape, c)
    ensures RankAt(st.m.live, st.m.ptr, st.shape, st.rank, c)
  {
  }

  /** The parent of a chunk and the holders of its handles own it. */
  lemma OwnerEdges(st: State, c: Addr)
    requires ValidState(st) && c in st.m.live
    ensures TreeAt(st.m.live, st.shape, c) && HandleAt(st.m.live, st.m.ptr, st.shape, c)
    ensures RankAt(st.m.live, st.m.ptr, st.shape, st.rank, c)
    ensures var v := Referent(st.m.ptr, c);
            && v in StateGraph(st) && st.shape.up[c] in StateGraph(st)[v]
            && StateGraph(st)[v] == OwnersOf(st.shape, v)
    ensures c !in st.m.ptr ==> forall h :: h in st.shape.held[c] ==>
              h in st.shape.up && multiset{st.shape.up[c]} + multiset{st.shape.up[h]} <= StateGraph(st)[c]
  {
    assert TreeAt(st.m.live, st.shape, c) && HandleAt(st.m.live, st.m.ptr, st.shape, c);
    assert RankAt(st.m.live, st.m.ptr, st.shape, st.rank, c);
    var v := Referent(st.m.ptr, c);
    assert HandleAt(st.m.live, st.m.ptr, st.shape, v);
    GraphAt(st.m.live, st.m.ptr, st.shape, v);
    if c in st.m.ptr {
      HoldersIn(st.shape.up, st.shape.held[v], st.shape.up[c]);
    } else {
      forall h | h in st.shape.held[c]
        ensures h in st.shape.up && multiset{st.shape.up[c]} + multiset{st.shape.up[h]} <= StateGraph(st)[c]
      {
        HoldersIn(st.shape.up, st.shape.held[c], st.shape.up[h]);
      }
    }
  }

  /** What the head pointers of `c` say. */
  lemma HeadFields(st: State, c: Addr)
    requires ValidState(st) && c in st.m.live
    ensures HasKeys(st.m.live, st.shape)
    ensures c in st.m.child && (st.m.child[c] == NULL <==> st.shape.kids[c] == [])
    ensures c in st.m.refs && (st.m.refs[c] == NULL <==> st.shape.held[c] == [])
    ensures st.m.refs[c] != NULL ==>
              var h := st.m.refs[c];
              && h == st.shape.held[c][0] && h in st.m.ptr && st.m.ptr[h] == c && h in st.m.live && h !in st.m.loop
              && h in st.m.refs && st.m.refs[h] == NULL
              && st.shape.up[h] in st.m.live && st.shape.up[h] !in st.m.ptr
              && c !in st.m.ptr && st.shape.up[h] in st.rank && c in st.rank && st.rank[st.shape.up[h]] < st.rank[c]
  {
    assert KidsAt(st.m.live, st.shape, st.m.sib, st.m.parent, st.m.child, c);
    assert HeldAt(st.m.live, st.shape, st.m.hnd, st.m.refs, c) && HandleAt(st.m.live, st.m.ptr, st.shape, c);
    assert st.shape.kids[c] != [] ==> st.shape.kids[c][0] in st.shape.kids[c];
    if st.m.refs[c] != NULL {
      var h := st.m.refs[c];
      assert h == st.shape.held[c][0] && h in st.shape.held[c];
      assert HandleAt(st.m.live, st.m.ptr, st.shape, h) && TreeAt(st.m.live, st.shape, h);
      assert HeldAt(st.m.live, st.shape, st.m.hnd, st.m.refs, h) && RankAt(st.m.live, st.m.ptr, st.shape, st.rank, h);
      assert h in st.m.loop ==> LoopAt(st.m.live, st.m.ptr, st.shape, st.m.parent, st.rank, h);
    }
  }

  /** The `parent` field is set on a first child, and on nobody else. */
  lemma ParentField(st: State, c: Addr)
    requires ValidState(st) && c in st.m.live && c !in st.m.loop
    ensures c in st.m.parent && c in st.shape.up
    ensures st.m.parent[c] != NULL ==> st.shape.up[c] == st.m.parent[c]
  {
    assert TreeAt(st.m.live, st.shape, c) && RootAt(st.m.live, st.shape, st.m.sib, st.m.parent, st.m.loop, c);
    var up := st.shape.up[c];
    if up != NULL {
      assert KidsAt(st.m.live, st.shape, st.m.sib, st.m.parent, st.m.child, up);
      assert st.shape.kids[up][IndexOf(st.shape.kids[up], c)] == c;
    }
  }

  lemma SameHandles(live: set<Addr>, s: Shape, s': Shape, hnd: Links, refs: map<Addr, Addr>)
    requires HandleRep(live, s, hnd, refs) && HasKeys(live, s') && s'.held == s.held
    ensures HandleRep(live, s', hnd, refs)
  {
    forall t | t in live ensures HeldAt(live, s', hnd, refs, t) {
      assert HeldAt(live, s, hnd, refs, t);
    }
  }

  /** `s'` is `s` with `c` hanging off `p` instead of its former parent. */
  ghost predicate Moved(s: Shape, p: Addr, c: Addr, s': Shape) {
    s' == Shape(s'.kids, s.up[c := p], s.held)
  }

  /** `st'` is `st` with the owner edge to `c` moved to `p`. */
  ghost predicate Stolen(st: State, p: Addr, c: Addr, st': State) {
    && ValidState(st') && c in st.shape.up && Moved(st.shape, p, c, st'.shape)
    && st'.m == st.m.(sib := st'.m.sib, parent := st'.m.parent, child := st'.m.child) && st'.rank == st.rank
    && var v := Referent(st.m.ptr, c);
    StateGraph(st') == AddOwner(DropOwner(StateGraph(st), v, st.shape.up[c]), v, p)
  }

  lemma StolenAlready(st: State, p: Addr, c: Addr)
    requires ValidState(st) && c in st.m.live && c in st.shape.up && st.shape.up[c] == p
    ensures Stolen(st, p, c, st)
  {
    OwnerEdges(st, c);
    assert st.shape.up[c := p] == st.shape.up;
    KeepOwner(StateGraph(st), Referent(st.m.ptr, c), p);
  }

  /** On the way up from a chunk, ranks go down. */
  lemma ParentRank(st: State, c: Addr)
    requires ValidState(st) && c in st.m.live
    ensures var p := if c in st.m.loop && c in st.m.parent then st.m.parent[c]
                     else if c in st.shape.up then st.shape.up[c] else NULL;
            p != NULL ==>
              var v := Referent(st.m.ptr, c);
              p in st.m.live && p !in st.m.ptr && p in st.rank && v in st.rank && st.rank[p] < st.rank[v]
  {
    NodeFacts(st, c);
    assert c in st.m.loop ==> LoopAt(st.m.live, st.m.ptr, st.shape, st.m.parent, st.rank, c);
  }

  lemma MoveConsistent(st: State, p: Addr, c: Addr, parent1: map<Addr, Addr>, st': State)
    requires ValidState(st) && c !in st.m.loop && c in st.m.live && p in st.m.live && p !in st.m.ptr
    requires st'.shape == MoveShape(st.shape, p, c)
    requires st'.m == st.m.(sib := st'.m.sib, parent := st'.m.parent, child := st'.m.child) && st'.rank == st.rank
    requires SiblingRep(st.m.live, st'.shape, st'.m.sib, st'.m.parent, st'.m.child, st.m.loop)
    requires RootsKept(st.m.live, st.shape, c, st.m.parent, parent1)
    requires RootsKept(st.m.live, DetachShape(st.shape, c), c, parent1, st'.m.parent)
    requires var v := Referent(st.m.ptr, c); p in st.rank && v in st.rank && st.rank[p] < st.rank[v]
    ensures Consistent(st')
  {
    NodeFacts(st, c);
    MoveWellShaped(st.m.live, st.m.ptr, st.shape, p, c);
    SameHandles(st.m.live, st.shape, st'.shape, st.m.hnd, st.m.refs);
    UpRank(st.m.live, st.m.ptr, st.shape, st'.shape, st.rank, c);
    MoveLoop(st, p, c, parent1, st'.shape, st'.m.parent);
  }

  lemma MoveLoop(st: State, p: Addr, c: Addr, parent1: map<Addr, Addr>, s': Shape, parent': map<Addr, Addr>)
    requires LoopOk(st.m.live, st.m.ptr, st.shape, st.m.parent, st.rank, st.m.loop) && c !in st.m.loop
    requires p in st.shape.kids && s' == MoveShape(st.shape, p, c) && HasKeys(st.m.live, s')
    requires RootsKept(st.m.live, st.shape, c, st.m.parent, parent1)
    requires RootsKept(st.m.live, DetachShape(st.shape, c), c, parent1, parent')
    ensures LoopOk(st.m.live, st.m.ptr, s', parent', st.rank, st.m.loop)
  {
    forall d | d in st.m.loop ensures LoopAt(st.m.live, st.m.ptr, s', parent', st.rank, d) {
      assert LoopAt(st.m.live, st.m.ptr, st.shape, st.m.parent, st.rank, d);
      assert d in parent1 && parent1[d] == st.m.parent[d];
    }
  }

  lemma MoveState(st: State, p: Addr, c: Addr, parent1: map<Addr, Addr>, st': State)
    requires ValidState(st) && c !in st.m.loop && c in st.m.live && p in st.m.live && p !in st.m.ptr
    requires st'.shape == MoveShape(st.shape, p, c)
    requires st'.m == st.m.(sib := st'.m.sib, parent := st'.m.parent, child := st'.m.child) && st'.rank == st.rank
    requires SiblingRep(st.m.live, st'.shape, st'.m.sib, st'.m.parent, st'.m.child, st.m.loop)
    requires RootsKept(st.m.live, st.shape, c, st.m.parent, parent1)
    requires RootsKept(st.m.live, DetachShape(st.shape, c), c, parent1, st'.m.parent)
    requires var v := Referent(st.m.ptr, c); p in st.rank && v in st.rank && st.rank[p] < st.rank[v]
    ensures Stolen(st, p, c, st')
  {
    MoveConsistent(st, p, c, parent1, st');
    MoveStateGraph(st, p, c, st');
  }

  lemma MoveStateGraph(st: State, p: Addr, c: Addr, st': State)
    requires ValidState(st) && c in st.m.live && HasKeys(st.m.live, st'.shape)
    requires Moved(st.shape, p, c, st'.shape) && st'.m.live == st.m.live && st'.m.ptr == st.m.ptr
    ensures var v := Referent(st.m.ptr, c);
            StateGraph(st') == AddOwner(DropOwner(StateGraph(st), v, st.shape.up[c]), v, p)
  {
    if c in st.m.ptr {
      MoveHandleGraph(st.m.live, st.m.ptr, st.shape, st'.shape, c);
    } else {
      MoveGraph(st.m.live, st.m.ptr, st.shape, st'.shape, c);
    }
  }

  /** A new parent of lower rank, or none, keeps the ranks in order. */
  lemma UpRank(live: set<Addr>, ptr: map<Addr, Addr>, s: Shape, s': Shape, rank: map<Addr, nat>, c: Addr)
    requires RankOk(live, ptr, s, rank) && HasKeys(live, s') && c in live
    requires s'.up == s.up[c := s'.up[c]]
    requires s'.up[c] != NULL ==>
               var v := Referent(ptr, c); s'.up[c] in rank && v in rank && rank[s'.up[c]] < rank[v]
    ensures RankOk(live, ptr, s', rank)
  {
    forall d | d in live ensures RankAt(live, ptr, s', rank, d) {
      assert RankAt(live, ptr, s, rank, d);
    }
  }

  /** `st'` is `st` with the chunk `c` taken off its list and flagged. */
  lemma DetachState(st: State, c: Addr, st': State)
    requires ValidState(st) && c in st.m.live && c !in st.m.ptr && c !in st.m.loop
    requires c in st.shape.held && st.shape.held[c] == []
    requires st'.m == st.m.(sib := st'.m.sib, parent := st'.m.parent, child := st'.m.child, loop := st.m.loop + {c})
    requires st'.shape == DetachShape(st.shape, c) && st'.rank == st.rank
    requires SiblingRep(st.m.live, st'.shape, st'.m.sib, st'.m.parent, st'.m.child, st.m.loop + {c})
    requires RootsKept(st.m.live, st.shape, c, st.m.parent, st'.m.parent)
    requires c in st'.m.parent && c in st.shape.up && (st'.m.parent[c] == NULL || st'.m.parent[c] == st.shape.up[c])
    ensures ValidState(st')
    ensures c in StateGraph(st) && StateGraph(st') == StateGraph(st)[c := multiset{NULL}]
  {
    NodeFacts(st, c);
    DetachWellShaped(st.m.live, st.m.ptr, st.shape, c);
    SameHandles(st.m.live, st.shape, st'.shape, st.m.hnd, st.m.refs);
    UpRank(st.m.live, st.m.ptr, st.shape, st'.shape, st.rank, c);
    DetachStateGraph(st, c, st');
    DetachLoop(st, c, st'.shape, st'.m.parent);
  }

  lemma DetachLoop(st: State, c: Addr, s': Shape, parent': map<Addr, Addr>)
    requires LoopOk(st.m.live, st.m.ptr, st.shape, st.m.parent, st.rank, st.m.loop)
    requires HasKeys(st.m.live, st.shape) && c in st.m.live && c !in st.m.ptr && c !in st.m.loop && st.shape.held[c] == []
    requires TreeAt(st.m.live, st.shape, c) && HandleAt(st.m.live, st.m.ptr, st.shape, c)
    requires RankAt(st.m.live, st.m.ptr, st.shape, st.rank, c)
    requires s' == DetachShape(st.shape, c) && HasKeys(st.m.live, s')
    requires RootsKept(st.m.live, st.shape, c, st.m.parent, parent')
    requires c in parent' && (parent'[c] == NULL || parent'[c] == st.shape.up[c])
    ensures LoopOk(st.m.live, st.m.ptr, s', parent', st.rank, st.m.loop + {c})
  {
    assert LoopAt(st.m.live, st.m.ptr, s', parent', st.rank, c);
    forall d | d in st.m.loop ensures LoopAt(st.m.live, st.m.ptr, s', parent', st.rank, d) {
      assert LoopAt(st.m.live, st.m.ptr, st.shape, st.m.parent, st.rank, d);
    }
  }

  lemma DetachStateGraph(st: State, c: Addr, st': State)
    requires ValidState(st) && c in st.m.live && c !in st.m.ptr && c in st.shape.held && st.shape.held[c] == []
    requires st'.m.live == st.m.live && st'.m.ptr == st.m.ptr && st'.shape == DetachShape(st.shape, c)
    requires HasKeys(st.m.live, st'.shape)
    ensures c in StateGraph(st) && StateGraph(st') == StateGraph(st)[c := multiset{NULL}]
  {
    OwnerEdges(st, c);
    var o := st.shape.up[c];
    MoveGraph(st.m.live, st.m.ptr, st.shape, st'.shape, c);
    ExchangeOwner(StateGraph(st), c, o, NULL);
    assert StateGraph(st)[c] == multiset{o};
    assert multiset{o} - multiset{o} + multiset{NULL} == multiset{NULL};
  }

  /** `st'` is `st` without the childless chunk `c`, whose free was in progress. */
  lemma ForgetState(st: State, c: Addr, st': State)
    requires ValidState(st) && c in st.m.loop && c in st.shape.kids && st.shape.kids[c] == []
    requires LoopBelow(st.m.loop, st.rank, c)
    requires st'.m == st.m.(live := st.m.live - {c}, loop := st.m.loop - {c})
    requires st'.shape == Forget(st.shape, c) && st'.rank == st.rank
    ensures ValidState(st')
    ensures StateGraph(st') == StateGraph(st) - {c}
  {
    assert LoopAt(st.m.live, st.m.ptr, st.shape, st.m.parent, st.rank, c);
    ForgetChunk(st.m.live, st.m.ptr, st.shape, c);
    assert st.m.loop - {c} + {c} == st.m.loop;
    ForgetSiblingRep(st.m.live, st.shape, st.m.sib, st.m.parent, st.m.child, st.m.loop - {c}, c);
    ForgetRest(st, c, st'.m.live, st'.shape);
    ForgetLoop(st, c, st'.m.live, st'.shape);
  }

  lemma ForgetLoop(st: State, c: Addr, live': set<Addr>, s': Shape)
    requires LoopOk(st.m.live, st.m.ptr, st.shape, st.m.parent, st.rank, st.m.loop)
    requires LoopBelow(st.m.loop, st.rank, c)
    requires live' == st.m.live - {c} && s' == Forget(st.shape, c) && HasKeys(live', s')
    ensures LoopOk(live', st.m.ptr, s', st.m.parent, st.rank, st.m.loop - {c})
  {
    forall d | d in st.m.loop - {c} ensures LoopAt(live', st.m.ptr, s', st.m.parent, st.rank, d) {
      assert LoopAt(st.m.live, st.m.ptr, st.shape, st.m.parent, st.rank, d);
    }
  }

  lemma ForgetRest(st: State, c: Addr, live': set<Addr>, s': Shape)
    requires HandleRep(st.m.live, st.shape, st.m.hnd, st.m.refs) && RankOk(st.m.live, st.m.ptr, st.shape, st.rank)
    requires live' == st.m.live - {c} && s' == Forget(st.shape, c)
    ensures HandleRep(live', s', st.m.hnd, st.m.refs) && RankOk(live', st.m.ptr, s', st.rank)
  {
    forall d | d in live'
      ensures RankAt(live', st.m.ptr, s', st.rank, d) && HeldAt(live', s', st.m.hnd, st.m.refs, d)
    {
      assert RankAt(st.m.live, st.m.ptr, st.shape, st.rank, d) && HeldAt(st.m.live, st.shape, st.m.hnd, st.m.refs, d);
    }
  }

  lemma StateRanked(st: State)
    requires ValidState(st)
    ensures Ranked(StateGraph(st), st.rank)
  {
    RankedGraph(st.m.live, st.m.ptr, st.shape, st.rank);
  }

  /** A chunk whose free is in progress is a root that nobody owns. */
  lemma LoopGraph(st: State, c: Addr)
    requires ValidState(st) && c in st.m.loop
    ensures c != NULL && c in StateGraph(st) && StateGraph(st)[c] == multiset{NULL}
    ensures c in st.shape.held && st.shape.held[c] == []
    ensures c in st.m.live && c !in st.m.ptr
  {
    assert LoopAt(st.m.live, st.m.ptr, st.shape, st.m.parent, st.rank, c);
    GraphAt(st.m.live, st.m.ptr, st.shape, c);
  }

  /** The first child of a chunk. */
  lemma FirstChild(st: State, c: Addr)
    requires ValidState(st) && c in st.m.live && c !in st.m.ptr && c in st.m.child && st.m.child[c] != NULL
    ensures c in st.rank && c != NULL
    ensures var k := st.m.child[c];
            && k in st.m.live && k !in st.m.loop && k in st.shape.up && st.shape.up[k] == c && k in st.rank
            && (k !in st.m.ptr ==> st.rank[c] < st.rank[k])
            && c != Referent(st.m.ptr, k)
            && k in st.m.refs && k in st.shape.held
            && (st.m.refs[k] == NULL <==> st.shape.held[k] == [])
            && (st.m.refs[k] != NULL ==> st.m.refs[k] == st.shape.held[k][0])
  {
    assert KidsAt(st.m.live, st.shape, st.m.sib, st.m.parent, st.m.child, c) && TreeAt(st.m.live, st.shape, c);
    var k := st.m.child[c];
    assert k == st.shape.kids[c][0] && k in st.shape.kids[c];
    HeadFields(st, k);
    assert RankAt(st.m.live, st.m.ptr, st.shape, st.rank, k) && HandleAt(st.m.live, st.m.ptr, st.shape, k);
    assert RankAt(st.m.live, st.m.ptr, st.shape, st.rank, c);
    assert k in st.m.loop ==> LoopAt(st.m.live, st.m.ptr, st.shape, st.m.parent, st.rank, k);
  }

  /** What `_tc_free_internal` does to `c`.  A handle is simply dropped.  An unreferenced chunk is freed
      with everything it dominates.  A referenced chunk only loses its first reference. */
  ghost predicate FreeOutcome(st: State, c: Addr, status: int, st': State) {
    && ValidState(st') && st'.rank == st.rank && st'.m.loop == st.m.loop && st'.m.live < st.m.live
    && c in st.shape.up && c in st.m.refs
    && if c in st.m.ptr then
         && status == 0 && Dropped(st, c, st')
         && StateGraph(st') == DropOwner(StateGraph(st), st.m.ptr[c], st.shape.up[c])
       else if st.m.refs[c] == NULL then
         status == 0 && Freed(StateGraph(st), c, StateGraph(st'))
       else
         var h := st.m.refs[c];
         && status == -1 && Dropped(st, h, st')
         && StateGraph(st') == DropOwner(StateGraph(st), c, st.shape.up[h])
  }

  lemma HandleOutcome(st: State, c: Addr, st': State)
    requires ValidState(st) && c in st.m.ptr && ValidState(st') && st'.rank == st.rank && Dropped(st, c, st')
    requires StateGraph(st') == DropOwner(StateGraph(st), st.m.ptr[c], st.shape.up[c])
    ensures FreeOutcome(st, c, 0, st')
  {
    HeadFields(st, c);
  }

  lemma ReferencedOutcome(st: State, c: Addr, st': State)
    requires ValidState(st) && c in st.m.live && c in st.m.refs && st.m.refs[c] != NULL
    requires FreeOutcome(st, st.m.refs[c], 0, st')
    ensures FreeOutcome(st, c, -1, st')
  {
    HeadFields(st, c);
  }

  /** When the last child is gone, forgetting the chunk completes its free. */
  lemma FreedAtEnd(st0: State, c: Addr, st: State, g1: Graph, st': State)
    requires ValidState(st0) && c in st0.m.live && c !in st0.m.ptr && c in st0.m.refs && st0.m.refs[c] == NULL
    requires c !in st0.m.loop
    requires ValidState(st) && st.m.loop == st0.m.loop + {c} && st.m.live <= st0.m.live && st.rank == st0.rank
    requires c in st.shape.kids && st.shape.kids[c] == []
    requires LoopBelow(st.m.loop, st.rank, c)
    requires c in StateGraph(st0) && g1 == StateGraph(st0)[c := multiset{NULL}] && Partial(g1, c, StateGraph(st))
    requires st'.m == st.m.(live := st.m.live - {c}, loop := st.m.loop - {c})
    requires st'.shape == Forget(st.shape, c) && st'.rank == st.rank
    ensures FreeOutcome(st0, c, 0, st')
  {
    hide Consistent, Partial, Freed, ValidState, StateGraph;
    PartialKeeps(g1, c, StateGraph(st));
    FreedGraph(StateGraph(st0), c, st, g1);
    ForgetState(st, c, st');
    HeadFields(st0, c);
    assert st'.m.loop == st0.m.loop;
  }

  lemma FreedGraph(g0: Graph, c: Addr, st: State, g1: Graph)
    requires ValidState(st) && c in st.m.loop && c in st.shape.kids && st.shape.kids[c] == []
    requires c in g0 && g1 == g0[c := multiset{NULL}] && Partial(g1, c, StateGraph(st))
    ensures Freed(g0, c, StateGraph(st) - {c})
  {
    LoopGraph(st, c);
    StateRanked(st);
    Childless(st, c);
    PartialDone(g1, st.rank, c, StateGraph(st));
    FreedAfterDetach(g0, c, multiset{NULL}, StateGraph(st) - {c});
  }

  lemma Childless(st: State, c: Addr)
    requires ValidState(st) && c in st.m.live && st.shape.kids[c] == []
    ensures forall v :: v in StateGraph(st) ==> c !in StateGraph(st)[v]
  {
    ChildlessOwnsNothing(st.m.live, st.m.ptr, st.shape, c);
  }

  // ----- the three outcomes of a round of the child-freeing loop, with `k` the first child of `c`

  /** The first reference of `k` is gone; its former holder may now become the parent. */
  lemma ReadyToSteal(st0: State, c: Addr, st1: State)
    requires ValidState(st0) && c in st0.m.live && c !in st0.m.ptr && c in st0.m.child && st0.m.child[c] != NULL
    requires var k := st0.m.child[c];
             k !in st0.m.ptr && k in st0.m.refs && st0.m.refs[k] != NULL && FreeOutcome(st0, k, -1, st1)
    ensures var k := st0.m.child[c];
            var p := st0.shape.up[st0.m.refs[k]];
            && k in st1.m.live && k !in st1.m.loop && p in st1.m.live && p !in st1.m.ptr
            && k in st1.shape.up && st1.shape.up[k] == c
            && Referent(st1.m.ptr, k) == k && p in st1.rank && k in st1.rank && st1.rank[p] < st1.rank[k]
  {
    FirstChild(st0, c);
    HeadFields(st0, st0.m.child[c]);
  }

  lemma RankAbove(loop: set<Addr>, rank: map<Addr, nat>, c: Addr, k: Addr)
    requires LoopBelow(loop, rank, c) && k in rank && rank[c] < rank[k]
    ensures LoopBelow(loop, rank, k)
  {
  }

  lemma HandedOver(g0: Graph, c: Addr, st0: State, st1: State, st2: State)
    requires ValidState(st0) && c in st0.m.live && c !in st0.m.ptr && c in st0.m.child && st0.m.child[c] != NULL
    requires Partial(g0, c, StateGraph(st0))
    requires var k := st0.m.child[c];
             && k !in st0.m.ptr && k in st0.m.refs && st0.m.refs[k] != NULL
             && var h := st0.m.refs[k];
             && FreeOutcome(st0, k, -1, st1)
             && Stolen(st1, st0.shape.up[h], k, st2)
    ensures Partial(g0, c, StateGraph(st2))
  {
    FirstChild(st0, c);
    var k := st0.m.child[c];
    OwnerEdges(st0, k);
    var h := st0.m.refs[k];
    assert h in st0.shape.held[k];
    PromoteReference(StateGraph(st0), k, c, st0.shape.up[h]);
    PartialDropEdge(g0, c, StateGraph(st0), k);
  }

  lemma HandleFreed(g0: Graph, c: Addr, st0: State, st1: State)
    requires ValidState(st0) && c in st0.m.live && c !in st0.m.ptr && c in st0.m.child && st0.m.child[c] != NULL
    requires Partial(g0, c, StateGraph(st0)) && st0.m.child[c] in st0.m.ptr
    requires FreeOutcome(st0, st0.m.child[c], 0, st1)
    ensures Partial(g0, c, StateGraph(st1))
  {
    FirstChild(st0, c);
    OwnerEdges(st0, st0.m.child[c]);
    PartialDropEdge(g0, c, StateGraph(st0), st0.m.ptr[st0.m.child[c]]);
  }

  lemma ChildFreed(g0: Graph, c: Addr, st0: State, st1: State)
    requires ValidState(st0) && c in st0.m.live && c !in st0.m.ptr && c in st0.m.child && st0.m.child[c] != NULL
    requires Partial(g0, c, StateGraph(st0))
    requires st0.m.child[c] !in st0.m.ptr && FreeOutcome(st0, st0.m.child[c], 0, st1)
    ensures Partial(g0, c, StateGraph(st1))
  {
    FirstChild(st0, c);
    OwnerEdges(st0, st0.m.child[c]);
    StateRanked(st0);
    PartialFreeChild(g0, st0.rank, c, StateGraph(st0), st0.m.child[c], StateGraph(st1));
  }

  lemma ChunkInGraph(st: State, c: Addr)
    requires ValidState(st)
    ensures c in StateGraph(st) <==> c in st.m.live && c !in st.m.ptr
  {
    GraphAt(st.m.live, st.m.ptr, st.shape, c);
  }

  lemma AllChildrenFreed(g0: Graph, c: Addr, st: State)
    requires ValidState(st) && c in st.m.live && c !in st.m.ptr && st.shape.kids[c] == []
    requires Partial(g0, c, StateGraph(st))
    ensures ChildrenFreed(g0, c, StateGraph(st))
  {
    StateRanked(st);
    Childless(st, c);
    PartialDone(g0, st.rank, c, StateGraph(st));
  }
}
