/** Addresses of talloc structures. */
module Memory {
  datatype Addr = NULL | At(n: nat)
}

/** The intrusive doubly linked lists of talloc: `next` and `prev` fields of chunks and of reference
    handles, with the two list macros. */
module Lists {
  import opened Memory

  /** The link fields of every structure, by address. */
  datatype Links = Links(next: map<Addr, Addr>, prev: map<Addr, Addr>)

  ghost predicate NoDup(s: seq<Addr>) {
    forall i, j :: 0 <= i < j < |s| ==> s[i] != s[j]
  }

  /** The links of the `i`-th element of `s` point to its neighbours, NULL at both ends. */
  ghost predicate Linked(l: Links, s: seq<Addr>, i: nat)
    requires i < |s|
  {
    && s[i] in l.next && l.next[s[i]] == (if i + 1 < |s| then s[i + 1] else NULL)
    && s[i] in l.prev && l.prev[s[i]] == (if i > 0 then s[i - 1] else NULL)
  }

  /** The list that starts at `head` holds exactly `s`, in order. */
  ghost predicate Rep(l: Links, head: Addr, s: seq<Addr>) {
    && NULL !in s && NoDup(s)
    && head == (if s == [] then NULL else s[0])
    && (forall i :: 0 <= i < |s| ==> Linked(l, s, i))
  }

  ghost predicate SameLinks(l: Links, l': Links, q: Addr) {
    && q in l.next && q in l'.next && l.next[q] == l'.next[q]
    && q in l.prev && q in l'.prev && l.prev[q] == l'.prev[q]
  }

  /** A list is untouched by updates to the links of other structures. */
  lemma RepFrame(l: Links, l': Links, head: Addr, s: seq<Addr>)
    requires Rep(l, head, s)
    requires forall q :: q in s ==> SameLinks(l, l', q)
    ensures Rep(l', head, s)
  {
    forall i | 0 <= i < |s| ensures Linked(l', s, i) {
      assert Linked(l, s, i) && s[i] in s && SameLinks(l, l', s[i]);
    }
  }

  ghost function IndexOf(s: seq<Addr>, p: Addr): (i: nat)
    requires p in s
    ensures i < |s| && s[i] == p
  {
    var i :| 0 <= i < |s| && s[i] == p;
    i
  }

  ghost function Without(s: seq<Addr>, p: Addr): (r: seq<Addr>) {
    if p in s then
      var i := IndexOf(s, p);
      s[..i] + s[i + 1..]
    else s
  }

  lemma WithoutIndex(s: seq<Addr>, p: Addr, j: nat)
    requires p in s && j + 1 < |s|
    ensures |Without(s, p)| == |s| - 1
    ensures Without(s, p)[j] == if j < IndexOf(s, p) then s[j] else s[j + 1]
  {
  }

  lemma WithoutElements(s: seq<Addr>, p: Addr)
    requires p in s && NoDup(s)
    ensures NoDup(Without(s, p))
    ensures forall q :: q in Without(s, p) <==> q in s && q != p
    ensures |Without(s, p)| == |s| - 1
  {
    var r := Without(s, p);
    forall a, b | 0 <= a < b < |r| ensures r[a] != r[b] {
      WithoutIndex(s, p, a);
      WithoutIndex(s, p, b);
    }
    forall q ensures q in r <==> q in s && q != p {
      if q in r {
        WithoutIndex(s, p, IndexOf(r, q));
      }
      if q in s && q != p {
        var j := IndexOf(s, q);
        WithoutIndex(s, p, if j < IndexOf(s, p) then j else j - 1);
      }
    }
  }

  /** `_TLIST_ADD`: hook `p` into the front of the list. */
  method TlistAdd(l: Links, head: Addr, p: Addr, ghost s: seq<Addr>) returns (l': Links, head': Addr)
    requires Rep(l, head, s) && p != NULL && p !in s
    ensures Rep(l', head', [p] + s)
    ensures forall q {:trigger SameLinks(l, l', q)} :: q in l.next && q in l.prev && q !in s && q != p ==>
              SameLinks(l, l', q)
    ensures l'.next.Keys == l.next.Keys + {p} && l'.prev.Keys == l.prev.Keys + {p}
  {
    assert forall j :: 0 <= j < |s| ==> s[j] in s;
    if head == NULL {
      head' := p;
      l' := Links(l.next[p := NULL], l.prev[p := NULL]);
    } else {
      assert Linked(l, s, 0);
      l' := l.(prev := l.prev[head := p]);
      l' := l'.(next := l'.next[p := head]);
      l' := l'.(prev := l'.prev[p := NULL]);
      head' := p;
    }
    ghost var r := [p] + s;
    forall i | 0 <= i < |r| ensures Linked(l', r, i) {
      assert i > 0 ==> r[i] in s && Linked(l, s, i - 1);
    }
  }

  /** The links after the element at index `i` has been bypassed and cleared. */
  ghost function Bypass(l: Links, s: seq<Addr>, i: nat): Links
    requires i < |s|
  {
    var before := if i > 0 then s[i - 1] else NULL;
    var after := if i + 1 < |s| then s[i + 1] else NULL;
    var next := if before != NULL then l.next[before := after] else l.next;
    var prev := if after != NULL then l.prev[after := before] else l.prev;
    Links(next[s[i] := NULL], prev[s[i] := NULL])
  }

  lemma BypassRep(l: Links, head: Addr, s: seq<Addr>, p: Addr)
    requires Rep(l, head, s) && p in s
    ensures var r := Without(s, p);
            Rep(Bypass(l, s, IndexOf(s, p)), if r == [] then NULL else r[0], r)
  {
    WithoutElements(s, p);
    var i := IndexOf(s, p);
    var r := Without(s, p);
    var l' := Bypass(l, s, i);
    forall j | 0 <= j < |r| ensures Linked(l', r, j) {
      var k := if j < i then j else j + 1;
      assert r[j] == s[k] && s[k] in s;
      assert Linked(l, s, k);
      if j + 1 < |r| { assert r[j + 1] == if j + 1 < i then s[j + 1] else s[j + 2]; }
      if j > 0 { assert r[j - 1] == if j - 1 < i then s[j - 1] else s[j]; }
    }
  }

  lemma BypassFrame(l: Links, head: Addr, s: seq<Addr>, i: nat, q: Addr)
    requires Rep(l, head, s) && i < |s| && q !in s
    requires q in l.next && q in l.prev
    ensures SameLinks(l, Bypass(l, s, i), q)
  {
    assert s[i] in s;
    assert i > 0 ==> s[i - 1] in s;
    assert i + 1 < |s| ==> s[i + 1] in s;
  }

  /** `_TLIST_REMOVE`: take `p` off the list. */
  method TlistRemove(l: Links, head: Addr, p: Addr, ghost s: seq<Addr>) returns (l': Links, head': Addr)
    requires Rep(l, head, s) && p in s
    ensures Rep(l', head', Without(s, p))
    ensures l' == Bypass(l, s, IndexOf(s, p))
  {
    ghost var i := IndexOf(s, p);
    assert Linked(l, s, i);
    assert i > 0 ==> Linked(l, s, i - 1) && s[i - 1] in s;
    assert i + 1 < |s| ==> Linked(l, s, i + 1) && s[i + 1] in s;
    l', head' := l, head;
    if p == head {
      head' := l'.next[p];
      if head' != NULL {
        l' := l'.(prev := l'.prev[head' := NULL]);
      }
    } else {
      if l'.prev[p] != NULL {
        l' := l'.(next := l'.next[l'.prev[p] := l'.next[p]]);
      }
      if l'.next[p] != NULL {
        l' := l'.(prev := l'.prev[l'.next[p] := l'.prev[p]]);
      }
    }
    if p != NULL && p != head' {
      l' := Links(l'.next[p := NULL], l'.prev[p := NULL]);
    }
    assert l' == Bypass(l, s, i);
    BypassRep(l, head, s, p);
  }
}
