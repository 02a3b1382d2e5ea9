/** The bump-pointer pools of talloc: one block of memory that serves many chunks, counts them, and is
    released when the last of them goes. */
module TallocPool {
  const TC_HDR_SIZE: nat := 96
  const TP_HDR_SIZE: nat := 32
  const MAX_TALLOC_SIZE: nat := 0x10000000
  const UINT_MAX: nat := 0xFFFF_FFFF
  const SIZE_RANGE: nat := 0x1_0000_0000_0000_0000

  /** A multiple of 16. */
  ghost predicate Aligned(n: nat) {
    exists k: nat :: n == k * 16
  }

  lemma AlignedMeans(n: nat)
    ensures Aligned(n) <==> n % 16 == 0
  {
    if n % 16 == 0 {
      assert n == (n / 16) * 16;
    }
  }

  lemma AlignedSum(a: nat, b: nat)
    requires Aligned(a) && Aligned(b)
    ensures Aligned(a + b)
  {
    AlignedMeans(a);
    AlignedMeans(b);
    AlignedMeans(a + b);
  }

  /** `TC_ALIGN16`, for sizes far below the range of size_t. */
  function Align16(n: nat): (r: nat)
    ensures n <= r < n + 16
  {
    if n == 0 then 0 else if n <= 16 then 16 else Align16(n - 16) + 16
  }

  /** This is rounding up to a multiple of 16. */
  lemma {:induction false} AlignMeans(n: nat)
    ensures Align16(n) == (n + 15) / 16 * 16 && Aligned(Align16(n))
  {
    if n > 16 {
      AlignMeans(n - 16);
    }
    AlignedMeans(Align16(n));
  }

  lemma {:induction false} AlignMonotone(x: nat, y: nat)
    requires x <= y
    ensures Align16(x) <= Align16(y)
  {
    if x > 16 {
      AlignMonotone(x - 16, y - 16);
    }
  }

  lemma AlignHeader(n: nat)
    ensures Align16(TC_HDR_SIZE + n) == TC_HDR_SIZE + Align16(n)
  {
    AlignMeans(n);
    AlignMeans(TC_HDR_SIZE + n);
  }

  /** The pool chunk at `chunk`, its header fields, and the members that have not been freed with their
      sizes.  `released` counts the calls that give the memory back. */
  datatype Pool = Pool(chunk: nat, size: nat, poolsize: nat, end: nat, objectCount: nat, freed: bool, released: nat,
                       live: map<nat, nat>)
  {
    function Last(): nat {
      chunk + TC_HDR_SIZE + poolsize
    }

    function First(): nat {
      chunk + Align16(TC_HDR_SIZE + size)
    }
  }

  /** How many bytes a chunk of `size` bytes takes in a pool. */
  function Footprint(size: nat): (r: nat)
    ensures r >= TC_HDR_SIZE && Aligned(r)
  {
    AlignMeans(TC_HDR_SIZE + size);
    Align16(TC_HDR_SIZE + size)
  }

  ghost predicate InPool(p: Pool, a: nat)
    requires a in p.live
  {
    Aligned(a) && p.First() <= a && a + Footprint(p.live[a]) <= p.end
  }

  ghost predicate Apart(p: Pool, a: nat, b: nat)
    requires a in p.live && b in p.live
  {
    a + Footprint(p.live[a]) <= b || b + Footprint(p.live[b]) <= a
  }

  /** Members are aligned, below `end`, and overlap neither each other nor the pool chunk; the count is the
      number of members, plus one while the pool chunk is not freed; the memory is released exactly when
      that count has reached zero. */
  ghost predicate Valid(p: Pool) {
    && Aligned(p.chunk) && Aligned(p.end) && p.First() <= p.end <= p.Last() && p.poolsize < MAX_TALLOC_SIZE
    && (forall a {:trigger InPool(p, a)} :: a in p.live ==> InPool(p, a))
    && (forall a, b {:trigger Apart(p, a, b)} :: a in p.live && b in p.live && a != b ==> Apart(p, a, b))
    && p.objectCount == |p.live| + (if p.freed then 0 else 1)
    && p.released == (if p.objectCount == 0 then 1 else 0)
  }

  /** What callers rely on: the header of a member and its bytes lie inside the pool, behind the pool chunk's own,
      on a boundary of 16 bytes, and meet those of no other member. */
  ghost predicate OwnRoom(p: Pool) {
    && (forall a {:trigger a in p.live} :: a in p.live ==>
          a % 16 == 0 && p.chunk + 96 + p.size <= a && a + 96 + p.live[a] <= p.chunk + 96 + p.poolsize)
    && (forall a, b {:trigger a in p.live, b in p.live} :: a in p.live && b in p.live && a < b ==>
          a + 96 + p.live[a] <= b)
  }

  lemma HasOwnRoom(p: Pool)
    requires Valid(p)
    ensures OwnRoom(p)
  {
    forall a | a in p.live
      ensures a % 16 == 0 && p.chunk + 96 + p.size <= a && a + 96 + p.live[a] <= p.chunk + 96 + p.poolsize
    {
      assert InPool(p, a);
      AlignedMeans(a);
    }
    forall a, b | a in p.live && b in p.live && a < b ensures a + 96 + p.live[a] <= b {
      assert Apart(p, a, b);
    }
  }

  // ----- what the operations do

  datatype Outcome = InPlace(at: nat) | MovedInPool(to: nat) | Escaped | Refused

  function Served(p: Pool, size: nat): Pool {
    p.(end := p.end + Footprint(size), objectCount := p.objectCount + 1, live := p.live[p.end := size])
  }

  /** A member goes.  The only member gives the whole room back, the topmost one its own room. */
  function Dropped(p: Pool, a: nat): Pool
    requires a in p.live && p.objectCount > 0
  {
    var n := p.objectCount - 1;
    p.(live := p.live - {a}, objectCount := n,
       end := if n == 1 && !p.freed then p.First()
              else if n != 0 && p.end == a + Footprint(p.live[a]) then a
              else p.end,
       released := if n == 0 then p.released + 1 else p.released)
  }

  function PoolDropped(p: Pool): Pool
    requires p.objectCount > 0
  {
    p.(freed := true, objectCount := p.objectCount - 1,
       released := if p.objectCount == 1 then p.released + 1 else p.released)
  }

  predicate IsTop(p: Pool, a: nat)
    requires a in p.live
  {
    p.end == a + Footprint(p.live[a])
  }

  /** A member gets another size and maybe another place, and the pool another end. */
  function Replaced(p: Pool, a: nat, to: nat, size: nat, end: nat): Pool {
    p.(live := (p.live - {a})[to := size], end := end)
  }

  function Resized(p: Pool, a: nat, size: nat, memory: bool): (Pool, Outcome)
    requires a in p.live && p.objectCount > 0
  {
    var old_, new_ := Footprint(p.live[a]), Footprint(size);
    if size < p.live[a] then (Replaced(p, a, a, size, if IsTop(p, a) then a + new_ else p.end), InPlace(a))
    else if size == p.live[a] then (p, InPlace(a))
    else if |p.live| == 1 && p.First() + new_ <= p.Last() then
      (Replaced(p, a, p.First(), size, p.First() + new_), MovedInPool(p.First()))
    else if new_ == old_ then (Replaced(p, a, a, size, p.end), InPlace(a))
    else if |p.live| != 1 && IsTop(p, a) && a + new_ <= p.Last() then
      (Replaced(p, a, a, size, a + new_), InPlace(a))
    else if p.end + new_ <= p.Last() then (Dropped(Served(p, size), a), MovedInPool(p.end))
    else if memory then (Dropped(p, a), Escaped)
    else (p, Refused)
  }

  // ----- the invariant

  lemma CardMinus<T>(s: map<T, nat>, a: T)
    requires a in s
    ensures |s - {a}| == |s| - 1
  {
    assert (s - {a}).Keys == s.Keys - {a};
    assert |s.Keys| == |s| && |(s - {a}).Keys| == |s - {a}|;
  }

  lemma CardPlus<T>(s: map<T, nat>, a: T, x: nat)
    requires a !in s
    ensures |s[a := x]| == |s| + 1
  {
    assert s[a := x].Keys == s.Keys + {a};
    assert |s.Keys| == |s| && |s[a := x].Keys| == |s[a := x]|;
  }

  lemma ServedValid(p: Pool, size: nat)
    requires Valid(p) && p.released == 0 && p.end + Footprint(size) <= p.Last()
    ensures Valid(Served(p, size)) && p.end !in p.live
    ensures Served(p, size).released == 0
  {
    var q := Served(p, size);
    AlignedSum(p.end, Footprint(size));
    assert p.end in p.live ==> InPool(p, p.end);
    CardPlus(p.live, p.end, size);
    forall a | a in q.live ensures InPool(q, a) {
      assert a != p.end ==> InPool(p, a);
    }
    forall a, b | a in q.live && b in q.live && a != b ensures Apart(q, a, b) {
      if a != p.end && b != p.end {
        assert Apart(p, a, b);
      } else if a != p.end {
        assert InPool(p, a);
      } else {
        assert InPool(p, b);
      }
    }
  }

  /** Lowering `end` onto the topmost member is safe: everybody else is below it. */
  lemma BelowTop(p: Pool, a: nat, b: nat)
    requires Valid(p) && a in p.live && b in p.live && a != b && IsTop(p, a)
    ensures b + Footprint(p.live[b]) <= a
  {
    assert Apart(p, a, b) && InPool(p, b) && InPool(p, a);
  }

  lemma OnlyMember(p: Pool, a: nat, b: nat)
    requires a in p.live && b in p.live && |p.live| == 1
    ensures a == b
  {
    if a != b {
      CardMinus(p.live, a);
      if b in p.live - {a} {
        assert false;
      }
    }
  }

  lemma FirstAligned(p: Pool)
    requires Aligned(p.chunk)
    ensures Aligned(p.First())
  {
    AlignMeans(TC_HDR_SIZE + p.size);
    AlignedSum(p.chunk, Align16(TC_HDR_SIZE + p.size));
  }

  lemma DroppedValid(p: Pool, a: nat)
    requires Valid(p) && a in p.live && p.released == 0
    ensures Valid(Dropped(p, a))
  {
    var q := Dropped(p, a);
    CardMinus(p.live, a);
    assert InPool(p, a);
    FirstAligned(p);
    forall b | b in q.live ensures InPool(q, b) {
      assert InPool(p, b);
      if IsTop(p, a) {
        BelowTop(p, a, b);
      }
      if q.objectCount == 1 && !q.freed {
        assert false;
      }
    }
    forall b, c | b in q.live && c in q.live && b != c ensures Apart(q, b, c) {
      assert Apart(p, b, c);
    }
  }

  lemma PoolDroppedValid(p: Pool)
    requires Valid(p) && !p.freed
    ensures Valid(PoolDropped(p))
  {
    var q := PoolDropped(p);
    forall a | a in q.live ensures InPool(q, a) {
      assert InPool(p, a);
    }
    forall a, b | a in q.live && b in q.live && a != b ensures Apart(q, a, b) {
      assert Apart(p, a, b);
    }
  }

  /** A member may be replaced by one at `to` that does not meet any other. */
  lemma ReplacedValid(p: Pool, a: nat, to: nat, size: nat, end: nat)
    requires Valid(p) && a in p.live && (to == a || to !in p.live) && Aligned(to) && Aligned(end)
    requires p.First() <= to && to + Footprint(size) <= end <= p.Last()
    requires forall b {:trigger b in p.live} :: b in p.live && b != a ==>
               b + Footprint(p.live[b]) <= end && (b + Footprint(p.live[b]) <= to || to + Footprint(size) <= b)
    ensures Valid(Replaced(p, a, to, size, end))
  {
    hide Aligned, Footprint;
    var q := Replaced(p, a, to, size, end);
    CardMinus(p.live, a);
    CardPlus(p.live - {a}, to, size);
    forall b | b in q.live ensures InPool(q, b) {
      assert b != to ==> InPool(p, b);
    }
    forall b, c | b in q.live && c in q.live && b != c ensures Apart(q, b, c) {
      if b != to && c != to {
        assert Apart(p, b, c);
      }
    }
  }

  lemma Neighbour(p: Pool, a: nat, size: nat, b: nat)
    requires Valid(p) && a in p.live && b in p.live && a != b
    requires Footprint(size) <= Footprint(p.live[a]) || IsTop(p, a)
    ensures b + Footprint(p.live[b]) <= a || a + Footprint(size) <= b
  {
    assert Apart(p, a, b) && InPool(p, b) && InPool(p, a);
  }

  lemma FootprintMonotone(x: nat, y: nat)
    requires x <= y
    ensures Footprint(x) <= Footprint(y)
  {
    AlignMonotone(TC_HDR_SIZE + x, TC_HDR_SIZE + y);
  }

  lemma InPlaceValid(p: Pool, a: nat, size: nat, end: nat)
    requires Valid(p) && a in p.live && Aligned(end) && end <= p.Last()
    requires if IsTop(p, a) then end == a + Footprint(size)
             else end == p.end && Footprint(size) <= Footprint(p.live[a])
    ensures Valid(Replaced(p, a, a, size, end))
  {
    assert InPool(p, a);
    forall b {:trigger b in p.live} | b in p.live && b != a
      ensures b + Footprint(p.live[b]) <= end
      ensures b + Footprint(p.live[b]) <= a || a + Footprint(size) <= b
    {
      Neighbour(p, a, size, b);
      assert InPool(p, b);
      if IsTop(p, a) {
        BelowTop(p, a, b);
      }
    }
    ReplacedValid(p, a, a, size, end);
  }

  lemma ResizedValid(p: Pool, a: nat, size: nat, memory: bool)
    requires Valid(p) && a in p.live && p.released == 0
    ensures Valid(Resized(p, a, size, memory).0)
  {
    var new_ := Footprint(size);
    if size < p.live[a] {
      ShrunkValid(p, a, size);
    } else if size == p.live[a] {
    } else if |p.live| == 1 && p.First() + new_ <= p.Last() {
      SoleValid(p, a, size);
    } else if new_ == Footprint(p.live[a]) {
      InPlaceValid(p, a, size, p.end);
    } else if |p.live| != 1 && IsTop(p, a) && a + new_ <= p.Last() {
      assert InPool(p, a);
      AlignedSum(a, new_);
      InPlaceValid(p, a, size, a + new_);
    } else if p.end + new_ <= p.Last() {
      ServedValid(p, size);
      DroppedValid(Served(p, size), a);
    } else if memory {
      DroppedValid(p, a);
    }
  }

  lemma ShrunkValid(p: Pool, a: nat, size: nat)
    requires Valid(p) && a in p.live && size < p.live[a]
    ensures Valid(Replaced(p, a, a, size, if IsTop(p, a) then a + Footprint(size) else p.end))
  {
    assert InPool(p, a);
    FootprintMonotone(size, p.live[a]);
    AlignedSum(a, Footprint(size));
    InPlaceValid(p, a, size, if IsTop(p, a) then a + Footprint(size) else p.end);
  }

  lemma SoleValid(p: Pool, a: nat, size: nat)
    requires Valid(p) && a in p.live && |p.live| == 1 && p.First() + Footprint(size) <= p.Last()
    ensures Valid(Replaced(p, a, p.First(), size, p.First() + Footprint(size)))
  {
    forall b {:trigger b in p.live} | b in p.live ensures b == a {
      OnlyMember(p, a, b);
    }
    FirstAligned(p);
    AlignedSum(p.First(), Footprint(size));
    ReplacedValid(p, a, p.First(), size, p.First() + Footprint(size));
  }

  /** Whatever way a member is resized, the others keep their place and size, and the member itself is now
      exactly where the caller is told it is. */
  lemma ResizedOutcome(p: Pool, a: nat, size: nat, memory: bool)
    requires Valid(p) && a in p.live && p.released == 0
    ensures var (q, r) := Resized(p, a, size, memory);
            && q.live == (match r
                          case InPlace(at) => p.live[at := size]
                          case MovedInPool(to) => (p.live - {a})[to := size]
                          case Escaped => p.live - {a}
                          case Refused => p.live)
            && (r.InPlace? ==> r.at == a)
            && (r.Refused? ==> q == p && !memory)
            && (r.Escaped? ==> p.end + Footprint(size) > p.Last() && memory)
            && (r.MovedInPool? && r.to in p.live ==> r.to == a)
            && q.freed == p.freed
            && (q.released == 1 <==> r.Escaped? && p.freed && |p.live| == 1)
  {
    var (q, r) := Resized(p, a, size, memory);
    CardMinus(p.live, a);
    Overwritten(p, a, size);
    if r.InPlace? {
      assert size == p.live[a] ==> p.live[a := size] == p.live;
    } else if |p.live| == 1 && p.First() + Footprint(size) <= p.Last() {
      forall b {:trigger b in p.live} | b in p.live ensures b == a {
        OnlyMember(p, a, b);
      }
    } else if r.MovedInPool? {
      ServedThenDropped(p, a, size);
    }
  }

  /** How long a member stays where it is, and where it goes.  It never moves unless it grows; alone in the pool it
      moves to the front if it fits there.  It is turned out only if it grows and there is room for it neither at
      the end, nor in its place when it is the topmost, nor in front when it is alone. */
  lemma ResizedPlace(p: Pool, a: nat, size: nat, memory: bool)
    requires Valid(p) && a in p.live && p.released == 0
    ensures var (q, r) := Resized(p, a, size, memory);
            var old_, new_ := Footprint(p.live[a]), Footprint(size);
            && (size <= p.live[a] ==> r == InPlace(a))
            && (r.Escaped? || r.Refused? <==>
                  && size > p.live[a] && new_ != old_ && p.end + new_ > p.Last()
                  && (a + old_ == p.end ==> a + new_ > p.Last())
                  && (p.live.Keys == {a} ==> p.First() + new_ > p.Last()))
            && (size > p.live[a] && p.live.Keys == {a} && p.First() + new_ <= p.Last() ==>
                  r == MovedInPool(p.First()) && q.end == p.First() + new_)
            && (r.InPlace? ==> q.end == if a + old_ == p.end then a + new_ else p.end)
            && (r.MovedInPool? && (p.live.Keys != {a} || p.First() + new_ > p.Last()) ==>
                  r.to == p.end && q.end == p.end + new_ && a + old_ != p.end)
  {
    assert InPool(p, a);
    Alone(p, a);
    if size < p.live[a] {
      FootprintMonotone(size, p.live[a]);
    } else {
      FootprintMonotone(p.live[a], size);
      ServedThenDropped(p, a, size);
    }
  }

  lemma Alone(p: Pool, a: nat)
    requires a in p.live
    ensures p.live.Keys == {a} <==> |p.live| == 1
  {
    assert |p.live.Keys| == |p.live|;
    if |p.live| == 1 {
      forall b | b in p.live ensures b == a {
        OnlyMember(p, a, b);
      }
    }
  }

  /** Whether a pool without members starts over from its front. */
  ghost predicate Rewound(p: Pool) {
    !p.freed && p.live == map[] ==> p.end == p.First()
  }

  /** When a member goes, the room of the topmost one is used again, that of another one is not before the pool
      is empty; then all of it is, whichever member was the last. */
  lemma RoomAfterDrop(p: Pool, a: nat)
    requires Valid(p) && a in p.live && p.released == 0
    ensures var q := Dropped(p, a);
            && q.live == p.live - {a} && Rewound(q)
            && (q.live != map[] ==> q.end == if a + Footprint(p.live[a]) == p.end then a else p.end)
  {
    CardMinus(p.live, a);
    assert |p.live - {a}| == 0 <==> p.live - {a} == map[];
  }

  lemma ServedThenDropped(p: Pool, a: nat, size: nat)
    requires Valid(p) && a in p.live
    ensures p.end !in p.live
    ensures Served(p, size).live - {a} == (p.live - {a})[p.end := size]
    ensures Dropped(Served(p, size), a) == p.(live := (p.live - {a})[p.end := size], end := p.end + Footprint(size))
  {
    EndIsFree(p);
    CardMinus(p.live, a);
    assert InPool(p, a);
  }

  /** Freeing the member that was allocated last gives its room back: the pool is what it was, and a pool left
      without members starts over. */
  lemma LastGivesBack(p: Pool, size: nat)
    requires Valid(p) && p.released == 0
    ensures p.end !in p.live
    ensures Dropped(Served(p, size), p.end) == if p.live == map[] && !p.freed then p.(end := p.First()) else p
  {
    EndIsFree(p);
    CardPlus(p.live, p.end, size);
    assert Served(p, size).live - {p.end} == p.live;
    assert p.live == map[] <==> |p.live| == 0;
  }

  // ----- the count cannot overflow

  /** The header sizes keep members at least 96 bytes apart, so there are not many. */
  lemma {:induction false} MembersBounded(p: Pool, live: set<nat>, lo: nat, hi: nat)
    requires forall a :: a in live ==> lo <= a && a + TC_HDR_SIZE <= hi
    requires forall a, b :: a in live && b in live && a != b ==> a + TC_HDR_SIZE <= b || b + TC_HDR_SIZE <= a
    requires lo <= hi
    ensures |live| * TC_HDR_SIZE <= hi - lo
    decreases |live|
  {
    if live != {} {
      var top := Highest(live);
      var rest := live - {top};
      assert live == rest + {top};
      MembersBounded(p, rest, lo, top);
    }
  }

  lemma {:induction false} Highest(live: set<nat>) returns (top: nat)
    requires live != {}
    ensures top in live && forall a :: a in live ==> a <= top
    decreases |live|
  {
    top :| top in live;
    var rest := live - {top};
    if rest != {} {
      var other := Highest(rest);
      assert live == rest + {top};
      top := if other > top then other else top;
    } else {
      assert live == {top};
    }
  }

  lemma CountFits(p: Pool)
    requires Valid(p)
    ensures p.objectCount <= UINT_MAX && |p.live| * TC_HDR_SIZE <= p.end - p.First()
  {
    forall a | a in p.live.Keys ensures p.First() <= a && a + TC_HDR_SIZE <= p.end {
      assert InPool(p, a);
    }
    forall a, b | a in p.live.Keys && b in p.live.Keys && a != b
      ensures a + TC_HDR_SIZE <= b || b + TC_HDR_SIZE <= a
    {
      assert Apart(p, a, b);
    }
    MembersBounded(p, p.live.Keys, p.First(), p.end);
    assert |p.live.Keys| == |p.live|;
  }

  // ----- whole runs

  datatype Op =
    | Alloc(size: nat)
    | FreeMember(a: nat)
    | FreePool
    | StealOut(a: nat)
    | Realloc(a: nat, size: nat, memory: bool)

  /** What a caller may do: use memory that has not been given back, through pointers that are still good. */
  predicate Allowed(p: Pool, op: Op) {
    && p.released == 0
    && match op
       case Alloc(_) => true
       case FreeMember(a) => a in p.live
       case FreePool => !p.freed
       case StealOut(a) => a in p.live
       case Realloc(a, _, _) => a in p.live
  }

  function Step(p: Pool, op: Op): Pool
    requires Allowed(p, op) && p.objectCount > 0
  {
    match op
    case Alloc(size) => if p.end + Footprint(size) <= p.Last() then Served(p, size) else p
    case FreeMember(a) => Dropped(p, a)
    case FreePool => PoolDropped(p)
    case StealOut(_) => p
    case Realloc(a, size, memory) => Resized(p, a, size, memory).0
  }

  ghost predicate IsRun(ps: seq<Pool>, ops: seq<Op>) {
    && |ps| == |ops| + 1
    && forall i :: 0 <= i < |ops| ==>
         Allowed(ps[i], ops[i]) && ps[i].objectCount > 0 && ps[i + 1] == Step(ps[i], ops[i])
  }

  lemma StepValid(p: Pool, op: Op)
    requires Valid(p) && Allowed(p, op)
    ensures p.objectCount > 0 && Valid(Step(p, op))
  {
    match op
    case Alloc(size) =>
      if p.end + Footprint(size) <= p.Last() {
        ServedValid(p, size);
      }
    case FreeMember(a) => DroppedValid(p, a);
    case FreePool => PoolDroppedValid(p);
    case StealOut(_) =>
    case Realloc(a, size, memory) => ResizedValid(p, a, size, memory);
  }

  lemma StepRewinds(p: Pool, op: Op)
    requires Valid(p) && Allowed(p, op) && Rewound(p)
    ensures p.objectCount > 0 && Rewound(Step(p, op))
  {
    match op
    case Alloc(size) => assert p.end in Served(p, size).live;
    case FreeMember(a) => RoomAfterDrop(p, a);
    case FreePool =>
    case StealOut(_) =>
    case Realloc(a, size, memory) =>
      ResizedOutcome(p, a, size, memory);
      var (q, r) := Resized(p, a, size, memory);
      match r {
        case InPlace(at) => assert a in q.live;
        case MovedInPool(to) => assert to in q.live;
        case Escaped => RoomAfterDrop(p, a);
        case Refused =>
      }
  }

  /** Over every run the members stay aligned, disjoint and inside the pool, the count is right, a pool that has
      become empty starts over, and the memory is released once at most: by the last operation, and only if nothing
      is left. */
  lemma {:induction false} RunSafe(ps: seq<Pool>, ops: seq<Op>, i: nat)
    requires IsRun(ps, ops) && Valid(ps[0]) && i < |ps|
    ensures Valid(ps[i]) && OwnRoom(ps[i])
    ensures i < |ops| ==> ps[i].released == 0
    ensures ps[i].released <= 1
    ensures ps[i].released == 1 <==> ps[i].freed && ps[i].live == map[]
    ensures Rewound(ps[0]) ==> Rewound(ps[i])
  {
    if i > 0 {
      RunSafe(ps, ops, i - 1);
      StepValid(ps[i - 1], ops[i - 1]);
      if Rewound(ps[0]) {
        StepRewinds(ps[i - 1], ops[i - 1]);
      }
    }
    HasOwnRoom(ps[i]);
    assert |ps[i].live| == 0 <==> ps[i].live == map[];
  }

  // ----- the pool of a pooled object is large enough

  /** `k` more allocations of `s` bytes in all are sure to fit. */
  predicate Budget(p: Pool, k: nat, s: nat) {
    p.end + s + k * (TC_HDR_SIZE + TP_HDR_SIZE + 15) <= p.Last()
  }

  lemma EndNeverGrows(p: Pool, op: Op)
    requires Valid(p) && Allowed(p, op) && p.objectCount > 0 && (op.FreeMember? || op.FreePool? || op.StealOut?)
    ensures Step(p, op).end <= p.end && Step(p, op).Last() == p.Last()
  {
    if op.FreeMember? {
      assert InPool(p, op.a);
    }
  }

  function AllocCount(ops: seq<Op>): nat {
    if ops == [] then 0 else AllocCount(ops[1..]) + if ops[0].Alloc? then 1 else 0
  }

  function AllocSum(ops: seq<Op>): nat {
    if ops == [] then 0 else AllocSum(ops[1..]) + if ops[0].Alloc? then ops[0].size else 0
  }

  /** Any run of at most `k` allocations of at most `s` bytes in all, with frees in between, is served from
      the pool: every allocation takes its room at the end of the pool. */
  lemma {:induction false} BudgetServes(ps: seq<Pool>, ops: seq<Op>, k: nat, s: nat)
    requires IsRun(ps, ops) && Valid(ps[0]) && Budget(ps[0], k, s)
    requires AllocCount(ops) <= k && AllocSum(ops) <= s && forall op :: op in ops ==> !op.Realloc?
    ensures forall i :: 0 <= i < |ops| && ops[i].Alloc? ==> ps[i + 1] == Served(ps[i], ops[i].size)
  {
    if ops != [] {
      var p, op := ps[0], ops[0];
      assert op in ops;
      StepValid(p, op);
      var k', s' := if op.Alloc? then k - 1 else k, if op.Alloc? then s - op.size else s;
      if !op.Alloc? {
        EndNeverGrows(p, op);
      }
      forall i | 0 <= i < |ops[1..]|
        ensures var qs, os := ps[1..], ops[1..];
                Allowed(qs[i], os[i]) && qs[i].objectCount > 0 && qs[i + 1] == Step(qs[i], os[i])
      {
        assert ps[1..][i] == ps[i + 1] && ops[1..][i] == ops[i + 1] && ps[1..][i + 1] == ps[i + 2];
      }
      BudgetServes(ps[1..], ops[1..], k', s');
      forall i | 0 <= i < |ops| && ops[i].Alloc? ensures ps[i + 1] == Served(ps[i], ops[i].size) {
        if i > 0 {
          assert ops[1..][i - 1] == ops[i] && ps[1..][i - 1] == ps[i] && ps[1..][i] == ps[i + 1];
        }
      }
    }
  }

  /** `_talloc_pooled_object`: the size asked for, unless a sum or product leaves its range. */
  function PooledSize(typeSize: nat, n: nat, total: nat): (r: int)
    requires typeSize < SIZE_RANGE && total < SIZE_RANGE && n <= UINT_MAX
  {
    var poolsize := (typeSize + total) % SIZE_RANGE;
    if poolsize < typeSize || poolsize < total || n == UINT_MAX then -1
    else
      var slack := (TC_HDR_SIZE + TP_HDR_SIZE + 15) * (n + 1) % SIZE_RANGE;
      if slack < n + 1 then -1
      else
        var tmp := (poolsize + slack) % SIZE_RANGE;
        if tmp < poolsize || tmp < slack then -1 else tmp
  }

  /** When the size computation succeeds nothing has wrapped around. */
  lemma PooledSizeExact(typeSize: nat, n: nat, total: nat)
    requires typeSize < SIZE_RANGE && total < SIZE_RANGE && n <= UINT_MAX
    ensures PooledSize(typeSize, n, total) >= 0 <==>
            n < UINT_MAX && typeSize + total + (TC_HDR_SIZE + TP_HDR_SIZE + 15) * (n + 1) < SIZE_RANGE
    ensures PooledSize(typeSize, n, total) >= 0 ==>
              PooledSize(typeSize, n, total) == typeSize + total + (TC_HDR_SIZE + TP_HDR_SIZE + 15) * (n + 1)
  {
    assert (TC_HDR_SIZE + TP_HDR_SIZE + 15) * (n + 1) < SIZE_RANGE;
  }

  class PoolChunk {
    const chunk: nat
    var size: nat
    const poolsize: nat
    var end: nat
    var objectCount: nat
    var freed: bool
    var released: nat
    var live: map<nat, nat>

    ghost function View(): Pool
      reads this
    {
      Pool(chunk, size, poolsize, end, objectCount, freed, released, live)
    }

    /** `_talloc_pool`, in memory whose chunk is at the address `at`. */
    constructor (at: nat, bytes: nat)
      requires Aligned(at) && bytes < MAX_TALLOC_SIZE
      ensures Valid(View()) && Rewound(View())
      ensures View() == Pool(at, 0, bytes, at + TC_HDR_SIZE, 1, false, 0, map[])
    {
      chunk, size, poolsize, end := at, 0, bytes, at + TC_HDR_SIZE;
      objectCount, freed, released, live := 1, false, 0, map[];
      AlignMeans(TC_HDR_SIZE);
      AlignedSum(at, TC_HDR_SIZE);
    }

    /** The object of a pooled object takes the front of its pool. */
    constructor Pooled(at: nat, typeSize: nat, n: nat, total: nat)
      requires Aligned(at) && typeSize < SIZE_RANGE && total < SIZE_RANGE && n <= UINT_MAX
      requires 0 <= PooledSize(typeSize, n, total) < MAX_TALLOC_SIZE
      ensures Valid(View()) && View().size == typeSize && View().live == map[] && View().released == 0
      ensures Budget(View(), n, total) && Rewound(View()) && !View().freed
    {
      PooledSizeExact(typeSize, n, total);
      chunk, size, poolsize := at, typeSize, PooledSize(typeSize, n, total);
      end := at + TC_HDR_SIZE + Align16(typeSize);
      objectCount, freed, released, live := 1, false, 0, map[];
      AlignHeader(typeSize);
      AlignMeans(TC_HDR_SIZE + typeSize);
      AlignedSum(at, Align16(TC_HDR_SIZE + typeSize));
    }

    function PoolEnd(): nat
      reads this
    {
      chunk + TC_HDR_SIZE + poolsize
    }

    /** `tc_alloc_pool` for a chunk of `bytes` bytes. */
    method AllocPool(bytes: nat) returns (ok: bool, result: nat)
      requires Valid(View()) && released == 0
      modifies this
      ensures Valid(View()) && View() == Step(old(View()), Alloc(bytes))
      ensures ok <==> old(end) + Footprint(bytes) <= PoolEnd()
      ensures ok ==> result == old(end) && result !in old(live) && result in live && live[result] == bytes
    {
      StepValid(View(), Alloc(bytes));
      EndIsFree(View());
      var spaceLeft := PoolEnd() - end;
      var chunkSize := Align16(TC_HDR_SIZE + bytes);
      if spaceLeft < chunkSize {
        return false, 0;
      }
      result := end;
      end := end + chunkSize;
      objectCount := objectCount + 1;
      live := live[result := bytes];
      return true, result;
    }

    /** `_tc_free_poolmem`; the memory that may be given back is that of this pool. */
    method FreePoolmem(tc: nat)
      requires Valid(View()) && released == 0 && tc in live
      modifies this
      ensures Valid(View()) && View() == Dropped(old(View()), tc)
    {
      DroppedValid(View(), tc);
      var nextTc := tc + Align16(TC_HDR_SIZE + live[tc]);
      live := live - {tc};
      objectCount := objectCount - 1;
      if objectCount == 1 && !freed {
        end := chunk + Align16(TC_HDR_SIZE + size);
        return;
      }
      if objectCount == 0 {
        released := released + 1;
        return;
      }
      if end == nextTc {
        end := tc;
      }
    }

    /** The end of `_tc_free_internal` for the pool chunk itself. */
    method FreePoolChunk()
      requires Valid(View()) && !freed
      modifies this
      ensures Valid(View()) && View() == PoolDropped(old(View()))
    {
      PoolDroppedValid(View());
      freed := true;
      objectCount := objectCount - 1;
      if objectCount != 0 {
        return;
      }
      released := released + 1;
    }

    /** The pool branches of `_talloc_realloc` for an unreferenced member without memory limit.  `memory`
        says whether malloc would succeed. */
    method Realloc(tc: nat, bytes: nat, memory: bool) returns (r: Outcome)
      requires Valid(View()) && released == 0 && tc in live && bytes < MAX_TALLOC_SIZE
      modifies this
      ensures Valid(View()) && (View(), r) == Resized(old(View()), tc, bytes, memory)
    {
      ResizedValid(View(), tc, bytes, memory);
      Overwritten(View(), tc, bytes);
      assert InPool(View(), tc);
      var nextTc := tc + Align16(TC_HDR_SIZE + live[tc]);
      if bytes < live[tc] {
        live := live[tc := bytes];
        if nextTc == end {
          end := tc + Align16(TC_HDR_SIZE + bytes);
        }
        return InPlace(tc);
      } else if live[tc] == bytes {
        return InPlace(tc);
      }
      r := Grow(tc, bytes, memory, nextTc == end);
    }

    /** The part of `_talloc_realloc` that may move a member. */
    method Grow(tc: nat, bytes: nat, memory: bool, top: bool) returns (r: Outcome)
      requires Valid(View()) && released == 0 && tc in live && live[tc] < bytes && (top <==> IsTop(View(), tc))
      modifies this
      ensures (View(), r) == Resized(old(View()), tc, bytes, memory)
    {
      Overwritten(View(), tc, bytes);
      FootprintMonotone(live[tc], bytes);
      var oldChunkSize, newChunkSize := Align16(TC_HDR_SIZE + live[tc]), Align16(TC_HDR_SIZE + bytes);
      var chunkCount := objectCount;
      if !freed {
        chunkCount := chunkCount - 1;
      }
      var last := top;
      if chunkCount == 1 {
        var start := chunk + Align16(TC_HDR_SIZE + size);
        if PoolEnd() - start >= newChunkSize {
          live := (live - {tc})[start := bytes];
          end := start + newChunkSize;
          return MovedInPool(start);
        }
        last := false;
      }
      if newChunkSize == oldChunkSize {
        live := live[tc := bytes];
        return InPlace(tc);
      }
      if last && PoolEnd() - end >= newChunkSize - oldChunkSize {
        live := live[tc := bytes];
        end := tc + newChunkSize;
        return InPlace(tc);
      }
      r := MoveOut(tc, bytes, memory);
    }

    method MoveOut(tc: nat, bytes: nat, memory: bool) returns (r: Outcome)
      requires Valid(View()) && released == 0 && tc in live
      modifies this
      ensures old(View()).end + Footprint(bytes) <= old(View()).Last() ==>
                old(View()).objectCount > 0 && r == MovedInPool(old(end)) && tc in Served(old(View()), bytes).live
                && View() == Dropped(Served(old(View()), bytes), tc)
      ensures old(View()).end + Footprint(bytes) > old(View()).Last() ==>
                (View(), r) == if memory then (Dropped(old(View()), tc), Escaped) else (old(View()), Refused)
    {
      var ok, to := AllocPool(bytes);
      if !ok && !memory {
        return Refused;
      }
      FreePoolmem(tc);
      return if ok then MovedInPool(to) else Escaped;
    }
  }

  lemma EndIsFree(p: Pool)
    requires Valid(p)
    ensures p.end !in p.live
  {
    assert p.end in p.live ==> InPool(p, p.end);
  }

  lemma Overwritten(p: Pool, a: nat, size: nat)
    requires a in p.live
    ensures (p.live - {a})[a := size] == p.live[a := size]
  {
  }
}
