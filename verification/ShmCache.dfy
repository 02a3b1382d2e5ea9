/** The path cache that the tracer shares with its tracees: a direct-mapped table behind a sequence lock,
    as a machine whose steps are single accesses to the shared memory. */
module ShmCache {
  import opened Common

  const ENTRIES: nat := 1024
  const PATH_MAX: nat := 256
  const RANGE: nat := 0x1_0000_0000
  const HALF_RANGE: nat := 0x8000_0000

  // ----- hashing

  /** Exclusive or, bit by bit. */
  function Xor(a: nat, b: nat): (r: nat) {
    if a == 0 && b == 0 then 0 else 2 * Xor(a / 2, b / 2) + (a + b) % 2
  }

  function And(a: nat, b: nat): (r: nat) {
    if a == 0 || b == 0 then 0 else 2 * And(a / 2, b / 2) + (a % 2) * (b % 2)
  }

  function HashFrom(hash: nat, s: seq<nat>): (r: nat)
    requires hash < RANGE
    ensures r < RANGE
    decreases |s|
  {
    if s == [] then hash else HashFrom(Xor(hash, s[0]) * 16777619 % RANGE, s[1..])
  }

  /** The 32-bit FNV-1a hash of a string. */
  function Hash(s: seq<nat>): (r: nat)
    ensures r < RANGE
  {
    HashFrom(2166136261, s)
  }

  function Slot(s: seq<nat>): (r: nat)
    ensures r < ENTRIES
  {
    Hash(s) % ENTRIES
  }

  lemma HashSnoc(hash: nat, s: seq<nat>, b: nat)
    requires hash < RANGE
    ensures HashFrom(hash, s + [b]) == Xor(HashFrom(hash, s), b) * 16777619 % RANGE
    decreases |s|
  {
    if s == [] {
      assert (s + [b])[1..] == [];
    } else {
      assert (s + [b])[1..] == s[1..] + [b];
      HashSnoc(Xor(hash, s[0]) * 16777619 % RANGE, s[1..], b);
    }
  }

  /** `hash_str` */
  method HashStr(str: seq<nat>) returns (hash: nat)
    ensures hash == Hash(str)
  {
    hash := 2166136261;
    var i := 0;
    while i < |str|
      invariant i <= |str| && hash == Hash(str[..i])
    {
      HashSnoc(2166136261, str[..i], str[i]);
      assert str[..i + 1] == str[..i] + [str[i]];
      hash := Xor(hash, str[i]);
      hash := hash * 16777619 % RANGE;
      i := i + 1;
    }
    assert str[..i] == str;
  }

  lemma {:induction false} MaskIsRemainder(h: nat, k: nat)
    ensures And(h, Pow2(k) - 1) == h % Pow2(k)
  {
    if k == 0 {
      assert And(h, 0) == 0;
    } else {
      var m := Pow2(k - 1);
      MaskIsRemainder(h / 2, k - 1);
      assert (2 * m - 1) / 2 == m - 1 && (2 * m - 1) % 2 == 1;
      HalfRemainder(h, m);
    }
  }

  lemma HalfRemainder(h: nat, m: nat)
    requires m > 0
    ensures h % (2 * m) == 2 * ((h / 2) % m) + h % 2
  {
    var q, r := (h / 2) / m, (h / 2) % m;
    assert h / 2 == q * m + r;
    assert h == q * (2 * m) + (2 * r + h % 2);
    RemainderUnique(h, 2 * m, q, 2 * r + h % 2);
  }

  lemma RemainderUnique(h: nat, d: nat, q: nat, r: nat)
    requires d > 0 && h == q * d + r && r < d
    ensures h % d == r
  {
    var q' := h / d;
    if q' < q {
      Scale(1, q - q', d);
    } else if q < q' {
      Scale(1, q' - q, d);
    }
    assert (q - q') * d == q * d - q' * d;
  }

  lemma Scale(a: nat, b: nat, d: nat)
    requires a <= b
    ensures a * d <= b * d
  {
  }

  /** The tracer and the library in the tracee look in the same entry. */
  lemma SlotsAgree(s: seq<nat>)
    ensures And(Hash(s), ENTRIES - 1) == Slot(s)
  {
    MaskIsRemainder(Hash(s), 10);
    assert Pow2(10) == 1024;
  }

  // ----- the table

  /** One cell of the shared memory: the fields of an entry, and the bytes of its two buffers. */
  datatype Cell = Active | HashOf | Guest(i: nat) | Host(i: nat)

  datatype Loc = Loc(slot: nat, cell: Cell)

  type Memory = map<Loc, nat>

  predicate InEntry(c: Cell) {
    match c
    case Active => true
    case HashOf => true
    case Guest(i) => i < PATH_MAX
    case Host(i) => i < PATH_MAX
  }

  /** Memory starts out zeroed. */
  function Get(m: Memory, l: Loc): nat {
    if l in m then m[l] else 0
  }

  datatype Op = Insert(guest: seq<nat>, host: seq<nat>) | Clear

  /** A C string: no byte of it is zero. */
  predicate IsString(s: seq<nat>) {
    forall b :: b in s ==> b != 0
  }

  predicate IsOp(op: Op) {
    op.Insert? ==> IsString(op.guest) && IsString(op.host)
  }

  datatype Store = Store(loc: Loc, val: nat)

  /** What `strncpy` with 255 bytes and the final zero leave in byte `i` of a buffer. */
  function Padded(s: seq<nat>, i: nat): nat {
    if i < PATH_MAX - 1 && i < |s| then s[i] else 0
  }

  function InsertStores(slot: nat, g: seq<nat>, h: seq<nat>): (r: seq<Store>) {
    [Store(Loc(slot, HashOf), Hash(g))]
    + seq(PATH_MAX, i requires 0 <= i < PATH_MAX => Store(Loc(slot, Guest(i)), Padded(g, i)))
    + seq(PATH_MAX, i requires 0 <= i < PATH_MAX => Store(Loc(slot, Host(i)), Padded(h, i)))
    + [Store(Loc(slot, Active), 1)]
  }

  /** The stores between the two writes to the sequence lock, in order. */
  function Stores(op: Op): (r: seq<Store>) {
    match op
    case Insert(g, h) => InsertStores(Slot(g), g, h)
    case Clear => seq(ENTRIES, i requires 0 <= i < ENTRIES => Store(Loc(i, Active), 0))
  }

  function Apply(m: Memory, ws: seq<Store>): Memory {
    if ws == [] then m
    else
      var w := ws[|ws| - 1];
      Apply(m, ws[..|ws| - 1])[w.loc := w.val]
  }

  /** The memory after a history of complete operations. */
  function Replay(log: seq<Op>): Memory {
    if log == [] then map[] else Apply(Replay(log[..|log| - 1]), Stores(log[|log| - 1]))
  }

  /** What the table holds in `slot`: the last insertion there that no clear has followed. */
  function LastFor(log: seq<Op>, slot: nat): Option<(seq<nat>, seq<nat>)> {
    if log == [] then None
    else
      var op := log[|log| - 1];
      match op
      case Clear => if slot < ENTRIES then None else LastFor(log[..|log| - 1], slot)
      case Insert(g, h) => if Slot(g) == slot then Some((g, h)) else LastFor(log[..|log| - 1], slot)
  }

  // ----- what the memory means

  /** The entry in memory holds what `last` says. */
  ghost predicate Holds(m: Memory, slot: nat, last: Option<(seq<nat>, seq<nat>)>) {
    match last
    case None => Get(m, Loc(slot, Active)) == 0
    case Some((g, h)) =>
      && Get(m, Loc(slot, Active)) == 1 && Get(m, Loc(slot, HashOf)) == Hash(g)
      && forall i: nat {:trigger Padded(g, i)} {:trigger Padded(h, i)} :: i < PATH_MAX ==>
           Get(m, Loc(slot, Guest(i))) == Padded(g, i) && Get(m, Loc(slot, Host(i))) == Padded(h, i)
  }

  ghost predicate Untouched(ws: seq<Store>, l: Loc) {
    forall i :: 0 <= i < |ws| ==> ws[i].loc != l
  }

  lemma {:induction false} ApplyUntouched(m: Memory, ws: seq<Store>, l: Loc)
    requires Untouched(ws, l)
    ensures Get(Apply(m, ws), l) == Get(m, l)
  {
    if ws != [] {
      ApplyUntouched(m, ws[..|ws| - 1], l);
    }
  }

  /** The last store to a location decides. */
  lemma {:induction false} ApplyLast(m: Memory, ws: seq<Store>, k: nat)
    requires k < |ws| && Untouched(ws[k + 1..], ws[k].loc)
    ensures Get(Apply(m, ws), ws[k].loc) == ws[k].val
  {
    if k < |ws| - 1 {
      var rest := ws[..|ws| - 1];
      assert ws[k + 1..][|ws| - k - 2] == ws[|ws| - 1];
      assert rest[k + 1..] == ws[k + 1..][..|ws| - k - 2];
      ApplyLast(m, rest, k);
    }
  }

  lemma InsertHolds(m: Memory, slot: nat, g: seq<nat>, h: seq<nat>)
    ensures Holds(Apply(m, InsertStores(slot, g, h)), slot, Some((g, h)))
  {
    var ws := InsertStores(slot, g, h);
    assert |ws| == 2 * PATH_MAX + 2;
    assert ws[0] == Store(Loc(slot, HashOf), Hash(g));
    ApplyLast(m, ws, 0);
    assert ws[2 * PATH_MAX + 1] == Store(Loc(slot, Active), 1);
    ApplyLast(m, ws, 2 * PATH_MAX + 1);
    forall i: nat {:trigger Padded(g, i)} {:trigger Padded(h, i)} | i < PATH_MAX
      ensures Get(Apply(m, ws), Loc(slot, Guest(i))) == Padded(g, i)
      ensures Get(Apply(m, ws), Loc(slot, Host(i))) == Padded(h, i)
    {
      InsertBytes(m, slot, g, h, i);
    }
  }

  lemma InsertBytes(m: Memory, slot: nat, g: seq<nat>, h: seq<nat>, i: nat)
    requires i < PATH_MAX
    ensures var m' := Apply(m, InsertStores(slot, g, h));
            Get(m', Loc(slot, Guest(i))) == Padded(g, i) && Get(m', Loc(slot, Host(i))) == Padded(h, i)
  {
    var ws := InsertStores(slot, g, h);
    assert ws[1 + i] == Store(Loc(slot, Guest(i)), Padded(g, i));
    ApplyLast(m, ws, 1 + i);
    assert ws[1 + PATH_MAX + i] == Store(Loc(slot, Host(i)), Padded(h, i));
    ApplyLast(m, ws, 1 + PATH_MAX + i);
  }

  lemma OtherSlot(m: Memory, ws: seq<Store>, slot: nat, last: Option<(seq<nat>, seq<nat>)>)
    requires forall i :: 0 <= i < |ws| ==> ws[i].loc.slot != slot
    requires Holds(m, slot, last)
    ensures Holds(Apply(m, ws), slot, last)
  {
    forall c ensures Get(Apply(m, ws), Loc(slot, c)) == Get(m, Loc(slot, c)) {
      ApplyUntouched(m, ws, Loc(slot, c));
    }
  }

  /** After any history each entry holds the last insertion into it. */
  lemma {:induction false} ReplayHolds(log: seq<Op>, slot: nat)
    requires slot < ENTRIES
    ensures Holds(Replay(log), slot, LastFor(log, slot))
  {
    if log != [] {
      var before, op := log[..|log| - 1], log[|log| - 1];
      ReplayHolds(before, slot);
      match op
      case Clear =>
        var ws := Stores(Clear);
        assert ws[slot] == Store(Loc(slot, Active), 0);
        ApplyLast(Replay(before), ws, slot);
      case Insert(g, h) =>
        if Slot(g) == slot {
          InsertHolds(Replay(before), slot, g, h);
        } else {
          OtherSlot(Replay(before), InsertStores(Slot(g), g, h), slot, LastFor(before, slot));
        }
    }
  }

  // ----- reading an entry

  datatype Result = Hit(host: seq<nat>) | Absent | GaveUp

  /** A private copy of an entry, complete once every cell is in it. */
  type Copy = map<Cell, nat>

  ghost predicate Complete(copy: Copy) {
    forall c :: InEntry(c) ==> c in copy
  }

  /** The bytes of a buffer up to the first zero, from byte `i` on. */
  ghost function GuestString(copy: Copy, i: nat): seq<nat>
    requires Complete(copy) && i <= PATH_MAX
    decreases PATH_MAX - i
  {
    if i < PATH_MAX && copy[Guest(i)] != 0 then [copy[Guest(i)]] + GuestString(copy, i + 1) else []
  }

  ghost function HostString(copy: Copy, i: nat): seq<nat>
    requires Complete(copy) && i <= PATH_MAX
    decreases PATH_MAX - i
  {
    if i < PATH_MAX && copy[Host(i)] != 0 then [copy[Host(i)]] + HostString(copy, i + 1) else []
  }

  /** The comparison at the end of `jit_shm_lookup`. */
  ghost function Decide(copy: Copy, g: seq<nat>): Result
    requires Complete(copy)
  {
    if copy[Active] != 0 && copy[HashOf] == Hash(g) && GuestString(copy, 0) == g then Hit(HostString(copy, 0))
    else Absent
  }

  /** What a buffer of 256 bytes can keep of a string. */
  function Kept(s: seq<nat>): seq<nat> {
    if |s| < PATH_MAX then s else s[..PATH_MAX - 1]
  }

  lemma {:induction false} GuestPadded(copy: Copy, s: seq<nat>, i: nat)
    requires Complete(copy) && IsString(s) && i <= |Kept(s)|
    requires forall j: nat {:trigger Padded(s, j)} :: j < PATH_MAX ==> copy[Guest(j)] == Padded(s, j)
    ensures GuestString(copy, i) == Kept(s)[i..]
    decreases PATH_MAX - i
  {
    assert copy[Guest(i)] == Padded(s, i);
    if i < |Kept(s)| {
      assert s[i] in s;
      GuestPadded(copy, s, i + 1);
      assert Kept(s)[i..] == [s[i]] + Kept(s)[i + 1..];
    }
  }

  lemma {:induction false} HostPadded(copy: Copy, s: seq<nat>, i: nat)
    requires Complete(copy) && IsString(s) && i <= |Kept(s)|
    requires forall j: nat {:trigger Padded(s, j)} :: j < PATH_MAX ==> copy[Host(j)] == Padded(s, j)
    ensures HostString(copy, i) == Kept(s)[i..]
    decreases PATH_MAX - i
  {
    assert copy[Host(i)] == Padded(s, i);
    if i < |Kept(s)| {
      assert s[i] in s;
      HostPadded(copy, s, i + 1);
      assert Kept(s)[i..] == [s[i]] + Kept(s)[i + 1..];
    }
  }

  /** The answer that the contents of the table call for. */
  ghost function Answer(log: seq<Op>, g: seq<nat>): Result {
    match LastFor(log, Slot(g))
    case None => Absent
    case Some((g', h')) => if Hash(g') == Hash(g) && Kept(g') == g then Hit(Kept(h')) else Absent
  }

  ghost predicate CopyOf(copy: Copy, m: Memory, slot: nat) {
    forall c :: c in copy ==> copy[c] == Get(m, Loc(slot, c))
  }

  /** A copy of an entry that nobody was writing gives the right answer. */
  lemma CleanCopy(log: seq<Op>, copy: Copy, g: seq<nat>)
    requires Complete(copy) && CopyOf(copy, Replay(log), Slot(g)) && forall op :: op in log ==> IsOp(op)
    ensures Decide(copy, g) == Answer(log, g)
  {
    ReplayHolds(log, Slot(g));
    assert InEntry(Active) && InEntry(HashOf);
    match LastFor(log, Slot(g))
    case None =>
    case Some((g', h')) =>
      LastIsOp(log, Slot(g), g', h');
      assert forall i: nat :: i < PATH_MAX ==> InEntry(Guest(i)) && InEntry(Host(i));
      GuestPadded(copy, g', 0);
      HostPadded(copy, h', 0);
  }

  lemma {:induction false} LastIsOp(log: seq<Op>, slot: nat, g: seq<nat>, h: seq<nat>)
    requires LastFor(log, slot) == Some((g, h)) && slot < ENTRIES
    ensures Insert(g, h) in log && Slot(g) == slot
  {
    var op := log[|log| - 1];
    if !(op.Insert? && Slot(op.guest) == slot) {
      LastIsOp(log[..|log| - 1], slot, g, h);
    }
  }

  /** The pair has been inserted, and after that the table has not been cleared, nor the entry written again. */
  ghost predicate Current(log: seq<Op>, g: seq<nat>, h: seq<nat>) {
    exists i :: 0 <= i < |log| && log[i] == Insert(g, h) && Undisturbed(log, Slot(g), i)
  }

  ghost predicate Undisturbed(log: seq<Op>, slot: nat, i: nat) {
    forall j :: i < j < |log| ==> log[j].Insert? && Slot(log[j].guest) != slot
  }

  lemma {:induction false} LastIsCurrent(log: seq<Op>, g: seq<nat>, h: seq<nat>)
    ensures LastFor(log, Slot(g)) == Some((g, h)) <==> Current(log, g, h)
  {
    if log != [] {
      var before, n := log[..|log| - 1], |log| - 1;
      LastIsCurrent(before, g, h);
      if log[n] == Insert(g, h) {
        assert Undisturbed(log, Slot(g), n);
      } else if log[n].Insert? && Slot(log[n].guest) != Slot(g) {
        if Current(before, g, h) {
          var i :| 0 <= i < |before| && before[i] == Insert(g, h) && Undisturbed(before, Slot(g), i);
          assert forall j :: i < j < n ==> log[j] == before[j];
          assert log[i] == Insert(g, h) && Undisturbed(log, Slot(g), i);
        }
        if Current(log, g, h) {
          var i :| 0 <= i < |log| && log[i] == Insert(g, h) && Undisturbed(log, Slot(g), i);
          assert forall j :: i < j < n ==> log[j] == before[j];
          assert before[i] == Insert(g, h) && Undisturbed(before, Slot(g), i);
        }
      }
    }
  }

  /** With paths shorter than 256 bytes a hit is exact. */
  lemma ExactAnswer(log: seq<Op>, g: seq<nat>, h: seq<nat>)
    requires forall op :: op in log && op.Insert? ==> |op.guest| < PATH_MAX && |op.host| < PATH_MAX
    ensures Answer(log, g) == Hit(h) <==> Current(log, g, h)
    ensures Answer(log, g) == Absent <==> forall x :: !Current(log, g, x)
  {
    hide Current;
    forall x ensures LastFor(log, Slot(g)) == Some((g, x)) <==> Current(log, g, x) {
      LastIsCurrent(log, g, x);
    }
    match LastFor(log, Slot(g))
    case None =>
    case Some((g', h')) =>
      LastIsOp(log, Slot(g), g', h');
      assert LastFor(log, Slot(g)) == Some((g', h'));
  }
}
