/** Arrays of pointers to strings in the memory of a tracee: fetched lazily, resized and written by the tracer,
    and pushed back as one block, the pointer table in front of the strings. */
module Argv {
  import opened Words

  const E2BIG: int := 7
  const EFAULT: int := 14

  /** The pointee is cached when the tracer has read or written it. */
  datatype Local = NotCached | Cached(text: seq<Byte>)

  datatype XPointer = XPointer(remote: nat, local: Local)

  const NULL_ENTRY: XPointer := XPointer(0, NotCached)

  /** What a pointer means: nothing, an unreadable place, or a string. */
  datatype Pointee = Null | Fault | Text(s: seq<Byte>)

  // ----- reading memory

  predicate IsText(s: seq<Byte>) {
    forall i :: 0 <= i < |s| ==> s[i] != 0
  }

  /** The C string at an address. */
  function StringAt(mem: seq<Byte>, addr: nat): (r: Pointee)
    ensures r != Null
    decreases |mem| - addr
  {
    if addr >= |mem| then Fault
    else if mem[addr] == 0 then Text([])
    else
      match StringAt(mem, addr + 1)
      case Text(s) => Text([mem[addr]] + s)
      case _ => Fault
  }

  function Meaning(x: XPointer, mem: seq<Byte>): Pointee {
    if x.local.Cached? then Text(x.local.text) else if x.remote == 0 then Null else StringAt(mem, x.remote)
  }

  ghost predicate Holds(mem: seq<Byte>, addr: nat, bytes: seq<Byte>) {
    addr + |bytes| <= |mem| && mem[addr..addr + |bytes|] == bytes
  }

  lemma {:induction false} StringRead(mem: seq<Byte>, addr: nat, s: seq<Byte>)
    requires IsText(s) && Holds(mem, addr, s + [0])
    ensures StringAt(mem, addr) == Text(s)
    decreases |s|
  {
    var bytes := mem[addr..addr + |s| + 1];
    assert bytes[0] == mem[addr];
    if s != [] {
      assert mem[addr + 1..addr + 1 + |s[1..]| + 1] == bytes[1..];
      assert bytes[1..] == s[1..] + [0];
      StringRead(mem, addr + 1, s[1..]);
    }
  }

  lemma {:induction false} StringIs(mem: seq<Byte>, addr: nat)
    requires StringAt(mem, addr).Text?
    ensures var s := StringAt(mem, addr).s; IsText(s) && Holds(mem, addr, s + [0])
    decreases |mem| - addr
  {
    var s := StringAt(mem, addr).s;
    if mem[addr] == 0 {
      assert mem[addr..addr + 1] == [0];
    } else {
      StringIs(mem, addr + 1);
      var rest := s[1..];
      assert s == [mem[addr]] + rest;
      assert mem[addr..addr + |s| + 1] == [mem[addr]] + mem[addr + 1..addr + 1 + |rest| + 1];
      assert [mem[addr]] + (rest + [0]) == s + [0];
    }
  }

  /** The words from an address on, up to and including the null pointer. */
  datatype Fetched = Unreadable | Pointers(remotes: seq<nat>)

  function PointersAt(mem: seq<Byte>, addr: nat, w: nat): Fetched
    requires w > 0
    decreases |mem| - addr
  {
    if addr + w > |mem| then Unreadable
    else
      var pointer := Value(mem[addr..addr + w]);
      if pointer == 0 then Pointers([0])
      else
        match PointersAt(mem, addr + w, w)
        case Unreadable => Unreadable
        case Pointers(rest) => Pointers([pointer] + rest)
  }

  // ----- the layout of a block

  predicate IsWordSize(w: nat) {
    w == 4 || w == 8
  }

  /** The offset of an entry of the pointer table. */
  function Slot(w: nat, i: nat): nat {
    if w == 4 then 4 * i else 8 * i
  }

  function Room(x: XPointer): nat {
    if x.local.Cached? then |x.local.text| + 1 else 0
  }

  /** The room that the cached strings take. */
  function TextSize(xs: seq<XPointer>): nat {
    if xs == [] then 0 else TextSize(xs[..|xs| - 1]) + Room(xs[|xs| - 1])
  }

  function Texts(xs: seq<XPointer>): (r: seq<Byte>)
    ensures |r| == TextSize(xs)
  {
    if xs == [] then []
    else
      var x := xs[|xs| - 1];
      Texts(xs[..|xs| - 1]) + if x.local.Cached? then x.local.text + [0] else []
  }

  function Table(remotes: seq<nat>, w: nat): seq<Byte> {
    if remotes == [] then [] else Table(remotes[..|remotes| - 1], w) + WordBytes(remotes[|remotes| - 1], w)
  }

  /** Where entry i of an array goes in the block, if it is cached. */
  function Place(xs: seq<XPointer>, i: nat, w: nat): nat
    requires i <= |xs|
  {
    Slot(w, |xs|) + TextSize(xs[..i])
  }

  /** The pointers for a block at this address. */
  function Remotes(xs: seq<XPointer>, at: nat, w: nat): (r: seq<nat>)
    ensures |r| == |xs|
  {
    seq(|xs|, i requires 0 <= i < |xs| => if xs[i].local.Cached? then at + Place(xs, i, w) else xs[i].remote)
  }

  function BlockSize(xs: seq<XPointer>, w: nat): nat {
    Place(xs, |xs|, w)
  }

  function Block(xs: seq<XPointer>, at: nat, w: nat): seq<Byte> {
    Table(Remotes(xs, at, w), w) + Texts(xs)
  }

  ghost predicate AnyCached(xs: seq<XPointer>) {
    exists i :: 0 <= i < |xs| && xs[i].local.Cached?
  }

  lemma {:induction false} TableSlot(remotes: seq<nat>, w: nat, i: nat)
    requires IsWordSize(w) && i <= |remotes|
    ensures |Table(remotes, w)| == Slot(w, |remotes|)
    ensures i < |remotes| ==> Slot(w, i) + w <= |Table(remotes, w)|
                              && Table(remotes, w)[Slot(w, i)..Slot(w, i) + w] == WordBytes(remotes[i], w)
    decreases |remotes|
  {
    if remotes != [] {
      var shorter := remotes[..|remotes| - 1];
      if i < |shorter| {
        TableSlot(shorter, w, i);
        assert Table(remotes, w)[Slot(w, i)..Slot(w, i) + w] == Table(shorter, w)[Slot(w, i)..Slot(w, i) + w];
      } else {
        TableSlot(shorter, w, 0);
      }
    }
  }

  lemma {:induction false} TextPlace(xs: seq<XPointer>, i: nat)
    requires i < |xs|
    ensures TextSize(xs[..i]) + Room(xs[i]) <= TextSize(xs)
    ensures xs[i].local.Cached? ==> Holds(Texts(xs), TextSize(xs[..i]), xs[i].local.text + [0])
    decreases |xs|
  {
    var shorter := xs[..|xs| - 1];
    if i < |shorter| {
      TextPlace(shorter, i);
      assert shorter[..i] == xs[..i];
      if xs[i].local.Cached? {
        var from, to := TextSize(xs[..i]), TextSize(xs[..i]) + Room(xs[i]);
        assert Texts(xs)[from..to] == Texts(shorter)[from..to];
      }
    }
  }

  /** The table and the strings of a block lie apart, in order. */
  lemma BlockDisjoint(xs: seq<XPointer>, i: nat, j: nat, w: nat)
    requires i < j < |xs| && IsWordSize(w)
    ensures Slot(w, |xs|) <= Place(xs, i, w) && Place(xs, i, w) + Room(xs[i]) <= Place(xs, j, w)
    ensures Place(xs, j, w) + Room(xs[j]) <= BlockSize(xs, w)
  {
    TextPlace(xs[..j], i);
    assert xs[..j][..i] == xs[..i];
    TextPlace(xs, j);
    assert xs[..|xs|] == xs;
  }

  // ----- pushing and fetching

  /** A null entry at the end and nowhere else, and pointers that are words of the tracee. */
  ghost predicate Terminated(xs: seq<XPointer>, w: nat) {
    && xs != [] && xs[|xs| - 1] == NULL_ENTRY
    && (forall i {:trigger xs[i]} :: 0 <= i < |xs| - 1 ==> xs[i].local.Cached? || xs[i].remote != 0)
    && (forall i {:trigger xs[i]} :: 0 <= i < |xs| ==> xs[i].remote < Power256(w))
    && (forall i {:trigger xs[i]} :: 0 <= i < |xs| && xs[i].local.Cached? ==> IsText(xs[i].local.text))
  }

  /** The memory with a block written into it. */
  function Written(mem: seq<Byte>, at: nat, block: seq<Byte>): (r: seq<Byte>)
    requires at + |block| <= |mem|
    ensures |r| == |mem|
  {
    mem[..at] + block + mem[at + |block|..]
  }

  /** A string of the tracee's own that the block does not overlap. */
  ghost predicate Apart(x: XPointer, mem: seq<Byte>, at: nat, size: nat) {
    var p := StringAt(mem, x.remote);
    p.Text? && (x.remote + |p.s| + 1 <= at || at + size <= x.remote)
  }

  lemma WrittenHolds(mem: seq<Byte>, at: nat, block: seq<Byte>, off: nat, bytes: seq<Byte>)
    requires at + |block| <= |mem| && Holds(block, off, bytes)
    ensures Holds(Written(mem, at, block), at + off, bytes)
  {
    var mem' := Written(mem, at, block);
    assert mem'[at + off..at + off + |bytes|] == block[off..off + |bytes|];
  }

  lemma BehindHolds(front: seq<Byte>, back: seq<Byte>, off: nat, bytes: seq<Byte>)
    requires Holds(back, off, bytes)
    ensures Holds(front + back, |front| + off, bytes)
  {
    assert (front + back)[|front| + off..|front| + off + |bytes|] == back[off..off + |bytes|];
  }

  lemma WrittenElsewhere(mem: seq<Byte>, at: nat, block: seq<Byte>, addr: nat, bytes: seq<Byte>)
    requires at + |block| <= |mem| && Holds(mem, addr, bytes)
    requires addr + |bytes| <= at || at + |block| <= addr
    ensures Holds(Written(mem, at, block), addr, bytes)
  {
    var mem' := Written(mem, at, block);
    assert forall k :: addr <= k < addr + |bytes| ==> mem'[k] == mem[k];
    assert mem'[addr..addr + |bytes|] == mem[addr..addr + |bytes|];
  }

  lemma BlockLength(xs: seq<XPointer>, at: nat, w: nat)
    requires IsWordSize(w)
    ensures |Block(xs, at, w)| == BlockSize(xs, w)
  {
    TableSlot(Remotes(xs, at, w), w, 0);
    assert xs[..|xs|] == xs;
  }

  /** The word of an entry in the memory that was written. */
  lemma SlotWritten(xs: seq<XPointer>, mem: seq<Byte>, at: nat, w: nat, i: nat)
    requires IsWordSize(w) && i < |xs| && at + BlockSize(xs, w) <= |mem|
    ensures |Block(xs, at, w)| == BlockSize(xs, w)
    ensures Holds(Written(mem, at, Block(xs, at, w)), at + Slot(w, i), WordBytes(Remotes(xs, at, w)[i], w))
  {
    BlockLength(xs, at, w);
    TableSlot(Remotes(xs, at, w), w, i);
    var table := Table(Remotes(xs, at, w), w);
    assert Block(xs, at, w)[Slot(w, i)..Slot(w, i) + w] == table[Slot(w, i)..Slot(w, i) + w];
    WrittenHolds(mem, at, Block(xs, at, w), Slot(w, i), WordBytes(Remotes(xs, at, w)[i], w));
  }

  lemma BlockText(xs: seq<XPointer>, at: nat, w: nat, i: nat)
    requires IsWordSize(w) && i < |xs| && xs[i].local.Cached?
    ensures Holds(Block(xs, at, w), Place(xs, i, w), xs[i].local.text + [0])
  {
    TableSlot(Remotes(xs, at, w), w, 0);
    TextPlace(xs, i);
    BehindHolds(Table(Remotes(xs, at, w), w), Texts(xs), TextSize(xs[..i]), xs[i].local.text + [0]);
  }

  lemma TextWritten(xs: seq<XPointer>, mem: seq<Byte>, at: nat, w: nat, i: nat)
    requires IsWordSize(w) && i < |xs| && xs[i].local.Cached? && at + BlockSize(xs, w) <= |mem|
    ensures |Block(xs, at, w)| == BlockSize(xs, w)
    ensures Holds(Written(mem, at, Block(xs, at, w)), at + Place(xs, i, w), xs[i].local.text + [0])
  {
    BlockLength(xs, at, w);
    BlockText(xs, at, w, i);
    WrittenHolds(mem, at, Block(xs, at, w), Place(xs, i, w), xs[i].local.text + [0]);
  }

  lemma RemoteFits(xs: seq<XPointer>, at: nat, w: nat, i: nat)
    requires IsWordSize(w) && Terminated(xs, w) && i < |xs| && 0 < at && at + BlockSize(xs, w) <= Power256(w)
    ensures Remotes(xs, at, w)[i] < Power256(w) && (Remotes(xs, at, w)[i] == 0 <==> i == |xs| - 1)
  {
    TextPlace(xs, i);
    assert xs[..|xs|] == xs;
  }

  lemma PointersStep(mem: seq<Byte>, addr: nat, w: nat, remotes: seq<nat>, i: nat)
    requires IsWordSize(w) && i < |remotes| && remotes[i] < Power256(w)
    requires Holds(mem, addr, WordBytes(remotes[i], w))
    requires if i == |remotes| - 1 then remotes[i] == 0
             else remotes[i] != 0 && PointersAt(mem, addr + w, w) == Pointers(remotes[i + 1..])
    ensures PointersAt(mem, addr, w) == Pointers(remotes[i..])
  {
    WordValue(remotes[i], w);
    if i < |remotes| - 1 {
      assert remotes[i..] == [remotes[i]] + remotes[i + 1..];
    } else {
      assert remotes[i..] == [0];
    }
  }

  /** A null-terminated table of pointers in memory. */
  ghost predicate HasTable(mem: seq<Byte>, at: nat, w: nat, remotes: seq<nat>) {
    forall i {:trigger Slot(w, i)} :: 0 <= i < |remotes| ==>
      && Holds(mem, at + Slot(w, i), WordBytes(remotes[i], w)) && remotes[i] < Power256(w)
      && (remotes[i] == 0 <==> i == |remotes| - 1)
  }

  lemma {:induction false} TableRead(mem: seq<Byte>, at: nat, w: nat, remotes: seq<nat>, i: nat)
    requires IsWordSize(w) && HasTable(mem, at, w, remotes) && i < |remotes|
    ensures PointersAt(mem, at + Slot(w, i), w) == Pointers(remotes[i..])
    decreases |remotes| - i
  {
    if i < |remotes| - 1 {
      TableRead(mem, at, w, remotes, i + 1);
      assert at + Slot(w, i + 1) == at + Slot(w, i) + w;
    }
    PointersStep(mem, at + Slot(w, i), w, remotes, i);
  }

  lemma BlockRead(xs: seq<XPointer>, mem: seq<Byte>, at: nat, w: nat)
    requires IsWordSize(w) && Terminated(xs, w) && 0 < at && at + BlockSize(xs, w) <= |mem| <= Power256(w)
    ensures |Block(xs, at, w)| == BlockSize(xs, w)
    ensures PointersAt(Written(mem, at, Block(xs, at, w)), at, w) == Pointers(Remotes(xs, at, w))
  {
    BlockLength(xs, at, w);
    var mem', remotes := Written(mem, at, Block(xs, at, w)), Remotes(xs, at, w);
    forall i | 0 <= i < |remotes|
      ensures Holds(mem', at + Slot(w, i), WordBytes(remotes[i], w)) && remotes[i] < Power256(w)
      ensures remotes[i] == 0 <==> i == |remotes| - 1
    {
      SlotWritten(xs, mem, at, w, i);
      RemoteFits(xs, at, w, i);
    }
    TableRead(mem', at, w, remotes, 0);
    assert remotes[0..] == remotes && at + Slot(w, 0) == at;
  }

  /** Pushing an array and fetching it again yields as many pointers, and each means what the entry meant: a
      cached string, the terminator, or a string that the tracee had already. */
  lemma PushFetch(xs: seq<XPointer>, mem: seq<Byte>, at: nat, w: nat)
    requires IsWordSize(w) && Terminated(xs, w) && 0 < at && at + BlockSize(xs, w) <= |mem| <= Power256(w)
    ensures |Block(xs, at, w)| == BlockSize(xs, w)
    ensures PointersAt(Written(mem, at, Block(xs, at, w)), at, w) == Pointers(Remotes(xs, at, w))
    ensures forall i {:trigger xs[i]} :: 0 <= i < |xs| && (xs[i].local.Cached? || xs[i].remote == 0
                                           || Apart(xs[i], mem, at, BlockSize(xs, w))) ==>
              Meaning(XPointer(Remotes(xs, at, w)[i], NotCached), Written(mem, at, Block(xs, at, w))) == Meaning(xs[i], mem)
  {
    BlockRead(xs, mem, at, w);
    forall i | 0 <= i < |xs| && (xs[i].local.Cached? || xs[i].remote == 0 || Apart(xs[i], mem, at, BlockSize(xs, w)))
      ensures Meaning(XPointer(Remotes(xs, at, w)[i], NotCached), Written(mem, at, Block(xs, at, w))) == Meaning(xs[i], mem)
    {
      EntryMeans(xs, mem, at, w, i);
    }
  }

  lemma EntryMeans(xs: seq<XPointer>, mem: seq<Byte>, at: nat, w: nat, i: nat)
    requires IsWordSize(w) && Terminated(xs, w) && 0 < at && at + BlockSize(xs, w) <= |mem| <= Power256(w) && i < |xs|
    requires xs[i].local.Cached? || xs[i].remote == 0 || Apart(xs[i], mem, at, BlockSize(xs, w))
    ensures |Block(xs, at, w)| == BlockSize(xs, w)
    ensures Meaning(XPointer(Remotes(xs, at, w)[i], NotCached), Written(mem, at, Block(xs, at, w))) == Meaning(xs[i], mem)
  {
    hide Block, Place, Slot, Written, StringAt, Holds;
    BlockLength(xs, at, w);
    if xs[i].local.Cached? {
      TextWritten(xs, mem, at, w, i);
      StringRead(Written(mem, at, Block(xs, at, w)), at + Place(xs, i, w), xs[i].local.text);
    } else if xs[i].remote != 0 {
      StaysReadable(xs[i], mem, at, Block(xs, at, w));
    }
  }

  lemma StaysReadable(x: XPointer, mem: seq<Byte>, at: nat, block: seq<Byte>)
    requires at + |block| <= |mem| && Apart(x, mem, at, |block|)
    ensures StringAt(Written(mem, at, block), x.remote) == StringAt(mem, x.remote)
  {
    StringIs(mem, x.remote);
    var s := StringAt(mem, x.remote).s;
    WrittenElsewhere(mem, at, block, x.remote, s + [0]);
    StringRead(Written(mem, at, block), x.remote, s);
  }

  // ----- the array

  /** An array with entries inserted at an index, or removed in front of it. */
  function Resized(xs: seq<XPointer>, index: nat, delta: int): (r: seq<XPointer>)
    requires index <= |xs| && index + delta >= 0
    ensures |r| == |xs| + delta
  {
    if delta >= 0 then xs[..index] + seq(delta, _ => NULL_ENTRY) + xs[index..] else xs[..index + delta] + xs[index..]
  }

  /** The entries in front of the index that are not removed stay, those from it on move by delta, and null entries
      fill the gap. */
  ghost predicate IsResized(xs: seq<XPointer>, ys: seq<XPointer>, index: nat, delta: int)
    requires index <= |xs| && index + delta >= 0
  {
    && |ys| == |xs| + delta
    && (forall i {:trigger xs[i]} :: 0 <= i < |xs| ==>
          if i >= index then 0 <= i + delta < |ys| && ys[i + delta] == xs[i] else i < index + delta ==> ys[i] == xs[i])
    && (forall i :: index <= i < index + delta ==> ys[i] == XPointer(0, NotCached))
  }

  lemma ResizedEntries(xs: seq<XPointer>, index: nat, delta: int)
    requires index <= |xs| && index + delta >= 0
    ensures IsResized(xs, Resized(xs, index, delta), index, delta)
  {
  }

  /** What one resize inserts another removes. */
  lemma ResizeUndone(xs: seq<XPointer>, index: nat, delta: int)
    requires index <= |xs| && delta >= 0
    ensures Resized(Resized(xs, index, delta), index + delta, -delta) == xs
  {
    var ys := Resized(xs, index, delta);
    assert ys[..index] == xs[..index] && ys[index + delta..] == xs[index..];
    assert xs == xs[..index] + xs[index..];
  }

  function Entries(remotes: seq<nat>): (r: seq<XPointer>)
    ensures |r| == |remotes|
  {
    seq(|remotes|, i requires 0 <= i < |remotes| => XPointer(remotes[i], NotCached))
  }

  /** The memory of a tracee, the register that points to its argv, and its stack pointer with the value that it
      had when the system call began. */
  class Tracee {
    var mem: seq<Byte>
    var argv: nat
    var sp: nat
    const originalSp: nat
    const w: nat

    constructor (mem: seq<Byte>, argv: nat, sp: nat, w: nat)
      ensures this.mem == mem && this.argv == argv && this.sp == sp && this.originalSp == sp && this.w == w
    {
      this.mem, this.argv, this.sp, this.originalSp, this.w := mem, argv, sp, sp, w;
    }

    /** `alloc_mem`, of a positive size: below the stack pointer, and below the red zone if nothing was allocated
        before. */
    method AllocMem(size: nat) returns (at: nat)
      modifies `sp
      ensures at == 0 ==> sp == old(sp)
      ensures at != 0 ==> sp == at && old(sp) == at + size + if old(sp) == originalSp then 128 else 0
      ensures at == 0 <==> old(sp) <= size + if old(sp) == originalSp then 128 else 0
    {
      var n := size;
      if sp == originalSp {
        n := n + RED_ZONE_SIZE;
      }
      if sp <= n {
        return 0;
      }
      sp := sp - n;
      at := sp;
    }
  }

  const RED_ZONE_SIZE: nat := 128

  lemma PointersNonEmpty(mem: seq<Byte>, addr: nat, w: nat)
    requires w > 0 && PointersAt(mem, addr, w).Pointers?
    ensures PointersAt(mem, addr, w).remotes != []
  {
  }

  /** `fetch_array_of_xpointers`, up to the null pointer: nothing is read but the pointers. */
  method FetchArray(t: Tracee) returns (status: int, xs: array<XPointer>)
    requires t.w > 0
    ensures fresh(xs)
    ensures match PointersAt(t.mem, t.argv, t.w)
            case Unreadable => status == -EFAULT
            case Pointers(remotes) => status == 0 && xs[..] == Entries(remotes)
  {
    var remotes: seq<nat> := [];
    var address, pointer := t.argv, 1;
    xs := new XPointer[0];
    while pointer != 0
      invariant address >= t.argv && address <= |t.mem| + t.argv
      invariant remotes == [] ==> pointer != 0
      invariant PointersAt(t.mem, t.argv, t.w) ==
                if pointer == 0 then Pointers(remotes) else Before(remotes, PointersAt(t.mem, address, t.w))
      decreases pointer != 0, |t.mem| + t.argv - address
    {
      if address + t.w > |t.mem| {
        return -EFAULT, xs;
      }
      pointer := Value(t.mem[address..address + t.w]);
      ghost var rest := PointersAt(t.mem, address, t.w);
      BeforeMore(remotes, pointer, PointersAt(t.mem, address + t.w, t.w));
      remotes := remotes + [pointer];
      address := address + t.w;
    }
    status := 0;
    xs := new XPointer[|remotes|](i requires 0 <= i < |remotes| => XPointer(remotes[i], NotCached));
    assert xs[..] == Entries(remotes);
  }

  function Before(remotes: seq<nat>, rest: Fetched): Fetched {
    match rest
    case Unreadable => Unreadable
    case Pointers(more) => Pointers(remotes + more)
  }

  lemma BeforeMore(remotes: seq<nat>, pointer: nat, rest: Fetched)
    ensures Before(remotes, Before([pointer], rest)) == Before(remotes + [pointer], rest)
  {
    if rest.Pointers? {
      assert remotes + ([pointer] + rest.remotes) == (remotes + [pointer]) + rest.remotes;
    }
  }

  /** What `push_array_of_xpointers` leaves in memory. */
  ghost predicate Pushed(xs: seq<XPointer>, mem: seq<Byte>, mem': seq<Byte>, at: nat, w: nat) {
    && IsWordSize(w) && at + BlockSize(xs, w) <= |mem| && |Block(xs, at, w)| == BlockSize(xs, w)
    && mem' == Written(mem, at, Block(xs, at, w))
  }

  lemma AnyCachedMore(xs: seq<XPointer>, i: nat)
    requires i < |xs|
    ensures AnyCached(xs[..i + 1]) <==> AnyCached(xs[..i]) || xs[i].local.Cached?
  {
    if AnyCached(xs[..i + 1]) && !xs[i].local.Cached? {
      var k :| 0 <= k < i + 1 && xs[..i + 1][k].local.Cached?;
      assert xs[..i][k].local.Cached?;
    }
    if AnyCached(xs[..i]) {
      var k :| 0 <= k < i && xs[..i][k].local.Cached?;
      assert xs[..i + 1][k].local.Cached?;
    }
    if xs[i].local.Cached? {
      assert xs[..i + 1][i].local.Cached?;
    }
  }

  lemma GrownParts(was: seq<XPointer>, grown: seq<XPointer>, moved: seq<XPointer>, index: nat, delta: nat)
    requires index < |was| && |grown| == |moved| == |was| + delta && grown[..|was|] == was
    requires moved[..index + delta] == grown[..index + delta] && moved[index + delta..] == grown[index..|was|]
    ensures moved[..index] == was[..index] && moved[index + delta..] == was[index..]
  {
    assert moved[..index] == moved[..index + delta][..index] == grown[..index + delta][..index] == grown[..|was|][..index];
  }

  class ArrayOfXPointers {
    var xpointers: array<XPointer>

    constructor (xpointers: array<XPointer>)
      ensures this.xpointers == xpointers
    {
      this.xpointers := xpointers;
    }

    /** talloc_realloc: as much of the entries as there is room for, at another place. */
    method Realloc(n: nat)
      modifies `xpointers
      ensures fresh(xpointers) && xpointers.Length == n
      ensures forall i {:trigger xpointers[i]} :: 0 <= i < n && i < old(xpointers).Length ==>
                xpointers[i] == old(xpointers[i])
    {
      var was := xpointers;
      xpointers := new XPointer[n](i requires 0 <= i < n reads was => if i < was.Length then was[i] else NULL_ENTRY);
    }

    /** memmove of the last n entries, up. */
    method MoveUp(from: nat, to: nat, n: nat)
      requires from <= to && to + n == xpointers.Length
      modifies xpointers
      ensures xpointers[..to] == old(xpointers[..to]) && xpointers[to..] == old(xpointers[from..from + n])
    {
      var k := n;
      while k > 0
        invariant 0 <= k <= n
        invariant xpointers[..to + k] == old(xpointers[..to + k])
        invariant xpointers[to + k..] == old(xpointers[from + k..from + n])
      {
        k := k - 1;
        ghost var was := xpointers[to + k + 1..];
        xpointers[to + k] := xpointers[from + k];
        assert xpointers[to + k..] == [xpointers[to + k]] + was;
      }
    }

    /** memmove of the last n entries, down. */
    method MoveDown(from: nat, to: nat, n: nat)
      requires to <= from && from + n == xpointers.Length
      modifies xpointers
      ensures xpointers[..to] == old(xpointers[..to]) && xpointers[to..to + n] == old(xpointers[from..])
    {
      var k := 0;
      while k < n
        invariant 0 <= k <= n
        invariant xpointers[..to] == old(xpointers[..to]) && xpointers[from + k..] == old(xpointers[from + k..])
        invariant xpointers[to..to + k] == old(xpointers[from..from + k])
      {
        assert xpointers[from + k] == xpointers[from + k..][0] == old(xpointers[from + k..])[0];
        ghost var later := xpointers[from + k + 1..];
        assert later == xpointers[from + k..][1..];
        xpointers[to + k] := xpointers[from + k];
        k := k + 1;
      }
      assert old(xpointers[from..from + n]) == old(xpointers[from..]);
    }

    /** bzero of n entries. */
    method Clear(from: nat, n: nat)
      requires from + n <= xpointers.Length
      modifies xpointers
      ensures xpointers[..from] == old(xpointers[..from]) && xpointers[from + n..] == old(xpointers[from + n..])
      ensures xpointers[from..from + n] == seq(n, _ => NULL_ENTRY)
    {
      var k := 0;
      while k < n
        invariant k <= n
        invariant xpointers[..from] == old(xpointers[..from]) && xpointers[from + n..] == old(xpointers[from + n..])
        invariant forall i :: from <= i < from + k ==> xpointers[i] == NULL_ENTRY
      {
        xpointers[from + k] := NULL_ENTRY;
        k := k + 1;
      }
    }

    method Grow(index: nat, delta: nat)
      requires index < xpointers.Length && delta > 0
      modifies this, xpointers
      ensures fresh(xpointers) && xpointers[..] == Resized(old(xpointers[..]), index, delta)
    {
      var length := xpointers.Length;
      Realloc(length + delta);
      ghost var was, grown := old(xpointers[..]), xpointers[..];
      assert grown[..length] == was;
      MoveUp(index, index + delta, length - index);
      ghost var moved := xpointers[..];
      GrownParts(was, grown, moved, index, delta);
      Clear(index, delta);
      assert xpointers[..] == xpointers[..index] + xpointers[index..index + delta] + xpointers[index + delta..];
    }

    method Shrink(index: nat, delta: nat)
      requires delta <= index < xpointers.Length
      modifies this, xpointers
      ensures fresh(xpointers) && xpointers[..] == Resized(old(xpointers[..]), index, -(delta as int))
    {
      var length := xpointers.Length;
      MoveDown(index, index - delta, length - index);
      ghost var moved := xpointers[..length - delta];
      Realloc(length - delta);
      assert xpointers[..] == moved;
    }

    /** `resize_array_of_xpointers` */
    method Resize(index: nat, delta: int)
      requires index < xpointers.Length && index + delta >= 0
      modifies this, xpointers
      ensures xpointers == old(xpointers) || fresh(xpointers)
      ensures xpointers[..] == Resized(old(xpointers[..]), index, delta)
      ensures IsResized(old(xpointers[..]), xpointers[..], index, delta)
    {
      ResizedEntries(xpointers[..], index, delta);
      hide IsResized;
      if delta == 0 {
        assert xpointers[..] == xpointers[..index] + xpointers[index..];
      } else if delta > 0 {
        Grow(index, delta);
      } else {
        Shrink(index, -delta);
      }
    }

    /** `write_xpointee_as_string` */
    method Write(index: nat, text: seq<Byte>)
      requires index < xpointers.Length
      modifies xpointers
      ensures xpointers[..] == old(xpointers[..])[index := XPointer(old(xpointers[index]).remote, Cached(text))]
    {
      xpointers[index] := xpointers[index].(local := Cached(text));
    }

    /** `write_xpointees`, from the first entry on */
    method WriteAll(texts: seq<seq<Byte>>)
      requires |texts| <= xpointers.Length
      modifies xpointers
      ensures forall i {:trigger xpointers[i]} :: 0 <= i < xpointers.Length ==>
                xpointers[i]
                == if i < |texts| then XPointer(old(xpointers[i]).remote, Cached(texts[i])) else old(xpointers[i])
    {
      var i := 0;
      while i < |texts|
        invariant i <= |texts|
        invariant forall j {:trigger xpointers[j]} :: 0 <= j < xpointers.Length ==>
          xpointers[j] == if j < i then XPointer(old(xpointers[j]).remote, Cached(texts[j])) else old(xpointers[j])
      {
        Write(i, texts[i]);
        i := i + 1;
      }
    }

    /** The entries of an array in which the first i cached ones know their offsets. */
    ghost predicate Offsets(xs: seq<XPointer>, i: nat, w: nat)
      reads this, xpointers
    {
      && xpointers.Length == |xs| && i <= |xs|
      && forall j {:trigger xpointers[j]} :: 0 <= j < |xs| ==>
           xpointers[j] == if j < i && xs[j].local.Cached? then XPointer(Place(xs, j, w), xs[j].local) else xs[j]
    }

    /** The first loop of `push_array_of_xpointers`: the layout of the strings. */
    method LayOut(w: nat) returns (totalSize: nat, texts: seq<Byte>, any: bool)
      modifies xpointers
      ensures var xs := old(xpointers[..]);
              && Offsets(xs, |xs|, w) && totalSize == BlockSize(xs, w) && texts == Texts(xs) && (any <==> AnyCached(xs))
    {
      ghost var xs := xpointers[..];
      var i := 0;
      totalSize, texts, any := Slot(w, xpointers.Length), [], false;
      while i < xpointers.Length
        invariant Offsets(xs, i, w) && totalSize == Place(xs, i, w) && texts == Texts(xs[..i])
        invariant any <==> AnyCached(xs[..i])
      {
        assert xs[..i + 1][..i] == xs[..i];
        AnyCachedMore(xs, i);
        assert xpointers[i] == xs[i];
        if xpointers[i].local.Cached? {
          var text := xpointers[i].local.text;
          xpointers[i] := XPointer(totalSize, xpointers[i].local);
          totalSize := totalSize + |text| + 1;
          texts := texts + (text + [0]);
          any := true;
        } else {
          assert texts + [] == texts;
        }
        i := i + 1;
      }
      assert xs[..|xs|] == xs;
    }

    /** The second loop: the table, now that the address is known. */
    method Relocate(at: nat, w: nat, ghost xs: seq<XPointer>) returns (table: seq<Byte>)
      requires Offsets(xs, |xs|, w)
      modifies xpointers
      ensures table == Table(Remotes(xs, at, w), w)
    {
      ghost var remotes := Remotes(xs, at, w);
      table := [];
      var i := 0;
      while i < xpointers.Length
        invariant i <= xpointers.Length == |xs| && table == Table(remotes[..i], w)
        invariant forall j {:trigger xpointers[j]} :: i <= j < |xs| ==>
          xpointers[j] == if xs[j].local.Cached? then XPointer(Place(xs, j, w), xs[j].local) else xs[j]
      {
        if xpointers[i].local.Cached? {
          xpointers[i] := XPointer(at + xpointers[i].remote, xpointers[i].local);
        }
        assert xpointers[i].remote == remotes[i];
        assert remotes[..i + 1][..i] == remotes[..i];
        table := table + WordBytes(xpointers[i].remote, w);
        i := i + 1;
      }
      assert remotes[..|xs|] == remotes;
    }

    /** `push_array_of_xpointers`: nothing is done unless something was written; then the block goes right below the
        stack pointer, and below the red zone if that has not moved yet.  It fails exactly if the stack pointer is too
        low for the block, or points outside the memory. */
    method Push(t: Tracee) returns (status: int)
      requires IsWordSize(t.w)
      modifies xpointers, t
      ensures !AnyCached(old(xpointers[..])) ==> status == 0
      ensures status != 0 || !AnyCached(old(xpointers[..])) ==> t.mem == old(t.mem) && t.argv == old(t.argv)
      ensures status == 0 && AnyCached(old(xpointers[..])) ==>
                && 0 < t.argv == t.sp
                && Pushed(old(xpointers[..]), old(t.mem), t.mem, t.argv, t.w)
      ensures AnyCached(old(xpointers[..])) ==>
                var size := BlockSize(old(xpointers[..]), t.w);
                var reserved := size + if old(t.sp) == t.originalSp then 128 else 0;
                && (status == -7 <==> old(t.sp) <= reserved)
                && (status == -14 <==> old(t.sp) > reserved && old(t.sp) - reserved + size > |t.mem|)
                && (old(t.sp) > reserved ==> t.sp == old(t.sp) - reserved)
      ensures status == 0 || status == -7 || status == -14
    {
      ghost var xs := xpointers[..];
      var totalSize, texts, any := LayOut(t.w);
      if !any {
        return 0;
      }
      var at := t.AllocMem(totalSize);
      if at == 0 {
        return -E2BIG;
      }
      var table := Relocate(at, t.w, xs);
      var block := table + texts;
      BlockLength(xs, at, t.w);
      if at + |block| > |t.mem| {
        return -EFAULT;
      }
      t.mem := Written(t.mem, at, block);
      t.argv := at;
      status := 0;
    }
  }
}
