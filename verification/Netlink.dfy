/** Replies of the emulated netlink sockets: how they are built, and how they are cut into datagrams. */
module Netlink {
  import opened Words

  const NLMSG_HDRLEN: nat := 16
  const NLMSG_ERROR: nat := 2
  const NLMSG_DONE: nat := 3
  const RTM_NEWLINK: nat := 16
  const NLM_F_MULTI: nat := 2

  /** NLMSG_ALIGN and RTA_ALIGN */
  function Align4(n: nat): (r: nat)
    ensures n <= r < n + 4
  {
    (n + 3) / 4 * 4
  }

  function Zeros(n: nat): (r: seq<Byte>)
    ensures |r| == n
  {
    seq(n, _ => 0)
  }

  // ----- messages

  function NlLen(m: seq<Byte>): nat
    requires |m| >= NLMSG_HDRLEN
  {
    Value(m[..4])
  }

  function NlType(m: seq<Byte>): nat
    requires |m| >= NLMSG_HDRLEN
  {
    Value(m[4..6])
  }

  /** The fields of a struct, as pairs of value and width. */
  function Fields(fields: seq<(nat, nat)>): seq<Byte> {
    if fields == [] then [] else WordBytes(fields[0].0, fields[0].1) + Fields(fields[1..])
  }

  /** struct nlmsghdr, section 2.3.2 of RFC 3549 */
  function Header(len: nat, ty: nat, flags: nat, seqno: nat, pid: nat): (r: seq<Byte>)
    ensures |r| == NLMSG_HDRLEN
  {
    FieldsOf(len, 4, [(ty, 2), (flags, 2), (seqno, 4), (pid, 4)]);
    FieldsOf(ty, 2, [(flags, 2), (seqno, 4), (pid, 4)]);
    FieldsOf(flags, 2, [(seqno, 4), (pid, 4)]);
    FieldsOf(seqno, 4, [(pid, 4)]);
    FieldsOf(pid, 4, []);
    Fields([(len, 4), (ty, 2), (flags, 2), (seqno, 4), (pid, 4)])
  }

  lemma FieldsOf(v: nat, n: nat, rest: seq<(nat, nat)>)
    ensures Fields([(v, n)] + rest) == WordBytes(v, n) + Fields(rest)
  {
    assert ([(v, n)] + rest)[1..] == rest;
  }

  /** A message with its padding. */
  predicate WellFormed(m: seq<Byte>) {
    |m| >= NLMSG_HDRLEN && NlLen(m) >= NLMSG_HDRLEN && Align4(NlLen(m)) == |m|
  }

  predicate IsDone(m: seq<Byte>) {
    WellFormed(m) && NlType(m) == NLMSG_DONE
  }

  /** What follows the type in a header, as a reader finds it: flags, sequence number and port. */
  predicate Numbered(m: seq<Byte>, flags: nat, seqno: nat, pid: nat) {
    && |m| >= NLMSG_HDRLEN
    && Value(m[6..8]) == flags && Value(m[8..12]) == seqno && Value(m[12..16]) == pid
  }

  lemma HeaderBytes(len: nat, ty: nat, flags: nat, seqno: nat, pid: nat)
    ensures Header(len, ty, flags, seqno, pid)
         == WordBytes(len, 4) + WordBytes(ty, 2) + WordBytes(flags, 2) + WordBytes(seqno, 4) + WordBytes(pid, 4)
  {
    FieldsOf(len, 4, [(ty, 2), (flags, 2), (seqno, 4), (pid, 4)]);
    FieldsOf(ty, 2, [(flags, 2), (seqno, 4), (pid, 4)]);
    FieldsOf(flags, 2, [(seqno, 4), (pid, 4)]);
    FieldsOf(seqno, 4, [(pid, 4)]);
    FieldsOf(pid, 4, []);
  }

  lemma HeaderParts(l: seq<Byte>, t: seq<Byte>, f: seq<Byte>, s: seq<Byte>, p: seq<Byte>, rest: seq<Byte>)
    requires |l| == 4 && |t| == 2 && |f| == 2 && |s| == 4 && |p| == 4
    ensures var m := l + t + f + s + p + rest;
            m[..4] == l && m[4..6] == t && m[6..8] == f && m[8..12] == s && m[12..16] == p
  {
  }

  /** A header is read back field by field. */
  lemma HeaderFields(len: Word32, ty: Word16, flags: Word16, seqno: Word32, pid: Word32, rest: seq<Byte>)
    ensures var m := Header(len, ty, flags, seqno, pid) + rest;
            NlLen(m) == len && NlType(m) == ty && Numbered(m, flags, seqno, pid)
  {
    HeaderBytes(len, ty, flags, seqno, pid);
    HeaderParts(WordBytes(len, 4), WordBytes(ty, 2), WordBytes(flags, 2), WordBytes(seqno, 4), WordBytes(pid, 4), rest);
    hide Header, WordBytes, Value;
    WordValue32(len);
    WordValue16(ty);
    WordValue16(flags);
    WordValue32(seqno);
    WordValue32(pid);
  }

  ghost function Concat(ms: seq<seq<Byte>>): seq<Byte> {
    if ms == [] then [] else ms[0] + Concat(ms[1..])
  }

  lemma {:induction false} ConcatAppend(ms: seq<seq<Byte>>, ns: seq<seq<Byte>>)
    ensures Concat(ms + ns) == Concat(ms) + Concat(ns)
  {
    if ms == [] {
      assert ms + ns == ns;
    } else {
      assert (ms + ns)[1..] == ms[1..] + ns;
      ConcatAppend(ms[1..], ns);
    }
  }

  lemma ConcatOne(m: seq<Byte>)
    ensures Concat([m]) == m
  {
    assert [m][1..] == [];
    assert Concat([m]) == m + Concat([]);
  }

  // ----- framing

  /** How far the walk over the messages of a reply gets before it meets NLMSG_DONE or something malformed. */
  function Walk(reply: seq<Byte>): nat
    decreases |reply|
  {
    if |reply| < NLMSG_HDRLEN || NlLen(reply) < NLMSG_HDRLEN || NlLen(reply) > |reply| || NlType(reply) == NLMSG_DONE
    then 0
    else
      var step := Align4(NlLen(reply));
      if step > |reply| then step else step + Walk(reply[step..])
  }

  function DatagramLen(reply: seq<Byte>): (r: nat)
    ensures r <= |reply| && (reply != [] ==> r > 0)
  {
    var off := Walk(reply);
    if off == 0 || off > |reply| then |reply| else off
  }

  /** `fake_netlink_datagram_len` */
  method FakeNetlinkDatagramLen(reply: seq<Byte>) returns (r: nat)
    ensures r == DatagramLen(reply)
  {
    var off := 0;
    while off + NLMSG_HDRLEN <= |reply|
      invariant off <= |reply| + 3
      invariant Walk(reply) == if off <= |reply| then off + Walk(reply[off..]) else off
      decreases |reply| + 3 - off
    {
      var nlh := reply[off..];
      var mlen := NlLen(nlh);
      if mlen < NLMSG_HDRLEN || off + mlen > |reply| {
        break;
      }
      if NlType(nlh) == NLMSG_DONE {
        break;
      }
      var next := off + Align4(mlen);
      if next <= |reply| {
        assert reply[next..] == nlh[Align4(mlen)..];
      }
      off := next;
    }
    assert off <= |reply| ==> Walk(reply[off..]) == 0;
    r := if off == 0 || off > |reply| then |reply| else off;
  }

  /** What the tracee gets by reading until nothing is left. */
  function Datagrams(reply: seq<Byte>): seq<seq<Byte>>
    decreases |reply|
  {
    if reply == [] then [] else [reply[..DatagramLen(reply)]] + Datagrams(reply[DatagramLen(reply)..])
  }

  /** Every byte of a reply is delivered once and in order, and never an empty datagram. */
  lemma {:induction false} DatagramsPartition(reply: seq<Byte>)
    ensures Concat(Datagrams(reply)) == reply
    ensures forall d :: d in Datagrams(reply) ==> d != []
    decreases |reply|
  {
    if reply != [] {
      var d := DatagramLen(reply);
      DatagramsPartition(reply[d..]);
      assert Datagrams(reply)[1..] == Datagrams(reply[d..]);
      assert reply[..d] + reply[d..] == reply;
    }
  }

  /** What is left after some reads, and what the reads that do not peek have delivered. */
  function ReadAll(reply: seq<Byte>, peeks: seq<bool>): (seq<seq<Byte>>, seq<Byte>) {
    if peeks == [] then ([], reply)
    else
      var (got, left) := ReadAll(reply, peeks[..|peeks| - 1]);
      if left == [] || peeks[|peeks| - 1] then (got, left)
      else (got + [left[..DatagramLen(left)]], left[DatagramLen(left)..])
  }

  function NonPeeks(peeks: seq<bool>): nat {
    if peeks == [] then 0 else NonPeeks(peeks[..|peeks| - 1]) + if peeks[|peeks| - 1] then 0 else 1
  }

  /** Any mixture of reads and peeks delivers the datagrams of the reply in order, one per read that does not
      peek, and leaves the bytes of the others pending. */
  lemma {:induction false} ReadsInOrder(reply: seq<Byte>, peeks: seq<bool>)
    ensures var (got, left) := ReadAll(reply, peeks);
            && got + Datagrams(left) == Datagrams(reply)
            && Concat(got) + left == reply
            && |got| == if NonPeeks(peeks) < |Datagrams(reply)| then NonPeeks(peeks) else |Datagrams(reply)|
  {
    if peeks == [] {
      assert [] + Datagrams(reply) == Datagrams(reply);
    } else {
      var before := peeks[..|peeks| - 1];
      ReadsInOrder(reply, before);
      var (got, left) := ReadAll(reply, before);
      if left != [] && !peeks[|peeks| - 1] {
        ReadNext(got, left);
      }
    }
  }

  lemma ReadNext(got: seq<seq<Byte>>, left: seq<Byte>)
    requires left != []
    ensures var d := DatagramLen(left);
            && (got + [left[..d]]) + Datagrams(left[d..]) == got + Datagrams(left)
            && Concat(got + [left[..d]]) + left[d..] == Concat(got) + left
  {
    var d := DatagramLen(left);
    ConcatAppend(got, [left[..d]]);
    ConcatOne(left[..d]);
    assert left[..d] + left[d..] == left;
  }

  /** As many reads as there are datagrams leave nothing. */
  lemma ReadsEnd(reply: seq<Byte>, peeks: seq<bool>)
    requires NonPeeks(peeks) >= |Datagrams(reply)|
    ensures ReadAll(reply, peeks) == (Datagrams(reply), [])
  {
    ReadsInOrder(reply, peeks);
    var (got, left) := ReadAll(reply, peeks);
    assert |got + Datagrams(left)| == |got| + |Datagrams(left)|;
    assert Datagrams(left) == [];
    assert got + [] == got;
  }

  /** Messages ahead of the terminator. */
  ghost predicate Unterminated(ms: seq<seq<Byte>>) {
    ms == [] || (WellFormed(ms[0]) && NlType(ms[0]) != NLMSG_DONE && Unterminated(ms[1..]))
  }

  lemma FirstMessage(m: seq<Byte>, rest: seq<Byte>)
    requires WellFormed(m)
    ensures var reply := m + rest;
            && NlLen(reply) == NlLen(m) && NlType(reply) == NlType(m) && reply[|m|..] == rest
            && Walk(reply) == if IsDone(m) then 0 else |m| + Walk(rest)
  {
    var reply := m + rest;
    assert reply[..4] == m[..4];
    assert reply[4..6] == m[4..6];
    assert reply[|m|..] == rest;
  }

  lemma {:induction false} WalkOver(ms: seq<seq<Byte>>, rest: seq<Byte>)
    requires Unterminated(ms)
    ensures Walk(Concat(ms) + rest) == |Concat(ms)| + Walk(rest)
  {
    if ms == [] {
      assert Concat(ms) + rest == rest;
    } else {
      assert Concat(ms) + rest == ms[0] + (Concat(ms[1..]) + rest);
      FirstMessage(ms[0], Concat(ms[1..]) + rest);
      WalkOver(ms[1..], rest);
    }
  }

  lemma Whole(reply: seq<Byte>)
    requires reply != [] && DatagramLen(reply) == |reply|
    ensures Datagrams(reply) == [reply]
  {
    assert reply[..|reply|] == reply && reply[|reply|..] == [];
  }

  /** A reply without a terminator is one datagram. */
  lemma WithoutTerminator(ms: seq<seq<Byte>>)
    requires Unterminated(ms) && ms != []
    ensures Datagrams(Concat(ms)) == [Concat(ms)]
  {
    WalkOver(ms, []);
    assert Concat(ms) + [] == Concat(ms);
    Whole(Concat(ms));
  }

  /** The first NLMSG_DONE begins a datagram, which lasts to the end of the reply. */
  lemma TerminatedFraming(ms: seq<seq<Byte>>, done: seq<Byte>, rest: seq<Byte>)
    requires Unterminated(ms) && IsDone(done)
    ensures Datagrams(Concat(ms) + (done + rest))
         == if ms == [] then [done + rest] else [Concat(ms), done + rest]
  {
    var tail := done + rest;
    var reply := Concat(ms) + tail;
    FirstMessage(done, rest);
    WalkOver(ms, tail);
    Whole(tail);
    if ms == [] {
      assert reply == tail;
    } else {
      assert reply[..|Concat(ms)|] == Concat(ms) && reply[|Concat(ms)|..] == tail;
      assert |ms[0]| >= NLMSG_HDRLEN;
      assert Datagrams(reply) == [Concat(ms)] + Datagrams(tail);
    }
  }

  /** The terminator is a datagram of its own if and only if it ends the reply. */
  lemma DoneAlone(ms: seq<seq<Byte>>, done: seq<Byte>, rest: seq<Byte>)
    requires Unterminated(ms) && IsDone(done)
    ensures var ds := Datagrams(Concat(ms) + (done + rest));
            ds != [] && (ds[|ds| - 1] == done <==> rest == [])
  {
    TerminatedFraming(ms, done, rest);
    assert done + [] == done;
    assert |done + rest| == |done| + |rest|;
  }
}
