/** The builders of netlink replies, which write into a buffer of fixed size, and the sockets that hand the
    replies out. */
module NetlinkReply {
  import opened Words
  import opened Netlink

  const MAX_FAKE_NETLINK_REPLY: nat := 8192
  const IFNAMSIZ: nat := 16
  const RTA_HDRLEN: nat := 4
  const IFLA_ADDRESS: nat := 1
  const IFLA_BROADCAST: nat := 2
  const IFLA_IFNAME: nat := 3
  const IFLA_MTU: nat := 4
  const IFLA_TXQLEN: nat := 13
  const IFLA_OPERSTATE: nat := 16
  const ARPHRD_LOOPBACK: nat := 772
  const IFF_RUNNING: nat := 0x40
  const IFF_LOWER_UP: nat := 0x1_0000
  const IFINFO_SIZE: nat := 16
  const RTM_NEWADDR: nat := 20
  const IFADDR_SIZE: nat := 8
  const IFA_ADDRESS: nat := 1
  const IFA_LOCAL: nat := 2
  const IFA_LABEL: nat := 3
  const IFA_F_PERMANENT: nat := 0x80
  const AF_INET: nat := 2
  const AF_INET6: nat := 10

  datatype Request = Request(seqno: Word32, pid: Word32)

  datatype Attribute = Attribute(ty: nat, data: seq<Byte>)

  /** An interface of the host, as enumerated. */
  datatype Interface =
    Interface(index: Word32, ty: Word16, flags: Word32, mtu: Word32, name: seq<Byte>, hwaddr: seq<Byte>)

  type Link = l: Interface | |l.name| < IFNAMSIZ && |l.hwaddr| <= 8 witness Interface(0, 0, 0, 0, [], [])

  /** An address of an interface, as enumerated; the label is the name of the interface. */
  datatype HostAddress =
    HostAddress(family: Byte, index: Word32, addr: seq<Byte>, prefixlen: Byte, scope: Byte, ifname: seq<Byte>)

  type Address = a: HostAddress | |a.addr| <= 16 && |a.ifname| < IFNAMSIZ witness HostAddress(0, 0, [], 0, 0, [])

  // ----- attributes

  predicate IsAttribute(a: Attribute) {
    a.ty < 0x1_0000 && |a.data| + RTA_HDRLEN < 0x1_0000
  }

  predicate AreAttributes(attrs: seq<Attribute>) {
    forall i {:trigger IsAttribute(attrs[i])} :: 0 <= i < |attrs| ==> IsAttribute(attrs[i])
  }

  /** RTA_SPACE */
  function Space(a: Attribute): (r: nat)
    ensures r >= RTA_HDRLEN
  {
    Align4(|a.data| + RTA_HDRLEN)
  }

  function Encode(a: Attribute): (r: seq<Byte>)
    ensures |r| == Space(a)
  {
    WordBytes(|a.data| + RTA_HDRLEN, 2) + WordBytes(a.ty, 2) + a.data + Zeros(Space(a) - |a.data| - RTA_HDRLEN)
  }

  function EncodeAll(attrs: seq<Attribute>): seq<Byte> {
    if attrs == [] then [] else EncodeAll(attrs[..|attrs| - 1]) + Encode(attrs[|attrs| - 1])
  }

  function SizeAll(attrs: seq<Attribute>): nat {
    if attrs == [] then 0 else SizeAll(attrs[..|attrs| - 1]) + Space(attrs[|attrs| - 1])
  }

  lemma SpaceAligned(a: Attribute)
    ensures Space(a) % 4 == 0
  {
  }

  lemma {:induction false} EncodedSize(attrs: seq<Attribute>)
    ensures |EncodeAll(attrs)| == SizeAll(attrs) && SizeAll(attrs) % 4 == 0
  {
    hide Space, Encode;
    if attrs != [] {
      SpaceAligned(attrs[|attrs| - 1]);
      EncodedSize(attrs[..|attrs| - 1]);
    }
  }

  /** The attributes that fit into the room; the others are dropped. */
  function Fitting(attrs: seq<Attribute>, room: nat): seq<Attribute> {
    if attrs == [] then []
    else
      var before := Fitting(attrs[..|attrs| - 1], room);
      if SizeAll(before) + Space(attrs[|attrs| - 1]) > room then before else before + [attrs[|attrs| - 1]]
  }

  /** The walk over attributes that readers of a message do. */
  function Decode(bytes: seq<Byte>): seq<Attribute>
    decreases |bytes|
  {
    if |bytes| < RTA_HDRLEN then []
    else
      var len := Value(bytes[..2]);
      if len < RTA_HDRLEN || len > |bytes| then []
      else
        [Attribute(Value(bytes[2..4]), bytes[RTA_HDRLEN..len])]
        + if Align4(len) > |bytes| then [] else Decode(bytes[Align4(len)..])
  }

  lemma DecodeOne(a: Attribute, rest: seq<Byte>)
    requires IsAttribute(a)
    ensures Decode(Encode(a) + rest) == [a] + Decode(rest)
  {
    var bytes := Encode(a) + rest;
    var len := |a.data| + RTA_HDRLEN;
    assert bytes[..2] == WordBytes(len, 2);
    assert bytes[2..4] == WordBytes(a.ty, 2);
    WordValue16(len);
    WordValue16(a.ty);
    assert bytes[RTA_HDRLEN..len] == a.data;
    assert bytes[Align4(len)..] == rest;
  }

  lemma Associative<T>(a: seq<T>, b: seq<T>, c: seq<T>)
    ensures (a + b) + c == a + (b + c)
  {
  }

  lemma {:induction false} DecodeAll(attrs: seq<Attribute>, rest: seq<Byte>)
    requires AreAttributes(attrs)
    ensures Decode(EncodeAll(attrs) + rest) == attrs + Decode(rest)
  {
    if attrs == [] {
      assert EncodeAll(attrs) + rest == rest;
      assert attrs + Decode(rest) == Decode(rest);
    } else {
      var before, last := attrs[..|attrs| - 1], attrs[|attrs| - 1];
      assert before + [last] == attrs;
      assert IsAttribute(last);
      forall i | 0 <= i < |before| ensures IsAttribute(before[i]) {
        assert IsAttribute(attrs[i]);
      }
      DecodeOne(last, rest);
      DecodeAll(before, Encode(last) + rest);
      Associative(EncodeAll(before), Encode(last), rest);
      Associative(before, [last], Decode(rest));
    }
  }

  /** Readers find exactly the attributes that were kept. */
  lemma AttributesRoundTrip(attrs: seq<Attribute>)
    requires AreAttributes(attrs)
    ensures Decode(EncodeAll(attrs)) == attrs
  {
    DecodeAll(attrs, []);
    assert EncodeAll(attrs) + [] == EncodeAll(attrs);
    assert attrs + Decode([]) == attrs;
  }

  lemma {:induction false} FittingPrefix(attrs: seq<Attribute>, room: nat)
    requires SizeAll(attrs) <= room
    ensures Fitting(attrs, room) == attrs
  {
    if attrs != [] {
      FittingPrefix(attrs[..|attrs| - 1], room);
      assert attrs[..|attrs| - 1] + [attrs[|attrs| - 1]] == attrs;
    }
  }

  // ----- links

  function LowerUp(flags: nat): nat {
    if flags / IFF_RUNNING % 2 == 1 && flags / IFF_LOWER_UP % 2 == 0 then flags + IFF_LOWER_UP else flags
  }

  function IfInfo(l: Link): (r: seq<Byte>)
    ensures |r| == IFINFO_SIZE
  {
    FieldsOf(0, 2, [(l.ty, 2), (l.index, 4), (LowerUp(l.flags), 4), (0, 4)]);
    FieldsOf(l.ty, 2, [(l.index, 4), (LowerUp(l.flags), 4), (0, 4)]);
    FieldsOf(l.index, 4, [(LowerUp(l.flags), 4), (0, 4)]);
    FieldsOf(LowerUp(l.flags), 4, [(0, 4)]);
    FieldsOf(0, 4, []);
    Fields([(0, 2), (l.ty, 2), (l.index, 4), (LowerUp(l.flags), 4), (0, 4)])
  }

  function Broadcast(l: Link): (r: seq<Byte>)
    ensures |r| == |l.hwaddr|
  {
    seq(|l.hwaddr|, _ => if l.ty == ARPHRD_LOOPBACK then 0x00 else 0xff)
  }

  function LinkAttributes(l: Link): seq<Attribute> {
    [Attribute(IFLA_IFNAME, l.name + [0]), Attribute(IFLA_MTU, WordBytes(l.mtu, 4)),
     Attribute(IFLA_TXQLEN, WordBytes(1000, 4)), Attribute(IFLA_OPERSTATE, [if l.flags % 2 == 1 then 6 else 2])]
    + if |l.hwaddr| > 0 then [Attribute(IFLA_ADDRESS, l.hwaddr), Attribute(IFLA_BROADCAST, Broadcast(l))] else []
  }

  /** What a message is about: its type, the fixed part behind the header, and the attributes. */
  datatype About = About(ty: nat, info: seq<Byte>, attrs: seq<Attribute>)

  predicate IsSubject(x: About) {
    && x.ty < 0x1_0000 && x.ty != NLMSG_DONE && |x.info| <= IFINFO_SIZE && |x.info| % 4 == 0
    && AreAttributes(x.attrs) && SizeAll(x.attrs) <= 144
  }

  type Subject = x: About | IsSubject(x) witness About(0, [], [])

  /** The message about a subject, with those attributes for which there is room. */
  function Message(x: About, flags: Word16, r: Request, room: nat): seq<Byte>
    requires room >= NLMSG_HDRLEN + |x.info|
  {
    var body := x.info + Bytes(x.attrs, room - NLMSG_HDRLEN - |x.info|);
    Header(NLMSG_HDRLEN + |body|, x.ty, flags, r.seqno, r.pid) + body
  }

  /** The bytes of the attributes that fit. */
  function Bytes(attrs: seq<Attribute>, room: nat): seq<Byte> {
    EncodeAll(Fitting(attrs, room))
  }

  function LinkSubject(l: Link): (x: Subject)
    ensures |x.info| == IFINFO_SIZE && x.ty == RTM_NEWLINK && x.attrs == LinkAttributes(l)
  {
    LinkAttributesFit(l);
    About(RTM_NEWLINK, IfInfo(l), LinkAttributes(l))
  }

  function IfAddr(a: Address): (r: seq<Byte>)
    ensures |r| == IFADDR_SIZE
  {
    FieldsOf(a.family, 1, [(a.prefixlen, 1), (IFA_F_PERMANENT, 1), (a.scope, 1), (a.index, 4)]);
    FieldsOf(a.prefixlen, 1, [(IFA_F_PERMANENT, 1), (a.scope, 1), (a.index, 4)]);
    FieldsOf(IFA_F_PERMANENT, 1, [(a.scope, 1), (a.index, 4)]);
    FieldsOf(a.scope, 1, [(a.index, 4)]);
    FieldsOf(a.index, 4, []);
    Fields([(a.family, 1), (a.prefixlen, 1), (IFA_F_PERMANENT, 1), (a.scope, 1), (a.index, 4)])
  }

  function AddressAttributes(a: Address): seq<Attribute> {
    [Attribute(IFA_ADDRESS, a.addr), Attribute(IFA_LOCAL, a.addr)]
    + if a.family == AF_INET then [Attribute(IFA_LABEL, a.ifname + [0])] else []
  }

  function AddressSubject(a: Address): (x: Subject)
    ensures |x.info| == IFADDR_SIZE && x.ty == RTM_NEWADDR && x.attrs == AddressAttributes(a)
  {
    SizeBound(AddressAttributes(a));
    About(RTM_NEWADDR, IfAddr(a), AddressAttributes(a))
  }

  function DoneMessage(r: Request): seq<Byte> {
    Header(NLMSG_HDRLEN + 4, NLMSG_DONE, NLM_F_MULTI, r.seqno, r.pid) + WordBytes(0, 4)
  }

  /** The code is the two's complement of a negative error number. */
  function ErrorMessage(r: Request, code: nat): seq<Byte> {
    Header(NLMSG_HDRLEN + 20, NLMSG_ERROR, 0, r.seqno, r.pid) + (WordBytes(code, 4) + Zeros(16))
  }

  lemma DoneIsDone(r: Request)
    ensures IsDone(DoneMessage(r)) && |DoneMessage(r)| == 20 && Numbered(DoneMessage(r), NLM_F_MULTI, r.seqno, r.pid)
  {
    HeaderFields(20, NLMSG_DONE, NLM_F_MULTI, r.seqno, r.pid, WordBytes(0, 4));
  }

  lemma ErrorIsMessage(r: Request, code: nat)
    ensures var m := ErrorMessage(r, code); Unterminated([m]) && |m| == 36 && Numbered(m, 0, r.seqno, r.pid)
  {
    HeaderFields(36, NLMSG_ERROR, 0, r.seqno, r.pid, WordBytes(code, 4) + Zeros(16));
  }

  lemma {:induction false} SizeBound(attrs: seq<Attribute>)
    requires forall a :: a in attrs ==> |a.data| <= IFNAMSIZ
    ensures SizeAll(attrs) <= 24 * |attrs|
  {
    if attrs != [] {
      SizeBound(attrs[..|attrs| - 1]);
      assert attrs[|attrs| - 1] in attrs;
    }
  }

  /** All attributes of a link together need little room. */
  lemma LinkAttributesFit(l: Link)
    ensures AreAttributes(LinkAttributes(l)) && SizeAll(LinkAttributes(l)) <= 144
  {
    SizeBound(LinkAttributes(l));
  }

  lemma Slices(h: seq<Byte>, info: seq<Byte>, rest: seq<Byte>)
    requires |h| == NLMSG_HDRLEN
    ensures var m := h + (info + rest);
            m[NLMSG_HDRLEN..NLMSG_HDRLEN + |info|] == info && m[NLMSG_HDRLEN + |info|..] == rest
  {
  }

  /** What a reader finds in a message: the subject with all its attributes. */
  ghost predicate Says(m: seq<Byte>, x: About) {
    && WellFormed(m) && NlType(m) == x.ty && NLMSG_HDRLEN + |x.info| <= |m| <= 176
    && m[NLMSG_HDRLEN..NLMSG_HDRLEN + |x.info|] == x.info
    && Decode(m[NLMSG_HDRLEN + |x.info|..]) == x.attrs
  }

  lemma CompleteMessage(x: Subject, bytes: seq<Byte>, flags: Word16, r: Request)
    requires |bytes| <= 144 && |bytes| % 4 == 0 && Decode(bytes) == x.attrs
    ensures var body := x.info + bytes;
            var m := Header(NLMSG_HDRLEN + |body|, x.ty, flags, r.seqno, r.pid) + body;
            Says(m, x) && Numbered(m, flags, r.seqno, r.pid)
  {
    hide Header, Decode, NlLen, NlType, Align4, SizeAll, AreAttributes, Numbered;
    var body := x.info + bytes;
    var h := Header(NLMSG_HDRLEN + |body|, x.ty, flags, r.seqno, r.pid);
    HeaderFields(NLMSG_HDRLEN + |body|, x.ty, flags, r.seqno, r.pid, body);
    Aligned(|body|);
    Slices(h, x.info, bytes);
  }

  lemma BytesFit(attrs: seq<Attribute>, room: nat)
    requires AreAttributes(attrs) && SizeAll(attrs) <= room
    ensures var b := Bytes(attrs, room); |b| == SizeAll(attrs) && |b| % 4 == 0 && Decode(b) == attrs
  {
    FittingPrefix(attrs, room);
    hide Fitting, EncodeAll, Decode, SizeAll;
    AttributesRoundTrip(attrs);
    EncodedSize(attrs);
  }

  /** With 256 bytes to spare a message is complete: a reader finds the numbers of the request, the subject and all
      its attributes, and there is still room for a terminator. */
  lemma MessageComplete(x: Subject, flags: Word16, r: Request, room: nat)
    requires room >= 256
    ensures var m := Message(x, flags, r, room); Says(m, x) && Numbered(m, flags, r.seqno, r.pid)
  {
    hide Says, Header, Bytes, Numbered;
    BytesFit(x.attrs, room - NLMSG_HDRLEN - |x.info|);
    CompleteMessage(x, Bytes(x.attrs, room - NLMSG_HDRLEN - |x.info|), flags, r);
  }

  lemma Aligned(n: nat)
    requires n % 4 == 0
    ensures Align4(NLMSG_HDRLEN + n) == NLMSG_HDRLEN + n
  {
  }

  // ----- replies

  /** The messages about a number of subjects, as long as 256 bytes are left; only the first is asked for unless
      all are. */
  function Gather(xs: seq<Subject>, flags: Word16, r: Request, all: bool, used: nat, max: nat): seq<seq<Byte>> {
    if xs == [] || used + 256 > max then []
    else
      var m := Message(xs[0], flags, r, max - used);
      [m] + if all then Gather(xs[1..], flags, r, all, used + |m|, max) else []
  }

  lemma Ahead(m: seq<Byte>, ms: seq<seq<Byte>>)
    requires WellFormed(m) && NlType(m) != NLMSG_DONE && Unterminated(ms)
    ensures Unterminated([m] + ms) && |Concat([m] + ms)| == |m| + |Concat(ms)|
  {
    assert ([m] + ms)[1..] == ms;
  }

  /** What is gathered leaves room for a terminator and holds none. */
  lemma {:induction false} GatherFits(xs: seq<Subject>, flags: Word16, r: Request, all: bool, used: nat, max: nat)
    requires used + 20 <= max
    ensures var ms := Gather(xs, flags, r, all, used, max); Unterminated(ms) && used + |Concat(ms)| + 20 <= max
    ensures Gather(xs, flags, r, all, used, max) != [] <==> xs != [] && used + 256 <= max
    decreases |xs|
  {
    hide Message, WellFormed, NlType;
    if xs != [] && used + 256 <= max {
      var m := Message(xs[0], flags, r, max - used);
      MessagePlain(xs[0], flags, r, max - used);
      var rest := if all then Gather(xs[1..], flags, r, all, used + |m|, max) else [];
      if all {
        GatherFits(xs[1..], flags, r, all, used + |m|, max);
      }
      Ahead(m, rest);
    }
  }

  lemma MessagePlain(x: Subject, flags: Word16, r: Request, room: nat)
    requires room >= 256
    ensures var m := Message(x, flags, r, room); WellFormed(m) && NlType(m) == x.ty != NLMSG_DONE && |m| <= 176
  {
    hide Message, WellFormed, NlType;
    MessageComplete(x, flags, r, room);
  }

  /** A message of the host's kernel, given the numbers that the tracee expects. */
  function Readdressed(m: seq<Byte>, r: Request): seq<Byte>
    requires |m| >= NLMSG_HDRLEN
  {
    m[..8] + WordBytes(r.seqno, 4) + WordBytes(r.pid, 4) + m[NLMSG_HDRLEN..] + Zeros(Align4(|m|) - |m|)
  }

  predicate IsKernelMessage(m: seq<Byte>) {
    |m| >= NLMSG_HDRLEN && NlLen(m) == |m|
  }

  ghost predicate AreKernelMessages(ms: seq<seq<Byte>>) {
    forall i {:trigger IsKernelMessage(ms[i])} :: 0 <= i < |ms| ==> IsKernelMessage(ms[i])
  }

  lemma AreKernelMessagesTail(ms: seq<seq<Byte>>)
    requires AreKernelMessages(ms) && ms != []
    ensures AreKernelMessages(ms[1..])
  {
    forall i | 0 <= i < |ms| - 1 ensures IsKernelMessage(ms[1..][i]) {
      assert IsKernelMessage(ms[i + 1]);
    }
  }

  lemma ReaddressedFields(m: seq<Byte>, r: Request)
    requires IsKernelMessage(m)
    ensures var t := Readdressed(m, r);
            && WellFormed(t) && |t| == Align4(|m|) && NlType(t) == NlType(m) && t[NLMSG_HDRLEN..|m|] == m[NLMSG_HDRLEN..]
            && Numbered(t, Value(m[6..8]), r.seqno, r.pid)
  {
    hide WordBytes, Value;
    var t := Readdressed(m, r);
    assert t[..4] == m[..4] && t[4..6] == m[4..6] && t[6..8] == m[6..8];
    assert t[8..12] == WordBytes(r.seqno, 4) && t[12..16] == WordBytes(r.pid, 4);
    WordValue32(r.seqno);
    WordValue32(r.pid);
  }

  function Relayed(kernel: seq<seq<Byte>>, r: Request, used: nat, max: nat): seq<seq<Byte>>
    requires AreKernelMessages(kernel)
  {
    if kernel == [] then []
    else
      assert IsKernelMessage(kernel[0]);
      AreKernelMessagesTail(kernel);
      if used + Align4(|kernel[0]|) + 64 > max then []
      else
        var m := Readdressed(kernel[0], r);
        [m] + if NlType(kernel[0]) == NLMSG_DONE then [] else Relayed(kernel[1..], r, used + |m|, max)
  }

  ghost predicate Ended(ms: seq<seq<Byte>>) {
    ms != [] && IsDone(ms[|ms| - 1])
  }

  /** The terminator, when the kernel sends it, ends what is relayed; otherwise there is room for one. */
  lemma {:induction false} RelayedEnds(kernel: seq<seq<Byte>>, r: Request, used: nat, max: nat)
    requires AreKernelMessages(kernel) && used + 20 <= max
    ensures var ms := Relayed(kernel, r, used, max);
            && used + |Concat(ms)| <= max && (if Ended(ms) then Unterminated(ms[..|ms| - 1]) else Unterminated(ms))
            && (!Ended(ms) ==> used + |Concat(ms)| + 20 <= max)
    decreases |kernel|
  {
    if kernel != [] && used + Align4(|kernel[0]|) + 64 <= max {
      assert IsKernelMessage(kernel[0]);
      AreKernelMessagesTail(kernel);
      ReaddressedFields(kernel[0], r);
      var m := Readdressed(kernel[0], r);
      var ms := Relayed(kernel, r, used, max);
      assert Concat(ms) == m + Concat(ms[1..]);
      if NlType(kernel[0]) == NLMSG_DONE {
        assert ms == [m] && ms[..0] == [];
      } else {
        RelayedEnds(kernel[1..], r, used + |m|, max);
        var rest := Relayed(kernel[1..], r, used + |m|, max);
        assert ms[1..] == rest;
        if rest != [] {
          assert ms[|ms| - 1] == rest[|rest| - 1];
          assert ms[..|ms| - 1] == [m] + rest[..|rest| - 1];
          assert ms[..|ms| - 1][1..] == rest[..|rest| - 1];
        }
      }
    }
  }
}
