/** The emulated netlink socket: a reply is built in its buffer for each request, and read back one datagram at
    a time. */
module FakeNetlink {
  import opened Words
  import opened Netlink
  import opened NetlinkReply

  const MINUS_ENODEV: nat := 0x1_0000_0000 - 19
  const MINUS_EINVAL: nat := 0x1_0000_0000 - 22
  const RT_SCOPE_HOST: nat := 254
  const LOOPBACK: Link := Interface(1, ARPHRD_LOOPBACK, 0x49, 65536, [108, 111], [0, 0, 0, 0, 0, 0])
  const LOOPBACK_V4: Address := HostAddress(AF_INET, 1, [127, 0, 0, 1], 8, RT_SCOPE_HOST, [108, 111])
  const LOOPBACK_V6: Address :=
    HostAddress(AF_INET6, 1, [0, 0, 0, 0, 0, 0, 0, 0, 0, 0, 0, 0, 0, 0, 0, 1], 128, RT_SCOPE_HOST, [])

  /** A request, with what the host has to say about it: the interfaces that match, all its addresses, or the
      messages of the kernel's own dump. */
  datatype Query =
    | Garbled
    | GetLink(dump: bool, links: seq<Link>, loopback: bool)
    | GetAddr(dump: bool, addrs: seq<Address>, family: Byte)
    | GetRoute(dump: bool, kernel: seq<seq<Byte>>)
    | Other(dump: bool)

  predicate IsDump(q: Query) {
    !q.Garbled? && q.dump
  }

  ghost predicate IsQuery(q: Query) {
    q.GetRoute? ==> AreKernelMessages(q.kernel)
  }

  function Flags(dump: bool): Word16 {
    if dump then NLM_F_MULTI else 0
  }

  // ----- the messages of a reply

  function LinkSubjects(links: seq<Link>): (xs: seq<Subject>)
    ensures |xs| == |links|
  {
    if links == [] then [] else [LinkSubject(links[0])] + LinkSubjects(links[1..])
  }

  /** `want` is zero when any family will do. */
  predicate Matches(a: Address, want: nat) {
    (a.family == AF_INET || a.family == AF_INET6) && (want == 0 || a.family == want)
  }

  function AddressSubjects(addrs: seq<Address>, want: nat): seq<Subject> {
    if addrs == [] then []
    else (if Matches(addrs[0], want) then [AddressSubject(addrs[0])] else []) + AddressSubjects(addrs[1..], want)
  }

  function Collected(xs: seq<Subject>, dump: bool, all: bool, r: Request): seq<seq<Byte>> {
    Gather(xs, Flags(dump), r, all, 0, MAX_FAKE_NETLINK_REPLY)
  }

  /** The links of the host, or the loopback interface when they cannot be enumerated. */
  function Links(dump: bool, links: seq<Link>, loopback: bool, r: Request): seq<seq<Byte>> {
    var found := Collected(LinkSubjects(links), dump, dump, r);
    if found != [] then found
    else if dump || loopback then Collected([LinkSubject(LOOPBACK)], dump, true, r)
    else [ErrorMessage(r, MINUS_ENODEV)]
  }

  function Want(family: nat): nat {
    if family == AF_INET || family == AF_INET6 then family else 0
  }

  function Loopbacks(family: nat): seq<Subject> {
    (if family == 0 || family == AF_INET then [AddressSubject(LOOPBACK_V4)] else [])
    + if family == 0 || family == AF_INET6 then [AddressSubject(LOOPBACK_V6)] else []
  }

  /** The addresses of the host, or those of the loopback interface; all of them, even if it is not a dump. */
  function Addresses(dump: bool, addrs: seq<Address>, family: nat, r: Request): seq<seq<Byte>> {
    var found := Collected(AddressSubjects(addrs, Want(family)), dump, true, r);
    if found != [] then found else Collected(Loopbacks(family), dump, true, r)
  }

  /** The numbers for an answer to a request that could not be read. */
  function Unread(r: Request): Request {
    Request(0, r.pid)
  }

  /** A dump without its terminator, if it is not the kernel's. */
  ghost function Body(q: Query, r: Request): seq<seq<Byte>>
    requires IsQuery(q)
  {
    match q
    case Garbled => [ErrorMessage(Unread(r), MINUS_EINVAL)]
    case GetLink(dump, links, loopback) => Links(dump, links, loopback, r)
    case GetAddr(dump, addrs, family) =>
      var ms := Addresses(dump, addrs, family, r);
      if ms == [] && !dump then [ErrorMessage(r, MINUS_EINVAL)] else ms
    case GetRoute(dump, kernel) => if dump then Relayed(kernel, r, 0, MAX_FAKE_NETLINK_REPLY) else [ErrorMessage(r, 0)]
    case Other(dump) => if dump then [] else [ErrorMessage(r, 0)]
  }

  ghost function Answer(q: Query, r: Request): seq<seq<Byte>>
    requires IsQuery(q)
  {
    var body := Body(q, r);
    if IsDump(q) && !Ended(body) then body + [DoneMessage(r)] else body
  }

  lemma CollectedFits(xs: seq<Subject>, dump: bool, all: bool, r: Request)
    ensures var ms := Collected(xs, dump, all, r);
            Unterminated(ms) && |Concat(ms)| + 20 <= MAX_FAKE_NETLINK_REPLY && (ms == [] <==> xs == [])
  {
    GatherFits(xs, Flags(dump), r, all, 0, MAX_FAKE_NETLINK_REPLY);
  }

  lemma LinksFit(dump: bool, links: seq<Link>, loopback: bool, r: Request)
    ensures var ms := Links(dump, links, loopback, r);
            ms != [] && Unterminated(ms) && |Concat(ms)| + 20 <= MAX_FAKE_NETLINK_REPLY
  {
    hide Gather, LinkSubject, Unterminated, Concat, ErrorMessage;
    CollectedFits(LinkSubjects(links), dump, dump, r);
    CollectedFits([LinkSubject(LOOPBACK)], dump, true, r);
    OneError(r, MINUS_ENODEV);
  }

  lemma AddressesFit(dump: bool, addrs: seq<Address>, family: nat, r: Request)
    ensures var ms := Addresses(dump, addrs, family, r);
            Unterminated(ms) && |Concat(ms)| + 20 <= MAX_FAKE_NETLINK_REPLY
  {
    hide Gather, AddressSubject, Unterminated, Concat;
    CollectedFits(AddressSubjects(addrs, Want(family)), dump, true, r);
    CollectedFits(Loopbacks(family), dump, true, r);
  }

  /** A request for addresses is answered with messages about addresses unless the family is unknown and the host
      has none to offer. */
  lemma NoAddresses(dump: bool, addrs: seq<Address>, family: nat, r: Request)
    ensures Addresses(dump, addrs, family, r) == [] <==>
            family !in {0, AF_INET, AF_INET6} && forall a :: a in addrs ==> a.family != AF_INET && a.family != AF_INET6
  {
    hide Gather, AddressSubject;
    var want := Want(family);
    CollectedFits(AddressSubjects(addrs, want), dump, true, r);
    CollectedFits(Loopbacks(family), dump, true, r);
    NoneMatch(addrs, want);
  }

  lemma {:induction false} NoneMatch(addrs: seq<Address>, want: nat)
    ensures AddressSubjects(addrs, want) == [] <==> forall a :: a in addrs ==> !Matches(a, want)
  {
    hide AddressSubject;
    if addrs != [] {
      NoneMatch(addrs[1..], want);
      assert forall a :: a in addrs <==> a == addrs[0] || a in addrs[1..];
    }
  }

  lemma UnterminatedLast(ms: seq<seq<Byte>>)
    requires Unterminated(ms) && ms != []
    ensures !Ended(ms)
  {
    if |ms| > 1 {
      UnterminatedLast(ms[1..]);
    }
  }

  /** The terminator of a dump is its last message and its only one, and there is always room for it. */
  lemma BodyFits(q: Query, r: Request)
    requires IsQuery(q)
    ensures var ms := Body(q, r);
            && (if IsDump(q) && Ended(ms) then Unterminated(ms[..|ms| - 1]) else Unterminated(ms))
            && |Concat(ms)| <= MAX_FAKE_NETLINK_REPLY
            && (!Ended(ms) ==> |Concat(ms)| + 20 <= MAX_FAKE_NETLINK_REPLY)
            && (!IsDump(q) ==> ms != [])
  {
    hide Links, Addresses, Relayed, ErrorMessage, IsDone;
    match q {
      case Garbled => OneError(Unread(r), MINUS_EINVAL);
      case GetLink(dump, links, loopback) =>
        LinksFit(dump, links, loopback, r);
        UnterminatedLast(Links(dump, links, loopback, r));
      case GetAddr(dump, addrs, family) =>
        AddressesFit(dump, addrs, family, r);
        OneError(r, MINUS_EINVAL);
        if Addresses(dump, addrs, family, r) != [] {
          UnterminatedLast(Addresses(dump, addrs, family, r));
        }
      case GetRoute(dump, kernel) =>
        RelayedEnds(kernel, r, 0, MAX_FAKE_NETLINK_REPLY);
        OneError(r, 0);
      case Other(dump) => OneError(r, 0);
    }
  }

  lemma OneError(r: Request, code: nat)
    ensures var ms := [ErrorMessage(r, code)]; Unterminated(ms) && |Concat(ms)| == 36 && !Ended(ms)
  {
    ErrorIsMessage(r, code);
    ConcatOne(ErrorMessage(r, code));
  }

  /** Every request has an answer that fits into the buffer.  A dump is read as what was dumped, if anything,
      followed by the terminator in a datagram of its own; another reply is read at once. */
  lemma AnswerFraming(q: Query, r: Request)
    requires IsQuery(q)
    ensures var ms := Answer(q, r);
            && ms != [] && Concat(ms) != [] && |Concat(ms)| <= MAX_FAKE_NETLINK_REPLY
            && if IsDump(q) then
                 var body, done := ms[..|ms| - 1], ms[|ms| - 1];
                 && IsDone(done) && Unterminated(body)
                 && Datagrams(Concat(ms)) == if body == [] then [done] else [Concat(body), done]
               else
                 Datagrams(Concat(ms)) == [Concat(ms)]
  {
    BodyFits(q, r);
    if IsDump(q) {
      DumpFraming(q, r);
    } else {
      WithoutTerminator(Answer(q, r));
    }
  }

  lemma DumpFraming(q: Query, r: Request)
    requires IsQuery(q) && IsDump(q)
    ensures var ms := Answer(q, r);
            && ms != [] && Concat(ms) != [] && |Concat(ms)| <= MAX_FAKE_NETLINK_REPLY
            && var body, done := ms[..|ms| - 1], ms[|ms| - 1];
            && IsDone(done) && Unterminated(body)
            && Datagrams(Concat(ms)) == if body == [] then [done] else [Concat(body), done]
  {
    hide Body, Ended, IsDone, Unterminated, Datagrams, Concat, DoneMessage;
    BodyFits(q, r);
    DumpOf(Body(q, r), r);
  }

  lemma DumpOf(body: seq<seq<Byte>>, r: Request)
    requires if Ended(body) then Unterminated(body[..|body| - 1]) else Unterminated(body)
    requires |Concat(body)| + (if Ended(body) then 0 else 20) <= MAX_FAKE_NETLINK_REPLY
    ensures var ms := if Ended(body) then body else body + [DoneMessage(r)];
            && ms != [] && Concat(ms) != [] && |Concat(ms)| <= MAX_FAKE_NETLINK_REPLY
            && var front, done := ms[..|ms| - 1], ms[|ms| - 1];
            && IsDone(done) && Unterminated(front)
            && Datagrams(Concat(ms)) == if front == [] then [done] else [Concat(front), done]
  {
    if Ended(body) {
      LastFraming(body[..|body| - 1], body[|body| - 1], body);
    } else {
      DoneIsDone(r);
      LastFraming(body, DoneMessage(r), body + [DoneMessage(r)]);
      ConcatOne(DoneMessage(r));
      ConcatAppend(body, [DoneMessage(r)]);
    }
  }

  lemma LastFraming(body: seq<seq<Byte>>, done: seq<Byte>, ms: seq<seq<Byte>>)
    requires Unterminated(body) && IsDone(done) && ms == body + [done]
    ensures Concat(ms) != [] && Datagrams(Concat(ms)) == if body == [] then [done] else [Concat(body), done]
  {
    ConcatAppend(body, [done]);
    ConcatOne(done);
    TerminatedFraming(body, done, []);
    assert done + [] == done;
  }

  // ----- the builders

  /** memcpy into the buffer */
  method CopyIn(out: array<Byte>, at: nat, data: seq<Byte>)
    requires at + |data| <= out.Length
    modifies out
    ensures out[..at] == old(out[..at]) && out[at..at + |data|] == data
    ensures out[at + |data|..] == old(out[at + |data|..])
  {
    var i := 0;
    while i < |data|
      invariant i <= |data|
      invariant forall k :: 0 <= k < out.Length ==> out[k] == if at <= k < at + i then data[k - at] else old(out[k])
    {
      out[at + i] := data[i];
      i := i + 1;
    }
  }

  lemma Joins(out: array<Byte>, from: nat, mid: nat, to: nat)
    requires from <= mid <= to <= out.Length
    ensures out[from..to] == out[from..mid] + out[mid..to]
  {
  }

  /** Bytes behind those written since `base`. */
  method Append(out: array<Byte>, ghost base: nat, off: nat, data: seq<Byte>)
    requires base <= off && off + |data| <= out.Length
    modifies out
    ensures out[base..off + |data|] == old(out[base..off]) + data && out[..base] == old(out[..base])
  {
    CopyIn(out, off, data);
    Joins(out, base, off, off + |data|);
    assert out[..base] == out[..off][..base] && old(out[..base]) == old(out[..off])[..base];
    assert out[base..off] == out[..off][base..] && old(out[base..off]) == old(out[..off])[base..];
  }

  lemma FittingMore(attrs: seq<Attribute>, a: Attribute, room: nat)
    ensures var f := Fitting(attrs, room);
            Fitting(attrs + [a], room) == if SizeAll(f) + Space(a) > room then f else f + [a]
  {
    assert (attrs + [a])[..|attrs|] == attrs;
  }

  lemma EncodeMore(attrs: seq<Attribute>, a: Attribute)
    ensures EncodeAll(attrs + [a]) == EncodeAll(attrs) + Encode(a)
  {
    assert (attrs + [a])[..|attrs|] == attrs;
  }

  lemma BytesMore(attrs: seq<Attribute>, a: Attribute, room: nat)
    ensures var b := Bytes(attrs, room); Bytes(attrs + [a], room) == if |b| + Space(a) > room then b else b + Encode(a)
  {
    var f := Fitting(attrs, room);
    FittingMore(attrs, a, room);
    EncodeMore(f, a);
    EncodedSize(f);
  }

  /** `nl_add_attr`: an attribute behind those added since `base`, if it fits. */
  method AddAttr(out: array<Byte>, off: nat, max: nat, a: Attribute, ghost base: nat, ghost attrs: seq<Attribute>)
    returns (next: nat)
    requires base <= off <= max <= out.Length && out[base..off] == Bytes(attrs, max - base)
    modifies out
    ensures off <= next <= max && out[base..next] == Bytes(attrs + [a], max - base)
    ensures out[..base] == old(out[..base])
  {
    hide Bytes, Encode;
    BytesMore(attrs, a, max - base);
    assert |out[base..off]| == off - base;
    if off + Space(a) > max {
      return off;
    }
    Append(out, base, off, Encode(a));
    next := off + Space(a);
  }

  lemma LinkAttributesAre(l: Link, name: Attribute, mtu: Attribute, queue: Attribute, state: Attribute, hw: Attribute,
                          brd: Attribute)
    requires name == Attribute(IFLA_IFNAME, l.name + [0]) && mtu == Attribute(IFLA_MTU, WordBytes(l.mtu, 4))
    requires queue == Attribute(IFLA_TXQLEN, WordBytes(1000, 4))
    requires state == Attribute(IFLA_OPERSTATE, [if l.flags % 2 == 1 then 6 else 2])
    requires hw == Attribute(IFLA_ADDRESS, l.hwaddr) && brd == Attribute(IFLA_BROADCAST, Broadcast(l))
    ensures var four := [] + [name] + [mtu] + [queue] + [state];
            LinkAttributes(l) == if |l.hwaddr| > 0 then four + [hw] + [brd] else four
  {
  }

  lemma NoBytes(room: nat)
    ensures Bytes([], room) == []
  {
  }

  method AddLinkAttrs(out: array<Byte>, base: nat, max: nat, l: Link) returns (off: nat)
    requires base <= max <= out.Length
    modifies out
    ensures base <= off <= max && out[base..off] == Bytes(LinkAttributes(l), max - base)
    ensures out[..base] == old(out[..base])
  {
    hide Bytes, LinkAttributes;
    var name, mtu := Attribute(IFLA_IFNAME, l.name + [0]), Attribute(IFLA_MTU, WordBytes(l.mtu, 4));
    var queue := Attribute(IFLA_TXQLEN, WordBytes(1000, 4));
    var state := Attribute(IFLA_OPERSTATE, [if l.flags % 2 == 1 then 6 else 2]);
    var hw, brd := Attribute(IFLA_ADDRESS, l.hwaddr), Attribute(IFLA_BROADCAST, Broadcast(l));
    ghost var one: seq<Attribute> := [] + [name];
    ghost var two := one + [mtu];
    ghost var three := two + [queue];
    ghost var four := three + [state];
    NoBytes(max - base);
    off := AddAttr(out, base, max, name, base, []);
    off := AddAttr(out, off, max, mtu, base, one);
    off := AddAttr(out, off, max, queue, base, two);
    off := AddAttr(out, off, max, state, base, three);
    if |l.hwaddr| > 0 {
      off := AddAttr(out, off, max, hw, base, four);
      off := AddAttr(out, off, max, brd, base, four + [hw]);
    }
    LinkAttributesAre(l, name, mtu, queue, state, hw, brd);
  }

  lemma AddressAttributesAre(a: Address, addr: Attribute, local: Attribute, name: Attribute)
    requires addr == Attribute(IFA_ADDRESS, a.addr) && local == Attribute(IFA_LOCAL, a.addr)
    requires name == Attribute(IFA_LABEL, a.ifname + [0])
    ensures var two := [] + [addr] + [local];
            AddressAttributes(a) == if a.family == AF_INET then two + [name] else two
  {
  }

  method AddAddressAttrs(out: array<Byte>, base: nat, max: nat, a: Address) returns (off: nat)
    requires base <= max <= out.Length
    modifies out
    ensures base <= off <= max && out[base..off] == Bytes(AddressAttributes(a), max - base)
    ensures out[..base] == old(out[..base])
  {
    hide Bytes, AddressAttributes;
    var addr, local := Attribute(IFA_ADDRESS, a.addr), Attribute(IFA_LOCAL, a.addr);
    var name := Attribute(IFA_LABEL, a.ifname + [0]);
    ghost var one: seq<Attribute> := [] + [addr];
    ghost var two := one + [local];
    NoBytes(max - base);
    off := AddAttr(out, base, max, addr, base, []);
    off := AddAttr(out, off, max, local, base, one);
    if a.family == AF_INET {
      off := AddAttr(out, off, max, name, base, two);
    }
    AddressAttributesAre(a, addr, local, name);
  }

  /** A message whose header is written last: the fixed part and the attributes are there already. */
  method Finish(out: array<Byte>, start: nat, off: nat, max: nat, flags: Word16, r: Request, ghost info: seq<Byte>,
                x: Subject) returns (next: nat)
    requires start + NLMSG_HDRLEN + |x.info| <= off <= max <= out.Length && info == x.info
    requires out[start + NLMSG_HDRLEN..off] == info + Bytes(x.attrs, max - start - NLMSG_HDRLEN - |x.info|)
    modifies out
    ensures start <= next <= max && out[..start] == old(out[..start])
    ensures out[start..next] == Message(x, flags, r, max - start)
  {
    hide Bytes, Header;
    var len := off - start;
    ghost var bytes := Bytes(x.attrs, max - start - NLMSG_HDRLEN - |x.info|);
    BytesAligned(x.attrs, max - start - NLMSG_HDRLEN - |x.info|);
    assert len == NLMSG_HDRLEN + |x.info + bytes|;
    Aligned(|x.info + bytes|);
    WriteHeader(out, start, off, len, x.ty, flags, r);
    next := start + Align4(len);
  }

  lemma BytesAligned(attrs: seq<Attribute>, room: nat)
    ensures |Bytes(attrs, room)| % 4 == 0
  {
    EncodedSize(Fitting(attrs, room));
  }

  lemma InfoAndBytes(out: array<Byte>, from: nat, base: nat, off: nat, info: seq<Byte>)
    requires from <= base <= off <= out.Length && out[from..base] == info
    ensures out[from..off] == info + out[base..off]
  {
  }

  /** `nl_build_link` */
  method BuildLink(out: array<Byte>, start: nat, max: nat, flags: Word16, r: Request, l: Link) returns (next: nat)
    requires start <= max <= out.Length
    modifies out
    ensures start <= next <= max && out[..start] == old(out[..start])
    ensures out[start..next]
         == if start + NLMSG_HDRLEN + IFINFO_SIZE > max then [] else Message(LinkSubject(l), flags, r, max - start)
  {
    hide Bytes, Message, Fields, IfInfo, LinkAttributes, IsSubject;
    if start + NLMSG_HDRLEN + IFINFO_SIZE > max {
      return start;
    }
    var x := LinkSubject(l);
    var off := BuildLinkBody(out, start + NLMSG_HDRLEN, max, l, x);
    next := Finish(out, start, off, max, flags, r, x.info, x);
  }

  method BuildLinkBody(out: array<Byte>, from: nat, max: nat, l: Link, ghost x: Subject) returns (off: nat)
    requires from + IFINFO_SIZE <= max <= out.Length && x == LinkSubject(l)
    modifies out
    ensures from + IFINFO_SIZE <= off <= max && out[..from] == old(out[..from])
    ensures out[from..off] == x.info + Bytes(x.attrs, max - from - IFINFO_SIZE)
  {
    hide Bytes, Fields, IfInfo, LinkAttributes;
    CopyIn(out, from, IfInfo(l));
    var base := from + IFINFO_SIZE;
    ghost var before := out[..base];
    Joins(out, 0, from, base);
    off := AddLinkAttrs(out, base, max, l);
    Before(out, from, base, before, IfInfo(l));
    InfoAndBytes(out, from, base, off, IfInfo(l));
  }

  lemma Before(out: array<Byte>, from: nat, base: nat, before: seq<Byte>, info: seq<Byte>)
    requires from <= base <= out.Length && out[..base] == before && before[from..] == info
    ensures out[from..base] == info && out[..from] == before[..from]
  {
  }

  /** `nl_build_addr` */
  method BuildAddr(out: array<Byte>, start: nat, max: nat, flags: Word16, r: Request, a: Address) returns (next: nat)
    requires start <= max <= out.Length
    modifies out
    ensures start <= next <= max && out[..start] == old(out[..start])
    ensures out[start..next]
         == if start + NLMSG_HDRLEN + IFADDR_SIZE > max then [] else Message(AddressSubject(a), flags, r, max - start)
  {
    hide Bytes, Message, Fields, IfAddr, AddressAttributes, IsSubject;
    if start + NLMSG_HDRLEN + IFADDR_SIZE > max {
      return start;
    }
    var x := AddressSubject(a);
    var off := BuildAddrBody(out, start + NLMSG_HDRLEN, max, a, x);
    next := Finish(out, start, off, max, flags, r, x.info, x);
  }

  method BuildAddrBody(out: array<Byte>, from: nat, max: nat, a: Address, ghost x: Subject) returns (off: nat)
    requires from + IFADDR_SIZE <= max <= out.Length && x == AddressSubject(a)
    modifies out
    ensures from + IFADDR_SIZE <= off <= max && out[..from] == old(out[..from])
    ensures out[from..off] == x.info + Bytes(x.attrs, max - from - IFADDR_SIZE)
  {
    hide Bytes, Fields, IfAddr, AddressAttributes;
    CopyIn(out, from, IfAddr(a));
    var base := from + IFADDR_SIZE;
    ghost var before := out[..base];
    Joins(out, 0, from, base);
    off := AddAddressAttrs(out, base, max, a);
    Before(out, from, base, before, IfAddr(a));
    InfoAndBytes(out, from, base, off, IfAddr(a));
  }

  /** A header in front of the rest of a message, which is already there. */
  method WriteHeader(out: array<Byte>, start: nat, off: nat, len: nat, ty: nat, flags: Word16, r: Request)
    requires start + NLMSG_HDRLEN <= off <= out.Length
    modifies out
    ensures out[..start] == old(out[..start])
    ensures out[start..off] == Header(len, ty, flags, r.seqno, r.pid) + old(out[start + NLMSG_HDRLEN..off])
  {
    hide Header;
    CopyIn(out, start, Header(len, ty, flags, r.seqno, r.pid));
    Joins(out, start, start + NLMSG_HDRLEN, off);
    assert out[start + NLMSG_HDRLEN..off] == out[start + NLMSG_HDRLEN..][..off - start - NLMSG_HDRLEN];
    assert old(out[start + NLMSG_HDRLEN..off]) == old(out[start + NLMSG_HDRLEN..])[..off - start - NLMSG_HDRLEN];
  }

  /** `nl_build_done` and `nl_build_error` write a message of fixed size, if it fits. */
  method BuildDone(out: array<Byte>, off: nat, max: nat, r: Request) returns (next: nat)
    requires off <= max <= out.Length
    modifies out
    ensures off <= next <= max
    ensures out[..next] == old(out[..off]) + if off + 20 > max then [] else DoneMessage(r)
  {
    if off + Align4(NLMSG_HDRLEN + 4) > max {
      return off;
    }
    CopyIn(out, off, DoneMessage(r));
    next := off + 20;
    Joins(out, 0, off, next);
  }

  method BuildError(out: array<Byte>, off: nat, max: nat, r: Request, code: nat) returns (next: nat)
    requires off <= max <= out.Length
    modifies out
    ensures off <= next <= max
    ensures out[..next] == old(out[..off]) + if off + 36 > max then [] else ErrorMessage(r, code)
  {
    if off + Align4(NLMSG_HDRLEN + 20) > max {
      return off;
    }
    CopyIn(out, off, ErrorMessage(r, code));
    next := off + 36;
    Joins(out, 0, off, next);
  }

  /** The reply so far holds the messages `ms`, and those about `rest` are still to come. */
  ghost predicate SoFar(bytes: seq<Byte>, ms: seq<seq<Byte>>, rest: seq<Subject>, xs: seq<Subject>, flags: Word16,
                        r: Request, all: bool, max: nat)
  {
    bytes == Concat(ms) && ms + Gather(rest, flags, r, all, |bytes|, max) == Gather(xs, flags, r, all, 0, max)
  }

  lemma GatherStarts(xs: seq<Subject>, flags: Word16, r: Request, all: bool, max: nat)
    ensures SoFar([], [], xs, xs, flags, r, all, max)
  {
    hide Message;
    var ms := Gather(xs, flags, r, all, 0, max);
    assert [] + ms == ms;
  }

  lemma GatherStops(bytes: seq<Byte>, ms: seq<seq<Byte>>, rest: seq<Subject>, xs: seq<Subject>, flags: Word16, r: Request,
                    all: bool, max: nat)
    requires SoFar(bytes, ms, rest, xs, flags, r, all, max) && (rest == [] || |bytes| + 256 > max)
    ensures bytes == Concat(ms) && ms == Gather(xs, flags, r, all, 0, max)
  {
    hide Message;
    assert ms + [] == ms;
  }

  lemma Appended(bytes: seq<Byte>, ms: seq<seq<Byte>>, m: seq<Byte>, rest: seq<seq<Byte>>)
    requires bytes == Concat(ms)
    ensures bytes + m == Concat(ms + [m]) && ms + ([m] + rest) == (ms + [m]) + rest
  {
    ConcatAppend(ms, [m]);
    ConcatOne(m);
  }

  lemma GatherNext(bytes: seq<Byte>, ms: seq<seq<Byte>>, m: seq<Byte>, rest: seq<Subject>, xs: seq<Subject>, flags: Word16,
                   r: Request, all: bool, max: nat)
    requires SoFar(bytes, ms, rest, xs, flags, r, all, max) && rest != [] && |bytes| + 256 <= max
    requires m == Message(rest[0], flags, r, max - |bytes|)
    ensures if all then SoFar(bytes + m, ms + [m], rest[1..], xs, flags, r, all, max)
            else bytes + m == Concat(ms + [m]) && ms + [m] == Gather(xs, flags, r, all, 0, max)
  {
    hide Message, IsSubject;
    var more := if all then Gather(rest[1..], flags, r, all, |bytes + m|, max) else [];
    Appended(bytes, ms, m, more);
    assert (ms + [m]) + [] == ms + [m];
  }

  /** `build_host_links`, after the enumeration: one message for each link, or for the first. */
  method BuildHostLinks(out: array<Byte>, max: nat, r: Request, links: seq<Link>, dump: bool)
    returns (off: nat, built: nat)
    requires max <= out.Length
    modifies out
    ensures off <= max
    ensures var ms := Gather(LinkSubjects(links), Flags(dump), r, dump, 0, max);
            out[..off] == Concat(ms) && built == |ms|
  {
    hide Gather, Message, LinkSubject, LinkSubjects, Concat, SoFar, IsSubject;
    ghost var xs := LinkSubjects(links);
    ghost var ms: seq<seq<Byte>> := [];
    off, built := 0, 0;
    var i := 0;
    GatherStarts(xs, Flags(dump), r, dump, max);
    assert out[..off] == [] && links[i..] == links;
    while i < |links|
      invariant i <= |links| && off <= max && built == |ms|
      invariant SoFar(out[..off], ms, LinkSubjects(links[i..]), xs, Flags(dump), r, dump, max)
    {
      if off + 256 > max {
        break;
      }
      ghost var bytes := out[..off];
      LinkSubjectsFrom(links, i);
      var next := BuildLink(out, off, max, Flags(dump), r, links[i]);
      Joins(out, 0, off, next);
      GatherNext(bytes, ms, out[off..next], LinkSubjects(links[i..]), xs, Flags(dump), r, dump, max);
      ms := ms + [out[off..next]];
      off := next;
      built := built + 1;
      if !dump {
        return;
      }
      i := i + 1;
    }
    LinkSubjectsFrom(links, i);
    GatherStops(out[..off], ms, LinkSubjects(links[i..]), xs, Flags(dump), r, dump, max);
  }

  lemma LinkSubjectsFrom(links: seq<Link>, i: nat)
    requires i <= |links|
    ensures var rest := LinkSubjects(links[i..]);
            if i == |links| then rest == []
            else rest != [] && rest[0] == LinkSubject(links[i]) && rest[1..] == LinkSubjects(links[i + 1..])
  {
    if i < |links| {
      assert links[i..][1..] == links[i + 1..];
    }
  }

  /** `build_host_addrs`, after the enumeration: one message for each address of a family that is wanted, whether
      it is a dump or not. */
  method BuildHostAddrs(out: array<Byte>, max: nat, r: Request, addrs: seq<Address>, want: nat, dump: bool)
    returns (off: nat, built: nat)
    requires max <= out.Length
    modifies out
    ensures off <= max
    ensures var ms := Gather(AddressSubjects(addrs, want), Flags(dump), r, true, 0, max);
            out[..off] == Concat(ms) && built == |ms|
  {
    hide Gather, Message, AddressSubject, Concat, SoFar, IsSubject;
    ghost var xs := AddressSubjects(addrs, want);
    ghost var ms: seq<seq<Byte>> := [];
    off, built := 0, 0;
    var i := 0;
    GatherStarts(xs, Flags(dump), r, true, max);
    assert out[..off] == [] && addrs[i..] == addrs;
    while i < |addrs|
      invariant i <= |addrs| && off <= max && built == |ms|
      invariant SoFar(out[..off], ms, AddressSubjects(addrs[i..], want), xs, Flags(dump), r, true, max)
      decreases |addrs| - i
    {
      assert addrs[i..][1..] == addrs[i + 1..];
      ghost var rest := AddressSubjects(addrs[i..], want);
      if !Matches(addrs[i], want) {
        i := i + 1;
        assert AddressSubjects(addrs[i..], want) == rest;
        continue;
      }
      if off + 256 > max {
        break;
      }
      ghost var bytes := out[..off];
      var next := BuildAddr(out, off, max, Flags(dump), r, addrs[i]);
      Joins(out, 0, off, next);
      assert rest[0] == AddressSubject(addrs[i]) && rest[1..] == AddressSubjects(addrs[i + 1..], want);
      GatherNext(bytes, ms, out[off..next], rest, xs, Flags(dump), r, true, max);
      ms := ms + [out[off..next]];
      off := next;
      built := built + 1;
      i := i + 1;
    }
    assert i == |addrs| ==> AddressSubjects(addrs[i..], want) == [];
    GatherStops(out[..off], ms, AddressSubjects(addrs[i..], want), xs, Flags(dump), r, true, max);
  }

  // ----- relaying

  /** The reply so far holds these messages of the kernel, none of them a terminator, and those from the i-th on
      are still to come. */
  ghost predicate RelaySoFar(bytes: seq<Byte>, ms: seq<seq<Byte>>, kernel: seq<seq<Byte>>, i: nat, r: Request, max: nat)
    requires AreKernelMessages(kernel)
  {
    && i <= |kernel| && bytes == Concat(ms) && !Ended(ms) && AreKernelMessages(kernel[i..])
    && ms + Relayed(kernel[i..], r, |bytes|, max) == Relayed(kernel, r, 0, max)
  }

  lemma RelayStarts(kernel: seq<seq<Byte>>, r: Request, max: nat)
    requires AreKernelMessages(kernel)
    ensures RelaySoFar([], [], kernel, 0, r, max)
  {
    assert kernel[0..] == kernel;
    assert [] + Relayed(kernel, r, 0, max) == Relayed(kernel, r, 0, max);
  }

  lemma RelayStops(bytes: seq<Byte>, ms: seq<seq<Byte>>, kernel: seq<seq<Byte>>, i: nat, r: Request, max: nat)
    requires AreKernelMessages(kernel) && RelaySoFar(bytes, ms, kernel, i, r, max)
    requires i >= |kernel| || |bytes| + Align4(|kernel[i]|) + 64 > max
    ensures bytes == Concat(ms) && ms == Relayed(kernel, r, 0, max) && !Ended(ms)
  {
    hide Align4, NlLen, NlType, IsDone, Readdressed;
    assert ms + [] == ms;
  }

  lemma EndedByDone(ms: seq<seq<Byte>>, m: seq<Byte>, r: Request)
    requires IsKernelMessage(m)
    ensures |Readdressed(m, r)| == Align4(|m|)
    ensures Ended(ms + [Readdressed(m, r)]) <==> NlType(m) == NLMSG_DONE
  {
    ReaddressedFields(m, r);
  }

  lemma RelayNext(bytes: seq<Byte>, ms: seq<seq<Byte>>, kernel: seq<seq<Byte>>, i: nat, r: Request, max: nat, m: seq<Byte>)
    requires AreKernelMessages(kernel) && i < |kernel| && IsKernelMessage(kernel[i]) && m == Readdressed(kernel[i], r)
    requires RelaySoFar(bytes, ms, kernel, i, r, max) && |bytes| + Align4(|kernel[i]|) + 64 <= max
    ensures |m| == Align4(|kernel[i]|)
    ensures if NlType(kernel[i]) == NLMSG_DONE then
              bytes + m == Concat(ms + [m]) && ms + [m] == Relayed(kernel, r, 0, max) && Ended(ms + [m])
            else RelaySoFar(bytes + m, ms + [m], kernel, i + 1, r, max)
  {
    hide Readdressed, Ended, NlType, NlLen;
    EndedByDone(ms, kernel[i], r);
    assert kernel[i..][0] == kernel[i] && kernel[i..][1..] == kernel[i + 1..];
    AreKernelMessagesTail(kernel[i..]);
    var total := |bytes + m|;
    RelayUnrolled(kernel[i..], r, |bytes|, max, m, total);
    var rest := if NlType(kernel[i]) == NLMSG_DONE then [] else Relayed(kernel[i + 1..], r, total, max);
    Appended(bytes, ms, m, rest);
    assert (ms + [m]) + [] == ms + [m];
  }

  lemma RelayUnrolled(kernel: seq<seq<Byte>>, r: Request, used: nat, max: nat, m: seq<Byte>, total: nat)
    requires AreKernelMessages(kernel) && kernel != [] && IsKernelMessage(kernel[0]) && AreKernelMessages(kernel[1..])
    requires used + Align4(|kernel[0]|) + 64 <= max && m == Readdressed(kernel[0], r) && total == used + |m|
    ensures var rest := if NlType(kernel[0]) == NLMSG_DONE then [] else Relayed(kernel[1..], r, total, max);
            Relayed(kernel, r, used, max) == [m] + rest
  {
  }

  /** `relay_route_dump`, for the messages that the kernel sends: each gets the numbers that the tracee expects,
      and a terminator follows if the kernel's own did not make it. */
  method RelayRouteDump(out: array<Byte>, max: nat, r: Request, kernel: seq<seq<Byte>>) returns (off: nat)
    requires AreKernelMessages(kernel) && 20 <= max <= out.Length
    modifies out
    ensures off <= max
    ensures var ms := Relayed(kernel, r, 0, max);
            out[..off] == Concat(if ms == [] || Ended(ms) then ms else ms + [DoneMessage(r)])
    ensures off == 0 <==> Relayed(kernel, r, 0, max) == []
  {
    hide Relayed, DoneMessage, Ended;
    var sawDone;
    off, sawDone := RelayMessages(out, max, r, kernel);
    RelayedEnds(kernel, r, 0, max);
    if off == 0 {
      return;
    }
    if !sawDone {
      off := BuildDone(out, off, max, r);
      ConcatAppend(Relayed(kernel, r, 0, max), [DoneMessage(r)]);
      ConcatOne(DoneMessage(r));
    }
  }

  method RelayMessages(out: array<Byte>, max: nat, r: Request, kernel: seq<seq<Byte>>) returns (off: nat, sawDone: bool)
    requires AreKernelMessages(kernel) && max <= out.Length
    modifies out
    ensures var ms := Relayed(kernel, r, 0, max);
            off <= max && out[..off] == Concat(ms) && (sawDone <==> Ended(ms)) && (off == 0 <==> ms == [])
  {
    hide Relayed, Readdressed, Ended, Concat, RelaySoFar, NlType, Align4;
    ghost var ms: seq<seq<Byte>> := [];
    off, sawDone := 0, false;
    RelayStarts(kernel, r, max);
    assert out[..off] == [];
    var i := 0;
    while i < |kernel|
      invariant i <= |kernel| && off <= max && RelaySoFar(out[..off], ms, kernel, i, r, max) && (off == 0 <==> ms == [])
    {
      assert IsKernelMessage(kernel[i]);
      if off + Align4(|kernel[i]|) + 64 > max {
        break;
      }
      var m := Readdressed(kernel[i], r);
      ghost var bytes := out[..off];
      RelayNext(bytes, ms, kernel, i, r, max, m);
      CopyIn(out, off, m);
      Joins(out, 0, off, off + |m|);
      ms := ms + [m];
      off := off + |m|;
      if NlType(kernel[i]) == NLMSG_DONE {
        sawDone := true;
        return;
      }
      i := i + 1;
    }
    RelayStops(out[..off], ms, kernel, i, r, max);
  }

  // ----- the reply

  lemma OneCollected(x: Subject, dump: bool, r: Request)
    ensures Collected([x], dump, true, r) == [Message(x, Flags(dump), r, MAX_FAKE_NETLINK_REPLY)]
    ensures Concat(Collected([x], dump, true, r)) == Message(x, Flags(dump), r, MAX_FAKE_NETLINK_REPLY)
  {
    hide Message;
    var m := Message(x, Flags(dump), r, MAX_FAKE_NETLINK_REPLY);
    assert [x][1..] == [];
    assert Gather([], Flags(dump), r, true, |m|, MAX_FAKE_NETLINK_REPLY) == [];
    ConcatOne(m);
  }

  lemma TwoCollected(x: Subject, y: Subject, dump: bool, r: Request)
    ensures var m := Message(x, Flags(dump), r, MAX_FAKE_NETLINK_REPLY);
            && |m| <= 176
            && Concat(Collected([x, y], dump, true, r))
               == m + Message(y, Flags(dump), r, MAX_FAKE_NETLINK_REPLY - |m|)
  {
    hide Message, WellFormed, NlType;
    var m := Message(x, Flags(dump), r, MAX_FAKE_NETLINK_REPLY);
    MessagePlain(x, Flags(dump), r, MAX_FAKE_NETLINK_REPLY);
    var m' := Message(y, Flags(dump), r, MAX_FAKE_NETLINK_REPLY - |m|);
    assert [x, y][1..] == [y] && [y][1..] == [];
    assert Gather([y], Flags(dump), r, true, |m|, MAX_FAKE_NETLINK_REPLY) == [m'];
    assert [m] + [m'] == [m, m'] && [m, m'][1..] == [m'];
    ConcatOne(m');
    assert Concat([m, m']) == m + Concat([m']);
  }

  method AnswerLinks(out: array<Byte>, r: Request, links: seq<Link>, dump: bool, loopback: bool) returns (off: nat)
    requires out.Length == MAX_FAKE_NETLINK_REPLY
    modifies out
    ensures off <= out.Length && out[..off] == Concat(Links(dump, links, loopback, r))
  {
    hide Gather, Message, LinkSubject, ErrorMessage, IsSubject, LinkSubjects;
    var built;
    off, built := BuildHostLinks(out, MAX_FAKE_NETLINK_REPLY, r, links, dump);
    if built == 0 {
      if dump || loopback {
        off := BuildLink(out, 0, MAX_FAKE_NETLINK_REPLY, Flags(dump), r, LOOPBACK);
        assert out[0..off] == out[..off];
        OneCollected(LinkSubject(LOOPBACK), dump, r);
      } else {
        off := BuildError(out, 0, MAX_FAKE_NETLINK_REPLY, r, MINUS_ENODEV);
        ConcatOne(ErrorMessage(r, MINUS_ENODEV));
      }
    }
  }

  method AnswerAddresses(out: array<Byte>, r: Request, addrs: seq<Address>, dump: bool, family: nat) returns (off: nat)
    requires out.Length == MAX_FAKE_NETLINK_REPLY
    modifies out
    ensures off <= out.Length && out[..off] == Concat(Addresses(dump, addrs, family, r))
  {
    hide Gather, AddressSubjects;
    var built;
    off, built := BuildHostAddrs(out, MAX_FAKE_NETLINK_REPLY, r, addrs, Want(family), dump);
    if built == 0 {
      off := AnswerLoopbacks(out, r, dump, family);
    }
  }

  method AnswerLoopbacks(out: array<Byte>, r: Request, dump: bool, family: nat) returns (off: nat)
    requires out.Length == MAX_FAKE_NETLINK_REPLY
    modifies out
    ensures off <= out.Length && out[..off] == Concat(Collected(Loopbacks(family), dump, true, r))
  {
    hide Gather, Message, AddressSubject, IsSubject, Concat;
    off := 0;
    assert out[..off] == [];
    if family == 0 || family == AF_INET {
      off := BuildAddr(out, off, MAX_FAKE_NETLINK_REPLY, Flags(dump), r, LOOPBACK_V4);
      assert out[0..off] == out[..off];
    }
    ghost var before, start := out[..off], off;
    if family == 0 || family == AF_INET6 {
      off := BuildAddr(out, off, MAX_FAKE_NETLINK_REPLY, Flags(dump), r, LOOPBACK_V6);
      Joins(out, 0, start, off);
      assert out[0..start] == before && out[0..off] == out[..off];
    }
    LoopbacksCollected(family, dump, r);
  }

  lemma LoopbacksCollected(family: nat, dump: bool, r: Request)
    ensures var m := if family == 0 || family == AF_INET then
                       Message(AddressSubject(LOOPBACK_V4), Flags(dump), r, MAX_FAKE_NETLINK_REPLY)
                     else [];
            && |m| <= 176
            && Concat(Collected(Loopbacks(family), dump, true, r))
               == m + if family == 0 || family == AF_INET6 then
                        Message(AddressSubject(LOOPBACK_V6), Flags(dump), r, MAX_FAKE_NETLINK_REPLY - |m|)
                      else []
  {
    hide Gather, Message, AddressSubject, IsSubject, Concat;
    var v4, v6 := AddressSubject(LOOPBACK_V4), AddressSubject(LOOPBACK_V6);
    TwoCollected(v4, v6, dump, r);
    OneCollected(v4, dump, r);
    OneCollected(v6, dump, r);
    NothingCollected(dump, r);
    assert [v4] + [v6] == [v4, v6] && [] + [v6] == [v6] && [v4] + [] == [v4];
    assert Loopbacks(family) == if family == 0 then [v4, v6] else if family == AF_INET then [v4]
                                else if family == AF_INET6 then [v6] else [];
  }

  lemma NothingCollected(dump: bool, r: Request)
    ensures Concat(Collected([], dump, true, r)) == []
  {
  }

  lemma AnswerOfLinks(q: Query, r: Request, bytes: seq<Byte>)
    requires q.GetLink? && bytes == Concat(Links(q.dump, q.links, q.loopback, r))
    ensures Concat(Answer(q, r)) == if q.dump then bytes + DoneMessage(r) else bytes
    ensures bytes != [] && |bytes| + 20 <= MAX_FAKE_NETLINK_REPLY
  {
    hide Links, DoneMessage, IsDone, Unterminated;
    var ms := Links(q.dump, q.links, q.loopback, r);
    LinksFit(q.dump, q.links, q.loopback, r);
    UnterminatedLast(ms);
    ConcatAppend(ms, [DoneMessage(r)]);
    ConcatOne(DoneMessage(r));
    FirstByte(ms);
  }

  lemma FirstByte(ms: seq<seq<Byte>>)
    requires Unterminated(ms) && ms != []
    ensures Concat(ms) != []
  {
  }

  lemma AnswerOfAddresses(q: Query, r: Request, bytes: seq<Byte>)
    requires q.GetAddr? && bytes == Concat(Addresses(q.dump, q.addrs, q.family, r))
    ensures bytes != [] || q.dump ==> Concat(Answer(q, r)) == if q.dump then bytes + DoneMessage(r) else bytes
    ensures bytes == [] && !q.dump ==> Concat(Answer(q, r)) == ErrorMessage(r, MINUS_EINVAL)
    ensures |bytes| + 20 <= MAX_FAKE_NETLINK_REPLY
  {
    hide Addresses, DoneMessage, ErrorMessage, IsDone, Unterminated;
    var ms := Addresses(q.dump, q.addrs, q.family, r);
    AddressesFit(q.dump, q.addrs, q.family, r);
    if ms != [] {
      UnterminatedLast(ms);
      FirstByte(ms);
    }
    ConcatAppend(ms, [DoneMessage(r)]);
    ConcatOne(DoneMessage(r));
    ConcatOne(ErrorMessage(r, MINUS_EINVAL));
  }

  lemma AnswerOfRoutes(q: Query, r: Request)
    requires q.GetRoute? && q.dump && IsQuery(q)
    ensures var ms := Relayed(q.kernel, r, 0, MAX_FAKE_NETLINK_REPLY);
            ms == [] || Answer(q, r) == if Ended(ms) then ms else ms + [DoneMessage(r)]
  {
  }

  lemma AnswerOfDone(q: Query, r: Request)
    requires IsQuery(q) && ((q.Other? && q.dump)
                            || (q.GetRoute? && q.dump && Relayed(q.kernel, r, 0, MAX_FAKE_NETLINK_REPLY) == []))
    ensures Concat(Answer(q, r)) == DoneMessage(r)
  {
    hide Relayed, DoneMessage;
    ConcatOne(DoneMessage(r));
    assert [] + [DoneMessage(r)] == [DoneMessage(r)];
  }

  lemma AnswerOfError(q: Query, r: Request)
    requires q.Garbled? || (q.GetRoute? && !q.dump) || (q.Other? && !q.dump)
    ensures IsQuery(q) ==>
              Concat(Answer(q, r)) == if q.Garbled? then ErrorMessage(Unread(r), MINUS_EINVAL) else ErrorMessage(r, 0)
  {
    hide ErrorMessage, Relayed;
    ConcatOne(ErrorMessage(Unread(r), MINUS_EINVAL));
    ConcatOne(ErrorMessage(r, 0));
  }

  /** `build_fake_netlink_reply`, for a request that has been decoded. */
  method BuildReply(out: array<Byte>, q: Query, r: Request) returns (off: nat)
    requires out.Length == MAX_FAKE_NETLINK_REPLY && IsQuery(q)
    modifies out
    ensures 0 < off <= out.Length && out[..off] == Concat(Answer(q, r))
  {
    hide Answer, Concat, Links, Addresses, Relayed, DoneMessage, ErrorMessage, Ended;
    MessageSizes(r);
    var max := MAX_FAKE_NETLINK_REPLY;
    var seqno := 0;
    off := 0;
    assert out[..off] == [];
    if !q.Garbled? {
      seqno := r.seqno;
    }
    match q {
      case Garbled =>
        AnswerOfError(q, r);
      case GetLink(dump, links, loopback) =>
        off := AnswerLinks(out, r, links, dump, loopback);
        AnswerOfLinks(q, r, out[..off]);
        if dump {
          off := BuildDone(out, off, max, r);
        }
      case GetAddr(dump, addrs, family) =>
        off := AnswerAddresses(out, r, addrs, dump, family);
        AnswerOfAddresses(q, r, out[..off]);
        if dump {
          off := BuildDone(out, off, max, r);
        }
      case GetRoute(dump, kernel) =>
        if dump {
          off := RelayRouteDump(out, max, r, kernel);
          AnswerOfRoutes(q, r);
          if off == 0 {
            AnswerOfDone(q, r);
            off := BuildDone(out, off, max, r);
          }
        } else {
          AnswerOfError(q, r);
          off := BuildError(out, off, max, r, 0);
        }
      case Other(dump) =>
        if dump {
          AnswerOfDone(q, r);
          off := BuildDone(out, off, max, r);
        } else {
          AnswerOfError(q, r);
          off := BuildError(out, off, max, r, 0);
        }
    }
    if off == 0 {
      assert out[..off] == [];
      off := BuildError(out, off, max, Request(seqno, r.pid), MINUS_EINVAL);
    }
  }

  lemma MessageSizes(r: Request)
    ensures |DoneMessage(r)| == 20 && forall s: Request, code: nat :: |ErrorMessage(s, code)| == 36
  {
  }

  // ----- the socket

  function Sum(lens: seq<nat>): nat {
    if lens == [] then 0 else Sum(lens[..|lens| - 1]) + lens[|lens| - 1]
  }

  /** `scatter_fake_netlink_reply`: what each segment of the reader gets.  A segment is filled before the next one gets
      anything. */
  method Scatter(segments: seq<nat>, reply: seq<Byte>) returns (parts: seq<seq<Byte>>, done: nat)
    ensures |parts| <= |segments| && done == (if Sum(segments) < |reply| then Sum(segments) else |reply|)
    ensures Concat(parts) == reply[..done] && forall i :: 0 <= i < |parts| ==> |parts[i]| <= segments[i]
    ensures forall i :: 0 <= i < |parts| - 1 ==> |parts[i]| == segments[i]
  {
    parts, done := [], 0;
    var i := 0;
    assert segments[..0] == [];
    while i < |segments| && done < |reply|
      invariant i <= |segments| && |parts| == i && done <= |reply|
      invariant done == if Sum(segments[..i]) < |reply| then Sum(segments[..i]) else |reply|
      invariant Concat(parts) == reply[..done] && forall k :: 0 <= k < i ==> |parts[k]| <= segments[k]
      invariant forall k :: 0 <= k < i && (k < i - 1 || done < |reply|) ==> |parts[k]| == segments[k]
    {
      var chunk := |reply| - done;
      if chunk > segments[i] {
        chunk := segments[i];
      }
      var part := reply[done..done + chunk];
      ConcatAppend(parts, [part]);
      ConcatOne(part);
      assert reply[..done + chunk] == reply[..done] + part;
      assert segments[..i + 1][..i] == segments[..i];
      parts := parts + [part];
      done := done + chunk;
      i := i + 1;
    }
    SumGrows(segments, i);
    assert segments[..|segments|] == segments;
  }

  lemma {:induction false} SumGrows(segments: seq<nat>, i: nat)
    requires i <= |segments|
    ensures Sum(segments[..i]) <= Sum(segments)
    decreases |segments|
  {
    if i < |segments| {
      var shorter := segments[..|segments| - 1];
      assert segments[..i] == shorter[..i];
      SumGrows(shorter, i);
    } else {
      assert segments[..i] == segments;
    }
  }

  class FakeNetlinkSocket {
    const reply: array<Byte>
    var replyLen: nat
    var replyOff: nat

    ghost predicate Valid()
      reads this
    {
      && reply.Length == MAX_FAKE_NETLINK_REPLY && replyLen <= reply.Length
      && (if replyLen == 0 then replyOff == 0 else replyOff < replyLen)
    }

    /** The bytes still to be delivered. */
    ghost function Pending(): seq<Byte>
      reads this, reply
      requires Valid()
    {
      reply[replyOff..replyLen]
    }

    constructor ()
      ensures Valid() && fresh(reply) && Pending() == []
    {
      reply := new Byte[MAX_FAKE_NETLINK_REPLY];
      replyLen, replyOff := 0, 0;
    }

    /** A request is answered; what was pending is dropped. */
    method Send(q: Query, r: Request)
      requires Valid() && IsQuery(q)
      modifies this, reply
      ensures Valid() && Pending() == Concat(Answer(q, r)) && Pending() != []
    {
      replyLen, replyOff := 0, 0;
      var off := BuildReply(reply, q, r);
      replyLen := off;
      assert Pending() == reply[..off];
    }

    /** `pending_fake_netlink_datagram` */
    method PendingDatagram() returns (datagram: seq<Byte>)
      requires Valid()
      ensures datagram == Pending()[..DatagramLen(Pending())]
      ensures datagram == [] <==> Pending() == []
    {
      if replyLen == 0 {
        return [];
      }
      var left := reply[replyOff..replyLen];
      var n := FakeNetlinkDatagramLen(left);
      datagram := left[..n];
    }

    /** `consume_fake_netlink_datagram` */
    method Consume(datagram: nat)
      requires Valid() && 0 < datagram <= |Pending()|
      modifies `replyLen, `replyOff
      ensures Valid() && Pending() == old(Pending())[datagram..]
    {
      replyOff := replyOff + datagram;
      if replyOff >= replyLen {
        replyLen := 0;
        replyOff := 0;
      }
    }

    /** The read of a datagram into segments of these lengths.  Nothing is delivered when nothing is pending:
        the read then reaches the substitute socket. */
    method Recv(segments: seq<nat>, peek: bool, trunc: bool) returns (delivered: bool, parts: seq<seq<Byte>>, result: nat)
      requires Valid()
      modifies `replyLen, `replyOff
      ensures Valid() && (delivered <==> old(Pending()) != [])
      ensures delivered ==>
                var d := Datagrams(old(Pending()))[0];
                var n := if Sum(segments) < |d| then Sum(segments) else |d|;
                && Concat(parts) == d[..n] && result == (if trunc then |d| else n)
                && |parts| <= |segments| && forall i :: 0 <= i < |parts| ==>
                     if i < |parts| - 1 then |parts[i]| == segments[i] else |parts[i]| <= segments[i]
      ensures Datagrams(Pending())
           == if delivered && !peek then Datagrams(old(Pending()))[1..] else Datagrams(old(Pending()))
    {
      var datagram := PendingDatagram();
      if datagram == [] {
        return false, [], 0;
      }
      delivered := true;
      var scattered;
      parts, scattered := Scatter(segments, datagram);
      if !peek {
        Consume(|datagram|);
      }
      result := if trunc then |datagram| else scattered;
    }
  }
}
