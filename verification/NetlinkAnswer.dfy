/** What the reader of an answer finds in it, byte by byte: messages as in section 2.3.2 of RFC 3549, links and
    addresses as in its section 3.1. */
module NetlinkAnswer {
  import opened Common
  import opened Words
  import opened Netlink
  import opened NetlinkReply
  import opened FakeNetlink

  /** A message of this type, padded to four bytes, with the flags and the numbers that the reader checks. */
  ghost predicate Begins(m: seq<Byte>, ty: nat, flags: nat, r: Request) {
    && |m| >= 16 && |m| % 4 == 0 && Value(m[0..4]) <= |m| < Value(m[0..4]) + 4
    && Value(m[4..6]) == ty && Value(m[6..8]) == flags && Value(m[8..12]) == r.seqno && Value(m[12..16]) == r.pid
  }

  ghost predicate TellsDone(m: seq<Byte>, r: Request) {
    Begins(m, 3, 2, r) && |m| == 20 && Value(m[16..20]) == 0
  }

  /** An error, zero for success; the request is not quoted. */
  ghost predicate TellsError(m: seq<Byte>, r: Request, errno: nat) {
    && Begins(m, 2, 0, r) && |m| == 36
    && Value(m[16..20]) == (0x1_0000_0000 - errno) % 0x1_0000_0000 && forall i :: 20 <= i < 36 ==> m[i] == 0
  }

  /** What a reader gets who looks for an attribute. */
  function Find(attrs: seq<Attribute>, ty: nat): Option<seq<Byte>> {
    if attrs == [] then None else if attrs[0].ty == ty then Some(attrs[0].data) else Find(attrs[1..], ty)
  }

  ghost predicate IsWord(found: Option<seq<Byte>>, value: nat) {
    found.Some? && |found.value| == 4 && Value(found.value) == value
  }

  ghost predicate IsHardware(found: Option<seq<Byte>>, brd: Option<seq<Byte>>, l: Link) {
    if l.hwaddr == [] then found == brd == None
    else
      && found == Some(l.hwaddr) && brd.Some? && |brd.value| == |l.hwaddr|
      && forall i :: 0 <= i < |brd.value| ==> brd.value[i] == if l.ty == 772 then 0 else 255
  }

  /** A link is shown with its type, index and flags, running links as having a carrier, and with its attributes:
      name, MTU, queue length, state, and the hardware addresses if there is one. */
  ghost predicate TellsLink(m: seq<Byte>, flags: nat, r: Request, l: Link) {
    && Begins(m, 16, flags, r) && |m| >= 32
    && Value(m[16..18]) == 0 && Value(m[18..20]) == l.ty && Value(m[20..24]) == l.index
    && (var shown := Value(m[24..28]);
        && (shown == l.flags || shown == l.flags + 0x1_0000)
        && (shown / 0x1_0000 % 2 == 1 <==> l.flags / 0x40 % 2 == 1 || l.flags / 0x1_0000 % 2 == 1))
    && Value(m[28..32]) == 0
    && TellsAttributes(Decode(m[32..]), l)
  }

  ghost predicate TellsAttributes(attrs: seq<Attribute>, l: Link) {
    && Find(attrs, 3) == Some(l.name + [0]) && IsWord(Find(attrs, 4), l.mtu) && IsWord(Find(attrs, 13), 1000)
    && Find(attrs, 16) == Some([if l.flags % 2 == 1 then 6 else 2])
    && IsHardware(Find(attrs, 1), Find(attrs, 2), l)
  }

  /** An address is shown as permanent, twice, and with its label if it is one of IPv4. */
  ghost predicate TellsAddress(m: seq<Byte>, flags: nat, r: Request, a: Address) {
    && Begins(m, 20, flags, r) && |m| >= 24
    && m[16] == a.family && m[17] == a.prefixlen && m[18] == 0x80 && m[19] == a.scope && Value(m[20..24]) == a.index
    && var attrs := Decode(m[24..]);
       && Find(attrs, 1) == Find(attrs, 2) == Some(a.addr)
       && Find(attrs, 3) == if a.family == 2 then Some(a.ifname + [0]) else None
  }

  // ----- single messages

  lemma NumberedBegins(m: seq<Byte>, ty: nat, flags: nat, r: Request)
    requires WellFormed(m) && NlType(m) == ty && Numbered(m, flags, r.seqno, r.pid)
    ensures Begins(m, ty, flags, r)
  {
    assert m[..4] == m[0..4];
  }

  lemma DoneTold(r: Request)
    ensures TellsDone(DoneMessage(r), r)
  {
    hide Header, WordBytes, Value, WellFormed;
    var m := DoneMessage(r);
    DoneIsDone(r);
    assert WellFormed(m) && NlType(m) == 3;
    NumberedBegins(m, 3, 2, r);
    assert m[16..20] == WordBytes(0, 4);
    WordValue32(0);
  }

  lemma ErrorTold(r: Request, errno: nat)
    requires errno < 0x1_0000_0000
    ensures TellsError(ErrorMessage(r, (0x1_0000_0000 - errno) % 0x1_0000_0000), r, errno)
  {
    hide Header, WordBytes, Value, WellFormed, NlType;
    var code: Word32 := (0x1_0000_0000 - errno) % 0x1_0000_0000;
    var m := ErrorMessage(r, code);
    ErrorIsMessage(r, code);
    assert Unterminated([m]) && WellFormed(m);
    HeaderFields(36, NLMSG_ERROR, 0, r.seqno, r.pid, WordBytes(code, 4) + Zeros(16));
    NumberedBegins(m, 2, 0, r);
    assert m[16..20] == WordBytes(code, 4) && m[20..] == Zeros(16);
    assert forall i :: 20 <= i < 36 ==> m[i] == m[20..][i - 20];
    WordValue32(code);
  }

  lemma {:induction false} FindAt(attrs: seq<Attribute>, i: nat)
    requires i < |attrs| && forall j :: 0 <= j < i ==> attrs[j].ty != attrs[i].ty
    ensures Find(attrs, attrs[i].ty) == Some(attrs[i].data)
  {
    if i > 0 {
      assert attrs[0].ty != attrs[i].ty;
      FindAt(attrs[1..], i - 1);
    }
  }

  lemma {:induction false} FindNot(attrs: seq<Attribute>, ty: nat)
    requires forall j :: 0 <= j < |attrs| ==> attrs[j].ty != ty
    ensures Find(attrs, ty) == None
  {
    if attrs != [] {
      FindNot(attrs[1..], ty);
    }
  }

  lemma FieldBytes(a: seq<Byte>, b: seq<Byte>, c: seq<Byte>, d: seq<Byte>, e: seq<Byte>)
    requires |a| == 2 && |b| == 2 && |c| == 4 && |d| == 4 && |e| == 4
    ensures var i := a + b + c + d + e; i[..2] == a && i[2..4] == b && i[4..8] == c && i[8..12] == d && i[12..16] == e
  {
  }

  lemma InfoBytes(ty: nat, index: nat, flags: nat)
    ensures Fields([(0, 2), (ty, 2), (index, 4), (flags, 4), (0, 4)])
         == WordBytes(0, 2) + WordBytes(ty, 2) + WordBytes(index, 4) + WordBytes(flags, 4) + WordBytes(0, 4)
  {
    hide WordBytes;
    FieldsOf(0, 2, [(ty, 2), (index, 4), (flags, 4), (0, 4)]);
    FieldsOf(ty, 2, [(index, 4), (flags, 4), (0, 4)]);
    FieldsOf(index, 4, [(flags, 4), (0, 4)]);
    FieldsOf(flags, 4, [(0, 4)]);
    FieldsOf(0, 4, []);
  }

  lemma InfoRead(l: Link)
    ensures var i := IfInfo(l);
            && Value(i[..2]) == 0 && Value(i[2..4]) == l.ty && Value(i[4..8]) == l.index
            && Value(i[8..12]) == LowerUp(l.flags) && Value(i[12..16]) == 0
  {
    InfoBytes(l.ty, l.index, LowerUp(l.flags));
    Shown(l.flags);
    hide WordBytes, Value, LowerUp, Fields;
    FieldBytes(WordBytes(0, 2), WordBytes(l.ty, 2), WordBytes(l.index, 4), WordBytes(LowerUp(l.flags), 4),
               WordBytes(0, 4));
    WordValue16(0);
    WordValue16(l.ty);
    WordValue32(l.index);
    WordValue32(LowerUp(l.flags));
    WordValue32(0);
  }

  lemma Shown(flags: Word32)
    ensures var shown := LowerUp(flags);
            && shown < 0x1_0000_0000 && (shown == flags || shown == flags + 0x1_0000)
            && (shown / 0x1_0000 % 2 == 1 <==> flags / 0x40 % 2 == 1 || flags / 0x1_0000 % 2 == 1)
  {
  }

  lemma AttributesRead(l: Link)
    ensures TellsAttributes(LinkAttributes(l), l)
  {
    hide WordBytes, Value, Find;
    var attrs := LinkAttributes(l);
    FindAt(attrs, 0);
    FindAt(attrs, 1);
    FindAt(attrs, 2);
    FindAt(attrs, 3);
    WordValue32(l.mtu);
    WordValue32(1000);
    if l.hwaddr == [] {
      FindNot(attrs, 1);
      FindNot(attrs, 2);
    } else {
      FindAt(attrs, 4);
      FindAt(attrs, 5);
    }
  }

  lemma LinkTold(m: seq<Byte>, flags: nat, r: Request, l: Link)
    requires Says(m, LinkSubject(l)) && Numbered(m, flags, r.seqno, r.pid)
    ensures TellsLink(m, flags, r, l)
  {
    hide Value, Decode, LinkAttributes, IfInfo, TellsAttributes, WellFormed, Begins, NlType, Numbered, LowerUp;
    NumberedBegins(m, 16, flags, r);
    InfoRead(l);
    AttributesRead(l);
    Shown(l.flags);
    var i := IfInfo(l);
    assert LinkSubject(l).info == i && m[16..32] == i;
    assert m[16..18] == i[..2] && m[18..20] == i[2..4] && m[20..24] == i[4..8] && m[24..28] == i[8..12];
    assert m[28..32] == i[12..16];
  }

  lemma AddressFields(a: Address)
    ensures var i := IfAddr(a);
            && i[0] == a.family && i[1] == a.prefixlen && i[2] == 0x80 && i[3] == a.scope && Value(i[4..8]) == a.index
  {
    FieldsOf(a.family, 1, [(a.prefixlen, 1), (IFA_F_PERMANENT, 1), (a.scope, 1), (a.index, 4)]);
    FieldsOf(a.prefixlen, 1, [(IFA_F_PERMANENT, 1), (a.scope, 1), (a.index, 4)]);
    FieldsOf(IFA_F_PERMANENT, 1, [(a.scope, 1), (a.index, 4)]);
    FieldsOf(a.scope, 1, [(a.index, 4)]);
    FieldsOf(a.index, 4, []);
    OneByte(a.family);
    OneByte(a.prefixlen);
    OneByte(IFA_F_PERMANENT);
    OneByte(a.scope);
    hide WordBytes, Value;
    assert IfAddr(a) == [a.family] + ([a.prefixlen] + ([0x80] + ([a.scope] + WordBytes(a.index, 4))));
    assert IfAddr(a)[4..8] == WordBytes(a.index, 4);
    WordValue32(a.index);
  }

  lemma OneByte(b: Byte)
    ensures WordBytes(b, 1) == [b]
  {
  }

  lemma AddressTold(m: seq<Byte>, flags: nat, r: Request, a: Address)
    requires Says(m, AddressSubject(a)) && Numbered(m, flags, r.seqno, r.pid)
    ensures TellsAddress(m, flags, r, a)
  {
    hide Value, Decode, IfAddr, WellFormed, Begins, NlType, Numbered, Find;
    NumberedBegins(m, 20, flags, r);
    AddressFields(a);
    var i, attrs := IfAddr(a), AddressAttributes(a);
    assert AddressSubject(a).info == i && m[16..24] == i;
    assert m[16] == i[0] && m[17] == i[1] && m[18] == i[2] && m[19] == i[3] && m[20..24] == i[4..8];
    FindAt(attrs, 0);
    FindAt(attrs, 1);
    if a.family == 2 {
      FindAt(attrs, 2);
    } else {
      FindNot(attrs, 3);
    }
  }

  // ----- messages in turn

  ghost predicate InTurn(ms: seq<seq<Byte>>, xs: seq<Subject>, flags: nat, r: Request) {
    && |ms| <= |xs|
    && forall i {:trigger ms[i]} :: 0 <= i < |ms| ==> Says(ms[i], xs[i]) && Numbered(ms[i], flags, r.seqno, r.pid)
  }

  /** The subjects are told in turn, until little room is left or, if only one is asked for, after the first. */
  lemma {:induction false} ToldInTurn(xs: seq<Subject>, flags: Word16, r: Request, all: bool, used: nat, max: nat)
    ensures var ms := Gather(xs, flags, r, all, used, max);
            && InTurn(ms, xs, flags, r) && |Concat(ms)| <= 176 * |ms|
            && (all && |ms| < |xs| ==> used + |Concat(ms)| + 256 > max)
            && (!all && xs != [] && used + 256 <= max ==> |ms| == 1)
  {
    hide Message, Says, Numbered, AreAttributes, SizeAll;
    if xs != [] && used + 256 <= max {
      var m := Message(xs[0], flags, r, max - used);
      MessageComplete(xs[0], flags, r, max - used);
      SaysSize(m, xs[0]);
      var rest := if all then Gather(xs[1..], flags, r, all, used + |m|, max) else [];
      if all {
        ToldInTurn(xs[1..], flags, r, all, used + |m|, max);
      }
      var ms := Gather(xs, flags, r, all, used, max);
      assert ms == [m] + rest && ms[1..] == rest;
      forall i | 0 <= i < |ms| ensures Says(ms[i], xs[i]) && Numbered(ms[i], flags, r.seqno, r.pid) {
        if i > 0 {
          assert ms[i] == rest[i - 1] && xs[i] == xs[1..][i - 1];
        }
      }
    }
  }

  lemma SaysSize(m: seq<Byte>, x: About)
    requires Says(m, x)
    ensures |m| <= 176
  {
  }

  /** All that is asked for is told as long as there is room, which there is for at least 46 messages. */
  ghost predicate AsMuchAsFits(told: seq<seq<Byte>>, n: nat) {
    |told| == n || (46 <= |told| < n && |Concat(told)| + 256 > 8192)
  }

  lemma CollectedInTurn(xs: seq<Subject>, dump: bool, all: bool, r: Request)
    ensures var ms := Collected(xs, dump, all, r);
            && InTurn(ms, xs, if dump then 2 else 0, r)
            && (all ==> AsMuchAsFits(ms, |xs|)) && (!all && xs != [] ==> |ms| == 1)
  {
    hide Gather, InTurn;
    ToldInTurn(xs, Flags(dump), r, all, 0, MAX_FAKE_NETLINK_REPLY);
    assert InTurn(Collected(xs, dump, all, r), xs, if dump then 2 else 0, r);
    InTurnLength(Collected(xs, dump, all, r), xs, if dump then 2 else 0, r);
  }

  lemma InTurnLength(ms: seq<seq<Byte>>, xs: seq<Subject>, flags: nat, r: Request)
    requires InTurn(ms, xs, flags, r)
    ensures |ms| <= |xs|
  {
  }

  // ----- links

  ghost predicate TellsLinks(ms: seq<seq<Byte>>, flags: nat, r: Request, links: seq<Link>) {
    |ms| <= |links| && forall i {:trigger ms[i]} :: 0 <= i < |ms| ==> TellsLink(ms[i], flags, r, links[i])
  }

  /** A dump shows the links of the host, another request the one that it selects; the loopback interface stands
      in if there is none, or there is no such device. */
  ghost predicate LinksAnswered(ms: seq<seq<Byte>>, dump: bool, links: seq<Link>, loopback: bool, r: Request) {
    var lo := Interface(1, 772, 0x49, 65536, [108, 111], [0, 0, 0, 0, 0, 0]);
    if dump then
      && ms != [] && TellsDone(ms[|ms| - 1], r)
      && var told := ms[..|ms| - 1];
         if links == [] then |told| == 1 && TellsLink(told[0], 2, r, lo)
         else TellsLinks(told, 2, r, links) && AsMuchAsFits(told, |links|)
    else
      && |ms| == 1
      && if links != [] then TellsLink(ms[0], 0, r, links[0])
         else if loopback then TellsLink(ms[0], 0, r, lo) else TellsError(ms[0], r, 19)
  }

  lemma {:induction false} SubjectsOfLinks(links: seq<Link>, i: nat)
    requires i < |links|
    ensures LinkSubjects(links)[i] == LinkSubject(links[i])
  {
    hide LinkSubject;
    if i > 0 {
      SubjectsOfLinks(links[1..], i - 1);
    }
  }

  lemma LinksTold(links: seq<Link>, dump: bool, all: bool, r: Request)
    ensures var ms := Collected(LinkSubjects(links), dump, all, r);
            && TellsLinks(ms, if dump then 2 else 0, r, links)
            && (all ==> AsMuchAsFits(ms, |links|)) && (!all && links != [] ==> |ms| == 1)
  {
    hide Collected, Says, Numbered, TellsLink, LinkSubject, LinkSubjects, AsMuchAsFits;
    var ms := Collected(LinkSubjects(links), dump, all, r);
    CollectedInTurn(LinkSubjects(links), dump, all, r);
    forall i | 0 <= i < |ms| ensures TellsLink(ms[i], if dump then 2 else 0, r, links[i]) {
      SubjectsOfLinks(links, i);
      LinkTold(ms[i], if dump then 2 else 0, r, links[i]);
    }
  }

  lemma OneLink(l: Link, dump: bool, r: Request)
    ensures var ms := Collected([LinkSubject(l)], dump, true, r);
            |ms| == 1 && TellsLink(ms[0], if dump then 2 else 0, r, l)
  {
    hide Gather, Says, Numbered, TellsLink, LinkSubject;
    var ms := Collected([LinkSubject(l)], dump, true, r);
    CollectedInTurn([LinkSubject(l)], dump, true, r);
    LinkTold(ms[0], if dump then 2 else 0, r, l);
  }

  lemma LinksAnswer(dump: bool, links: seq<Link>, loopback: bool, r: Request)
    ensures var ms := Links(dump, links, loopback, r);
            LinksAnswered(if dump then ms + [DoneMessage(r)] else ms, dump, links, loopback, r)
  {
    hide Collected, TellsLink, LinkSubject, LinkSubjects, DoneMessage, ErrorMessage, TellsDone, TellsError;
    LinksTold(links, dump, dump, r);
    OneLink(LOOPBACK, dump, r);
    DoneTold(r);
    ErrorTold(r, 19);
    var ms := Links(dump, links, loopback, r);
    assert (ms + [DoneMessage(r)])[..|ms|] == ms;
    NoLinks(links, dump, r);
  }

  lemma NoLinks(links: seq<Link>, dump: bool, r: Request)
    ensures Collected(LinkSubjects(links), dump, dump, r) == [] <==> links == []
  {
    hide Collected, LinkSubject;
    CollectedFits(LinkSubjects(links), dump, dump, r);
  }

  // ----- addresses

  predicate IsAsked(a: Address, family: nat) {
    (a.family == 2 || a.family == 10) && (family == 2 || family == 10 ==> a.family == family)
  }

  /** The messages tell these addresses, in the order of the host, and skip none that is asked for as long as there
      is room. */
  ghost predicate TellsAddresses(ms: seq<seq<Byte>>, flags: nat, r: Request, addrs: seq<Address>, family: nat,
                                 ks: seq<nat>)
  {
    && |ms| == |ks|
    && (forall j {:trigger ms[j]} :: 0 <= j < |ms| ==>
          ks[j] < |addrs| && IsAsked(addrs[ks[j]], family) && TellsAddress(ms[j], flags, r, addrs[ks[j]]))
    && (forall i, j :: 0 <= i < j < |ks| ==> ks[i] < ks[j])
    && (forall k {:trigger addrs[k]} :: 0 <= k < |addrs| && IsAsked(addrs[k], family) && k !in ks ==>
          |Concat(ms)| + 256 > 8192 && |ms| >= 46 && forall j :: 0 <= j < |ks| ==> ks[j] < k)
  }

  ghost predicate LoopbacksTold(ms: seq<seq<Byte>>, flags: nat, r: Request, family: nat) {
    var v4 := HostAddress(2, 1, [127, 0, 0, 1], 8, 254, [108, 111]);
    var v6 := HostAddress(10, 1, [0, 0, 0, 0, 0, 0, 0, 0, 0, 0, 0, 0, 0, 0, 0, 1], 128, 254, []);
    if family == 0 then |ms| == 2 && TellsAddress(ms[0], flags, r, v4) && TellsAddress(ms[1], flags, r, v6)
    else if family == 2 then |ms| == 1 && TellsAddress(ms[0], flags, r, v4)
    else if family == 10 then |ms| == 1 && TellsAddress(ms[0], flags, r, v6)
    else ms == []
  }

  /** The addresses that a request is answered with: those of the host, or of the loopback interface if the host has
      none of that family. */
  ghost predicate AddressesShown(ms: seq<seq<Byte>>, flags: nat, r: Request, addrs: seq<Address>, family: nat) {
    if exists a :: a in addrs && IsAsked(a, family)
    then ms != [] && exists ks :: TellsAddresses(ms, flags, r, addrs, family, ks)
    else LoopbacksTold(ms, flags, r, family)
  }

  ghost predicate AddressesAnswered(ms: seq<seq<Byte>>, dump: bool, addrs: seq<Address>, family: nat, r: Request) {
    if dump then
      ms != [] && TellsDone(ms[|ms| - 1], r) && AddressesShown(ms[..|ms| - 1], 2, r, addrs, family)
    else
      || (ms != [] && AddressesShown(ms, 0, r, addrs, family))
      || (AddressesShown([], 0, r, addrs, family) && |ms| == 1 && TellsError(ms[0], r, 22))
  }

  lemma WantedIsAsked(a: Address, family: nat)
    ensures Matches(a, Want(family)) <==> IsAsked(a, family)
  {
  }

  /** Where the addresses are that are asked for, from i on. */
  function Places(addrs: seq<Address>, family: nat, i: nat): seq<nat>
    requires i <= |addrs|
    decreases |addrs| - i
  {
    if i == |addrs| then [] else (if IsAsked(addrs[i], family) then [i] else []) + Places(addrs, family, i + 1)
  }

  lemma {:induction false} PlacesAsked(addrs: seq<Address>, family: nat, i: nat, j: nat)
    requires i <= |addrs| && j < |Places(addrs, family, i)|
    ensures var p := Places(addrs, family, i)[j]; i <= p < |addrs| && IsAsked(addrs[p], family)
    decreases |addrs| - i
  {
    hide IsAsked;
    var skip := if IsAsked(addrs[i], family) then 1 else 0;
    if j >= skip {
      assert Places(addrs, family, i)[j] == Places(addrs, family, i + 1)[j - skip];
      PlacesAsked(addrs, family, i + 1, j - skip);
    }
  }

  lemma {:induction false} PlacesInOrder(addrs: seq<Address>, family: nat, i: nat, j: nat, k: nat)
    requires i <= |addrs| && j < k < |Places(addrs, family, i)|
    ensures Places(addrs, family, i)[j] < Places(addrs, family, i)[k]
    decreases |addrs| - i
  {
    hide IsAsked;
    var skip := if IsAsked(addrs[i], family) then 1 else 0;
    var rest := Places(addrs, family, i + 1);
    assert Places(addrs, family, i)[k] == rest[k - skip];
    if j >= skip {
      assert Places(addrs, family, i)[j] == rest[j - skip];
      PlacesInOrder(addrs, family, i + 1, j - skip, k - skip);
    } else {
      PlacesAsked(addrs, family, i + 1, k - skip);
    }
  }

  lemma {:induction false} NoneMissed(addrs: seq<Address>, family: nat, i: nat, k: nat)
    requires i <= k < |addrs| && IsAsked(addrs[k], family)
    ensures k in Places(addrs, family, i)
    decreases k - i
  {
    hide IsAsked;
    if i < k {
      NoneMissed(addrs, family, i + 1, k);
    }
  }

  lemma {:induction false} SubjectsOfAddresses(addrs: seq<Address>, family: nat, i: nat)
    requires i <= |addrs|
    ensures var xs, ps := AddressSubjects(addrs[i..], Want(family)), Places(addrs, family, i);
            |xs| == |ps| && forall j :: 0 <= j < |xs| ==> ps[j] < |addrs| && xs[j] == AddressSubject(addrs[ps[j]])
    decreases |addrs| - i
  {
    hide AddressSubject, Matches, IsAsked, Want;
    if i < |addrs| {
      assert addrs[i..][1..] == addrs[i + 1..];
      WantedIsAsked(addrs[i], family);
      SubjectsOfAddresses(addrs, family, i + 1);
    }
  }

  lemma AddressesTold(addrs: seq<Address>, family: nat, dump: bool, r: Request)
    ensures var ms := Collected(AddressSubjects(addrs, Want(family)), dump, true, r);
            && |ms| <= |Places(addrs, family, 0)|
            && TellsAddresses(ms, if dump then 2 else 0, r, addrs, family, Places(addrs, family, 0)[..|ms|])
  {
    hide Collected, Says, Numbered, TellsAddress, AddressSubject, AddressSubjects, IsAsked, Want, Places;
    var xs := AddressSubjects(addrs, Want(family));
    var ms := Collected(xs, dump, true, r);
    var ps := Places(addrs, family, 0);
    CollectedInTurn(xs, dump, true, r);
    assert addrs[0..] == addrs;
    SubjectsOfAddresses(addrs, family, 0);
    FirstPlaces(addrs, family, |ms|);
    forall j | 0 <= j < |ms|
      ensures ps[j] < |addrs| && TellsAddress(ms[j], if dump then 2 else 0, r, addrs[ps[j]])
    {
      AddressTold(ms[j], if dump then 2 else 0, r, addrs[ps[j]]);
    }
  }

  /** The first n of the places; those left out come behind. */
  lemma FirstPlaces(addrs: seq<Address>, family: nat, n: nat)
    requires n <= |Places(addrs, family, 0)|
    ensures var ks := Places(addrs, family, 0)[..n];
            && (forall j {:trigger ks[j]} :: 0 <= j < n ==> ks[j] < |addrs| && IsAsked(addrs[ks[j]], family))
            && (forall i, j :: 0 <= i < j < n ==> ks[i] < ks[j])
            && (forall k {:trigger addrs[k]} :: 0 <= k < |addrs| && IsAsked(addrs[k], family) && k !in ks ==>
                  n < |Places(addrs, family, 0)| && forall j :: 0 <= j < n ==> ks[j] < k)
  {
    hide IsAsked, Places;
    var ps := Places(addrs, family, 0);
    var ks := ps[..n];
    forall j | 0 <= j < n ensures ks[j] < |addrs| && IsAsked(addrs[ks[j]], family) {
      PlacesAsked(addrs, family, 0, j);
    }
    forall i, j | 0 <= i < j < n ensures ks[i] < ks[j] {
      PlacesInOrder(addrs, family, 0, i, j);
    }
    forall k | 0 <= k < |addrs| && IsAsked(addrs[k], family) && k !in ks
      ensures n < |ps| && forall j :: 0 <= j < n ==> ks[j] < k
    {
      NoneMissed(addrs, family, 0, k);
      var p :| 0 <= p < |ps| && ps[p] == k;
      assert forall j :: 0 <= j < n ==> ks[j] == ps[j] && ps[j] in ks;
      forall j | 0 <= j < n ensures ks[j] < k {
        PlacesInOrder(addrs, family, 0, j, p);
      }
    }
  }

  lemma TwoAddresses(xs: seq<Subject>, dump: bool, r: Request)
    requires |xs| <= 2
    ensures var ms := Collected(xs, dump, true, r); |ms| == |xs| && InTurn(ms, xs, if dump then 2 else 0, r)
  {
    hide Collected, InTurn;
    CollectedInTurn(xs, dump, true, r);
  }

  lemma LoopbackAddresses(family: nat, dump: bool, r: Request)
    ensures LoopbacksTold(Collected(Loopbacks(family), dump, true, r), if dump then 2 else 0, r, family)
  {
    hide Collected, Says, Numbered, TellsAddress, AddressSubject;
    var flags := if dump then 2 else 0;
    var xs := Loopbacks(family);
    var ms := Collected(xs, dump, true, r);
    TwoAddresses(xs, dump, r);
    if family == 0 {
      AddressTold(ms[0], flags, r, LOOPBACK_V4);
      AddressTold(ms[1], flags, r, LOOPBACK_V6);
    } else if family == 2 {
      AddressTold(ms[0], flags, r, LOOPBACK_V4);
    } else if family == 10 {
      AddressTold(ms[0], flags, r, LOOPBACK_V6);
    }
  }

  lemma AddressesAreShown(dump: bool, addrs: seq<Address>, family: nat, r: Request)
    ensures AddressesShown(Addresses(dump, addrs, family, r), if dump then 2 else 0, r, addrs, family)
  {
    hide Collected, AddressSubjects, TellsAddresses, LoopbacksTold, IsAsked, Matches, Want, Loopbacks;
    AddressesTold(addrs, family, dump, r);
    LoopbackAddresses(family, dump, r);
    CollectedFits(AddressSubjects(addrs, Want(family)), dump, true, r);
    NoneMatch(addrs, Want(family));
    forall a | a in addrs ensures Matches(a, Want(family)) <==> IsAsked(a, family) {
      WantedIsAsked(a, family);
    }
  }

  lemma AddressesAnswer(dump: bool, addrs: seq<Address>, family: Byte, r: Request)
    ensures AddressesAnswered(Answer(GetAddr(dump, addrs, family), r), dump, addrs, family, r)
  {
    hide Addresses, AddressesShown, DoneMessage, ErrorMessage, TellsDone, TellsError, IsDone, Unterminated;
    var ms := Addresses(dump, addrs, family, r);
    AddressesAreShown(dump, addrs, family, r);
    AddressesFit(dump, addrs, family, r);
    if ms != [] {
      UnterminatedLast(ms);
    }
    DoneTold(r);
    ErrorTold(r, 22);
    assert (ms + [DoneMessage(r)])[..|ms|] == ms;
  }

  // ----- routes

  /** A message of the kernel is passed on with the numbers of the request and padded; all else stays. */
  ghost predicate Relays(m: seq<Byte>, k: seq<Byte>, r: Request) {
    && 16 <= |k| <= |m| < |k| + 4 && |m| % 4 == 0
    && m[..8] == k[..8] && Value(m[8..12]) == r.seqno && Value(m[12..16]) == r.pid
    && m[16..|k|] == k[16..] && forall i :: |k| <= i < |m| ==> m[i] == 0
  }

  /** The first n messages of the kernel are relayed: up to its terminator, or as long as there is room; a terminator
      follows if it is not among them. */
  ghost predicate RoutesAnswered(ms: seq<seq<Byte>>, kernel: seq<seq<Byte>>, r: Request, n: nat)
    requires AreKernelMessages(kernel)
  {
    && n <= |kernel| && n <= |ms|
    && (forall i {:trigger ms[i]} :: 0 <= i < n ==> Relays(ms[i], kernel[i], r))
    && (forall i {:trigger ms[i]} :: 0 <= i < n - 1 ==> Value(ms[i][4..6]) != 3)
    && if n > 0 && Value(ms[n - 1][4..6]) == 3 then |ms| == n
       else
         && |ms| == n + 1 && TellsDone(ms[n], r)
         && (n == |kernel| || |Concat(ms[..n])| + (|kernel[n]| + 3) / 4 * 4 + 64 > 8192)
  }

  lemma ReaddressedRelays(k: seq<Byte>, r: Request)
    requires IsKernelMessage(k)
    ensures Relays(Readdressed(k, r), k, r)
  {
    hide WordBytes, Value;
    var m := Readdressed(k, r);
    ReaddressedFields(k, r);
    assert m[8..12] == WordBytes(r.seqno, 4) && m[12..16] == WordBytes(r.pid, 4) && m[..8] == k[..8];
    assert forall i :: |k| <= i < |m| ==> m[i] == 0;
  }

  ghost predicate RelaysInTurn(ms: seq<seq<Byte>>, kernel: seq<seq<Byte>>, r: Request) {
    && |ms| <= |kernel|
    && (forall i {:trigger ms[i]} :: 0 <= i < |ms| ==> |ms[i]| >= 16 && Relays(ms[i], kernel[i], r))
    && (forall i {:trigger ms[i]} :: 0 <= i < |ms| - 1 ==> Value(ms[i][4..6]) != 3)
  }

  ghost predicate LastIsDone(ms: seq<seq<Byte>>) {
    ms != [] && |ms[|ms| - 1]| >= 16 && Value(ms[|ms| - 1][4..6]) == 3
  }

  lemma {:induction false} RelayedInTurn(kernel: seq<seq<Byte>>, r: Request, used: nat, max: nat)
    requires AreKernelMessages(kernel)
    ensures var ms := Relayed(kernel, r, used, max);
            && RelaysInTurn(ms, kernel, r)
            && (!LastIsDone(ms) && |ms| < |kernel| ==> used + |Concat(ms)| + Align4(|kernel[|ms|]|) + 64 > max)
    decreases |kernel|
  {
    hide Relays, Value, Readdressed, Align4, NlLen, RelaysInTurn, LastIsDone;
    NoneRelayed(kernel, r);
    NoneRelayed(if kernel == [] then [] else kernel[1..], r);
    if kernel != [] && used + Align4(|kernel[0]|) + 64 <= max {
      assert IsKernelMessage(kernel[0]);
      AreKernelMessagesTail(kernel);
      var m := Readdressed(kernel[0], r);
      ReaddressedRelays(kernel[0], r);
      SameType(m, kernel[0], r);
      var rest := if NlType(kernel[0]) == NLMSG_DONE then [] else Relayed(kernel[1..], r, used + |m|, max);
      if NlType(kernel[0]) != NLMSG_DONE {
        RelayedInTurn(kernel[1..], r, used + |m|, max);
      }
      RelayUnrolled(kernel, r, used, max, m, used + |m|);
      PrependRelayed(m, rest, kernel, r);
    }
  }

  lemma NoneRelayed(kernel: seq<seq<Byte>>, r: Request)
    ensures RelaysInTurn([], kernel, r) && !LastIsDone([])
  {
  }

  lemma SameType(m: seq<Byte>, k: seq<Byte>, r: Request)
    requires Relays(m, k, r)
    ensures |m| >= 16 && |k| >= 16 && m[4..6] == k[4..6]
  {
    assert m[4..6] == m[..8][4..6] && k[4..6] == k[..8][4..6];
  }

  lemma PrependRelayed(m: seq<Byte>, rest: seq<seq<Byte>>, kernel: seq<seq<Byte>>, r: Request)
    requires kernel != [] && Relays(m, kernel[0], r) && RelaysInTurn(rest, kernel[1..], r)
    requires |m| >= 16 && (Value(m[4..6]) == 3 ==> rest == [])
    ensures var ms := [m] + rest;
            && RelaysInTurn(ms, kernel, r) && |Concat(ms)| == |m| + |Concat(rest)|
            && (LastIsDone(ms) <==> if rest == [] then Value(m[4..6]) == 3 else LastIsDone(rest))
  {
    hide Relays, Value;
    var ms := [m] + rest;
    assert ms[1..] == rest;
    forall i | 0 <= i < |ms|
      ensures |ms[i]| >= 16 && Relays(ms[i], kernel[i], r) && (i < |ms| - 1 ==> Value(ms[i][4..6]) != 3)
    {
      if i > 0 {
        assert ms[i] == rest[i - 1] && kernel[i] == kernel[1..][i - 1];
      }
    }
  }

  lemma {:induction false} EndedIsLast(ms: seq<seq<Byte>>)
    requires !Ended(ms) ==> Unterminated(ms)
    ensures Ended(ms) <==> LastIsDone(ms)
  {
    if !Ended(ms) && ms != [] {
      assert NlType(ms[0]) != NLMSG_DONE;
      if |ms| > 1 {
        assert ms[1..][|ms| - 2] == ms[|ms| - 1];
        EndedIsLast(ms[1..]);
      }
    }
  }

  lemma RoutesAnswer(kernel: seq<seq<Byte>>, r: Request)
    requires AreKernelMessages(kernel)
    ensures var ms := Relayed(kernel, r, 0, MAX_FAKE_NETLINK_REPLY);
            RoutesAnswered(Answer(GetRoute(true, kernel), r), kernel, r, |ms|)
  {
    hide Relayed, Relays, TellsDone, Value, NlLen, NlType, IsDone, WellFormed, Unterminated, DoneMessage, Concat;
    var ms := Relayed(kernel, r, 0, MAX_FAKE_NETLINK_REPLY);
    RelayedInTurn(kernel, r, 0, MAX_FAKE_NETLINK_REPLY);
    RelayedEnds(kernel, r, 0, MAX_FAKE_NETLINK_REPLY);
    EndedIsLast(ms);
    DoneTold(r);
    assert ms[..|ms|] == ms && (ms + [DoneMessage(r)])[..|ms|] == ms;
  }

  // ----- every answer

  /** Whatever is asked, this is what the reader finds. */
  ghost predicate Answered(ms: seq<seq<Byte>>, q: Query, r: Request)
    requires IsQuery(q)
  {
    match q
    case Garbled => |ms| == 1 && TellsError(ms[0], Request(0, r.pid), 22)
    case GetLink(dump, links, loopback) => LinksAnswered(ms, dump, links, loopback, r)
    case GetAddr(dump, addrs, family) => AddressesAnswered(ms, dump, addrs, family, r)
    case GetRoute(dump, kernel) =>
      if dump then exists n :: RoutesAnswered(ms, kernel, r, n) else |ms| == 1 && TellsError(ms[0], r, 0)
    case Other(dump) => |ms| == 1 && if dump then TellsDone(ms[0], r) else TellsError(ms[0], r, 0)
  }

  /** Every answer, read byte by byte. */
  lemma AnswerRead(q: Query, r: Request)
    requires IsQuery(q)
    ensures Answered(Answer(q, r), q, r)
  {
    hide Links, Addresses, Relayed, TellsError, TellsDone, LinksAnswered, AddressesAnswered, RoutesAnswered, ErrorMessage,
         DoneMessage, IsDone, Unterminated;
    DoneTold(r);
    ErrorTold(r, 0);
    match q {
      case Garbled => ErrorTold(Unread(r), 22);
      case GetLink(dump, links, loopback) =>
        LinksAnswer(dump, links, loopback, r);
        LinksFit(dump, links, loopback, r);
        UnterminatedLast(Links(dump, links, loopback, r));
      case GetAddr(dump, addrs, family) => AddressesAnswer(dump, addrs, family, r);
      case GetRoute(dump, kernel) => RoutesAnswer(kernel, r);
      case Other(dump) =>
    }
  }

  /** The numbers by which a reader accepts a message. */
  ghost predicate Carries(m: seq<Byte>, seqno: nat, pid: nat) {
    |m| >= 16 && Value(m[8..12]) == seqno && Value(m[12..16]) == pid
  }

  /** Every message of every answer, those of the kernel included, carries the sequence number of the request and the
      pid of the tracee, by which readers match it; and every message that is not the kernel's says that others follow
      if and only if it belongs to a dump. */
  lemma AnswerMatches(q: Query, r: Request, i: nat)
    requires IsQuery(q) && i < |Answer(q, r)|
    ensures var m := Answer(q, r)[i];
            && Carries(m, if q.Garbled? then 0 else r.seqno, r.pid)
            && (!(q.GetRoute? && q.dump) ==> Value(m[6..8]) == if IsDump(q) then 2 else 0)
  {
    hide Answer, Value, Decode, TellsAttributes, Find;
    AnswerRead(q, r);
    var ms := Answer(q, r);
    match q {
      case Garbled =>
      case GetLink(dump, links, loopback) =>
        if dump && i < |ms| - 1 {
          assert ms[i] == ms[..|ms| - 1][i];
        }
      case GetAddr(dump, addrs, family) =>
        if dump {
          if i < |ms| - 1 {
            assert ms[i] == ms[..|ms| - 1][i];
            ShownBegins(ms[..|ms| - 1], 2, r, addrs, family, i);
          }
        } else if ms != [] && AddressesShown(ms, 0, r, addrs, family) {
          ShownBegins(ms, 0, r, addrs, family, i);
        }
      case GetRoute(dump, kernel) =>
        if dump {
          var n :| RoutesAnswered(ms, kernel, r, n);
          assert i < n ==> Relays(ms[i], kernel[i], r);
        }
      case Other(dump) =>
    }
  }

  lemma ShownBegins(ms: seq<seq<Byte>>, flags: nat, r: Request, addrs: seq<Address>, family: nat, i: nat)
    requires AddressesShown(ms, flags, r, addrs, family) && i < |ms|
    ensures Begins(ms[i], 20, flags, r)
  {
    hide Begins, IsAsked, Find, Decode, Value;
    if exists a :: a in addrs && IsAsked(a, family) {
      var ks :| TellsAddresses(ms, flags, r, addrs, family, ks);
      assert TellsAddress(ms[i], flags, r, addrs[ks[i]]);
    }
  }
}
