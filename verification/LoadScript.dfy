/** The buffer that carries the load script into the tracee: words of statements, then the path strings they
    point to, placed right below the stack pointer. */
module LoadScript {
  import opened LoadImage
  import opened Words

  type Bytes = seq<nat>

  // ----- words and bytes

  function ScriptBytes(ws: seq<nat>): (r: Bytes)
    ensures |r| == WORD * |ws|
  {
    if ws == [] then [] else ScriptBytes(ws[..|ws| - 1]) + WordBytes(ws[|ws| - 1], WORD)
  }

  lemma MulAssoc(a: nat, b: nat, c: nat)
    ensures a * (b * c) == (a * b) * c
  {
  }

  lemma {:induction false} ValueSplit(b: Bytes, k: nat)
    requires k <= |b|
    ensures Value(b) == Value(b[..k]) + Power256(k) * Value(b[k..])
  {
    if k > 0 {
      ValueSplit(b[1..], k - 1);
      assert b[..k][1..] == b[1..][..k - 1] && b[k..] == b[1..][k - 1..];
      MulAssoc(256, Power256(k - 1), Value(b[k..]));
    } else {
      assert b[..0] == [] && b[0..] == b;
    }
  }

  /** The first half of a word's bytes is its low half. */
  lemma LowHalf(b: Bytes)
    requires |b| == 8 && AreBytes(b)
    ensures Value(b[..4]) == Value(b) % 0x1_0000_0000
  {
    ValueSplit(b, 4);
    ValueBound(b[..4]);
    assert Power256(4) == 0x1_0000_0000;
    DivUnique(Value(b), 0x1_0000_0000, Value(b[4..]), Value(b[..4]));
  }

  /** Byte `k` of 32-bit word `i` of the result is that byte of 64-bit word `i`. */
  ghost predicate NarrowedAt(before: Bytes, after: Bytes, i: nat) {
    && 8 * i + 8 <= |before| == |after|
    && after[4 * i] == before[8 * i] && after[4 * i + 1] == before[8 * i + 1]
    && after[4 * i + 2] == before[8 * i + 2] && after[4 * i + 3] == before[8 * i + 3]
  }

  /** The conversion for a 32-bit tracee, in place: word `i` is written where the words before it have been
      read already. */
  method Narrow(buffer: array<nat>, size: nat)
    requires size <= buffer.Length && size % WORD == 0
    modifies buffer
    ensures forall i: nat :: i < size / WORD ==> NarrowedAt(old(buffer[..]), buffer[..], i)
    ensures forall j :: size / 2 <= j < buffer.Length ==> buffer[j] == old(buffer[j])
  {
    var i := 0;
    while i * WORD < size
      invariant i <= size / WORD
      invariant forall j: nat :: j < i ==> NarrowedAt(old(buffer[..]), buffer[..], j)
      invariant forall j :: 4 * i <= j < buffer.Length ==> buffer[j] == old(buffer[j])
    {
      var b0, b1, b2, b3 := buffer[WORD * i], buffer[WORD * i + 1], buffer[WORD * i + 2], buffer[WORD * i + 3];
      ghost var before := buffer[..];
      buffer[4 * i], buffer[4 * i + 1], buffer[4 * i + 2], buffer[4 * i + 3] := b0, b1, b2, b3;
      forall j: nat | j <= i ensures NarrowedAt(old(buffer[..]), buffer[..], j) {
        assert j < i ==> NarrowedAt(old(buffer[..]), before, j);
      }
      i := i + 1;
    }
  }

  /** After the conversion 32-bit word `i` is the low half of the former 64-bit word `i`. */
  lemma NarrowedWord(before: Bytes, after: Bytes, i: nat)
    requires AreBytes(before) && NarrowedAt(before, after, i)
    ensures Value(after[4 * i..4 * i + 4]) == Value(before[8 * i..8 * i + 8]) % 0x1_0000_0000
  {
    var b := before[8 * i..8 * i + 8];
    LowHalf(b);
    assert after[4 * i..4 * i + 4] == b[..4];
  }

  // ----- the statements

  datatype Interpreter =
    | NoInterpreter
    | Interpreter(mappings: seq<Mapping>, entry: nat, userPath: Bytes, executableStack: bool)

  /** What has been read from the ELF headers of a program. */
  datatype Program = Program(mappings: seq<Mapping>, entry: nat, phoff: nat, phentsize: nat, phnum: nat,
                             userPath: Bytes, rawPath: Bytes, rawIsUser: bool, executableStack: bool,
                             interpreter: Interpreter)

  /** Where the three strings go. */
  datatype Layout = Layout(string1: nat, string2: nat, string3: nat, padding: nat)

  function Size1(p: Program): nat {
    |p.userPath| + 1
  }

  function Size2(p: Program): nat {
    if p.interpreter.NoInterpreter? then 0 else |p.interpreter.userPath| + 1
  }

  function Size3(p: Program): nat {
    if p.rawIsUser then 0 else |p.rawPath| + 1
  }

  function NeedsExecutableStack(p: Program): bool {
    p.executableStack || (p.interpreter.Interpreter? && p.interpreter.executableStack)
  }

  /** The statements that load the files. */
  function Loads(p: Program, l: Layout): seq<Statement> {
    [Open(false, l.string1)] + Mmaps(p.mappings)
    + if p.interpreter.Interpreter? then [Open(true, l.string2)] + Mmaps(p.interpreter.mappings) else []
  }

  /** The load script of a program. */
  function Script(p: Program, sp: nat, stackPage: nat, traced: bool, l: Layout): seq<Statement>
    requires p.mappings != []
  {
    Loads(p, l) + (if NeedsExecutableStack(p) then [MakeStackExec(stackPage)] else []) + [StartOf(p, sp, traced, l)]
  }

  /** The program starts in its ELF interpreter, if it has one. */
  function StartOf(p: Program, sp: nat, traced: bool, l: Layout): Statement
    requires p.mappings != []
  {
    Start(traced, sp, if p.interpreter.Interpreter? then p.interpreter.entry else p.entry,
          Plus(p.phoff, p.mappings[0].addr), p.phentsize, p.phnum, p.entry, l.string3)
  }

  /** The size of the statements that load the files. */
  function LoadsSize(p: Program): nat {
    2 * WORD + 6 * WORD * |p.mappings|
    + if p.interpreter.Interpreter? then 2 * WORD + 6 * WORD * |p.interpreter.mappings| else 0
  }

  /** The size that is computed before the script is written. */
  function ScriptSize(p: Program): nat {
    LoadsSize(p) + (if NeedsExecutableStack(p) then 2 * WORD else 0) + 8 * WORD
  }

  function TotalSize(ss: seq<Statement>): nat {
    if ss == [] then 0 else TotalSize(ss[..|ss| - 1]) + SizeOf(ss[|ss| - 1])
  }

  lemma {:induction false} EncodedSize(ss: seq<Statement>)
    ensures |EncodeAll(ss)| == TotalSize(ss)
  {
    if ss != [] {
      EncodedSize(ss[..|ss| - 1]);
    }
  }

  lemma {:induction false} TotalConcat(a: seq<Statement>, b: seq<Statement>)
    ensures TotalSize(a + b) == TotalSize(a) + TotalSize(b)
  {
    if b == [] {
      assert a + b == a;
    } else {
      TotalConcat(a, b[..|b| - 1]);
      assert (a + b)[..|a + b| - 1] == a + b[..|b| - 1];
    }
  }

  lemma {:induction false} MmapsSize(ms: seq<Mapping>)
    ensures TotalSize(Mmaps(ms)) == 6 * |ms|
  {
    if ms != [] {
      MmapsSize(ms[..|ms| - 1]);
      assert Mmaps(ms)[..|ms| - 1] == Mmaps(ms[..|ms| - 1]);
    }
  }

  lemma OneSize(s: Statement)
    ensures TotalSize([s]) == SizeOf(s)
  {
    assert [s][..0] == [];
  }

  /** The statements fill the script exactly. */
  lemma ScriptFills(p: Program, sp: nat, stackPage: nat, traced: bool, l: Layout)
    requires p.mappings != []
    ensures WORD * |EncodeAll(Script(p, sp, stackPage, traced, l))| == ScriptSize(p)
  {
    EncodedSize(Script(p, sp, stackPage, traced, l));
    ScriptTotal(p, sp, stackPage, traced, l);
  }

  lemma ScriptTotal(p: Program, sp: nat, stackPage: nat, traced: bool, l: Layout)
    requires p.mappings != []
    ensures WORD * TotalSize(Script(p, sp, stackPage, traced, l)) == ScriptSize(p)
  {
    var a, b := [Open(false, l.string1)], Mmaps(p.mappings);
    var c := if p.interpreter.Interpreter? then [Open(true, l.string2)] + Mmaps(p.interpreter.mappings) else [];
    var d := if NeedsExecutableStack(p) then [MakeStackExec(stackPage)] else [];
    var e := StartOf(p, sp, traced, l);
    FiveTotal(a, b, c, d, [e]);
    OneSize(a[0]);
    OneSize(e);
    MmapsSize(p.mappings);
    if p.interpreter.Interpreter? {
      TotalConcat([Open(true, l.string2)], Mmaps(p.interpreter.mappings));
      OneSize(Open(true, l.string2));
      MmapsSize(p.interpreter.mappings);
    }
    if NeedsExecutableStack(p) {
      OneSize(d[0]);
    }
  }

  lemma FiveTotal(a: seq<Statement>, b: seq<Statement>, c: seq<Statement>, d: seq<Statement>, e: seq<Statement>)
    ensures TotalSize(a + b + c + d + e) == TotalSize(a) + TotalSize(b) + TotalSize(c) + TotalSize(d) + TotalSize(e)
  {
    TotalConcat(a + b + c + d, e);
    TotalConcat(a + b + c, d);
    TotalConcat(a + b, c);
    TotalConcat(a, b);
  }

  /** Every statement has an even number of words. */
  lemma ScriptAligned(p: Program) returns (k: nat)
    ensures ScriptSize(p) == 16 * k
  {
    k := 5 + 3 * |p.mappings|
         + (if p.interpreter.Interpreter? then 1 + 3 * |p.interpreter.mappings| else 0)
         + (if NeedsExecutableStack(p) then 1 else 0);
  }

  // ----- the layout

  predicate IsAlignment(a: nat) {
    a == 4 || a == 8 || a == 16
  }

  function StringsSize(p: Program): nat {
    Size1(p) + Size2(p) + Size3(p)
  }

  /** The strings end at the padding, which ends at the stack pointer. */
  ghost predicate IsLayout(p: Program, sp: nat, alignment: nat, l: Layout) {
    && l.padding < alignment && l.string1 + StringsSize(p) + l.padding == sp
    && l.string2 == l.string1 + Size1(p)
    && l.string3 == if p.rawIsUser then l.string1 else l.string2 + Size2(p)
  }

  /** At `offset` the buffer holds the string, end included. */
  ghost predicate StringAt(buffer: Bytes, offset: int, s: Bytes) {
    0 <= offset && offset + |s| + 1 <= |buffer| && buffer[offset..offset + |s| + 1] == s + [0]
  }

  /** `b'` is `b` with `x` written at `cursor`, as far as the bytes up to the end of `x` go. */
  ghost predicate Put(b: Bytes, b': Bytes, cursor: nat, x: Bytes) {
    && cursor + |x| <= |b| == |b'|
    && b'[..cursor] == b[..cursor] && b'[cursor..cursor + |x|] == x
  }

  method PutBytes(buffer: array<nat>, cursor: nat, b: Bytes) returns (next: nat)
    requires cursor + |b| <= buffer.Length
    modifies buffer
    ensures next == cursor + |b| && Put(old(buffer[..]), buffer[..], cursor, b)
  {
    var i := 0;
    while i < |b|
      invariant i <= |b| && forall j :: 0 <= j < i ==> buffer[cursor + j] == b[j]
      invariant forall j :: 0 <= j < cursor ==> buffer[j] == old(buffer[j])
    {
      buffer[cursor + i] := b[i];
      i := i + 1;
    }
    next := cursor + |b|;
    assert Put(old(buffer[..]), buffer[..], cursor, b);
  }

  lemma {:induction false} ScriptBytesConcat(a: seq<nat>, b: seq<nat>)
    ensures ScriptBytes(a + b) == ScriptBytes(a) + ScriptBytes(b)
  {
    if b == [] {
      assert a + b == a;
    } else {
      ScriptBytesConcat(a, b[..|b| - 1]);
      assert (a + b)[..|a + b| - 1] == a + b[..|b| - 1];
    }
  }

  /** The first `cursor` bytes are those of the statements. */
  ghost predicate Holds(buffer: Bytes, cursor: nat, ss: seq<Statement>) {
    cursor <= |buffer| && buffer[..cursor] == Written(ss)
  }

  /** The bytes of some statements. */
  function Written(ss: seq<Statement>): (r: Bytes)
    ensures |r| == WORD * |EncodeAll(ss)|
  {
    ScriptBytes(EncodeAll(ss))
  }

  lemma WrittenSnoc(ss: seq<Statement>, s: Statement)
    ensures Written(ss + [s]) == Written(ss) + ScriptBytes(Encode(s))
  {
    assert (ss + [s])[..|ss|] == ss;
    ScriptBytesConcat(EncodeAll(ss), Encode(s));
  }

  method PutStatement(buffer: array<nat>, cursor: nat, s: Statement, ghost before: seq<Statement>) returns (next: nat)
    requires cursor + WORD * SizeOf(s) <= buffer.Length && Holds(buffer[..], cursor, before)
    modifies buffer
    ensures next == cursor + WORD * SizeOf(s) && Holds(buffer[..], next, before + [s])
  {
    WrittenSnoc(before, s);
    next := PutHeld(buffer, cursor, ScriptBytes(Encode(s)), before, before + [s]);
  }

  method PutHeld(buffer: array<nat>, cursor: nat, x: Bytes, ghost before: seq<Statement>, ghost after: seq<Statement>)
    returns (next: nat)
    requires cursor + |x| <= buffer.Length && Holds(buffer[..], cursor, before) && Written(after) == Written(before) + x
    modifies buffer
    ensures next == cursor + |x| && Holds(buffer[..], next, after)
  {
    ghost var b := buffer[..];
    next := PutBytes(buffer, cursor, x);
    HoldsMore(b, buffer[..], cursor, before, after, x);
  }

  lemma HoldsMore(b: Bytes, b': Bytes, cursor: nat, ss: seq<Statement>, ss': seq<Statement>, x: Bytes)
    requires Holds(b, cursor, ss) && Put(b, b', cursor, x) && Written(ss') == Written(ss) + x
    ensures Holds(b', cursor + |x|, ss')
  {
    assert b'[..cursor + |x|] == b'[..cursor] + b'[cursor..cursor + |x|];
  }

  /** `transcript_mappings`, into the buffer. */
  method PutMappings(buffer: array<nat>, cursor: nat, ms: seq<Mapping>, ghost before: seq<Statement>) returns (next: nat)
    requires cursor + 6 * WORD * |ms| <= buffer.Length && Holds(buffer[..], cursor, before)
    modifies buffer
    ensures next == cursor + 6 * WORD * |ms| && Holds(buffer[..], next, before + Mmaps(ms))
  {
    hide Holds;
    next := cursor;
    var i := 0;
    assert before + Mmaps(ms)[..0] == before;
    while i < |ms|
      invariant i <= |ms| && next == cursor + 6 * WORD * i
      invariant Holds(buffer[..], next, before + Mmaps(ms)[..i])
    {
      ghost var sofar := before + Mmaps(ms)[..i];
      next := PutStatement(buffer, next, Mmap(ms[i]), sofar);
      assert sofar + [Mmap(ms[i])] == before + Mmaps(ms)[..i + 1];
      i := i + 1;
    }
    assert Mmaps(ms)[..i] == Mmaps(ms);
  }

  method PutLoads(buffer: array<nat>, p: Program, l: Layout) returns (cursor: nat)
    requires LoadsSize(p) <= buffer.Length
    modifies buffer
    ensures cursor == LoadsSize(p) && Holds(buffer[..], cursor, Loads(p, l))
  {
    assert Holds(buffer[..], 0, []);
    hide Holds, Mmaps;
    cursor := PutStatement(buffer, 0, Open(false, l.string1), []);
    assert [] + [Open(false, l.string1)] == [Open(false, l.string1)];
    ghost var own := [Open(false, l.string1)] + Mmaps(p.mappings);
    cursor := PutMappings(buffer, cursor, p.mappings, [Open(false, l.string1)]);
    if p.interpreter.Interpreter? {
      cursor := PutStatement(buffer, cursor, Open(true, l.string2), own);
      cursor := PutMappings(buffer, cursor, p.interpreter.mappings, own + [Open(true, l.string2)]);
      assert own + [Open(true, l.string2)] + Mmaps(p.interpreter.mappings) == Loads(p, l);
    } else {
      assert own == Loads(p, l);
    }
  }

  /** The script part of the buffer. */
  method PutScript(buffer: array<nat>, p: Program, sp: nat, stackPage: nat, traced: bool, l: Layout) returns (cursor: nat)
    requires p.mappings != [] && ScriptSize(p) <= buffer.Length
    modifies buffer
    ensures cursor == ScriptSize(p) && Holds(buffer[..], cursor, Script(p, sp, stackPage, traced, l))
  {
    hide Holds, Loads;
    cursor := PutLoads(buffer, p, l);
    ghost var ss := Loads(p, l);
    if NeedsExecutableStack(p) {
      cursor := PutStatement(buffer, cursor, MakeStackExec(stackPage), ss);
      ss := ss + [MakeStackExec(stackPage)];
    } else {
      assert ss + [] == ss;
    }
    cursor := PutStatement(buffer, cursor, StartOf(p, sp, traced, l), ss);
  }

  /** The strings behind the script, ends included. */
  method PutStrings(buffer: array<nat>, cursor: nat, p: Program) returns (next: nat)
    requires cursor + StringsSize(p) <= buffer.Length
    modifies buffer
    ensures next == cursor + StringsSize(p) && StringsAt(old(buffer[..]), buffer[..], cursor, p)
  {
    hide Put, StringsAt;
    ghost var b0 := buffer[..];
    next := PutBytes(buffer, cursor, p.userPath + [0]);
    ghost var b1 := buffer[..];
    if p.interpreter.Interpreter? {
      next := PutBytes(buffer, next, p.interpreter.userPath + [0]);
    }
    ghost var b2 := buffer[..];
    if !p.rawIsUser {
      next := PutBytes(buffer, next, p.rawPath + [0]);
    }
    StringsDone(b0, b1, b2, buffer[..], cursor, p);
  }

  /** The bytes below `cursor` are as before, and the strings follow. */
  ghost predicate StringsAt(b: Bytes, b': Bytes, cursor: nat, p: Program) {
    && cursor <= |b| == |b'| && b'[..cursor] == b[..cursor]
    && StringAt(b', cursor, p.userPath)
    && (p.interpreter.Interpreter? ==> StringAt(b', cursor + Size1(p), p.interpreter.userPath))
    && (!p.rawIsUser ==> StringAt(b', cursor + Size1(p) + Size2(p), p.rawPath))
  }

  lemma StringsDone(b0: Bytes, b1: Bytes, b2: Bytes, b3: Bytes, cursor: nat, p: Program)
    requires Put(b0, b1, cursor, p.userPath + [0])
    requires if p.interpreter.Interpreter? then Put(b1, b2, cursor + Size1(p), p.interpreter.userPath + [0]) else b2 == b1
    requires if p.rawIsUser then b3 == b2 else Put(b2, b3, cursor + Size1(p) + Size2(p), p.rawPath + [0])
    ensures StringsAt(b0, b3, cursor, p)
  {
    PutString(b0, b1, cursor, p.userPath);
    if p.interpreter.Interpreter? {
      PutString(b1, b2, cursor + Size1(p), p.interpreter.userPath);
      PutBelow(b1, b2, cursor + Size1(p), p.interpreter.userPath + [0], cursor, p.userPath);
    }
    if !p.rawIsUser {
      var third := cursor + Size1(p) + Size2(p);
      PutString(b2, b3, third, p.rawPath);
      PutBelow(b2, b3, third, p.rawPath + [0], cursor, p.userPath);
      if p.interpreter.Interpreter? {
        PutBelow(b2, b3, third, p.rawPath + [0], cursor + Size1(p), p.interpreter.userPath);
      }
    }
  }

  lemma PutString(b: Bytes, b': Bytes, cursor: nat, s: Bytes)
    requires Put(b, b', cursor, s + [0])
    ensures StringAt(b', cursor, s) && Put(b, b', cursor, s + [0])
  {
  }

  /** What lies below stays. */
  lemma PutBelow(b: Bytes, b': Bytes, end: nat, x: Bytes, offset: nat, s: Bytes)
    requires Put(b, b', end, x) && offset + |s| + 1 <= end && StringAt(b, offset, s)
    ensures StringAt(b', offset, s) && end <= |b| == |b'|
    ensures forall k :: 0 <= k <= end ==> b'[..k] == b[..k]
  {
    Below(b, b', end, offset, s);
    forall k | 0 <= k <= end ensures b'[..k] == b[..k] {
      assert b'[..end][..k] == b'[..k] && b[..end][..k] == b[..k];
    }
  }

  /** A string stays when only bytes behind it change. */
  lemma Below(b: Bytes, b': Bytes, end: nat, offset: nat, s: Bytes)
    requires end <= |b| == |b'| && b[..end] == b'[..end]
    requires offset + |s| + 1 <= end && StringAt(b, offset, s)
    ensures StringAt(b', offset, s)
  {
    assert b[offset..offset + |s| + 1] == b[..end][offset..offset + |s| + 1];
    assert b'[offset..offset + |s| + 1] == b'[..end][offset..offset + |s| + 1];
  }

  /** The sizes and addresses that are computed first. */
  method ComputeLayout(p: Program, sp: nat, alignment: nat) returns (l: Layout)
    requires IsAlignment(alignment) && ScriptSize(p) + StringsSize(p) + alignment <= sp
    ensures IsLayout(p, sp, alignment, l)
    ensures l.string1 >= ScriptSize(p) && (l.string1 - ScriptSize(p)) % alignment == 0
  {
    var string1Size, string2Size, string3Size := Size1(p), Size2(p), Size3(p);
    var paddingSize := (sp - string1Size - string2Size - string3Size) % alignment;
    var stringsSize := string1Size + string2Size + string3Size + paddingSize;
    l := Layout(sp - stringsSize, sp - stringsSize + string1Size,
                if string3Size == 0 then sp - stringsSize else sp - stringsSize + string1Size + string2Size, paddingSize);
    var k := ScriptAligned(p);
    RoundDown(sp - StringsSize(p), k, alignment);
  }

  /** `transfer_load_script`: the buffer ends at the stack pointer of the tracee and starts at the new one.
      The statements fill the part that was computed for them, every string is where the script says, and the
      new stack pointer is aligned.  For a 32-bit tracee the words are narrowed in place. */
  method TransferLoadScript(page: nat, p: Program, sp: nat, traced: bool, alignment: nat, narrow: bool)
    returns (buffer: array<nat>, newSp: nat, l: Layout)
    requires IsPage(page) && p.mappings != [] && IsAlignment(alignment)
    requires ScriptSize(p) + StringsSize(p) + alignment <= sp
    ensures IsLayout(p, sp, alignment, l) && newSp % alignment == 0
    ensures buffer.Length == ScriptSize(p) + StringsSize(p) + l.padding && newSp + buffer.Length == sp
    ensures Transferred(buffer[..], newSp, p, Script(p, sp, Floor(page, sp), traced, l), l, narrow)
  {
    l := ComputeLayout(p, sp, alignment);
    buffer := new nat[ScriptSize(p) + StringsSize(p) + l.padding];
    newSp := sp - buffer.Length;
    var stackPage := Floor(page, sp);
    FillBuffer(buffer, newSp, p, sp, stackPage, traced, l, narrow);
  }

  /** The script, then the strings, then padding. */
  method FillBuffer(buffer: array<nat>, ghost newSp: nat, p: Program, sp: nat, stackPage: nat, traced: bool, l: Layout,
                    narrow: bool)
    requires p.mappings != [] && buffer.Length == ScriptSize(p) + StringsSize(p) + l.padding
    requires l.string1 == newSp + ScriptSize(p) && l.string2 == l.string1 + Size1(p)
    requires l.string3 == if p.rawIsUser then l.string1 else l.string2 + Size2(p)
    modifies buffer
    ensures Transferred(buffer[..], newSp, p, Script(p, sp, stackPage, traced, l), l, narrow)
  {
    var cursor := PutWords(buffer, p, sp, stackPage, traced, l, narrow);
    ghost var script := buffer[..];
    cursor := PutStrings(buffer, cursor, p);
    cursor := cursor + l.padding;
    assert cursor == buffer.Length;
    TransferDone(script, buffer[..], newSp, p, Script(p, sp, stackPage, traced, l), l, narrow);
  }

  /** Read at its place in the tracee, the buffer holds the script, and each string where the script says. */
  ghost predicate Transferred(b: Bytes, newSp: nat, p: Program, ss: seq<Statement>, l: Layout, narrow: bool) {
    && ScriptSize(p) <= |b| && ScriptPart(b[..ScriptSize(p)], ss, narrow)
    && StringAt(b, l.string1 - newSp, p.userPath)
    && (p.interpreter.Interpreter? ==> StringAt(b, l.string2 - newSp, p.interpreter.userPath))
    && StringAt(b, l.string3 - newSp, if p.rawIsUser then p.userPath else p.rawPath)
  }

  lemma TransferDone(b: Bytes, b': Bytes, newSp: nat, p: Program, ss: seq<Statement>, l: Layout, narrow: bool)
    requires ScriptSize(p) <= |b| && ScriptPart(b[..ScriptSize(p)], ss, narrow) && StringsAt(b, b', ScriptSize(p), p)
    requires l.string1 == newSp + ScriptSize(p) && l.string2 == l.string1 + Size1(p)
    requires l.string3 == if p.rawIsUser then l.string1 else l.string2 + Size2(p)
    ensures Transferred(b', newSp, p, ss, l, narrow)
  {
    var size := ScriptSize(p);
    assert b'[..size] == b[..size];
    StringsPlaced(b', size, newSp, p, l);
  }

  lemma StringsPlaced(b: Bytes, size: nat, newSp: nat, p: Program, l: Layout)
    requires StringsAt(b, b, size, p)
    requires l.string1 == newSp + size && l.string2 == l.string1 + Size1(p)
    requires l.string3 == if p.rawIsUser then l.string1 else l.string2 + Size2(p)
    ensures StringAt(b, l.string1 - newSp, p.userPath)
    ensures p.interpreter.Interpreter? ==> StringAt(b, l.string2 - newSp, p.interpreter.userPath)
    ensures StringAt(b, l.string3 - newSp, if p.rawIsUser then p.userPath else p.rawPath)
  {
    assert l.string1 - newSp == size && l.string2 - newSp == size + Size1(p);
  }

  /** The bytes of the script as the tracee gets them. */
  ghost predicate ScriptPart(b: Bytes, ss: seq<Statement>, narrow: bool) {
    if narrow then forall i: nat :: i < |EncodeAll(ss)| ==> NarrowedAt(Written(ss), b, i)
    else b == Written(ss)
  }

  method PutWords(buffer: array<nat>, p: Program, sp: nat, stackPage: nat, traced: bool, l: Layout, narrow: bool)
    returns (cursor: nat)
    requires p.mappings != [] && ScriptSize(p) <= buffer.Length
    modifies buffer
    ensures cursor == ScriptSize(p)
    ensures ScriptPart(buffer[..][..cursor], Script(p, sp, stackPage, traced, l), narrow)
  {
    ghost var ss := Script(p, sp, stackPage, traced, l);
    cursor := PutScript(buffer, p, sp, stackPage, traced, l);
    assert buffer[..][..cursor] == buffer[..cursor];
    ScriptFills(p, sp, stackPage, traced, l);
    if narrow {
      NarrowScript(buffer, cursor);
    }
    assert buffer[..][..cursor] == buffer[..cursor];
  }

  method NarrowScript(buffer: array<nat>, size: nat)
    requires size <= buffer.Length && size % WORD == 0
    modifies buffer
    ensures forall i: nat :: i < size / WORD ==> NarrowedAt(old(buffer[..size]), buffer[..size], i)
  {
    Narrow(buffer, size);
    forall i: nat | i < size / WORD ensures NarrowedAt(old(buffer[..size]), buffer[..size], i) {
      assert NarrowedAt(old(buffer[..]), buffer[..], i);
    }
  }

  lemma RoundDown(x: nat, k: nat, alignment: nat)
    requires IsAlignment(alignment) && x - x % alignment >= 16 * k
    ensures (x - x % alignment - 16 * k) % alignment == 0
  {
    if alignment == 4 {
      RoundDown4(x, k);
    } else if alignment == 8 {
      RoundDown8(x, k);
    } else {
      RoundDown16(x, k);
    }
  }

  lemma RoundDown4(x: nat, k: nat)
    requires x - x % 4 >= 16 * k
    ensures (x - x % 4 - 16 * k) % 4 == 0
  {
    DivUnique(x - x % 4 - 16 * k, 4, x / 4 - 4 * k, 0);
  }

  lemma RoundDown8(x: nat, k: nat)
    requires x - x % 8 >= 16 * k
    ensures (x - x % 8 - 16 * k) % 8 == 0
  {
    DivUnique(x - x % 8 - 16 * k, 8, x / 8 - 2 * k, 0);
  }

  lemma RoundDown16(x: nat, k: nat)
    requires x - x % 16 >= 16 * k
    ensures (x - x % 16 - 16 * k) % 16 == 0
  {
    DivUnique(x - x % 16 - 16 * k, 16, x / 16 - k, 0);
  }
}
