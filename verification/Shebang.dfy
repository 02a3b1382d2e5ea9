/** The first line of a script: how it is read, and what the reader makes of lines of any length. */
module Shebang {
  import opened Words

  const BINPRM_BUF_SIZE: nat := 256
  const ENOEXEC: int := 8
  const ELOOP: int := 40

  const HASH: Byte := 35
  const BANG: Byte := 33
  const SPACE: Byte := 32
  const TAB: Byte := 9
  const LF: Byte := 10
  const CR: Byte := 13

  predicate Blank(c: Byte) {
    c == SPACE || c == TAB
  }

  predicate EndOfLine(c: Byte) {
    c == LF || c == CR
  }

  /** A C string ends at its first null. */
  function CString(s: seq<Byte>): seq<Byte> {
    if s == [] || s[0] == 0 then [] else [s[0]] + CString(s[1..])
  }

  datatype Line = NoShebang | Malformed | Interpreter(path: seq<Byte>, argument: seq<Byte>)

  datatype Skipped = EndOfFile | Reached(pos: nat)

  // ----- the reader, as it goes through the bytes

  /** Skips leading blanks; the character in front of the position reached has been read. */
  function Skip(c: seq<Byte>, pos: nat): (r: Skipped)
    ensures r.Reached? ==> pos < r.pos <= |c|
    decreases |c| - pos
  {
    if pos >= |c| then EndOfFile
    else if Blank(c[pos]) && pos + 1 < BINPRM_BUF_SIZE then Skip(c, pos + 1)
    else Reached(pos + 1)
  }

  /** Reads the interpreter into its buffer.  A blank is stored as a null; a character behind a null begins the
      argument.  At the end of the file a null is stored over the last character. */
  function Slurp(c: seq<Byte>, pos: nat, path: seq<Byte>): Line
    requires 0 < pos <= |c|
    decreases |c| - pos
  {
    var tmp := c[pos - 1];
    if pos >= BINPRM_BUF_SIZE || EndOfLine(tmp) then Interpreter(CString(path), [])
    else if !Blank(tmp) && |path| > 1 && path[|path| - 1] == 0 then Interpreter(CString(path), SlurpArgument(c, pos, []))
    else if pos == |c| then Interpreter(CString(path), [])
    else Slurp(c, pos + 1, path + [if Blank(tmp) then 0 else tmp])
  }

  /** Removes trailing blanks, but not the first character. */
  function Strip(s: seq<Byte>): seq<Byte> {
    if |s| > 1 && Blank(s[|s| - 1]) then Strip(s[..|s| - 1]) else s
  }

  function SlurpArgument(c: seq<Byte>, pos: nat, argument: seq<Byte>): seq<Byte>
    requires 0 < pos <= |c|
    decreases |c| - pos
  {
    var tmp := c[pos - 1];
    if pos >= BINPRM_BUF_SIZE then CString(argument)
    else if EndOfLine(tmp) then CString(Strip(argument))
    else if pos == |c| then []
    else SlurpArgument(c, pos + 1, argument + [tmp])
  }

  function Extract(c: seq<Byte>): Line {
    if |c| < 2 || c[0] != HASH || c[1] != BANG then NoShebang
    else
      match Skip(c, 2)
      case EndOfFile => Malformed
      case Reached(pos) => Slurp(c, pos, [])
  }

  /** `extract_shebang`, on the bytes of a file that can be read. */
  method ExtractShebang(c: seq<Byte>) returns (line: Line)
    ensures line == Extract(c)
  {
    if |c| < 2 || c[0] != HASH || c[1] != BANG {
      return NoShebang;
    }
    var pos := 2;
    var tmp := SPACE;
    while Blank(tmp) && (pos == 2 || pos < BINPRM_BUF_SIZE)
      invariant 2 <= pos <= |c| && (pos > 2 ==> tmp == c[pos - 1]) && (pos == 2 ==> Blank(tmp))
      invariant Skip(c, 2) == if Blank(tmp) && (pos == 2 || pos < BINPRM_BUF_SIZE) then Skip(c, pos) else Reached(pos)
      decreases |c| - pos
    {
      if pos == |c| {
        return Malformed;
      }
      tmp := c[pos];
      pos := pos + 1;
    }
    line := ExtractInterpreter(c, pos);
  }

  method ExtractInterpreter(c: seq<Byte>, from: nat) returns (line: Line)
    requires 0 < from <= |c|
    ensures line == Slurp(c, from, [])
  {
    var pos := from;
    var tmp := c[pos - 1];
    var path: seq<Byte> := [];
    while pos < BINPRM_BUF_SIZE
      invariant 0 < pos <= |c| && tmp == c[pos - 1]
      invariant Slurp(c, from, []) == Slurp(c, pos, path)
      decreases |c| - pos
    {
      if Blank(tmp) {
        path := path + [0];
      } else if EndOfLine(tmp) {
        return Interpreter(CString(path), []);
      } else if |path| > 1 && path[|path| - 1] == 0 {
        var argument := ExtractArgument(c, pos);
        return Interpreter(CString(path), argument);
      } else {
        path := path + [tmp];
      }
      if pos == |c| {
        path := path[|path| - 1 := 0];
        CutAtNull(path[..|path| - 1]);
        assert path == path[..|path| - 1] + [0];
        return Interpreter(CString(path), []);
      }
      tmp := c[pos];
      pos := pos + 1;
    }
    line := Interpreter(CString(path), []);
  }

  lemma {:induction false} CutAtNull(s: seq<Byte>)
    ensures CString(s + [0]) == CString(s)
  {
    if s != [] {
      assert (s + [0])[1..] == s[1..] + [0];
      CutAtNull(s[1..]);
    }
  }

  method ExtractArgument(c: seq<Byte>, from: nat) returns (result: seq<Byte>)
    requires 0 < from <= |c|
    ensures result == SlurpArgument(c, from, [])
  {
    var pos := from;
    var tmp := c[pos - 1];
    var argument: seq<Byte> := [];
    while pos < BINPRM_BUF_SIZE
      invariant 0 < pos <= |c| && tmp == c[pos - 1]
      invariant SlurpArgument(c, from, []) == SlurpArgument(c, pos, argument)
      decreases |c| - pos
    {
      if EndOfLine(tmp) {
        var n := |argument|;
        assert argument[..n] == argument;
        while n > 1 && Blank(argument[n - 1])
          invariant 0 <= n <= |argument| && Strip(argument) == Strip(argument[..n])
        {
          assert argument[..n][..n - 1] == argument[..n - 1];
          n := n - 1;
        }
        return CString(argument[..n]);
      }
      argument := argument + [tmp];
      if pos == |c| {
        return [];
      }
      tmp := c[pos];
      pos := pos + 1;
    }
    result := CString(argument);
  }

  // ----- what a line says

  predicate Blanks(s: seq<Byte>) {
    forall i :: 0 <= i < |s| ==> Blank(s[i])
  }

  predicate Word(s: seq<Byte>) {
    s != [] && forall i :: 0 <= i < |s| ==> !Blank(s[i]) && !EndOfLine(s[i]) && s[i] != 0
  }

  /** An optional argument: a string without surrounding blanks, which may contain some. */
  predicate Argument(s: seq<Byte>) {
    && (forall i :: 0 <= i < |s| ==> !EndOfLine(s[i]) && s[i] != 0)
    && (s != [] ==> !Blank(s[0]) && !Blank(s[|s| - 1]))
  }

  /** The parts of a line. */
  datatype Format = Format(lead: seq<Byte>, path: seq<Byte>, gap: seq<Byte>, argument: seq<Byte>, trail: seq<Byte>)

  predicate IsFormat(f: Format) {
    && Blanks(f.lead) && Word(f.path) && Blanks(f.gap) && Argument(f.argument) && Blanks(f.trail)
    && (f.argument != [] ==> f.gap != []) && (f.argument == [] ==> f.trail == [])
  }

  function Text(f: Format): seq<Byte> {
    [HASH, BANG] + f.lead + f.path + f.gap + f.argument + f.trail
  }

  /** The bytes of a file from a position on begin so. */
  ghost predicate HasAt(c: seq<Byte>, pos: nat, s: seq<Byte>) {
    pos + |s| <= |c| && forall i {:trigger s[i]} :: 0 <= i < |s| ==> c[pos + i] == s[i]
  }

  lemma {:induction false} SkipBlanks(c: seq<Byte>, pos: nat, lead: seq<Byte>)
    requires HasAt(c, pos, lead) && Blanks(lead) && pos + |lead| < |c| && !Blank(c[pos + |lead|])
    requires pos + |lead| < BINPRM_BUF_SIZE
    ensures Skip(c, pos) == Reached(pos + |lead| + 1)
    decreases |lead|
  {
    if lead != [] {
      assert c[pos] == lead[0];
      forall i | 0 <= i < |lead| - 1 ensures c[pos + 1 + i] == lead[1..][i] {
        assert c[pos + (i + 1)] == lead[i + 1];
      }
      SkipBlanks(c, pos + 1, lead[1..]);
    }
  }

  /** Reading k characters of the interpreter, when there is more to read. */
  lemma {:induction false} SlurpPath(c: seq<Byte>, from: nat, path: seq<Byte>, k: nat)
    requires HasAt(c, from, path) && Word(path) && k <= |path| && from + k < |c| && from + k < BINPRM_BUF_SIZE
    ensures Slurp(c, from + 1, []) == Slurp(c, from + k + 1, path[..k])
  {
    if k > 0 {
      SlurpPath(c, from, path, k - 1);
      assert c[from + (k - 1)] == path[k - 1];
      assert path[..k] == path[..k - 1] + [path[k - 1]];
      assert k > 1 ==> path[..k - 1][k - 2] == path[k - 2];
    }
  }

  function Nulls(n: nat): (r: seq<Byte>)
    ensures |r| == n
  {
    if n == 0 then [] else Nulls(n - 1) + [0]
  }

  lemma {:induction false} SlurpGap(c: seq<Byte>, from: nat, path: seq<Byte>, gap: seq<Byte>, k: nat)
    requires HasAt(c, from, gap) && Blanks(gap) && k <= |gap| && from + k < |c| && from + k < BINPRM_BUF_SIZE
    ensures Slurp(c, from + 1, path) == Slurp(c, from + k + 1, path + Nulls(k))
  {
    if k > 0 {
      SlurpGap(c, from, path, gap, k - 1);
      assert c[from + (k - 1)] == gap[k - 1];
      assert path + Nulls(k) == (path + Nulls(k - 1)) + [0];
    } else {
      assert path + Nulls(0) == path;
    }
  }

  lemma {:induction false} SlurpRest(c: seq<Byte>, from: nat, s: seq<Byte>, k: nat)
    requires HasAt(c, from, s) && (forall i :: 0 <= i < |s| ==> !EndOfLine(s[i]))
    requires k <= |s| && from + k < |c| && from + k < BINPRM_BUF_SIZE
    ensures SlurpArgument(c, from + 1, []) == SlurpArgument(c, from + k + 1, s[..k])
  {
    if k > 0 {
      SlurpRest(c, from, s, k - 1);
      assert c[from + (k - 1)] == s[k - 1];
      assert s[..k] == s[..k - 1] + [s[k - 1]];
    }
  }

  lemma {:induction false} NullsCut(path: seq<Byte>, n: nat)
    requires forall i :: 0 <= i < |path| ==> path[i] != 0
    ensures CString(path + Nulls(n)) == path
  {
    if path != [] {
      assert (path + Nulls(n))[1..] == path[1..] + Nulls(n);
      NullsCut(path[1..], n);
    } else {
      assert path + Nulls(n) == Nulls(n);
      NullsAreNull(n, 0);
    }
  }

  lemma {:induction false} NullsAreNull(n: nat, i: nat)
    ensures i < n ==> Nulls(n)[i] == 0
  {
    if i < n - 1 {
      NullsAreNull(n - 1, i);
    }
  }

  lemma {:induction false} StripTrail(argument: seq<Byte>, trail: seq<Byte>)
    requires Argument(argument) && argument != [] && Blanks(trail)
    ensures Strip(argument + trail) == argument
  {
    if trail != [] {
      assert (argument + trail)[..|argument + trail| - 1] == argument + trail[..|trail| - 1];
      StripTrail(argument, trail[..|trail| - 1]);
    } else {
      assert argument + trail == argument;
    }
  }

  /** The reader gets to see how a text of this length ends: with a line end, or with the file. */
  predicate Seen(length: nat, end: seq<Byte>) {
    length + (if end == [] then 0 else 1) < BINPRM_BUF_SIZE
  }

  /** What is read behind the interpreter: the gap, the argument, and the end of the line or file. */
  lemma ReadBehind(c: seq<Byte>, b: nat, f: Format, end: seq<Byte>)
    requires IsFormat(f) && (end == [] || EndOfLine(end[0]))
    requires HasAt(c, b, f.gap + f.argument + f.trail) && |c| == b + |f.gap + f.argument + f.trail| + |end|
    requires end != [] ==> c[b + |f.gap + f.argument + f.trail|] == end[0]
    requires Seen(b + |f.gap + f.argument + f.trail|, end) && b < |c| && b >= 1
    ensures Slurp(c, b + 1, f.path) == Interpreter(f.path, if end != [] then f.argument else [])
  {
    var tail := f.gap + f.argument + f.trail;
    if f.argument == [] {
      assert tail == f.gap;
      var k := if end != [] then |f.gap| else |f.gap| - 1;
      SlurpGap(c, b, f.path, f.gap, k);
      NullsCut(f.path, k);
      assert end == [] ==> c[b + k] == tail[k];
    } else {
      GapAt(c, b, f);
      SlurpGap(c, b, f.path, f.gap, |f.gap|);
      NullsCut(f.path, |f.gap|);
      NullsAreNull(|f.gap|, |f.gap| - 1);
      assert (f.path + Nulls(|f.gap|))[|f.path| + |f.gap| - 1] == 0;
      ReadArgument(c, b + |f.gap|, f, end);
    }
  }

  lemma GapAt(c: seq<Byte>, b: nat, f: Format)
    requires HasAt(c, b, f.gap + f.argument + f.trail) && f.argument != []
    ensures HasAt(c, b, f.gap) && HasAt(c, b + |f.gap|, f.argument + f.trail) && c[b + |f.gap|] == f.argument[0]
  {
    var tail := f.gap + f.argument + f.trail;
    forall i | 0 <= i < |f.gap| ensures c[b + i] == f.gap[i] {
      assert tail[i] == f.gap[i];
    }
    forall i | 0 <= i < |f.argument + f.trail| ensures c[b + |f.gap| + i] == (f.argument + f.trail)[i] {
      assert tail[|f.gap| + i] == (f.argument + f.trail)[i];
      assert c[b + (|f.gap| + i)] == tail[|f.gap| + i];
    }
    assert (f.argument + f.trail)[0] == f.argument[0] && c[b + |f.gap| + 0] == f.argument[0];
  }

  lemma ReadArgument(c: seq<Byte>, g: nat, f: Format, end: seq<Byte>)
    requires IsFormat(f) && f.argument != [] && (end == [] || EndOfLine(end[0]))
    requires HasAt(c, g, f.argument + f.trail) && |c| == g + |f.argument + f.trail| + |end|
    requires end != [] ==> c[g + |f.argument + f.trail|] == end[0]
    requires Seen(g + |f.argument + f.trail|, end)
    ensures SlurpArgument(c, g + 1, []) == if end != [] then f.argument else []
  {
    var s := f.argument + f.trail;
    var k := if end != [] then |s| else |s| - 1;
    SlurpRest(c, g, s, k);
    if end != [] {
      assert s[..k] == s;
      StripTrail(f.argument, f.trail);
      NullsCut(f.argument, 0);
      assert f.argument + Nulls(0) == f.argument;
    } else {
      assert c[g + k] == s[k];
    }
  }

  function Tail(f: Format): seq<Byte> {
    f.gap + f.argument + f.trail
  }

  ghost predicate IsScript(c: seq<Byte>, f: Format, end: seq<Byte>) {
    var a := 2 + |f.lead|;
    && IsFormat(f) && (end == [] || EndOfLine(end[0])) && |c| == a + |f.path| + |Tail(f)| + |end|
    && c[0] == HASH && c[1] == BANG && HasAt(c, 2, f.lead) && HasAt(c, a, f.path) && HasAt(c, a + |f.path|, Tail(f))
    && (end != [] ==> c[a + |f.path| + |Tail(f)|] == end[0])
  }

  lemma Shift(front: seq<Byte>, back: seq<Byte>, off: nat, part: seq<Byte>)
    requires HasAt(back, off, part)
    ensures HasAt(front + back, |front| + off, part)
  {
    forall i {:trigger part[i]} | 0 <= i < |part| ensures (front + back)[|front| + off + i] == part[i] {
      assert back[off + i] == part[i];
    }
  }

  lemma TailAt(f: Format, end: seq<Byte>)
    ensures HasAt(Tail(f) + end, 0, Tail(f))
  {
  }

  lemma PathAt(f: Format, end: seq<Byte>)
    ensures var c := f.path + (Tail(f) + end); HasAt(c, 0, f.path) && HasAt(c, |f.path|, Tail(f))
  {
    TailAt(f, end);
    Shift(f.path, Tail(f) + end, 0, Tail(f));
  }

  lemma LeadAt(f: Format, end: seq<Byte>)
    ensures var c := f.lead + (f.path + (Tail(f) + end));
            HasAt(c, 0, f.lead) && HasAt(c, |f.lead|, f.path) && HasAt(c, |f.lead| + |f.path|, Tail(f))
  {
    PathAt(f, end);
    Shift(f.lead, f.path + (Tail(f) + end), 0, f.path);
    Shift(f.lead, f.path + (Tail(f) + end), |f.path|, Tail(f));
  }

  lemma TextIs(f: Format, end: seq<Byte>)
    ensures Text(f) + end == [HASH, BANG] + (f.lead + (f.path + (Tail(f) + end)))
  {
  }

  /** The parts of a line are found where they were written. */
  lemma Parts(f: Format, end: seq<Byte>)
    requires IsFormat(f) && (end == [] || EndOfLine(end[0]))
    ensures IsScript(Text(f) + end, f, end)
  {
    hide Tail, IsFormat, Text;
    var rest := f.lead + (f.path + (Tail(f) + end));
    LeadAt(f, end);
    TextIs(f, end);
    Shift([HASH, BANG], rest, 0, f.lead);
    Shift([HASH, BANG], rest, |f.lead|, f.path);
    Shift([HASH, BANG], rest, |f.lead| + |f.path|, Tail(f));
    EndAt(f, end);
  }

  lemma EndAt(f: Format, end: seq<Byte>)
    ensures var c := [HASH, BANG] + (f.lead + (f.path + (Tail(f) + end)));
            end != [] ==> c[2 + |f.lead| + |f.path| + |Tail(f)|] == end[0]
  {
    hide Tail;
    var front := [HASH, BANG] + f.lead + f.path;
    assert [HASH, BANG] + (f.lead + (f.path + (Tail(f) + end))) == front + Tail(f) + end;
    if end != [] {
      LastOf(front, Tail(f), end);
    }
  }

  lemma LastOf(front: seq<Byte>, tail: seq<Byte>, end: seq<Byte>)
    requires end != []
    ensures (front + tail + end)[|front| + |tail|] == end[0]
  {
  }

  // ----- lines that fit

  lemma ReadLine(c: seq<Byte>, f: Format, end: seq<Byte>)
    requires IsScript(c, f, end) && Seen(2 + |f.lead| + |f.path| + |Tail(f)|, end)
    ensures Extract(c)
         == if end != [] then Interpreter(f.path, f.argument)
            else if f.gap != [] then Interpreter(f.path, [])
            else Interpreter(f.path[..|f.path| - 1], [])
  {
    var a := 2 + |f.lead|;
    assert c[a + 0] == f.path[0];
    SkipBlanks(c, 2, f.lead);
    if |Tail(f)| + |end| == 0 {
      SlurpPath(c, a, f.path, |f.path| - 1);
      assert c[a + (|f.path| - 1)] == f.path[|f.path| - 1];
      NullsCut(f.path[..|f.path| - 1], 0);
      assert f.path[..|f.path| - 1] + Nulls(0) == f.path[..|f.path| - 1];
    } else {
      SlurpPath(c, a, f.path, |f.path|);
      assert f.path[..|f.path|] == f.path;
      ReadBehind(c, a + |f.path|, f, end);
    }
  }

  /** From one position to another there is nothing but blanks. */
  predicate BlankUntil(c: seq<Byte>, from: nat, to: nat)
    requires to <= |c|
  {
    forall i {:trigger c[i]} :: from <= i < to ==> c[i] == 32 || c[i] == 9
  }

  /** A file has no shebang unless it begins with one; a shebang with nothing but blanks behind it, and not too many,
      is malformed; and an empty line names an interpreter without a name. */
  lemma OtherLines(c: seq<Byte>)
    ensures Extract(c) == NoShebang <==> !(|c| >= 2 && c[0] == 35 && c[1] == 33)
    ensures Extract(c) == Malformed <==> 2 <= |c| <= 255 && c[0] == 35 && c[1] == 33 && BlankUntil(c, 2, |c|)
    ensures forall k | 2 <= k < 255 && k < |c| && BlankUntil(c, 2, k) && (c[k] == 10 || c[k] == 13) ::
              c[0] == 35 && c[1] == 33 ==> Extract(c) == Interpreter([], [])
  {
    if |c| >= 2 {
      SkipEnds(c, 2);
      if Skip(c, 2).Reached? {
        SlurpNames(c, Skip(c, 2).pos, []);
      }
      forall k | 2 <= k < 255 && k < |c| && BlankUntil(c, 2, k) && EndOfLine(c[k]) ensures Skip(c, 2) == Reached(k + 1) {
        SkipTo(c, 2, k);
      }
    }
  }

  lemma {:induction false} SkipEnds(c: seq<Byte>, pos: nat)
    requires 2 <= pos <= |c|
    ensures Skip(c, pos) == EndOfFile <==> BlankUntil(c, pos, |c|) && (|c| <= 255 || pos == |c|)
    decreases |c| - pos
  {
    if pos < |c| {
      SkipEnds(c, pos + 1);
      assert BlankUntil(c, pos, |c|) <==> Blank(c[pos]) && BlankUntil(c, pos + 1, |c|);
    }
  }

  lemma {:induction false} SkipTo(c: seq<Byte>, pos: nat, k: nat)
    requires pos <= k < 255 && k < |c| && BlankUntil(c, pos, k) && !Blank(c[k])
    ensures Skip(c, pos) == Reached(k + 1)
    decreases k - pos
  {
    if pos < k {
      assert Blank(c[pos]);
      SkipTo(c, pos + 1, k);
    }
  }

  lemma {:induction false} SlurpNames(c: seq<Byte>, pos: nat, path: seq<Byte>)
    requires 0 < pos <= |c|
    ensures Slurp(c, pos, path).Interpreter?
    decreases |c| - pos
  {
    if pos < |c| {
      SlurpNames(c, pos + 1, path + [if Blank(c[pos - 1]) then 0 else c[pos - 1]]);
    }
  }

  // ----- lines that do not fit

  const LAST: nat := BINPRM_BUF_SIZE - 1

  lemma {:induction false} SkipAll(c: seq<Byte>, pos: nat)
    requires pos <= LAST < |c| && forall i :: pos <= i < LAST ==> Blank(c[i])
    ensures Skip(c, pos) == Reached(BINPRM_BUF_SIZE)
    decreases LAST - pos
  {
    if pos < LAST {
      SkipAll(c, pos + 1);
    }
  }

  lemma Uncut(s: seq<Byte>)
    requires forall i :: 0 <= i < |s| ==> s[i] != 0
    ensures CString(s) == s
  {
    NullsCut(s, 0);
    assert s + Nulls(0) == s;
  }

  /** What is left of a line when the reader stops in the middle of it. */
  function Truncated(f: Format): Line {
    var a := 2 + |f.lead|;
    var b := a + |f.path|;
    var g := b + |f.gap|;
    if a >= LAST then Interpreter([], [])
    else if b >= LAST then Interpreter(f.path[..LAST - a], [])
    else if f.argument == [] || g >= LAST || |f.argument + f.trail| < LAST - g then Interpreter(f.path, [])
    else Interpreter(f.path, (f.argument + f.trail)[..LAST - g])
  }

  lemma ReadTruncated(c: seq<Byte>, f: Format, end: seq<Byte>)
    requires IsScript(c, f, end) && !Seen(2 + |f.lead| + |f.path| + |Tail(f)|, end)
    ensures Extract(c) == Truncated(f)
  {
    hide Skip, Argument, Text;
    var a := 2 + |f.lead|;
    var b := a + |f.path|;
    assert |c| >= BINPRM_BUF_SIZE;
    if a >= LAST {
      forall i | 2 <= i < LAST ensures Blank(c[i]) {
        assert c[2 + (i - 2)] == f.lead[i - 2];
      }
      SkipAll(c, 2);
    } else {
      assert c[a + 0] == f.path[0];
      SkipBlanks(c, 2, f.lead);
      if b >= LAST {
        SlurpPath(c, a, f.path, LAST - a);
        Uncut(f.path[..LAST - a]);
      } else {
        SlurpPath(c, a, f.path, |f.path|);
        assert f.path[..|f.path|] == f.path;
        TruncatedBehind(c, b, f, end);
      }
    }
  }

  lemma TruncatedBehind(c: seq<Byte>, b: nat, f: Format, end: seq<Byte>)
    requires IsFormat(f) && HasAt(c, b, Tail(f)) && |c| >= BINPRM_BUF_SIZE && 1 <= b < LAST <= b + |Tail(f)|
    ensures var g := b + |f.gap|;
            Slurp(c, b + 1, f.path)
            == Interpreter(f.path, if f.argument == [] || g >= LAST then [] else (f.argument + f.trail)[..LAST - g])
  {
    var g := b + |f.gap|;
    if f.argument == [] || g >= LAST {
      forall i | 0 <= i < |f.gap| ensures c[b + i] == f.gap[i] {
        assert Tail(f)[i] == f.gap[i];
      }
      assert f.argument == [] ==> Tail(f) == f.gap;
      SlurpGap(c, b, f.path, f.gap, LAST - b);
      NullsCut(f.path, LAST - b);
    } else {
      GapAt(c, b, f);
      SlurpGap(c, b, f.path, f.gap, |f.gap|);
      NullsCut(f.path, |f.gap|);
      NullsAreNull(|f.gap|, |f.gap| - 1);
      assert (f.path + Nulls(|f.gap|))[|f.path| + |f.gap| - 1] == 0;
      SlurpRest(c, g, f.argument + f.trail, LAST - g);
      Uncut((f.argument + f.trail)[..LAST - g]);
    }
  }

  // ----- all lines

  /** What is read of a line.  If its end is seen: all of it if it is terminated; at the end of a file the argument
      is lost, and with nothing behind the interpreter, its last character.  Otherwise what came before the limit,
      its blanks included. */
  lemma LineRead(f: Format, end: seq<Byte>)
    requires IsFormat(f) && (end == [] || EndOfLine(end[0]))
    ensures Extract(Text(f) + end)
         == if !Seen(|Text(f)|, end) then Truncated(f)
            else if end != [] then Interpreter(f.path, f.argument)
            else if f.gap != [] then Interpreter(f.path, [])
            else Interpreter(f.path[..|f.path| - 1], [])
  {
    Parts(f, end);
    TextIs(f, end);
    if Seen(|Text(f)|, end) {
      ReadLine(Text(f) + end, f, end);
    } else {
      ReadTruncated(Text(f) + end, f, end);
    }
  }

  /** Whether a shebang is read as it was written, for a line of any length.  If its end is seen: exactly if it is
      terminated, or has no argument and ends with a blank.  If it is not: exactly if the interpreter ends before the
      limit and there is no argument, or the argument ends right at the limit. */
  predicate ReadsAsWritten(f: Format, end: seq<Byte>) {
    var b := 2 + |f.lead| + |f.path|;
    if Seen(|Text(f)|, end) then end != [] || (f.argument == [] && f.gap != [])
    else b <= LAST && (f.argument == [] || b + |f.gap| + |f.argument| == LAST)
  }

  lemma LineParsed(f: Format, end: seq<Byte>)
    requires IsFormat(f) && (end == [] || EndOfLine(end[0]))
    ensures Extract(Text(f) + end) == Interpreter(f.path, f.argument) <==> ReadsAsWritten(f, end)
  {
    LineRead(f, end);
    if !Seen(|Text(f)|, end) {
      TruncatedParsed(f, end);
    }
  }

  lemma TruncatedParsed(f: Format, end: seq<Byte>)
    requires IsFormat(f) && (end == [] || EndOfLine(end[0])) && !Seen(|Text(f)|, end)
    ensures Truncated(f) == Interpreter(f.path, f.argument) <==> ReadsAsWritten(f, end)
  {
    var g := 2 + |f.lead| + |f.path| + |f.gap|;
    if f.argument != [] && g < LAST <= g + |f.argument + f.trail| {
      var s := f.argument + f.trail;
      assert |s[..LAST - g]| == LAST - g;
      assert s[..|f.argument|] == f.argument;
    }
  }

  /** The failing family has simple members: a script that is no more than its shebang. */
  lemma LastCharacterLost()
    ensures Extract([HASH, BANG, 47, 97, 98]) == Interpreter([47, 97], [])
  {
    var f := Format([], [47, 97, 98], [], [], []);
    LineRead(f, []);
    assert Text(f) + [] == [HASH, BANG, 47, 97, 98];
    assert f.path[..2] == [47, 97];
  }
}
