/** Path strings and the lists of names they stand for. */
module Paths {
  const PATH_MAX: nat := 4096
  const NAME_MAX: nat := 255

  type Path = seq<string>

  /** A file name: not empty, no separator, no end of string in it. */
  predicate IsName(c: string) {
    c != "" && '/' !in c && '\0' !in c
  }

  predicate AreNames(p: Path) {
    forall i :: 0 <= i < |p| ==> IsName(p[i])
  }

  /** What can stand between two separators: nothing as well. */
  predicate IsPart(c: string) {
    '/' !in c && '\0' !in c
  }

  predicate AreParts(p: Path) {
    forall i :: 0 <= i < |p| ==> IsPart(p[i])
  }

  /** A name that means itself. */
  predicate IsPlain(c: string) {
    IsName(c) && c != "." && c != ".."
  }

  predicate IsCanonical(p: Path) {
    forall i :: 0 <= i < |p| ==> IsPlain(p[i])
  }

  // ----- from strings to names and back

  function SkipSlashes(s: string): (r: string)
    ensures |r| <= |s| && (r != "" ==> r[0] != '/')
    ensures s != "" && s[0] == '/' ==> |r| < |s|
  {
    if s != "" && s[0] == '/' then SkipSlashes(s[1..]) else s
  }

  /** The characters before the first separator. */
  function FirstName(s: string): (r: string)
    ensures r <= s && '/' !in r
    ensures |r| < |s| ==> s[|r|] == '/'
    ensures s != "" && s[0] != '/' ==> r != ""
  {
    if s == "" || s[0] == '/' then "" else [s[0]] + FirstName(s[1..])
  }

  /** The names in a string. */
  function Names(s: string): (r: Path)
    decreases |s|
  {
    var t := SkipSlashes(s);
    if t == "" then [] else [FirstName(t)] + Names(t[|FirstName(t)|..])
  }

  lemma SkipsOnly(s: string)
    requires '\0' !in s
    ensures '\0' !in SkipSlashes(s)
  {
  }

  lemma {:induction false} NamesAreNames(s: string)
    requires '\0' !in s
    ensures AreNames(Names(s))
    decreases |s|
  {
    var t := SkipSlashes(s);
    SkipsOnly(s);
    if t != "" {
      NamesAreNames(t[|FirstName(t)|..]);
    }
  }

  /** Every name with a separator in front. */
  function Cat(p: Path): string {
    if p == [] then "" else "/" + p[0] + Cat(p[1..])
  }

  function Render(p: Path): (r: string)
    ensures r != "" && r[0] == '/'
  {
    if p == [] then "/" else Cat(p)
  }

  lemma {:induction false} CatConcat(p: Path, q: Path)
    ensures Cat(p + q) == Cat(p) + Cat(q)
  {
    if p == [] {
      assert p + q == q;
    } else {
      assert (p + q)[1..] == p[1..] + q;
      CatConcat(p[1..], q);
    }
  }

  lemma FirstNameOf(c: string, s: string)
    requires IsPart(c) && (s == "" || s[0] == '/')
    ensures FirstName(c + s) == c
  {
    if c == "" {
      assert c + s == s;
    } else {
      assert (c + s)[1..] == c[1..] + s;
      FirstNameOf(c[1..], s);
    }
  }

  lemma CatShape(p: Path)
    requires AreNames(p)
    ensures p != [] ==> |Cat(p)| > 1 && Cat(p)[0] == '/'
    ensures p != [] ==> Cat(p)[|Cat(p)| - 1] != '/'
  {
    if p != [] {
      CatShape(p[1..]);
    }
  }

  /** Rendering loses nothing. */
  lemma {:induction false} NamesOfCat(p: Path)
    requires AreNames(p)
    ensures Names(Cat(p)) == p
  {
    if p != [] {
      var rest := Cat(p[1..]);
      var t := p[0] + rest;
      assert SkipSlashes(Cat(p)) == t by {
        assert Cat(p)[1..] == t;
        assert SkipSlashes(t) == t;
      }
      FirstNameOf(p[0], rest);
      assert t[|p[0]|..] == rest;
      NamesOfCat(p[1..]);
    }
  }

  lemma NamesOfRender(p: Path)
    requires AreNames(p)
    ensures Names(Render(p)) == p
  {
    if p == [] {
      assert SkipSlashes("/") == "";
    } else {
      NamesOfCat(p);
    }
  }

  lemma RenderInjective(p: Path, q: Path)
    requires AreNames(p) && AreNames(q) && Render(p) == Render(q)
    ensures p == q
  {
    NamesOfRender(p);
    NamesOfRender(q);
  }

  /** The parts of a string that starts with a separator, empty ones included. */
  function Parts(s: string): Path
    decreases |s|
  {
    if s == "" then []
    else
      var c := FirstName(s[1..]);
      [c] + Parts(s[1 + |c|..])
  }

  lemma {:induction false} CatOfParts(s: string)
    requires '\0' !in s && (s != "" ==> s[0] == '/')
    ensures AreParts(Parts(s)) && Cat(Parts(s)) == s
    decreases |s|
  {
    if s != "" {
      var c := FirstName(s[1..]);
      CatOfParts(s[1 + |c|..]);
      assert Parts(s) == [c] + Parts(s[1 + |c|..]);
      assert Parts(s)[1..] == Parts(s[1 + |c|..]);
      assert s == "/" + c + s[1 + |c|..];
    }
  }

  lemma {:induction false} PartsOfCat(p: Path)
    requires AreParts(p)
    ensures Parts(Cat(p)) == p
  {
    if p != [] {
      var rest := Cat(p[1..]);
      assert Cat(p)[1..] == p[0] + rest;
      FirstNameOf(p[0], rest);
      assert Cat(p)[1 + |p[0]|..] == rest;
      PartsOfCat(p[1..]);
    }
  }

  // ----- comparing paths

  datatype Comparison = PathsAreEqual | Path1IsPrefix | Path2IsPrefix | PathsAreNotComparable

  function CharAt(s: string, i: nat): char {
    if i < |s| then s[i] else '\0'
  }

  function StripSlash(s: string): (n: nat)
    requires s != ""
    ensures n <= |s|
  {
    if s[|s| - 1] == '/' then |s| - 1 else |s|
  }

  /** `compare_paths2` */
  function ComparePaths(path1: string, path2: string): Comparison
    requires path1 != "" && path2 != ""
  {
    var length1, length2 := StripSlash(path1), StripSlash(path2);
    var lengthMin := if length1 < length2 then length1 else length2;
    var sentinel := if length1 < length2 then CharAt(path2, lengthMin) else CharAt(path1, lengthMin);
    if sentinel != '/' && sentinel != '\0' then PathsAreNotComparable
    else if path1[..lengthMin] != path2[..lengthMin] then PathsAreNotComparable
    else if length1 == length2 then PathsAreEqual
    else if length1 < length2 then Path1IsPrefix
    else Path2IsPrefix
  }

  /** The order of paths, name by name. */
  function Relation(p: Path, q: Path): Comparison {
    if p == q then PathsAreEqual
    else if p <= q then Path1IsPrefix
    else if q <= p then Path2IsPrefix
    else PathsAreNotComparable
  }

  /** `a` ends at a name boundary of `b`. */
  predicate StopsAtName(a: string, b: string) {
    a <= b && (|a| == |b| || b[|a|] == '/')
  }

  lemma {:induction false} CatPrefix(p: Path, q: Path)
    requires AreParts(p) && AreParts(q)
    ensures StopsAtName(Cat(p), Cat(q)) <==> p <= q
  {
    if p == [] {
      if q != [] {
        assert Cat(q)[0] == '/';
      }
    } else if q != [] {
      var a, b := Cat(p[1..]), Cat(q[1..]);
      CatPrefix(p[1..], q[1..]);
      HeadPrefix(p[0], a, q[0], b);
      assert p <= q <==> p[0] == q[0] && p[1..] <= q[1..];
    }
  }

  lemma HeadPrefix(c: string, a: string, d: string, b: string)
    requires IsPart(c) && IsPart(d) && (a == "" || a[0] == '/') && (b == "" || b[0] == '/')
    ensures StopsAtName("/" + c + a, "/" + d + b) <==> c == d && StopsAtName(a, b)
  {
    var x, y := "/" + c + a, "/" + d + b;
    if c == d {
      assert x[1 + |c|..] == a && y[1 + |c|..] == b;
      assert x[..1 + |c|] == y[..1 + |c|];
      if StopsAtName(a, b) {
        assert forall i :: 0 <= i < |x| ==> x[i] == if i < 1 + |c| then y[i] else a[i - 1 - |c|];
      }
      if StopsAtName(x, y) {
        assert forall i :: 0 <= i < |a| ==> a[i] == x[i + 1 + |c|] && b[i] == y[i + 1 + |c|];
      }
    } else if StopsAtName(x, y) {
      NameHeads(c, a, d, b);
    }
  }

  lemma NameHeads(c: string, a: string, d: string, b: string)
    requires IsPart(c) && IsPart(d) && (a == "" || a[0] == '/') && (b == "" || b[0] == '/')
    requires StopsAtName("/" + c + a, "/" + d + b)
    ensures c == d
  {
    var x, y := "/" + c + a, "/" + d + b;
    FirstNameOf(c, a);
    FirstNameOf(d, b);
    assert x[1..] == c + a && y[1..] == d + b;
    SameFirstName(x[1..], y[1..]);
  }

  lemma SameFirstName(a: string, b: string)
    requires StopsAtName(a, b)
    ensures FirstName(a) == FirstName(b)
  {
    if a != "" && a[0] != '/' {
      SameFirstName(a[1..], b[1..]);
    }
  }

  lemma StrippedIsCat(p: Path)
    requires AreNames(p)
    ensures Render(p)[..StripSlash(Render(p))] == Cat(p)
    ensures StripSlash(Render(p)) == |Cat(p)|
  {
    CatShape(p);
  }

  /** The parts by which a path is compared: one separator at its end does not count. */
  function Key(s: string): Path {
    if s == "" then [] else Parts(s[..StripSlash(s)])
  }

  predicate IsAbsolute(s: string) {
    s != "" && s[0] == '/' && '\0' !in s
  }

  lemma KeyCat(s: string)
    requires IsAbsolute(s)
    ensures AreParts(Key(s)) && Cat(Key(s)) == s[..StripSlash(s)]
  {
    CatOfParts(s[..StripSlash(s)]);
  }

  lemma KeyOfRender(p: Path)
    requires AreNames(p)
    ensures IsAbsolute(Render(p)) && Key(Render(p)) == p
  {
    StrippedIsCat(p);
    PartsOfCat(p);
    NoEnd(p);
  }

  /** `compare_paths2` decides the part-by-part order of any two absolute paths. */
  lemma CompareKeys(a: string, b: string)
    requires IsAbsolute(a) && IsAbsolute(b)
    ensures ComparePaths(a, b) == Relation(Key(a), Key(b))
  {
    var p, q := Key(a), Key(b);
    KeyCat(a);
    KeyCat(b);
    CatPrefix(p, q);
    CatPrefix(q, p);
    CompareStripped(a, b, Cat(p), Cat(q));
    if p <= q && q <= p {
      assert p == q;
    }
    if Cat(p) == Cat(q) {
      PartsOfCat(p);
      PartsOfCat(q);
    }
  }

  /** For canonical paths that is the order of their names. */
  lemma CompareMeaning(p: Path, q: Path)
    requires AreNames(p) && AreNames(q)
    ensures ComparePaths(Render(p), Render(q)) == Relation(p, q)
  {
    KeyOfRender(p);
    KeyOfRender(q);
    CompareKeys(Render(p), Render(q));
  }

  lemma CompareStripped(x: string, y: string, a: string, b: string)
    requires x != "" && y != "" && a == x[..StripSlash(x)] && b == y[..StripSlash(y)]
    requires '\0' !in a && '\0' !in b
    ensures ComparePaths(x, y) ==
            if a == b then PathsAreEqual
            else if |a| < |b| && StopsAtName(a, b) then Path1IsPrefix
            else if |b| < |a| && StopsAtName(b, a) then Path2IsPrefix
            else PathsAreNotComparable
  {
    if |a| < |b| {
      assert y[|a|] == b[|a|] && b[|a|] in b && y[..|a|] == b[..|a|];
    } else if |b| < |a| {
      assert x[|b|] == a[|b|] && a[|b|] in a && x[..|b|] == a[..|b|];
    }
  }

  lemma NoEnd(p: Path)
    requires AreParts(p)
    ensures '\0' !in Cat(p)
  {
    if p != [] {
      NoEnd(p[1..]);
    }
  }

  // ----- editing paths

  datatype Status = Done | NameTooLong

  /** `join_paths` for two paths. */
  method JoinPaths(a: string, b: string) returns (status: Status, result: string)
    requires a != ""
    ensures status == Done <==> |Joined(a, b)| + 1 < PATH_MAX
    ensures status == Done ==> result == Joined(a, b)
  {
    if |a| + 1 >= PATH_MAX {
      return NameTooLong, "";
    }
    result := a;
    if result[|result| - 1] != '/' && CharAt(b, 0) != '/' {
      if |result| + |b| + 1 + 1 >= PATH_MAX {
        return NameTooLong, result;
      }
      result := result + "/";
      result := result + b;
    } else if result[|result| - 1] == '/' && CharAt(b, 0) == '/' {
      if |result| + |b| - 1 + 1 >= PATH_MAX {
        return NameTooLong, result;
      }
      result := result + b[1..];
    } else {
      if |result| + |b| + 1 >= PATH_MAX {
        return NameTooLong, result;
      }
      result := result + b;
    }
    status := Done;
  }

  /** One separator between `a` and `b`. */
  function Joined(a: string, b: string): string
    requires a != ""
  {
    a[..StripSlash(a)] + "/" + (if b != "" && b[0] == '/' then b[1..] else b)
  }

  /** The joined path begins with the first and ends with the second, and exactly one separator is where they meet,
      whether they bring none, one or two. */
  lemma JoinedShape(a: string, b: string)
    requires a != ""
    ensures var r := Joined(a, b);
            && |r| == |a| + |b| + (if a[|a| - 1] == '/' then 0 else 1) - (if b != "" && b[0] == '/' then 1 else 0)
            && a <= r && |b| <= |r| && r[|r| - |b|..] == b && r[StripSlash(a)] == '/'
  {
    var c := if b != "" && b[0] == '/' then b[1..] else b;
    assert Joined(a, b)[|Joined(a, b)| - |c|..] == c;
  }

  /** The names of the joined path are those of both. */
  lemma JoinedNames(a: string, b: string)
    requires a != ""
    ensures Names(Joined(a, b)) == Names(a) + Names(b)
  {
    hide Names;
    var front, c := a[..StripSlash(a)], if b != "" && b[0] == '/' then b[1..] else b;
    NamesOfTwo(front, c);
    if StripSlash(a) < |a| {
      assert a == front + "/" + "";
      NamesOfTwo(front, "");
      NoNames();
      assert Names(front) + [] == Names(front);
    } else {
      assert a == front;
    }
    if c != b {
      assert b == "/" + c;
      NamesOfSlash(c);
    }
  }

  lemma NoNames()
    ensures Names("") == []
  {
  }

  lemma NamesOfSlash(s: string)
    ensures Names("/" + s) == Names(s)
  {
    assert ("/" + s)[1..] == s;
    assert SkipSlashes("/" + s) == SkipSlashes(s);
  }

  lemma NamesOfFirst(s: string)
    requires s != "" && s[0] != '/'
    ensures FirstName(s) != "" && Names(s) == [FirstName(s)] + Names(s[|FirstName(s)|..])
  {
    assert SkipSlashes(s) == s;
  }

  lemma {:induction false} NamesOfTwo(a: string, c: string)
    ensures Names(a + "/" + c) == Names(a) + Names(c)
    decreases |a|
  {
    hide Names, SkipSlashes;
    if a == "" {
      assert a + "/" + c == "/" + c;
      NamesOfSlash(c);
      NoNames();
      assert [] + Names(c) == Names(c);
    } else if a[0] == '/' {
      assert a == "/" + a[1..] && a + "/" + c == "/" + (a[1..] + "/" + c);
      NamesOfSlash(a[1..]);
      NamesOfSlash(a[1..] + "/" + c);
      NamesOfTwo(a[1..], c);
    } else {
      FirstNameIn(a, "/" + c);
      FirstOfTwo(a, c);
    }
  }

  lemma FirstOfTwo(a: string, c: string)
    requires a != "" && a[0] != '/' && FirstName(a + ("/" + c)) == FirstName(a)
    ensures Names(a + "/" + c) == Names(a) + Names(c)
    decreases |a|, 0
  {
    hide Names, SkipSlashes, FirstName;
    var n := |FirstName(a)|;
    assert a + ("/" + c) == a + "/" + c;
    NamesOfFirst(a);
    NamesOfFirst(a + "/" + c);
    assert (a + "/" + c)[n..] == a[n..] + "/" + c;
    NamesOfTwo(a[n..], c);
  }

  lemma {:induction false} FirstNameIn(a: string, c: string)
    requires c != "" && c[0] == '/'
    ensures FirstName(a + c) == FirstName(a)
  {
    if a == "" {
      assert a + c == c;
    } else if a[0] != '/' {
      assert (a + c)[1..] == a[1..] + c;
      FirstNameIn(a[1..], c);
    }
  }

  /** A string without the separators at its end. */
  function Trimmed(s: string): (r: string)
    ensures |r| <= |s| && (r != "" ==> r[|r| - 1] != '/')
  {
    if s != "" && s[|s| - 1] == '/' then Trimmed(s[..|s| - 1]) else s
  }

  lemma {:induction false} TrimmedNames(s: string)
    ensures Names(Trimmed(s)) == Names(s)
  {
    if s != "" && s[|s| - 1] == '/' {
      var t := s[..|s| - 1];
      TrimmedNames(t);
      NamesOfTwo(t, "");
      NoNames();
      assert s == t + "/" + "";
      assert Names(t) + [] == Names(t);
    }
  }

  /** The string is this part, or ends with it behind a separator. */
  predicate EndsIn(s: string, c: string) {
    s == c || (|s| > |c| && s[|s| - |c|..] == c && s[|s| - |c| - 1] == '/')
  }

  lemma NamesOfPart(c: string)
    requires IsPart(c) && c != ""
    ensures Names(c) == [c]
  {
    FirstNameOf(c, "");
    assert c + "" == c && c[|c|..] == "";
    NamesOfFirst(c);
    NoNames();
  }

  /** The part of a string behind its last separator. */
  function LastPart(s: string): (c: string)
    ensures '/' !in c && EndsIn(s, c)
  {
    if s == "" || s[|s| - 1] == '/' then ""
    else
      var c := LastPart(s[..|s| - 1]);
      assert s == s[..|s| - 1] + [s[|s| - 1]];
      c + [s[|s| - 1]]
  }

  lemma SlashInside(s: string, c: string, d: string)
    requires EndsIn(s, c) && EndsIn(s, d) && |c| < |d|
    ensures '/' in d
  {
    assert d[|d| - |c| - 1] == s[|s| - |c| - 1];
  }

  lemma OneEnd(s: string, c: string, d: string)
    requires EndsIn(s, c) && EndsIn(s, d) && '/' !in c && '/' !in d
    ensures c == d
  {
    if |c| < |d| {
      SlashInside(s, c, d);
    } else if |d| < |c| {
      SlashInside(s, d, c);
    }
  }

  /** The last name of a string is the part with which it ends, separators at its end apart. */
  lemma LastName(s: string, c: string)
    requires '\0' !in s && Names(s) != [] && IsPart(c) && c != ""
    ensures Names(s)[|Names(s)| - 1] == c <==> EndsIn(Trimmed(s), c)
  {
    hide Names;
    var t := Trimmed(s);
    TrimmedNames(s);
    TrimmedChars(s);
    NoNames();
    assert t != "";
    var d := LastPart(t);
    assert d != "";
    NamesOfPart(d);
    if |d| < |t| {
      var a := t[..|t| - |d| - 1];
      assert t == a + "/" + d;
      NamesOfTwo(a, d);
    }
    assert Names(s)[|Names(s)| - 1] == d;
    if EndsIn(t, c) {
      OneEnd(t, c, d);
    }
  }

  lemma {:induction false} TrimmedChars(s: string)
    requires '\0' !in s
    ensures '\0' !in Trimmed(s) && '\0' !in LastPart(Trimmed(s))
  {
    if s != "" && s[|s| - 1] == '/' {
      TrimmedChars(s[..|s| - 1]);
    } else {
      LastPartChars(s);
    }
  }

  lemma {:induction false} LastPartChars(s: string)
    requires '\0' !in s
    ensures '\0' !in LastPart(s)
  {
    if s != "" && s[|s| - 1] != '/' {
      LastPartChars(s[..|s| - 1]);
    }
  }

  lemma JoinedName(p: Path, c: string)
    requires AreNames(p) && IsName(c)
    ensures Joined(Render(p), c) == Render(p + [c])
  {
    StrippedIsCat(p);
    CatConcat(p, [c]);
    assert Cat([c]) == "/" + c;
  }

  /** `pop_component` */
  method PopComponent(path: string) returns (r: string)
    requires path != "" && path[0] == '/'
    ensures forall p :: AreNames(p) && path == Render(p) ==> r == Render(if p == [] then [] else p[..|p| - 1])
  {
    var offset := |path| - 1;
    if offset == 0 {
      r := path;
      forall p | AreNames(p) && path == Render(p) ensures p == [] {
        CatShape(p);
      }
      return;
    }
    while offset > 1 && path[offset] == '/'
      invariant 1 <= offset < |path|
      invariant forall i :: offset < i < |path| ==> path[i] == '/'
    {
      offset := offset - 1;
    }
    ghost var last := offset;
    while offset > 1 && path[offset] != '/'
      invariant 1 <= offset <= last
      invariant forall i :: offset < i <= last ==> path[i] != '/'
    {
      offset := offset - 1;
    }
    r := path[..offset];
    forall p | AreNames(p) && path == Render(p)
      ensures r == Render(if p == [] then [] else p[..|p| - 1])
    {
      PoppedName(path, p, last, offset);
    }
  }

  lemma PoppedName(path: string, p: Path, last: nat, offset: nat)
    requires AreNames(p) && path == Render(p) && |path| > 1 && path[0] == '/'
    requires 1 <= offset <= last < |path|
    requires forall i :: last < i < |path| ==> path[i] == '/'
    requires last > 1 ==> path[last] != '/'
    requires forall i :: offset < i <= last ==> path[i] != '/'
    requires offset > 1 ==> path[offset] == '/'
    ensures path[..offset] == Render(if p == [] then [] else p[..|p| - 1])
  {
    assert p != [];
    var q, c := p[..|p| - 1], p[|p| - 1];
    assert p == q + [c];
    CatConcat(q, [c]);
    assert Cat([c]) == "/" + c;
    CatShape(p);
    assert last == |path| - 1;
    assert path == Cat(q) + "/" + c;
    assert path[|Cat(q)|] == '/';
    forall i | |Cat(q)| < i < |path| ensures path[i] != '/' {
      assert path[i] == c[i - |Cat(q)| - 1] && c[i - |Cat(q)| - 1] in c;
    }
    if q != [] {
      CatShape(q);
      assert offset == |Cat(q)|;
    } else {
      assert offset == 1;
      assert path[..1] == "/";
    }
  }

  /** `substitute_path_prefix` */
  method SubstitutePathPrefix(path: string, oldLength: nat, newPrefix: string) returns (status: Status, r: string)
    requires path != "" && 0 < oldLength <= |path| && newPrefix != "" && !(oldLength == 1 && |newPrefix| == 1)
    ensures (status, r) == Substituted(path, oldLength, newPrefix)
  {
    var newLength;
    if |newPrefix| == 1 {
      newLength := |path| - oldLength;
      if newLength != 0 {
        return Done, path[oldLength..];
      } else {
        return Done, "/";
      }
    } else if oldLength == 1 {
      newLength := |newPrefix| + |path|;
      if newLength >= PATH_MAX {
        return NameTooLong, path;
      }
      if |path| > 1 {
        return Done, newPrefix + path;
      } else {
        return Done, newPrefix;
      }
    } else {
      newLength := |path| - oldLength + |newPrefix|;
      if newLength >= PATH_MAX {
        return NameTooLong, path;
      }
      return Done, newPrefix + path[oldLength..];
    }
  }

  function Substituted(path: string, oldLength: nat, newPrefix: string): (Status, string)
    requires path != "" && 0 < oldLength <= |path| && newPrefix != ""
  {
    if |newPrefix| == 1 then (Done, if oldLength < |path| then path[oldLength..] else "/")
    else if oldLength == 1 then
      if |newPrefix| + |path| >= PATH_MAX then (NameTooLong, path)
      else (Done, if |path| > 1 then newPrefix + path else newPrefix)
    else if |path| - oldLength + |newPrefix| >= PATH_MAX then (NameTooLong, path)
    else (Done, newPrefix + path[oldLength..])
  }

  /** It replaces one list of names by another in front of a path, "/" included; when the result would be
      too long the path stays as it was. */
  lemma SubstituteMeaning(old_: Path, rest: Path, new_: Path)
    requires AreNames(old_) && AreNames(rest) && AreNames(new_) && (old_ != [] || new_ != [])
    ensures |Render(old_)| <= |Render(old_ + rest)|
    ensures var (status, r) := Substituted(Render(old_ + rest), |Render(old_)|, Render(new_));
            r == Render(if status == Done then new_ + rest else old_ + rest)
    ensures var (status, r) := Substituted(Render(old_ + rest), |Render(old_)|, Render(new_));
            status == Done <==> new_ == [] || |Cat(new_ + rest)| + (if old_ + rest == [] then 1 else 0) < PATH_MAX
  {
    CatConcat(old_, rest);
    CatConcat(new_, rest);
    CatShape(new_);
    CatShape(old_);
    assert old_ == [] ==> old_ + rest == rest;
    assert new_ == [] ==> new_ + rest == rest;
    assert rest == [] ==> new_ + rest == new_ && old_ + rest == old_;
  }

  /** `chop_finality` */
  method ChopFinality(path: string) returns (r: string)
    requires |path| > 0 && (path[|path| - 1] == '.' ==> |path| >= 2)
    ensures r == Chopped(path)
  {
    r := path;
    var length := |r|;
    if r[length - 1] == '.' {
      if length == 2 {
        r := r[..length - 1];
      } else {
        r := r[..length - 2];
      }
    } else if r[length - 1] == '/' {
      if length > 1 {
        r := r[..length - 1];
      }
    }
  }

  function Chopped(path: string): string
    requires |path| > 0 && (path[|path| - 1] == '.' ==> |path| >= 2)
  {
    var n := |path|;
    if path[n - 1] == '.' then path[..if n == 2 then 1 else n - 2]
    else if path[n - 1] == '/' && n > 1 then path[..n - 1]
    else path
  }

  /** What a canonicalized path may end with. */
  datatype Suffix = NoSuffix | Slash | Dot

  function WithSuffix(p: Path, s: Suffix): (r: string)
    ensures r != ""
  {
    match s
    case NoSuffix => Render(p)
    case Slash => if p == [] then "/" else Render(p) + "/"
    case Dot => if p == [] then "/." else Render(p) + "/."
  }

  /** Chopping gives the bare path back, unless there is no suffix and the last name ends in a dot. */
  lemma ChopMeaning(p: Path, s: Suffix)
    requires IsCanonical(p)
    ensures var path := WithSuffix(p, s); path[|path| - 1] == '.' ==> |path| >= 2
    ensures Chopped(WithSuffix(p, s)) == Render(p) <==>
            !(s == NoSuffix && p != [] && p[|p| - 1][|p[|p| - 1]| - 1] == '.')
  {
    CatShape(p);
    match s
    case NoSuffix =>
      if p != [] {
        LastOfCat(p);
      }
    case Slash => CutSuffix(Render(p), "/");
    case Dot => CutSuffix(Render(p), "/.");
  }

  lemma {:induction false} LastOfCat(p: Path)
    requires p != [] && p[|p| - 1] != ""
    ensures |Cat(p)| > 1 && Cat(p)[|Cat(p)| - 1] == p[|p| - 1][|p[|p| - 1]| - 1]
  {
    if |p| == 1 {
      assert Cat(p) == "/" + p[0];
    } else {
      LastOfCat(p[1..]);
    }
  }

  lemma CutSuffix(s: string, t: string)
    ensures (s + t)[..|s|] == s
  {
  }

  lemma NamesOfSuffix(p: Path, s: Suffix)
    requires AreNames(p)
    ensures Names(WithSuffix(p, s)) == if s == Dot then p + ["."] else p
  {
    NamesOfRender(p);
    match s
    case NoSuffix =>
    case Slash =>
      if p != [] {
        NamesOfCatSlash(p);
      }
    case Dot =>
      CatConcat(p, ["."]);
      assert Cat(["."]) == "/.";
      assert WithSuffix(p, s) == Cat(p + ["."]);
      NamesOfCat(p + ["."]);
  }

  lemma NamesOfCatSlash(p: Path)
    requires AreNames(p) && p != []
    ensures Names(Cat(p) + "/") == p
  {
    NamesOfCat(p);
    NamesOfTwo(Cat(p), "");
    NoNames();
    assert Cat(p) + "/" + "" == Cat(p) + "/";
    assert p + [] == p;
  }

  // ----- strings that are canonical

  /** The string for a canonical path. */
  ghost predicate IsText(s: string, p: Path) {
    IsCanonical(p) && s == Render(p)
  }

  lemma CanonicalNames(p: Path)
    requires IsCanonical(p)
    ensures AreNames(p) && Names(Render(p)) == p
  {
    NamesOfRender(p);
  }

  lemma TextChars(s: string, p: Path)
    requires IsText(s, p)
    ensures s != "" && s[0] == '/' && (|s| > 1 <==> p != []) && '\0' !in s
  {
    CanonicalNames(p);
    CatShape(p);
    NoEnd(p);
  }

  /** "Starts with this path and goes on with a separator" means "lies under it". */
  lemma UnderRoot(s: string, root: string, g: Path, r: Path)
    requires IsText(s, g) && IsText(root, r)
    ensures s != "" && root != ""
    ensures r != [] ==>
              (|root| < |s| && s[..|root|] == root && s[|root|] == '/' <==> r < g)
    ensures r == [] ==> root == "/" && !(|s| > 1 && s[1] == '/')
    ensures r != [] && r < g ==> IsText(s[|root|..], g[|r|..])
    ensures r != [] && r <= g <==> r != [] && |root| <= |s| && s[..|root|] == root && (|root| == |s| || s[|root|] == '/')
  {
    CanonicalNames(g);
    CanonicalNames(r);
    CatPrefix(r, g);
    CatShape(g);
    if r != [] && r <= g {
      var rest := g[|r|..];
      assert g == r + rest;
      CatConcat(r, rest);
      if r < g {
        assert s[|root|..] == Cat(rest);
      }
    }
  }
}
