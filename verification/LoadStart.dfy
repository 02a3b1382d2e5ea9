/** The last statement of a load script: the auxiliary vector on the stack of the program is adjusted in place. */
module LoadStart {
  import opened Common
  import opened LoadImage

  const AT_NULL: nat := 0
  const AT_PHDR: nat := 3
  const AT_PHENT: nat := 4
  const AT_PHNUM: nat := 5
  const AT_BASE: nat := 7
  const AT_ENTRY: nat := 9
  const AT_EXECFN: nat := 31

  type Words = seq<nat>

  /** What the kernel puts on the stack: arguments, environment, and the entries of the auxiliary vector. */
  datatype Stack = Stack(argv: Words, envp: Words, auxv: seq<(nat, nat)>)

  ghost predicate IsStack(s: Stack) {
    && (forall i :: 0 <= i < |s.envp| ==> s.envp[i] != 0)
    && s.auxv != [] && forall i :: 0 <= i < |s.auxv| ==> s.auxv[i].0 != AT_NULL
  }

  function Pairs(auxv: seq<(nat, nat)>): (r: Words)
    ensures |r| == 2 * |auxv|
    ensures forall i :: 0 <= i < |auxv| ==> r[2 * i] == auxv[i].0 && r[2 * i + 1] == auxv[i].1
  {
    if auxv == [] then [] else Pairs(auxv[..|auxv| - 1]) + [auxv[|auxv| - 1].0, auxv[|auxv| - 1].1]
  }

  /** The words from the stack pointer up to the entry that ends the vector. */
  function Layout(s: Stack): (r: Words)
    ensures |r| == |s.argv| + |s.envp| + 2 * |s.auxv| + 4
  {
    [|s.argv|] + s.argv + [0] + s.envp + [0] + Pairs(s.auxv) + [AT_NULL]
  }

  /** Where the vector begins. */
  function Vector(s: Stack): nat {
    |s.argv| + |s.envp| + 3
  }

  lemma LayoutAt(s: Stack)
    ensures Layout(s)[0] == |s.argv| && Layout(s)[1] == (if s.argv == [] then 0 else s.argv[0])
    ensures forall i :: 0 <= i < |s.envp| ==> Layout(s)[|s.argv| + 2 + i] == s.envp[i]
    ensures Layout(s)[Vector(s) - 1] == 0 && Layout(s)[Vector(s) + 2 * |s.auxv|] == AT_NULL
    ensures forall i :: 0 <= i < |s.auxv| ==>
              Layout(s)[Vector(s) + 2 * i] == s.auxv[i].0 && Layout(s)[Vector(s) + 2 * i + 1] == s.auxv[i].1
  {
  }

  function NewValue(key: nat, value: nat, aux: Aux, execfn: nat): nat {
    if key == AT_PHDR then aux.phdr
    else if key == AT_PHENT then aux.phent
    else if key == AT_PHNUM then aux.phnum
    else if key == AT_ENTRY then aux.entry
    else if key == AT_BASE then aux.base
    else if key == AT_EXECFN then execfn
    else value
  }

  function Adjusted(auxv: seq<(nat, nat)>, aux: Aux, execfn: nat): (r: seq<(nat, nat)>)
    ensures |r| == |auxv|
  {
    seq(|auxv|, i requires 0 <= i < |auxv| => (auxv[i].0, NewValue(auxv[i].0, auxv[i].1, aux, execfn)))
  }

  /** The entries before `n` have been adjusted. */
  function AdjustedUpTo(auxv: seq<(nat, nat)>, n: nat, aux: Aux, execfn: nat): (r: seq<(nat, nat)>)
    requires n <= |auxv|
    ensures |r| == |auxv|
  {
    Adjusted(auxv[..n], aux, execfn) + auxv[n..]
  }

  /** Storing the value of one entry. */
  lemma OneEntry(s: Stack, i: nat, value: nat)
    requires i < |s.auxv|
    ensures Vector(s) + 2 * i + 1 < |Layout(s)|
    ensures Layout(s)[Vector(s) + 2 * i + 1 := value] == Layout(s.(auxv := s.auxv[i := (s.auxv[i].0, value)]))
  {
    var s' := s.(auxv := s.auxv[i := (s.auxv[i].0, value)]);
    var a, b := Layout(s)[Vector(s) + 2 * i + 1 := value], Layout(s');
    var front := [|s.argv|] + s.argv + [0] + s.envp + [0];
    assert Layout(s) == front + (Pairs(s.auxv) + [AT_NULL]) && b == front + (Pairs(s'.auxv) + [AT_NULL]);
    PairStored(s.auxv, i, value);
  }

  lemma PairStored(auxv: seq<(nat, nat)>, i: nat, value: nat)
    requires i < |auxv|
    ensures Pairs(auxv)[2 * i + 1 := value] == Pairs(auxv[i := (auxv[i].0, value)])
  {
    var a, b := Pairs(auxv)[2 * i + 1 := value], Pairs(auxv[i := (auxv[i].0, value)]);
    forall k | 0 <= k < |a| ensures a[k] == b[k] {
      assert k == 2 * (k / 2) || k == 2 * (k / 2) + 1;
      assert b[2 * (k / 2)] == auxv[k / 2].0;
    }
  }

  lemma OneMoreAdjusted(auxv: seq<(nat, nat)>, n: nat, aux: Aux, execfn: nat)
    requires n < |auxv|
    ensures AdjustedUpTo(auxv, n, aux, execfn)[n] == auxv[n]
    ensures AdjustedUpTo(auxv, n + 1, aux, execfn) ==
            AdjustedUpTo(auxv, n, aux, execfn)[n := (auxv[n].0, NewValue(auxv[n].0, auxv[n].1, aux, execfn))]
  {
  }

  lemma KeysKept(auxv: seq<(nat, nat)>, n: nat, aux: Aux, execfn: nat)
    requires n <= |auxv|
    ensures forall k :: 0 <= k < |auxv| ==> AdjustedUpTo(auxv, n, aux, execfn)[k].0 == auxv[k].0
  {
  }

  lemma EntryAt(s: Stack, i: nat)
    requires i < |s.auxv|
    ensures Vector(s) + 2 * i + 2 < |Layout(s)|
    ensures Layout(s)[Vector(s) + 2 * i] == s.auxv[i].0 && Layout(s)[Vector(s) + 2 * i + 1] == s.auxv[i].1
  {
    LayoutAt(s);
  }

  lemma NextKey(s: Stack, after: Stack, i: nat)
    requires IsStack(s) && i < |s.auxv| == |after.auxv| && Vector(after) == Vector(s)
    requires forall k :: i < k < |s.auxv| ==> after.auxv[k].0 == s.auxv[k].0
    ensures Vector(s) + 2 * i + 2 < |Layout(after)|
    ensures Layout(after)[Vector(s) + 2 * i + 2] == AT_NULL <==> i + 1 == |s.auxv|
  {
    LayoutAt(after);
    if i + 1 < |s.auxv| {
      EntryAt(after, i + 1);
    }
  }

  /** The part of the stack that has been adjusted up to entry `i`. */
  function StackAt(s: Stack, i: nat, aux: Aux, execfn: nat): Words
    requires i <= |s.auxv|
  {
    Layout(s.(auxv := AdjustedUpTo(s.auxv, i, aux, execfn)))
  }

  lemma EntryStep(s: Stack, i: nat, aux: Aux, execfn: nat)
    requires IsStack(s) && i < |s.auxv|
    ensures var c, now, after := Vector(s) + 2 * i, StackAt(s, i, aux, execfn), StackAt(s, i + 1, aux, execfn);
            && c + 2 < |now| && after == now[c + 1 := NewValue(now[c], now[c + 1], aux, execfn)]
            && (after[c + 2] == AT_NULL <==> i + 1 == |s.auxv|)
  {
    var now := s.(auxv := AdjustedUpTo(s.auxv, i, aux, execfn));
    var after := s.(auxv := AdjustedUpTo(s.auxv, i + 1, aux, execfn));
    OneMoreAdjusted(s.auxv, i, aux, execfn);
    KeysKept(s.auxv, i + 1, aux, execfn);
    hide Layout, Adjusted, AdjustedUpTo, NewValue;
    NextKey(s, after, i);
    hide IsStack;
    EntryAt(now, i);
    OneEntry(now, i, NewValue(s.auxv[i].0, s.auxv[i].1, aux, execfn));
  }

  lemma StackEnds(s: Stack, aux: Aux, execfn: nat)
    ensures StackAt(s, 0, aux, execfn) == Layout(s)
    ensures StackAt(s, |s.auxv|, aux, execfn) == Layout(s.(auxv := Adjusted(s.auxv, aux, execfn)))
  {
    assert AdjustedUpTo(s.auxv, 0, aux, execfn) == s.auxv;
    assert AdjustedUpTo(s.auxv, |s.auxv|, aux, execfn) == Adjusted(s.auxv, aux, execfn) by {
      assert s.auxv[..|s.auxv|] == s.auxv;
    }
  }

  /** Skip argc, the arguments and the environment. */
  method FindVector(stack: array<nat>, ghost s: Stack) returns (cursor: nat)
    requires IsStack(s) && stack[..] == Layout(s)
    ensures cursor == Vector(s)
  {
    LayoutAt(s);
    hide Layout;
    assert stack[0] == stack[..][0];
    var argc := stack[0];
    cursor := argc + 1;
    cursor := cursor + 1;
    EnvironmentEnds(s, cursor);
    assert stack[cursor] == stack[..][cursor];
    while stack[cursor] != 0
      invariant |s.argv| + 2 <= cursor < Vector(s) && (stack[cursor] == 0 <==> cursor == Vector(s) - 1)
      decreases Vector(s) - cursor
    {
      cursor := cursor + 1;
      EnvironmentEnds(s, cursor);
      assert stack[cursor] == stack[..][cursor];
    }
    cursor := cursor + 1;
  }

  lemma EnvironmentEnds(s: Stack, cursor: nat)
    requires IsStack(s) && |s.argv| + 2 <= cursor < Vector(s)
    ensures Layout(s)[cursor] == 0 <==> cursor == Vector(s) - 1
  {
    LayoutAt(s);
    if cursor < Vector(s) - 1 {
      assert Layout(s)[|s.argv| + 2 + (cursor - |s.argv| - 2)] == s.envp[cursor - |s.argv| - 2];
    }
  }

  /** The adjustment: arguments, environment, and the keys of the vector stay as they are. */
  method AdjustAuxv(stack: array<nat>, aux: Aux, ghost s: Stack)
    requires IsStack(s) && stack[..] == Layout(s)
    modifies stack
    ensures stack[..] == Layout(s.(auxv := Adjusted(s.auxv, aux, if s.argv == [] then 0 else s.argv[0])))
  {
    LayoutAt(s);
    assert stack[1] == stack[..][1];
    var atExecfn := stack[1];
    var cursor := FindVector(stack, s);
    StackEnds(s, aux, atExecfn);
    hide Layout, StackAt, Vector;
    cursor := AdjustOne(stack, cursor, aux, atExecfn, s, 0);
    ghost var i := 1;
    while stack[cursor] != AT_NULL
      invariant 1 <= i <= |s.auxv| && cursor == Vector(s) + 2 * i
      invariant stack[..] == StackAt(s, i, aux, atExecfn)
      invariant cursor < stack.Length && (stack[cursor] == AT_NULL <==> i == |s.auxv|)
      decreases |s.auxv| - i
    {
      cursor := AdjustOne(stack, cursor, aux, atExecfn, s, i);
      i := i + 1;
    }
  }

  /** One entry of the vector. */
  method AdjustOne(stack: array<nat>, cursor: nat, aux: Aux, atExecfn: nat, ghost s: Stack, ghost i: nat)
    returns (next: nat)
    requires IsStack(s) && i < |s.auxv| && cursor == Vector(s) + 2 * i && stack[..] == StackAt(s, i, aux, atExecfn)
    modifies stack
    ensures next == cursor + 2 < stack.Length && stack[..] == StackAt(s, i + 1, aux, atExecfn)
    ensures stack[next] == AT_NULL <==> i + 1 == |s.auxv|
  {
    hide StackAt, Vector, NewValue, IsStack;
    EntryStep(s, i, aux, atExecfn);
    assert stack[cursor] == stack[..][cursor] && stack[cursor + 1] == stack[..][cursor + 1];
    StoreValue(stack, cursor, aux, atExecfn);
    next := cursor + 2;
    assert stack[next] == stack[..][next];
  }

  method StoreValue(entries: array<nat>, cursor: nat, aux: Aux, atExecfn: nat)
    requires cursor + 1 < entries.Length
    modifies entries
    ensures entries[..] ==
            old(entries[..])[cursor + 1 := NewValue(old(entries[cursor]), old(entries[cursor + 1]), aux, atExecfn)]
  {
    if entries[cursor] == AT_PHDR {
      entries[cursor + 1] := aux.phdr;
    } else if entries[cursor] == AT_PHENT {
      entries[cursor + 1] := aux.phent;
    } else if entries[cursor] == AT_PHNUM {
      entries[cursor + 1] := aux.phnum;
    } else if entries[cursor] == AT_ENTRY {
      entries[cursor + 1] := aux.entry;
    } else if entries[cursor] == AT_BASE {
      entries[cursor + 1] := aux.base;
    } else if entries[cursor] == AT_EXECFN {
      entries[cursor + 1] := atExecfn;
    }
  }

  /** What a program finds for a key: the first entry with it. */
  function Lookup(auxv: seq<(nat, nat)>, key: nat): Option<nat> {
    if auxv == [] then None else if auxv[0].0 == key then Some(auxv[0].1) else Lookup(auxv[1..], key)
  }

  function Told(found: Option<nat>, value: nat): Option<nat> {
    if found.None? then None else Some(value)
  }

  /** The program finds its own headers, entry point and base, and its first argument as its name, wherever the
      kernel had an entry for them; everything else it finds as the kernel left it. */
  lemma {:induction false} ProgramIsTold(auxv: seq<(nat, nat)>, aux: Aux, execfn: nat)
    ensures var a := Adjusted(auxv, aux, execfn);
            && Lookup(a, 3) == Told(Lookup(auxv, 3), aux.phdr)
            && Lookup(a, 4) == Told(Lookup(auxv, 4), aux.phent)
            && Lookup(a, 5) == Told(Lookup(auxv, 5), aux.phnum)
            && Lookup(a, 9) == Told(Lookup(auxv, 9), aux.entry)
            && Lookup(a, 7) == Told(Lookup(auxv, 7), aux.base)
            && Lookup(a, 31) == Told(Lookup(auxv, 31), execfn)
            && forall key :: key !in {3, 4, 5, 7, 9, 31} ==> Lookup(a, key) == Lookup(auxv, key)
  {
    if auxv != [] {
      ProgramIsTold(auxv[1..], aux, execfn);
      assert Adjusted(auxv, aux, execfn)[1..] == Adjusted(auxv[1..], aux, execfn);
    }
  }
}
