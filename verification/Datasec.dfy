/** Struct definitions for data sections: explicit padding that is right for every target. */
module Datasec {
  import opened Bits

  /** A variable of a section; `declares` tells whether its declaration can be emitted. */
  datatype Var = Var(isStatic: bool, offset: nat, size: nat, align: int, declares: bool)

  /** A line of the struct: a character array that is named after its number, or the declaration of variable `i`. */
  datatype Field = Pad(number: nat, length: nat) | Decl(i: nat)

  datatype Error = OffsetPassed | NoAlignment | NoDeclaration
  datatype Result<T> = Ok(value: T) | Err(error: Error)

  function RoundUp(off: nat, align: nat): nat
    requires align > 0
  {
    (off + align - 1) / align * align
  }

  /** Alignment as on 32-bit architectures. */
  function Capped(align: int): int { if align > 4 then 4 else align }

  /** The lines for a variable at `need` when `off` bytes come before them. */
  function Lines(i: nat, need: nat, align: nat, off: nat, pads: nat): seq<Field>
    requires align > 0 && off <= need
  {
    LinesIf(RoundUp(off, align) != need, i, need - off, pads)
  }

  function LinesIf(padded: bool, i: nat, gap: nat, pads: nat): seq<Field> {
    (if padded then [Pad(pads, gap)] else []) + [Decl(i)]
  }

  function Then(front: seq<Field>, rest: Result<seq<Field>>): Result<seq<Field>> {
    if rest.Err? then rest else Ok(front + rest.value)
  }

  /** What is emitted for the variables from `i` on, with `pads` pads and `off` bytes before them. */
  function Fields(vars: seq<Var>, i: nat, off: nat, pads: nat): Result<seq<Field>>
    requires i <= |vars|
    decreases |vars| - i
  {
    if i == |vars| then Ok([])
    else
      var v := vars[i];
      if v.isStatic then Fields(vars, i + 1, off, pads)
      else if off > v.offset then Err(OffsetPassed)
      else if v.align <= 0 then Err(NoAlignment)
      else if !v.declares then Err(NoDeclaration)
      else
        var lines := Lines(i, v.offset, Capped(v.align), off, pads);
        Then(lines, Fields(vars, i + 1, v.offset + v.size, pads + |lines| - 1))
  }

  lemma ThenThen(a: seq<Field>, b: seq<Field>, r: Result<seq<Field>>)
    ensures Then(a, Then(b, r)) == Then(a + b, r)
  {
    if r.Ok? {
      assert a + (b + r.value) == (a + b) + r.value;
    }
  }

  /** One round of the loop for a variable that is not static. */
  lemma Next(vars: seq<Var>, i: nat, off: nat, pads: nat, out: seq<Field>)
    requires i < |vars| && !vars[i].isStatic && off <= vars[i].offset && vars[i].align > 0
    ensures
      var v := vars[i];
      var lines := Lines(i, v.offset, Capped(v.align), off, pads);
      Then(out, Fields(vars, i, off, pads)) ==
      if v.declares then Then(out + lines, Fields(vars, i + 1, v.offset + v.size, pads + |lines| - 1))
      else Err(NoDeclaration)
  {
    var v := vars[i];
    var lines := Lines(i, v.offset, Capped(v.align), off, pads);
    ThenThen(out, lines, Fields(vars, i + 1, v.offset + v.size, pads + |lines| - 1));
  }

  method CodegenDatasecDef(vars: seq<Var>) returns (r: Result<seq<Field>>)
    ensures r == Fields(vars, 0, 0, 0)
  {
    var off: nat, padCnt: nat, out: seq<Field> := 0, 0, [];
    var i: nat := 0;
    ThenNothing(Fields(vars, 0, 0, 0));
    while i < |vars|
      invariant 0 <= i <= |vars|
      invariant Then(out, Fields(vars, i, off, padCnt)) == Fields(vars, 0, 0, 0)
    {
      var v := vars[i];
      if v.isStatic {
        i := i + 1;
        continue;
      }
      if off > v.offset {
        return Err(OffsetPassed);
      }
      if v.align <= 0 {
        return Err(NoAlignment);
      }
      var align: nat := v.align;
      if align > 4 {
        align := 4;
      }
      ghost var before, lines := out, Lines(i, v.offset, align, off, padCnt);
      Next(vars, i, off, padCnt, out);
      var alignOff := (off + align - 1) / align * align;
      if alignOff != v.offset {
        out := out + [Pad(padCnt, v.offset - off)];
        padCnt := padCnt + 1;
      }
      if !v.declares {
        return Err(NoDeclaration);
      }
      out := out + [Decl(i)];
      assert out == before + lines;
      off := v.offset + v.size;
      i := i + 1;
    }
    assert out + [] == out;
    r := Ok(out);
  }

  lemma ThenNothing(r: Result<seq<Field>>)
    ensures Then([], r) == r
  {
    if r.Ok? {
      assert [] + r.value == r.value;
    }
  }

  // ---------------------------------------------------------------- which sections succeed

  /** Where the last variable before `i` that is not static ends. */
  function PrevEnd(vars: seq<Var>, i: nat): nat
    requires i <= |vars|
  {
    if i == 0 then 0
    else if vars[i - 1].isStatic then PrevEnd(vars, i - 1)
    else vars[i - 1].offset + vars[i - 1].size
  }

  /** Static variables are left out; others must not overlap, and need an alignment and a declaration. */
  predicate Fine(vars: seq<Var>, i: nat)
    requires i < |vars|
  {
    vars[i].isStatic || (PrevEnd(vars, i) <= vars[i].offset && vars[i].align > 0 && vars[i].declares)
  }

  /** The struct is emitted exactly when all variables are fine. */
  lemma {:induction false} FieldsIff(vars: seq<Var>, i: nat, pads: nat)
    requires i <= |vars|
    ensures Fields(vars, i, PrevEnd(vars, i), pads).Ok? <==> forall j :: i <= j < |vars| ==> Fine(vars, j)
    decreases |vars| - i
  {
    if i < |vars| {
      var v := vars[i];
      if v.isStatic {
        FieldsIff(vars, i + 1, pads);
      } else if Fine(vars, i) {
        FieldsIff(vars, i + 1, pads + |Lines(i, v.offset, Capped(v.align), PrevEnd(vars, i), pads)| - 1);
      }
    }
  }

  /** Otherwise the first variable that is not fine decides about the error; overlaps are noticed first. */
  lemma {:induction false} FieldsFail(vars: seq<Var>, i: nat, pads: nat, k: nat)
    requires i <= k < |vars| && !Fine(vars, k) && forall j :: i <= j < k ==> Fine(vars, j)
    ensures Fields(vars, i, PrevEnd(vars, i), pads) ==
      Err(if PrevEnd(vars, k) > vars[k].offset then OffsetPassed
          else if vars[k].align <= 0 then NoAlignment else NoDeclaration)
    decreases k - i
  {
    if i < k {
      var v := vars[i];
      assert Fine(vars, i);
      if v.isStatic {
        FieldsFail(vars, i + 1, pads, k);
      } else {
        FieldsFail(vars, i + 1, pads + |Lines(i, v.offset, Capped(v.align), PrevEnd(vars, i), pads)| - 1, k);
      }
    }
  }

  /** The next multiple of a 32-bit alignment behind the previous variable is somewhere else. */
  predicate Gap(vars: seq<Var>, i: nat)
    requires i < |vars|
  {
    var align := if vars[i].align > 4 then 4 else vars[i].align;
    align > 0 && (vars[i].offset % align != 0 || vars[i].offset - PrevEnd(vars, i) >= align)
  }

  lemma GapIff(off: nat, need: nat, align: nat)
    requires align > 0 && off <= need
    ensures RoundUp(off, align) != need <==> need % align != 0 || need - off >= align
  {
    var there := RoundUp(off, align);
    RoundUpMultiple(off, align);
    if need % align == 0 && need - off < align {
      if there < need {
        MultiplesApart(there, need, align);
      } else if need < there {
        MultiplesApart(need, there, align);
      }
    }
  }

  /** Each variable that is not static is declared, behind a pad of the right length exactly where there is a gap. */
  lemma {:induction false} DeclaredAt(vars: seq<Var>, i: nat, pads: nat, j: nat) returns (k: nat)
    requires i <= j < |vars| && !vars[j].isStatic && Fields(vars, i, PrevEnd(vars, i), pads).Ok?
    ensures var fields := Fields(vars, i, PrevEnd(vars, i), pads).value;
      && k < |fields| && fields[k] == Decl(j)
      && (k > 0 && fields[k - 1].Pad? <==> Gap(vars, j))
      && (Gap(vars, j) ==> fields[k - 1].length == vars[j].offset - PrevEnd(vars, j))
    decreases j - i
  {
    var v := vars[i];
    if v.isStatic {
      k := DeclaredAt(vars, i + 1, pads, j);
    } else {
      var lines := Lines(i, v.offset, Capped(v.align), PrevEnd(vars, i), pads);
      if i == j {
        GapIff(PrevEnd(vars, i), v.offset, Capped(v.align));
        k := |lines| - 1;
      } else {
        var k' := DeclaredAt(vars, i + 1, pads + |lines| - 1, j);
        k := |lines| + k';
      }
    }
  }

  /** Pads are numbered from `n` on, so no two of them have the same name. */
  ghost predicate Numbered(fields: seq<Field>, n: nat) {
    fields != [] ==>
      if fields[0].Pad? then fields[0].number == n && Numbered(fields[1..], n + 1) else Numbered(fields[1..], n)
  }

  lemma {:induction false} PadsNumbered(vars: seq<Var>, i: nat, off: nat, pads: nat)
    requires i <= |vars| && Fields(vars, i, off, pads).Ok?
    ensures Numbered(Fields(vars, i, off, pads).value, pads)
    decreases |vars| - i
  {
    if i < |vars| {
      var v := vars[i];
      if v.isStatic {
        PadsNumbered(vars, i + 1, off, pads);
      } else {
        var lines := Lines(i, v.offset, Capped(v.align), off, pads);
        PadsNumbered(vars, i + 1, v.offset + v.size, pads + |lines| - 1);
        var rest := Fields(vars, i + 1, v.offset + v.size, pads + |lines| - 1).value;
        assert (lines + rest)[|lines|..] == rest;
        assert (lines + rest)[1..] == lines[1..] + rest;
        assert |lines| == 2 ==> (lines[1..] + rest)[1..] == rest;
      }
    }
  }

  // ---------------------------------------------------------------- layout by a C compiler

  /** The variables and their offsets in a struct, on a target where variable `i` has alignment `at[i]`. */
  function Layout(vars: seq<Var>, at: seq<nat>, fields: seq<Field>, pos: nat): seq<(nat, nat)>
    requires |at| == |vars| && forall k :: 0 <= k < |fields| ==> DeclOf(vars, at, fields[k])
  {
    if fields == [] then []
    else
      assert DeclOf(vars, at, fields[0]);
      match fields[0]
      case Pad(_, length) => Layout(vars, at, fields[1..], pos + length)
      case Decl(i) =>
        var offset := RoundUp(pos, at[i]);
        [(i, offset)] + Layout(vars, at, fields[1..], offset + vars[i].size)
  }

  predicate DeclOf(vars: seq<Var>, at: seq<nat>, f: Field)
    requires |at| == |vars|
  {
    f.Decl? ==> f.i < |vars| && at[f.i] > 0
  }

  /** The variables that are not static and their recorded offsets. */
  function Recorded(vars: seq<Var>, i: nat): seq<(nat, nat)>
    requires i <= |vars|
    decreases |vars| - i
  {
    if i == |vars| then [] else (if vars[i].isStatic then [] else [(i, vars[i].offset)]) + Recorded(vars, i + 1)
  }

  /** On the target, alignments are multiples of what the padding is computed with. */
  ghost predicate Suits(vars: seq<Var>, at: seq<nat>) {
    |at| == |vars| && forall i :: 0 <= i < |vars| && vars[i].align > 0 ==>
        at[i] > 0 && at[i] % Capped(vars[i].align) == 0
  }

  /** From `i` on, the recorded offsets are possible on the target. */
  ghost predicate Aligned(vars: seq<Var>, at: seq<nat>, i: nat)
    requires |at| == |vars|
  {
    forall j :: i <= j < |vars| && !vars[j].isStatic && at[j] > 0 ==> vars[j].offset % at[j] == 0
  }

  lemma RoundUpMultiple(off: nat, align: nat)
    requires align > 0
    ensures RoundUp(off, align) % align == 0 && off <= RoundUp(off, align) < off + align
  {
    var q, r := (off + align - 1) / align, (off + align - 1) % align;
    assert off + align - 1 == q * align + r;
    MultipleMod(q, align);
  }

  lemma MultipleMod(q: nat, d: nat)
    requires d > 0
    ensures q * d % d == 0
  {
    DivModUnique(q * d, d, q, 0);
  }

  /** Multiples of `d` are at least `d` apart. */
  lemma MultiplesApart(a: nat, b: nat, d: nat)
    requires d > 0 && a % d == 0 && b % d == 0 && a < b
    ensures a + d <= b
  {
    var p, q := a / d, b / d;
    assert a == p * d && b == q * d;
    if p < q {
      MulLess(p, q, d);
    }
  }

  lemma MultipleOfMultiple(n: nat, d: nat, a: nat)
    requires a > 0 && d > 0 && d % a == 0 && n % d == 0
    ensures n % a == 0
  {
    var p, q := n / d, d / a;
    assert n == p * d && d == q * a;
    assert p * (q * a) == (p * q) * a;
    MultipleMod(p * q, a);
  }

  /** After the lines of a variable, the target puts it at `need` exactly when it can be there at all. */
  lemma PlacedIff(off: nat, need: nat, a: nat, at: nat)
    requires a > 0 && at > 0 && at % a == 0 && off <= need
    ensures RoundUp(if RoundUp(off, a) != need then need else off, at) == need <==> need % at == 0
  {
    var pos := if RoundUp(off, a) != need then need else off;
    RoundUpMultiple(pos, at);
    if need % at == 0 {
      var there := RoundUp(pos, at);
      if need < there {
        MultiplesApart(need, there, at);
      } else if there < need {
        RoundUpMultiple(off, a);
        MultipleOfMultiple(there, at, a);
        MultiplesApart(there, need, a) by {
          MultipleOfMultiple(need, at, a);
        }
      }
    }
  }

  lemma LayoutPad(vars: seq<Var>, at: seq<nat>, number: nat, length: nat, rest: seq<Field>, pos: nat)
    requires |at| == |vars| && forall k :: 0 <= k < |rest| ==> DeclOf(vars, at, rest[k])
    ensures Layout(vars, at, [Pad(number, length)] + rest, pos) == Layout(vars, at, rest, pos + length)
  {
    assert ([Pad(number, length)] + rest)[1..] == rest;
  }

  lemma LayoutDecl(vars: seq<Var>, at: seq<nat>, i: nat, rest: seq<Field>, pos: nat)
    requires |at| == |vars| && i < |vars| && at[i] > 0 && forall k :: 0 <= k < |rest| ==> DeclOf(vars, at, rest[k])
    ensures Layout(vars, at, [Decl(i)] + rest, pos) ==
      var offset := RoundUp(pos, at[i]);
      [(i, offset)] + Layout(vars, at, rest, offset + vars[i].size)
  {
    assert ([Decl(i)] + rest)[1..] == rest;
  }

  /** The lines of one variable, followed by others. */
  lemma LayoutLines(vars: seq<Var>, at: seq<nat>, padded: bool, i: nat, off: nat, gap: nat, pads: nat, rest: seq<Field>)
    requires |at| == |vars| && i < |vars| && at[i] > 0
    requires forall k :: 0 <= k < |rest| ==> DeclOf(vars, at, rest[k])
    ensures
      var offset := RoundUp(if padded then off + gap else off, at[i]);
      Layout(vars, at, LinesIf(padded, i, gap, pads) + rest, off) ==
      [(i, offset)] + Layout(vars, at, rest, offset + vars[i].size)
  {
    if padded {
      var decl := [Decl(i)] + rest;
      assert LinesIf(padded, i, gap, pads) + rest == [Pad(pads, gap)] + decl;
      assert forall k :: 0 <= k < |decl| ==> DeclOf(vars, at, decl[k]);
      LayoutPad(vars, at, pads, gap, decl, off);
      LayoutDecl(vars, at, i, rest, off + gap);
    } else {
      assert LinesIf(padded, i, gap, pads) == [Decl(i)];
      LayoutDecl(vars, at, i, rest, off);
    }
  }

  lemma {:induction false} DeclsOf(vars: seq<Var>, at: seq<nat>, i: nat, off: nat, pads: nat)
    requires i <= |vars| && Fields(vars, i, off, pads).Ok? && Suits(vars, at)
    ensures forall k :: 0 <= k < |Fields(vars, i, off, pads).value| ==>
      DeclOf(vars, at, Fields(vars, i, off, pads).value[k])
    decreases |vars| - i
  {
    if i < |vars| {
      var v := vars[i];
      if v.isStatic {
        DeclsOf(vars, at, i + 1, off, pads);
      } else {
        var lines := Lines(i, v.offset, Capped(v.align), off, pads);
        DeclsOf(vars, at, i + 1, v.offset + v.size, pads + |lines| - 1);
      }
    }
  }

  /**
   * A C compiler lays out all variables that are not static, in order, at their recorded offsets, exactly when
   * these offsets are multiples of the alignments on its target.
   */
  lemma {:induction false} LaidOutIff(vars: seq<Var>, at: seq<nat>, i: nat, off: nat, pads: nat)
    requires i <= |vars| && Fields(vars, i, off, pads).Ok? && Suits(vars, at)
    requires forall k :: 0 <= k < |Fields(vars, i, off, pads).value| ==>
      DeclOf(vars, at, Fields(vars, i, off, pads).value[k])
    ensures Layout(vars, at, Fields(vars, i, off, pads).value, off) == Recorded(vars, i) <==> Aligned(vars, at, i)
    decreases |vars| - i
  {
    if i < |vars| {
      var v := vars[i];
      if v.isStatic {
        LaidOutIff(vars, at, i + 1, off, pads);
        assert [] + Recorded(vars, i + 1) == Recorded(vars, i + 1);
      } else {
        var lines := Lines(i, v.offset, Capped(v.align), off, pads);
        var off', pads' := v.offset + v.size, pads + |lines| - 1;
        DeclsOf(vars, at, i + 1, off', pads');
        LaidOutIff(vars, at, i + 1, off', pads');
        LayoutLines(vars, at, RoundUp(off, Capped(v.align)) != v.offset, i, off, v.offset - off, pads,
                    Fields(vars, i + 1, off', pads').value);
        PlacedIff(off, v.offset, Capped(v.align), at[i]);
        AlignedNext(vars, at, i);
        SameHead(Layout(vars, at, Fields(vars, i, off, pads).value, off), Recorded(vars, i));
      }
    }
  }

  lemma AlignedNext(vars: seq<Var>, at: seq<nat>, i: nat)
    requires |at| == |vars| && i < |vars| && !vars[i].isStatic && at[i] > 0
    ensures Aligned(vars, at, i) <==> vars[i].offset % at[i] == 0 && Aligned(vars, at, i + 1)
  {
  }

  lemma SameHead(a: seq<(nat, nat)>, b: seq<(nat, nat)>)
    requires a != [] && b != []
    ensures a == b <==> a[0] == b[0] && a[1..] == b[1..]
  {
    assert a == [a[0]] + a[1..] && b == [b[0]] + b[1..];
  }

  // ---------------------------------------------------------------- targets

  ghost predicate IsPower(n: nat) { exists k: nat :: n == Pow2(k) }

  lemma PowerDivides(a: nat, b: nat)
    requires IsPower(a) && IsPower(b) && a <= b
    ensures b % a == 0
  {
    var j: nat :| a == Pow2(j);
    var k: nat :| b == Pow2(k);
    if j > k {
      Pow2Add(k, j - k);
      assert Pow2(j - k) == 2 * Pow2(j - k - 1) >= 2;
      MulLess(1, Pow2(j - k), Pow2(k));
    } else {
      Pow2Add(j, k - j);
      assert Pow2(j) * Pow2(k - j) == Pow2(k - j) * Pow2(j);
      MultipleMod(Pow2(k - j), a);
    }
  }

  /** Alignments are powers of two; those on the target are between 32-bit and the recorded ones. */
  ghost predicate IsTarget(vars: seq<Var>, at: seq<nat>) {
    && |at| == |vars|
    && forall i :: 0 <= i < |vars| && vars[i].align > 0 ==>
         IsPower(vars[i].align) && IsPower(at[i]) && Capped(vars[i].align) <= at[i] <= vars[i].align
  }

  lemma TargetSuits(vars: seq<Var>, at: seq<nat>, two: nat)
    requires IsTarget(vars, at) && two == 2
    ensures Suits(vars, at)
  {
    assert Pow2(two) == 2 * Pow2(two - 1) && Pow2(two - 1) == 2 * Pow2(two - 2);
    forall i | 0 <= i < |vars| && vars[i].align > 0 ensures at[i] > 0 && at[i] % Capped(vars[i].align) == 0 {
      PowerDivides(Capped(vars[i].align), at[i]);
    }
  }

  /** With offsets that are multiples of the recorded alignments, the struct is right on every such target. */
  lemma RightOnEveryTarget(vars: seq<Var>, at: seq<nat>)
    requires Fields(vars, 0, 0, 0).Ok? && IsTarget(vars, at)
    requires forall i :: 0 <= i < |vars| && !vars[i].isStatic && vars[i].align > 0 ==>
      vars[i].offset % vars[i].align == 0
    ensures forall k :: 0 <= k < |Fields(vars, 0, 0, 0).value| ==> DeclOf(vars, at, Fields(vars, 0, 0, 0).value[k])
    ensures Layout(vars, at, Fields(vars, 0, 0, 0).value, 0) == Recorded(vars, 0)
  {
    TargetSuits(vars, at, 2);
    DeclsOf(vars, at, 0, 0, 0);
    AllHaveAlignment(vars, 0, 0, 0);
    forall i | 0 <= i < |vars| && !vars[i].isStatic && at[i] > 0 ensures vars[i].offset % at[i] == 0 {
      PowerDivides(at[i], vars[i].align);
      MultipleOfMultiple(vars[i].offset, vars[i].align, at[i]);
    }
    LaidOutIff(vars, at, 0, 0, 0);
  }

  lemma {:induction false} AllHaveAlignment(vars: seq<Var>, i: nat, off: nat, pads: nat)
    requires i <= |vars| && Fields(vars, i, off, pads).Ok?
    ensures forall j :: i <= j < |vars| && !vars[j].isStatic ==> vars[j].align > 0
    decreases |vars| - i
  {
    if i < |vars| {
      var v := vars[i];
      if v.isStatic {
        AllHaveAlignment(vars, i + 1, off, pads);
      } else {
        var lines := Lines(i, v.offset, Capped(v.align), off, pads);
        AllHaveAlignment(vars, i + 1, v.offset + v.size, pads + |lines| - 1);
      }
    }
  }

  /** An offset that is no multiple of the alignment: the compiler moves the variable. */
  lemma MisalignedMoves()
    ensures
      var vars := [Var(false, 0, 1, 1, true), Var(false, 1, 4, 4, true)];
      && Fields(vars, 0, 0, 0) == Ok([Decl(0), Pad(0, 0), Decl(1)])
      && Layout(vars, [1, 4], [Decl(0), Pad(0, 0), Decl(1)], 0) == [(0, 0), (1, 4)]
  {
    var vars := [Var(false, 0, 1, 1, true), Var(false, 1, 4, 4, true)];
    assert Fields(vars, 2, 5, 1) == Ok([]);
    assert [Pad(0, 0), Decl(1)] + [] == [Pad(0, 0), Decl(1)];
    assert RoundUp(1, 4) == 4 && RoundUp(0, 1) == 0;
    assert Lines(1, 1, 4, 1, 0) == [Pad(0, 0), Decl(1)] && Lines(0, 0, 1, 0, 0) == [Decl(0)];
    assert Fields(vars, 1, 1, 0) == Then([Pad(0, 0), Decl(1)], Ok([])) == Ok([Pad(0, 0), Decl(1)]);
    assert Fields(vars, 0, 0, 0) == Then([Decl(0)], Ok([Pad(0, 0), Decl(1)]));
    assert [Decl(0)] + [Pad(0, 0), Decl(1)] == [Decl(0), Pad(0, 0), Decl(1)];
    LayoutDecl(vars, [1, 4], 1, [], 1);
    LayoutPad(vars, [1, 4], 0, 0, [Decl(1)], 1);
    LayoutDecl(vars, [1, 4], 0, [Pad(0, 0), Decl(1)], 0);
  }
}
