/** The instruction-string optimizer: one left-to-right pass that drops
    redundant instructions, run twice. */
module Optimizer {
  import opened Compaction

  /** The `calledLast` flags of the instruction table, keyed by instruction. */
  type Flags = map<char, bool>

  predicate ValidFlags(cl: Flags)
  {
    forall d :: IsInstr(d) ==> d in cl
  }

  /** The table as a pass starts it: no instruction called yet. */
  const NoneCalled: Flags := map['L' := false, 'R' := false, 'U' := false, 'D' := false]

  /** The table is only defined for `L`, `R`, `U` and `D`. */
  predicate AllInstr(s: string)
  {
    forall i :: 0 <= i < |s| ==> IsInstr(s[i])
  }

  /** Rule 1: the next instruction is the same one or its opposite. */
  predicate Superseded(s: string)
    requires |s| > 0 && IsInstr(s[0])
  {
    |s| > 1 && (s[1] == s[0] || s[1] == Opposite(s[0]))
  }

  /** What one pass emits for the rest `s` of its input, with the flags `cl`
      it has reached. */
  function Pass(cl: Flags, s: string): (o: string)
    requires ValidFlags(cl) && AllInstr(s)
    ensures AllInstr(o) && |o| <= |s|
    decreases |s|
  {
    if s == [] then []
    else if Superseded(s) || cl[s[0]] then Pass(cl, s[1..])
    else [s[0]] + Pass(cl[s[0] := true][Opposite(s[0]) := false], s[1..])
  }

  /** The full optimizer: the pass applied to its own output. */
  function Optimize(s: string): (o: string)
    requires AllInstr(s)
    ensures AllInstr(o) && |o| <= |s|
  {
    Pass(NoneCalled, Pass(NoneCalled, s))
  }

  /** `a` is `b` with some instructions left out. */
  predicate IsSubsequence(a: string, b: string)
    decreases |b|
  {
    if b == [] then a == []
    else IsSubsequence(a, b[1..]) || (a != [] && a[0] == b[0] && IsSubsequence(a[1..], b[1..]))
  }

  lemma {:induction false} SubsequenceIsShorter(a: string, b: string)
    requires IsSubsequence(a, b)
    ensures |a| <= |b|
    decreases |b|
  {
    if b != [] {
      if IsSubsequence(a, b[1..]) {
        SubsequenceIsShorter(a, b[1..]);
      } else {
        SubsequenceIsShorter(a[1..], b[1..]);
      }
    }
  }

  lemma {:induction false} SubsequenceTransitive(a: string, b: string, c: string)
    requires IsSubsequence(a, b) && IsSubsequence(b, c)
    ensures IsSubsequence(a, c)
    decreases |c|
  {
    if c == [] {
    } else if IsSubsequence(b, c[1..]) {
      SubsequenceTransitive(a, b, c[1..]);
    } else if IsSubsequence(a, b[1..]) {
      SubsequenceTransitive(a, b[1..], c[1..]);
    } else {
      SubsequenceTransitive(a[1..], b[1..], c[1..]);
    }
  }

  /** A pass only drops instructions: its output is a subsequence of its input. */
  lemma {:induction false} PassIsSubsequence(cl: Flags, s: string)
    requires ValidFlags(cl) && AllInstr(s)
    ensures IsSubsequence(Pass(cl, s), s)
    decreases |s|
  {
    if s != [] {
      if Superseded(s) || cl[s[0]] {
        PassIsSubsequence(cl, s[1..]);
      } else {
        PassIsSubsequence(cl[s[0] := true][Opposite(s[0]) := false], s[1..]);
      }
    }
  }

  lemma OptimizeIsSubsequence(s: string)
    requires AllInstr(s)
    ensures IsSubsequence(Optimize(s), s) && |Optimize(s)| <= |s|
  {
    PassIsSubsequence(NoneCalled, s);
    PassIsSubsequence(NoneCalled, Pass(NoneCalled, s));
    SubsequenceTransitive(Optimize(s), Pass(NoneCalled, s), s);
    SubsequenceIsShorter(Optimize(s), s);
  }

  /** Every instruction whose flag is set has already been applied to `h`
      without its opposite since: `h` is packed toward that edge. */
  predicate PackedPerFlags<T>(h: Grid<T>, cl: Flags)
    requires Rect(h) && ValidFlags(cl)
  {
    forall d :: IsInstr(d) && cl[d] ==> IsPacked(h, d)
  }

  /** Applying an instruction sets its flag, clears its opposite's flag, and
      keeps the grid packed for every flag on the other axis. */
  lemma EmitKeepsFlags<T>(h: Grid<T>, cl: Flags, x: char)
    requires Rect(h) && ValidFlags(cl) && IsInstr(x) && PackedPerFlags(h, cl)
    ensures ValidFlags(cl[x := true][Opposite(x) := false])
    ensures PackedPerFlags(Compact(h, x), cl[x := true][Opposite(x) := false])
  {
    var cl' := cl[x := true][Opposite(x) := false];
    forall d | IsInstr(d) && cl'[d] ensures IsPacked(Compact(h, x), d) {
      if d == x {
        CompactPacks(h, x);
      } else {
        assert OnRows(d) != OnRows(x) by {
          if OnRows(d) == OnRows(x) {
            SameAxis(x, d);
          }
        }
        PerpendicularKeepsPacked(h, d, x);
      }
    }
  }

  /** A pass is sound: from any grid consistent with its flags, running what
      it emits gives the same grid as running its whole input. */
  lemma {:induction false} PassPreservesRun<T>(cl: Flags, s: string, h: Grid<T>)
    requires ValidFlags(cl) && AllInstr(s) && Rect(h) && PackedPerFlags(h, cl)
    ensures Run(h, Pass(cl, s)) == Run(h, s)
    decreases |s|
  {
    if s == [] {
      return;
    }
    var x, rest := s[0], s[1..];
    if Superseded(s) {
      // Rule 1: the next instruction absorbs this one.
      var y := rest[0];
      SameAxisAbsorbs(h, x, y);
      assert Run(h, s) == Run(h, rest);
      PassPreservesRun(cl, rest, h);
    } else if cl[x] {
      // Rule 2: the grid is already packed toward x.
      CompactFixesPacked(h, x);
      PassPreservesRun(cl, rest, h);
    } else {
      var cl' := cl[x := true][Opposite(x) := false];
      EmitKeepsFlags(h, cl, x);
      PassPreservesRun(cl', rest, Compact(h, x));
      assert ([x] + Pass(cl', rest))[1..] == Pass(cl', rest);
    }
  }

  lemma NoneCalledIsValid<T>(h: Grid<T>)
    requires Rect(h)
    ensures ValidFlags(NoneCalled) && PackedPerFlags(h, NoneCalled)
  {
  }

  /** Optimizer equivalence: for every grid, running the optimized string
      gives the same grid as running the original. */
  lemma OptimizePreservesRun<T>(s: string, g: Grid<T>)
    requires AllInstr(s) && Rect(g)
    ensures Run(g, Optimize(s)) == Run(g, s)
  {
    NoneCalledIsValid(g);
    PassPreservesRun(NoneCalled, Pass(NoneCalled, s), g);
    PassPreservesRun(NoneCalled, s, g);
  }

  /** Between two emissions of one instruction its opposite is emitted. */
  predicate OppositeBetween(o: string)
    requires AllInstr(o)
  {
    forall i, j :: 0 <= i < j < |o| ==> SeparatedPair(o, i, j)
  }

  predicate SeparatedPair(o: string, i: int, j: int)
    requires AllInstr(o) && 0 <= i < j < |o|
  {
    o[i] == o[j] ==> Opposite(o[i]) in o[i + 1..j]
  }

  /** An instruction whose flag is set is emitted again only after its opposite. */
  predicate RespectsFlags(cl: Flags, o: string)
    requires ValidFlags(cl) && AllInstr(o)
  {
    forall j :: 0 <= j < |o| ==> FlagRespected(cl, o, j)
  }

  predicate FlagRespected(cl: Flags, o: string, j: int)
    requires ValidFlags(cl) && AllInstr(o) && 0 <= j < |o|
  {
    cl[o[j]] ==> Opposite(o[j]) in o[..j]
  }

  /** Emitting `x` in front of output that respects the updated flags keeps
      every repeated instruction separated by its opposite. */
  lemma EmitKeepsOppositeBetween(cl: Flags, x: char, p: string)
    requires ValidFlags(cl) && IsInstr(x) && AllInstr(p)
    requires OppositeBetween(p) && RespectsFlags(cl[x := true][Opposite(x) := false], p)
    ensures OppositeBetween([x] + p)
  {
    var cl' := cl[x := true][Opposite(x) := false];
    var o := [x] + p;
    forall i, j | 0 <= i < j < |o|
      ensures SeparatedPair(o, i, j)
    {
      if o[i] == o[j] {
        if i == 0 {
          SeparatedFromFirst(cl', x, p, j - 1);
        } else {
          SeparatedInside(x, p, i - 1, j - 1);
        }
      }
    }
  }

  lemma SeparatedFromFirst(cl: Flags, x: char, p: string, j: int)
    requires ValidFlags(cl) && IsInstr(x) && AllInstr(p) && RespectsFlags(cl, p)
    requires cl[x] && 0 <= j < |p| && p[j] == x
    ensures Opposite(x) in ([x] + p)[1..j + 1]
  {
    assert FlagRespected(cl, p, j);
    assert ([x] + p)[1..j + 1] == p[..j];
  }

  lemma SeparatedInside(x: char, p: string, i: int, j: int)
    requires AllInstr(p) && OppositeBetween(p)
    requires 0 <= i < j < |p| && p[i] == p[j]
    ensures Opposite(p[i]) in ([x] + p)[i + 2..j + 1]
  {
    assert SeparatedPair(p, i, j);
    assert ([x] + p)[i + 2..j + 1] == p[i + 1..j];
  }

  /** Emitting `x` while its flag is clear respects the flags before the emission. */
  lemma EmitRespectsFlags(cl: Flags, x: char, p: string)
    requires ValidFlags(cl) && IsInstr(x) && AllInstr(p) && !cl[x]
    requires RespectsFlags(cl[x := true][Opposite(x) := false], p)
    ensures RespectsFlags(cl, [x] + p)
  {
    var cl' := cl[x := true][Opposite(x) := false];
    var o := [x] + p;
    forall j | 0 <= j < |o|
      ensures FlagRespected(cl, o, j)
    {
      var d := o[j];
      if cl[d] {
        assert j > 0 && p[j - 1] == d;
        if d == Opposite(x) {
          OppositeInvolutive(x);
          assert o[..j][0] == Opposite(d);
        } else {
          assert cl'[p[j - 1]] && FlagRespected(cl', p, j - 1);
          assert o[..j] == [x] + p[..j - 1];
        }
      }
    }
  }

  /** What one pass emits alternates on each axis. */
  lemma {:induction false} PassAlternates(cl: Flags, s: string)
    requires ValidFlags(cl) && AllInstr(s)
    ensures OppositeBetween(Pass(cl, s)) && RespectsFlags(cl, Pass(cl, s))
    decreases |s|
  {
    if s == [] {
      return;
    }
    var x, rest := s[0], s[1..];
    if Superseded(s) || cl[x] {
      PassAlternates(cl, rest);
    } else {
      var cl' := cl[x := true][Opposite(x) := false];
      PassAlternates(cl', rest);
      EmitKeepsOppositeBetween(cl, x, Pass(cl', rest));
      EmitRespectsFlags(cl, x, Pass(cl', rest));
    }
  }

  lemma PassOutputAlternates(s: string)
    requires AllInstr(s)
    ensures OppositeBetween(Pass(NoneCalled, s))
  {
    PassAlternates(NoneCalled, s);
  }

  /** One pass, as the source runs it: a loop over the string that keeps the
      `calledLast` flags and appends each instruction it cannot drop. */
  method OptimizeRun(s: string) returns (o: string)
    requires AllInstr(s)
    ensures o == Pass(NoneCalled, s)
  {
    o := "";
    var calledLast := NoneCalled;
    for i := 0 to |s|
      invariant ValidFlags(calledLast)
      invariant o + Pass(calledLast, s[i..]) == Pass(NoneCalled, s)
    {
      var cur := s[i];
      var opposite := Opposite(cur);
      assert s[i..][0] == cur && s[i..][1..] == s[i + 1..];
      if i + 1 != |s| && (s[i + 1] == cur || s[i + 1] == opposite) {
        continue;
      }
      if calledLast[cur] {
        continue;
      }
      calledLast := calledLast[cur := true][opposite := false];
      o := o + [cur];
    }
    assert s[|s|..] == [];
  }

  /** The optimizer as the source runs it: the pass over its own output. */
  method OptimizeInstructions(s: string) returns (o: string)
    requires AllInstr(s)
    ensures o == Optimize(s)
    ensures IsSubsequence(o, s) && |o| <= |s|
  {
    var once := OptimizeRun(s);
    o := OptimizeRun(once);
    OptimizeIsSubsequence(s);
  }

  /** Worked examples of the optimizer. */
  lemma OptimizeExamples()
    ensures Optimize("LR") == "R"
    ensures Optimize("LLRR") == "R"
    ensures Optimize("LU") == "LU"
  {
    var cl := NoneCalled['L' := true]['R' := false];
    assert Pass(cl, "U") == "U";
    assert Pass(NoneCalled, "LU") == "LU";
  }
}
