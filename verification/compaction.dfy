/** The grid, the four compaction instructions and the running of an
    instruction string, as values; the properties the optimizer relies on. */
module Compaction {
  import opened Lines

  /** Rows of cells; `Rect` says they all have the same width. */
  type Grid<T> = seq<seq<Cell<T>>>

  function Width<T>(g: Grid<T>): nat
  {
    if |g| == 0 then 0 else |g[0]|
  }

  predicate Rect<T>(g: Grid<T>)
  {
    forall r :: 0 <= r < |g| ==> |g[r]| == Width(g)
  }

  /** Column `c` exists in every row. */
  predicate HasColumn<T>(g: Grid<T>, c: nat)
  {
    forall r :: 0 <= r < |g| ==> c < |g[r]|
  }

  /** Column `c`, read top to bottom. */
  function Column<T>(g: Grid<T>, c: nat): (col: seq<Cell<T>>)
    requires HasColumn(g, c)
    ensures |col| == |g| && forall r :: 0 <= r < |g| ==> col[r] == g[r][c]
  {
    seq(|g|, r requires 0 <= r < |g| => g[r][c])
  }

  /** The instruction characters the engine acts on. */
  predicate IsInstr(d: char)
  {
    d == 'L' || d == 'R' || d == 'U' || d == 'D'
  }

  /** `L` and `R` work on rows, `U` and `D` on columns. */
  predicate OnRows(d: char)
  {
    d == 'L' || d == 'R'
  }

  /** `R` and `D` pack toward the end of the line, `L` and `U` toward its start. */
  predicate ToEnd(d: char)
  {
    d == 'R' || d == 'D'
  }

  /** The fixed table of opposite instructions. */
  function Opposite(d: char): (o: char)
    requires IsInstr(d)
    ensures IsInstr(o) && o != d && OnRows(o) == OnRows(d) && ToEnd(o) != ToEnd(d)
  {
    match d
    case 'L' => 'R'
    case 'R' => 'L'
    case 'U' => 'D'
    case _ => 'U'
  }

  lemma OppositeInvolutive(d: char)
    requires IsInstr(d)
    ensures Opposite(Opposite(d)) == d
  {
  }

  /** Two instructions on one axis are the same instruction or opposites. */
  lemma SameAxis(x: char, y: char)
    requires IsInstr(x) && IsInstr(y) && OnRows(x) == OnRows(y)
    ensures y == x || y == Opposite(x)
  {
  }

  function PackRows<T>(g: Grid<T>, toEnd: bool): (h: Grid<T>)
    ensures |h| == |g| && forall r :: 0 <= r < |g| ==> h[r] == PackLine(g[r], toEnd)
    ensures Rect(g) ==> Rect(h) && Width(h) == Width(g)
  {
    seq(|g|, r requires 0 <= r < |g| => PackLine(g[r], toEnd))
  }

  function PackColumns<T>(g: Grid<T>, toEnd: bool): (h: Grid<T>)
    requires Rect(g)
    ensures |h| == |g| && Rect(h) && Width(h) == Width(g)
    ensures forall c :: 0 <= c < Width(g) ==> HasColumn(h, c) && Column(h, c) == PackLine(Column(g, c), toEnd)
  {
    var h := seq(|g|, r requires 0 <= r < |g| =>
               seq(Width(g), c requires 0 <= c < Width(g) => PackLine(Column(g, c), toEnd)[r]));
    assert forall c :: 0 <= c < Width(g) ==> Column(h, c) == PackLine(Column(g, c), toEnd);
    h
  }

  /** One instruction: every token slides as far as it can toward the edge the
      instruction names, within its row (`L`, `R`) or its column (`U`, `D`);
      any other character leaves the grid as it is. */
  function Compact<T>(g: Grid<T>, d: char): (h: Grid<T>)
    requires Rect(g)
    ensures Rect(h) && |h| == |g| && Width(h) == Width(g)
    ensures !IsInstr(d) ==> h == g
  {
    if OnRows(d) then PackRows(g, ToEnd(d))
    else if IsInstr(d) then PackColumns(g, ToEnd(d))
    else g
  }

  /** An instruction string, applied left to right. */
  function Run<T>(g: Grid<T>, s: string): (h: Grid<T>)
    requires Rect(g)
    ensures Rect(h) && |h| == |g| && Width(h) == Width(g)
    decreases |s|
  {
    if s == [] then g else Run(Compact(g, s[0]), s[1..])
  }

  lemma {:induction false} RunSnoc<T>(g: Grid<T>, s: string, d: char)
    requires Rect(g)
    ensures Run(g, s + [d]) == Compact(Run(g, s), d)
    decreases |s|
  {
    if s == [] {
      assert [] + [d] == [d];
    } else {
      assert (s + [d])[1..] == s[1..] + [d];
      RunSnoc(Compact(g, s[0]), s[1..], d);
    }
  }

  /** Running one more character of `s` compacts the grid reached so far. */
  lemma RunPrefixStep<T>(g: Grid<T>, s: string, i: nat)
    requires Rect(g) && i < |s|
    ensures Run(g, s[..i + 1]) == Compact(Run(g, s[..i]), s[i])
  {
    assert s[..i + 1] == s[..i] + [s[i]];
    RunSnoc(g, s[..i], s[i]);
  }

  /** Every line along the instruction's axis has no gap toward its edge. */
  predicate IsPacked<T>(g: Grid<T>, d: char)
    requires Rect(g) && IsInstr(d)
  {
    if OnRows(d) then forall r :: 0 <= r < |g| ==> Packed(g[r], ToEnd(d))
    else forall c :: 0 <= c < Width(g) ==> Packed(Column(g, c), ToEnd(d))
  }

  /** Order preservation: each line along the instruction's axis keeps its
      tokens in their order. */
  lemma CompactKeepsOrder<T>(g: Grid<T>, d: char)
    requires Rect(g) && IsInstr(d)
    ensures OnRows(d) ==> forall r :: 0 <= r < |g| ==> Tokens(Compact(g, d)[r]) == Tokens(g[r])
    ensures !OnRows(d) ==> forall c :: 0 <= c < Width(g) ==>
              Tokens(Column(Compact(g, d), c)) == Tokens(Column(g, c))
  {
    if OnRows(d) {
      forall r | 0 <= r < |g| ensures Tokens(Compact(g, d)[r]) == Tokens(g[r]) {
        PackKeepsTokens(g[r], ToEnd(d));
      }
    } else {
      forall c | 0 <= c < Width(g) ensures Tokens(Column(Compact(g, d), c)) == Tokens(Column(g, c)) {
        PackKeepsTokens(Column(g, c), ToEnd(d));
      }
    }
  }

  /** After an instruction the grid is packed toward that instruction's edge. */
  lemma CompactPacks<T>(g: Grid<T>, d: char)
    requires Rect(g) && IsInstr(d)
    ensures IsPacked(Compact(g, d), d)
  {
    var h := Compact(g, d);
    if OnRows(d) {
      forall r | 0 <= r < |h| ensures Packed(h[r], ToEnd(d)) {
        PackIsPacked(g[r], ToEnd(d));
      }
    } else {
      forall c | 0 <= c < Width(h) ensures Packed(Column(h, c), ToEnd(d)) {
        PackIsPacked(Column(g, c), ToEnd(d));
      }
    }
  }

  /** The result of an instruction is the one grid of the same shape whose
      lines along that axis keep their tokens in order and are packed. */
  lemma CompactIsUnique<T>(g: Grid<T>, h: Grid<T>, d: char)
    requires Rect(g) && Rect(h) && IsInstr(d) && |h| == |g| && Width(h) == Width(g)
    requires OnRows(d) ==> forall r :: 0 <= r < |g| ==> Tokens(h[r]) == Tokens(g[r])
    requires !OnRows(d) ==> forall c :: 0 <= c < Width(g) ==> Tokens(Column(h, c)) == Tokens(Column(g, c))
    requires IsPacked(h, d)
    ensures h == Compact(g, d)
  {
    var k := Compact(g, d);
    if OnRows(d) {
      forall r | 0 <= r < |g| ensures h[r] == k[r] {
        PackIsUnique(g[r], h[r], ToEnd(d));
      }
    } else {
      forall r | 0 <= r < |g| ensures h[r] == k[r] {
        forall c | 0 <= c < Width(g) ensures h[r][c] == k[r][c] {
          PackIsUnique(Column(g, c), Column(h, c), ToEnd(d));
          assert Column(h, c)[r] == h[r][c];
        }
      }
    }
  }

  /** An instruction does nothing to a grid already packed toward its edge. */
  lemma CompactFixesPacked<T>(g: Grid<T>, d: char)
    requires Rect(g) && IsInstr(d) && IsPacked(g, d)
    ensures Compact(g, d) == g
  {
    var h := Compact(g, d);
    if OnRows(d) {
      forall r | 0 <= r < |g| ensures h[r] == g[r] {
        PackedIsFixed(g[r], ToEnd(d));
      }
    } else {
      forall r | 0 <= r < |g| ensures h[r] == g[r] {
        forall c | 0 <= c < Width(g) ensures h[r][c] == g[r][c] {
          PackedIsFixed(Column(g, c), ToEnd(d));
          assert Column(h, c)[r] == h[r][c];
        }
      }
    }
  }

  /** Same-axis absorption: an instruction followed by itself or by its
      opposite leaves what the second instruction alone leaves. */
  lemma SameAxisAbsorbs<T>(g: Grid<T>, x: char, y: char)
    requires Rect(g) && IsInstr(x) && IsInstr(y) && OnRows(x) == OnRows(y)
    ensures Compact(Compact(g, x), y) == Compact(g, y)
  {
    var h := Compact(Compact(g, x), y);
    var k := Compact(g, y);
    if OnRows(x) {
      forall r | 0 <= r < |g| ensures h[r] == k[r] {
        PackAbsorbs(g[r], ToEnd(x), ToEnd(y));
      }
    } else {
      forall r | 0 <= r < |g| ensures h[r] == k[r] {
        forall c | 0 <= c < Width(g) ensures h[r][c] == k[r][c] {
          PackAbsorbs(Column(g, c), ToEnd(x), ToEnd(y));
          assert Column(h, c)[r] == h[r][c];
          assert Column(k, c)[r] == k[r][c];
        }
      }
    }
  }

  /** Packing the columns keeps every row packed toward the edge it was packed to. */
  lemma ColumnsKeepRowsPacked<T>(g: Grid<T>, rowsToEnd: bool, colsToEnd: bool)
    requires Rect(g) && forall r :: 0 <= r < |g| ==> Packed(g[r], rowsToEnd)
    ensures forall r :: 0 <= r < |g| ==> Packed(PackColumns(g, colsToEnd)[r], rowsToEnd)
  {
    var h: Grid<T> := PackColumns(g, colsToEnd);
    forall r, i, j | 0 <= r < |g| && 0 <= i < j < Width(g)
      ensures if rowsToEnd then (h[r][i].Tok? ==> h[r][j].Tok?) else (h[r][j].Tok? ==> h[r][i].Tok?)
    {
      var ci, cj := Column(g, i), Column(g, j);
      if rowsToEnd {
        FewerTokens(cj, ci);
      } else {
        FewerTokens(ci, cj);
      }
      PackOccupancy(ci, colsToEnd, r);
      PackOccupancy(cj, colsToEnd, r);
      assert Column(h, i)[r] == h[r][i] && Column(h, j)[r] == h[r][j];
    }
  }

  /** Packing the rows keeps every column packed toward the edge it was packed to. */
  lemma RowsKeepColumnsPacked<T>(g: Grid<T>, colsToEnd: bool, rowsToEnd: bool)
    requires Rect(g) && forall c :: 0 <= c < Width(g) ==> Packed(Column(g, c), colsToEnd)
    ensures forall c :: 0 <= c < Width(g) ==> Packed(Column(PackRows(g, rowsToEnd), c), colsToEnd)
  {
    var h: Grid<T> := PackRows(g, rowsToEnd);
    forall c, i, j | 0 <= c < Width(g) && 0 <= i < j < |g|
      ensures if colsToEnd then (h[i][c].Tok? ==> h[j][c].Tok?) else (h[j][c].Tok? ==> h[i][c].Tok?)
    {
      if colsToEnd {
        forall k | 0 <= k < Width(g) && g[i][k].Tok? ensures g[j][k].Tok? {
          assert Column(g, k)[i] == g[i][k] && Column(g, k)[j] == g[j][k];
        }
        FewerTokens(g[j], g[i]);
      } else {
        forall k | 0 <= k < Width(g) && g[j][k].Tok? ensures g[i][k].Tok? {
          assert Column(g, k)[i] == g[i][k] && Column(g, k)[j] == g[j][k];
        }
        FewerTokens(g[i], g[j]);
      }
      PackOccupancy(g[i], rowsToEnd, c);
      PackOccupancy(g[j], rowsToEnd, c);
    }
    forall c | 0 <= c < Width(g) ensures Packed(Column(h, c), colsToEnd) {
      var col := Column(h, c);
      assert forall i :: 0 <= i < |g| ==> col[i] == h[i][c];
    }
  }

  /** Perpendicular instructions keep packing: once a grid is packed toward
      one edge, instructions on the other axis leave it packed toward it. */
  lemma PerpendicularKeepsPacked<T>(g: Grid<T>, x: char, y: char)
    requires Rect(g) && IsInstr(x) && IsInstr(y) && OnRows(x) != OnRows(y)
    requires IsPacked(g, x)
    ensures IsPacked(Compact(g, y), x)
  {
    if OnRows(x) {
      ColumnsKeepRowsPacked(g, ToEnd(x), ToEnd(y));
    } else {
      RowsKeepColumnsPacked(g, ToEnd(x), ToEnd(y));
    }
  }
}
