/** The compaction engine as the source runs it: each instruction fills a
    fresh all-empty buffer from a per-row or per-column counter. */
module Execution {
  import opened Lines
  import opened Compaction

  /** The grid an array holds, row by row. */
  ghost function Contents<T>(a: array2<Cell<T>>): (g: Grid<T>)
    reads a
    ensures |g| == a.Length0 && Rect(g)
    ensures forall r :: 0 <= r < a.Length0 ==> |g[r]| == a.Length1
    ensures forall r, c :: 0 <= r < a.Length0 && 0 <= c < a.Length1 ==> g[r][c] == a[r, c]
  {
    seq(a.Length0, r requires 0 <= r < a.Length0 reads a =>
      seq(a.Length1, c requires 0 <= c < a.Length1 reads a => a[r, c]))
  }

  /** Cell `i` of a line whose tokens `toks` are written from its start. */
  ghost function FilledFromStart<T>(toks: seq<Cell<T>>, i: int): Cell<T>
  {
    if 0 <= i < |toks| then toks[i] else Empty
  }

  /** Cell `i` of a line of length `len` whose tokens `toks` are written from its end. */
  ghost function FilledFromEnd<T>(toks: seq<Cell<T>>, len: int, i: int): Cell<T>
  {
    FilledFromStart(toks, i - (len - |toks|))
  }

  /** Writing one more token after the `|toks|` already written from the start. */
  lemma FilledFromStartPush<T>(toks: seq<Cell<T>>, x: Cell<T>, i: int)
    ensures FilledFromStart(toks + [x], i) == if i == |toks| then x else FilledFromStart(toks, i)
  {
  }

  /** Writing one more token before the `|toks|` already written from the end. */
  lemma FilledFromEndPush<T>(toks: seq<Cell<T>>, x: Cell<T>, len: int, i: int)
    ensures FilledFromEnd([x] + toks, len, i)
            == if i == len - 1 - |toks| then x else FilledFromEnd(toks, len, i)
  {
  }

  /** Cell `i` of a packed line, written as the buffers are filled. */
  lemma PackLineCell<T>(s: seq<Cell<T>>, i: int)
    requires 0 <= i < |s|
    ensures PackLine(s, false)[i] == FilledFromStart(Tokens(s), i)
    ensures PackLine(s, true)[i] == FilledFromEnd(Tokens(s), |s|, i)
  {
    var toks := Tokens(s);
    var pad: seq<Cell<T>> := Empties(|s| - |toks|);
    CellOfConcat(toks, pad, i);
    CellOfConcat(pad, toks, i);
  }

  /** Indexing into a concatenation. */
  lemma CellOfConcat<T>(a: seq<Cell<T>>, b: seq<Cell<T>>, i: int)
    requires 0 <= i < |a| + |b|
    ensures (a + b)[i] == if i < |a| then a[i] else b[i - |a|]
  {
  }

  /** A buffer whose every column holds that column's tokens written from
      the start (`U`) or from the end (`D`) is the compacted grid. */
  lemma ColumnsFilledAreCompact<T>(p: array2<Cell<T>>, g: Grid<T>, d: char)
    requires d == 'U' || d == 'D'
    requires |g| == p.Length0 && forall r :: 0 <= r < |g| ==> |g[r]| == p.Length1
    requires d == 'U' ==> forall r, c :: 0 <= r < p.Length0 && 0 <= c < p.Length1 ==>
               p[r, c] == FilledFromStart(TopTokens(g, c, p.Length0), r)
    requires d == 'D' ==> forall r, c :: 0 <= r < p.Length0 && 0 <= c < p.Length1 ==>
               p[r, c] == FilledFromEnd(BottomTokens(g, c, p.Length0), p.Length0, r)
    ensures Rect(g) && Contents(p) == Compact(g, d)
  {
    var h := Compact(g, d);
    forall r, c | 0 <= r < p.Length0 && 0 <= c < p.Length1 ensures p[r, c] == h[r][c] {
      assert Column(g, c)[..p.Length0] == Column(g, c);
      assert Column(g, c)[p.Length0 - p.Length0..] == Column(g, c);
      PackLineCell(Column(g, c), r);
      assert Column(h, c)[r] == h[r][c];
    }
    forall r | 0 <= r < p.Length0 ensures Contents(p)[r] == h[r] {
    }
  }

  /** A fresh `h` by `w` buffer of empty cells. */
  method CreateEmpty2DArr<T>(w: nat, h: nat) returns (a: array2<Cell<T>>)
    ensures fresh(a) && a.Length0 == h && a.Length1 == w
    ensures forall r, c :: 0 <= r < h && 0 <= c < w ==> a[r, c] == Empty
  {
    a := new Cell<T>[h, w];
    for i := 0 to h
      invariant forall r, c :: 0 <= r < i && 0 <= c < w ==> a[r, c] == Empty
    {
      for j := 0 to w
        invariant forall r, c :: 0 <= r < i && 0 <= c < w ==> a[r, c] == Empty
        invariant forall c :: 0 <= c < j ==> a[i, c] == Empty
      {
        a[i, j] := Empty;
      }
    }
  }

  /** A fresh array of `l` zero counters. */
  method CreateArrWithZeroes(l: nat) returns (a: array<int>)
    ensures fresh(a) && a.Length == l
    ensures forall i :: 0 <= i < l ==> a[i] == 0
  {
    a := new int[l];
    for i := 0 to l
      invariant forall k :: 0 <= k < i ==> a[k] == 0
    {
      a[i] := 0;
    }
  }

  /** The inner loop of case `L`: row `j` is scanned left to right and its
      tokens are written from the left end on. */
  method PlaceRowLeft<T>(arr: array2<Cell<T>>, ghost g: Grid<T>, j: nat,
                         countArr: array<int>, processArr: array2<Cell<T>>)
    requires g == Contents(arr) && processArr != arr
    requires j < arr.Length0 && countArr.Length == arr.Length0
    requires processArr.Length0 == arr.Length0 && processArr.Length1 == arr.Length1
    requires countArr[j] == 0 && forall c :: 0 <= c < arr.Length1 ==> processArr[j, c] == Empty
    modifies countArr, processArr
    ensures countArr[j] == |Tokens(g[j])| <= arr.Length1
    ensures forall c :: 0 <= c < arr.Length1 ==> processArr[j, c] == PackLine(g[j], false)[c]
    ensures forall r, c :: 0 <= r < arr.Length0 && r != j && 0 <= c < arr.Length1 ==>
              processArr[r, c] == old(processArr[r, c])
    ensures forall r :: 0 <= r < arr.Length0 && r != j ==> countArr[r] == old(countArr[r])
  {
    var width := arr.Length1;
    for k := 0 to width
      invariant countArr[j] == |Tokens(g[j][..k])|
      invariant forall c :: 0 <= c < width ==> processArr[j, c] == FilledFromStart(Tokens(g[j][..k]), c)
      invariant forall r, c :: 0 <= r < arr.Length0 && r != j && 0 <= c < width ==>
                  processArr[r, c] == old(processArr[r, c])
      invariant forall r :: 0 <= r < arr.Length0 && r != j ==> countArr[r] == old(countArr[r])
    {
      var item := arr[j, k];
      ghost var before := Tokens(g[j][..k]);
      assert g[j][..k + 1] == g[j][..k] + [item];
      TokensSnoc(g[j][..k], item);
      if item.Tok? {
        processArr[j, countArr[j]] := item;
        countArr[j] := countArr[j] + 1;
        forall c | 0 <= c < width ensures processArr[j, c] == FilledFromStart(Tokens(g[j][..k + 1]), c) {
          FilledFromStartPush(before, item, c);
        }
      }
    }
    assert g[j][..width] == g[j];
    forall c | 0 <= c < width ensures processArr[j, c] == PackLine(g[j], false)[c] {
      PackLineCell(g[j], c);
    }
  }

  /** Case `L`: each row's tokens are written from its left end on. */
  method ShiftLeft<T>(arr: array2<Cell<T>>) returns (processArr: array2<Cell<T>>)
    ensures processArr.Length0 == arr.Length0 && processArr.Length1 == arr.Length1
    ensures Contents(processArr) == Compact(Contents(arr), 'L')
  {
    var height, width := arr.Length0, arr.Length1;
    ghost var g := Contents(arr);
    var countArr := CreateArrWithZeroes(height);
    processArr := CreateEmpty2DArr(width, height);
    for j := 0 to height
      invariant forall r, c :: 0 <= r < j && 0 <= c < width ==> processArr[r, c] == PackLine(g[r], false)[c]
      invariant forall r, c :: j <= r < height && 0 <= c < width ==> processArr[r, c] == Empty
      invariant forall r :: j <= r < height ==> countArr[r] == 0
    {
      PlaceRowLeft(arr, g, j, countArr, processArr);
    }
    forall r | 0 <= r < height ensures Contents(processArr)[r] == Compact(g, 'L')[r] {
    }
  }

  /** The inner loop of case `R`: row `j` is scanned right to left and its
      tokens are written from the right end on. */
  method PlaceRowRight<T>(arr: array2<Cell<T>>, ghost g: Grid<T>, j: nat,
                          countArr: array<int>, processArr: array2<Cell<T>>)
    requires g == Contents(arr) && processArr != arr
    requires j < arr.Length0 && countArr.Length == arr.Length0
    requires processArr.Length0 == arr.Length0 && processArr.Length1 == arr.Length1
    requires countArr[j] == 0 && forall c :: 0 <= c < arr.Length1 ==> processArr[j, c] == Empty
    modifies countArr, processArr
    ensures countArr[j] == |Tokens(g[j])| <= arr.Length1
    ensures forall c :: 0 <= c < arr.Length1 ==> processArr[j, c] == PackLine(g[j], true)[c]
    ensures forall r, c :: 0 <= r < arr.Length0 && r != j && 0 <= c < arr.Length1 ==>
              processArr[r, c] == old(processArr[r, c])
    ensures forall r :: 0 <= r < arr.Length0 && r != j ==> countArr[r] == old(countArr[r])
  {
    var width := arr.Length1;
    for k := 0 to width
      invariant countArr[j] == |Tokens(g[j][width - k..])|
      invariant forall c :: 0 <= c < width ==>
                  processArr[j, c] == FilledFromEnd(Tokens(g[j][width - k..]), width, c)
      invariant forall r, c :: 0 <= r < arr.Length0 && r != j && 0 <= c < width ==>
                  processArr[r, c] == old(processArr[r, c])
      invariant forall r :: 0 <= r < arr.Length0 && r != j ==> countArr[r] == old(countArr[r])
    {
      var item := arr[j, width - 1 - k];
      ghost var before := Tokens(g[j][width - k..]);
      ghost var seen := g[j][width - 1 - k..];
      assert seen[0] == item && seen[1..] == g[j][width - k..];
      if item.Tok? {
        processArr[j, width - 1 - countArr[j]] := item;
        countArr[j] := countArr[j] + 1;
        forall c | 0 <= c < width ensures processArr[j, c] == FilledFromEnd(Tokens(seen), width, c) {
          FilledFromEndPush(before, item, width, c);
        }
      }
    }
    assert g[j][width - width..] == g[j];
    forall c | 0 <= c < width ensures processArr[j, c] == PackLine(g[j], true)[c] {
      PackLineCell(g[j], c);
    }
  }

  /** Case `R`: each row is scanned from its right end and its tokens are
      written from the right end on. */
  method ShiftRight<T>(arr: array2<Cell<T>>) returns (processArr: array2<Cell<T>>)
    ensures processArr.Length0 == arr.Length0 && processArr.Length1 == arr.Length1
    ensures Contents(processArr) == Compact(Contents(arr), 'R')
  {
    var height, width := arr.Length0, arr.Length1;
    ghost var g := Contents(arr);
    var countArr := CreateArrWithZeroes(height);
    processArr := CreateEmpty2DArr(width, height);
    for j := 0 to height
      invariant forall r, c :: 0 <= r < j && 0 <= c < width ==> processArr[r, c] == PackLine(g[r], true)[c]
      invariant forall r, c :: j <= r < height && 0 <= c < width ==> processArr[r, c] == Empty
      invariant forall r :: j <= r < height ==> countArr[r] == 0
    {
      PlaceRowRight(arr, g, j, countArr, processArr);
    }
    forall r | 0 <= r < height ensures Contents(processArr)[r] == Compact(g, 'R')[r] {
    }
  }

  /** The tokens of the first `n` cells of column `c`, top to bottom. */
  ghost function TopTokens<T>(g: Grid<T>, c: nat, n: nat): (toks: seq<Cell<T>>)
    requires HasColumn(g, c) && n <= |g|
    ensures |toks| <= n
  {
    Tokens(Column(g, c)[..n])
  }

  /** The tokens of the last `n` cells of column `c`, top to bottom. */
  ghost function BottomTokens<T>(g: Grid<T>, c: nat, n: nat): (toks: seq<Cell<T>>)
    requires HasColumn(g, c) && n <= |g|
    ensures |toks| <= n
  {
    Tokens(Column(g, c)[|g| - n..])
  }

  /** A column's tokens after one more of its cells, `x`, is scanned: a token
      joins them at the end (`U`, scanning downwards) or at the start (`D`,
      scanning upwards); an empty cell leaves them as they are. */
  ghost function Stacked<T>(col: seq<Cell<T>>, x: Cell<T>, atStart: bool): seq<Cell<T>>
  {
    if !x.Tok? then col else if atStart then [x] + col else col + [x]
  }

  /** Scanning row `n` adds its tokens to the columns' top tokens. */
  lemma TopRowStep<T>(g: Grid<T>, w: nat, n: nat)
    requires n < |g| && forall r :: 0 <= r < |g| ==> |g[r]| == w
    ensures forall c :: 0 <= c < w ==> TopTokens(g, c, n + 1) == Stacked(TopTokens(g, c, n), g[n][c], false)
  {
    forall c | 0 <= c < w ensures TopTokens(g, c, n + 1) == Stacked(TopTokens(g, c, n), g[n][c], false) {
      assert Column(g, c)[..n + 1] == Column(g, c)[..n] + [g[n][c]];
      TokensSnoc(Column(g, c)[..n], g[n][c]);
    }
  }

  /** Scanning the `n`-th row from the bottom adds its tokens to the columns'
      bottom tokens. */
  lemma BottomRowStep<T>(g: Grid<T>, w: nat, n: nat)
    requires n < |g| && forall r :: 0 <= r < |g| ==> |g[r]| == w
    ensures forall c :: 0 <= c < w ==>
              BottomTokens(g, c, n + 1) == Stacked(BottomTokens(g, c, n), g[|g| - 1 - n][c], true)
  {
    forall c | 0 <= c < w
      ensures BottomTokens(g, c, n + 1) == Stacked(BottomTokens(g, c, n), g[|g| - 1 - n][c], true)
    {
      var seen := Column(g, c)[|g| - 1 - n..];
      assert seen[0] == g[|g| - 1 - n][c] && seen[1..] == Column(g, c)[|g| - n..];
    }
  }

  /** The inner loop of case `U`: row `i` is scanned left to right and each
      token is written just below the tokens `cols[c]` already written at the
      top of its column `c`. */
  method PlaceRowUp<T>(arr: array2<Cell<T>>, i: nat, ghost cols: seq<seq<Cell<T>>>,
                       countArr: array<int>, processArr: array2<Cell<T>>)
    returns (ghost next: seq<seq<Cell<T>>>)
    requires processArr != arr && i < arr.Length0
    requires processArr.Length0 == arr.Length0 && processArr.Length1 == arr.Length1
    requires countArr.Length == arr.Length1 == |cols|
    requires forall c :: 0 <= c < |cols| ==> countArr[c] == |cols[c]| < arr.Length0
    requires forall r, c :: 0 <= r < arr.Length0 && 0 <= c < |cols| ==>
               processArr[r, c] == FilledFromStart(cols[c], r)
    modifies countArr, processArr
    ensures |next| == |cols|
    ensures forall c :: 0 <= c < |cols| ==> next[c] == Stacked(cols[c], arr[i, c], false)
    ensures forall c :: 0 <= c < |cols| ==> countArr[c] == |next[c]|
    ensures forall r, c :: 0 <= r < arr.Length0 && 0 <= c < |cols| ==>
              processArr[r, c] == FilledFromStart(next[c], r)
  {
    var height, width := arr.Length0, arr.Length1;
    ghost var cur := cols;
    for k := 0 to width
      invariant |cur| == width
      invariant forall c :: 0 <= c < k ==> cur[c] == Stacked(cols[c], arr[i, c], false)
      invariant forall c :: k <= c < width ==> cur[c] == cols[c]
      invariant forall c :: 0 <= c < width ==> countArr[c] == |cur[c]|
      invariant forall r, c :: 0 <= r < height && 0 <= c < width ==>
                  processArr[r, c] == FilledFromStart(cur[c], r)
    {
      var item := arr[i, k];
      if item.Tok? {
        processArr[countArr[k], k] := item;
        countArr[k] := countArr[k] + 1;
        forall r | 0 <= r < height ensures processArr[r, k] == FilledFromStart(cur[k] + [item], r) {
          FilledFromStartPush(cur[k], item, r);
        }
      }
      cur := cur[k := Stacked(cur[k], item, false)];
    }
    next := cur;
  }

  /** The outer loop of case `U`: rows are scanned top to bottom, and
      afterwards every column holds its tokens written from its top on. */
  method FillColumnsUp<T>(arr: array2<Cell<T>>, ghost g: Grid<T>,
                          countArr: array<int>, processArr: array2<Cell<T>>)
    requires g == Contents(arr) && processArr != arr
    requires processArr.Length0 == arr.Length0 && processArr.Length1 == arr.Length1
    requires countArr.Length == arr.Length1 && forall c :: 0 <= c < arr.Length1 ==> countArr[c] == 0
    requires forall r, c :: 0 <= r < arr.Length0 && 0 <= c < arr.Length1 ==> processArr[r, c] == Empty
    modifies countArr, processArr
    ensures forall c :: 0 <= c < arr.Length1 ==> countArr[c] == |TopTokens(g, c, arr.Length0)| <= arr.Length0
    ensures forall r, c :: 0 <= r < arr.Length0 && 0 <= c < arr.Length1 ==>
              processArr[r, c] == FilledFromStart(TopTokens(g, c, arr.Length0), r)
  {
    var height, width := arr.Length0, arr.Length1;
    ghost var cols: seq<seq<Cell<T>>> := seq(width, _ => []);
    for j := 0 to height
      invariant |cols| == width
      invariant forall c :: 0 <= c < width ==> cols[c] == TopTokens(g, c, j)
      invariant forall c :: 0 <= c < width ==> countArr[c] == |cols[c]|
      invariant forall r, c :: 0 <= r < height && 0 <= c < width ==>
                  processArr[r, c] == FilledFromStart(cols[c], r)
    {
      TopRowStep(g, width, j);
      cols := PlaceRowUp(arr, j, cols, countArr, processArr);
    }
  }

  /** Case `U`: rows are scanned top to bottom and each column's tokens are
      written from its top on. */
  method ShiftUp<T>(arr: array2<Cell<T>>) returns (processArr: array2<Cell<T>>)
    ensures processArr.Length0 == arr.Length0 && processArr.Length1 == arr.Length1
    ensures Contents(processArr) == Compact(Contents(arr), 'U')
  {
    ghost var g := Contents(arr);
    var countArr := CreateArrWithZeroes(arr.Length1);
    processArr := CreateEmpty2DArr(arr.Length1, arr.Length0);
    FillColumnsUp(arr, g, countArr, processArr);
    ColumnsFilledAreCompact(processArr, g, 'U');
  }

  /** The inner loop of case `D`: row `i` is scanned left to right and each
      token is written just above the tokens `cols[c]` already written at the
      bottom of its column `c`. */
  method PlaceRowDown<T>(arr: array2<Cell<T>>, i: nat, ghost cols: seq<seq<Cell<T>>>,
                         countArr: array<int>, processArr: array2<Cell<T>>)
    returns (ghost next: seq<seq<Cell<T>>>)
    requires processArr != arr && i < arr.Length0
    requires processArr.Length0 == arr.Length0 && processArr.Length1 == arr.Length1
    requires countArr.Length == arr.Length1 == |cols|
    requires forall c :: 0 <= c < |cols| ==> countArr[c] == |cols[c]| < arr.Length0
    requires forall r, c :: 0 <= r < arr.Length0 && 0 <= c < |cols| ==>
               processArr[r, c] == FilledFromEnd(cols[c], arr.Length0, r)
    modifies countArr, processArr
    ensures |next| == |cols|
    ensures forall c :: 0 <= c < |cols| ==> next[c] == Stacked(cols[c], arr[i, c], true)
    ensures forall c :: 0 <= c < |cols| ==> countArr[c] == |next[c]|
    ensures forall r, c :: 0 <= r < arr.Length0 && 0 <= c < |cols| ==>
              processArr[r, c] == FilledFromEnd(next[c], arr.Length0, r)
  {
    var height, width := arr.Length0, arr.Length1;
    ghost var cur := cols;
    for k := 0 to width
      invariant |cur| == width
      invariant forall c :: 0 <= c < k ==> cur[c] == Stacked(cols[c], arr[i, c], true)
      invariant forall c :: k <= c < width ==> cur[c] == cols[c]
      invariant forall c :: 0 <= c < width ==> countArr[c] == |cur[c]|
      invariant forall r, c :: 0 <= r < height && 0 <= c < width ==>
                  processArr[r, c] == FilledFromEnd(cur[c], height, r)
    {
      var item := arr[i, k];
      if item.Tok? {
        processArr[height - 1 - countArr[k], k] := item;
        countArr[k] := countArr[k] + 1;
        forall r | 0 <= r < height ensures processArr[r, k] == FilledFromEnd([item] + cur[k], height, r) {
          FilledFromEndPush(cur[k], item, height, r);
        }
      }
      cur := cur[k := Stacked(cur[k], item, true)];
    }
    next := cur;
  }

  /** The outer loop of case `D`: rows are scanned bottom to top, and
      afterwards every column holds its tokens written from its bottom on. */
  method FillColumnsDown<T>(arr: array2<Cell<T>>, ghost g: Grid<T>,
                            countArr: array<int>, processArr: array2<Cell<T>>)
    requires g == Contents(arr) && processArr != arr
    requires processArr.Length0 == arr.Length0 && processArr.Length1 == arr.Length1
    requires countArr.Length == arr.Length1 && forall c :: 0 <= c < arr.Length1 ==> countArr[c] == 0
    requires forall r, c :: 0 <= r < arr.Length0 && 0 <= c < arr.Length1 ==> processArr[r, c] == Empty
    modifies countArr, processArr
    ensures forall c :: 0 <= c < arr.Length1 ==> countArr[c] == |BottomTokens(g, c, arr.Length0)| <= arr.Length0
    ensures forall r, c :: 0 <= r < arr.Length0 && 0 <= c < arr.Length1 ==>
              processArr[r, c] == FilledFromEnd(BottomTokens(g, c, arr.Length0), arr.Length0, r)
  {
    var height, width := arr.Length0, arr.Length1;
    ghost var cols: seq<seq<Cell<T>>> := seq(width, _ => []);
    for j := 0 to height
      invariant |cols| == width
      invariant forall c :: 0 <= c < width ==> cols[c] == BottomTokens(g, c, j)
      invariant forall c :: 0 <= c < width ==> countArr[c] == |cols[c]|
      invariant forall r, c :: 0 <= r < height && 0 <= c < width ==>
                  processArr[r, c] == FilledFromEnd(cols[c], height, r)
    {
      BottomRowStep(g, width, j);
      cols := PlaceRowDown(arr, height - 1 - j, cols, countArr, processArr);
    }
  }

  /** Case `D`: rows are scanned bottom to top and each column's tokens are
      written from its bottom on. */
  method ShiftDown<T>(arr: array2<Cell<T>>) returns (processArr: array2<Cell<T>>)
    ensures processArr.Length0 == arr.Length0 && processArr.Length1 == arr.Length1
    ensures Contents(processArr) == Compact(Contents(arr), 'D')
  {
    ghost var g := Contents(arr);
    var countArr := CreateArrWithZeroes(arr.Length1);
    processArr := CreateEmpty2DArr(arr.Length1, arr.Length0);
    FillColumnsDown(arr, g, countArr, processArr);
    ColumnsFilledAreCompact(processArr, g, 'D');
  }

  /** Applies an instruction string to a grid, one character at a time;
      characters other than `L`, `R`, `U` and `D` are skipped. The source
      reads the width from the first row, so the grid needs a row. */
  method ExecuteInstructions<T>(arr: array2<Cell<T>>, instructionsString: string)
    returns (result: array2<Cell<T>>)
    requires arr.Length0 >= 1
    ensures result.Length0 == arr.Length0 && result.Length1 == arr.Length1
    ensures Contents(result) == Run(Contents(arr), instructionsString)
  {
    ghost var g := Contents(arr);
    result := arr;
    for i := 0 to |instructionsString|
      invariant result.Length0 == arr.Length0 && result.Length1 == arr.Length1
      invariant Contents(result) == Run(g, instructionsString[..i])
    {
      var instructionChar := instructionsString[i];
      match instructionChar {
        case 'L' => result := ShiftLeft(result);
        case 'U' => result := ShiftUp(result);
        case 'R' => result := ShiftRight(result);
        case 'D' => result := ShiftDown(result);
        case _ =>
      }
      RunPrefixStep(g, instructionsString, i);
    }
    assert instructionsString[..|instructionsString|] == instructionsString;
  }
}
