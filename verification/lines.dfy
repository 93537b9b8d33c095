/** Cells and the packing of one line (a row or a column) of a grid. */
module Lines {

  /** A grid cell: `Empty` is the source's `null`; any other value is a token,
      whose identity the algorithms never inspect. */
  datatype Cell<T> = Empty | Tok(t: T)

  /** The tokens of a line, in their original order. */
  function Tokens<T>(s: seq<Cell<T>>): (r: seq<Cell<T>>)
    ensures |r| <= |s|
    ensures forall i :: 0 <= i < |r| ==> r[i].Tok?
  {
    if s == [] then [] else (if s[0].Tok? then [s[0]] else []) + Tokens(s[1..])
  }

  /** A run of `n` empty cells. */
  function Empties<T>(n: nat): (r: seq<Cell<T>>)
    ensures |r| == n
    ensures forall i :: 0 <= i < n ==> r[i] == Empty
  {
    seq(n, _ => Empty)
  }

  /** A line with its tokens slid against one edge: the start (`toEnd` false,
      a left or up move) or the end (`toEnd` true, a right or down move). */
  function PackLine<T>(s: seq<Cell<T>>, toEnd: bool): (r: seq<Cell<T>>)
    ensures |r| == |s|
  {
    var toks := Tokens(s);
    if toEnd then Empties(|s| - |toks|) + toks else toks + Empties(|s| - |toks|)
  }

  /** No gap in the line: the tokens form a prefix (`toEnd` false) or a
      suffix (`toEnd` true) of it. */
  predicate Packed<T>(s: seq<Cell<T>>, toEnd: bool)
  {
    forall i, j :: 0 <= i < j < |s| ==>
      if toEnd then (s[i].Tok? ==> s[j].Tok?) else (s[j].Tok? ==> s[i].Tok?)
  }

  /** The cells that a packed line with `n` tokens occupies. */
  predicate InZone(len: nat, n: nat, i: nat, toEnd: bool)
  {
    if toEnd then len - n <= i else i < n
  }

  lemma {:induction false} TokensAppend<T>(a: seq<Cell<T>>, b: seq<Cell<T>>)
    ensures Tokens(a + b) == Tokens(a) + Tokens(b)
  {
    if a == [] {
      assert a + b == b;
    } else {
      assert (a + b)[1..] == a[1..] + b;
      TokensAppend(a[1..], b);
    }
  }

  /** Scanning one more cell at the end of a prefix adds it if it is a token. */
  lemma TokensSnoc<T>(s: seq<Cell<T>>, x: Cell<T>)
    ensures Tokens(s + [x]) == Tokens(s) + (if x.Tok? then [x] else [])
  {
    TokensAppend(s, [x]);
    assert [x][1..] == [];
  }

  lemma {:induction false} TokensOfEmpty<T>(s: seq<Cell<T>>)
    requires forall i :: 0 <= i < |s| ==> s[i] == Empty
    ensures Tokens(s) == []
  {
    if s != [] {
      TokensOfEmpty(s[1..]);
    }
  }

  lemma {:induction false} TokensOfFull<T>(s: seq<Cell<T>>)
    requires forall i :: 0 <= i < |s| ==> s[i].Tok?
    ensures Tokens(s) == s
  {
    if s != [] {
      TokensOfFull(s[1..]);
      assert s == [s[0]] + s[1..];
    }
  }

  /** Packing keeps the tokens and their order. */
  lemma PackKeepsTokens<T>(s: seq<Cell<T>>, toEnd: bool)
    ensures Tokens(PackLine(s, toEnd)) == Tokens(s)
  {
    var toks := Tokens(s);
    var pad: seq<Cell<T>> := Empties(|s| - |toks|);
    TokensOfEmpty(pad);
    TokensOfFull(toks);
    if toEnd {
      TokensAppend(pad, toks);
    } else {
      TokensAppend(toks, pad);
    }
  }

  /** Which cells of a packed line hold a token. */
  lemma PackOccupancy<T>(s: seq<Cell<T>>, toEnd: bool, i: nat)
    requires i < |s|
    ensures PackLine(s, toEnd)[i].Tok? <==> InZone(|s|, |Tokens(s)|, i, toEnd)
  {
  }

  /** Packing leaves no gap. */
  lemma PackIsPacked<T>(s: seq<Cell<T>>, toEnd: bool)
    ensures Packed(PackLine(s, toEnd), toEnd)
  {
    var p := PackLine(s, toEnd);
    forall i, j | 0 <= i < j < |p|
      ensures if toEnd then (p[i].Tok? ==> p[j].Tok?) else (p[j].Tok? ==> p[i].Tok?)
    {
      PackOccupancy(s, toEnd, i);
      PackOccupancy(s, toEnd, j);
    }
  }

  lemma PackedTail<T>(s: seq<Cell<T>>, toEnd: bool)
    requires s != [] && Packed(s, toEnd)
    ensures Packed(s[1..], toEnd)
  {
    var t := s[1..];
    forall i, j | 0 <= i < j < |t|
      ensures if toEnd then (t[i].Tok? ==> t[j].Tok?) else (t[j].Tok? ==> t[i].Tok?)
    {
      assert t[i] == s[i + 1] && t[j] == s[j + 1];
    }
  }

  /** A line without gaps is left as it is by packing toward the same edge. */
  lemma PackedIsFixed<T>(s: seq<Cell<T>>, toEnd: bool)
    requires Packed(s, toEnd)
    ensures PackLine(s, toEnd) == s
  {
    if toEnd {
      PackedToEndIsFixed(s);
    } else {
      PackedToStartIsFixed(s);
    }
  }

  lemma {:induction false} PackedToStartIsFixed<T>(s: seq<Cell<T>>)
    requires Packed(s, false)
    ensures PackLine(s, false) == s
  {
    if s == [] {
    } else if s[0] == Empty {
      assert forall i :: 0 <= i < |s| ==> s[i] == Empty;
      TokensOfEmpty(s);
    } else {
      var t := s[1..];
      PackedTail(s, false);
      PackedToStartIsFixed(t);
      assert Tokens(s) == [s[0]] + Tokens(t);
      assert PackLine(s, false) == [s[0]] + PackLine(t, false);
      assert s == [s[0]] + t;
    }
  }

  lemma {:induction false} PackedToEndIsFixed<T>(s: seq<Cell<T>>)
    requires Packed(s, true)
    ensures PackLine(s, true) == s
  {
    if s == [] {
    } else if s[0].Tok? {
      assert forall i :: 0 <= i < |s| ==> s[i].Tok?;
      TokensOfFull(s);
    } else {
      var t := s[1..];
      PackedTail(s, true);
      PackedToEndIsFixed(t);
      var toks := Tokens(t);
      assert Tokens(s) == toks;
      PadOneMore(toks, |t| - |toks|);
      calc {
        PackLine(s, true);
        Empties(|t| - |toks| + 1) + toks;
        [Empty] + PackLine(t, true);
        { assert s == [s[0]] + t; }
        s;
      }
    }
  }

  lemma PadOneMore<T>(x: seq<Cell<T>>, m: nat)
    ensures Empties(m + 1) + x == [Empty] + (Empties(m) + x)
  {
    assert Empties<T>(m + 1) == [Empty] + Empties(m);
  }

  /** Packing toward one edge after packing toward either edge is the same as
      packing toward the second edge alone. */
  lemma PackAbsorbs<T>(s: seq<Cell<T>>, first: bool, second: bool)
    ensures PackLine(PackLine(s, first), second) == PackLine(s, second)
  {
    PackKeepsTokens(s, first);
  }

  /** Same length, same tokens in the same order, and no gap: that determines
      the line, so `PackLine` is the only line with these properties. */
  lemma PackIsUnique<T>(s: seq<Cell<T>>, x: seq<Cell<T>>, toEnd: bool)
    requires |x| == |s| && Tokens(x) == Tokens(s) && Packed(x, toEnd)
    ensures x == PackLine(s, toEnd)
  {
    PackedIsFixed(x, toEnd);
  }

  /** A line whose every token sits where the other line has one holds no
      more tokens than that line. */
  lemma {:induction false} FewerTokens<T>(more: seq<Cell<T>>, fewer: seq<Cell<T>>)
    requires |more| == |fewer|
    requires forall i :: 0 <= i < |fewer| && fewer[i].Tok? ==> more[i].Tok?
    ensures |Tokens(fewer)| <= |Tokens(more)|
  {
    if fewer != [] {
      FewerTokens(more[1..], fewer[1..]);
    }
  }
}
