/** The playing field of tetris.js: a 20 x 10 grid of integers in which 0 is an
    empty cell and 1..7 is the colour index of a settled cell, together with the
    line-clearing rule (`clearLines`). */
module Grid {

  const Rows: nat := 20
  const Cols: nat := 10

  /** Number of entries of the colour palette, the `null` slot for "empty" included. */
  const PaletteSize: nat := 8

  type Board = seq<seq<int>>

  /** A board has exactly `Rows` rows of exactly `Cols` cells each. */
  predicate IsBoard(b: Board)
  {
    |b| == Rows && forall r :: 0 <= r < |b| ==> |b[r]| == Cols
  }

  /** Every cell holds 0 or a colour index of the palette. */
  predicate ValidCells(b: Board)
  {
    forall r, c :: 0 <= r < |b| && 0 <= c < |b[r]| ==> 0 <= b[r][c] < PaletteSize
  }

  const ZeroRow: seq<int> := [0, 0, 0, 0, 0, 0, 0, 0, 0, 0]

  /** `k` empty rows. */
  function Zeros(k: nat): (z: seq<seq<int>>)
    ensures |z| == k
    ensures forall i :: 0 <= i < k ==> z[i] == ZeroRow
  {
    seq(k, i => ZeroRow)
  }

  /** `createBoard`: the board a new game starts with. */
  function CreateBoard(): (b: Board)
    ensures IsBoard(b) && ValidCells(b)
    ensures forall r, c :: 0 <= r < Rows && 0 <= c < Cols ==> b[r][c] == 0
  {
    Zeros(Rows)
  }

  /** A row is full when none of its cells is 0. */
  predicate Full(row: seq<int>)
  {
    forall x :: 0 <= x < |row| ==> row[x] != 0
  }

  lemma ZeroRowNotFull()
    ensures !Full(ZeroRow)
  {
    assert ZeroRow[0] == 0;
  }

  /** The rows of `b` that are not full, in their original order. */
  function Kept(b: seq<seq<int>>): seq<seq<int>>
    decreases |b|
  {
    if |b| == 0 then []
    else (if Full(b[0]) then [] else [b[0]]) + Kept(b[1..])
  }

  /** The number of full rows of `b`. */
  function FullCount(b: seq<seq<int>>): nat
    decreases |b|
  {
    if |b| == 0 then 0
    else (if Full(b[0]) then 1 else 0) + FullCount(b[1..])
  }

  /** The reference meaning of `clearLines`: drop every full row, put as many
      empty rows on top, and report how many rows were dropped. */
  function ClearLines(b: Board): (r: (Board, nat))
    ensures |r.0| == |b| && r.1 <= |b|
    ensures forall i :: 0 <= i < |r.0| ==> !Full(r.0[i])
  {
    KeptLength(b);
    PaddedNoFull(FullCount(b), b);
    (Zeros(FullCount(b)) + Kept(b), FullCount(b))
  }

  /** Empty rows stacked on kept rows leave no full row. */
  lemma PaddedNoFull(n: nat, b: seq<seq<int>>)
    ensures forall i :: 0 <= i < n + |Kept(b)| ==> !Full((Zeros(n) + Kept(b))[i])
  {
    ZeroRowNotFull();
    KeptNoFull(b);
    var z := Zeros(n) + Kept(b);
    forall i | 0 <= i < n + |Kept(b)|
      ensures !Full(z[i])
    {
      if i >= n {
        assert z[i] == Kept(b)[i - n];
      }
    }
  }

  lemma {:induction false} KeptLength(b: seq<seq<int>>)
    ensures |Kept(b)| + FullCount(b) == |b|
    decreases |b|
  {
    if |b| > 0 {
      KeptLength(b[1..]);
    }
  }

  /** Filtering distributes over concatenation, so the kept rows keep their
      relative order. */
  lemma {:induction false} KeptConcat(a: seq<seq<int>>, c: seq<seq<int>>)
    ensures Kept(a + c) == Kept(a) + Kept(c)
    ensures FullCount(a + c) == FullCount(a) + FullCount(c)
    decreases |a|
  {
    if |a| == 0 {
      assert a + c == c;
    } else {
      var ac := a + c;
      assert ac[0] == a[0];
      assert ac[1..] == a[1..] + c;
      KeptConcat(a[1..], c);
      assert Kept(ac) == (if Full(a[0]) then [] else [a[0]]) + Kept(a[1..] + c);
      assert FullCount(ac) == (if Full(a[0]) then 1 else 0) + FullCount(a[1..] + c);
    }
  }

  /** A row survives exactly when it was a row of `b` and not full. */
  lemma {:induction false} KeptMembers(b: seq<seq<int>>, row: seq<int>)
    ensures row in Kept(b) <==> row in b && !Full(row)
    decreases |b|
  {
    if |b| > 0 {
      KeptMembers(b[1..], row);
      assert b == [b[0]] + b[1..];
    }
  }

  lemma KeptNoFull(b: seq<seq<int>>)
    ensures forall i :: 0 <= i < |Kept(b)| ==> !Full(Kept(b)[i])
  {
    forall i | 0 <= i < |Kept(b)|
      ensures !Full(Kept(b)[i])
    {
      KeptMembers(b, Kept(b)[i]);
    }
  }

  /** A board without full rows loses nothing. */
  lemma {:induction false} KeptAll(b: seq<seq<int>>)
    requires forall i :: 0 <= i < |b| ==> !Full(b[i])
    ensures Kept(b) == b && FullCount(b) == 0
    decreases |b|
  {
    if |b| > 0 {
      KeptAll(b[1..]);
      assert b == [b[0]] + b[1..];
    }
  }

  /** `clearLines` keeps the board 20 x 10, keeps cells in the palette, leaves no
      full row, reports the number of full rows it removed, and puts exactly that
      many empty rows on top of the surviving rows. */
  lemma ClearLinesSpec(b: Board)
    requires IsBoard(b)
    ensures var (b', n) := ClearLines(b);
      && IsBoard(b')
      && n == FullCount(b) && n + |Kept(b)| == Rows
      && (forall i :: 0 <= i < n ==> b'[i] == ZeroRow)
      && b'[n..] == Kept(b)
      && (forall i :: 0 <= i < Rows ==> !Full(b'[i]))
      && (ValidCells(b) ==> ValidCells(b'))
  {
    var (b', n) := ClearLines(b);
    KeptLength(b);
    KeptNoFull(b);
    ZeroRowNotFull();
    assert b'[n..] == Kept(b);
    forall i | 0 <= i < |b'|
      ensures b'[i] == ZeroRow || b'[i] in b
      ensures |b'[i]| == Cols
      ensures !Full(b'[i])
    {
      if i >= n {
        assert b'[i] == Kept(b)[i - n];
        KeptMembers(b, b'[i]);
      }
    }
  }

  /** Clearing twice removes nothing the second time: the board is unchanged
      and no score is added. */
  lemma ClearLinesIdempotent(b: Board)
    requires IsBoard(b)
    ensures ClearLines(ClearLines(b).0) == (ClearLines(b).0, 0)
  {
    var b' := ClearLines(b).0;
    ClearLinesSpec(b);
    KeptAll(b');
    assert Zeros(0) + b' == b';
  }

  /** The board part way through the bottom-up scan: `L` empty rows on top,
      the `m` original rows not yet examined, then the kept rows among those
      already examined. */
  function Scanned(B: Board, L: nat, m: nat): Board
    requires m <= |B|
  {
    Zeros(L) + B[..m] + Kept(B[m..])
  }

  /** The scanned board is still a board; its top `L` rows are empty and the
      row at index `L + m - 1` is the next original row to examine. */
  lemma ScannedShape(B: Board, L: nat, m: nat)
    requires IsBoard(B) && m <= |B| && L == FullCount(B[m..])
    ensures var b := Scanned(B, L, m);
      && IsBoard(b)
      && (forall i :: 0 <= i < L ==> b[i] == ZeroRow)
      && (m > 0 ==> b[L + m - 1] == B[m - 1])
  {
    var b := Scanned(B, L, m);
    KeptLength(B[m..]);
    forall i | 0 <= i < |b|
      ensures |b[i]| == Cols
    {
      if i >= L + m {
        assert b[i] == Kept(B[m..])[i - L - m];
        KeptMembers(B[m..], b[i]);
      }
    }
  }

  /** One removal step of the bottom-up scan: splicing out the full row at
      index `L + m - 1` and putting an empty row on top. */
  lemma SpliceStep(B: Board, L: nat, m: nat)
    requires 0 < m <= |B| && Full(B[m - 1])
    ensures var b := Scanned(B, L, m);
      var y := L + m - 1;
      [ZeroRow] + b[..y] + b[y + 1..] == Scanned(B, L + 1, m - 1)
      && FullCount(B[m - 1..]) == FullCount(B[m..]) + 1
  {
    var b := Scanned(B, L, m);
    var y := L + m - 1;
    assert b[..y] == Zeros(L) + B[..m - 1];
    assert b[y + 1..] == Kept(B[m..]);
    assert B[m - 1..][1..] == B[m..];
    assert [ZeroRow] + Zeros(L) == Zeros(L + 1);
  }

  /** One skipping step of the bottom-up scan: the row at index `L + m - 1`
      is not full and joins the kept rows. */
  lemma SkipStep(B: Board, L: nat, m: nat)
    requires 0 < m <= |B| && !Full(B[m - 1])
    ensures Scanned(B, L, m) == Scanned(B, L, m - 1)
      && FullCount(B[m - 1..]) == FullCount(B[m..])
  {
    assert B[m - 1..][1..] == B[m..];
    assert B[..m] == B[..m - 1] + [B[m - 1]];
  }

  /** Before the scan nothing has been examined. */
  lemma ScanStart(B: Board)
    ensures Scanned(B, 0, |B|) == B && FullCount(B[|B|..]) == 0
  {
    assert B[..|B|] == B;
    assert B[|B|..] == [];
  }

  /** Once every row has been examined the scanned board is the cleared one. */
  lemma ScanEnd(B: Board, L: nat)
    requires L == FullCount(B[0..])
    ensures (Scanned(B, L, 0), L) == ClearLines(B)
  {
    assert B[0..] == B;
    assert B[..0] == [];
    assert Scanned(B, L, 0) == Zeros(L) + Kept(B);
  }

  /** The inner loop of `clearLines`: scan the row left to right and give up
      at the first empty cell. */
  method RowFull(row: seq<int>) returns (full: bool)
    ensures full <==> Full(row)
  {
    var x := 0;
    while x < |row| && row[x] != 0
      invariant 0 <= x <= |row|
      invariant forall k :: 0 <= k < x ==> row[k] != 0
    {
      x := x + 1;
    }
    full := x == |row|;
  }

  /** `clearLines` as written: scan from the bottom row up; a full row is spliced
      out, an emptied row is put on top and the same index is examined again. */
  method ClearLinesScan(board: Board) returns (b: Board, lines: nat)
    requires IsBoard(board)
    ensures (b, lines) == ClearLines(board)
  {
    b := board;
    lines := 0;
    var y: int := |b| - 1;
    ghost var m: nat := |board|;
    ScanStart(board);
    while y >= 0
      invariant -1 <= y < Rows
      invariant m <= |board|
      invariant lines == FullCount(board[m..])
      invariant b == Scanned(board, lines, m)
      invariant m > 0 ==> y == lines + m - 1
      invariant y < lines + m
      decreases y + 1 + m
    {
      ScannedShape(board, lines, m);
      ZeroRowNotFull();
      var full := RowFull(b[y]);
      if full {
        SpliceStep(board, lines, m);
        b := [ZeroRow] + b[..y] + b[y + 1..];
        lines := lines + 1;
        m := m - 1;
      } else {
        if m > 0 {
          SkipStep(board, lines, m);
          m := m - 1;
        }
        y := y - 1;
      }
    }
    ScanEnd(board, lines);
  }
}
