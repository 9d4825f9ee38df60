/** The visibility dump of internal/world/debug.go: one line per map row,
    two characters per cell, marking the player, what the last field of view
    lit, and where the walls are. */
module Debug {
  import opened Wrappers
  import opened Tiles
  import opened Grid
  import opened Seqs

  /** The two characters `InspectVisibility` writes for one cell. The
      player's cell wins over everything; otherwise the tile's `visible`
      and `walkable` flags pick one of four symbols. */
  function CellText(m: Map, px: int, py: int, x: int, y: int): (c: string)
    requires Valid(m) && InBounds(m, x, y)
    ensures |c| == 2 && c[1] == ' '
  {
    if x == px && y == py then "P "
    else
      var t := TileAt(m, x, y);
      if t.visible then (if !t.walkable then "X " else "V ")
      else (if !t.walkable then "# " else ". ")
  }

  /** Reads a symbol back as the (visible, walkable) flags it stands for;
      None for the player mark or anything else. */
  function ReadCell(c: string): (r: Option<(bool, bool)>)
  {
    if c == "X " then Some((true, false))
    else if c == "V " then Some((true, true))
    else if c == "# " then Some((false, false))
    else if c == ". " then Some((false, true))
    else None
  }

  /** Every cell but the player's can be read back: the dump loses nothing
      about visibility and walkability. */
  lemma CellRoundTrip(m: Map, px: int, py: int, x: int, y: int)
    requires Valid(m) && InBounds(m, x, y)
    ensures ReadCell(CellText(m, px, py, x, y)) ==
            if x == px && y == py then None else Some((TileAt(m, x, y).visible, TileAt(m, x, y).walkable))
  {
  }

  /** The length of one line of the dump: two characters per cell and the
      newline. */
  function LineLength(m: Map): nat
    requires Valid(m)
  {
    2 * m.width + 1
  }

  /** Where row y starts in the dump. */
  function RowStart(m: Map, y: int): int
    requires Valid(m)
  {
    LineLength(m) * y
  }

  /** Where the cell (x, y) starts in the dump. */
  function Offset(m: Map, x: int, y: int): int
    requires Valid(m)
  {
    RowStart(m, y) + 2 * x
  }

  /** The pieces written one after another. */
  function Concat(parts: seq<string>): (s: string)
    decreases |parts|
  {
    if |parts| == 0 then [] else Concat(parts[..|parts| - 1]) + parts[|parts| - 1]
  }

  /** Pieces of one common length k: piece i occupies characters k*i up to
      k*i+k of the whole. */
  lemma {:induction false} ConcatLayout(parts: seq<string>, k: nat, i: nat)
    requires forall j :: 0 <= j < |parts| ==> |parts[j]| == k
    requires i < |parts|
    ensures |Concat(parts)| == k * |parts|
    ensures k * i + k <= |Concat(parts)| && Concat(parts)[k * i..k * i + k] == parts[i]
    decreases |parts|
  {
    var init := parts[..|parts| - 1];
    ConcatLength(init, k);
    assert k * |parts| == k * |init| + k;
    if i < |init| {
      ConcatLayout(init, k, i);
      SliceConcat(Concat(init), parts[|parts| - 1], k * i, k * i + k);
    } else {
      SliceConcat(Concat(init), parts[|parts| - 1], k * i, k * i + k);
    }
  }

  lemma {:induction false} ConcatLength(parts: seq<string>, k: nat)
    requires forall j :: 0 <= j < |parts| ==> |parts[j]| == k
    ensures |Concat(parts)| == k * |parts|
    decreases |parts|
  {
    if |parts| > 0 {
      ConcatLength(parts[..|parts| - 1], k);
      assert k * |parts| == k * (|parts| - 1) + k;
    }
  }

  /** The texts of the cells of row y, left to right. */
  function RowCells(m: Map, px: int, py: int, y: int): (cells: seq<string>)
    requires Valid(m) && 0 <= y < m.height
    ensures |cells| == m.width
    ensures forall x :: 0 <= x < m.width ==> cells[x] == CellText(m, px, py, x, y)
  {
    seq(m.width, x requires 0 <= x < m.width => CellText(m, px, py, x, y))
  }

  /** One map row as text, newline included. */
  function LineText(m: Map, px: int, py: int, y: int): (line: string)
    requires Valid(m) && 0 <= y < m.height
    ensures |line| == LineLength(m)
  {
    ConcatLength(RowCells(m, px, py, y), 2);
    Concat(RowCells(m, px, py, y)) + "\n"
  }

  /** The lines of rows 0 up to n. */
  function Lines(m: Map, px: int, py: int, n: int): (lines: seq<string>)
    requires Valid(m) && 0 <= n <= m.height
    ensures |lines| == n
    ensures forall y :: 0 <= y < n ==> lines[y] == LineText(m, px, py, y)
  {
    seq(n, y requires 0 <= y < n => LineText(m, px, py, y))
  }

  /** `InspectVisibility`: rows top to bottom, cells left to right, each row
      ended by a newline. */
  method InspectVisibility(m: Map, px: int, py: int) returns (s: string)
    requires Valid(m)
    ensures |s| == LineLength(m) * m.height
    ensures forall x, y :: InBounds(m, x, y) ==>
              0 <= Offset(m, x, y) && Offset(m, x, y) + 2 <= |s| &&
              s[Offset(m, x, y)..Offset(m, x, y) + 2] == CellText(m, px, py, x, y)
    ensures forall y :: 0 <= y < m.height ==>
              0 <= RowStart(m, y) + 2 * m.width < |s| && s[RowStart(m, y) + 2 * m.width] == '\n'
  {
    s := [];
    var y := 0;
    while y < m.height
      invariant 0 <= y <= m.height && s == Concat(Lines(m, px, py, y))
    {
      s := s + LineText(m, px, py, y);
      assert Lines(m, px, py, y + 1)[..y] == Lines(m, px, py, y);
      y := y + 1;
    }
    ConcatLength(Lines(m, px, py, m.height), LineLength(m));
    assert s == Concat(Lines(m, px, py, m.height));
    forall x, y | InBounds(m, x, y)
      ensures 0 <= Offset(m, x, y) && Offset(m, x, y) + 2 <= |s| &&
              s[Offset(m, x, y)..Offset(m, x, y) + 2] == CellText(m, px, py, x, y)
    {
      CellInDump(m, px, py, x, y);
    }
    forall y | 0 <= y < m.height
      ensures 0 <= RowStart(m, y) + 2 * m.width < |s| && s[RowStart(m, y) + 2 * m.width] == '\n'
    {
      NewlineInDump(m, px, py, y);
    }
  }

  /** Row y's line ends in a newline. */
  lemma NewlineInDump(m: Map, px: int, py: int, y: int)
    requires Valid(m) && 0 <= y < m.height
    ensures var s := Concat(Lines(m, px, py, m.height));
            0 <= RowStart(m, y) + 2 * m.width < |s| && s[RowStart(m, y) + 2 * m.width] == '\n'
  {
    var s := Concat(Lines(m, px, py, m.height));
    ConcatLayout(Lines(m, px, py, m.height), LineLength(m), y);
    MulAtLeast(LineLength(m), y);
    LastOfSlice(s, RowStart(m, y), RowStart(m, y) + LineLength(m));
  }

  lemma LastOfSlice(s: string, lo: int, hi: int)
    requires 0 <= lo < hi <= |s|
    ensures s[lo..hi][hi - lo - 1] == s[hi - 1]
  {
  }

  /** A cell's two characters, read out of its row's line of the dump. */
  lemma CellInDump(m: Map, px: int, py: int, x: int, y: int)
    requires Valid(m) && InBounds(m, x, y)
    ensures var s := Concat(Lines(m, px, py, m.height));
            0 <= Offset(m, x, y) && Offset(m, x, y) + 2 <= |s| &&
            s[Offset(m, x, y)..Offset(m, x, y) + 2] == CellText(m, px, py, x, y)
  {
    var s := Concat(Lines(m, px, py, m.height));
    ConcatLayout(Lines(m, px, py, m.height), LineLength(m), y);
    MulAtLeast(LineLength(m), y);
    CellInLine(s, RowStart(m, y), RowCells(m, px, py, y), x);
  }

  /** Within a line of the dump that starts at lo, cell x starts at lo + 2x. */
  lemma CellInLine(s: string, lo: int, cells: seq<string>, x: int)
    requires forall j :: 0 <= j < |cells| ==> |cells[j]| == 2
    requires 0 <= x < |cells| && 0 <= lo && lo + 2 * |cells| + 1 <= |s|
    requires s[lo..lo + 2 * |cells| + 1] == Concat(cells) + "\n"
    ensures s[lo + 2 * x..lo + 2 * x + 2] == cells[x]
  {
    ConcatLayout(cells, 2, x);
    SliceConcat(Concat(cells), "\n", 2 * x, 2 * x + 2);
    SliceOfSlice(s, lo, lo + 2 * |cells| + 1, 2 * x, 2 * x + 2);
  }
}
