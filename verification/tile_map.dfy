/** The tile map of src/game_map.h: a square grid of integers read from a
    text file as a dimension followed by dimension * dimension cell values,
    stored row-major. The file is modelled as the sequence of its
    whitespace-separated tokens: `Some(v)` is a token that reads as the
    integer v, `None` a token that does not read as an integer, and the end
    of the sequence is the end of the file. */
module TileMap {
  import opened RowMajor

  datatype Option<T> = None | Some(value: T)

  datatype Result<T, E> = Ok(value: T) | Err(error: E)

  /** Why loading stopped: the file could not be opened, its first token is
      missing or not an integer, or the cell at (row, col) is. */
  datatype LoadError = CannotOpen | NoDimension | MissingCell(row: int, col: int)

  /** A loaded map: its dimension and the cell values read, row-major. */
  datatype Grid = Grid(dim: int, cells: seq<int>)

  /** How many cell values the reading loops ask for: dim rows of dim
      columns, and none at all when dim is not positive. */
  function CellCount(dim: int): nat {
    if dim > 0 then MulNonNegative(dim, dim); dim * dim else 0
  }

  /** The position of the first of the n leading tokens of ts that cannot be
      read as an integer (missing or malformed), or n when all n can. */
  function FirstBad(ts: seq<Option<int>>, n: nat): (r: nat)
    ensures r <= n && r <= |ts|
    ensures forall i :: 0 <= i < r ==> ts[i].Some?
    ensures r < n ==> r == |ts| || ts[r].None?
  {
    if n == 0 || |ts| == 0 || ts[0].None? then 0
    else
      var rest := FirstBad(ts[1..], n - 1);
      assert forall i :: 1 <= i < 1 + rest ==> ts[i] == ts[1..][i - 1];
      1 + rest
  }

  /** The integers held by tokens that all read as integers. */
  function Values(ts: seq<Option<int>>): seq<int>
    requires forall i :: 0 <= i < |ts| ==> ts[i].Some?
  {
    seq(|ts|, i requires 0 <= i < |ts| => ts[i].value)
  }

  /** What `gameMap_init` makes of the tokens of a file it could open. */
  function Load(ts: seq<Option<int>>): Result<Grid, LoadError> {
    if |ts| == 0 || ts[0].None? then Err(NoDimension)
    else
      var d := ts[0].value;
      var n := CellCount(d);
      var k := FirstBad(ts[1..], n);
      if k < n then Err(MissingCell(k / d, k % d))
      else Ok(Grid(d, Values(ts[1..1 + n])))
  }

  /** What `gameMap_init` makes of a file: None is a file that cannot be opened. */
  function LoadFile(file: Option<seq<Option<int>>>): Result<Grid, LoadError> {
    match file
    case None => Err(CannotOpen)
    case Some(ts) => Load(ts)
  }

  /** A successful load keeps the dimension read first and stores the token
      for column col of row row at col + row * dim. */
  lemma LoadRowMajor(ts: seq<Option<int>>)
    requires Load(ts).Ok?
    ensures |ts| > 0 && ts[0].Some? && Load(ts).value.dim == ts[0].value
    ensures |Load(ts).value.cells| == CellCount(ts[0].value)
    ensures forall col, row :: InGrid(ts[0].value, ts[0].value, col, row) ==>
              Index(ts[0].value, col, row) < |Load(ts).value.cells|
              && 1 + Index(ts[0].value, col, row) < |ts|
              && ts[1 + Index(ts[0].value, col, row)].Some?
              && Load(ts).value.cells[Index(ts[0].value, col, row)]
                 == ts[1 + Index(ts[0].value, col, row)].value
  {
    var d := ts[0].value;
    var n := CellCount(d);
    var cells := Load(ts).value.cells;
    assert FirstBad(ts[1..], n) == n;
    assert cells == Values(ts[1..1 + n]);
    forall col, row | InGrid(d, d, col, row)
      ensures Index(d, col, row) < |cells|
      ensures 1 + Index(d, col, row) < |ts| && ts[1 + Index(d, col, row)].Some?
      ensures cells[Index(d, col, row)] == ts[1 + Index(d, col, row)].value
    {
      IndexInBounds(d, d, col, row);
      var k := Index(d, col, row);
      assert k < n;
      assert ts[1..][k] == ts[1 + k];
      assert cells[k] == ts[1..1 + n][k].value;
    }
  }

  /** Appending tokens does not move the first bad one among n tokens that
      are all present. */
  lemma {:induction false} FirstBadIgnoresSuffix(ts: seq<Option<int>>, extra: seq<Option<int>>, n: nat)
    requires n <= |ts|
    ensures FirstBad(ts + extra, n) == FirstBad(ts, n)
  {
    if n > 0 && ts[0].Some? {
      assert (ts + extra)[1..] == ts[1..] + extra;
      FirstBadIgnoresSuffix(ts[1..], extra, n - 1);
    }
  }

  /** Tokens after the dimension and its cells are never read: once the file
      holds all of them, anything appended leaves the outcome unchanged. */
  lemma LoadIgnoresTrailing(ts: seq<Option<int>>, extra: seq<Option<int>>)
    requires |ts| > 0 && ts[0].Some? && |ts| > CellCount(ts[0].value)
    ensures Load(ts + extra) == Load(ts)
  {
    var n := CellCount(ts[0].value);
    assert (ts + extra)[1..] == ts[1..] + extra;
    assert (ts + extra)[1..1 + n] == ts[1..1 + n];
    FirstBadIgnoresSuffix(ts[1..], extra, n);
  }

  /** A file that ends before all dim * dim cells fails, at a cell that lies
      on the grid. */
  lemma LoadShortFails(ts: seq<Option<int>>)
    requires |ts| > 0 && ts[0].Some? && |ts| <= CellCount(ts[0].value)
    ensures Load(ts).Err? && Load(ts).error.MissingCell?
    ensures InGrid(ts[0].value, ts[0].value, Load(ts).error.col, Load(ts).error.row)
  {
    var d := ts[0].value;
    var k := FirstBad(ts[1..], CellCount(d));
    DivModSplit(d, k % d, k / d);
    IndexSurjective(d, d, k);
  }

  /** A dimension that is not positive is accepted and reads no cells. */
  lemma LoadNonPositiveDim(ts: seq<Option<int>>)
    requires |ts| > 0 && ts[0].Some? && ts[0].value <= 0
    ensures Load(ts) == Ok(Grid(ts[0].value, []))
  {
    assert Values(ts[1..1]) == [];
  }

  /** The text of a file listing the integers xs, one token each. */
  function AsTokens(xs: seq<int>): seq<Option<int>> {
    seq(|xs|, i requires 0 <= i < |xs| => Some(xs[i]))
  }

  /** The cells of a 5-by-5 map, row by row. */
  const ExampleCells: seq<int> := [1, 0, 0, 0, 1,
                                   1, 1, 0, 0, 1,
                                   1, 0, 0, 0, 1,
                                   1, 0, 0, 1, 1,
                                   1, 1, 0, 0, 0]

  /** The file `5` followed by the 25 example cells loads as that 5-by-5
      grid: a wall at (0, 0), open tiles at (1, 0) and (4, 4). */
  lemma LoadExample()
    ensures Load([Some(5)] + AsTokens(ExampleCells)) == Ok(Grid(5, ExampleCells))
    ensures ExampleCells[Index(5, 0, 0)] == 1
    ensures ExampleCells[Index(5, 1, 0)] == 0 && ExampleCells[Index(5, 4, 4)] == 0
  {
    var ts := [Some(5)] + AsTokens(ExampleCells);
    assert forall i :: 0 < i < |ts| ==> ts[i] == AsTokens(ExampleCells)[i - 1];
    LoadAllPresent(ts);
    assert ts[1..26] == AsTokens(ExampleCells);
    assert Values(ts[1..26]) == ExampleCells;
  }

  /** A file whose dimension and dim * dim cell tokens all read as integers
      loads as exactly those cells. */
  lemma LoadAllPresent(ts: seq<Option<int>>)
    requires |ts| > 0 && ts[0].Some? && |ts| > CellCount(ts[0].value)
    requires forall i :: 0 < i <= CellCount(ts[0].value) ==> ts[i].Some?
    ensures Load(ts) == Ok(Grid(ts[0].value, Values(ts[1..1 + CellCount(ts[0].value)])))
  {
    var n := CellCount(ts[0].value);
    assert forall i :: 0 <= i < n ==> ts[1..][i] == ts[1 + i];
  }

  /** The first i cell tokens cs all read as integers, and s holds their values. */
  ghost predicate StoredPrefix(cs: seq<Option<int>>, s: seq<int>, i: nat) {
    i <= |s| && i <= |cs| && forall k :: 0 <= k < i ==> cs[k].Some? && s[k] == cs[k].value
  }

  /** Storing the value of the next cell token extends the stored prefix. */
  lemma StoredPrefixStep(cs: seq<Option<int>>, s: seq<int>, i: nat)
    requires StoredPrefix(cs, s, i) && i < |s| && i < |cs| && cs[i].Some?
    ensures StoredPrefix(cs, s[i := cs[i].value], i + 1)
  {
  }

  /** When the first i cell tokens were read and the next one cannot be, the
      first bad cell token is the i-th. */
  lemma StoredPrefixStops(cs: seq<Option<int>>, s: seq<int>, i: nat, n: nat)
    requires StoredPrefix(cs, s, i) && i < n && (i >= |cs| || cs[i].None?)
    ensures FirstBad(cs, n) == i
  {
  }

  /** When all n cell tokens were read, none is bad and s starts with their values. */
  lemma StoredPrefixComplete(cs: seq<Option<int>>, s: seq<int>, n: nat)
    requires StoredPrefix(cs, s, n)
    ensures FirstBad(cs, n) == n
    ensures s[..n] == Values(cs[..n])
  {
  }

  class GameMap {
    var dim: int
    var tiles: array<int>
    var initialized: bool

    /** `gameMap_init`: read the dimension, allocate dim * dim cells and read
        them row by row; return 0 and set `initialized` on success, -1 as
        soon as a read fails, leaving whatever was read so far in place. */
    method Init(file: Option<seq<Option<int>>>) returns (status: int)
      modifies this
      ensures status == 0 || status == -1
      ensures status == 0 <==> LoadFile(file).Ok?
      ensures LoadFile(file).Ok? ==>
                initialized && dim == LoadFile(file).value.dim
                && tiles.Length == dim * dim
                && tiles[..CellCount(dim)] == LoadFile(file).value.cells
      ensures LoadFile(file).Err? ==> initialized == old(initialized)
      ensures LoadFile(file).Err? && !LoadFile(file).error.MissingCell? ==>
                dim == old(dim) && tiles == old(tiles)
      ensures LoadFile(file).Err? && LoadFile(file).error.MissingCell? ==>
                file.Some? && dim == file.value[0].value && fresh(tiles)
                && tiles.Length == dim * dim
                && var stop := Index(dim, LoadFile(file).error.col, LoadFile(file).error.row);
                   0 <= stop < tiles.Length && StoredPrefix(file.value[1..], tiles[..], stop)
    {
      if file.None? {
        return -1;
      }
      var tokens := file.value;
      if |tokens| == 0 || tokens[0].None? {
        return -1;
      }
      var d := tokens[0].value;
      var cellTokens := tokens[1..];
      ghost var n := CellCount(d);
      MulNonNegative(if d < 0 then -d else d, if d < 0 then -d else d);
      var cells := new int[d * d];
      dim, tiles := d, cells;
      var i := 0;
      var row := 0;
      while row < d
        invariant dim == d && tiles == cells && initialized == old(initialized)
        invariant 0 <= row <= (if 0 < d then d else 0)
        invariant i == row * d && i <= n && n <= cells.Length
        invariant StoredPrefix(cellTokens, cells[..], i)
        decreases d - row
      {
        RowFits(d, d, row);
        ghost var rowStart := i;
        var col := 0;
        while col < d
          invariant dim == d && tiles == cells && initialized == old(initialized)
          invariant 0 <= col <= d && rowStart + d <= n <= cells.Length
          invariant i == rowStart + col
          invariant StoredPrefix(cellTokens, cells[..], i)
          decreases d - col
        {
          if i >= |cellTokens| || cellTokens[i].None? {
            StoredPrefixStops(cellTokens, cells[..], i, n);
            DivModSplit(d, col, row);
            assert LoadFile(file) == Err(MissingCell(row, col));
            return -1;
          }
          StoredPrefixStep(cellTokens, cells[..], i);
          cells[i] := cellTokens[i].value;
          i := i + 1;
          col := col + 1;
        }
        NextRow(row, d);
        row := row + 1;
      }
      assert i == n;
      StoredPrefixComplete(cellTokens, cells[..], n);
      assert cellTokens[..n] == tokens[1..1 + n];
      initialized := true;
      return 0;
    }
  }
}
