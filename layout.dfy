/** The level as the environment reads it: a `width` x `height` grid of
    cells, indexed `[x][y]` like `tiles[x, y]`, each with its tile character
    and its two exploration flags. The functions here follow the scan order
    of `translate_map_to_numbers` (row `y` outer, column `x` inner). */
module Layout {
  import opened Wrappers
  import Tables

  datatype Cell = Cell(ch: char, explored: bool, alreadyExplored: bool)

  datatype Grid = Grid(width: nat, height: nat, cells: seq<seq<Cell>>) {
    predicate Valid() {
      |cells| == width && forall x :: 0 <= x < width ==> |cells[x]| == height
    }

    function At(x: int, y: int): Cell
      requires Valid() && 0 <= x < width && 0 <= y < height
    {
      cells[x][y]
    }
  }

  /** Two grids of the same shape that agree on every cell are equal. */
  lemma GridsEqual(a: Grid, b: Grid)
    requires a.Valid() && b.Valid() && a.width == b.width && a.height == b.height
    requires forall x, y :: 0 <= x < a.width && 0 <= y < a.height ==> a.At(x, y) == b.At(x, y)
    ensures a == b
  {
    forall x | 0 <= x < a.width
      ensures a.cells[x] == b.cells[x]
    {
      assert |a.cells[x]| == |b.cells[x]|;
      assert forall y :: 0 <= y < a.height ==> a.cells[x][y] == a.At(x, y) == b.At(x, y) == b.cells[x][y];
    }
  }

  /** What the scan looks for in a cell. */
  datatype Probe = Potion | Enemy | Exit | Unrewarded

  predicate Hit(p: Probe, c: Cell) {
    match p
    case Potion => c.ch == '+'
    case Enemy => c.ch == 'v' || c.ch == 'z'
    case Exit => c.ch == '>'
    case Unrewarded => c.explored && c.ch == '.' && !c.alreadyExplored
  }

  /** Cell `(i, j)` is visited before the scan reaches column `x` of row `y`. */
  predicate Before(i: int, j: int, x: int, y: int) {
    j < y || (j == y && i < x)
  }

  /** A point the scan can stand at: inside a row, or just past the last row. */
  predicate Pos(g: Grid, y: nat, x: nat) {
    (y < g.height && x <= g.width) || (y == g.height && x == 0)
  }

  /** How many cells visited before `(x, y)` satisfy `p`. */
  function ScanCount(p: Probe, g: Grid, y: nat, x: nat): nat
    requires g.Valid() && Pos(g, y, x)
    decreases y, x
  {
    if x == 0 then
      (if y == 0 then 0 else ScanCount(p, g, y - 1, g.width))
    else
      ScanCount(p, g, y, x - 1) + (if Hit(p, g.At(x - 1, y)) then 1 else 0)
  }

  /** How many cells of the whole grid satisfy `p`. */
  function Count(p: Probe, g: Grid): nat
    requires g.Valid()
  {
    ScanCount(p, g, g.height, 0)
  }

  /** The cells visited before `(x, y)` that satisfy `p`: the reference
      definition the scan counts are proved against. */
  ghost function Matching(p: Probe, g: Grid, y: int, x: int): set<(int, int)>
    requires g.Valid()
  {
    set i, j | 0 <= i < g.width && 0 <= j < g.height && Before(i, j, x, y) && Hit(p, g.At(i, j)) :: (i, j)
  }

  ghost function Hits(p: Probe, g: Grid): set<(int, int)>
    requires g.Valid()
  {
    set i, j | 0 <= i < g.width && 0 <= j < g.height && Hit(p, g.At(i, j)) :: (i, j)
  }

  lemma MatchingStart(p: Probe, g: Grid)
    requires g.Valid()
    ensures Matching(p, g, 0, 0) == {}
  {
    forall c | c in Matching(p, g, 0, 0)
      ensures false
    {
    }
  }

  /** Going from the end of row `y - 1` to the start of row `y` visits nothing. */
  lemma MatchingWrap(p: Probe, g: Grid, y: nat)
    requires g.Valid() && 0 < y <= g.height
    ensures Matching(p, g, y, 0) == Matching(p, g, y - 1, g.width)
  {
  }

  /** One step along a row visits exactly cell `(x - 1, y)`. */
  lemma MatchingStep(p: Probe, g: Grid, y: nat, x: nat)
    requires g.Valid() && y < g.height && 0 < x <= g.width
    ensures (x - 1, y) !in Matching(p, g, y, x - 1)
    ensures Matching(p, g, y, x) ==
      Matching(p, g, y, x - 1) + (if Hit(p, g.At(x - 1, y)) then {(x - 1, y)} else {})
  {
  }

  lemma {:induction false} ScanCountIsCardinality(p: Probe, g: Grid, y: nat, x: nat)
    requires g.Valid() && Pos(g, y, x)
    ensures ScanCount(p, g, y, x) == |Matching(p, g, y, x)|
    decreases y, x
  {
    if x == 0 {
      if y == 0 {
        MatchingStart(p, g);
      } else {
        ScanCountIsCardinality(p, g, y - 1, g.width);
        MatchingWrap(p, g, y);
      }
    } else {
      ScanCountIsCardinality(p, g, y, x - 1);
      MatchingStep(p, g, y, x);
    }
  }

  /** The count of the full scan is the number of cells that satisfy `p`. */
  lemma CountIsCardinality(p: Probe, g: Grid)
    requires g.Valid()
    ensures Count(p, g) == |Hits(p, g)|
  {
    ScanCountIsCardinality(p, g, g.height, 0);
    assert Matching(p, g, g.height, 0) == Hits(p, g);
  }

  /** The last cell visited before `(x, y)` that satisfies `p`, if any. */
  function ScanLast(p: Probe, g: Grid, y: nat, x: nat): Option<(int, int)>
    requires g.Valid() && Pos(g, y, x)
    decreases y, x
  {
    if x == 0 then
      (if y == 0 then None else ScanLast(p, g, y - 1, g.width))
    else if Hit(p, g.At(x - 1, y)) then
      Some((x - 1, y))
    else
      ScanLast(p, g, y, x - 1)
  }

  /** The location of the exit `'>'` the scan records last. */
  function LastExit(g: Grid): Option<(int, int)>
    requires g.Valid()
  {
    ScanLast(Exit, g, g.height, 0)
  }

  /** `ScanLast` finds nothing exactly when no visited cell satisfies `p`,
      and otherwise finds a visited cell satisfying `p` after which no
      visited cell satisfies it. */
  lemma {:induction false} ScanLastIsLast(p: Probe, g: Grid, y: nat, x: nat)
    requires g.Valid() && Pos(g, y, x)
    ensures ScanLast(p, g, y, x).None? <==>
      forall i, j :: 0 <= i < g.width && 0 <= j < g.height && Before(i, j, x, y) ==> !Hit(p, g.At(i, j))
    ensures ScanLast(p, g, y, x).Some? ==>
      var (i, j) := ScanLast(p, g, y, x).value;
      0 <= i < g.width && 0 <= j < g.height && Before(i, j, x, y) && Hit(p, g.At(i, j)) &&
      forall k, l :: 0 <= k < g.width && 0 <= l < g.height && Before(k, l, x, y) && Before(i, j, k, l) ==> !Hit(p, g.At(k, l))
    decreases y, x
  {
    if x == 0 {
      if y != 0 {
        ScanLastIsLast(p, g, y - 1, g.width);
      }
    } else {
      ScanLastIsLast(p, g, y, x - 1);
    }
  }

  /** The exit the scan records is a `'>'` cell with no `'>'` after it in
      scan order; there is none exactly when the level has no `'>'`. */
  lemma LastExitIsLast(g: Grid)
    requires g.Valid()
    ensures LastExit(g).None? <==> forall i, j :: 0 <= i < g.width && 0 <= j < g.height ==> g.At(i, j).ch != '>'
    ensures LastExit(g).Some? ==>
      var (i, j) := LastExit(g).value;
      0 <= i < g.width && 0 <= j < g.height && g.At(i, j).ch == '>' &&
      forall k, l :: 0 <= k < g.width && 0 <= l < g.height && Before(i, j, k, l) ==> g.At(k, l).ch != '>'
  {
    ScanLastIsLast(Exit, g, g.height, 0);
  }

  /** One cell after the exploration reward test: an explored floor tile not
      yet rewarded becomes rewarded. */
  function MarkCell(c: Cell): Cell {
    if Hit(Unrewarded, c) then c.(alreadyExplored := true) else c
  }

  function MarkColumn(col: seq<Cell>): (r: seq<Cell>)
    ensures |r| == |col| && forall y :: 0 <= y < |col| ==> r[y] == MarkCell(col[y])
  {
    seq(|col|, y requires 0 <= y < |col| => MarkCell(col[y]))
  }

  /** The grid after every cell has passed the exploration reward test. */
  function Mark(g: Grid): (r: Grid)
    requires g.Valid()
    ensures r.Valid() && r.width == g.width && r.height == g.height
    ensures forall x, y :: 0 <= x < g.width && 0 <= y < g.height ==> r.At(x, y) == MarkCell(g.At(x, y))
  {
    Grid(g.width, g.height, seq(g.width, x requires 0 <= x < g.width => MarkColumn(g.cells[x])))
  }

  /** Marking keeps every character and `explored` flag, never clears an
      `alreadyExplored` flag, and sets it exactly on the unrewarded cells. */
  lemma MarkMonotone(g: Grid, x: int, y: int)
    requires g.Valid() && 0 <= x < g.width && 0 <= y < g.height
    ensures Mark(g).At(x, y).ch == g.At(x, y).ch
    ensures Mark(g).At(x, y).explored == g.At(x, y).explored
    ensures g.At(x, y).alreadyExplored ==> Mark(g).At(x, y).alreadyExplored
    ensures Mark(g).At(x, y).alreadyExplored != g.At(x, y).alreadyExplored <==> Hit(Unrewarded, g.At(x, y))
  {
  }

  /** After marking no cell is left to reward, so a second pass on an
      unchanged level adds nothing. */
  lemma MarkLeavesNothing(g: Grid)
    requires g.Valid()
    ensures Count(Unrewarded, Mark(g)) == 0
  {
    CountIsCardinality(Unrewarded, Mark(g));
    assert Hits(Unrewarded, Mark(g)) == {};
  }

  lemma MarkIdempotent(g: Grid)
    requires g.Valid()
    ensures Mark(Mark(g)) == Mark(g)
  {
    GridsEqual(Mark(Mark(g)), Mark(g));
  }

  /** The grid after the cells in `visible` have been seen. */
  function Uncover(g: Grid, visible: set<(int, int)>): (r: Grid)
    requires g.Valid()
    ensures r.Valid() && r.width == g.width && r.height == g.height
    ensures forall x, y :: 0 <= x < g.width && 0 <= y < g.height ==>
      r.At(x, y) == g.At(x, y).(explored := g.At(x, y).explored || (x, y) in visible)
  {
    Grid(g.width, g.height,
      seq(g.width, x requires 0 <= x < g.width =>
        seq(g.height, y requires 0 <= y < g.height =>
          g.cells[x][y].(explored := g.cells[x][y].explored || (x, y) in visible))))
  }

  /** The floor cells that seeing `visible` newly makes worth an exploration
      reward: visible, not explored before, and never rewarded. */
  ghost function Revealed(g: Grid, visible: set<(int, int)>): set<(int, int)>
    requires g.Valid()
  {
    set i, j | 0 <= i < g.width && 0 <= j < g.height && (i, j) in visible &&
      !g.At(i, j).explored && g.At(i, j).ch == '.' && !g.At(i, j).alreadyExplored :: (i, j)
  }

  /** Uncovering only adds cells to reward: the unrewarded cells afterwards are
      those before plus exactly the revealed ones, which are new. */
  lemma UncoverAddsRewards(g: Grid, visible: set<(int, int)>)
    requires g.Valid()
    ensures Hits(Unrewarded, g) !! Revealed(g, visible)
    ensures Hits(Unrewarded, Uncover(g, visible)) == Hits(Unrewarded, g) + Revealed(g, visible)
    ensures Count(Unrewarded, Uncover(g, visible)) == Count(Unrewarded, g) + |Revealed(g, visible)|
  {
    var u := Uncover(g, visible);
    forall c | c in Hits(Unrewarded, u)
      ensures c in Hits(Unrewarded, g) + Revealed(g, visible)
    {
      var (i, j) := c;
      assert u.At(i, j).explored;
    }
    CountIsCardinality(Unrewarded, g);
    CountIsCardinality(Unrewarded, u);
  }

  /** Uncovering changes no tile character, so the potion, enemy and exit
      cells stay the same. */
  lemma UncoverKeepsTiles(g: Grid, visible: set<(int, int)>, p: Probe)
    requires g.Valid() && p != Unrewarded
    ensures Hits(p, Uncover(g, visible)) == Hits(p, g)
    ensures Count(p, Uncover(g, visible)) == Count(p, g)
  {
    CountIsCardinality(p, g);
    CountIsCardinality(p, Uncover(g, visible));
  }

  /** Seeing the same cells twice is seeing them once. */
  lemma UncoverIdempotent(g: Grid, visible: set<(int, int)>)
    requires g.Valid()
    ensures Uncover(Uncover(g, visible), visible) == Uncover(g, visible)
  {
    GridsEqual(Uncover(Uncover(g, visible), visible), Uncover(g, visible));
  }

  /** What the agent sees in a cell: its tile code, or the code of `" "`
      when the cell is unexplored in imperfect-information mode. */
  function ViewCode(perfect: bool, c: Cell): (r: Option<int>)
    ensures r.Some? ==> -4 <= r.value <= 4
    ensures perfect && c.ch != ' ' && r.Some? ==> -3 <= r.value <= 4
    ensures !perfect && !c.explored ==> r == Some(Tables.Unseen)
    ensures (perfect || c.explored) ==> r == Tables.TileCode(c.ch)
  {
    if perfect || c.explored then Tables.TileCode(c.ch) else Tables.TileCode(' ')
  }

  /** Every code the encoder looks up exists. */
  predicate Decodable(perfect: bool, g: Grid)
    requires g.Valid()
  {
    forall x, y :: 0 <= x < g.width && 0 <= y < g.height ==> ViewCode(perfect, g.At(x, y)).Some?
  }
}
