/** The sector graph generator of src/level.rs: a grid of `SectorType`
    flag sets with one entrance in the top row, one exit in the bottom row,
    one vertical link between each pair of adjacent rows and one horizontal
    run per row joining the row's two connector columns. */
module Level {
  import opened Wrappers

  /** The `SectorType` bit set, one boolean per flag. `Bits` gives the `u8`
      the source stores. */
  datatype SectorType = SectorType(
    entrance: bool, exit: bool, openUp: bool, openDown: bool, openLeft: bool, openRight: bool)
  {
    /** `self | other`. */
    function Or(other: SectorType): SectorType {
      SectorType(entrance || other.entrance, exit || other.exit,
                 openUp || other.openUp, openDown || other.openDown,
                 openLeft || other.openLeft, openRight || other.openRight)
    }

    /** `self.contains(other)`. */
    predicate Contains(other: SectorType) {
      && (other.entrance ==> entrance) && (other.exit ==> exit)
      && (other.openUp ==> openUp) && (other.openDown ==> openDown)
      && (other.openLeft ==> openLeft) && (other.openRight ==> openRight)
    }

    /** The `u8` representation. */
    function Bits(): bv8 {
      (if entrance then 0x20 else 0) | (if exit then 0x10 else 0)
      | (if openUp then 0x08 else 0) | (if openDown then 0x04 else 0)
      | (if openLeft then 0x02 else 0) | (if openRight then 0x01 else 0)
    }
  }

  const CLOSED := SectorType(false, false, false, false, false, false)
  const ENTRANCE := CLOSED.(entrance := true)
  const EXIT := CLOSED.(exit := true)
  const OPEN_UP := CLOSED.(openUp := true)
  const OPEN_DOWN := CLOSED.(openDown := true)
  const OPEN_LEFT := CLOSED.(openLeft := true)
  const OPEN_RIGHT := CLOSED.(openRight := true)

  /** The grid size the source hard-codes. */
  const ROWS: nat := 4
  const COLS: nat := 4

  /** Side of the square `LevelLayout` resource. */
  const LEVEL_LAYOUT_SIDE: nat := 64

  /** The flags carry the source's bit values. */
  lemma FlagBits()
    ensures CLOSED.Bits() == 0x00 && ENTRANCE.Bits() == 0x20 && EXIT.Bits() == 0x10
    ensures OPEN_UP.Bits() == 0x08 && OPEN_DOWN.Bits() == 0x04
    ensures OPEN_LEFT.Bits() == 0x02 && OPEN_RIGHT.Bits() == 0x01
  {
  }

  /** Every value stays within the six defined bits. */
  lemma BitsWithinSix(a: SectorType)
    ensures a.Bits() & 0xC0 == 0
    ensures a.Bits() <= 0x3F
  {
  }

  /** `Or` is the `u8` bitwise or. */
  lemma BitsOr(a: SectorType, b: SectorType)
    ensures a.Or(b).Bits() == a.Bits() | b.Bits()
  {
  }

  /** Distinct flag sets have distinct `u8` values. */
  lemma BitsInjective(a: SectorType, b: SectorType)
    ensures a.Bits() == b.Bits() ==> a == b
  {
  }

  /** `Contains` is the `u8` subset test. */
  lemma BitsContains(a: SectorType, b: SectorType)
    ensures a.Contains(b) <==> a.Bits() & b.Bits() == b.Bits()
  {
  }

  /** A `vec![vec![v; cols]; rows]`-shaped grid. */
  predicate IsGrid<T>(g: seq<seq<T>>, rows: nat, cols: nat) {
    |g| == rows && forall y :: 0 <= y < rows ==> |g[y]| == cols
  }

  /** `LevelLayout::new`: a 64 by 64 grid of zero bytes. */
  function NewLevelLayout(): (r: seq<seq<bv8>>)
    ensures IsGrid(r, LEVEL_LAYOUT_SIDE, LEVEL_LAYOUT_SIDE)
    ensures forall y, x :: 0 <= y < LEVEL_LAYOUT_SIDE && 0 <= x < LEVEL_LAYOUT_SIDE ==> r[y][x] == 0
  {
    seq(LEVEL_LAYOUT_SIDE, _ => seq(LEVEL_LAYOUT_SIDE, _ => 0))
  }

  /** `level_layout[y][x] |= f`. */
  function OrAt(g: seq<seq<SectorType>>, y: nat, x: nat, f: SectorType): seq<seq<SectorType>>
    requires y < |g| && x < |g[y]|
  {
    g[y := g[y][x := g[y][x].Or(f)]]
  }

  /** Every write of the generator is an `|=`: the written cell keeps every
      flag it had, gains the flags of `f` and no others, and no other cell
      changes, so a flag once set is never cleared. */
  lemma OrAtKeepsFlags(g: seq<seq<SectorType>>, y: nat, x: nat, f: SectorType)
    requires y < |g| && x < |g[y]|
    ensures var r := OrAt(g, y, x, f);
      && |r| == |g| && (forall i :: 0 <= i < |g| ==> |r[i]| == |g[i]|)
      && r[y][x].Contains(g[y][x]) && r[y][x].Contains(f)
      && (forall h: SectorType :: r[y][x].Contains(h) <==> g[y][x].Or(f).Contains(h))
      && forall i, j :: 0 <= i < |g| && 0 <= j < |g[i]| && (i != y || j != x) ==> r[i][j] == g[i][j]
  {
  }

  /** `RangeInclusive<usize>` `start..=end`. */
  datatype InclusiveRange = InclusiveRange(start: nat, end: nat)

  /** The `make_inclusive_range` closure: no range when the two columns are
      equal, otherwise the inclusive range from the smaller to the larger. */
  function MakeInclusiveRange(a: nat, b: nat): (r: Option<InclusiveRange>)
    ensures r.None? <==> a == b
    ensures r.Some? ==> r.value.start < r.value.end
    ensures r.Some? ==> {r.value.start, r.value.end} == {a, b}
  {
    if a < b then Some(InclusiveRange(a, b))
    else if b < a then Some(InclusiveRange(b, a))
    else None
  }

  /** The grid size and the results of the `gen_range(0..cols)` draws of one
      generation pass: the entrance column, the exit column and, for each
      row but the last, the column where the row opens downwards. */
  datatype Params = Params(rows: nat, cols: nat, entrance: nat, exit: nat, downs: seq<nat>) {
    predicate Valid() {
      && rows >= 2
      && cols >= 1
      && entrance < cols
      && exit < cols
      && |downs| == rows - 1
      && forall y :: 0 <= y < |downs| ==> downs[y] < cols
    }
  }

  /** The two connector columns that row `y` joins: the entrance and the
      down column in the first row, the up and down columns in the middle
      rows, the exit and the up column in the last row. */
  function Connectors(p: Params, y: nat): (nat, nat)
    requires p.Valid() && y < p.rows
  {
    if y == 0 then (p.entrance, p.downs[0])
    else if 1 <= y < p.rows - 1 then (p.downs[y - 1], p.downs[y])
    else (p.exit, p.downs[p.rows - 2])
  }

  function Lo(p: Params, y: nat): nat
    requires p.Valid() && y < p.rows
  {
    var (a, b) := Connectors(p, y); if a <= b then a else b
  }

  function Hi(p: Params, y: nat): nat
    requires p.Valid() && y < p.rows
  {
    var (a, b) := Connectors(p, y); if a <= b then b else a
  }

  /** The flags of sector `(y, x)` once the entrance, the exit and the
      vertical links of the first `n` rows are marked, plus the horizontal
      run of its row if `run` holds: OPEN_LEFT on `(lo, hi]` and OPEN_RIGHT
      on `[lo, hi)`. */
  function Stage(p: Params, n: nat, run: bool, y: nat, x: nat): SectorType
    requires p.Valid() && n <= p.rows - 1 && y < p.rows
  {
    SectorType(
      entrance := y == 0 && x == p.entrance,
      exit := y == p.rows - 1 && x == p.exit,
      openUp := 0 < y <= n && x == p.downs[y - 1],
      openDown := y < n && x == p.downs[y],
      openLeft := run && Lo(p, y) < x <= Hi(p, y),
      openRight := run && Lo(p, y) <= x < Hi(p, y))
  }

  /** The flags of sector `(y, x)` once generation is complete. */
  function Expected(p: Params, y: nat, x: nat): SectorType
    requires p.Valid() && y < p.rows
  {
    Stage(p, p.rows - 1, true, y, x)
  }

  /** The whole generated layout, row by row. */
  function Layout(p: Params): (g: seq<seq<SectorType>>)
    requires p.Valid()
    ensures IsGrid(g, p.rows, p.cols)
    ensures forall y, x :: 0 <= y < p.rows && 0 <= x < p.cols ==> g[y][x] == Expected(p, y, x)
  {
    seq(p.rows, y requires 0 <= y < p.rows => seq(p.cols, x requires 0 <= x => Expected(p, y, x)))
  }

  /** A `rows` by `cols` grid of CLOSED sectors. */
  function ClosedGrid(rows: nat, cols: nat): (g: seq<seq<SectorType>>)
    ensures IsGrid(g, rows, cols)
  {
    seq(rows, _ => seq(cols, _ => CLOSED))
  }

  /** The layout once the entrance, the exit and the vertical links of the
      first `n` rows are marked. */
  ghost function VerticalStage(p: Params, n: nat): (g: seq<seq<SectorType>>)
    requires p.Valid() && n <= p.rows - 1
    ensures IsGrid(g, p.rows, p.cols)
  {
    seq(p.rows, y requires 0 <= y < p.rows => seq(p.cols, x requires 0 <= x => Stage(p, n, false, y, x)))
  }

  /** The layout once the horizontal runs of the first `n` rows are added. */
  ghost function JoinStage(p: Params, n: nat): (g: seq<seq<SectorType>>)
    requires p.Valid() && n <= p.rows
    ensures IsGrid(g, p.rows, p.cols)
  {
    seq(p.rows, y requires 0 <= y < p.rows =>
      seq(p.cols, x requires 0 <= x => Stage(p, p.rows - 1, y < n, y, x)))
  }

  lemma MarkEntranceExit(p: Params)
    requires p.Valid()
    ensures OrAt(OrAt(ClosedGrid(p.rows, p.cols), 0, p.entrance, ENTRANCE), p.rows - 1, p.exit, EXIT)
            == VerticalStage(p, 0)
  {
    var g := OrAt(OrAt(ClosedGrid(p.rows, p.cols), 0, p.entrance, ENTRANCE), p.rows - 1, p.exit, EXIT);
    var s := VerticalStage(p, 0);
    forall y | 0 <= y < p.rows ensures g[y] == s[y] {
      forall x | 0 <= x < p.cols ensures g[y][x] == s[y][x] {
      }
    }
  }

  lemma MarkVerticalLink(p: Params, n: nat)
    requires p.Valid() && n < p.rows - 1
    ensures OrAt(OrAt(VerticalStage(p, n), n, p.downs[n], OPEN_DOWN), n + 1, p.downs[n], OPEN_UP)
            == VerticalStage(p, n + 1)
  {
    var g := OrAt(OrAt(VerticalStage(p, n), n, p.downs[n], OPEN_DOWN), n + 1, p.downs[n], OPEN_UP);
    var s := VerticalStage(p, n + 1);
    forall y | 0 <= y < p.rows ensures g[y] == s[y] {
      forall x | 0 <= x < p.cols ensures g[y][x] == s[y][x] {
      }
    }
  }

  lemma VerticalDone(p: Params)
    requires p.Valid()
    ensures VerticalStage(p, p.rows - 1) == JoinStage(p, 0)
  {
    var g, s := VerticalStage(p, p.rows - 1), JoinStage(p, 0);
    forall y | 0 <= y < p.rows ensures g[y] == s[y] {
      forall x | 0 <= x < p.cols ensures g[y][x] == s[y][x] {
      }
    }
  }

  /** The range `make_inclusive_range` builds from row `n`'s connectors is
      the row's run `[Lo, Hi]`, absent exactly when the run is empty. */
  lemma ConnectorRange(p: Params, n: nat)
    requires p.Valid() && n < p.rows
    ensures var r := MakeInclusiveRange(Connectors(p, n).0, Connectors(p, n).1);
      && (r.None? <==> Lo(p, n) == Hi(p, n))
      && (r.Some? ==> r.value.start == Lo(p, n) && r.value.end == Hi(p, n) && Hi(p, n) < p.cols)
  {
  }

  lemma SkipEmptyRun(p: Params, n: nat)
    requires p.Valid() && n < p.rows && Lo(p, n) == Hi(p, n)
    ensures JoinStage(p, n) == JoinStage(p, n + 1)
  {
    var g, s := JoinStage(p, n), JoinStage(p, n + 1);
    forall y | 0 <= y < p.rows ensures g[y] == s[y] {
      forall x | 0 <= x < p.cols ensures g[y][x] == s[y][x] {
        assert g[y][x] == Stage(p, p.rows - 1, y < n, y, x);
        assert s[y][x] == Stage(p, p.rows - 1, y < n + 1, y, x);
      }
    }
  }

  /** The horizontal flags a run from `lo` to `hi` gives column `x`. */
  function RunFlags(lo: nat, hi: nat, x: nat): SectorType {
    CLOSED.(openLeft := lo < x <= hi, openRight := lo <= x < hi)
  }

  lemma RunDone(p: Params, n: nat, row: seq<SectorType>)
    requires p.Valid() && n < p.rows && |row| == p.cols
    requires forall x :: 0 <= x < p.cols ==> row[x] == JoinStage(p, n)[n][x].Or(RunFlags(Lo(p, n), Hi(p, n), x))
    ensures JoinStage(p, n)[n := row] == JoinStage(p, n + 1)
  {
    var g, s := JoinStage(p, n)[n := row], JoinStage(p, n + 1);
    forall y | 0 <= y < p.rows ensures g[y] == s[y] {
      forall x | 0 <= x < p.cols ensures g[y][x] == s[y][x] {
        assert s[y][x] == Stage(p, p.rows - 1, y < n + 1, y, x);
        if y == n {
          assert JoinStage(p, n)[n][x] == Stage(p, p.rows - 1, false, n, x);
        } else {
          assert g[y][x] == Stage(p, p.rows - 1, y < n, y, x);
        }
      }
    }
  }

  lemma JoinDone(p: Params)
    requires p.Valid()
    ensures JoinStage(p, p.rows) == Layout(p)
  {
    var g, s := JoinStage(p, p.rows), Layout(p);
    forall y | 0 <= y < p.rows ensures g[y] == s[y] {
      forall x | 0 <= x < p.cols ensures g[y][x] == s[y][x] {
      }
    }
  }

  /** src/level.rs:91-96, in `generate_level_layout`, on the row `level_layout[y]`:
      OPEN_RIGHT at `lo`, OPEN_LEFT at `hi` and both on every column
      strictly between, or-ed into what the row already holds. */
  method OpenRun(row0: seq<SectorType>, lo: nat, hi: nat) returns (row: seq<SectorType>)
    requires lo < hi < |row0|
    ensures |row| == |row0|
    ensures forall x :: 0 <= x < |row| ==> row[x] == row0[x].Or(RunFlags(lo, hi, x))
  {
    row := row0;
    row := row[lo := row[lo].Or(OPEN_RIGHT)];
    row := row[hi := row[hi].Or(OPEN_LEFT)];
    for x := lo + 1 to hi
      invariant |row| == |row0|
      invariant forall c :: 0 <= c < |row| ==>
        row[c] == row0[c].Or(CLOSED.(openLeft := c == hi || lo < c < x, openRight := c == lo || lo < c < x))
    {
      row := row[x := row[x].Or(OPEN_LEFT.Or(OPEN_RIGHT))];
    }
  }

  /** src/level.rs:48-67, in `generate_level_layout`: a CLOSED grid with the
      entrance, the exit and, between each pair of adjacent rows, a downward
      opening matched by an upward one below it. */
  method MarkVerticalLinks(p: Params) returns (layout: seq<seq<SectorType>>, downSectors: seq<nat>, upSectors: seq<nat>)
    requires p.Valid()
    ensures layout == VerticalStage(p, p.rows - 1)
    ensures |downSectors| == p.rows && |upSectors| == p.rows
    ensures forall k :: 0 <= k < p.rows - 1 ==> downSectors[k] == p.downs[k]
    ensures forall k :: 0 < k < p.rows ==> upSectors[k] == p.downs[k - 1]
  {
    var rows, cols := p.rows, p.cols;
    layout := ClosedGrid(rows, cols);

    var entranceSector := p.entrance;
    layout := OrAt(layout, 0, entranceSector, ENTRANCE);

    var exitSector := p.exit;
    layout := OrAt(layout, rows - 1, exitSector, EXIT);
    assert layout == VerticalStage(p, 0) by { MarkEntranceExit(p); }

    downSectors := seq(rows, _ => 0);
    upSectors := seq(rows, _ => 0);

    for y := 0 to rows - 1
      invariant |downSectors| == rows && |upSectors| == rows
      invariant forall k :: 0 <= k < y ==> downSectors[k] == p.downs[k]
      invariant forall k :: 0 < k <= y ==> upSectors[k] == p.downs[k - 1]
      invariant layout == VerticalStage(p, y)
    {
      downSectors := downSectors[y := p.downs[y]];
      layout := OrAt(layout, y, downSectors[y], OPEN_DOWN);

      upSectors := upSectors[y + 1 := downSectors[y]];
      layout := OrAt(layout, y + 1, upSectors[y + 1], OPEN_UP);
      assert layout == VerticalStage(p, y + 1) by { MarkVerticalLink(p, y); }
    }
  }

  /** src/level.rs:69-97, in `generate_level_layout`: each row opens the run between
      its two connector columns, or nothing when they coincide. */
  method JoinRows(p: Params, layout0: seq<seq<SectorType>>, downSectors: seq<nat>, upSectors: seq<nat>)
    returns (layout: seq<seq<SectorType>>)
    requires p.Valid()
    requires layout0 == JoinStage(p, 0)
    requires |downSectors| == p.rows && |upSectors| == p.rows
    requires forall k :: 0 <= k < p.rows - 1 ==> downSectors[k] == p.downs[k]
    requires forall k :: 0 < k < p.rows ==> upSectors[k] == p.downs[k - 1]
    ensures layout == JoinStage(p, p.rows)
  {
    var rows, cols := p.rows, p.cols;
    var entranceSector, exitSector := p.entrance, p.exit;
    layout := layout0;
    for y := 0 to rows
      invariant layout == JoinStage(p, y)
    {
      var connected;
      if y == 0 {
        connected := MakeInclusiveRange(entranceSector, downSectors[y]);
      } else if 1 <= y < rows - 1 {
        connected := MakeInclusiveRange(upSectors[y], downSectors[y]);
      } else {
        connected := MakeInclusiveRange(exitSector, upSectors[y]);
      }
      assert connected == MakeInclusiveRange(Connectors(p, y).0, Connectors(p, y).1) by {
        assert y < rows - 1 ==> downSectors[y] == p.downs[y];
        assert 0 < y ==> upSectors[y] == p.downs[y - 1];
      }
      if connected.None? {
        assert layout == JoinStage(p, y + 1) by { ConnectorRange(p, y); SkipEmptyRun(p, y); }
        continue;
      }
      var range := connected.value;
      var lo, hi := range.start, range.end;
      assert lo == Lo(p, y) && hi == Hi(p, y) && hi < cols by { ConnectorRange(p, y); }

      var row := OpenRun(layout[y], lo, hi);
      layout := layout[y := row];
      assert layout == JoinStage(p, y + 1) by { RunDone(p, y, row); }
    }
  }

  /** `generate_level_layout`, with the random draws taken from `p`: the
      layout it returns is exactly `Layout(p)`. */
  method GenerateLevelLayout(p: Params) returns (layout: seq<seq<SectorType>>)
    requires p.Valid()
    ensures layout == Layout(p)
  {
    var downSectors, upSectors;
    layout, downSectors, upSectors := MarkVerticalLinks(p);
    VerticalDone(p);
    layout := JoinRows(p, layout, downSectors, upSectors);
    JoinDone(p);
  }

  // Properties of the generated layout.

  /** Position of a sector: row `y`, column `x`. */
  datatype Pos = Pos(y: nat, x: nat)

  /** The sectors of `g` that carry every flag of `f`. */
  function CellsWith(g: seq<seq<SectorType>>, rows: nat, cols: nat, f: SectorType): set<Pos>
    requires IsGrid(g, rows, cols)
  {
    set y: nat, x: nat | y < rows && x < cols && g[y][x].Contains(f) :: Pos(y, x)
  }

  /** Exactly one sector, in the top row, is the entrance, and exactly one,
      in the bottom row, is the exit. */
  lemma UniqueEntranceExit(p: Params)
    requires p.Valid()
    ensures CellsWith(Layout(p), p.rows, p.cols, ENTRANCE) == {Pos(0, p.entrance)}
    ensures CellsWith(Layout(p), p.rows, p.cols, EXIT) == {Pos(p.rows - 1, p.exit)}
    ensures Pos(0, p.entrance) != Pos(p.rows - 1, p.exit)
  {
    var g := Layout(p);
    forall q | q in CellsWith(g, p.rows, p.cols, ENTRANCE) ensures q == Pos(0, p.entrance) {
      assert g[q.y][q.x] == Expected(p, q.y, q.x);
    }
    assert g[0][p.entrance] == Expected(p, 0, p.entrance);
    forall q | q in CellsWith(g, p.rows, p.cols, EXIT) ensures q == Pos(p.rows - 1, p.exit) {
      assert g[q.y][q.x] == Expected(p, q.y, q.x);
    }
    assert g[p.rows - 1][p.exit] == Expected(p, p.rows - 1, p.exit);
  }

  /** Vertical openings come in pairs: a sector opens downwards exactly
      when the sector below it opens upwards; each row but the last opens
      downwards at exactly its drawn column, the top row never opens
      upwards and the bottom row never downwards. */
  lemma VerticalPairs(p: Params)
    requires p.Valid()
    ensures var g := Layout(p);
      forall y, x :: 0 <= y < p.rows && 0 <= x < p.cols ==>
        && (g[y][x].openDown <==> y + 1 < p.rows && g[y + 1][x].openUp)
        && (g[y][x].openDown <==> y < p.rows - 1 && x == p.downs[y])
        && (y == 0 ==> !g[y][x].openUp)
  {
  }

  /** Horizontal openings come in pairs: a sector opens right exactly when
      its right neighbour opens left, so the first column never opens left
      and the last never right; and a row's openings are exactly the run
      between its two connector columns. */
  lemma HorizontalPairs(p: Params)
    requires p.Valid()
    ensures var g := Layout(p);
      forall y, x :: 0 <= y < p.rows && 0 <= x < p.cols ==>
        && (g[y][x].openRight <==> x + 1 < p.cols && g[y][x + 1].openLeft)
        && (x == 0 ==> !g[y][x].openLeft)
        && (g[y][x].openLeft <==> Lo(p, y) < x <= Hi(p, y))
        && (g[y][x].openRight <==> Lo(p, y) <= x < Hi(p, y))
        && (Lo(p, y) == Hi(p, y) ==> !g[y][x].openLeft && !g[y][x].openRight)
    ensures forall y :: 0 <= y < p.rows ==> {Lo(p, y), Hi(p, y)} == {InCol(p, y), OutCol(p, y)}
  {
    var g: seq<seq<SectorType>> := Layout(p);
    forall y: nat, x: nat | y < p.rows && x < p.cols
      ensures g[y][x].openRight <==> x + 1 < p.cols && g[y][x + 1].openLeft
    {
      assert Hi(p, y) < p.cols;
    }
  }

  /** The column where row `y` is entered: the entrance, or the opening up
      to the row above. */
  function InCol(p: Params, y: nat): nat
    requires p.Valid() && y < p.rows
  {
    if y == 0 then p.entrance else p.downs[y - 1]
  }

  /** The column where row `y` is left: the opening down, or the exit. */
  function OutCol(p: Params, y: nat): nat
    requires p.Valid() && y < p.rows
  {
    if y == p.rows - 1 then p.exit else p.downs[y]
  }

  /** Two orthogonally adjacent sectors whose facing sides are both open. */
  predicate Linked(g: seq<seq<SectorType>>, rows: nat, cols: nat, a: Pos, b: Pos)
    requires IsGrid(g, rows, cols)
  {
    && a.y < rows && a.x < cols && b.y < rows && b.x < cols
    && ((b.y == a.y && b.x == a.x + 1 && g[a.y][a.x].openRight && g[b.y][b.x].openLeft)
     || (b.y == a.y && a.x == b.x + 1 && g[a.y][a.x].openLeft && g[b.y][b.x].openRight)
     || (b.x == a.x && b.y == a.y + 1 && g[a.y][a.x].openDown && g[b.y][b.x].openUp)
     || (b.x == a.x && a.y == b.y + 1 && g[a.y][a.x].openUp && g[b.y][b.x].openDown))
  }

  /** A non-empty walk through linked sectors. */
  predicate IsWalk(g: seq<seq<SectorType>>, rows: nat, cols: nat, w: seq<Pos>)
    requires IsGrid(g, rows, cols)
  {
    && |w| >= 1
    && w[0].y < rows && w[0].x < cols
    && forall i :: 0 <= i < |w| - 1 ==> Linked(g, rows, cols, w[i], w[i + 1])
  }

  lemma {:induction false} WalkAppend(g: seq<seq<SectorType>>, rows: nat, cols: nat, v: seq<Pos>, w: seq<Pos>)
    requires IsGrid(g, rows, cols) && IsWalk(g, rows, cols, v) && IsWalk(g, rows, cols, w)
    requires Linked(g, rows, cols, v[|v| - 1], w[0])
    ensures IsWalk(g, rows, cols, v + w)
  {
    var u := v + w;
    forall i | 0 <= i < |u| - 1 ensures Linked(g, rows, cols, u[i], u[i + 1]) {
      if i < |v| - 1 {
        assert u[i] == v[i] && u[i + 1] == v[i + 1];
      } else if i == |v| - 1 {
        assert u[i] == v[|v| - 1] && u[i + 1] == w[0];
      } else {
        assert u[i] == w[i - |v|] && u[i + 1] == w[i - |v| + 1];
      }
    }
  }

  /** The sectors of row `y` from column `a` to column `b`, one step at a
      time. */
  function RowWalk(y: nat, a: nat, b: nat): (w: seq<Pos>)
    decreases if a <= b then b - a else a - b
    ensures |w| >= 1 && w[0] == Pos(y, a) && w[|w| - 1] == Pos(y, b)
  {
    if a == b then [Pos(y, a)]
    else if a < b then [Pos(y, a)] + RowWalk(y, a + 1, b)
    else [Pos(y, a)] + RowWalk(y, a - 1, b)
  }

  /** Within a row's run every sector is linked to the next one, so the
      row walk between two columns of the run is a walk of the layout. */
  lemma {:induction false} RowWalkInRun(p: Params, y: nat, a: nat, b: nat)
    requires p.Valid() && y < p.rows
    requires Lo(p, y) <= a <= Hi(p, y) && Lo(p, y) <= b <= Hi(p, y)
    ensures IsWalk(Layout(p), p.rows, p.cols, RowWalk(y, a, b))
    decreases if a <= b then b - a else a - b
  {
    var g := Layout(p);
    assert Hi(p, y) < p.cols;
    if a == b {
    } else {
      var next := if a < b then a + 1 else a - 1;
      RowWalkInRun(p, y, next, b);
      assert g[y][a] == Expected(p, y, a) && g[y][next] == Expected(p, y, next);
      WalkAppend(g, p.rows, p.cols, [Pos(y, a)], RowWalk(y, next, b));
    }
  }

  /** The walk from row `y`'s entry column through every later row down
      to the exit. */
  function WalkFrom(p: Params, y: nat): (w: seq<Pos>)
    requires p.Valid() && y < p.rows
    decreases p.rows - y
    ensures |w| >= 1 && w[0] == Pos(y, InCol(p, y)) && w[|w| - 1] == Pos(p.rows - 1, p.exit)
  {
    var row := RowWalk(y, InCol(p, y), OutCol(p, y));
    if y == p.rows - 1 then row else row + WalkFrom(p, y + 1)
  }

  /** Every walk `WalkFrom` builds is a walk of the layout. */
  lemma {:induction false} WalkFromIsWalk(p: Params, y: nat)
    requires p.Valid() && y < p.rows
    ensures IsWalk(Layout(p), p.rows, p.cols, WalkFrom(p, y))
    decreases p.rows - y
  {
    var g := Layout(p);
    RowWalkInRun(p, y, InCol(p, y), OutCol(p, y));
    if y < p.rows - 1 {
      WalkFromIsWalk(p, y + 1);
      var d := p.downs[y];
      assert g[y][d] == Expected(p, y, d) && g[y + 1][d] == Expected(p, y + 1, d);
      WalkAppend(g, p.rows, p.cols, RowWalk(y, InCol(p, y), OutCol(p, y)), WalkFrom(p, y + 1));
    }
  }

  /** The exit can be reached from the entrance by moving only between
      adjacent sectors whose facing sides are open. */
  lemma EntranceReachesExit(p: Params)
    requires p.Valid()
    ensures exists w ::
      (IsWalk(Layout(p), p.rows, p.cols, w) && w[0] == Pos(0, p.entrance) && w[|w| - 1] == Pos(p.rows - 1, p.exit))
  {
    WalkFromIsWalk(p, 0);
    var w := WalkFrom(p, 0);
    assert IsWalk(Layout(p), p.rows, p.cols, w) && w[0] == Pos(0, p.entrance) && w[|w| - 1] == Pos(p.rows - 1, p.exit);
  }

  /** Openings are two-sided, so links go both ways. */
  lemma LinkedSymmetric(g: seq<seq<SectorType>>, rows: nat, cols: nat, a: Pos, b: Pos)
    requires IsGrid(g, rows, cols)
    ensures Linked(g, rows, cols, a, b) <==> Linked(g, rows, cols, b, a)
  {
  }

  function Reverse(w: seq<Pos>): (r: seq<Pos>)
    ensures |r| == |w| && forall i :: 0 <= i < |w| ==> r[i] == w[|w| - 1 - i]
  {
    seq(|w|, i requires 0 <= i < |w| => w[|w| - 1 - i])
  }

  /** A walk read backwards is a walk. */
  lemma ReverseWalk(g: seq<seq<SectorType>>, rows: nat, cols: nat, w: seq<Pos>)
    requires IsGrid(g, rows, cols) && IsWalk(g, rows, cols, w)
    ensures IsWalk(g, rows, cols, Reverse(w))
  {
    var r := Reverse(w);
    var n := |w|;
    if n > 1 {
      assert Linked(g, rows, cols, w[n - 2], w[n - 1]);
    }
    forall i | 0 <= i < n - 1 ensures Linked(g, rows, cols, r[i], r[i + 1]) {
      LinkedSymmetric(g, rows, cols, w[n - 2 - i], w[n - 1 - i]);
    }
  }

  /** Every sector a walk from the entrance reaches can in turn reach the
      exit. */
  lemma ReachableReachesExit(p: Params, w: seq<Pos>)
    requires p.Valid()
    requires IsWalk(Layout(p), p.rows, p.cols, w) && w[0] == Pos(0, p.entrance)
    ensures exists v ::
      (IsWalk(Layout(p), p.rows, p.cols, v) && v[0] == w[|w| - 1] && v[|v| - 1] == Pos(p.rows - 1, p.exit))
  {
    var g := Layout(p);
    ReverseWalk(g, p.rows, p.cols, w);
    var back := Reverse(w);
    WalkFromIsWalk(p, 0);
    var fwd := WalkFrom(p, 0);
    assert |fwd| >= 2;
    var rest := fwd[1..];
    assert Linked(g, p.rows, p.cols, fwd[0], fwd[1]);
    assert IsWalk(g, p.rows, p.cols, rest) by {
      forall i | 0 <= i < |rest| - 1 ensures Linked(g, p.rows, p.cols, rest[i], rest[i + 1]) {
        assert rest[i] == fwd[i + 1] && rest[i + 1] == fwd[i + 2];
      }
    }
    WalkAppend(g, p.rows, p.cols, back, rest);
    var v := back + rest;
    assert v[0] == w[|w| - 1] && v[|v| - 1] == Pos(p.rows - 1, p.exit);
  }

  /** The `u8` values of a layout. */
  function LayoutBits(g: seq<seq<SectorType>>): seq<seq<bv8>> {
    seq(|g|, y requires 0 <= y < |g| => seq(|g[y]|, x requires 0 <= x < |g[y]| => g[y][x].Bits()))
  }

  /** One 4 by 4 generation: entrance in column 2, exit in column 1, rows
      linked downwards in columns 1, 3 and 0. */
  lemma Example4x4()
    ensures var p := Params(ROWS, COLS, 2, 1, [1, 3, 0]);
      p.Valid() && LayoutBits(Layout(p)) == [
        [0x00, 0x05, 0x22, 0x00],
        [0x00, 0x09, 0x03, 0x06],
        [0x05, 0x03, 0x03, 0x0A],
        [0x09, 0x12, 0x00, 0x00]]
  {
    var p := Params(ROWS, COLS, 2, 1, [1, 3, 0]);
    var e: seq<seq<bv8>> := [
      [0x00, 0x05, 0x22, 0x00],
      [0x00, 0x09, 0x03, 0x06],
      [0x05, 0x03, 0x03, 0x0A],
      [0x09, 0x12, 0x00, 0x00]];
    var g := Layout(p);
    var b := LayoutBits(g);
    assert Lo(p, 0) == 1 && Hi(p, 0) == 2;
    assert Lo(p, 1) == 1 && Hi(p, 1) == 3;
    assert Lo(p, 2) == 0 && Hi(p, 2) == 3;
    assert Lo(p, 3) == 0 && Hi(p, 3) == 1;
    forall y | 0 <= y < 4 ensures b[y] == e[y] {
      forall x | 0 <= x < 4 ensures b[y][x] == e[y][x] {
        assert b[y][x] == Expected(p, y, x).Bits();
      }
    }
  }
}
