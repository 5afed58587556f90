/** The board and the generational step (src/automata.rs:5-43, 104-117). */
module Automata {
  import opened Wrappers
  import opened RowMajor
  import opened Neighbours
  import opened Rules

  /** A width x height grid of tiles kept as one flat row-major buffer. */
  class Board {
    const width: nat
    const height: nat
    var tiles: seq<u8>

    /** The buffer always holds one tile per cell. */
    ghost predicate Valid()
      reads this
    {
      |tiles| == width * height
    }

    /** `Board::new`: every tile dead. */
    constructor (width: nat, height: nat)
      ensures Valid() && this.width == width && this.height == height
      ensures tiles == seq(width * height, _ => 0)
    {
      this.width := width;
      this.height := height;
      tiles := seq(width * height, _ => 0);
    }

    /** `get_tile`: for an on-board position, the tile the neighbour count
        and the step see there. */
    function GetTile(x: nat, y: nat): (t: u8)
      reads this
      requires Valid() && x + y * width < |tiles|
      ensures x < width && y < height ==> t == Cell(tiles, width, height, x, y)
    {
      At(tiles, width, x, y)
    }

    /** `set_tile`: overwrite the one slot (x, y) addresses. */
    method SetTile(x: nat, y: nat, val: u8)
      requires x + y * width < |tiles|
      modifies this
      ensures tiles == old(tiles)[x + y * width := val]
    {
      tiles := tiles[x + y * width := val];
    }

    /** `randomize(num, den)`: every tile becomes alive with probability
        num/den. The random source is the parameter `draws`, whose i-th entry is
        that source's answer for tile i. `gen_ratio` panics when den is 0 or num
        exceeds den, and is only asked when there is a tile. */
    method Randomize(num: nat, den: nat, draws: seq<bool>) returns (ok: bool)
      requires Valid() && |draws| == |tiles|
      modifies this
      ensures Valid()
      ensures ok <==> |old(tiles)| == 0 || (0 < den && num <= den)
      ensures ok ==> |tiles| == |draws| && forall i | 0 <= i < |draws| :: tiles[i] == if draws[i] then 1 else 0
      ensures !ok ==> tiles == old(tiles)
    {
      if |tiles| > 0 && (den == 0 || num > den) {
        return false;
      }
      tiles := seq(|draws|, i requires 0 <= i < |draws| => if draws[i] then 1 else 0);
      ok := true;
    }

    /** `count_neighbours`: the clipped double loop over the 3x3 block around
        (x, y), skipping the centre. The source adds into a `u8`; the debug
        build panics on the first add past 255, and since tiles are never
        negative that happens exactly when the total passes 255. */
    method CountNeighbours(x: int, y: int) returns (count: Option<u8>)
      requires Valid()
      ensures count.Some? <==> NeighbourSum(tiles, width, height, x, y) <= 255
      ensures count.Some? ==> count.value == NeighbourSum(tiles, width, height, x, y)
    {
      var c: nat := 0;
      var xlo, xhi := Max(0, x - 1), Min(x + 2, width);
      var ylo, yhi := Max(0, y - 1), Min(y + 2, height);
      var nx := xlo;
      while nx < xhi
        invariant xlo <= nx && (nx <= xhi || nx == xlo)
        invariant c == WindowSum(tiles, width, height, x, y, xlo, nx, ylo, yhi)
      {
        var ny := ylo;
        while ny < yhi
          invariant ylo <= ny && (ny <= yhi || ny == ylo)
          invariant c == WindowSum(tiles, width, height, x, y, xlo, nx, ylo, yhi)
                       + ColumnSum(tiles, width, height, x, y, nx, ylo, ny)
        {
          if !(nx == x && ny == y) {
            IndexInBounds(width, height, nx, ny);
            c := c + GetTile(nx, ny);
          }
          ny := ny + 1;
        }
        nx := nx + 1;
      }
      WindowIsNeighbourSum(tiles, width, height, x, y);
      if c > 255 {
        return None;
      }
      count := Some(c);
    }

    /** `replace_tiles`: adopt a whole new buffer, which must have the same
        length ("Wrong tile count!" otherwise). */
    method ReplaceTiles(newTiles: seq<u8>) returns (ok: bool)
      requires Valid()
      modifies this
      ensures Valid()
      ensures ok <==> |newTiles| == |old(tiles)|
      ensures tiles == if ok then newTiles else old(tiles)
    {
      if |newTiles| != |tiles| {
        return false;
      }
      tiles := newTiles;
      ok := true;
    }
  }

  /** Every cell's neighbour count indexes the 9-slot rule tables. */
  predicate Steppable(tiles: seq<u8>, w: nat, h: nat)
    requires |tiles| == w * h
  {
    forall x, y | 0 <= x < w && 0 <= y < h :: NeighbourSum(tiles, w, h, x, y) <= 8
  }

  /** The next state of cell (x, y): a dead cell follows `birth`, a live one
      `survive`, both indexed by its neighbour count in the current generation. */
  function NextCell(tiles: seq<u8>, w: nat, h: nat, birth: Rule, survive: Rule, x: nat, y: nat): u8
    requires |tiles| == w * h && x < w && y < h
    requires NeighbourSum(tiles, w, h, x, y) <= 8
  {
    var n := NeighbourSum(tiles, w, h, x, y);
    if Cell(tiles, w, h, x, y) == 0 then birth[n] else survive[n]
  }

  /** The whole next generation, every cell computed from the current one. */
  function NextGeneration(tiles: seq<u8>, w: nat, h: nat, birth: Rule, survive: Rule): (next: seq<u8>)
    requires |tiles| == w * h && Steppable(tiles, w, h)
    ensures |next| == |tiles|
  {
    seq(w * h, i requires 0 <= i < w * h =>
      IndexCovers(w, h, i);
      NextCell(tiles, w, h, birth, survive, i % w, i / w))
  }

  /** The cells before (x, y) in the step's column-by-column order hold
      their next state in `next`. */
  ghost predicate Computed(tiles: seq<u8>, next: seq<u8>, w: nat, h: nat, birth: Rule, survive: Rule, x: nat, y: nat)
    requires |tiles| == w * h && |next| == w * h
  {
    forall x', y' | 0 <= x' < w && 0 <= y' < h && (x' < x || (x' == x && y' < y)) ::
      NeighbourSum(tiles, w, h, x', y') <= 8 &&
      Cell(next, w, h, x', y') == NextCell(tiles, w, h, birth, survive, x', y')
  }

  lemma CellAfterSet(tiles: seq<u8>, w: nat, h: nat, x: nat, y: nat, v: u8, x': int, y': int)
    requires |tiles| == w * h && x < w && y < h && x + y * w < |tiles|
    ensures Cell(tiles[x + y * w := v], w, h, x', y') == if x' == x && y' == y then v else Cell(tiles, w, h, x', y')
  {
    if InGrid(w, h, x', y') {
      IndexInBounds(w, h, x', y');
      if x' + y' * w == x + y * w {
        IndexInjective(w, x, y, x', y');
      }
    }
  }

  lemma ComputedSet(tiles: seq<u8>, next: seq<u8>, w: nat, h: nat, birth: Rule, survive: Rule, x: nat, y: nat)
    requires |tiles| == w * h && |next| == w * h && x < w && y < h
    requires Computed(tiles, next, w, h, birth, survive, x, y)
    requires NeighbourSum(tiles, w, h, x, y) <= 8
    requires x + y * w < |next|
    ensures Computed(tiles, next[x + y * w := NextCell(tiles, w, h, birth, survive, x, y)], w, h, birth, survive, x, y + 1)
  {
    var v := NextCell(tiles, w, h, birth, survive, x, y);
    forall x', y' | 0 <= x' < w && 0 <= y' < h
      ensures Cell(next[x + y * w := v], w, h, x', y') == if x' == x && y' == y then v else Cell(next, w, h, x', y')
    {
      CellAfterSet(next, w, h, x, y, v, x', y');
    }
  }

  lemma ComputedAll(tiles: seq<u8>, next: seq<u8>, w: nat, h: nat, birth: Rule, survive: Rule)
    requires |tiles| == w * h && |next| == w * h
    requires Computed(tiles, next, w, h, birth, survive, w, 0)
    ensures Steppable(tiles, w, h)
    ensures next == NextGeneration(tiles, w, h, birth, survive)
  {
    forall i | 0 <= i < w * h
      ensures next[i] == NextGeneration(tiles, w, h, birth, survive)[i]
    {
      IndexCovers(w, h, i);
    }
  }

  /** `automata_step`: compute every cell of the next generation into a fresh
      board from the current one only, then swap it in. It fails, leaving the
      board as it was, when some neighbour count does not index the tables. */
  method AutomataStep(board: Board, birth: Rule, survive: Rule) returns (ok: bool)
    requires board.Valid()
    modifies board
    ensures board.Valid()
    ensures ok <==> Steppable(old(board.tiles), board.width, board.height)
    ensures ok ==> board.tiles == NextGeneration(old(board.tiles), board.width, board.height, birth, survive)
    ensures !ok ==> board.tiles == old(board.tiles)
  {
    var w, h := board.width, board.height;
    var temp := new Board(w, h);
    for x := 0 to w
      invariant board.tiles == old(board.tiles)
      invariant temp.Valid()
      invariant Computed(board.tiles, temp.tiles, w, h, birth, survive, x, 0)
    {
      for y := 0 to h
        invariant board.tiles == old(board.tiles)
        invariant temp.Valid()
        invariant Computed(board.tiles, temp.tiles, w, h, birth, survive, x, y)
      {
        var n := board.CountNeighbours(x, y);
        if n.None? || n.value > 8 {
          return false;
        }
        IndexInBounds(w, h, x, y);
        ComputedSet(board.tiles, temp.tiles, w, h, birth, survive, x, y);
        if board.GetTile(x, y) == 0 {
          temp.SetTile(x, y, birth[n.value]);
        } else {
          temp.SetTile(x, y, survive[n.value]);
        }
      }
    }
    ComputedAll(board.tiles, temp.tiles, w, h, birth, survive);
    ok := board.ReplaceTiles(temp.tiles);
  }

  /** Simultaneous update: the new tile at (x, y) is `birth[n]` for a dead tile
      and `survive[n]` for a live one, with the tile and its neighbour count n
      both taken from the current generation. */
  lemma {:induction false} NextGenerationAt(tiles: seq<u8>, w: nat, h: nat, birth: Rule, survive: Rule, x: nat, y: nat)
    requires |tiles| == w * h && Steppable(tiles, w, h) && x < w && y < h
    ensures x + y * w < |tiles|
    ensures var n := NeighbourSum(tiles, w, h, x, y);
      At(NextGeneration(tiles, w, h, birth, survive), w, x, y) == if At(tiles, w, x, y) == 0 then birth[n] else survive[n]
  {
    IndexInBounds(w, h, x, y);
    IndexSplit(w, x, y);
  }

  /** A board of 0/1 tiles can always be stepped: no count exceeds 8. */
  lemma BinaryBoardSteppable(tiles: seq<u8>, w: nat, h: nat)
    requires |tiles| == w * h && IsBinary(tiles)
    ensures Steppable(tiles, w, h)
  {
    forall x, y | 0 <= x < w && 0 <= y < h
      ensures NeighbourSum(tiles, w, h, x, y) <= 8
    {
      NeighbourSumBound(tiles, w, h, x, y);
    }
  }

  /** With 0/1 rule tables, such as every table `RuleTable` yields, the next
      generation consists of 0/1 tiles again. */
  lemma NextGenerationBinary(tiles: seq<u8>, w: nat, h: nat, birth: Rule, survive: Rule)
    requires |tiles| == w * h && Steppable(tiles, w, h)
    requires IsBinary(birth) && IsBinary(survive)
    ensures IsBinary(NextGeneration(tiles, w, h, birth, survive))
  {
    var next := NextGeneration(tiles, w, h, birth, survive);
    forall i | 0 <= i < |next|
      ensures next[i] <= 1
    {
      IndexCovers(w, h, i);
      var n := NeighbourSum(tiles, w, h, i % w, i / w);
      assert birth[n] <= 1 && survive[n] <= 1;
    }
  }

  /** Stepping parsed rules on a 0/1 board succeeds and keeps it 0/1, so the
      driver's loop can go on for ever. */
  lemma ParsedRulesKeepBoardBinary(tiles: seq<u8>, w: nat, h: nat, b: string, s: string)
    requires |tiles| == w * h && IsBinary(tiles)
    ensures Steppable(tiles, w, h)
    ensures IsBinary(NextGeneration(tiles, w, h, RuleTable(b), RuleTable(s)))
  {
    BinaryBoardSteppable(tiles, w, h);
    NextGenerationBinary(tiles, w, h, RuleTable(b), RuleTable(s));
  }

  /** On a 3x3 board under B3/S23 a lone live centre has no neighbours and
      dies; nothing is born. */
  lemma LoneCellDies()
    ensures var tiles := [0, 0, 0, 0, 1, 0, 0, 0, 0];
      Steppable(tiles, 3, 3) &&
      NextGeneration(tiles, 3, 3, RuleTable("3"), RuleTable("23")) == [0, 0, 0, 0, 0, 0, 0, 0, 0]
  {
    var tiles: seq<u8> := [0, 0, 0, 0, 1, 0, 0, 0, 0];
    BinaryBoardSteppable(tiles, 3, 3);
    var next := NextGeneration(tiles, 3, 3, RuleTable("3"), RuleTable("23"));
    forall i | 0 <= i < 9
      ensures next[i] == 0
    {
      LoneCellNext(i % 3, i / 3);
    }
  }

  lemma LoneCellNext(x: nat, y: nat)
    requires x < 3 && y < 3
    ensures var tiles: seq<u8> := [0, 0, 0, 0, 1, 0, 0, 0, 0];
      Steppable(tiles, 3, 3) &&
      NextGeneration(tiles, 3, 3, RuleTable("3"), RuleTable("23"))[x + 3 * y] == 0
  {
    var tiles: seq<u8> := [0, 0, 0, 0, 1, 0, 0, 0, 0];
    BinaryBoardSteppable(tiles, 3, 3);
    ConwayRules();
    LoneCellNeighbours(x, y);
    NextGenerationAt(tiles, 3, 3, RuleTable("3"), RuleTable("23"), x, y);
  }

  lemma LoneCellNeighbours(x: nat, y: nat)
    requires x < 3 && y < 3
    ensures NeighbourSum([0, 0, 0, 0, 1, 0, 0, 0, 0], 3, 3, x, y) == if x == 1 && y == 1 then 0 else 1
  {
  }

  /** On a 3x3 board whose eight outer cells are alive, the dead centre has 8
      neighbours and under birth rule "3" stays dead. */
  lemma SurroundedCentreStaysDead(survive: Rule)
    ensures var tiles := [1, 1, 1, 1, 0, 1, 1, 1, 1];
      Steppable(tiles, 3, 3) &&
      NeighbourSum(tiles, 3, 3, 1, 1) == 8 &&
      At(NextGeneration(tiles, 3, 3, RuleTable("3"), survive), 3, 1, 1) == 0
  {
    var tiles: seq<u8> := [1, 1, 1, 1, 0, 1, 1, 1, 1];
    BinaryBoardSteppable(tiles, 3, 3);
    ConwayRules();
    NextGenerationAt(tiles, 3, 3, RuleTable("3"), survive, 1, 1);
  }
}
