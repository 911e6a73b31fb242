/** The maze: a row-major character grid, its line-based loader and its validator (map.cpp). */
module Grid {
  import opened Basic
  import opened Wrappers

  /** Why loading or validating a map fails; one value per `runtime_error` the loader throws. */
  datatype MapError =
    | MismatchedWidth
    | TooWide
    | TooTall
    | InvalidCharacter
    | MissingEdge
    | OpenArea
    | LambdaManCount
    | GhostCount
    | FruitCount

  /** Row-major address of a cell. */
  function Index(width: int, p: Position): int
  {
    p.x + p.y * width
  }

  predicate InBounds(width: int, height: int, p: Position)
  {
    0 <= p.x < width && 0 <= p.y < height
  }

  /** A cell that is not on the outermost ring; all four of its neighbours are in bounds. */
  predicate Interior(width: int, height: int, p: Position)
  {
    1 <= p.x < width - 1 && 1 <= p.y < height - 1
  }

  lemma IndexInRange(width: int, height: int, p: Position)
    requires InBounds(width, height, p)
    ensures 0 <= Index(width, p) < width * height
  {
    assert 0 <= p.y * width;
    RowGap(p.y, height, width);
  }

  /** Rows lie `width` cells apart: row a ends before row b starts. */
  lemma RowGap(a: int, b: int, width: int)
    requires a < b && 0 <= width
    ensures a * width + width <= b * width
  {
    var k := b - a;
    MulAtLeast(k, width);
    assert b * width == a * width + k * width;
  }

  lemma {:induction false} MulAtLeast(k: int, width: int)
    requires 1 <= k && 0 <= width
    ensures width <= k * width
    decreases k
  {
    if k > 1 {
      MulAtLeast(k - 1, width);
      assert k * width == (k - 1) * width + width;
    }
  }

  /** Two in-bounds positions share a row-major address only if they are the same cell. */
  lemma IndexInjective(width: int, p: Position, q: Position)
    requires 0 <= p.x < width && 0 <= q.x < width
    requires Index(width, p) == Index(width, q)
    ensures p == q
  {
    if p.y < q.y {
      RowGap(p.y, q.y, width);
      assert false;
    } else if q.y < p.y {
      RowGap(q.y, p.y, width);
      assert false;
    }
  }

  /** The grid data with cell p overwritten by c. */
  function Put(width: int, height: int, data: seq<char>, p: Position, c: char): (d: seq<char>)
    requires |data| == width * height && InBounds(width, height, p)
    ensures |d| == |data|
  {
    IndexInRange(width, height, p);
    data[Index(width, p) := c]
  }

  /** Writing one cell changes the glyph of that cell and of no other. */
  lemma AtUpdate(width: int, height: int, data: seq<char>, p: Position, c: char, q: Position)
    requires |data| == width * height && InBounds(width, height, p) && InBounds(width, height, q)
    ensures At(width, height, Put(width, height, data, p, c), q) == if q == p then c else At(width, height, data, q)
  {
    IndexInRange(width, height, p);
    IndexInRange(width, height, q);
    if q != p && Index(width, q) == Index(width, p) {
      IndexInjective(width, p, q);
    }
  }

  lemma InteriorNeighbour(width: int, height: int, p: Position, d: Direction)
    requires Interior(width, height, p)
    ensures InBounds(width, height, Move(p, d))
  {
  }

  /** The glyph of an in-bounds cell of a grid given by its width and its data. */
  function At(width: int, height: int, data: seq<char>, p: Position): char
    requires |data| == width * height
    requires InBounds(width, height, p)
  {
    IndexInRange(width, height, p);
    data[Index(width, p)]
  }

  // ---------------------------------------------------------------
  // Loading: lines to grid

  /** The non-empty lines, in order: the rows of the map. */
  function Rows(lines: seq<string>): (rows: seq<string>)
    ensures forall i :: 0 <= i < |rows| ==> rows[i] != []
  {
    if lines == [] then []
    else Rows(lines[..|lines| - 1]) + (if lines[|lines| - 1] == [] then [] else [lines[|lines| - 1]])
  }

  /** The characters of the rows, one row after another. */
  function Concat(rows: seq<string>): seq<char>
  {
    if rows == [] then [] else Concat(rows[..|rows| - 1]) + rows[|rows| - 1]
  }

  /** The width the loader settles on: the length of the first row, or 0 when there is none. */
  function RowWidth(rows: seq<string>): nat
  {
    if rows == [] then 0 else |rows[0]|
  }

  /** Every row has the width of the first one. */
  predicate Uniform(rows: seq<string>)
  {
    forall i :: 0 <= i < |rows| ==> |rows[i]| == RowWidth(rows)
  }

  lemma RowsAppend(lines: seq<string>, line: string)
    ensures Rows(lines + [line]) == Rows(lines) + (if line == [] then [] else [line])
  {
    assert (lines + [line])[..|lines|] == lines;
  }

  lemma ConcatAppend(rows: seq<string>, row: string)
    ensures Concat(rows + [row]) == Concat(rows) + row
  {
    assert (rows + [row])[..|rows|] == rows;
  }

  /** Rows of one width concatenate to width*height characters. */
  lemma {:induction false} ConcatLength(rows: seq<string>, width: int)
    requires forall i :: 0 <= i < |rows| ==> |rows[i]| == width
    ensures |Concat(rows)| == |rows| * width
  {
    if rows != [] {
      ConcatLength(rows[..|rows| - 1], width);
      assert (|rows| - 1) * width + width == |rows| * width;
    }
  }

  /** Loading keeps every row in place: cell (x, y) of the grid is character x of the y-th non-empty line. */
  lemma {:induction false} ConcatAt(rows: seq<string>, width: int, p: Position)
    requires forall i :: 0 <= i < |rows| ==> |rows[i]| == width
    requires InBounds(width, |rows|, p)
    ensures |Concat(rows)| == |rows| * width
    ensures At(width, |rows|, Concat(rows), p) == rows[p.y][p.x]
  {
    ConcatLength(rows, width);
    var init := rows[..|rows| - 1];
    ConcatLength(init, width);
    if p.y < |rows| - 1 {
      ConcatAt(init, width, p);
      IndexInRange(width, |rows| - 1, p);
    } else {
      assert Index(width, p) == |init| * width + p.x;
    }
  }

  // ---------------------------------------------------------------
  // Validation, check by check in the order the validator makes them

  predicate IsGlyph(c: char)
  {
    c == '#' || c == ' ' || c == '.' || c == 'o' || c == '\\' || c == '=' || c == '%'
  }

  predicate Alphabet(data: seq<char>)
  {
    forall i :: 0 <= i < |data| ==> IsGlyph(data[i])
  }

  /** Column x has a wall at its top and bottom row. */
  predicate WalledColumn(width: int, height: int, data: seq<char>, x: int)
    requires |data| == width * height && 0 <= x < width && 0 < height
  {
    At(width, height, data, Position(x, 0)) == '#' && At(width, height, data, Position(x, height - 1)) == '#'
  }

  /** Row y has a wall at its left and right end. */
  predicate WalledRow(width: int, height: int, data: seq<char>, y: int)
    requires |data| == width * height && 0 < width && 0 <= y < height
  {
    At(width, height, data, Position(0, y)) == '#' && At(width, height, data, Position(width - 1, y)) == '#'
  }

  /** Every cell of the first and last row and column is a wall. */
  predicate Walled(width: int, height: int, data: seq<char>)
    requires |data| == width * height && (width == 0 <==> height == 0)
  {
    && (forall x :: 0 <= x < width ==> WalledColumn(width, height, data, x))
    && (forall y :: 0 <= y < height ==> WalledRow(width, height, data, y))
  }

  /** The 2x2 block with top-left corner (x, y) is four spaces. */
  predicate OpenBlock(width: int, height: int, data: seq<char>, x: int, y: int)
    requires |data| == width * height && 0 <= x < width - 1 && 0 <= y < height - 1
  {
    && At(width, height, data, Position(x, y)) == ' '
    && At(width, height, data, Position(x + 1, y)) == ' '
    && At(width, height, data, Position(x, y + 1)) == ' '
    && At(width, height, data, Position(x + 1, y + 1)) == ' '
  }

  /** No open block with its corner in the range the validator scans (x in [1, width-2), y in [1, height-2)). */
  predicate NoOpenArea(width: int, height: int, data: seq<char>)
    requires |data| == width * height
  {
    forall x, y :: 1 <= x < width - 2 && 1 <= y < height - 2 ==> !OpenBlock(width, height, data, x, y)
  }

  /**
   * How many cells hold `c` among the cells the validator's spawn count has visited before
   * reaching column x, row y: all of columns 0..x-1, then rows 0..y-1 of column x.
   */
  function ScanCount(width: int, height: int, data: seq<char>, c: char, x: int, y: int): nat
    requires |data| == width * height
    requires 0 <= x <= width && 0 <= y <= height && (x < width || y == 0)
    decreases x, y
  {
    if y > 0 then
      ScanCount(width, height, data, c, x, y - 1) + (if At(width, height, data, Position(x, y - 1)) == c then 1 else 0)
    else if x > 0 then ScanCount(width, height, data, c, x - 1, height)
    else 0
  }

  /** How many cells of the whole grid hold `c`. */
  function GlyphCount(width: int, height: int, data: seq<char>, c: char): nat
    requires |data| == width * height
    requires 0 <= width && 0 <= height
  {
    ScanCount(width, height, data, c, width, 0)
  }

  /** The verdict of the validator: the first check that fails, or Pass. */
  function Validation(width: int, height: int, data: seq<char>): Outcome<MapError>
    requires |data| == width * height && 0 <= width && 0 <= height && (width == 0 <==> height == 0)
  {
    if width > 256 then Fail(TooWide)
    else if height > 256 then Fail(TooTall)
    else if !Alphabet(data) then Fail(InvalidCharacter)
    else if !Walled(width, height, data) then Fail(MissingEdge)
    else if !NoOpenArea(width, height, data) then Fail(OpenArea)
    else if GlyphCount(width, height, data, '\\') != 1 then Fail(LambdaManCount)
    else if GlyphCount(width, height, data, '=') > 256 then Fail(GhostCount)
    else if GlyphCount(width, height, data, '%') != 1 then Fail(FruitCount)
    else Pass
  }

  /** A grid the validator accepts. */
  predicate WellFormed(width: int, height: int, data: seq<char>)
    requires |data| == width * height && 0 <= width && 0 <= height && (width == 0 <==> height == 0)
  {
    Validation(width, height, data) == Pass
  }

  /** What the loader produces from its lines when the validator is (`checked`) or is not compiled in. */
  function LoadResult(lines: seq<string>, checked: bool): Outcome<MapError>
  {
    var rows := Rows(lines);
    if !Uniform(rows) then Fail(MismatchedWidth)
    else if !checked then Pass
    else
      ConcatLength(rows, RowWidth(rows));
      Validation(RowWidth(rows), |rows|, Concat(rows))
  }

  // ---------------------------------------------------------------
  // Facts about the counting and about accepted grids

  /** A positive count exhibits a cell holding the glyph in the scanned region. */
  lemma {:induction false} ScanCountWitness(width: int, height: int, data: seq<char>, c: char, x: int, y: int)
    returns (p: Position)
    requires |data| == width * height
    requires 0 <= x <= width && 0 <= y <= height && (x < width || y == 0)
    requires ScanCount(width, height, data, c, x, y) > 0
    ensures InBounds(width, height, p) && At(width, height, data, p) == c
    ensures p.x < x || (p.x == x && p.y < y)
    decreases x, y
  {
    if y > 0 {
      if At(width, height, data, Position(x, y - 1)) == c {
        p := Position(x, y - 1);
      } else {
        p := ScanCountWitness(width, height, data, c, x, y - 1);
      }
    } else {
      p := ScanCountWitness(width, height, data, c, x - 1, height);
    }
  }

  /** Two different cells holding the glyph in the scanned region make the count at least 2. */
  lemma {:induction false} ScanCountTwo(width: int, height: int, data: seq<char>, c: char, x: int, y: int, p: Position, q: Position)
    requires |data| == width * height
    requires 0 <= x <= width && 0 <= y <= height && (x < width || y == 0)
    requires InBounds(width, height, p) && At(width, height, data, p) == c && (p.x < x || (p.x == x && p.y < y))
    requires InBounds(width, height, q) && At(width, height, data, q) == c && (q.x < x || (q.x == x && q.y < y))
    requires p != q
    ensures ScanCount(width, height, data, c, x, y) >= 2
    decreases x, y
  {
    if y > 0 {
      var last := Position(x, y - 1);
      if p == last {
        ScanCountOne(width, height, data, c, x, y - 1, q);
      } else if q == last {
        ScanCountOne(width, height, data, c, x, y - 1, p);
      } else {
        ScanCountTwo(width, height, data, c, x, y - 1, p, q);
      }
    } else {
      ScanCountTwo(width, height, data, c, x - 1, height, p, q);
    }
  }

  /** One cell holding the glyph in the scanned region makes the count positive. */
  lemma {:induction false} ScanCountOne(width: int, height: int, data: seq<char>, c: char, x: int, y: int, p: Position)
    requires |data| == width * height
    requires 0 <= x <= width && 0 <= y <= height && (x < width || y == 0)
    requires InBounds(width, height, p) && At(width, height, data, p) == c && (p.x < x || (p.x == x && p.y < y))
    ensures ScanCount(width, height, data, c, x, y) >= 1
    decreases x, y
  {
    if y > 0 {
      if p != Position(x, y - 1) {
        ScanCountOne(width, height, data, c, x, y - 1, p);
      }
    } else {
      ScanCountOne(width, height, data, c, x - 1, height, p);
    }
  }

  /** A glyph counted exactly once occupies exactly one cell. */
  lemma UniqueGlyph(width: int, height: int, data: seq<char>, c: char) returns (p: Position)
    requires |data| == width * height && 0 <= width && 0 <= height
    requires GlyphCount(width, height, data, c) == 1
    ensures InBounds(width, height, p) && At(width, height, data, p) == c
    ensures forall q :: InBounds(width, height, q) && At(width, height, data, q) == c ==> q == p
  {
    p := ScanCountWitness(width, height, data, c, width, 0);
    forall q | InBounds(width, height, q) && At(width, height, data, q) == c
      ensures q == p
    {
      if q != p {
        ScanCountTwo(width, height, data, c, width, 0, p, q);
      }
    }
  }

  /** On a walled grid, every cell that is not a wall is an interior cell. */
  lemma WalledInterior(width: int, height: int, data: seq<char>, p: Position)
    requires |data| == width * height && (width == 0 <==> height == 0)
    requires Walled(width, height, data)
    requires InBounds(width, height, p) && At(width, height, data, p) != '#'
    ensures Interior(width, height, p)
  {
    assert WalledColumn(width, height, data, p.x);
    assert WalledRow(width, height, data, p.y);
  }

  /**
   * An accepted grid is at most 256 by 256, has exactly one player spawn and exactly one fruit
   * spawn, both strictly inside the wall ring, and is therefore at least 3 by 3.
   */
  lemma WellFormedShape(width: int, height: int, data: seq<char>) returns (lambda: Position, fruit: Position)
    requires |data| == width * height && 0 <= width && 0 <= height && (width == 0 <==> height == 0)
    requires WellFormed(width, height, data)
    ensures width <= 256 && height <= 256 && 3 <= width && 3 <= height
    ensures Interior(width, height, lambda) && At(width, height, data, lambda) == '\\'
    ensures forall q :: InBounds(width, height, q) && At(width, height, data, q) == '\\' ==> q == lambda
    ensures Interior(width, height, fruit) && At(width, height, data, fruit) == '%'
    ensures forall q :: InBounds(width, height, q) && At(width, height, data, q) == '%' ==> q == fruit
  {
    lambda := UniqueGlyph(width, height, data, '\\');
    fruit := UniqueGlyph(width, height, data, '%');
    WalledInterior(width, height, data, lambda);
    WalledInterior(width, height, data, fruit);
  }

  /** The loader succeeds exactly when all non-empty lines have one width, and then its grid has that shape. */
  lemma LoadShape(lines: seq<string>)
    ensures LoadResult(lines, false) == Pass <==> Uniform(Rows(lines))
    ensures LoadResult(lines, false) == Pass ==>
      |Concat(Rows(lines))| == RowWidth(Rows(lines)) * |Rows(lines)|
    ensures RowWidth(Rows(lines)) == 0 <==> |Rows(lines)| == 0
  {
    var rows := Rows(lines);
    if Uniform(rows) {
      ConcatLength(rows, RowWidth(rows));
    }
    if rows != [] {
      assert rows[0] != [];
    }
  }

  // ---------------------------------------------------------------
  // The map object

  class Map {
    var width: int
    var height: int
    var data: seq<char>

    ghost predicate Valid()
      reads this
    {
      0 <= width && 0 <= height && |data| == width * height && (width == 0 <==> height == 0)
    }

    constructor ()
      ensures Valid() && width == 0 && height == 0 && data == []
    {
      width, height, data := 0, 0, [];
    }

    /** `Map::get`: the glyph at row-major address x + y*width. */
    function Get(p: Position): char
      reads this
      requires Valid() && InBounds(width, height, p)
    {
      At(width, height, data, p)
    }

    /** `Map::set`: overwrites exactly one cell. */
    method Set(p: Position, c: char)
      requires Valid() && InBounds(width, height, p)
      modifies this
      ensures Valid() && width == old(width) && height == old(height)
      ensures data == Put(width, height, old(data), p, c)
    {
      IndexInRange(width, height, p);
      data := data[Index(width, p) := c];
    }

    /** Copies another map's fields (the assignment `_originalMap = _map`). */
    method CopyFrom(other: Map)
      requires other != this && other.Valid()
      modifies this
      ensures Valid() && width == other.width && height == other.height && data == other.data
    {
      width, height, data := other.width, other.height, other.data;
    }

    /**
     * `Map::init`: reads the lines, skipping empty ones; the first non-empty line fixes the width
     * and a later one of another length fails. When `checked` (a build without NDEBUG) the
     * validator runs on the result.
     */
    method Init(lines: seq<string>, checked: bool) returns (r: Outcome<MapError>)
      modifies this
      ensures r == LoadResult(lines, checked)
      ensures !(r == Fail(MismatchedWidth)) ==>
        Valid() && width == RowWidth(Rows(lines)) && height == |Rows(lines)| && data == Concat(Rows(lines))
    {
      width, height, data := 0, 0, [];
      var i := 0;
      while i < |lines|
        invariant 0 <= i <= |lines|
        invariant Uniform(Rows(lines[..i]))
        invariant width == RowWidth(Rows(lines[..i])) && height == |Rows(lines[..i])|
        invariant data == Concat(Rows(lines[..i]))
      {
        var str := lines[i];
        assert lines[..i + 1] == lines[..i] + [str];
        RowsAppend(lines[..i], str);
        if str == [] {
          assert Rows(lines[..i + 1]) == Rows(lines[..i]);
          i := i + 1;
          continue;
        } else if width == 0 {
          width := |str|;
          assert Rows(lines[..i]) == [];
        } else if width != |str| {
          ghost var before := Rows(lines[..i]);
          assert before != [];
          assert Rows(lines[..i + 1]) == before + [str];
          assert (before + [str])[|before|] == str && (before + [str])[0] == before[0];
          assert !Uniform(Rows(lines[..i + 1]));
          RowsPrefix(lines, i + 1);
          r := Fail(MismatchedWidth);
          return;
        }
        assert Rows(lines[..i + 1]) == Rows(lines[..i]) + [str];
        ConcatAppend(Rows(lines[..i]), str);
        data := data + str;
        height := height + 1;
        i := i + 1;
      }
      assert lines[..|lines|] == lines;
      ConcatLength(Rows(lines), width);
      LoadShape(lines);
      if checked {
        r := Validate();
      } else {
        r := Pass;
      }
    }

    /** The validator's character check: every cell holds one of the seven glyphs. */
    method CheckGlyphs() returns (ok: bool)
      requires Valid()
      ensures ok == Alphabet(data)
    {
      var i := 0;
      while i < |data|
        invariant 0 <= i <= |data|
        invariant forall j :: 0 <= j < i ==> IsGlyph(data[j])
      {
        if !IsGlyph(data[i]) {
          return false;
        }
        i := i + 1;
      }
      return true;
    }

    /** The validator's edge check: `missingEdge` ends false exactly when the wall ring is whole. */
    method CheckEdges() returns (missingEdge: bool)
      requires Valid()
      ensures missingEdge == !Walled(width, height, data)
    {
      missingEdge := false;
      var x := 0;
      while x < width
        invariant 0 <= x <= width
        invariant !missingEdge <==> forall x' :: 0 <= x' < x ==> WalledColumn(width, height, data, x')
      {
        missingEdge := missingEdge || Get(Position(x, 0)) != '#';
        missingEdge := missingEdge || Get(Position(x, height - 1)) != '#';
        assert !missingEdge <==> forall x' :: 0 <= x' < x + 1 ==> WalledColumn(width, height, data, x') by {
          assert WalledColumn(width, height, data, x) <==>
            Get(Position(x, 0)) == '#' && Get(Position(x, height - 1)) == '#';
        }
        x := x + 1;
      }
      ghost var columnsWalled := !missingEdge;
      var y := 0;
      while y < height
        invariant 0 <= y <= height
        invariant !missingEdge <==> columnsWalled && forall y' :: 0 <= y' < y ==> WalledRow(width, height, data, y')
      {
        missingEdge := missingEdge || Get(Position(0, y)) != '#';
        missingEdge := missingEdge || Get(Position(width - 1, y)) != '#';
        assert !missingEdge <==> columnsWalled && forall y' :: 0 <= y' < y + 1 ==> WalledRow(width, height, data, y') by {
          assert WalledRow(width, height, data, y) <==>
            Get(Position(0, y)) == '#' && Get(Position(width - 1, y)) == '#';
        }
        y := y + 1;
      }
    }

    /** The validator's open-area check: some 2x2 block in the scanned range is all floor. */
    method HasOpenArea() returns (open: bool)
      requires Valid()
      ensures open == !NoOpenArea(width, height, data)
    {
      var x := 1;
      while x < width - 2
        invariant 1 <= x && (x <= width - 2 || x == 1)
        invariant forall x', y' :: 1 <= x' < x && 1 <= y' < height - 2 ==> !OpenBlock(width, height, data, x', y')
      {
        var y := 1;
        while y < height - 2
          invariant 1 <= x < width - 2
          invariant 1 <= y && (y <= height - 2 || y == 1)
          invariant forall x', y' :: 1 <= x' < x && 1 <= y' < height - 2 ==> !OpenBlock(width, height, data, x', y')
          invariant forall y' :: 1 <= y' < y ==> !OpenBlock(width, height, data, x, y')
        {
          if Get(Position(x, y)) == ' ' && Get(Position(x + 1, y)) == ' ' &&
             Get(Position(x, y + 1)) == ' ' && Get(Position(x + 1, y + 1)) == ' '
          {
            assert OpenBlock(width, height, data, x, y);
            return true;
          }
          y := y + 1;
        }
        x := x + 1;
      }
      return false;
    }

    /** The validator's spawn count, column by column: player, ghost and fruit glyphs. */
    method CountSpawns() returns (numLambdaMen: int, numGhosts: int, numFruit: int)
      requires Valid()
      ensures numLambdaMen == GlyphCount(width, height, data, '\\')
      ensures numGhosts == GlyphCount(width, height, data, '=')
      ensures numFruit == GlyphCount(width, height, data, '%')
    {
      numLambdaMen, numGhosts, numFruit := 0, 0, 0;
      var x := 0;
      while x < width
        invariant 0 <= x <= width
        invariant numLambdaMen == ScanCount(width, height, data, '\\', x, 0)
        invariant numGhosts == ScanCount(width, height, data, '=', x, 0)
        invariant numFruit == ScanCount(width, height, data, '%', x, 0)
      {
        var y := 0;
        while y < height
          invariant 0 <= y <= height
          invariant numLambdaMen == ScanCount(width, height, data, '\\', x, y)
          invariant numGhosts == ScanCount(width, height, data, '=', x, y)
          invariant numFruit == ScanCount(width, height, data, '%', x, y)
        {
          var c := Get(Position(x, y));
          if c == '\\' {
            numLambdaMen := numLambdaMen + 1;
          } else if c == '=' {
            numGhosts := numGhosts + 1;
          } else if c == '%' {
            numFruit := numFruit + 1;
          }
          y := y + 1;
        }
        x := x + 1;
      }
    }

    /** `Map::validate`: the checks in the source's order; the first that fails names the error. */
    method Validate() returns (r: Outcome<MapError>)
      requires Valid()
      ensures r == Validation(width, height, data)
    {
      if width > 256 {
        return Fail(TooWide);
      }
      if height > 256 {
        return Fail(TooTall);
      }
      var glyphsOk := CheckGlyphs();
      if !glyphsOk {
        return Fail(InvalidCharacter);
      }
      var missingEdge := CheckEdges();
      if missingEdge {
        return Fail(MissingEdge);
      }
      var open := HasOpenArea();
      if open {
        return Fail(OpenArea);
      }
      var numLambdaMen, numGhosts, numFruit := CountSpawns();
      if numLambdaMen != 1 {
        return Fail(LambdaManCount);
      }
      if numGhosts > 256 {
        return Fail(GhostCount);
      }
      if numFruit != 1 {
        return Fail(FruitCount);
      }
      return Pass;
    }
  }

  lemma RowsPrefix(lines: seq<string>, k: nat)
    requires k <= |lines|
    ensures !Uniform(Rows(lines[..k])) ==> !Uniform(Rows(lines))
  {
    if !Uniform(Rows(lines[..k])) {
      var pre := Rows(lines[..k]);
      var j :| 0 <= j < |pre| && |pre[j]| != RowWidth(pre);
      RowsPrefixOf(lines, k);
      var all := Rows(lines);
      assert all[..|pre|] == pre;
      assert all[j] == pre[j] && all[0] == pre[0];
    }
  }

  lemma {:induction false} RowsPrefixOf(lines: seq<string>, k: nat)
    requires k <= |lines|
    ensures |Rows(lines[..k])| <= |Rows(lines)|
    ensures Rows(lines)[..|Rows(lines[..k])|] == Rows(lines[..k])
    decreases |lines| - k
  {
    if k < |lines| {
      RowsPrefixOf(lines, k + 1);
      assert lines[..k + 1] == lines[..k] + [lines[k]];
      RowsAppend(lines[..k], lines[k]);
    } else {
      assert lines[..k] == lines;
    }
  }
}
