/** Rasterer: the image quadtree over the map's bounding box, the choice of
    zoom depth for a query, the descent to the corner tiles and the naming
    of the grid of tiles between them. Doubles are modelled as reals. */
module Rasterer {

  /* ---------------------------------------------------------------- */
  /* Tile names.                                                        */
  /* ---------------------------------------------------------------- */

  /** A quadrant digit: '1' upper left, '2' upper right, '3' lower left,
      '4' lower right. */
  predicate IsDigit(c: char) {
    '1' <= c <= '4'
  }

  predicate Digits(s: string) {
    forall i :: 0 <= i < |s| ==> IsDigit(s[i])
  }

  /** The quadrant digit of child `[row][col]`. */
  function Digit(row: nat, col: nat): (c: char)
    requires row < 2 && col < 2
    ensures IsDigit(c)
    ensures RowBit(c) == row && ColBit(c) == col
  {
    ('1' as int + 2 * row + col) as char
  }

  function ColBit(c: char): nat {
    if c == '2' || c == '4' then 1 else 0
  }

  function RowBit(c: char): nat {
    if c == '3' || c == '4' then 1 else 0
  }

  function Pow2(k: nat): (r: nat)
    ensures r >= 1
  {
    if k == 0 then 1 else 2 * Pow2(k - 1)
  }

  /** The column of the tile a digit string names, among the `2^|s|` columns
      at its depth (the first digit is the most significant). */
  function ColNum(s: string): nat {
    if s == [] then 0 else 2 * ColNum(s[..|s| - 1]) + ColBit(s[|s| - 1])
  }

  /** The row of the tile a digit string names. */
  function RowNum(s: string): nat {
    if s == [] then 0 else 2 * RowNum(s[..|s| - 1]) + RowBit(s[|s| - 1])
  }

  /** A name of length `k` lies among the `2^k` rows and columns. */
  lemma {:induction false} NumBound(s: string)
    ensures ColNum(s) < Pow2(|s|) && RowNum(s) < Pow2(|s|)
  {
    if s != [] {
      NumBound(s[..|s| - 1]);
    }
  }

  /** Appending a digit doubles the column and adds the digit's column bit;
      likewise for the row. */
  lemma {:induction false} NumSnoc(p: string, c: char)
    ensures ColNum(p + [c]) == 2 * ColNum(p) + ColBit(c)
    ensures RowNum(p + [c]) == 2 * RowNum(p) + RowBit(c)
    ensures Pow2(|p + [c]|) == 2 * Pow2(|p|)
  {
    assert (p + [c])[..|p|] == p;
  }

  /** A digit is determined by its row and column bits. */
  lemma {:induction false} DigitOfBits(c: char, d: char)
    requires IsDigit(c) && IsDigit(d)
    requires ColBit(c) == ColBit(d) && RowBit(c) == RowBit(d)
    ensures c == d
  {
  }

  /** Two tile names of one depth with the same row and column are equal:
      a name is determined by its position. */
  lemma {:induction false} NameOfPosition(s: string, t: string)
    requires Digits(s) && Digits(t) && |s| == |t|
    requires ColNum(s) == ColNum(t) && RowNum(s) == RowNum(t)
    ensures s == t
  {
    if s != [] {
      var k := |s| - 1;
      assert s == s[..k] + [s[k]] && t == t[..k] + [t[k]];
      NumSnoc(s[..k], s[k]);
      NumSnoc(t[..k], t[k]);
      DigitOfBits(s[k], t[k]);
      NameOfPosition(s[..k], t[..k]);
    }
  }

  /** One step east (the inner loop of getMapRaster): from the last digit,
      '1' and '3' become '2' and '4' and stop; '2' and '4' become '1' and
      '3' and carry to the digit before. */
  function Right(s: string): (r: string)
    requires Digits(s)
    ensures |r| == |s| && Digits(r)
    decreases |s|
  {
    if s == [] then []
    else
      var c := s[|s| - 1];
      if c == '1' || c == '3' then s[..|s| - 1] + [(c as int + 1) as char]
      else Right(s[..|s| - 1]) + [(c as int - 1) as char]
  }

  /** One step south (the row step of getMapRaster): from the last digit,
      add two; a result up to '4' stops, otherwise subtract four and carry. */
  function Down(s: string): (r: string)
    requires Digits(s)
    ensures |r| == |s| && Digits(r)
    decreases |s|
  {
    if s == [] then []
    else
      var c := s[|s| - 1];
      if c as int + 2 <= '4' as int then s[..|s| - 1] + [(c as int + 2) as char]
      else Down(s[..|s| - 1]) + [(c as int + 2 - 4) as char]
  }

  /** `x` modulo `P`, by repeated subtraction. */
  function Mod(x: nat, P: nat): (r: nat)
    requires P > 0
    ensures r < P
    decreases x
  {
    if x < P then x else Mod(x - P, P)
  }

  /** Below the modulus, `Mod` is the identity. */
  lemma ModSmall(x: nat, P: nat)
    requires x < P
    ensures Mod(x, P) == x
  {
  }

  /** The successor modulo `P` of `x` modulo `P` is `x + 1` modulo `P`. */
  lemma {:induction false} ModNext(x: nat, P: nat)
    requires P > 0
    ensures Mod(x + 1, P) == if Mod(x, P) + 1 == P then 0 else Mod(x, P) + 1
    decreases x
  {
    if x >= P {
      ModNext(x - P, P);
    } else if x + 1 == P {
      assert Mod(x + 1, P) == Mod(0, P);
    }
  }

  /** Adding to `r < P` modulo `P` is one-to-one on `[0, P)`. */
  lemma {:induction false} ModInjective(r: nat, a: nat, b: nat, P: nat)
    requires r < P && a < P && b < P
    requires a != b
    ensures Mod(r + a, P) != Mod(r + b, P)
  {
    assert Mod(r + a, P) == if r + a < P then r + a else r + a - P by {
      if r + a >= P {
        assert Mod(r + a, P) == Mod(r + a - P, P);
      }
    }
    assert Mod(r + b, P) == if r + b < P then r + b else r + b - P by {
      if r + b >= P {
        assert Mod(r + b, P) == Mod(r + b - P, P);
      }
    }
  }


  /** A last digit '1' or '3' raised to '2' or '4': one column further east,
      and never past the last column. */
  lemma {:induction false} RightStopNums(s: string, p: string, c: char, d: char)
    requires s == p + [c] && (c == '1' || c == '3') && d == (c as int + 1) as char
    ensures ColNum(p + [d]) == ColNum(s) + 1 && ColNum(s) + 1 != Pow2(|s|)
    ensures RowNum(p + [d]) == RowNum(s)
  {
    NumSnoc(p, c);
    NumSnoc(p, d);
  }

  /** A last digit '2' or '4' lowered to '1' or '3' after the digits before
      it stepped east to `q`: one column further east, wrapping. */
  lemma {:induction false} RightCarryNums(s: string, p: string, c: char, q: string, d: char)
    requires s == p + [c] && (c == '2' || c == '4') && d == (c as int - 1) as char
    requires |q| == |p|
    requires ColNum(q) == if ColNum(p) + 1 == Pow2(|p|) then 0 else ColNum(p) + 1
    requires RowNum(q) == RowNum(p)
    ensures ColNum(q + [d]) == if ColNum(s) + 1 == Pow2(|s|) then 0 else ColNum(s) + 1
    ensures RowNum(q + [d]) == RowNum(s)
  {
    NumSnoc(p, c);
    NumSnoc(q, d);
  }

  /** A last digit '1' or '2' raised to '3' or '4': one row further south,
      and never past the last row. */
  lemma {:induction false} DownStopNums(s: string, p: string, c: char, d: char)
    requires s == p + [c] && (c == '1' || c == '2') && d == (c as int + 2) as char
    ensures RowNum(p + [d]) == RowNum(s) + 1 && RowNum(s) + 1 != Pow2(|s|)
    ensures ColNum(p + [d]) == ColNum(s)
  {
    NumSnoc(p, c);
    NumSnoc(p, d);
  }

  /** A last digit '3' or '4' wrapped to '1' or '2' after the digits before
      it stepped south to `q`: one row further south, wrapping. */
  lemma {:induction false} DownCarryNums(s: string, p: string, c: char, q: string, d: char)
    requires s == p + [c] && (c == '3' || c == '4') && d == (c as int + 2 - 4) as char
    requires |q| == |p|
    requires RowNum(q) == if RowNum(p) + 1 == Pow2(|p|) then 0 else RowNum(p) + 1
    requires ColNum(q) == ColNum(p)
    ensures RowNum(q + [d]) == if RowNum(s) + 1 == Pow2(|s|) then 0 else RowNum(s) + 1
    ensures ColNum(q + [d]) == ColNum(s)
  {
    NumSnoc(p, c);
    NumSnoc(q, d);
  }

  /** `Right` names the tile one column further east, wrapping past the
      last column to the first, in the same row. */
  lemma {:induction false} RightIsNextColumn(s: string)
    requires Digits(s)
    ensures ColNum(Right(s)) == if ColNum(s) + 1 == Pow2(|s|) then 0 else ColNum(s) + 1
    ensures RowNum(Right(s)) == RowNum(s)
  {
    if s != [] {
      var k := |s| - 1;
      var p, c := s[..k], s[k];
      assert s == p + [c];
      if c == '1' || c == '3' {
        var d := (c as int + 1) as char;
        assert Right(s) == p + [d];
        RightStopNums(s, p, c, d);
      } else {
        var d := (c as int - 1) as char;
        assert Right(s) == Right(p) + [d];
        RightIsNextColumn(p);
        RightCarryNums(s, p, c, Right(p), d);
      }
    }
  }

  /** `Down` names the tile one row further south, wrapping past the last
      row to the first, in the same column. */
  lemma {:induction false} DownIsNextRow(s: string)
    requires Digits(s)
    ensures RowNum(Down(s)) == if RowNum(s) + 1 == Pow2(|s|) then 0 else RowNum(s) + 1
    ensures ColNum(Down(s)) == ColNum(s)
  {
    if s != [] {
      var k := |s| - 1;
      var p, c := s[..k], s[k];
      assert s == p + [c];
      if c == '1' || c == '2' {
        var d := (c as int + 2) as char;
        assert Down(s) == p + [d];
        DownStopNums(s, p, c, d);
      } else {
        var d := (c as int + 2 - 4) as char;
        assert Down(s) == Down(p) + [d];
        DownIsNextRow(p);
        DownCarryNums(s, p, c, Down(p), d);
      }
    }
  }

  /** `j` steps east. */
  function RightN(s: string, j: nat): (r: string)
    requires Digits(s)
    ensures |r| == |s| && Digits(r)
  {
    if j == 0 then s else Right(RightN(s, j - 1))
  }

  /** `i` steps south. */
  function DownN(s: string, i: nat): (r: string)
    requires Digits(s)
    ensures |r| == |s| && Digits(r)
  {
    if i == 0 then s else Down(DownN(s, i - 1))
  }

  /** A name whose first `level` characters are digits; the loops of
      getMapRaster only touch those. */
  predicate Steppable(s: string, level: nat) {
    level <= |s| && Digits(s[..level])
  }

  /** One step east on the first `level` characters, the rest kept. */
  function EastOf(s: string, level: nat): (r: string)
    requires Steppable(s, level)
    ensures Steppable(r, level)
  {
    assert (Right(s[..level]) + s[level..])[..level] == Right(s[..level]);
    Right(s[..level]) + s[level..]
  }

  /** One step south on the first `level` characters, the rest kept. */
  function SouthOf(s: string, level: nat): (r: string)
    requires Steppable(s, level)
    ensures Steppable(r, level)
  {
    assert (Down(s[..level]) + s[level..])[..level] == Down(s[..level]);
    Down(s[..level]) + s[level..]
  }

  /** The name getMapRaster gives the tile in row `i`, column `j` of the
      grid whose upper-left tile is `name`: the first `level` characters
      stepped `i` times south and then `j` times east. */
  function GridName(name: string, level: nat, i: nat, j: nat): (r: string)
    requires Steppable(name, level)
  {
    RightN(DownN(name[..level], i), j) + name[level..]
  }

  lemma {:induction false} RightNUnfold(s: string, j: nat)
    requires Digits(s) && j > 0
    ensures RightN(s, j) == Right(RightN(s, j - 1))
  {
  }

  lemma {:induction false} DownNUnfold(s: string, i: nat)
    requires Digits(s) && i > 0
    ensures DownN(s, i) == Down(DownN(s, i - 1))
  {
  }

  /** One step east from column `x` modulo `P` lands on column `x + 1`
      modulo `P`. */
  lemma {:induction false} ColumnStep(r: string, x: nat, y: nat, P: nat)
    requires Digits(r) && P == Pow2(|r|) && y == x + 1 && ColNum(r) == Mod(x, P)
    ensures ColNum(Right(r)) == Mod(y, P)
  {
    RightIsNextColumn(r);
    ModNext(x, P);
  }

  /** One step south from row `x` modulo `P` lands on row `x + 1` modulo
      `P`. */
  lemma {:induction false} RowStep(r: string, x: nat, y: nat, P: nat)
    requires Digits(r) && P == Pow2(|r|) && y == x + 1 && RowNum(r) == Mod(x, P)
    ensures RowNum(Down(r)) == Mod(y, P)
  {
    DownIsNextRow(r);
    ModNext(x, P);
  }

  /** After `j` steps east the column has grown by `j`, wrapping at the
      map's edge. */
  predicate ColumnsAfter(s: string, j: nat)
    requires Digits(s)
  {
    ColNum(RightN(s, j)) == Mod(ColNum(s) + j, Pow2(|s|))
  }

  /** `j` steps east add `j` to the column, wrapping at the map's edge. */
  lemma {:induction false} RightNColumns(s: string, j: nat)
    requires Digits(s)
    ensures ColNum(RightN(s, j)) == Mod(ColNum(s) + j, Pow2(|s|))
  {
    ColumnsUpTo(s, j);
  }

  /** Every number of steps east up to `j` adds that number to the column. */
  lemma {:induction false} ColumnsUpTo(s: string, j: nat)
    requires Digits(s)
    ensures ColumnsAfter(s, j)
  {
    if j == 0 {
      ColumnsBase(s, j);
    } else {
      ColumnsUpTo(s, j - 1);
      ColumnsStep(s, j);
    }
  }

  /** Zero steps east leave the column. */
  lemma {:induction false} ColumnsBase(s: string, j: nat)
    requires Digits(s) && j == 0
    ensures ColumnsAfter(s, j)
  {
    NumBound(s);
    ModSmall(ColNum(s) + j, Pow2(|s|));
  }

  /** One more step east adds one to the column, wrapping. */
  lemma {:induction false} ColumnsStep(s: string, j: nat)
    requires Digits(s) && j > 0
    requires ColumnsAfter(s, j - 1)
    ensures ColumnsAfter(s, j)
  {
    RightNUnfold(s, j);
    ColumnStep(RightN(s, j - 1), ColNum(s) + (j - 1), ColNum(s) + j, Pow2(|s|));
  }

  /** Steps east keep the row. */
  lemma {:induction false} RightNKeepsRow(s: string, j: nat)
    requires Digits(s)
    ensures RowNum(RightN(s, j)) == RowNum(s)
  {
    if j > 0 {
      RightNKeepsRow(s, j - 1);
      RightNUnfold(s, j);
      RightIsNextColumn(RightN(s, j - 1));
    }
  }

  /** After `i` steps south the row has grown by `i`, wrapping at the
      map's edge. */
  predicate RowsAfter(s: string, i: nat)
    requires Digits(s)
  {
    RowNum(DownN(s, i)) == Mod(RowNum(s) + i, Pow2(|s|))
  }

  /** `i` steps south add `i` to the row, wrapping at the map's edge. */
  lemma {:induction false} DownNRows(s: string, i: nat)
    requires Digits(s)
    ensures RowNum(DownN(s, i)) == Mod(RowNum(s) + i, Pow2(|s|))
  {
    RowsUpTo(s, i);
  }

  /** Every number of steps south up to `i` adds that number to the row. */
  lemma {:induction false} RowsUpTo(s: string, i: nat)
    requires Digits(s)
    ensures RowsAfter(s, i)
  {
    if i == 0 {
      RowsBase(s, i);
    } else {
      RowsUpTo(s, i - 1);
      RowsStep(s, i);
    }
  }

  /** Zero steps south leave the row. */
  lemma {:induction false} RowsBase(s: string, i: nat)
    requires Digits(s) && i == 0
    ensures RowsAfter(s, i)
  {
    NumBound(s);
    ModSmall(RowNum(s) + i, Pow2(|s|));
  }

  /** One more step south adds one to the row, wrapping. */
  lemma {:induction false} RowsStep(s: string, i: nat)
    requires Digits(s) && i > 0
    requires RowsAfter(s, i - 1)
    ensures RowsAfter(s, i)
  {
    DownNUnfold(s, i);
    RowStep(DownN(s, i - 1), RowNum(s) + (i - 1), RowNum(s) + i, Pow2(|s|));
  }

  /** Steps south keep the column. */
  lemma {:induction false} DownNKeepsColumn(s: string, i: nat)
    requires Digits(s)
    ensures ColNum(DownN(s, i)) == ColNum(s)
  {
    if i > 0 {
      DownNKeepsColumn(s, i - 1);
      DownNUnfold(s, i);
      DownIsNextRow(DownN(s, i - 1));
    }
  }

  /** Stepping `i` rows south and then `j` columns east adds `i` to the row
      number, wrapping at the map's edge. */
  lemma {:induction false} StepRows(s: string, i: nat, j: nat)
    requires Digits(s)
    ensures RowNum(RightN(DownN(s, i), j)) == Mod(RowNum(s) + i, Pow2(|s|))
  {
    var d := DownN(s, i);
    DownNRows(s, i);
    RightNKeepsRow(d, j);
  }

  /** Stepping `i` rows south and then `j` columns east adds `j` to the
      column number, wrapping at the map's edge. */
  lemma {:induction false} StepColumns(s: string, i: nat, j: nat)
    requires Digits(s)
    ensures ColNum(RightN(DownN(s, i), j)) == Mod(ColNum(s) + j, Pow2(|s|))
  {
    var d := DownN(s, i);
    DownNKeepsColumn(s, i);
    assert |d| == |s| && ColNum(d) == ColNum(s);
    RightNColumns(d, j);
  }

  /** The grid holds, in row `i` and column `j`, the tile `i` rows south and
      `j` columns east of the upper-left tile (wrapping at the map's edge). */
  lemma {:induction false} GridNameNumbers(name: string, level: nat, i: nat, j: nat)
    requires Steppable(name, level)
    ensures RowNum(GridName(name, level, i, j)[..level]) == Mod(RowNum(name[..level]) + i, Pow2(level))
    ensures ColNum(GridName(name, level, i, j)[..level]) == Mod(ColNum(name[..level]) + j, Pow2(level))
  {
    var s := name[..level];
    var e := RightN(DownN(s, i), j);
    StepRows(s, i, j);
    StepColumns(s, i, j);
    assert GridName(name, level, i, j)[..level] == e by {
      assert |e| == level;
    }
  }

  /** Every grid name has the length of the upper-left name, keeps its
      characters after the first `level`, and its first `level` characters
      stay quadrant digits. */
  lemma {:induction false} GridNameShape(name: string, level: nat, i: nat, j: nat)
    requires Steppable(name, level)
    ensures var g := GridName(name, level, i, j);
      |g| == |name| && Steppable(g, level) && g[level..] == name[level..]
  {
    var e := RightN(DownN(name[..level], i), j);
    var g := GridName(name, level, i, j);
    assert g == e + name[level..];
    assert g[..level] == e && g[level..] == name[level..];
  }

  /** Different cells of a grid no wider and no taller than the map at that
      depth name different tiles. */
  lemma {:induction false} GridNamesDistinct(name: string, level: nat, i1: nat, j1: nat, i2: nat, j2: nat)
    requires Steppable(name, level)
    requires i1 < Pow2(level) && i2 < Pow2(level) && j1 < Pow2(level) && j2 < Pow2(level)
    requires (i1, j1) != (i2, j2)
    ensures GridName(name, level, i1, j1) != GridName(name, level, i2, j2)
  {
    var g1 := GridName(name, level, i1, j1);
    var g2 := GridName(name, level, i2, j2);
    var s := name[..level];
    assert |s| == level;
    NumBound(s);
    GridNameNumbers(name, level, i1, j1);
    GridNameNumbers(name, level, i2, j2);
    if i1 != i2 {
      ModInjective(RowNum(s), i1, i2, Pow2(level));
      assert RowNum(g1[..level]) != RowNum(g2[..level]);
    } else {
      ModInjective(ColNum(s), j1, j2, Pow2(level));
      assert ColNum(g1[..level]) != ColNum(g2[..level]);
    }
  }

  /* ---------------------------------------------------------------- */
  /* The quadtree.                                                      */
  /* ---------------------------------------------------------------- */

  /** A tile's bounding box. */
  datatype Box = Box(ulLon: real, ulLat: real, lrLon: real, lrLat: real)

  predicate Positive(b: Box) {
    b.ulLon < b.lrLon && b.lrLat < b.ulLat
  }

  /** The box of child `[q / 2][q % 2]`: the upper or lower half by the row,
      the left or right half by the column. */
  function SubBox(b: Box, q: nat): (r: Box)
    requires q < 4
    ensures Positive(b) ==> Positive(r)
  {
    var midLon := b.ulLon + (b.lrLon - b.ulLon) / 2.0;
    var midLat := b.lrLat + (b.ulLat - b.lrLat) / 2.0;
    match q
    case 0 => Box(b.ulLon, b.ulLat, midLon, midLat)
    case 1 => Box(midLon, b.ulLat, b.lrLon, midLat)
    case 2 => Box(b.ulLon, midLat, midLon, b.lrLat)
    case _ => Box(midLon, midLat, b.lrLon, b.lrLat)
  }

  /** Rasterer.TreeNode: a tile's file name, its depth, its four children in
      the order `[0][0]`, `[0][1]`, `[1][0]`, `[1][1]` (none for a leaf, where
      Java holds `null`) and its bounding box. */
  datatype TreeNode = TreeNode(directory: string, level: int, children: seq<TreeNode>, box: Box)

  /** The deepest level of the tree (QuadTree.maxLevel). */
  const MaxLevel: nat := 7

  /** Every box has positive width and height and every inner node has
      four children one level deeper. */
  predicate WellFormed(t: TreeNode) {
    && Positive(t.box)
    && (t.children == [] ||
        (|t.children| == 4 &&
         forall q :: 0 <= q < 4 ==> t.children[q].level == t.level + 1 && WellFormed(t.children[q])))
  }

  /** QuadTree.constructTree: the subtree at `level` named `root` over box
      `b`; child `[row][col]` takes the matching quarter of the box and
      appends the quadrant digit of `[row][col]` to the name. It is well
      formed, and its leaves are exactly its nodes at the deepest level. */
  function ConstructTree(root: string, level: nat, b: Box): (t: TreeNode)
    requires level <= MaxLevel
    ensures t.directory == root && t.level == level && t.box == b
    ensures t.children == [] <==> level == MaxLevel
    decreases MaxLevel - level
  {
    if level == MaxLevel then TreeNode(root, level, [], b)
    else TreeNode(root, level, ConstructChildren(root, level, b), b)
  }

  /** The four children, in the order constructTree assigns them. */
  function ConstructChildren(root: string, level: nat, b: Box): (cs: seq<TreeNode>)
    requires level < MaxLevel
    ensures |cs| == 4
    ensures forall q :: 0 <= q < 4 ==>
      && cs[q].directory == root + [Digit(q / 2, q % 2)] && cs[q].level == level + 1
      && cs[q].box == SubBox(b, q)
      && (cs[q].children == [] <==> level + 1 == MaxLevel)
    decreases MaxLevel - level, 0
  {
    seq(4, q requires 0 <= q < 4 => ConstructTree(root + [Digit(q / 2, q % 2)], level + 1, SubBox(b, q)))
  }

  /** Every node at or below `t` is named by `root` extended with one
      quadrant digit per level below `level`, child `[row][col]` taking the
      digit of `[row][col]`, and inner nodes sit above the deepest level
      with four children. */
  ghost predicate Named(t: TreeNode, root: string, level: nat)
    decreases t
  {
    && t.directory == root && t.level == level
    && (level < MaxLevel ==>
          |t.children| == 4 &&
          forall q :: 0 <= q < 4 ==> Named(t.children[q], root + [Digit(q / 2, q % 2)], level + 1))
  }

  /** Every constructed subtree over a box of positive size is well formed
      and named digit by digit from its root. */
  lemma {:induction false} ConstructTreeWellFormed(root: string, level: nat, b: Box)
    requires level <= MaxLevel
    requires Positive(b)
    ensures WellFormed(ConstructTree(root, level, b))
    ensures Named(ConstructTree(root, level, b), root, level)
    decreases MaxLevel - level
  {
    if level < MaxLevel {
      var cs := ConstructChildren(root, level, b);
      forall q | 0 <= q < 4
        ensures WellFormed(cs[q]) && Named(cs[q], root + [Digit(q / 2, q % 2)], level + 1)
      {
        assert cs[q] == ConstructTree(root + [Digit(q / 2, q % 2)], level + 1, SubBox(b, q));
        ConstructTreeWellFormed(root + [Digit(q / 2, q % 2)], level + 1, SubBox(b, q));
      }
    }
  }

  /** Rasterer.QuadTree. */
  datatype QuadTree = QuadTree(head: TreeNode, imgRoot: string, maxLevel: nat)

  /** The map's bounding box (the Rasterer's ul/lr fields). */
  const RootBox: Box := Box(-122.2998046875, 37.892195547244356, -122.2119140625, 37.82280243352756)

  /** new QuadTree(imgRoot, ...): the tree over the whole map from the empty
      name, whose root is then renamed "0". */
  function NewQuadTree(imgRoot: string): (qt: QuadTree)
    ensures qt.imgRoot == imgRoot && qt.maxLevel == MaxLevel
    ensures qt.head.directory == "0" && qt.head.level == 0 && qt.head.box == RootBox
    ensures WellFormed(qt.head)
    ensures |qt.head.children| == 4
    ensures forall q :: 0 <= q < 4 ==> Named(qt.head.children[q], [Digit(q / 2, q % 2)], 1)
  {
    var head := ConstructTree("", 0, RootBox);
    ConstructTreeWellFormed("", 0, RootBox);
    assert forall q :: 0 <= q < 4 ==> [] + [Digit(q / 2, q % 2)] == [Digit(q / 2, q % 2)];
    QuadTree(head.(directory := "0"), imgRoot, MaxLevel)
  }

  /* ---------------------------------------------------------------- */
  /* Descent to a corner tile.                                          */
  /* ---------------------------------------------------------------- */

  /** The child a point falls into: the lower row when its latitude lies at
      least half way down the box, the right column when its longitude lies
      at least half way across. */
  function Quadrant(b: Box, lon: real, lat: real): (q: nat)
    requires Positive(b)
    ensures q < 4
  {
    var row := if (b.ulLat - lat) / (b.ulLat - b.lrLat) < 0.5 then 0 else 1;
    var col := if (lon - b.ulLon) / (b.lrLon - b.ulLon) < 0.5 then 0 else 1;
    2 * row + col
  }

  /** The node the descent for the point (lon, lat) stops at: it follows
      the point's quadrant until a leaf or the requested depth. */
  function Follow(t: TreeNode, depth: int, lon: real, lat: real): (r: TreeNode)
    requires WellFormed(t)
    ensures WellFormed(r)
    decreases t
  {
    if t.children != [] && t.level < depth then Follow(t.children[Quadrant(t.box, lon, lat)], depth, lon, lat)
    else t
  }

  /** The descent loop of getMapRaster. */
  method Descend(head: TreeNode, depth: int, lon: real, lat: real) returns (node: TreeNode)
    requires WellFormed(head)
    ensures node == Follow(head, depth, lon, lat)
  {
    node := head;
    while node.children != [] && node.level < depth
      invariant WellFormed(node)
      invariant Follow(node, depth, lon, lat) == Follow(head, depth, lon, lat)
      decreases node
    {
      node := node.children[Quadrant(node.box, lon, lat)];
    }
  }

  /** The quadrant digits the descent for (lon, lat) chooses on its way down. */
  function Route(t: TreeNode, depth: int, lon: real, lat: real): (ds: string)
    requires WellFormed(t)
    ensures Digits(ds)
    decreases t
  {
    if t.children != [] && t.level < depth then
      var q := Quadrant(t.box, lon, lat);
      var rest := Route(t.children[q], depth, lon, lat);
      assert forall i :: 1 <= i < |rest| + 1 ==> ([Digit(q / 2, q % 2)] + rest)[i] == rest[i - 1];
      [Digit(q / 2, q % 2)] + rest
    else []
  }

  /** Descending a named subtree to a depth it reaches lands on a node of
      exactly that depth whose name extends the subtree's name by the
      quadrant digits chosen on the way, one per level. */
  lemma {:induction false} FollowNamed(t: TreeNode, root: string, level: nat, depth: nat, lon: real, lat: real)
    requires WellFormed(t) && Named(t, root, level)
    requires level <= depth <= MaxLevel
    ensures var r := Follow(t, depth, lon, lat);
      && r.level == depth
      && r.directory == root + Route(t, depth, lon, lat)
      && |Route(t, depth, lon, lat)| == depth - level
    decreases t
  {
    if level < depth {
      var q := Quadrant(t.box, lon, lat);
      var d := Digit(q / 2, q % 2);
      var child := t.children[q];
      FollowNamed(child, root + [d], level + 1, depth, lon, lat);
      assert Follow(t, depth, lon, lat) == Follow(child, depth, lon, lat);
      assert Route(t, depth, lon, lat) == [d] + Route(child, depth, lon, lat);
      assert root + [d] + Route(child, depth, lon, lat) == root + ([d] + Route(child, depth, lon, lat));
    } else {
      assert Follow(t, depth, lon, lat) == t;
      assert Route(t, depth, lon, lat) == [];
      assert root + [] == root;
    }
  }

  /** A tree named from the empty root whose head is renamed "0" stays well
      formed, and descending it to a depth up to the deepest level lands on a
      tile of that depth named "0" at depth 0 and by `depth` quadrant digits
      otherwise. */
  lemma {:induction false} RenamedHeadDescent(t: TreeNode, depth: nat, lon: real, lat: real)
    requires WellFormed(t) && Named(t, "", 0)
    requires depth <= MaxLevel
    ensures WellFormed(t.(directory := "0"))
    ensures var r := Follow(t.(directory := "0"), depth, lon, lat);
      && r.level == depth
      && (depth == 0 ==> r.directory == "0")
      && (depth > 0 ==> |r.directory| == depth && Digits(r.directory))
  {
    var h := t.(directory := "0");
    assert h.children == t.children && h.box == t.box && h.level == 0;
    assert WellFormed(h);
    FollowNamed(t, "", 0, depth, lon, lat);
    if depth > 0 {
      assert Follow(h, depth, lon, lat) == Follow(t, depth, lon, lat);
      assert "" + Route(t, depth, lon, lat) == Route(t, depth, lon, lat);
    } else {
      assert Follow(h, depth, lon, lat) == h;
    }
  }

  /** The head of the Rasterer's quadtree is well formed, and descending it
      lands on a tile of the requested depth, named as above. */
  lemma {:induction false} HeadDescent(imgRoot: string, depth: nat, lon: real, lat: real)
    requires depth <= MaxLevel
    ensures WellFormed(NewQuadTree(imgRoot).head)
    ensures var r := Follow(NewQuadTree(imgRoot).head, depth, lon, lat);
      && r.level == depth
      && (depth == 0 ==> r.directory == "0")
      && (depth > 0 ==> |r.directory| == depth && Digits(r.directory))
  {
    var t := ConstructTree("", 0, RootBox);
    ConstructTreeWellFormed("", 0, RootBox);
    RenamedHeadDescent(t, depth, lon, lat);
  }

  /* ---------------------------------------------------------------- */
  /* Zoom depth.                                                        */
  /* ---------------------------------------------------------------- */

  /** The longitudinal distance per pixel of a depth-0 tile. */
  const BaseLonDpp: real := 0.00034332275390625

  /** The longitudinal distance per pixel of a tile at depth `k`. */
  function LevelLonDpp(k: nat): (r: real)
    ensures r > 0.0
  {
    BaseLonDpp / (Pow2(k) as real)
  }

  lemma {:induction false} Pow2Grows(k: nat)
    ensures Pow2(k) >= k + 1
  {
    if k > 0 {
      Pow2Grows(k - 1);
    }
  }

  /** Each depth halves the distance per pixel. */
  lemma {:induction false} HalfLevel(k: nat)
    ensures LevelLonDpp(k + 1) == LevelLonDpp(k) / 2.0
  {
    var p := Pow2(k) as real;
    assert Pow2(k + 1) as real == 2.0 * p;
    assert BaseLonDpp / (2.0 * p) == (BaseLonDpp / p) / 2.0;
  }

  /** A depth by which every tile is fine enough for `londpp`. */
  function Bound(londpp: real): nat
    requires londpp > 0.0
  {
    var x := BaseLonDpp / londpp;
    assert x.Floor >= 0;
    (x.Floor + 1) as nat
  }

  /** Depths at or beyond `Bound` are fine enough. */
  lemma {:induction false} FineAtBound(londpp: real, k: nat)
    requires londpp > 0.0
    requires k >= Bound(londpp)
    ensures LevelLonDpp(k) <= londpp
  {
    Pow2Grows(k);
    var x := BaseLonDpp / londpp;
    var p := Pow2(k) as real;
    assert p > x;
    assert p * londpp > BaseLonDpp;
    assert BaseLonDpp / p < londpp;
  }

  /** A depth whose tiles are too coarse lies below `Bound`. */
  lemma {:induction false} BoundReached(londpp: real, k: nat)
    requires londpp > 0.0
    requires LevelLonDpp(k) > londpp
    ensures k < Bound(londpp)
  {
    if k >= Bound(londpp) {
      FineAtBound(londpp, k);
      assert false;
    }
  }

  /** The first depth from `k` on whose tiles are fine enough. */
  function ZoomFrom(londpp: real, k: nat): (r: nat)
    requires londpp > 0.0
    ensures r >= k && LevelLonDpp(r) <= londpp
    ensures forall j :: k <= j < r ==> LevelLonDpp(j) > londpp
    decreases Bound(londpp) - k
  {
    if LevelLonDpp(k) > londpp then
      BoundReached(londpp, k);
      ZoomFrom(londpp, k + 1)
    else k
  }

  /** The depth getMapRaster picks for a query of `londpp` (before the cap
      at the deepest level): the least depth whose tiles cover no more
      longitude per pixel than the query. */
  function ZoomLevel(londpp: real): (r: nat)
    requires londpp > 0.0
    ensures LevelLonDpp(r) <= londpp
    ensures forall j :: 0 <= j < r ==> LevelLonDpp(j) > londpp
  {
    ZoomFrom(londpp, 0)
  }

  /** The depth loop of getMapRaster: halve the distance per pixel until it
      is no more than the query's. */
  method DepthFor(londpp: real) returns (level: nat)
    requires londpp > 0.0
    ensures level == ZoomLevel(londpp)
  {
    var levelLonDpp := BaseLonDpp;
    level := 0;
    while levelLonDpp > londpp
      invariant levelLonDpp == LevelLonDpp(level)
      invariant forall j :: 0 <= j < level ==> LevelLonDpp(j) > londpp
      decreases Bound(londpp) - level
    {
      BoundReached(londpp, level);
      HalfLevel(level);
      levelLonDpp := levelLonDpp / 2.0;
      level := level + 1;
    }
    assert LevelLonDpp(level) <= londpp;
  }

  /* ---------------------------------------------------------------- */
  /* Filling the grid.                                                  */
  /* ---------------------------------------------------------------- */

  /** String.toCharArray. */
  method ToCharArray(s: string) returns (a: array<char>)
    ensures fresh(a) && a[..] == s
  {
    a := new char[|s|](i requires 0 <= i < |s| => s[i]);
  }

  lemma {:induction false} RightUnfold(s: string, k: nat)
    requires k < |s| && Digits(s[..k + 1])
    ensures var c := s[k];
      Right(s[..k + 1]) == if c == '1' || c == '3' then s[..k] + [(c as int + 1) as char]
                           else Right(s[..k]) + [(c as int - 1) as char]
  {
    assert s[..k + 1][..k] == s[..k];
  }

  lemma {:induction false} DownUnfold(s: string, k: nat)
    requires k < |s| && Digits(s[..k + 1])
    ensures var c := s[k];
      Down(s[..k + 1]) == if c as int + 2 <= '4' as int then s[..k] + [(c as int + 2) as char]
                          else Down(s[..k]) + [(c as int + 2 - 4) as char]
  {
    assert s[..k + 1][..k] == s[..k];
  }

  /** A sequence that differs from `before` at position `k` only. */
  lemma {:induction false} ChangedAt(before: string, after: string, k: nat)
    requires k < |before| == |after|
    requires forall i :: 0 <= i < |before| && i != k ==> after[i] == before[i]
    ensures after[..k] == before[..k] && after[k + 1..] == before[k + 1..]
    ensures after == before[..k] + [after[k]] + before[k + 1..]
    ensures after[k..] == [after[k]] + before[k + 1..]
  {
    assert after == after[..k] + [after[k]] + after[k + 1..];
  }

  /** A digit '1' or '3' at position `k` raised by one ends the east step. */
  lemma {:induction false} RightStop(before: string, after: string, k: nat)
    requires k < |before| == |after| && Digits(before[..k + 1])
    requires before[k] == '1' || before[k] == '3'
    requires after[k] == (before[k] as int + 1) as char
    requires forall i :: 0 <= i < |before| && i != k ==> after[i] == before[i]
    ensures after == Right(before[..k + 1]) + before[k + 1..]
  {
    RightUnfold(before, k);
    ChangedAt(before, after, k);
  }

  /** A digit '2' or '4' at position `k` lowered by one carries the east
      step to the digit before. */
  lemma {:induction false} RightCarry(before: string, after: string, k: nat)
    requires k < |before| == |after| && Digits(before[..k + 1])
    requires !(before[k] == '1' || before[k] == '3')
    requires after[k] == (before[k] as int - 1) as char
    requires forall i :: 0 <= i < |before| && i != k ==> after[i] == before[i]
    ensures Digits(after[..k])
    ensures Right(after[..k]) + after[k..] == Right(before[..k + 1]) + before[k + 1..]
  {
    RightUnfold(before, k);
    ChangedAt(before, after, k);
    assert before[..k + 1][..k] == before[..k];
  }

  /** A digit raised by two to at most '4' at position `k` ends the south
      step. */
  lemma {:induction false} DownStop(before: string, after: string, k: nat)
    requires k < |before| == |after| && Digits(before[..k + 1])
    requires before[k] as int + 2 <= '4' as int
    requires after[k] == (before[k] as int + 2) as char
    requires forall i :: 0 <= i < |before| && i != k ==> after[i] == before[i]
    ensures after == Down(before[..k + 1]) + before[k + 1..]
  {
    DownUnfold(before, k);
    ChangedAt(before, after, k);
  }

  /** A digit raised by two past '4' and lowered by four at position `k`
      carries the south step to the digit before. */
  lemma {:induction false} DownCarry(before: string, after: string, k: nat)
    requires k < |before| == |after| && Digits(before[..k + 1])
    requires before[k] as int + 2 > '4' as int
    requires after[k] == (before[k] as int + 2 - 4) as char
    requires forall i :: 0 <= i < |before| && i != k ==> after[i] == before[i]
    ensures Digits(after[..k])
    ensures Down(after[..k]) + after[k..] == Down(before[..k + 1]) + before[k + 1..]
  {
    DownUnfold(before, k);
    ChangedAt(before, after, k);
    assert before[..k + 1][..k] == before[..k];
  }

  /** The column step of getMapRaster on the character buffer: the first
      `level` characters become the name of the tile to the east. */
  method StepRight(str: array<char>, level: nat)
    requires Steppable(str[..], level)
    modifies str
    ensures Steppable(str[..], level)
    ensures str[..] == EastOf(old(str[..]), level)
  {
    ghost var s0 := str[..];
    var k := level;
    while k > 0
      invariant 0 <= k <= level
      invariant Digits(str[..k])
      invariant Right(str[..k]) + str[k..] == Right(s0[..level]) + s0[level..]
    {
      k := k - 1;
      ghost var before := str[..];
      assert before[..k + 1] == str[..k + 1];
      if str[k] == '1' || str[k] == '3' {
        str[k] := (str[k] as int + 1) as char;
        RightStop(before, str[..], k);
        break;
      } else {
        str[k] := (str[k] as int - 1) as char;
        RightCarry(before, str[..], k);
      }
    }
    assert str[..] == EastOf(s0, level);
  }

  /** The row step of getMapRaster on the character buffer: the first
      `level` characters become the name of the tile to the south. */
  method StepDown(str: array<char>, level: nat)
    requires Steppable(str[..], level)
    modifies str
    ensures Steppable(str[..], level)
    ensures str[..] == SouthOf(old(str[..]), level)
  {
    ghost var s0 := str[..];
    var k := level;
    while k > 0
      invariant 0 <= k <= level
      invariant Digits(str[..k])
      invariant Down(str[..k]) + str[k..] == Down(s0[..level]) + s0[level..]
    {
      k := k - 1;
      ghost var before := str[..];
      assert before[..k + 1] == str[..k + 1];
      str[k] := (str[k] as int + 2) as char;
      if str[k] <= '4' {
        DownStop(before, str[..], k);
        break;
      } else {
        str[k] := (str[k] as int - 4) as char;
        DownCarry(before, str[..], k);
      }
    }
    assert str[..] == SouthOf(s0, level);
  }

  /** The next name along a row is one step east of the last. */
  lemma {:induction false} GridNameEast(name: string, level: nat, i: nat, j: nat)
    requires Steppable(name, level)
    ensures Steppable(GridName(name, level, i, j), level)
    ensures GridName(name, level, i, j + 1) == EastOf(GridName(name, level, i, j), level)
  {
    var g := GridName(name, level, i, j);
    var x := RightN(DownN(name[..level], i), j);
    assert g[..level] == x && g[level..] == name[level..];
  }

  /** The first name of a row is one step south of the first name of the
      row before. */
  lemma {:induction false} GridNameSouth(name: string, level: nat, i: nat)
    requires Steppable(name, level)
    ensures Steppable(GridName(name, level, i, 0), level)
    ensures GridName(name, level, i + 1, 0) == SouthOf(GridName(name, level, i, 0), level)
  {
    var g := GridName(name, level, i, 0);
    var x := DownN(name[..level], i);
    assert g[..level] == x && g[level..] == name[level..];
  }

  /** The inner naming loop of getMapRaster for row `i`: the buffer holds
      the row's first name, and each further cell steps it east. */
  method FillRow(grid: array2<string>, name: string, level: nat, i: nat, str: array<char>)
    requires Steppable(name, level)
    requires i < grid.Length0 && 1 <= grid.Length1
    requires str[..] == GridName(name, level, i, 0) && grid[i, 0] == str[..]
    modifies grid, str
    ensures forall j :: 0 <= j < grid.Length1 ==> grid[i, j] == GridName(name, level, i, j)
    ensures forall i', j :: 0 <= i' < grid.Length0 && i' != i && 0 <= j < grid.Length1 ==>
      grid[i', j] == old(grid[i', j])
  {
    var j := 1;
    while j < grid.Length1
      invariant 1 <= j <= grid.Length1
      invariant str[..] == GridName(name, level, i, j - 1)
      invariant forall j' :: 0 <= j' < j ==> grid[i, j'] == GridName(name, level, i, j')
      invariant forall i', j' :: 0 <= i' < grid.Length0 && i' != i && 0 <= j' < grid.Length1 ==>
        grid[i', j'] == old(grid[i', j'])
    {
      GridNameEast(name, level, i, j - 1);
      StepRight(str, level);
      grid[i, j] := str[..];
      j := j + 1;
    }
  }

  /** The naming loops of getMapRaster: row by row, the first cell steps
      south from the row above and each further cell steps east. */
  method FillGrid(name: string, level: nat, m: nat, n: nat) returns (grid: array2<string>)
    requires m >= 1 && n >= 1
    requires Steppable(name, level)
    ensures fresh(grid)
    ensures grid.Length0 == m && grid.Length1 == n
    ensures forall i, j :: 0 <= i < m && 0 <= j < n ==> grid[i, j] == GridName(name, level, i, j)
  {
    grid := new string[m, n]((i, j) => "");
    grid[0, 0] := name;
    assert GridName(name, level, 0, 0) == name;
    var i := 0;
    while i < m
      invariant i <= m
      invariant grid[0, 0] == name
      invariant forall i', j' :: 0 <= i' < i && 0 <= j' < n ==> grid[i', j'] == GridName(name, level, i', j')
    {
      var str: array<char>;
      if i == 0 {
        str := ToCharArray(grid[0, 0]);
      } else {
        str := ToCharArray(grid[i - 1, 0]);
        GridNameSouth(name, level, i - 1);
        StepDown(str, level);
        assert str[..] == GridName(name, level, i, 0);
        grid[i, 0] := str[..];
      }
      FillRow(grid, name, level, i, str);
      assert forall j :: 0 <= j < n ==> grid[i, j] == GridName(name, level, i, j);
      i := i + 1;
    }
  }

  /** The path loop of getMapRaster: each name becomes "img/<name>.png". */
  method AddImagePaths(grid: array2<string>)
    modifies grid
    ensures forall i, j :: 0 <= i < grid.Length0 && 0 <= j < grid.Length1 ==>
      grid[i, j] == "img/" + old(grid[i, j]) + ".png"
  {
    var i := 0;
    while i < grid.Length0
      invariant i <= grid.Length0
      invariant forall i', j' :: 0 <= i' < grid.Length0 && 0 <= j' < grid.Length1 ==>
        grid[i', j'] == if i' < i then "img/" + old(grid[i', j']) + ".png" else old(grid[i', j'])
    {
      var j := 0;
      while j < grid.Length1
        invariant j <= grid.Length1
        invariant forall i', j' :: 0 <= i' < grid.Length0 && 0 <= j' < grid.Length1 ==>
          grid[i', j'] == if i' < i || (i' == i && j' < j) then "img/" + old(grid[i', j']) + ".png" else old(grid[i', j'])
      {
        grid[i, j] := "img/" + grid[i, j] + ".png";
        j := j + 1;
      }
      i := i + 1;
    }
  }

  /* ---------------------------------------------------------------- */
  /* getMapRaster.                                                      */
  /* ---------------------------------------------------------------- */

  /** The query box's four corners are all present; Java unboxes each of
      them first and throws on a missing one (unboxing null). */
  predicate HasCorners(params: map<string, real>) {
    "ullon" in params && "ullat" in params && "lrlon" in params && "lrlat" in params
  }

  /** The query box the four corners describe. */
  function QueryBox(params: map<string, real>): Box
    requires HasCorners(params)
  {
    Box(params["ullon"], params["ullat"], params["lrlon"], params["lrlat"])
  }

  /** Two boxes share an area of positive size. */
  predicate Overlaps(a: Box, b: Box) {
    a.ulLon < b.lrLon && b.ulLon < a.lrLon && a.lrLat < b.ulLat && b.lrLat < a.ulLat
  }

  /** REQUIRED_RASTER_REQUEST_PARAMS: the box is not empty or inverted, and
      it reaches east of the map's west edge and north of its south edge.
      Every box it accepts has positive size, and every box of positive
      size that overlaps the map passes; the east and north edges are not
      checked (see RequiredParamsAdmitsEastOfMap). */
  predicate RequiredParams(params: map<string, real>): (ok: bool)
    requires HasCorners(params)
    ensures ok ==> Positive(QueryBox(params))
    ensures Positive(QueryBox(params)) && Overlaps(QueryBox(params), RootBox) ==> ok
  {
    && !(params["ullon"] >= params["lrlon"])
    && !(params["lrlat"] >= params["ullat"])
    && !(params["lrlon"] <= RootBox.ulLon)
    && !(params["ullat"] <= RootBox.lrLat)
  }

  /** A box wholly east of the map passes the check, so the check does not
      mean that the query overlaps the map. */
  lemma {:induction false} RequiredParamsAdmitsEastOfMap()
    ensures var params := map["ullon" := -122.0, "ullat" := 37.85, "lrlon" := -121.9, "lrlat" := 37.84];
      && HasCorners(params) && RequiredParams(params)
      && !Overlaps(QueryBox(params), RootBox)
  {
    var params := map["ullon" := -122.0, "ullat" := 37.85, "lrlon" := -121.9, "lrlat" := 37.84];
    assert params["ullon"] == -122.0 && params["lrlon"] == -121.9;
  }

  /** Math.round on the reals: the nearest integer, halves rounded up. */
  function Round(x: real): (r: int)
    ensures x - 0.5 < r as real <= x + 0.5
  {
    (x + 0.5).Floor
  }

  /** The number of grid rows: the height from the upper-left tile's top to
      the lower-right tile's bottom, in upper-left tile heights, rounded. */
  function RowCount(ul: TreeNode, lr: TreeNode): int
    requires Positive(ul.box)
  {
    Round((ul.box.ulLat - lr.box.lrLat) / (ul.box.ulLat - ul.box.lrLat))
  }

  /** The number of grid columns, likewise across. */
  function ColCount(ul: TreeNode, lr: TreeNode): int
    requires Positive(ul.box)
  {
    Round((lr.box.lrLon - ul.box.ulLon) / (ul.box.lrLon - ul.box.ulLon))
  }

  function Min(a: nat, b: nat): nat {
    if a <= b then a else b
  }

  /** The depth getMapRaster renders at: the zoom level for the query's
      longitude per pixel, capped at the deepest level. A width of 0 makes
      the longitude per pixel infinite in IEEE arithmetic, which no tile
      exceeds: depth 0. */
  function RenderDepth(params: map<string, real>): (d: nat)
    requires HasCorners(params) && RequiredParams(params)
    requires "w" in params && params["w"] >= 0.0
    ensures d <= MaxLevel
  {
    var w := params["w"];
    if w == 0.0 then 0
    else Min(ZoomLevel((params["lrlon"] - params["ullon"]) / w), MaxLevel)
  }

  /** The outcome of getMapRaster: `Failed` is a result map whose
      query_success is false, `Thrown` an exception escaping the method, and
      `Rendered` the full result map. */
  datatype Response =
    | Failed
    | Thrown
    | Rendered(depth: nat, ulLon: real, ulLat: real, lrLon: real, lrLat: real, grid: array2<string>)

  /** What getMapRaster renders at depth `level` for a query box with
      corners (ullon, ullat) and (lrlon, lrlat): the corner tiles' outer
      edges and the named grid between them. */
  predicate RendersTiles(r: Response, head: TreeNode, level: nat, ullon: real, ullat: real, lrlon: real, lrlat: real)
    requires WellFormed(head)
    reads if r.Rendered? then {r.grid} else {}
  {
    var ul := Follow(head, level, ullon, ullat);
    var lr := Follow(head, level, lrlon, lrlat);
    && (r.Thrown? <==> RowCount(ul, lr) < 1 || ColCount(ul, lr) < 1)
    && (r.Rendered? || r.Thrown?)
    && (r.Rendered? ==>
         && r.depth == level
         && r.ulLon == ul.box.ulLon && r.ulLat == ul.box.ulLat
         && r.lrLon == lr.box.lrLon && r.lrLat == lr.box.lrLat
         && r.grid.Length0 == RowCount(ul, lr) && r.grid.Length1 == ColCount(ul, lr)
         && Steppable(ul.directory, level)
         && forall i, j :: 0 <= i < r.grid.Length0 && 0 <= j < r.grid.Length1 ==>
              r.grid[i, j] == "img/" + GridName(ul.directory, level, i, j) + ".png")
  }

  /** The part of getMapRaster after the depth is known: the two descents,
      the grid size, and the naming. */
  method RenderTiles(head: TreeNode, level: nat, ullon: real, ullat: real, lrlon: real, lrlat: real)
    returns (r: Response)
    requires WellFormed(head)
    requires Steppable(Follow(head, level, ullon, ullat).directory, level)
    ensures RendersTiles(r, head, level, ullon, ullat, lrlon, lrlat)
  {
    var node1 := Descend(head, level, ullon, ullat);
    var node2 := Descend(head, level, lrlon, lrlat);
    var m := RowCount(node1, node2);
    var n := ColCount(node1, node2);
    if m < 1 || n < 1 {
      return Thrown;
    }
    var grid := FillGrid(node1.directory, level, m, n);
    AddImagePaths(grid);
    return Rendered(level, node1.box.ulLon, node1.box.ulLat, node2.box.lrLon, node2.box.lrLat, grid);
  }

  /** Rasterer: the quadtree over the map's bounding box. */
  class Rasterer {
    const quadtree: QuadTree

    ghost predicate Valid() {
      quadtree == NewQuadTree(quadtree.imgRoot) && WellFormed(quadtree.head)
    }

    /** Rasterer(imgRoot). */
    constructor (imgRoot: string)
      ensures Valid() && quadtree.imgRoot == imgRoot
    {
      quadtree := NewQuadTree(imgRoot);
      HeadDescent(imgRoot, 0, 0.0, 0.0);
    }

    /** getMapRaster: checks the query box, picks the depth, descends to the
        tiles of the upper-left and lower-right corners, sizes the grid by
        the rounded ratios of the spanned box to the upper-left tile, and
        names every cell. */
    method GetMapRaster(params: map<string, real>) returns (r: Response)
      requires Valid()
      requires HasCorners(params) && RequiredParams(params) && "w" in params ==> params["w"] >= 0.0
      ensures !HasCorners(params) ==> r.Thrown?
      ensures HasCorners(params) ==> (r.Failed? <==> !RequiredParams(params))
      ensures HasCorners(params) && RequiredParams(params) && "w" !in params ==> r.Thrown?
      ensures HasCorners(params) && RequiredParams(params) && "w" in params ==>
        RendersTiles(r, quadtree.head, RenderDepth(params),
                     params["ullon"], params["ullat"], params["lrlon"], params["lrlat"])
    {
      if !HasCorners(params) {
        return Thrown;
      }
      var ullon, ullat, lrlon, lrlat := params["ullon"], params["ullat"], params["lrlon"], params["lrlat"];
      if !RequiredParams(params) {
        return Failed;
      }
      if "w" !in params {
        return Thrown;
      }
      var level: nat;
      if params["w"] == 0.0 {
        level := 0;
      } else {
        level := DepthFor((lrlon - ullon) / params["w"]);
      }
      if level > quadtree.maxLevel {
        level := quadtree.maxLevel;
      }
      assert level == RenderDepth(params);
      HeadDescent(quadtree.imgRoot, level, ullon, ullat);
      r := RenderTiles(quadtree.head, level, ullon, ullat, lrlon, lrlat);
    }
  }
}
