/**
 * Coordinate conversions of the virtual space: a directory grid code such as
 * "A10" (a column letter followed by a row number) becomes a world position,
 * five units per grid step; the user's position is a fixed stand-in.
 */
module Geolocation {
  import opened Wrappers
  import opened JsString
  import opened JsNumber

  /** A position in the 3D scene; each coordinate may be NaN, as in the engine. */
  datatype Vector3 = Vector3(x: Number, y: Number, z: Number)

  /** Distance between neighbouring grid cells, in scene units. */
  const CellSize: int := 5

  /** Character code of the first column letter, "A". */
  const ColumnBase: int := 65

  /** The first UTF-16 code unit of `c`: `c` itself inside the Basic
      Multilingual Plane, its high surrogate beyond it. */
  function FirstCodeUnit(c: char): (u: int)
    ensures 0 <= u < 0x10000
    ensures c as int < 0x10000 ==> u == c as int
    ensures c as int >= 0x10000 ==>
      0xD800 <= u < 0xDC00 &&
      (u - 0xD800) * 0x400 + 0x10000 <= c as int < (u - 0xD800) * 0x400 + 0x10400
  {
    if c as int < 0x10000 then c as int else 0xD800 + (c as int - 0x10000) / 0x400
  }

  /** `s.charCodeAt(0)`: NaN for the empty string. */
  function CharCodeAt0(s: string): (n: Number)
    ensures n.Num? <==> |s| > 0
    ensures |s| > 0 && s[0] as int < 0x10000 ==> n == Num(s[0] as int)
  {
    if |s| == 0 then NaN else Num(FirstCodeUnit(s[0]))
  }

  /** `parseInt(s.substring(1))`. `substring(1)` drops one UTF-16 code unit,
      so when the first character lies beyond the Basic Multilingual Plane the
      remainder starts with its lone low surrogate, which is neither white
      space, sign nor digit, and `parseInt` yields NaN. */
  function ParseRow(s: string): (n: Number)
    ensures |s| > 0 && s[0] as int < 0x10000 ==> n == ParseInt(s[1..])
    ensures |s| == 0 || s[0] as int >= 0x10000 ==> n == NaN
  {
    if |s| == 0 then ParseInt([])
    else if s[0] as int >= 0x10000 then NaN
    else ParseInt(s[1..])
  }

  lemma ParseRowOfCode(col: char, row: string)
    requires col as int < 0x10000
    ensures ParseRow([col] + row) == ParseInt(row)
  {
    assert ([col] + row)[1..] == row;
  }

  /** `conversorToVector3`: the column letter's code, counted from "A", and
      the row number, each scaled by the cell size; the height is always 0. */
  function ConversorToVector3(gridPos: string): (v: Vector3)
    ensures v.y == Num(0)
    ensures v.x.Num? <==> |gridPos| > 0
    ensures |gridPos| > 0 && 'A' <= gridPos[0] <= 'Z' ==>
      v.x.Num? && 0 <= v.x.value <= 125
    ensures |gridPos| > 0 && gridPos[0] as int < 0x10000 ==>
      v.x == Num(CellSize * (gridPos[0] as int - ColumnBase))
  {
    var x := CharCodeAt0(gridPos).Minus(ColumnBase);
    var z := ParseRow(gridPos);
    Vector3(x.Times(CellSize), Num(0), z.Times(CellSize))
  }

  /** `userPosition`: a stub that always reports the origin. */
  function UserPosition(): (v: Vector3)
    ensures v.x == v.y == v.z == Num(0)
  {
    Vector3(Num(0), Num(0), Num(0))
  }

  /** The grid code of column `col` and row `row`, as the directory writes it. */
  function GridCode(col: char, row: nat): string
  {
    [col] + ToDecimal(row)
  }

  /** A grid code converts to the column's offset from "A" and the row, each
      times the cell size, at height 0. */
  lemma ConversorGridCode(col: char, row: nat)
    requires col as int < 0x10000
    ensures ConversorToVector3(GridCode(col, row))
         == Vector3(Num(CellSize * (col as int - ColumnBase)), Num(0), Num(CellSize * row))
  {
    var g := GridCode(col, row);
    assert g[0] == col && g[1..] == ToDecimal(row);
    ParseIntToDecimal(row);
  }

  /** The example of the source's documentation: "A10" lies at (0, 0, 50). */
  lemma ConversorExampleA10()
    ensures ConversorToVector3("A10") == Vector3(Num(0), Num(0), Num(50))
  {
    assert ToDecimal(10) == "10";
    assert GridCode('A', 10) == "A10";
    ConversorGridCode('A', 10);
  }

  /** Each later column letter moves x by one cell size. */
  lemma ConversorColumnStep(col: char, nextCol: char, rest: string)
    requires 'A' <= col < 'Z' && nextCol as int == col as int + 1
    ensures ConversorToVector3([nextCol] + rest).x.Num?
    ensures ConversorToVector3([nextCol] + rest).x.value
         == ConversorToVector3([col] + rest).x.value + CellSize
  {
  }

  /** x depends on the first character only. */
  lemma ConversorXIgnoresRow(col: char, row1: string, row2: string)
    ensures ConversorToVector3([col] + row1).x == ConversorToVector3([col] + row2).x
  {
  }

  /** z depends on the row part only, not on the column letter. */
  lemma ConversorZIgnoresColumn(col1: char, col2: char, row: string)
    requires col1 as int < 0x10000 && col2 as int < 0x10000
    ensures ConversorToVector3([col1] + row).z == ConversorToVector3([col2] + row).z
  {
    assert ([col1] + row)[1..] == row == ([col2] + row)[1..];
  }

  /** For a column character inside the Basic Multilingual Plane, z is the
      cell size times `parseInt` of the row part. */
  lemma ConversorRow(col: char, row: string)
    requires col as int < 0x10000
    ensures ConversorToVector3([col] + row).z == ParseInt(row).Times(CellSize)
  {
    ParseRowOfCode(col, row);
  }

  /** A row part that starts with a run of decimal digits (and not with "0x")
      gives z = cell size times the value of that run; what follows the run
      is ignored. */
  lemma ConversorDecimalRow(col: char, digits: string, rest: string)
    requires col as int < 0x10000
    requires |digits| > 0 && AllRadixDigits(digits, 10)
    requires |rest| == 0 || !IsDecimalDigit(rest[0])
    requires !HasHexPrefix(digits + rest)
    ensures ConversorToVector3([col] + (digits + rest)).z == Num(CellSize * DigitsValue(digits, 10))
  {
    var row := digits + rest;
    var value := DigitsValue(digits, 10);
    assert ParseInt(row) == Num(value) by {
      ParseIntDecimalRun(digits, rest);
    }
    ConversorRow(col, row);
  }

  /** A row part that, after white space and an optional sign, does not
      start with a decimal digit does not denote a number: z is NaN. */
  lemma ConversorRowNotNumeral(gridPos: string)
    requires |gridPos| > 0 && !StartsWithNumeral(gridPos[1..])
    ensures ConversorToVector3(gridPos).z == NaN
  {
  }

  /** In particular an empty row part, or one whose first character is no
      white space, sign or digit, gives z = NaN. */
  lemma ConversorRowNotANumber(gridPos: string)
    requires |gridPos| > 0
    requires |gridPos| == 1 || (var c := gridPos[1];
      !IsWhiteSpace(c) && c != '+' && c != '-' && !IsDecimalDigit(c))
    ensures ConversorToVector3(gridPos).z == NaN
  {
    var row := gridPos[1..];
    if |row| > 0 {
      TrimStartOfTrimmed(row);
    }
    ConversorRowNotNumeral(gridPos);
  }

  /** A "0x" row is read in radix 16: "A0x1F" lies at z = 5 * 31. */
  lemma ConversorHexRow()
    ensures ConversorToVector3("A0x1F").z == Num(155)
  {
    var row := "0x1F";
    assert "A0x1F"[1..] == row;
    TrimStartOfTrimmed(row);
    assert Unsigned(row) == row;
    assert row[2..] == "1F";
    assert DigitRun("1F", 16) == "1F";
    assert DigitsValue("1F", 16) == 31 by {
      assert "1F"[..1] == "1";
      assert "1"[..0] == "";
    }
  }

  /** The decoded cell of a position on the grid: the column letter and row
      whose code converts to it, if there are such. */
  function CellOf(v: Vector3): (cell: Option<string>)
  {
    if v.x.Num? && v.y == Num(0) && v.z.Num?
       && v.x.value % CellSize == 0 && 0 <= v.x.value / CellSize < 26
       && v.z.value % CellSize == 0 && v.z.value >= 0
    then Some(GridCode((ColumnBase + v.x.value / CellSize) as char, v.z.value / CellSize))
    else None
  }

  /** Scaling by the cell size can be undone. */
  lemma ScaleByCellSize(k: int)
    ensures (CellSize * k) % CellSize == 0 && (CellSize * k) / CellSize == k
  {
  }

  /** Every grid position decodes to a grid code that converts back to it. */
  lemma CellOfConversor(v: Vector3)
    requires CellOf(v).Some?
    ensures ConversorToVector3(CellOf(v).value) == v
  {
    var col := (ColumnBase + v.x.value / CellSize) as char;
    ConversorGridCode(col, v.z.value / CellSize);
  }

  /** Converting the code of a column "A".."Z" and a row, then decoding,
      gives the code back: distinct cells sit at distinct positions. */
  lemma ConversorCellOf(col: char, row: nat)
    requires 'A' <= col <= 'Z'
    ensures CellOf(ConversorToVector3(GridCode(col, row))) == Some(GridCode(col, row))
  {
    var k := col as int - ColumnBase;
    ConversorGridCode(col, row);
    ScaleByCellSize(k);
    ScaleByCellSize(row);
    assert (ColumnBase + k) as char == col;
  }

  /** The stand-in user position is the position of cell "A0". */
  lemma UserPositionIsCellA0()
    ensures UserPosition() == ConversorToVector3("A0")
  {
    assert ToDecimal(0) == "0";
    assert GridCode('A', 0) == "A0";
    ConversorGridCode('A', 0);
  }
}
