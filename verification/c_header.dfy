/**
  The C initializer headers of digit_fpga_nn/training/export_weights_int8.py:
  a 2-D `int8_t` array written row by row and a 1-D `int32_t` array written
  on one line, each value as `str(int(x))`.
*/
module CHeader {
  import opened Text

  const PREAMBLE: string := "#pragma once\n#include <stdint.h>\n\n"

  /** `str(int(x))` for each value, in order. */
  function Decimals(xs: seq<int>): (ds: seq<string>)
    ensures |ds| == |xs| && forall i :: 0 <= i < |xs| ==> ds[i] == IntToString(xs[i])
  {
    seq(|xs|, i requires 0 <= i < |xs| => IntToString(xs[i]))
  }

  /** One row: two spaces, the values comma-joined in braces. */
  function RowText(row: seq<int>): string
  {
    "  {" + Join(Decimals(row), ",") + "}"
  }

  /** The rows from `r` on, each followed by ",\n", the last one by "\n". */
  function RowLines(rows: seq<seq<int>>, r: nat): string
    decreases |rows| - r
  {
    if r >= |rows| then ""
    else RowText(rows[r]) + (if r != |rows| - 1 then ",\n" else "\n") + RowLines(rows, r + 1)
  }

  /** The declaration line, with the array's shape. */
  function Int8MatrixDecl(name: string, rowCount: nat, cols: nat): string
  {
    "static const int8_t " + name + "[" + IntToString(rowCount) + "][" + IntToString(cols) + "] = {\n"
  }

  /** What `write_i8_2d(path, name, arr)` writes for an array of `|rows|` rows of `cols` values. */
  function Int8MatrixText(name: string, rows: seq<seq<int>>, cols: nat): string
  {
    PREAMBLE + Int8MatrixDecl(name, |rows|, cols) + RowLines(rows, 0) + "};\n"
  }

  /** `write_i8_2d`: the preamble, the declaration, a line per row, then the closing brace. */
  method WriteInt8Matrix(name: string, rows: seq<seq<int>>, cols: nat) returns (text: string)
    ensures text == Int8MatrixText(name, rows, cols)
  {
    text := PREAMBLE;
    text := text + Int8MatrixDecl(name, |rows|, cols);
    ghost var whole := Int8MatrixText(name, rows, cols);
    for r := 0 to |rows|
      invariant text + RowLines(rows, r) + "};\n" == whole
    {
      ghost var before := text;
      var term := if r != |rows| - 1 then ",\n" else "\n";
      text := text + "  {";
      text := text + Join(Decimals(rows[r]), ",");
      text := text + "}";
      text := text + term;
      RowLinesStep(rows, r);
      RowWritten(before, Join(Decimals(rows[r]), ","), term, RowLines(rows, r + 1), whole);
    }
    assert RowLines(rows, |rows|) == "";
    text := text + "};\n";
  }

  /**
    The invariant of the row loop after one more row: the row line, taken
    from the pending row lines, is now part of the written text.
  */
  lemma RowWritten(before: string, joined: string, term: string, later: string, whole: string)
    requires before + ("  {" + joined + "}" + term + later) + "};\n" == whole
    ensures before + "  {" + joined + "}" + term + later + "};\n" == whole
  {
  }

  lemma RowLinesStep(rows: seq<seq<int>>, r: nat)
    requires r < |rows|
    ensures RowLines(rows, r)
      == "  {" + Join(Decimals(rows[r]), ",") + "}" + (if r != |rows| - 1 then ",\n" else "\n") + RowLines(rows, r + 1)
  {
  }

  /** What `write_i32_1d(path, name, arr)` writes: all values on the declaration line. */
  function Int32VectorText(name: string, values: seq<int>): string
  {
    PREAMBLE + "static const int32_t " + name + "[" + IntToString(|values|) + "] = {"
      + Join(Decimals(values), ",") + "};\n"
  }

  /** `write_i32_1d`: four writes, no loop. */
  method WriteInt32Vector(name: string, values: seq<int>) returns (text: string)
    ensures text == Int32VectorText(name, values)
  {
    text := PREAMBLE;
    text := text + "static const int32_t " + name + "[" + IntToString(|values|) + "] = {";
    text := text + Join(Decimals(values), ",");
    text := text + "};\n";
  }
}
