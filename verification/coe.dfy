/**
  The Xilinx COE writer of digit_fpga_nn/training/export_vivado_coe.py and
  its two hex-list helpers. Arrays are given flattened in row-major order
  (`reshape(-1)`), as plain integer sequences.
*/
module Coe {
  import opened Text

  const RADIX_KEY: string := "memory_initialization_radix="
  const VECTOR_KEY: string := "memory_initialization_vector="

  lemma Pow16Values()
    ensures Pow16(2) == 0x100 && Pow16(8) == 0x1_0000_0000
  {
    assert Pow16(1) == 16;
    assert Pow16(4) == 0x1_0000;
  }

  /** `f"{(int(x) & 0xFF):02x}"`: Python's `&` on a negative int acts on its two's complement, i.e. `x mod 256`. */
  function Hex8(x: int): (h: string)
    ensures |h| == 2 && IsLowerHex(h) && AllHexDigits(h) && HexValue(h) == x % 0x100
  {
    Pow16Values();
    HexValueOfHexFixed(x % 0x100, 2);
    HexFixed(x % 0x100, 2)
  }

  /** `f"{(int(x) & 0xFFFFFFFF):08x}"`. */
  function Hex32(x: int): (h: string)
    ensures |h| == 8 && IsLowerHex(h) && AllHexDigits(h) && HexValue(h) == x % 0x1_0000_0000
  {
    Pow16Values();
    HexValueOfHexFixed(x % 0x1_0000_0000, 8);
    HexFixed(x % 0x1_0000_0000, 8)
  }

  /** `i8_to_hex_list`: one entry per element, in order, two hex digits of its low byte. */
  function HexList8(flat: seq<int>): (hs: seq<string>)
    ensures |hs| == |flat|
    ensures forall i :: 0 <= i < |flat| ==>
      |hs[i]| == 2 && IsLowerHex(hs[i]) && AllHexDigits(hs[i]) && HexValue(hs[i]) == flat[i] % 0x100
  {
    seq(|flat|, i requires 0 <= i < |flat| => Hex8(flat[i]))
  }

  /** `i32_to_hex_list`: one entry per element, in order, eight hex digits of its low 32 bits. */
  function HexList32(flat: seq<int>): (hs: seq<string>)
    ensures |hs| == |flat|
    ensures forall i :: 0 <= i < |flat| ==>
      |hs[i]| == 8 && IsLowerHex(hs[i]) && AllHexDigits(hs[i]) && HexValue(hs[i]) == flat[i] % 0x1_0000_0000
  {
    seq(|flat|, i requires 0 <= i < |flat| => Hex32(flat[i]))
  }

  function Min(a: nat, b: nat): nat
  {
    if a <= b then a else b
  }

  /**
    The data lines from group `i` on: `values[i:i+perLine]` joined by ',', then
    ",\n", except ";\n" after the group that reaches the end.
  */
  function CoeLines(values: seq<string>, perLine: nat, i: nat): string
    requires perLine >= 1
    decreases |values| - i
  {
    if i >= |values| then ""
    else
      var line := Join(values[i..Min(i + perLine, |values|)], ",");
      line + (if i + perLine >= |values| then ";\n" else ",\n") + CoeLines(values, perLine, i + perLine)
  }

  function CoeHeader(radix: int): string
  {
    RADIX_KEY + IntToString(radix) + ";\n" + VECTOR_KEY + "\n"
  }

  /** The whole file `write_coe(path, values, radix, perLine)` writes. */
  function CoeText(values: seq<string>, radix: int, perLine: nat): string
    requires perLine >= 1
  {
    CoeHeader(radix) + CoeLines(values, perLine, 0)
  }

  /**
    `write_coe`: the two header lines, then one line per group of `perLine`
    values. With `perLine` 0, `range` raises ValueError after the header has
    been written (`raised`); with a negative `perLine` the range is empty and
    the file is the header alone.
  */
  method WriteCoe(values: seq<string>, radix: int, perLine: int) returns (text: string, raised: bool)
    ensures raised <==> perLine == 0
    ensures perLine <= 0 ==> text == CoeHeader(radix)
    ensures perLine >= 1 ==> text == CoeText(values, radix, perLine)
  {
    text := RADIX_KEY + IntToString(radix) + ";\n";
    text := text + VECTOR_KEY + "\n";
    assert text == CoeHeader(radix);
    raised := perLine == 0;
    if perLine <= 0 {
      return;
    }
    var i := 0;
    while i < |values|
      invariant text + CoeLines(values, perLine, i) == CoeText(values, radix, perLine)
      decreases |values| - i
    {
      var chunk := values[i..Min(i + perLine, |values|)];
      var line := Join(chunk, ",");
      var term := if i + perLine >= |values| then ";\n" else ",\n";
      CoeLinesStep(values, perLine, i);
      ghost var later := CoeLines(values, perLine, i + perLine);
      assert text + (line + term + later) == text + line + term + later;
      text := text + line + term;
      i := i + perLine;
    }
  }

  /** With no values the file is the two header lines alone. */
  lemma EmptyCoeIsHeader(radix: int, perLine: nat)
    requires perLine >= 1
    ensures CoeText([], radix, perLine) == CoeHeader(radix)
  {
    assert CoeLines([], perLine, 0) == "";
  }

  /**
    Without the line breaks, the data lines are all values in order joined
    by ',' and closed by one ';': groups are separated by ",\n" and the last
    one ends with ";\n".
  */
  lemma {:induction false} CoeLinesJoined(values: seq<string>, perLine: nat, i: nat)
    requires perLine >= 1 && i < |values|
    requires forall k :: 0 <= k < |values| ==> '\n' !in values[k] && ';' !in values[k]
    ensures RemoveChar(CoeLines(values, perLine, i), '\n') == Join(values[i..], ",") + ";"
    decreases |values| - i
  {
    var chunk := values[i..Min(i + perLine, |values|)];
    var line := Join(chunk, ",");
    var rest := CoeLines(values, perLine, i + perLine);
    CoeLinesStep(values, perLine, i);
    JoinAvoids(chunk, ",", '\n');
    if i + perLine >= |values| {
      assert chunk == values[i..];
      LastGroupJoined(CoeLines(values, perLine, i), line, rest);
    } else {
      CoeLinesJoined(values, perLine, i + perLine);
      var later := values[i + perLine..];
      assert values[i..] == chunk + later;
      JoinAppend(chunk, later, ",");
      GroupJoined(CoeLines(values, perLine, i), line, rest, Join(later, ","), Join(values[i..], ","));
    }
  }

  lemma LastGroupJoined(whole: string, line: string, rest: string)
    requires '\n' !in line && whole == line + ";\n" + rest && rest == []
    ensures RemoveChar(whole, '\n') == line + ";"
  {
    Terminators();
    WithoutNewlines(line, ";\n", rest);
    assert line + ";" + [] == line + ";";
  }

  lemma GroupJoined(whole: string, line: string, rest: string, later: string, all: string)
    requires '\n' !in line && whole == line + ",\n" + rest
    requires RemoveChar(rest, '\n') == later + ";" && all == line + "," + later
    ensures RemoveChar(whole, '\n') == all + ";"
  {
    Terminators();
    WithoutNewlines(line, ",\n", rest);
    assert line + "," + (later + ";") == line + "," + later + ";";
  }

  lemma WithoutNewlines(line: string, term: string, rest: string)
    requires '\n' !in line
    ensures RemoveChar(line + term + rest, '\n') == line + RemoveChar(term, '\n') + RemoveChar(rest, '\n')
  {
    RemoveAbsentChar(line, '\n');
    RemoveCharAppend(line + term, rest, '\n');
    RemoveCharAppend(line, term, '\n');
  }

  /** One group of the data lines, then the groups after it. */
  lemma CoeLinesStep(values: seq<string>, perLine: nat, i: nat)
    requires perLine >= 1 && i < |values|
    ensures CoeLines(values, perLine, i)
      == Join(values[i..Min(i + perLine, |values|)], ",")
         + (if i + perLine >= |values| then ";\n" else ",\n")
         + CoeLines(values, perLine, i + perLine)
  {
  }

  lemma Terminators()
    ensures RemoveChar(";\n", '\n') == ";" && RemoveChar(",\n", '\n') == ","
  {
    assert RemoveChar("\n", '\n') == [] + RemoveChar([], '\n');
    assert ";\n"[1..] == "\n" && ",\n"[1..] == "\n";
  }

  /** The data lines use only the characters of the values and ",;\n". */
  lemma {:induction false} CoeLinesAvoid(values: seq<string>, perLine: nat, i: nat, c: char)
    requires perLine >= 1 && c != ',' && c != ';' && c != '\n'
    requires forall k :: 0 <= k < |values| ==> c !in values[k]
    ensures c !in CoeLines(values, perLine, i)
    decreases |values| - i
  {
    if i < |values| {
      JoinAvoids(values[i..Min(i + perLine, |values|)], ",", c);
      CoeLinesAvoid(values, perLine, i + perLine, c);
    }
  }

  /** A character that is not a lowercase hex digit occurs in no entry of a hex list. */
  lemma HexAvoids(hexes: seq<string>, c: char)
    requires !IsDigit(c) && !('a' <= c <= 'f')
    requires forall i :: 0 <= i < |hexes| ==> IsLowerHex(hexes[i])
    ensures forall i :: 0 <= i < |hexes| ==> c !in hexes[i]
  {
    forall i | 0 <= i < |hexes|
      ensures c !in hexes[i]
    {
      var h := hexes[i];
      assert forall k :: 0 <= k < |h| ==> h[k] != c;
    }
  }
}
