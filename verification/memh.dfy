/**
  The `$readmemh` writers of digit_fpga_nn/training/export_memh.py: one hex
  word per line, elements in row-major (`flatten()`) order.
*/
module Memh {
  import opened Text
  import opened Coe

  /** The file text: every entry followed by a newline. */
  function MemText(hexes: seq<string>): string
  {
    if hexes == [] then "" else hexes[0] + "\n" + MemText(hexes[1..])
  }

  /** `write_mem_8`: one line per element, two hex digits of `v & 0xff`. */
  method WriteMem8(flat: seq<int>) returns (text: string)
    ensures text == MemText(HexList8(flat))
  {
    ghost var hexes := HexList8(flat);
    text := "";
    for i := 0 to |flat|
      invariant text + MemText(hexes[i..]) == MemText(hexes)
    {
      assert hexes[i..][1..] == hexes[i + 1..];
      text := text + Hex8(flat[i]) + "\n";
    }
  }

  /** `write_mem_32`: one line per element, eight hex digits of `v & 0xffffffff`. */
  method WriteMem32(flat: seq<int>) returns (text: string)
    ensures text == MemText(HexList32(flat))
  {
    ghost var hexes := HexList32(flat);
    text := "";
    for i := 0 to |flat|
      invariant text + MemText(hexes[i..]) == MemText(hexes)
    {
      assert hexes[i..][1..] == hexes[i + 1..];
      text := text + Hex32(flat[i]) + "\n";
    }
  }

  /**
    Cut at its newlines, the text is the entries one per line, then the
    empty rest after the final newline: as many lines as entries, in order.
  */
  lemma {:induction false} MemLines(hexes: seq<string>)
    requires forall i :: 0 <= i < |hexes| ==> '\n' !in hexes[i]
    ensures Split(MemText(hexes), '\n') == hexes + [""]
  {
    if hexes != [] {
      MemLines(hexes[1..]);
      SplitAfterPiece(hexes[0], '\n', MemText(hexes[1..]));
      assert hexes == [hexes[0]] + hexes[1..];
    }
  }

  /** The lines of a `.mem` file are the entries the COE exporter's hex lists hold for the same array. */
  lemma MemLinesAreHexLists(flat: seq<int>)
    ensures Split(MemText(HexList8(flat)), '\n') == HexList8(flat) + [""]
    ensures Split(MemText(HexList32(flat)), '\n') == HexList32(flat) + [""]
  {
    HexAvoids(HexList8(flat), '\n');
    MemLines(HexList8(flat));
    HexAvoids(HexList32(flat), '\n');
    MemLines(HexList32(flat));
  }
}
