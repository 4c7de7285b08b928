/**
  Reading back what the COE exporter writes: `load_coe` of compare_weights.py
  applied to the text `write_coe` produces from `i8_to_hex_list` or
  `i32_to_hex_list` gives the exported integers back, in order.
*/
module CoeRoundTrip {
  import opened Wrappers
  import opened Text
  import opened Coe
  import opened CompareWeights

  lemma KeyFacts()
    ensures LastUnique(VECTOR_KEY) && 'v' in VECTOR_KEY && 'm' in VECTOR_KEY && 'v' !in RADIX_KEY
  {
    assert VECTOR_KEY[|VECTOR_KEY| - 1] == '=';
    assert VECTOR_KEY[22] == 'v' && VECTOR_KEY[0] == 'm';
  }

  /** Entries that `load_coe` can read back one for one: non-empty lowercase hex. */
  predicate HexEntries(hexes: seq<string>)
  {
    forall i :: 0 <= i < |hexes| ==> hexes[i] != [] && IsLowerHex(hexes[i])
  }

  /** The vector key occurs once, right after the radix line, so the text after it is all the data lines. */
  lemma PieceAfterVectorKey(hexes: seq<string>, radix: int, perLine: nat)
    requires perLine >= 1 && HexEntries(hexes)
    ensures PieceAfter(CoeText(hexes, radix, perLine), VECTOR_KEY) == Some("\n" + CoeLines(hexes, perLine, 0))
  {
    var a := RADIX_KEY + IntToString(radix) + ";\n";
    var rest := "\n" + CoeLines(hexes, perLine, 0);
    var text := CoeText(hexes, radix, perLine);
    assert text == a + VECTOR_KEY + rest;
    KeyFacts();
    IntToStringAvoids(radix, 'v');
    FindAfter(a, VECTOR_KEY, rest, 'v');
    assert text[|a| + |VECTOR_KEY|..] == rest;
    HexAvoids(hexes, 'm');
    CoeLinesAvoid(hexes, perLine, 0, 'm');
    FindAbsent(rest, VECTOR_KEY, 'm');
  }

  /** `[x.strip() for x in parts if x.strip()]` keeps parts that are non-empty and already stripped. */
  lemma {:induction false} FieldsKeep(parts: seq<string>)
    requires forall i :: 0 <= i < |parts| ==> parts[i] != [] && Strip(parts[i]) == parts[i]
    ensures Fields(parts) == parts
  {
    if parts != [] {
      FieldsKeep(parts[1..]);
      assert parts == [parts[0]] + parts[1..];
    }
  }

  /** A hex entry is not changed by `strip()`. */
  lemma HexStripped(h: string)
    requires h != [] && IsLowerHex(h)
    ensures Strip(h) == h
  {
    StripNoSpace(h);
  }

  /** No white space occurs in the comma-joined entries. */
  lemma JoinedHexHasNoSpace(hexes: seq<string>)
    requires HexEntries(hexes)
    ensures forall c :: IsSpace(c) ==> c !in Join(hexes, ",")
  {
    forall c | IsSpace(c)
      ensures c !in Join(hexes, ",")
    {
      HexAvoids(hexes, c);
      JoinAvoids(hexes, ",", c);
    }
  }

  /** The fields `load_coe` extracts from the data lines are the written entries. */
  lemma DataLinesFields(hexes: seq<string>, perLine: nat)
    requires perLine >= 1 && HexEntries(hexes)
    ensures VectorFields("\n" + CoeLines(hexes, perLine, 0)) == hexes
  {
    var lines := CoeLines(hexes, perLine, 0);
    var data := "\n" + lines;
    if hexes == [] {
      assert lines == "";
      assert RemoveChar(RemoveChar(data, ';'), '\n') == "";
      StripNoSpace("");
      assert Split("", ',') == [""];
      assert Fields([""]) == [] + Fields([]);
    } else {
      var joined := Join(hexes, ",");
      HexAvoids(hexes, '\n');
      HexAvoids(hexes, ';');
      HexAvoids(hexes, ',');
      assert hexes[0..] == hexes;
      CoeLinesJoined(hexes, perLine, 0);
      JoinAvoids(hexes, ",", ';');
      DropTerminators(data, lines, joined);
      JoinedHexHasNoSpace(hexes);
      if joined != [] {
        assert joined[0] in joined && joined[|joined| - 1] in joined;
      }
      StripNoSpace(joined);
      SplitJoin(hexes, ',');
      forall i | 0 <= i < |hexes|
        ensures hexes[i] != [] && Strip(hexes[i]) == hexes[i]
      {
        HexStripped(hexes[i]);
      }
      FieldsKeep(hexes);
    }
  }

  /** Deleting ';' and '\n' from the data lines leaves the joined entries. */
  lemma DropTerminators(data: string, lines: string, joined: string)
    requires data == "\n" + lines && RemoveChar(lines, '\n') == joined + ";" && ';' !in joined
    ensures RemoveChar(RemoveChar(data, ';'), '\n') == joined
  {
    RemoveCharSwap(data, ';', '\n');
    RemoveCharAppend("\n", lines, '\n');
    assert RemoveChar("\n", '\n') == "";
    RemoveCharAppend(joined, ";", ';');
    RemoveAbsentChar(joined, ';');
    assert RemoveChar(";", ';') == "";
  }

  /** A value in the signed range survives the round trip through its unsigned residue. */
  lemma SignedOfResidue(x: int, size: nat)
    requires size == Width(8) || size == Width(32)
    requires -(size / 2) <= x < size / 2
    ensures x % size < size && Signed(x % size, size) == x
  {
    if size == 0x100 {
      assert x % 0x100 == if x >= 0 then x else x + 0x100;
    } else {
      assert x % 0x1_0000_0000 == if x >= 0 then x else x + 0x1_0000_0000;
    }
  }

  /** Reading back the residues of values in the signed range gives the values. */
  lemma ReinterpretResidues(flat: seq<int>, vs: seq<nat>, size: nat)
    requires (size == Width(8) || size == Width(32)) && |vs| == |flat|
    requires forall i :: 0 <= i < |flat| ==> -(size / 2) <= flat[i] < size / 2 && vs[i] == flat[i] % size
    ensures Reinterpret(vs, size) == Success(flat)
  {
    forall i | 0 <= i < |flat|
      ensures vs[i] < size && Signed(vs[i], size) == flat[i]
    {
      SignedOfResidue(flat[i], size);
    }
    var r := Reinterpret(vs, size);
    assert r.Success? && r.value == flat;
  }

  /** The whole COE text of a hex list reads back as the list's fields. */
  lemma CoeFields(hexes: seq<string>, radix: int, perLine: nat)
    requires perLine >= 1 && HexEntries(hexes)
    ensures PieceAfter(CoeText(hexes, radix, perLine), VECTOR_KEY).Some?
    ensures VectorFields(PieceAfter(CoeText(hexes, radix, perLine), VECTOR_KEY).value) == hexes
  {
    PieceAfterVectorKey(hexes, radix, perLine);
    DataLinesFields(hexes, perLine);
  }

  /** An int8 array written by `write_coe(i8_to_hex_list(a))` is read back by `load_coe(..., 8)` unchanged. */
  lemma Int8CoeRoundTrip(flat: seq<int>, radix: int, perLine: nat)
    requires perLine >= 1
    requires forall i :: 0 <= i < |flat| ==> -0x80 <= flat[i] < 0x80
    ensures LoadCoe(CoeText(HexList8(flat), radix, perLine), 8) == Success(flat)
  {
    var hexes := HexList8(flat);
    CoeFields(hexes, radix, perLine);
    assert AllHexFields(hexes);
    ReinterpretResidues(flat, ParseHexAll(hexes).value, Width(8));
  }

  /** An int32 array written by `write_coe(i32_to_hex_list(a))` is read back by `load_coe(..., 32)` unchanged. */
  lemma Int32CoeRoundTrip(flat: seq<int>, radix: int, perLine: nat)
    requires perLine >= 1
    requires forall i :: 0 <= i < |flat| ==> -0x8000_0000 <= flat[i] < 0x8000_0000
    ensures LoadCoe(CoeText(HexList32(flat), radix, perLine), 32) == Success(flat)
  {
    var hexes := HexList32(flat);
    CoeFields(hexes, radix, perLine);
    assert AllHexFields(hexes);
    ReinterpretResidues(flat, ParseHexAll(hexes).value, Width(32));
  }
}
