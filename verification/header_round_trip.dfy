/**
  Reading back what the C-header exporter writes: `load_h_initializer_only`
  of compare_weights.py applied to the text `write_i8_2d` or `write_i32_1d`
  produces gives the exported integers back in row-major order, and
  `compare` then reports a perfect match against the COE file of the same
  array.
*/
module HeaderRoundTrip {
  import opened Wrappers
  import opened Text
  import opened Coe
  import opened CHeader
  import opened CompareWeights
  import opened CoeRoundTrip

  // ------------------------------------------------------------ comments

  /** Text without '/' holds no comment: both substitutions leave it as it is. */
  lemma {:induction false} NoSlashNoComment(s: string)
    requires '/' !in s
    ensures StripLineComments(s) == s && StripBlockComments(s) == s
  {
    if s != [] {
      assert s[0] in s;
      assert forall c :: c in s[1..] ==> c in s;
      NoSlashNoComment(s[1..]);
      assert s == [s[0]] + s[1..];
    }
  }

  /** A "//" comment is deleted up to, not including, the end of its line. */
  lemma LineCommentDropped(before: string, comment: string, after: string)
    requires '/' !in before && '\n' !in comment
    requires after == [] || after[0] == '\n'
    ensures StripLineComments(before + "//" + comment + after) == before + StripLineComments(after)
  {
    assert before + "//" + comment + after == before + ("//" + comment + after);
    LineCommentAt(before, "//" + comment + after, comment, after);
  }

  lemma {:induction false} LineCommentAt(before: string, tail: string, comment: string, after: string)
    requires '/' !in before && '\n' !in comment
    requires after == [] || after[0] == '\n'
    requires tail == "//" + comment + after
    ensures StripLineComments(before + tail) == before + StripLineComments(after)
    decreases |before|
  {
    if before == [] {
      LineCommentHere(before, tail, comment, after);
    } else {
      assert forall c :: c in before[1..] ==> c in before;
      LineCommentAt(before[1..], tail, comment, after);
      LineKeepsFirst(before, tail, StripLineComments(after));
    }
  }

  lemma LineCommentHere(before: string, tail: string, comment: string, after: string)
    requires before == [] && '\n' !in comment
    requires after == [] || after[0] == '\n'
    requires tail == "//" + comment + after
    ensures StripLineComments(before + tail) == before + StripLineComments(after)
  {
    assert before + tail == tail && "//" <= tail;
    FromNewlineSkips("//" + comment, after);
    assert tail == ("//" + comment) + after;
  }

  /** A first character other than '/' is kept, and the rest is stripped on its own. */
  lemma LineKeepsFirst(before: string, tail: string, done: string)
    requires before != [] && '/' !in before
    requires StripLineComments(before[1..] + tail) == before[1..] + done
    ensures StripLineComments(before + tail) == before + done
  {
    var s := before + tail;
    assert s[0] == before[0] && before[0] in before;
    assert !("//" <= s);
    assert s[1..] == before[1..] + tail;
    assert StripLineComments(s) == [before[0]] + StripLineComments(before[1..] + tail);
    FirstAndRest(before, done);
  }

  lemma FirstAndRest(before: string, done: string)
    requires before != []
    ensures [before[0]] + (before[1..] + done) == before + done
  {
    assert before == [before[0]] + before[1..];
  }

  /** The rest of a line without newline is skipped up to the next one. */
  lemma {:induction false} FromNewlineSkips(line: string, after: string)
    requires '\n' !in line && (after == [] || after[0] == '\n')
    ensures FromNewline(line + after) == after
    decreases |line|
  {
    if line == [] {
      assert line + after == after;
    } else {
      assert line[0] in line;
      assert (line + after)[1..] == line[1..] + after;
      assert forall c :: c in line[1..] ==> c in line;
      FromNewlineSkips(line[1..], after);
    }
  }

  /** A block comment whose body holds no "*" "/" closer is deleted with its delimiters. */
  lemma BlockCommentDropped(before: string, body: string, after: string)
    requires '/' !in before && '*' !in body
    ensures StripBlockComments(before + "/*" + body + "*/" + after) == before + StripBlockComments(after)
  {
    assert before + "/*" + body + "*/" + after == before + ("/*" + body + "*/" + after);
    BlockCommentAt(before, "/*" + body + "*/" + after, body, after);
  }

  lemma {:induction false} BlockCommentAt(before: string, tail: string, body: string, after: string)
    requires '/' !in before && '*' !in body
    requires tail == "/*" + body + "*/" + after
    ensures StripBlockComments(before + tail) == before + StripBlockComments(after)
    decreases |before|
  {
    if before == [] {
      BlockCommentHere(before, tail, body, after);
    } else {
      assert forall c :: c in before[1..] ==> c in before;
      BlockCommentAt(before[1..], tail, body, after);
      BlockKeepsFirst(before, tail, StripBlockComments(after));
    }
  }

  lemma BlockCommentHere(before: string, tail: string, body: string, after: string)
    requires before == [] && '*' !in body
    requires tail == "/*" + body + "*/" + after
    ensures StripBlockComments(before + tail) == before + StripBlockComments(after)
  {
    assert before + tail == tail;
    assert "/*" <= tail;
    assert tail[2..] == body + "*/" + after;
    FindAfter(body, "*/", after, '*');
    assert tail[2 + |body| + 2..] == after;
  }

  lemma BlockKeepsFirst(before: string, tail: string, done: string)
    requires before != [] && '/' !in before
    requires StripBlockComments(before[1..] + tail) == before[1..] + done
    ensures StripBlockComments(before + tail) == before + done
  {
    var s := before + tail;
    assert s[0] == before[0] && before[0] in before;
    assert !("/*" <= s);
    assert s[1..] == before[1..] + tail;
    assert StripBlockComments(s) == [before[0]] + StripBlockComments(before[1..] + tail);
    FirstAndRest(before, done);
  }

  // --------------------------------------------------------- initializer

  /** Positions without '=' cannot start the initializer. */
  lemma {:induction false} InitializerSkip(s: string, i: nat, j: nat)
    requires i <= j <= |s|
    requires forall k :: i <= k < j ==> s[k] != '='
    ensures InitializerFrom(s, i) == InitializerFrom(s, j)
    decreases j - i
  {
    if i < j {
      InitializerSkip(s, i + 1, j);
    }
  }

  /**
    In text made of a part without '=', then "= {", a body and a final "};\n",
    the search finds the first '=' and the last closing brace: the initializer
    is the body, whatever braces and semicolons it holds.
  */
  lemma InitializerAt(pre: string, body: string, s: string)
    requires '=' !in pre && s == pre + "= {" + body + "};\n"
    ensures InitializerFrom(s, 0) == Some(body)
  {
    var n := |pre|;
    var m := |s|;
    forall k | 0 <= k < n
      ensures s[k] != '='
    {
      assert s[k] == pre[k];
    }
    InitializerSkip(s, 0, n);
    assert s[n] == '=' && s[n + 1] == ' ' && s[n + 2] == '{';
    assert SkipSpaces(s, n + 2) == n + 2;
    assert SkipSpaces(s, n + 1) == n + 2;
    assert s[m - 3] == '}' && s[m - 2] == ';' && s[m - 1] == '\n';
    CloseAtEnd(s, n + 3);
    assert s[n + 3..m - 3] == body;
  }

  /** Text ending in "};\n": the last `\}\s*;` match is that closing brace. */
  lemma CloseAtEnd(s: string, lo: nat)
    requires lo + 3 <= |s| && s[|s| - 3] == '}' && s[|s| - 2] == ';' && s[|s| - 1] == '\n'
    ensures LastClose(s, lo, |s|) == Some(|s| - 3)
  {
    var m := |s|;
    assert !ClosesAt(s, m - 1) && !ClosesAt(s, m - 2);
    assert SkipSpaces(s, m - 2) == m - 2;
    assert ClosesAt(s, m - 3);
    assert LastClose(s, lo, m - 2) == Some(m - 3);
  }

  // ------------------------------------------------------------- numbers

  /** Text made of characters that are neither digits nor '-'. */
  predicate NoNumberChars(p: string)
  {
    forall k :: 0 <= k < |p| ==> !IsDigit(p[k]) && p[k] != '-'
  }

  /** The separators the header writer puts between numbers. */
  lemma Separators()
    ensures NoNumberChars("  {") && NoNumberChars("}") && NoNumberChars(",")
    ensures NoNumberChars(",\n") && NoNumberChars("\n")
  {
  }

  /** Characters that are neither digits nor '-' start no number. */
  lemma {:induction false} NumbersSkip(p: string, s: string)
    requires NoNumberChars(p)
    ensures Numbers(p + s) == Numbers(s)
    decreases |p|
  {
    if p != [] {
      assert (p + s)[0] == p[0];
      assert (p + s)[1..] == p[1..] + s;
      NumbersSkip(p[1..], s);
    } else {
      assert p + s == s;
    }
  }

  /** A run of digits followed by a non-digit is exactly that run. */
  lemma {:induction false} DigitRunOf(d: string, rest: string)
    requires AllDigits(d) && (rest == [] || !IsDigit(rest[0]))
    ensures DigitRun(d + rest) == |d|
    decreases |d|
  {
    if d == [] {
      assert d + rest == rest;
    } else {
      assert (d + rest)[0] == d[0];
      assert (d + rest)[1..] == d[1..] + rest;
      DigitRunOf(d[1..], rest);
    }
  }

  /** A run of digits followed by a non-digit is read as one number. */
  lemma NumbersOfDigits(d: string, rest: string, t: string, v: nat)
    requires d != [] && AllDigits(d) && (rest == [] || !IsDigit(rest[0])) && t == d + rest
    requires DecimalValue(d) == v
    ensures Numbers(t) == [v as int] + Numbers(rest)
  {
    DigitRunOf(d, rest);
    assert t[..|d|] == d && t[|d|..] == rest;
    assert IsDigit(t[0]);
  }

  /** '-' and a run of digits followed by a non-digit is read as one negative number. */
  lemma NumbersOfNegative(d: string, rest: string, t: string, v: nat)
    requires d != [] && AllDigits(d) && (rest == [] || !IsDigit(rest[0])) && t == "-" + d + rest
    requires DecimalValue(d) == v
    ensures Numbers(t) == [-(v as int)] + Numbers(rest)
  {
    assert t[1..] == d + rest;
    DigitRunOf(d, rest);
    assert t[1..1 + |d|] == d && t[1 + |d|..] == rest;
    assert t[0] == '-' && IsDigit(t[1]);
  }

  /** `str(x)` followed by a non-digit is found again as the number x. */
  lemma NumbersOfInt(x: int, rest: string)
    requires rest == [] || !IsDigit(rest[0])
    ensures Numbers(IntToString(x) + rest) == [x] + Numbers(rest)
  {
    if x >= 0 {
      var d := NatToString(x);
      assert IntToString(x) == d;
      DecimalValueOfNatToString(x);
      NumbersOfDigits(d, rest, IntToString(x) + rest, x);
    } else {
      var d := NatToString(-x);
      assert IntToString(x) == "-" + d;
      DecimalValueOfNatToString(-x);
      NumbersOfNegative(d, rest, IntToString(x) + rest, -x);
    }
  }

  /** `str(x)`, a comma and more text: x, then the numbers of the rest. */
  lemma NumbersIntComma(x: int, u: string)
    ensures Numbers(IntToString(x) + ("," + u)) == [x] + Numbers(u)
  {
    NumbersOfInt(x, "," + u);
    Separators();
    NumbersSkip(",", u);
  }

  lemma JoinDecimalsStep(xs: seq<int>)
    requires |xs| >= 2
    ensures Join(Decimals(xs), ",") == IntToString(xs[0]) + "," + Join(Decimals(xs[1..]), ",")
  {
    assert Decimals(xs)[1..] == Decimals(xs[1..]);
  }

  /** The text of a list of several numbers is its first number, then a ',' before the text of the others. */
  lemma FirstNumberThenTail(first: string, tailText: string, rest: string)
    ensures first + "," + tailText + rest == first + ("," + (tailText + rest))
  {
  }

  /** `xs + more` as its first element followed by the others and `more`. */
  lemma ConsAssoc(xs: seq<int>, more: seq<int>)
    requires xs != []
    ensures [xs[0]] + (xs[1..] + more) == xs + more
  {
    assert xs == [xs[0]] + xs[1..];
  }

  /** The comma-joined decimals of a list, followed by a non-digit, are found again as the list. */
  lemma {:induction false} NumbersOfJoin(xs: seq<int>, rest: string)
    requires rest == [] || !IsDigit(rest[0])
    ensures Numbers(Join(Decimals(xs), ",") + rest) == xs + Numbers(rest)
    decreases |xs|
  {
    if |xs| <= 1 {
      JoinNumbersShort(xs, rest);
    } else {
      NumbersOfJoin(xs[1..], rest);
      JoinNumbersStep(xs, rest);
    }
  }

  lemma JoinNumbersShort(xs: seq<int>, rest: string)
    requires |xs| <= 1 && (rest == [] || !IsDigit(rest[0]))
    ensures Numbers(Join(Decimals(xs), ",") + rest) == xs + Numbers(rest)
  {
    if xs == [] {
      assert Join(Decimals(xs), ",") + rest == rest;
      assert xs + Numbers(rest) == Numbers(rest);
    } else {
      assert Join(Decimals(xs), ",") == IntToString(xs[0]);
      assert xs == [xs[0]];
      NumbersOfInt(xs[0], rest);
    }
  }

  /** One more number in front of the list: the list's first value, then the others. */
  lemma JoinNumbersStep(xs: seq<int>, rest: string)
    requires |xs| >= 2
    requires Numbers(Join(Decimals(xs[1..]), ",") + rest) == xs[1..] + Numbers(rest)
    ensures Numbers(Join(Decimals(xs), ",") + rest) == xs + Numbers(rest)
  {
    var tailText := Join(Decimals(xs[1..]), ",");
    JoinDecimalsStep(xs);
    FirstNumberThenTail(IntToString(xs[0]), tailText, rest);
    NumbersIntComma(xs[0], tailText + rest);
    ConsAssoc(xs, Numbers(rest));
  }

  /** One row line holds the row's values, then come the numbers of the lines after it. */
  lemma RowNumbers(row: seq<int>, joined: string, term: string, later: string)
    requires joined == Join(Decimals(row), ",") && (term == ",\n" || term == "\n")
    ensures Numbers("  {" + joined + "}" + term + later) == row + Numbers(later)
  {
    Separators();
    assert "  {" + joined + "}" + term + later == "  {" + (joined + ("}" + (term + later)));
    NumbersSkip("  {", joined + ("}" + (term + later)));
    NumbersOfJoin(row, "}" + (term + later));
    NumbersSkip("}", term + later);
    NumbersSkip(term, later);
  }

  /** The row lines from row r on hold exactly the rows' values, row after row. */
  lemma {:induction false} NumbersOfRowLines(rows: seq<seq<int>>, r: nat)
    requires r <= |rows|
    ensures Numbers(RowLines(rows, r)) == Concat(rows[r..])
    decreases |rows| - r
  {
    if r == |rows| {
      NoRowLines(rows, r);
    } else {
      NumbersOfRowLines(rows, r + 1);
      RowLinesNumbersStep(rows, r);
    }
  }

  lemma NoRowLines(rows: seq<seq<int>>, r: nat)
    requires r == |rows|
    ensures Numbers(RowLines(rows, r)) == Concat(rows[r..])
  {
    assert rows[r..] == [];
  }

  /** One more row in front: its values, then the values of the rows after it. */
  lemma RowLinesNumbersStep(rows: seq<seq<int>>, r: nat)
    requires r < |rows|
    requires Numbers(RowLines(rows, r + 1)) == Concat(rows[r + 1..])
    ensures Numbers(RowLines(rows, r)) == Concat(rows[r..])
  {
    var joined := Join(Decimals(rows[r]), ",");
    var term := if r != |rows| - 1 then ",\n" else "\n";
    var later := RowLines(rows, r + 1);
    RowLinesStep(rows, r);
    assert RowLines(rows, r) == "  {" + joined + "}" + term + later;
    RowNumbers(rows[r], joined, term, later);
    assert rows[r..] == [rows[r]] + rows[r + 1..];
    ConcatCons(rows[r], rows[r + 1..]);
  }

  // --------------------------------------------------------- header texts

  /** A name that keeps the header readable: no comment opener and no '='. */
  predicate PlainName(name: string)
  {
    '/' !in name && '=' !in name
  }

  /** The row lines are digits, '-', ',', ' ', braces and newlines. */
  lemma {:induction false} RowLinesAvoid(rows: seq<seq<int>>, r: nat, c: char)
    requires !IsDigit(c) && c != '-' && c != ',' && c != ' ' && c != '{' && c != '}' && c != '\n'
    ensures c !in RowLines(rows, r)
    decreases |rows| - r
  {
    if r < |rows| {
      DecimalsAvoid(rows[r], c);
      RowLinesAvoid(rows, r + 1, c);
    }
  }

  lemma DecimalsAvoid(xs: seq<int>, c: char)
    requires !IsDigit(c) && c != '-' && c != ','
    ensures c !in Join(Decimals(xs), ",")
  {
    forall i | 0 <= i < |xs|
      ensures c !in Decimals(xs)[i]
    {
      IntToStringAvoids(xs[i], c);
    }
    JoinAvoids(Decimals(xs), ",", c);
  }

  /** Neither '/' nor '=' is among the fixed characters of the two headers. */
  lemma LiteralFacts(c: char)
    requires c == '/' || c == '='
    ensures c !in PREAMBLE && c !in "static const int8_t " && c !in "static const int32_t "
    ensures !IsDigit(c) && c != '-' && c != ',' && c != ' ' && c != '{' && c != '}' && c != '\n'
    ensures c != '[' && c != ']'
  {
    assert forall k :: 0 <= k < |PREAMBLE| ==> PREAMBLE[k] != c;
  }

  /** The declaration line of a `write_i8_2d` header up to the closing bracket of its shape. */
  function Int8Head(name: string, rowCount: nat, cols: nat): string
  {
    "static const int8_t " + name + "[" + IntToString(rowCount) + "][" + IntToString(cols)
  }

  /** The same for a `write_i32_1d` header. */
  function Int32Head(name: string, count: nat): string
  {
    "static const int32_t " + name + "[" + IntToString(count)
  }

  /** A `write_i8_2d` header up to its '='. */
  function Int8Pre(name: string, rowCount: nat, cols: nat): string
  {
    PREAMBLE + Int8Head(name, rowCount, cols) + "] "
  }

  /** A `write_i32_1d` header up to its '='. */
  function Int32Pre(name: string, count: nat): string
  {
    PREAMBLE + Int32Head(name, count) + "] "
  }

  lemma Int8PreAvoids(name: string, rowCount: nat, cols: nat, c: char)
    requires (c == '/' || c == '=') && c !in name
    ensures c !in Int8Pre(name, rowCount, cols)
  {
    LiteralFacts(c);
    IntToStringAvoids(rowCount, c);
    IntToStringAvoids(cols, c);
  }

  lemma Int32PreAvoids(name: string, count: nat, c: char)
    requires (c == '/' || c == '=') && c !in name
    ensures c !in Int32Pre(name, count)
  {
    LiteralFacts(c);
    IntToStringAvoids(count, c);
  }

  /** Splitting the fixed text of a declaration line around its '='. */
  lemma CutAtEquals(p: string, x: string, tail: string, body: string)
    requires tail == "] = {" || tail == "] = {\n"
    ensures p + (x + tail) + body + "};\n"
      == (p + x + "] ") + "= {" + (tail[5..] + body) + "};\n"
  {
    assert tail == "] " + "= {" + tail[5..];
  }

  lemma Int8Shape(name: string, rows: seq<seq<int>>, cols: nat)
    ensures Int8MatrixText(name, rows, cols)
      == Int8Pre(name, |rows|, cols) + "= {" + ("\n" + RowLines(rows, 0)) + "};\n"
  {
    assert Int8MatrixDecl(name, |rows|, cols) == Int8Head(name, |rows|, cols) + "] = {\n";
    CutAtEquals(PREAMBLE, Int8Head(name, |rows|, cols), "] = {\n", RowLines(rows, 0));
    assert "] = {\n"[5..] == "\n";
  }

  lemma Int32Shape(name: string, values: seq<int>)
    ensures Int32VectorText(name, values)
      == Int32Pre(name, |values|) + "= {" + Join(Decimals(values), ",") + "};\n"
  {
    var joined := Join(Decimals(values), ",");
    assert Int32VectorText(name, values) == PREAMBLE + (Int32Head(name, |values|) + "] = {") + joined + "};\n";
    CutAtEquals(PREAMBLE, Int32Head(name, |values|), "] = {", joined);
    assert "] = {"[5..] + joined == joined;
  }

  /** A character missing from each part of a header is missing from the header. */
  lemma AvoidsParts(c: char, pre: string, body: string)
    requires c != '=' && c != ' ' && c != '{' && c != '}' && c != ';' && c != '\n'
    requires c !in pre && c !in body
    ensures c !in pre + "= {" + body + "};\n"
  {
  }

  /** `load_h_initializer_only` of a `write_i8_2d` header gives the array's elements in row-major order. */
  lemma Int8HeaderRoundTrip(name: string, rows: seq<seq<int>>, cols: nat)
    requires PlainName(name)
    ensures LoadH(Int8MatrixText(name, rows, cols)) == Success(Concat(rows))
  {
    var text := Int8MatrixText(name, rows, cols);
    var lines := RowLines(rows, 0);
    var pre := Int8Pre(name, |rows|, cols);
    Int8Shape(name, rows, cols);
    Int8PreAvoids(name, |rows|, cols, '/');
    Int8PreAvoids(name, |rows|, cols, '=');
    LiteralFacts('/');
    RowLinesAvoid(rows, 0, '/');
    AvoidsParts('/', pre, "\n" + lines);
    NoSlashNoComment(text);
    InitializerAt(pre, "\n" + lines, text);
    Separators();
    NumbersSkip("\n", lines);
    NumbersOfRowLines(rows, 0);
    assert rows[0..] == rows;
  }

  /** `load_h_initializer_only` of a `write_i32_1d` header gives the array back. */
  lemma Int32HeaderRoundTrip(name: string, values: seq<int>)
    requires PlainName(name)
    ensures LoadH(Int32VectorText(name, values)) == Success(values)
  {
    var text := Int32VectorText(name, values);
    var joined := Join(Decimals(values), ",");
    var pre := Int32Pre(name, |values|);
    Int32Shape(name, values);
    Int32PreAvoids(name, |values|, '/');
    Int32PreAvoids(name, |values|, '=');
    DecimalsAvoid(values, '/');
    AvoidsParts('/', pre, joined);
    NoSlashNoComment(text);
    InitializerAt(pre, joined, text);
    NumbersOfJoin(values, "");
    assert joined + "" == joined;
    assert Numbers("") == [];
    assert values + [] == values;
  }

  // ------------------------------------------------------------ compare

  /**
    The check compare_weights.py exists for: an int8 matrix exported both as a
    COE file (`write_coe(i8_to_hex_list(a))`) and as a C header
    (`write_i8_2d`) loads back equal from both, so `compare` reports a
    perfect match.
  */
  lemma Int8ExportsAgree(name: string, rows: seq<seq<int>>, cols: nat, radix: int, perLine: nat)
    requires PlainName(name) && perLine >= 1
    requires forall i :: 0 <= i < |Concat(rows)| ==> -0x80 <= Concat(rows)[i] < 0x80
    ensures LoadCoe(CoeText(HexList8(Concat(rows)), radix, perLine), 8).Success?
    ensures LoadH(Int8MatrixText(name, rows, cols)).Success?
    ensures Compare(LoadCoe(CoeText(HexList8(Concat(rows)), radix, perLine), 8).value,
                    LoadH(Int8MatrixText(name, rows, cols)).value) == PerfectMatch
  {
    Int8CoeRoundTrip(Concat(rows), radix, perLine);
    Int8HeaderRoundTrip(name, rows, cols);
  }

  /** The same for an int32 vector exported by `write_coe(i32_to_hex_list(a))` and `write_i32_1d`. */
  lemma Int32ExportsAgree(name: string, values: seq<int>, radix: int, perLine: nat)
    requires PlainName(name) && perLine >= 1
    requires forall i :: 0 <= i < |values| ==> -0x8000_0000 <= values[i] < 0x8000_0000
    ensures LoadCoe(CoeText(HexList32(values), radix, perLine), 32).Success?
    ensures LoadH(Int32VectorText(name, values)).Success?
    ensures Compare(LoadCoe(CoeText(HexList32(values), radix, perLine), 32).value,
                    LoadH(Int32VectorText(name, values)).value) == PerfectMatch
  {
    Int32CoeRoundTrip(values, radix, perLine);
    Int32HeaderRoundTrip(name, values);
  }
}
