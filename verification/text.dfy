/**
  Text helpers with the semantics of the Python built-ins the scripts use:
  `str(int)`, `int(s)`, `int(s, 16)`, `format(n, "0Nx")`, substring `in`,
  `strip`, `split`, `join` and `replace`.
*/
module Text {
  import opened Wrappers

  // ---------------------------------------------------------------- decimal

  predicate IsDigit(c: char) { '0' <= c <= '9' }

  predicate AllDigits(s: string) {
    forall i :: 0 <= i < |s| ==> IsDigit(s[i])
  }

  function DigitChar(d: nat): (c: char)
    requires d < 10
    ensures IsDigit(c)
  {
    ('0' as int + d) as char
  }

  function DigitValue(c: char): (d: nat)
    requires IsDigit(c)
    ensures d < 10
  {
    c as int - '0' as int
  }

  /** Python's `str(n)` for n >= 0: decimal digits, no leading zero. */
  function NatToString(n: nat): (s: string)
    ensures |s| >= 1 && AllDigits(s)
    decreases n
  {
    if n < 10 then [DigitChar(n)] else NatToString(n / 10) + [DigitChar(n % 10)]
  }

  /** Python's `str(x)` for an integer x. */
  function IntToString(x: int): (s: string)
    ensures |s| >= 1
    ensures x < 0 ==> s[0] == '-' && AllDigits(s[1..])
    ensures x >= 0 ==> AllDigits(s)
  {
    if x < 0 then "-" + NatToString(-x) else NatToString(x)
  }

  /** The number a (non-empty) run of decimal digits denotes; leading zeros allowed. */
  function DecimalValue(s: string): nat
    requires AllDigits(s)
  {
    if s == [] then 0 else DecimalValue(s[..|s| - 1]) * 10 + DigitValue(s[|s| - 1])
  }

  lemma {:induction false} DecimalValueOfNatToString(n: nat)
    ensures DecimalValue(NatToString(n)) == n
    decreases n
  {
    if n >= 10 {
      var s := NatToString(n);
      assert s[..|s| - 1] == NatToString(n / 10);
      DecimalValueOfNatToString(n / 10);
    }
  }

  // -------------------------------------------------------------------- hex

  predicate IsHexDigit(c: char) {
    IsDigit(c) || 'a' <= c <= 'f' || 'A' <= c <= 'F'
  }

  predicate IsLowerHex(s: string) {
    forall i :: 0 <= i < |s| ==> IsDigit(s[i]) || 'a' <= s[i] <= 'f'
  }

  predicate AllHexDigits(s: string) {
    forall i :: 0 <= i < |s| ==> IsHexDigit(s[i])
  }

  function HexDigitValue(c: char): (d: nat)
    requires IsHexDigit(c)
    ensures d < 16
  {
    if IsDigit(c) then DigitValue(c)
    else if 'a' <= c <= 'f' then c as int - 'a' as int + 10
    else c as int - 'A' as int + 10
  }

  function HexChar(d: nat): (c: char)
    requires d < 16
    ensures IsHexDigit(c) && HexDigitValue(c) == d
    ensures IsDigit(c) || 'a' <= c <= 'f'
  {
    if d < 10 then DigitChar(d) else ('a' as int + d - 10) as char
  }

  function Pow16(w: nat): (p: nat)
    ensures p >= 1
  {
    if w == 0 then 1 else 16 * Pow16(w - 1)
  }

  /** `format(n, "0<w>x")` for n < 16^w: exactly w lowercase hex digits, zero padded. */
  function HexFixed(n: nat, w: nat): (s: string)
    requires n < Pow16(w)
    ensures |s| == w && IsLowerHex(s) && AllHexDigits(s)
  {
    if w == 0 then [] else HexFixed(n / 16, w - 1) + [HexChar(n % 16)]
  }

  /** The number a run of hex digits (either case) denotes. */
  function HexValue(s: string): nat
    requires AllHexDigits(s)
  {
    if s == [] then 0 else HexValue(s[..|s| - 1]) * 16 + HexDigitValue(s[|s| - 1])
  }

  lemma {:induction false} HexValueOfHexFixed(n: nat, w: nat)
    requires n < Pow16(w)
    ensures HexValue(HexFixed(n, w)) == n
  {
    if w > 0 {
      var s := HexFixed(n, w);
      assert s[..|s| - 1] == HexFixed(n / 16, w - 1);
      HexValueOfHexFixed(n / 16, w - 1);
    }
  }

  // ------------------------------------------------------------- whitespace

  /** Python's `str.isspace()` on one character (also what regex `\s` matches). */
  predicate IsSpace(c: char) {
    c == ' ' || c == '\t' || c == '\n' || c == '\r' || c == '\U{0B}' || c == '\U{0C}'
    || ('\U{1C}' <= c <= '\U{1F}') || c == '\U{85}' || c == '\U{A0}' || c == '\U{1680}'
    || ('\U{2000}' <= c <= '\U{200A}') || c == '\U{2028}' || c == '\U{2029}'
    || c == '\U{202F}' || c == '\U{205F}' || c == '\U{3000}'
  }

  function TrimStart(s: string): (r: string)
    ensures |r| <= |s|
    ensures r != [] ==> !IsSpace(r[0])
  {
    if s != [] && IsSpace(s[0]) then TrimStart(s[1..]) else s
  }

  function TrimEnd(s: string): (r: string)
    ensures |r| <= |s|
    ensures r != [] ==> !IsSpace(r[|r| - 1])
  {
    if s != [] && IsSpace(s[|s| - 1]) then TrimEnd(s[..|s| - 1]) else s
  }

  /** `TrimStart` drops exactly the leading run of whitespace. */
  lemma {:induction false} TrimStartDropsSpaces(s: string)
    ensures var r := TrimStart(s);
      && r == s[|s| - |r|..]
      && forall i :: 0 <= i < |s| - |r| ==> IsSpace(s[i])
  {
    if s != [] && IsSpace(s[0]) {
      TrimStartDropsSpaces(s[1..]);
    }
  }

  /** `TrimEnd` drops exactly the trailing run of whitespace. */
  lemma {:induction false} TrimEndDropsSpaces(s: string)
    ensures var r := TrimEnd(s);
      && r == s[..|r|]
      && forall i :: |r| <= i < |s| ==> IsSpace(s[i])
  {
    if s != [] && IsSpace(s[|s| - 1]) {
      TrimEndDropsSpaces(s[..|s| - 1]);
    }
  }

  /** Python's `str.strip()`. */
  function Strip(s: string): string {
    TrimEnd(TrimStart(s))
  }

  lemma {:induction false} StripNoSpace(s: string)
    requires s == [] || (!IsSpace(s[0]) && !IsSpace(s[|s| - 1]))
    ensures Strip(s) == s
  {
  }

  // ---------------------------------------------------------- int() parsing

  /**
    Python's `int(s)` on text: surrounding whitespace, an optional sign and at
    least one decimal digit; anything else raises ValueError (None here).
  */
  function ParseInt(s: string): (r: Option<int>)
    ensures r.Some? && AllDigits(Strip(s)) ==> r.value >= 0
  {
    ParseStripped(Strip(s))
  }

  /** `int()` on text whose whitespace is already gone. */
  function ParseStripped(t: string): (r: Option<int>)
    ensures r.Some? && AllDigits(t) ==> r.value >= 0
  {
    if t != [] && (t[0] == '-' || t[0] == '+') then
      var d := t[1..];
      if d != [] && AllDigits(d) then
        Some(if t[0] == '-' then -(DecimalValue(d) as int) else DecimalValue(d))
      else None
    else if t != [] && AllDigits(t) then Some(DecimalValue(t))
    else None
  }

  lemma {:induction false} ParseIntOfIntToString(x: int)
    ensures ParseInt(IntToString(x)) == Some(x)
  {
    if x < 0 {
      NegativeRoundTrip(-x);
    } else {
      UnsignedRoundTrip(x);
    }
  }

  lemma {:induction false} NegativeRoundTrip(n: nat)
    ensures ParseInt("-" + NatToString(n)) == Some(-(n as int))
  {
    var d := NatToString(n);
    assert ("-" + d)[0] == '-' && IsDigit(("-" + d)[|"-" + d| - 1]);
    StripNoSpace("-" + d);
    ParseNegative(d);
    DecimalValueOfNatToString(n);
  }

  lemma {:induction false} UnsignedRoundTrip(n: nat)
    ensures ParseInt(NatToString(n)) == Some(n)
  {
    var d := NatToString(n);
    assert IsDigit(d[0]) && IsDigit(d[|d| - 1]);
    StripNoSpace(d);
    ParseUnsigned(d);
    DecimalValueOfNatToString(n);
  }

  lemma {:induction false} ParseNegative(d: string)
    requires d != [] && AllDigits(d)
    ensures ParseStripped("-" + d) == Some(-(DecimalValue(d) as int))
  {
    assert ("-" + d)[1..] == d;
  }

  lemma {:induction false} ParseUnsigned(d: string)
    requires d != [] && AllDigits(d)
    ensures ParseStripped(d) == Some(DecimalValue(d))
  {
    assert IsDigit(d[0]);
  }

  // ------------------------------------------------------------- substrings

  /** Python's `t in s` for strings. */
  predicate Contains(s: string, t: string)
  {
    if t <= s then true else if s == [] then false else Contains(s[1..], t)
  }

  lemma {:induction false} ContainsExtend(a: string, b: string, t: string)
    requires Contains(a, t)
    ensures Contains(a + b, t)
  {
    if t <= a {
      assert t <= a + b;
    } else {
      ContainsExtend(a[1..], b, t);
      assert (a + b)[1..] == a[1..] + b;
    }
  }

  /** All pieces of `parts` run together, left to right (`"".join(parts)`, `all_data += data`). */
  function Concat<T>(parts: seq<seq<T>>): seq<T>
  {
    if parts == [] then [] else Concat(parts[..|parts| - 1]) + parts[|parts| - 1]
  }

  lemma {:induction false} ConcatSplit<T>(parts: seq<seq<T>>, n: nat)
    requires n <= |parts|
    ensures Concat(parts) == Concat(parts[..n]) + Concat(parts[n..])
    decreases |parts|
  {
    if n < |parts| {
      var last := |parts| - 1;
      assert parts[..last][..n] == parts[..n];
      ConcatSplit(parts[..last], n);
      assert parts[..last][n..] == parts[n..last];
      assert parts[n..][..|parts[n..]| - 1] == parts[n..last];
    } else {
      assert parts[..n] == parts;
    }
  }

  lemma ConcatCons<T>(first: seq<T>, rest: seq<seq<T>>)
    ensures Concat([first] + rest) == first + Concat(rest)
  {
    var parts := [first] + rest;
    ConcatSplit(parts, 1);
    assert parts[..1] == [first] && parts[1..] == rest;
    assert Concat([first]) == Concat([first][..0]) + first;
  }

  // --------------------------------------------------------- split and join

  /** Python's `s.split(sep)` for a one-character separator. */
  function Split(s: string, sep: char): (parts: seq<string>)
    ensures |parts| >= 1
  {
    if s == [] then [[]]
    else if s[0] == sep then [[]] + Split(s[1..], sep)
    else var r := Split(s[1..], sep); [[s[0]] + r[0]] + r[1..]
  }

  /** Python's `sep.join(parts)`. */
  function Join(parts: seq<string>, sep: string): string
  {
    if parts == [] then []
    else if |parts| == 1 then parts[0]
    else parts[0] + sep + Join(parts[1..], sep)
  }

  lemma {:induction false} SplitNoSeparator(a: string, sep: char)
    requires sep !in a
    ensures Split(a, sep) == [a]
  {
    if a != [] {
      SplitNoSeparator(a[1..], sep);
      assert [a[0]] + a[1..] == a;
    }
  }

  lemma {:induction false} SplitAfterPiece(a: string, sep: char, rest: string)
    requires sep !in a
    ensures Split(a + [sep] + rest, sep) == [a] + Split(rest, sep)
  {
    if a == [] {
      assert a + [sep] + rest == [sep] + rest;
    } else {
      SplitAfterPiece(a[1..], sep, rest);
      assert (a + [sep] + rest)[1..] == a[1..] + [sep] + rest;
      assert [a[0]] + a[1..] == a;
    }
  }

  /** Splitting a join on a separator none of the pieces contains gives the pieces back. */
  lemma {:induction false} SplitJoin(parts: seq<string>, sep: char)
    requires |parts| >= 1
    requires forall i :: 0 <= i < |parts| ==> sep !in parts[i]
    ensures Split(Join(parts, [sep]), sep) == parts
  {
    if |parts| == 1 {
      SplitNoSeparator(parts[0], sep);
    } else {
      SplitJoin(parts[1..], sep);
      SplitAfterPiece(parts[0], sep, Join(parts[1..], [sep]));
      assert [parts[0]] + parts[1..] == parts;
    }
  }

  /** Joining two non-empty lists is joining each and putting one separator between. */
  lemma {:induction false} JoinAppend(a: seq<string>, b: seq<string>, sep: string)
    requires a != [] && b != []
    ensures Join(a + b, sep) == Join(a, sep) + sep + Join(b, sep)
    decreases |a|
  {
    if |a| == 1 {
      assert (a + b)[1..] == b;
    } else {
      assert (a + b)[1..] == a[1..] + b;
      JoinAppend(a[1..], b, sep);
    }
  }

  /** A character in neither the pieces nor the separator is not in their join. */
  lemma {:induction false} JoinAvoids(parts: seq<string>, sep: string, c: char)
    requires c !in sep && forall i :: 0 <= i < |parts| ==> c !in parts[i]
    ensures c !in Join(parts, sep)
    decreases |parts|
  {
    if |parts| > 1 {
      JoinAvoids(parts[1..], sep, c);
    }
  }

  /** The decimal text of an integer consists of digits and at most a leading '-'. */
  lemma IntToStringAvoids(x: int, c: char)
    requires !IsDigit(c) && c != '-'
    ensures c !in IntToString(x)
  {
    var s := IntToString(x);
    forall i | 0 <= i < |s|
      ensures s[i] != c
    {
      if x < 0 && i > 0 {
        assert s[i] == s[1..][i - 1];
      }
    }
  }

  /** Python's `s.replace(c, "")` for one character c. */
  function RemoveChar(s: string, c: char): (r: string)
    ensures c !in r
    ensures forall d :: d in r ==> d in s
  {
    if s == [] then [] else (if s[0] == c then [] else [s[0]]) + RemoveChar(s[1..], c)
  }

  lemma {:induction false} RemoveAbsentChar(s: string, c: char)
    requires c !in s
    ensures RemoveChar(s, c) == s
  {
    if s != [] {
      RemoveAbsentChar(s[1..], c);
      assert [s[0]] + s[1..] == s;
    }
  }

  lemma {:induction false} RemoveCharAppend(a: string, b: string, c: char)
    ensures RemoveChar(a + b, c) == RemoveChar(a, c) + RemoveChar(b, c)
  {
    if a == [] {
      assert a + b == b;
    } else {
      assert (a + b)[1..] == a[1..] + b;
      RemoveCharAppend(a[1..], b, c);
    }
  }

  /** Deleting two characters gives the same text in either order. */
  lemma {:induction false} RemoveCharSwap(s: string, c: char, d: char)
    ensures RemoveChar(RemoveChar(s, c), d) == RemoveChar(RemoveChar(s, d), c)
  {
    if s != [] {
      RemoveCharSwap(s[1..], c, d);
      var head := if s[0] == c then [] else [s[0]];
      RemoveCharAppend(head, RemoveChar(s[1..], c), d);
      var head2 := if s[0] == d then [] else [s[0]];
      RemoveCharAppend(head2, RemoveChar(s[1..], d), c);
      assert RemoveChar(head, d) == RemoveChar(head2, c);
    }
  }
}
