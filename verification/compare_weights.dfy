/**
  The readers of digit_fpga_nn/hls_nn/weights/vivado_init/compare_weights.py:
  `load_coe` (a COE vector back to signed integers), `load_h_initializer_only`
  (the integers of the first `= { ... };` initializer of a C header, comments
  removed) and `compare`.
*/
module CompareWeights {
  import opened Wrappers
  import opened Text
  import opened Coe

  // -------------------------------------------------------- substring search

  /** The position of the first occurrence of `t` in `s`. */
  function Find(s: string, t: string): (r: Option<nat>)
    ensures r.Some? ==> r.value + |t| <= |s| && s[r.value..r.value + |t|] == t
    ensures r.Some? ==> forall j :: 0 <= j < r.value ==> !(t <= s[j..])
    ensures r.None? ==> forall j :: 0 <= j <= |s| ==> !(t <= s[j..])
    decreases |s|
  {
    if t <= s then Some(0)
    else if s == [] then None
    else
      assert forall j :: 1 <= j <= |s| ==> s[j..] == s[1..][j - 1..];
      match Find(s[1..], t)
      case None => None
      case Some(i) =>
        assert s[1..][i..i + |t|] == s[i + 1..i + 1 + |t|];
        Some(i + 1)
  }

  /** A text lacking one of the characters of `t` does not contain `t`. */
  lemma {:induction false} FindAbsent(s: string, t: string, c: char)
    requires c in t && c !in s
    ensures Find(s, t) == None
    decreases |s|
  {
    if |s| >= |t| {
      assert s[..|t|] != t by {
        assert c !in s[..|t|];
      }
    }
    if s != [] {
      FindAbsent(s[1..], t, c);
    }
  }

  /** `t`'s last character occurs nowhere else in `t`, so no occurrence of `t` can overlap another. */
  predicate LastUnique(t: string)
  {
    t != [] && t[|t| - 1] !in t[..|t| - 1]
  }

  /** The first occurrence of `t` in `a + t + rest` is the one after `a`, when `a` lacks a character of `t`. */
  lemma {:induction false} FindAfter(a: string, t: string, rest: string, c: char)
    requires LastUnique(t) && c in t && c !in a
    ensures Find(a + t + rest, t) == Some(|a|)
    decreases |a|
  {
    var s := a + t + rest;
    if a == [] {
      assert s == t + rest;
    } else {
      if |a| >= |t| {
        assert s[..|t|] == a[..|t|];
        assert c !in a[..|t|];
      } else {
        var k := |t| - 1;
        assert s[k] == t[k - |a|];
        assert t[k - |a|] in t[..k];
      }
      assert s[1..] == a[1..] + t + rest;
      FindAfter(a[1..], t, rest, c);
    }
  }

  /** `s.split(key)[1]`: the text between the first and second occurrence of `key`; None (IndexError) without one. */
  function PieceAfter(s: string, key: string): Option<string>
  {
    match Find(s, key)
    case None => None
    case Some(i) =>
      var rest := s[i + |key|..];
      match Find(rest, key)
      case None => Some(rest)
      case Some(j) => Some(rest[..j])
  }

  // ----------------------------------------------------------------- load_coe

  datatype CoeError =
    | NoVector                // no "memory_initialization_vector=": `split(...)[1]` raises IndexError
    | BadHex(field: string)   // `int(x, 16)` raises ValueError on this field
    | OutOfRange(value: nat)  // the value does not fit the unsigned dtype: NumPy raises OverflowError
    | BadWidth(bits: int)     // "bits must be 8 or 32"

  /** `[x.strip() for x in parts if x.strip()]`. */
  function Fields(parts: seq<string>): (fs: seq<string>)
    ensures forall i :: 0 <= i < |fs| ==> fs[i] != []
  {
    if parts == [] then []
    else
      var f := Strip(parts[0]);
      (if f == [] then [] else [f]) + Fields(parts[1..])
  }

  /** The fields of the vector text: semicolons and newlines deleted, stripped, split at ','. */
  function VectorFields(data: string): seq<string>
  {
    Fields(Split(Strip(RemoveChar(RemoveChar(data, ';'), '\n')), ','))
  }

  /** Every field is a non-empty run of hex digits, which `int(x, 16)` accepts here. */
  predicate AllHexFields(fields: seq<string>)
  {
    forall i :: 0 <= i < |fields| ==> fields[i] != [] && AllHexDigits(fields[i])
  }

  /** `[int(x, 16) for x in fields]`: the first field that is not hex digits is the error. */
  function ParseHexAll(fields: seq<string>): (r: Result<seq<nat>, string>)
    ensures r.Success? <==> AllHexFields(fields)
    ensures r.Success? ==> |r.value| == |fields| && forall i :: 0 <= i < |fields| ==> r.value[i] == HexValue(fields[i])
    ensures r.Failure? ==> r.error in fields && (r.error == [] || !AllHexDigits(r.error))
  {
    if fields == [] then Success([])
    else
      var f := fields[0];
      if f != [] && AllHexDigits(f) then
        assert forall i :: 1 <= i < |fields| ==> fields[i] == fields[1..][i - 1];
        match ParseHexAll(fields[1..])
        case Success(vs) => Success([HexValue(f)] + vs)
        case Failure(e) => Failure(e)
      else Failure(f)
  }

  /** The two's-complement reading of an unsigned value below an even `size`: the same value modulo `size`, in the signed range. */
  function Signed(v: nat, size: nat): (x: int)
    requires v < size && size % 2 == 0
    ensures -(size / 2) <= x < size / 2
    ensures x == v || x == v - size
    ensures x >= 0 <==> v < size / 2
  {
    if v >= size / 2 then v - size else v
  }

  /** 2^bits for the two widths `load_coe` accepts. */
  function Width(bits: int): (size: nat)
    ensures size % 2 == 0 && size >= 2
  {
    if bits == 8 then 0x100 else 0x1_0000_0000
  }

  /** `np.array(vs, dtype=uintN).astype(intN)`, `size` = 2^N: the first value that does not fit is the error. */
  function Reinterpret(vs: seq<nat>, size: nat): (r: Result<seq<int>, CoeError>)
    requires size >= 2 && size % 2 == 0
    ensures r.Success? <==> forall i :: 0 <= i < |vs| ==> vs[i] < size
    ensures r.Success? ==> |r.value| == |vs| && forall i :: 0 <= i < |vs| ==> r.value[i] == Signed(vs[i], size)
    ensures r.Success? ==> forall i :: 0 <= i < |vs| ==> -(size / 2) <= r.value[i] < size / 2
    ensures r.Failure? ==> r.error.OutOfRange? && r.error.value in vs && r.error.value >= size
  {
    if vs == [] then Success([])
    else if vs[0] >= size then Failure(OutOfRange(vs[0]))
    else
      match Reinterpret(vs[1..], size)
      case Success(rest) =>
        assert forall i :: 1 <= i < |vs| ==> vs[i] == vs[1..][i - 1];
        Success([Signed(vs[0], size)] + rest)
      case Failure(e) =>
        assert forall i :: 0 <= i < |vs| - 1 ==> vs[1..][i] == vs[i + 1];
        Failure(e)
  }

  /** The fields of the vector text as signed `bits`-bit integers. */
  function DecodeFields(fields: seq<string>, bits: int): (r: Result<seq<int>, CoeError>)
    requires bits == 8 || bits == 32
    ensures r.Success? ==> |r.value| == |fields|
    ensures r.Success? ==> forall i :: 0 <= i < |r.value| ==> -(Width(bits) / 2) <= r.value[i] < Width(bits) / 2
    ensures r.Failure? ==> (r.error.BadHex? && r.error.field in fields) || r.error.OutOfRange?
    ensures r.Success? <==> AllHexFields(fields) && forall i :: 0 <= i < |fields| ==> HexValue(fields[i]) < Width(bits)
    ensures r.Success? ==> forall i :: 0 <= i < |fields| ==> r.value[i] == Signed(HexValue(fields[i]), Width(bits))
    ensures r.Failure? && r.error.BadHex? ==> r.error.field == [] || !AllHexDigits(r.error.field)
  {
    match ParseHexAll(fields)
    case Failure(f) => Failure(BadHex(f))
    case Success(vs) => Reinterpret(vs, Width(bits))
  }

  /** `load_coe(path, bits)` on the file's text. */
  function LoadCoe(text: string, bits: int): (r: Result<seq<int>, CoeError>)
    ensures PieceAfter(text, VECTOR_KEY).None? <==> r == Failure(NoVector)
    ensures PieceAfter(text, VECTOR_KEY).Some? && bits != 8 && bits != 32 ==> r == Failure(BadWidth(bits))
    ensures r.Success? ==>
      && (bits == 8 || bits == 32)
      && |r.value| == |VectorFields(PieceAfter(text, VECTOR_KEY).value)|
      && forall i :: 0 <= i < |r.value| ==> -(Width(bits) / 2) <= r.value[i] < Width(bits) / 2
    ensures r.Success? ==> forall i :: 0 <= i < |r.value| ==>
      var f := VectorFields(PieceAfter(text, VECTOR_KEY).value)[i];
      AllHexDigits(f) && HexValue(f) < Width(bits) && r.value[i] == Signed(HexValue(f), Width(bits))
  {
    match PieceAfter(text, VECTOR_KEY)
    case None => Failure(NoVector)
    case Some(data) =>
      if bits != 8 && bits != 32 then Failure(BadWidth(bits))
      else DecodeFields(VectorFields(data), bits)
  }

  // -------------------------------------------------- load_h_initializer_only

  /** The text from the first newline on (empty without one). */
  function FromNewline(s: string): (r: string)
    ensures |r| <= |s| && r == s[|s| - |r|..]
    ensures r != [] ==> r[0] == '\n'
    ensures s != [] && s[0] != '\n' ==> |r| < |s|
  {
    if s == [] then [] else if s[0] == '\n' then s else FromNewline(s[1..])
  }

  /** `re.sub(r'//.*', '', text)`: each "//" and the rest of its line go; the newline stays. */
  function StripLineComments(s: string): (r: string)
    ensures forall c :: c in r ==> c in s
    decreases |s|
  {
    if s == [] then []
    else if "//" <= s then
      var rest := FromNewline(s);
      assert forall c :: c in rest ==> c in s;
      StripLineComments(rest)
    else [s[0]] + StripLineComments(s[1..])
  }

  /**
    The block-comment `re.sub` (non-greedy, DOTALL): each "/" "*" opener and
    everything up to the nearest "*" "/" closer after it goes; an opener
    without a closer stays.
  */
  function StripBlockComments(s: string): (r: string)
    ensures forall c :: c in r ==> c in s
    decreases |s|
  {
    if s == [] then []
    else if "/*" <= s then
      match Find(s[2..], "*/")
      case None => s
      case Some(j) =>
        var rest := s[2 + j + 2..];
        assert forall c :: c in rest ==> c in s;
        StripBlockComments(rest)
    else [s[0]] + StripBlockComments(s[1..])
  }

  /** The first position at or after `j` that is not white space (`\s*`). */
  function SkipSpaces(s: string, j: nat): (k: nat)
    requires j <= |s|
    ensures j <= k <= |s| && (k < |s| ==> !IsSpace(s[k]))
    ensures forall i :: j <= i < k ==> IsSpace(s[i])
    decreases |s| - j
  {
    if j < |s| && IsSpace(s[j]) then SkipSpaces(s, j + 1) else j
  }

  /** `\}\s*;` matches at p. */
  predicate ClosesAt(s: string, p: nat)
    requires p < |s|
  {
    s[p] == '}' && var k := SkipSpaces(s, p + 1); k < |s| && s[k] == ';'
  }

  /** The greedy `(.*)` of `\{(.*)\}\s*;`: the last p in [lo, hi) where `\}\s*;` matches. */
  function LastClose(s: string, lo: nat, hi: nat): (r: Option<nat>)
    requires lo <= hi <= |s|
    ensures r.Some? ==> lo <= r.value < hi && ClosesAt(s, r.value)
    ensures r.Some? ==> forall p :: r.value < p < hi ==> !ClosesAt(s, p)
    ensures r.None? ==> forall p :: lo <= p < hi ==> !ClosesAt(s, p)
    decreases hi
  {
    if hi <= lo then None
    else if ClosesAt(s, hi - 1) then Some(hi - 1)
    else LastClose(s, lo, hi - 1)
  }

  /** `re.search(r'=\s*\{(.*)\}\s*;', s, re.S).group(1)`, trying each '=' from position i on. */
  function InitializerFrom(s: string, i: nat): Option<string>
    requires i <= |s|
    decreases |s| - i
  {
    if i == |s| then None
    else if s[i] == '=' then
      var k := SkipSpaces(s, i + 1);
      if k < |s| && s[k] == '{' then
        match LastClose(s, k + 1, |s|)
        case Some(p) => Some(s[k + 1..p])
        case None => InitializerFrom(s, i + 1)
      else InitializerFrom(s, i + 1)
    else InitializerFrom(s, i + 1)
  }

  /** The length of the run of decimal digits `s` starts with. */
  function DigitRun(s: string): (n: nat)
    ensures n <= |s| && (n < |s| ==> !IsDigit(s[n]))
    ensures forall i :: 0 <= i < n ==> IsDigit(s[i])
    ensures s != [] && IsDigit(s[0]) ==> n >= 1
  {
    if s != [] && IsDigit(s[0]) then 1 + DigitRun(s[1..]) else 0
  }

  /** `[int(x) for x in re.findall(r'-?\d+', s)]`, ASCII digits. */
  function Numbers(s: string): seq<int>
    decreases |s|
  {
    if s == [] then []
    else if IsDigit(s[0]) then
      var n := DigitRun(s);
      [DecimalValue(s[..n]) as int] + Numbers(s[n..])
    else if s[0] == '-' && |s| >= 2 && IsDigit(s[1]) then
      var n := DigitRun(s[1..]);
      [-(DecimalValue(s[1..1 + n]) as int)] + Numbers(s[1 + n..])
    else Numbers(s[1..])
  }

  datatype HError = NoInitializer   // "Could not find initializer"

  /** `load_h_initializer_only(path)` on the file's text. */
  function LoadH(text: string): (r: Result<seq<int>, HError>)
    ensures r.Failure? <==> InitializerFrom(StripBlockComments(StripLineComments(text)), 0).None?
  {
    var t := StripBlockComments(StripLineComments(text));
    match InitializerFrom(t, 0)
    case None => Failure(NoInitializer)
    case Some(init) => Success(Numbers(init))
  }

  // ------------------------------------------------------------------ compare

  /** The indices from `from` on where the two arrays differ, in increasing order. */
  function MismatchIndices(a: seq<int>, b: seq<int>, from: nat): (d: seq<nat>)
    requires |a| == |b| && from <= |a|
    ensures forall i :: from <= i < |a| ==> (a[i] != b[i] <==> i in d)
    ensures forall k :: 0 <= k < |d| ==> from <= d[k] < |a|
    ensures forall k, l :: 0 <= k < l < |d| ==> d[k] < d[l]
    decreases |a| - from
  {
    if from == |a| then []
    else (if a[from] != b[from] then [from] else []) + MismatchIndices(a, b, from + 1)
  }

  datatype Report =
    | SizeMismatch(coeLen: nat, hLen: nat)
    | PerfectMatch
    | Mismatches(count: nat, first: seq<nat>)   // how many differ, and the first ten indices listed

  /** `compare` once both files are loaded. */
  function Compare(coe: seq<int>, h: seq<int>): (r: Report)
    ensures r.SizeMismatch? <==> |coe| != |h|
    ensures r.PerfectMatch? <==> |coe| == |h| && forall i :: 0 <= i < |coe| ==> coe[i] == h[i]
    ensures r.Mismatches? ==>
      && |coe| == |h| && 1 <= r.count && |r.first| == Min(10, r.count)
      && r.count == |MismatchIndices(coe, h, 0)|
      && r.first == MismatchIndices(coe, h, 0)[..|r.first|]
  {
    if |coe| != |h| then SizeMismatch(|coe|, |h|)
    else
      var diff := MismatchIndices(coe, h, 0);
      if diff == [] then
        assert forall i :: 0 <= i < |coe| ==> (coe[i] != h[i] <==> i in diff);
        PerfectMatch
      else
        assert diff[0] in diff;
        Mismatches(|diff|, diff[..Min(10, |diff|)])
  }
}
