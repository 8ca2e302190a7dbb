/**
  Bytecode identity: the runtime code at an address is this build's iff it agrees with the
  build at every hex digit outside the immutable byte ranges.
 */
module ContractIdentity {
  import opened Strings

  /** A byte range of the build's `immutableReferences`. */
  datatype Range = Range(start: nat, length: nat)

  datatype ExpectedCode = ExpectedCode(runtime: string, immutables: seq<Range>)

  datatype Problem = NoCode | NotHex | WrongSize(bytes: real, expectedBytes: real) | WrongCode

  /** Hex digit `i` (counted after "0x") belongs to a masked byte. */
  predicate Covers(r: Range, i: int) {
    r.start * 2 <= i < (r.start + r.length) * 2
  }

  predicate IsMasked(ranges: seq<Range>, i: int) {
    exists k :: 0 <= k < |ranges| && Covers(ranges[k], i)
  }

  /** The byte lies in the range. */
  predicate HoldsByte(r: Range, byte: int) {
    r.start <= byte < r.start + r.length
  }

  /** Two digits a byte: digit `i` is masked iff its byte lies in one of the ranges. */
  lemma MaskedByByte(ranges: seq<Range>, i: nat)
    ensures IsMasked(ranges, i) <==> exists k :: 0 <= k < |ranges| && HoldsByte(ranges[k], i / 2)
  {
    forall k | 0 <= k < |ranges| ensures Covers(ranges[k], i) <==> HoldsByte(ranges[k], i / 2) {
    }
  }

  /** `code.slice(2)` */
  function Digits(code: string): string {
    if |code| <= 2 then "" else code[2..]
  }

  /** The masked code as a function of positions. */
  function Masked(code: string, ranges: seq<Range>): (r: string) {
    var hex := Lower(Digits(code));
    "0x" + seq(|hex|, i requires 0 <= i < |hex| => if IsMasked(ranges, i) then '0' else hex[i])
  }

  /** `maskImmutables`: one pass over each range, overwriting in place. */
  method MaskImmutables(code: string, ranges: seq<Range>) returns (masked: string)
    ensures masked == Masked(code, ranges)
    ensures |masked| == (if |code| <= 2 then 2 else |code|) && masked[..2] == "0x"
    ensures forall i :: 2 <= i < |masked| ==>
              masked[i] == if exists k :: 0 <= k < |ranges| && HoldsByte(ranges[k], (i - 2) / 2) then '0'
                           else LowerChar(code[i])
  {
    forall i: nat { MaskedByByte(ranges, i); }
    var lowered := Lower(Digits(code));
    var hex := new char[|lowered|](i requires 0 <= i < |lowered| => lowered[i]);
    for n := 0 to |ranges|
      invariant forall i :: 0 <= i < hex.Length ==>
                  hex[i] == if IsMasked(ranges[..n], i) then '0' else lowered[i]
    {
      var r := ranges[n];
      var i := r.start * 2;
      while i < (r.start + r.length) * 2 && i < hex.Length
        invariant r.start * 2 <= i <= (r.start + r.length) * 2
        invariant forall j :: 0 <= j < hex.Length ==>
                    hex[j] == if IsMasked(ranges[..n], j) || (Covers(r, j) && j < i) then '0' else lowered[j]
      {
        hex[i] := '0';
        i := i + 1;
      }
      OneMoreRange(ranges, n);
    }
    assert ranges[..|ranges|] == ranges;
    masked := "0x" + hex[..];
  }

  lemma OneMoreRange(ranges: seq<Range>, n: nat)
    requires n < |ranges|
    ensures forall i :: IsMasked(ranges[..n + 1], i) <==> IsMasked(ranges[..n], i) || Covers(ranges[n], i)
  {
    assert ranges[..n + 1] == ranges[..n] + [ranges[n]];
  }

  /** Masking keeps the length, masks once and for all, and only the union of the ranges matters. */
  lemma MaskingLaws(code: string, ranges: seq<Range>, others: seq<Range>)
    ensures |Masked(code, ranges)| == 2 + |Digits(code)|
    ensures Masked(Masked(code, ranges), ranges) == Masked(code, ranges)
    ensures (forall i :: 0 <= i < |Digits(code)| ==> (IsMasked(ranges, i) <==> IsMasked(others, i)))
            ==> Masked(code, ranges) == Masked(code, others)
  {
    var once := Masked(code, ranges);
    assert Digits(once) == once[2..];
    assert Lower(Digits(once)) == Digits(once);
  }

  // ---------------------------------------------------------------- the decider

  /** `/^0x[0-9a-fA-F]*$/` */
  predicate IsHexCode(s: string) {
    |s| >= 2 && s[..2] == "0x" && forall i :: 2 <= i < |s| ==> IsHexDigit(s[i])
  }

  function ByteCount(code: string): real {
    (|code| - 2) as real / 2.0
  }

  /** The same digit, case aside, at every place outside the immutables. */
  ghost predicate AgreesOutside(a: string, b: string, ranges: seq<Range>) {
    |a| == |b| && forall i :: 2 <= i < |a| && !IsMasked(ranges, i - 2) ==> LowerChar(a[i]) == LowerChar(b[i])
  }

  lemma MaskedEqualIff(a: string, b: string, ranges: seq<Range>)
    requires |a| == |b|
    ensures Masked(a, ranges) == Masked(b, ranges) <==> AgreesOutside(a, b, ranges)
  {
    var ma, mb := Masked(a, ranges), Masked(b, ranges);
    assert |ma| == |mb| == 2 + |Digits(a)|;
    forall i | 2 <= i < |a|
      ensures ma[i] == mb[i] <==> IsMasked(ranges, i - 2) || LowerChar(a[i]) == LowerChar(b[i])
    {
      assert Digits(a)[i - 2] == a[i] && Digits(b)[i - 2] == b[i];
      assert ma[i] == if IsMasked(ranges, i - 2) then '0' else LowerChar(a[i]);
      assert mb[i] == if IsMasked(ranges, i - 2) then '0' else LowerChar(b[i]);
    }
    if AgreesOutside(a, b, ranges) {
      assert forall i :: 0 <= i < |ma| ==> ma[i] == mb[i];
    }
  }

  /** `codeIdentityProblem`; `None` for the chain's answer stands for null or undefined. */
  function FindProblem(expected: ExpectedCode, onChain: Option<string>): Option<Problem> {
    if onChain.None? || onChain.value == "" || onChain.value == "0x" then Some(NoCode)
    else if !IsHexCode(onChain.value) then Some(NotHex)
    else if ByteCount(onChain.value) != ByteCount(expected.runtime)
    then Some(WrongSize(ByteCount(onChain.value), ByteCount(expected.runtime)))
    else if Masked(onChain.value, expected.immutables) != Masked(expected.runtime, expected.immutables)
    then Some(WrongCode)
    else None
  }

  /** Null, an empty answer or an empty code. */
  predicate IsEmptyAnswer(onChain: Option<string>) {
    onChain.None? || onChain.value == "" || onChain.value == "0x"
  }

  /**
    `codeIdentityProblem`: no problem iff the address holds non-empty 0x-hex of exactly the
    expected length that agrees with the build, case aside, at every digit outside the
    immutables; and each refusal names the first of these that fails.
   */
  method CodeIdentityProblem(expected: ExpectedCode, onChain: Option<string>) returns (problem: Option<Problem>)
    ensures problem.None? <==>
            && onChain.Some? && |onChain.value| > 2 && IsHexCode(onChain.value)
            && AgreesOutside(onChain.value, expected.runtime, expected.immutables)
    ensures problem == Some(NoCode) <==> IsEmptyAnswer(onChain)
    ensures problem == Some(NotHex) <==> !IsEmptyAnswer(onChain) && !IsHexCode(onChain.value)
    ensures problem.Some? && problem.value.WrongSize? <==>
            !IsEmptyAnswer(onChain) && IsHexCode(onChain.value) && |onChain.value| != |expected.runtime|
    ensures problem.Some? && problem.value.WrongSize? ==>
            problem.value == WrongSize(ByteCount(onChain.value), ByteCount(expected.runtime))
    ensures problem.Some? && problem.value.WrongSize? ==>
            2.0 * problem.value.bytes == (|onChain.value| - 2) as real
            && 2.0 * problem.value.expectedBytes == (|expected.runtime| - 2) as real
    ensures problem == FindProblem(expected, onChain)
  {
    IdentityIff(expected, onChain);
    if onChain.None? || onChain.value == "" || onChain.value == "0x" { return Some(NoCode); }
    if !IsHexCode(onChain.value) { return Some(NotHex); }
    var bytes := ByteCount(onChain.value);
    var expectedBytes := ByteCount(expected.runtime);
    if bytes != expectedBytes { return Some(WrongSize(bytes, expectedBytes)); }
    var actual := MaskImmutables(onChain.value, expected.immutables);
    var wanted := MaskImmutables(expected.runtime, expected.immutables);
    if actual != wanted { return Some(WrongCode); }
    return None;
  }

  /**
    No problem iff the address holds non-empty 0x-hex of exactly the expected length that
    agrees with the build at every digit outside the immutables.
   */
  lemma IdentityIff(expected: ExpectedCode, onChain: Option<string>)
    ensures FindProblem(expected, onChain) == None <==>
            && onChain.Some? && |onChain.value| > 2 && IsHexCode(onChain.value)
            && AgreesOutside(onChain.value, expected.runtime, expected.immutables)
  {
    if onChain.Some? && |onChain.value| == |expected.runtime| {
      MaskedEqualIff(onChain.value, expected.runtime, expected.immutables);
    }
  }

  /** The same told by bytes: every digit of a byte in no immutable range is that of the build, case aside. */
  lemma IdentityByBytes(expected: ExpectedCode, onChain: Option<string>)
    ensures FindProblem(expected, onChain) == None <==>
            && onChain.Some? && |onChain.value| == |expected.runtime| > 2
            && onChain.value[0] == '0' && onChain.value[1] == 'x'
            && forall i :: 2 <= i < |onChain.value| ==>
                 && IsHexDigit(onChain.value[i])
                 && ((forall k :: 0 <= k < |expected.immutables| ==>
                        !HoldsByte(expected.immutables[k], (i - 2) / 2)) ==>
                       LowerChar(onChain.value[i]) == LowerChar(expected.runtime[i]))
  {
    IdentityIff(expected, onChain);
    forall i: nat { MaskedByByte(expected.immutables, i); }
    if onChain.Some? && |onChain.value| > 2 {
      assert onChain.value[..2] == "0x" <==> onChain.value[0] == '0' && onChain.value[1] == 'x';
    }
  }

  /** Any hex written over the immutables of an accepted code is accepted. */
  lemma ImmutablesAreFree(expected: ExpectedCode, code: string, filled: string)
    requires FindProblem(expected, Some(code)) == None
    requires |filled| == |code| && IsHexCode(filled)
    requires forall i :: 2 <= i < |code| && !IsMasked(expected.immutables, i - 2) ==> filled[i] == code[i]
    ensures FindProblem(expected, Some(filled)) == None
  {
    IdentityIff(expected, Some(code));
    IdentityIff(expected, Some(filled));
  }

  /** One other digit outside the immutables of an accepted code is refused. */
  lemma OneDigitIsRefused(expected: ExpectedCode, code: string, i: nat, c: char)
    requires FindProblem(expected, Some(code)) == None && 2 <= i < |code|
    requires !IsMasked(expected.immutables, i - 2) && LowerChar(c) != LowerChar(code[i]) && IsHexDigit(c)
    ensures FindProblem(expected, Some(code[i := c])) == Some(WrongCode)
  {
    IdentityIff(expected, Some(code));
    IdentityIff(expected, Some(code[i := c]));
    assert IsHexCode(code[i := c]) by { assert code[i := c][..2] == code[..2]; }
  }
}
