/**
  The string operations the modelled TypeScript uses: substring search, `split`,
  `join`, `trim`, ASCII case mapping and decimal rendering.
 */
module Strings {

  datatype Option<+T> = None | Some(value: T)

  // ---------------------------------------------------------------- search

  predicate OccursAt(text: string, s: string, i: nat) {
    i + |s| <= |text| && text[i..i + |s|] == s
  }

  predicate Contains(text: string, s: string) {
    exists i :: 0 <= i <= |text| && OccursAt(text, s, i)
  }

  /** Character by character. */
  predicate ReadsAt(text: string, s: string, i: nat) {
    i + |s| <= |text| && forall k :: 0 <= k < |s| ==> s[k] == text[i + k]
  }

  lemma ReadsAtIff(text: string, s: string, i: nat)
    ensures ReadsAt(text, s, i) <==> OccursAt(text, s, i)
  {
    if OccursAt(text, s, i) {
      forall k | 0 <= k < |s| ensures s[k] == text[i + k] { assert text[i..i + |s|][k] == text[i + k]; }
    }
    if ReadsAt(text, s, i) { assert text[i..i + |s|] == s; }
  }

  lemma ContainsIff(text: string, s: string)
    ensures Contains(text, s) <==> exists i: nat :: ReadsAt(text, s, i)
  {
    forall i: nat ensures ReadsAt(text, s, i) <==> OccursAt(text, s, i) { ReadsAtIff(text, s, i); }
    if i: nat :| ReadsAt(text, s, i) { assert OccursAt(text, s, i); }
  }

  /** The leftmost occurrence of `s` at or after `from`. */
  function IndexOf(text: string, s: string, from: nat := 0): (r: Option<nat>)
    requires from <= |text|
    ensures r.Some? ==> from <= r.value <= |text| && OccursAt(text, s, r.value)
    ensures r.Some? ==> forall j :: from <= j < r.value ==> !OccursAt(text, s, j)
    ensures r.None? ==> forall j :: from <= j <= |text| ==> !OccursAt(text, s, j)
    decreases |text| - from
  {
    if OccursAt(text, s, from) then Some(from)
    else if from == |text| then None
    else IndexOf(text, s, from + 1)
  }

  lemma ContainsByParts(a: string, s: string, b: string)
    ensures Contains(a + s + b, s)
  {
    assert (a + s + b)[|a|..|a| + |s|] == s;
    assert OccursAt(a + s + b, s, |a|);
  }

  lemma OccursInside(a: string, x: string, b: string, s: string, j: nat)
    requires |a| <= j && j + |s| <= |a| + |x|
    ensures OccursAt(a + x + b, s, j) <==> OccursAt(x, s, j - |a|)
  {
    assert (a + x + b)[j..j + |s|] == x[j - |a|..j - |a| + |s|];
  }

  /** What is absent from a text is absent from each of its substrings. */
  lemma AbsentFromPart(a: string, x: string, b: string, s: string)
    requires !Contains(a + x + b, s)
    ensures !Contains(x, s)
  {
    forall i | 0 <= i <= |x| ensures !OccursAt(x, s, i) {
      if i + |s| <= |x| { OccursInside(a, x, b, s, |a| + i); }
    }
  }

  lemma AbsentFromSlice(text: string, lo: nat, hi: nat, s: string)
    requires lo <= hi <= |text| && !Contains(text, s)
    ensures !Contains(text[lo..hi], s)
  {
    assert text == text[..lo] + text[lo..hi] + text[hi..];
    AbsentFromPart(text[..lo], text[lo..hi], text[hi..], s);
  }

  lemma TooShort(text: string, s: string)
    requires |text| < |s|
    ensures !Contains(text, s)
  {
  }

  lemma AbsentByChar(text: string, s: string, k: nat)
    requires k < |s| && s[k] !in text
    ensures !Contains(text, s)
  {
    forall i: nat | i <= |text| ensures !OccursAt(text, s, i) {
      if i + |s| <= |text| { assert text[i..i + |s|][k] in text; }
    }
  }

  // ---------------------------------------------------------------- split and join

  /** `text.split(sep)` for a non-empty separator. */
  function Split(text: string, sep: string): (pieces: seq<string>)
    requires sep != ""
    ensures pieces != []
    decreases |text|
  {
    match IndexOf(text, sep)
    case None => [text]
    case Some(i) => [text[..i]] + Split(text[i + |sep|..], sep)
  }

  function Join(pieces: seq<string>, sep: string): string {
    if pieces == [] then ""
    else if |pieces| == 1 then pieces[0]
    else pieces[0] + sep + Join(pieces[1..], sep)
  }

  /** No piece holds the separator, and none straddles the separator that follows it. */
  ghost predicate LeftmostPieces(pieces: seq<string>, sep: string) {
    && pieces != []
    && !Contains(pieces[|pieces| - 1], sep)
    && forall k :: 0 <= k < |pieces| - 1 ==> IndexOf(pieces[k] + sep, sep) == Some(|pieces[k]|)
  }

  /** Up to the end of `p`, an occurrence does not depend on what follows the separator. */
  lemma OccursBefore(p: string, sep: string, rest: string, j: nat)
    requires j <= |p|
    ensures OccursAt(p + sep + rest, sep, j) <==> OccursAt(p + sep, sep, j)
  {
    OccursInside("", p + sep, rest, sep, j);
    assert "" + (p + sep) + rest == p + sep + rest;
  }

  lemma SeparatorOccurs(p: string, sep: string)
    ensures OccursAt(p + sep, sep, |p|)
  {
    assert (p + sep)[|p|..|p| + |sep|] == sep;
  }

  /** Whether `sep` first occurs right after `p` does not depend on what follows. */
  lemma FirstAfter(p: string, sep: string, rest: string)
    requires sep != ""
    ensures IndexOf(p + sep + rest, sep) == Some(|p|) <==> IndexOf(p + sep, sep) == Some(|p|)
  {
    forall j: nat | j <= |p| ensures OccursAt(p + sep + rest, sep, j) <==> OccursAt(p + sep, sep, j) {
      OccursBefore(p, sep, rest, j);
    }
    SeparatorOccurs(p, sep);
    FirstAt(p + sep + rest, sep, |p|);
    FirstAt(p + sep, sep, |p|);
  }

  lemma FirstAt(text: string, sep: string, n: nat)
    requires n <= |text|
    ensures IndexOf(text, sep) == Some(n) <==>
            OccursAt(text, sep, n) && forall j: nat :: j < n ==> !OccursAt(text, sep, j)
  {
  }

  /** `split` is the only left-to-right decomposition, and `join` undoes it. */
  lemma SplitIsUnique(text: string, sep: string, pieces: seq<string>)
    requires sep != ""
    ensures pieces == Split(text, sep) <==> LeftmostPieces(pieces, sep) && Join(pieces, sep) == text
  {
    SplitJoin(text, sep);
    SplitLeftmost(text, sep);
    if LeftmostPieces(pieces, sep) { SplitOfJoin(sep, pieces); }
  }

  lemma {:induction false} SplitOfJoin(sep: string, pieces: seq<string>)
    requires sep != "" && LeftmostPieces(pieces, sep)
    ensures Split(Join(pieces, sep), sep) == pieces
  {
    assert pieces == [pieces[0]] + pieces[1..];
    if |pieces| > 1 {
      var first, tail := pieces[0], Join(pieces[1..], sep);
      var text := first + sep + tail;
      FirstAfter(first, sep, tail);
      assert text[..|first|] == first && text[|first| + |sep|..] == tail;
      SplitOfJoin(sep, pieces[1..]);
    }
  }

  lemma {:induction false} SplitJoin(text: string, sep: string)
    requires sep != ""
    ensures Join(Split(text, sep), sep) == text
    decreases |text|
  {
    match IndexOf(text, sep)
    case None =>
    case Some(i) =>
      var rest := text[i + |sep|..];
      SplitJoin(rest, sep);
      assert Split(text, sep)[1..] == Split(rest, sep);
      assert text[i..i + |sep|] == sep;
      assert text == text[..i] + sep + rest;
  }

  lemma {:induction false} SplitLeftmost(text: string, sep: string)
    requires sep != ""
    ensures LeftmostPieces(Split(text, sep), sep)
    decreases |text|
  {
    match IndexOf(text, sep)
    case None =>
    case Some(i) =>
      var rest := text[i + |sep|..];
      SplitLeftmost(rest, sep);
      assert text == text[..i] + sep + rest;
      FirstAfter(text[..i], sep, rest);
  }

  /** A piece that ends in front of its separator holds no separator. */
  lemma LeftmostPieceIsFree(p: string, sep: string)
    requires sep != "" && IndexOf(p + sep, sep) == Some(|p|)
    ensures !Contains(p, sep)
  {
    assert "" + p + sep == p + sep;
    forall i | 0 <= i <= |p| ensures !OccursAt(p, sep, i) {
      if i + |sep| <= |p| { OccursInside("", p, sep, sep, i); }
    }
  }

  // ---------------------------------------------------------------- trimming

  /** The characters `trim` removes: ECMAScript white space and line terminators. */
  predicate IsSpace(c: char) {
    || c in "\t\n\r \U{0B}\U{0C}\U{A0}\U{1680}\U{2028}\U{2029}\U{202F}\U{205F}\U{3000}\U{FEFF}"
    || '\U{2000}' <= c <= '\U{200A}'
  }

  function TrimStart(s: string): (r: string)
    ensures |r| <= |s| && r == s[|s| - |r|..]
    ensures r != "" ==> !IsSpace(r[0])
  {
    if s != "" && IsSpace(s[0]) then TrimStart(s[1..]) else s
  }

  function TrimEnd(s: string): (r: string)
    ensures |r| <= |s| && r == s[..|r|]
    ensures r != "" ==> !IsSpace(r[|r| - 1])
  {
    if s != "" && IsSpace(s[|s| - 1]) then TrimEnd(s[..|s| - 1]) else s
  }

  function Trim(s: string): string {
    TrimEnd(TrimStart(s))
  }

  ghost predicate IsBlank(s: string) {
    forall i :: 0 <= i < |s| ==> IsSpace(s[i])
  }

  ghost predicate IsTight(s: string) {
    s == "" || (!IsSpace(s[0]) && !IsSpace(s[|s| - 1]))
  }

  /** `t` is what is left of `s` between white space, and has none at its ends. */
  ghost predicate IsMiddle(s: string, x: string, t: string, y: string) {
    s == x + t + y && IsBlank(x) && IsBlank(y) && IsTight(t)
  }

  lemma BlankConcat(a: string, b: string)
    requires IsBlank(a) && IsBlank(b)
    ensures IsBlank(a + b)
  {
  }

  /** What trimming takes from the start. */
  lemma {:induction false} StartOff(s: string) returns (x: string)
    ensures s == x + TrimStart(s) && IsBlank(x)
    decreases |s|
  {
    if s != "" && IsSpace(s[0]) {
      var y := StartOff(s[1..]);
      x := [s[0]] + y;
      BlankConcat([s[0]], y);
      Associate([s[0]], y, TrimStart(s[1..]));
    } else {
      x := "";
    }
  }

  lemma {:induction false} EndOff(s: string) returns (y: string)
    ensures s == TrimEnd(s) + y && IsBlank(y)
    decreases |s|
  {
    if s != "" && IsSpace(s[|s| - 1]) {
      var front, last := s[..|s| - 1], [s[|s| - 1]];
      var x := EndOff(front);
      y := x + last;
      BlankConcat(x, last);
      EndOffMore(s, front, last, TrimEnd(front), x);
    } else {
      y := "";
    }
  }

  lemma EndOffMore(s: string, front: string, last: string, m: string, x: string)
    requires |s| > 0 && front == s[..|s| - 1] && last == [s[|s| - 1]] && front == m + x
    ensures s == m + (x + last)
  {
  }

  lemma Associate(x: string, y: string, z: string)
    ensures x + (y + z) == (x + y) + z
  {
  }

  lemma TrimIsMiddle(s: string) returns (x: string, y: string)
    ensures IsMiddle(s, x, Trim(s), y)
  {
    var l := TrimStart(s);
    x := StartOff(s);
    y := EndOff(l);
    MiddleByParts(s, x, l, TrimEnd(l), y);
  }

  lemma MiddleByParts(s: string, x: string, l: string, m: string, y: string)
    requires s == x + l && l == m + y && IsBlank(x) && IsBlank(y)
    requires (l != "" ==> !IsSpace(l[0])) && (m != "" ==> !IsSpace(m[|m| - 1]))
    ensures IsMiddle(s, x, m, y)
  {
    assert m != "" ==> m[0] == l[0];
    assert x + (m + y) == x + m + y;
  }

  /** Trimming takes white space from both ends, all of it, and nothing else. */
  lemma TrimIff(s: string, t: string)
    ensures t == Trim(s) <==> exists x, y :: IsMiddle(s, x, t, y)
  {
    var x, y := TrimIsMiddle(s);
    if x', y' :| IsMiddle(s, x', t, y') { MiddleIsUnique(s, x, Trim(s), y, x', t, y'); }
  }

  lemma MiddleIsUnique(s: string, x: string, t: string, y: string, x': string, t': string, y': string)
    requires IsMiddle(s, x, t, y) && IsMiddle(s, x', t', y')
    ensures t == t'
  {
    MiddleIsInside(s, x, t, y, x', t', y');
    MiddleIsInside(s, x', t', y', x, t, y);
    assert t == s[|x|..|x| + |t|] && t' == s[|x'|..|x'| + |t'|];
  }

  /** Each visible character lies in every middle. */
  lemma MiddleIsInside(s: string, x: string, t: string, y: string, x': string, t': string, y': string)
    requires IsMiddle(s, x, t, y) && IsMiddle(s, x', t', y')
    ensures t != "" ==> |x'| <= |x| && |x| + |t| <= |x'| + |t'|
  {
    if t != "" {
      var i, j := |x|, |x| + |t| - 1;
      assert s[i] == t[0] && s[j] == t[|t| - 1];
      BlankOutside(s, x', t', y', i);
      BlankOutside(s, x', t', y', j);
    }
  }

  lemma BlankOutside(s: string, x: string, t: string, y: string, i: nat)
    requires IsMiddle(s, x, t, y) && i < |s|
    ensures i < |x| || i >= |x| + |t| ==> IsSpace(s[i])
  {
    if i < |x| {
      assert s[i] == x[i];
    } else if i >= |x| + |t| {
      assert s[i] == y[i - |x| - |t|];
    }
  }

  lemma TrimTight(s: string)
    requires s != "" && !IsSpace(s[0]) && !IsSpace(s[|s| - 1])
    ensures Trim(s) == s
  {
  }

  lemma LettersAreNoSpace(c: char)
    requires 'a' <= c <= 'z'
    ensures !IsSpace(c)
  {
  }

  // ---------------------------------------------------------------- ASCII case

  predicate IsLowerLetter(c: char) { 'a' <= c <= 'z' }

  predicate IsUpperLetter(c: char) { 'A' <= c <= 'Z' }

  predicate IsDigit(c: char) { '0' <= c <= '9' }

  function LowerChar(c: char): char {
    if IsUpperLetter(c) then c - 'A' + 'a' else c
  }

  function UpperChar(c: char): char {
    if IsLowerLetter(c) then c - 'a' + 'A' else c
  }

  function Lower(s: string): (r: string)
    ensures |r| == |s| && forall i :: 0 <= i < |s| ==> r[i] == LowerChar(s[i])
  {
    seq(|s|, i requires 0 <= i < |s| => LowerChar(s[i]))
  }

  lemma LowerIdempotent(s: string)
    ensures Lower(Lower(s)) == Lower(s)
  {
  }

  predicate IsHexDigit(c: char) {
    IsDigit(c) || 'a' <= c <= 'f' || 'A' <= c <= 'F'
  }

  // ---------------------------------------------------------------- decimal numbers

  function Digit(d: nat): (c: char)
    requires d < 10
    ensures IsDigit(c) && (c as int) - ('0' as int) == d
  {
    '0' + (d as char)
  }

  /** `String(n)` for a non-negative integer. */
  function Decimal(n: nat): (r: string)
    ensures r != "" && forall c :: c in r ==> IsDigit(c)
  {
    if n < 10 then [Digit(n)] else Decimal(n / 10) + [Digit(n % 10)]
  }

  function ParseDecimal(s: string): nat {
    if s == "" then 0
    else
      var c := s[|s| - 1];
      10 * ParseDecimal(s[..|s| - 1]) + if IsDigit(c) then (c as int) - ('0' as int) else 0
  }

  lemma {:induction false} DecimalRoundTrip(n: nat)
    ensures ParseDecimal(Decimal(n)) == n
  {
    if n >= 10 {
      DecimalRoundTrip(n / 10);
      assert Decimal(n)[..|Decimal(n)| - 1] == Decimal(n / 10);
    } else {
      assert ParseDecimal([Digit(n)][..0]) == 0;
    }
  }

  lemma DecimalInjective(m: nat, n: nat)
    ensures Decimal(m) == Decimal(n) ==> m == n
  {
    DecimalRoundTrip(m);
    DecimalRoundTrip(n);
  }

  /** Digits without a leading zero. */
  predicate IsDecimalText(s: string) {
    s != "" && (forall i :: 0 <= i < |s| ==> IsDigit(s[i])) && (s[0] == '0' ==> |s| == 1)
  }

  lemma {:induction false} DecimalIsText(n: nat)
    ensures IsDecimalText(Decimal(n)) && (Decimal(n)[0] == '0' ==> n == 0)
  {
    if n >= 10 { DecimalIsText(n / 10); }
  }

  lemma {:induction false} TextIsDecimal(s: string)
    requires IsDecimalText(s)
    ensures Decimal(ParseDecimal(s)) == s && (s[0] != '0' ==> ParseDecimal(s) > 0)
  {
    var front, d := s[..|s| - 1], s[|s| - 1] as int - '0' as int;
    assert s == front + [Digit(d)];
    if front == "" {
      assert ParseDecimal(front) == 0 && ParseDecimal(s) == d;
    } else {
      assert front[0] == s[0] != '0';
      TextIsDecimal(front);
      LastDigit(ParseDecimal(front), d);
      assert ParseDecimal(s) == 10 * ParseDecimal(front) + d;
    }
  }

  lemma LastDigit(q: nat, d: nat)
    requires 0 < q && d < 10
    ensures Decimal(10 * q + d) == Decimal(q) + [Digit(d)]
  {
    assert (10 * q + d) / 10 == q && (10 * q + d) % 10 == d;
  }

  /** The decimal text of a number is the one that reads back as it. */
  lemma DecimalIff(n: nat, s: string)
    ensures s == Decimal(n) <==> IsDecimalText(s) && ParseDecimal(s) == n
  {
    DecimalIsText(n);
    DecimalRoundTrip(n);
    if IsDecimalText(s) { TextIsDecimal(s); }
  }
}
