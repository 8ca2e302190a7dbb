/**
  `JSON.stringify(value, null, 2)` on sanitized values: which secrets the printed text can
  hold although no string of the value does.
 */
module JsonText {
  import opened Strings
  import opened Redaction
  import opened Passes
  import opened SanitizeValue

  // ---------------------------------------------------------------- texts rewritten character by character

  function EachChar(t: string, e: char -> string): string {
    if t == "" then "" else e(t[0]) + EachChar(t[1..], e)
  }

  lemma {:induction false} EachCharConcat(a: string, b: string, e: char -> string)
    ensures EachChar(a + b, e) == EachChar(a, e) + EachChar(b, e)
  {
    if a == "" {
      assert a + b == b;
    } else {
      var rest := a[1..];
      EachCharConcat(rest, b, e);
      assert (a + b)[1..] == rest + b && (a + b)[0] == a[0];
      ThreeParts(e(a[0]), EachChar(rest, e), EachChar(b, e));
    }
  }

  lemma ThreeParts(x: string, y: string, z: string)
    ensures x + (y + z) == x + y + z
  {
  }

  lemma {:induction false} EachCharSame(t: string, e: char -> string)
    requires forall i :: 0 <= i < |t| ==> e(t[i]) == [t[i]]
    ensures EachChar(t, e) == t
  {
    if t != "" { EachCharSame(t[1..], e); }
  }

  /** Characters that stay or become something `s` does not touch bring no absent `s` back. */
  lemma {:induction false} EachCharKeepsOut(front: string, t: string, e: char -> string, s: string)
    requires s != "" && forall c :: e(c) == [c] || (e(c) != "" && !Touches(s, e(c)))
    requires !Contains(front + t, s)
    ensures !Contains(front + EachChar(t, e), s)
    decreases |t|, 0
  {
    if t != "" {
      var c, rest := t[0], t[1..];
      assert t == [c] + rest;
      ThreeParts(front, [c], rest);
      ThreeParts(front, e(c), EachChar(rest, e));
      if e(c) == [c] {
        EachCharKeepsOut(front + [c], rest, e, s);
      } else {
        BothParts(front + [c], rest, s);
        BothParts(front, [c], s);
        AllOfRest(rest, e, s);
        NoSeam(front, e(c), EachChar(rest, e), s);
      }
    }
  }

  lemma {:induction false} AllOfRest(t: string, e: char -> string, s: string)
    requires s != "" && forall c :: e(c) == [c] || (e(c) != "" && !Touches(s, e(c)))
    requires !Contains(t, s)
    ensures !Contains(EachChar(t, e), s)
    decreases |t|, 1
  {
    assert "" + t == t && "" + EachChar(t, e) == EachChar(t, e);
    EachCharKeepsOut("", t, e, s);
  }

  // ---------------------------------------------------------------- string escapes

  /** Quotation mark, backslash and control characters. */
  predicate IsSpecial(c: char) {
    c == '\"' || c == '\\' || c < ' '
  }

  function HexDigit(n: nat): char
    requires n < 16
  {
    "0123456789abcdef"[n]
  }

  function EscapeChar(c: char): (r: string)
    requires IsSpecial(c)
    ensures |r| > 1 && r[0] == '\\'
  {
    if c == '\"' then "\\\"" else if c == '\\' then "\\\\"
    else if c == '\U{08}' then "\\b" else if c == '\t' then "\\t" else if c == '\n' then "\\n"
    else if c == '\U{0C}' then "\\f" else if c == '\r' then "\\r"
    else "\\u00" + [HexDigit(c as int / 16), HexDigit(c as int % 16)]
  }

  function EscapeOne(): char -> string {
    c => if IsSpecial(c) then EscapeChar(c) else [c]
  }

  /** The text between the quotation marks of a printed string. */
  function Escape(t: string): string {
    EachChar(t, EscapeOne())
  }

  /** `s` agrees with no overlap of an escape sequence. */
  ghost predicate MissesEscapes(s: string) {
    forall c :: IsSpecial(c) ==> !Touches(s, EscapeChar(c))
  }

  predicate HasNoSpecial(s: string) {
    forall i :: 0 <= i < |s| ==> !IsSpecial(s[i])
  }

  /** A stretch without special characters stands in the print as it is. */
  lemma EscapeParts(a: string, x: string, b: string)
    requires HasNoSpecial(x)
    ensures Escape(a + x + b) == Escape(a) + x + Escape(b)
  {
    EachCharConcat(a + x, b, EscapeOne());
    EachCharConcat(a, x, EscapeOne());
    EachCharSame(x, EscapeOne());
  }

  /** Around a special character, stretches without one are kept. */
  lemma EscapeBetween(head: string, c: char, tail: string)
    requires IsSpecial(c) && HasNoSpecial(head) && HasNoSpecial(tail)
    ensures Escape(head + [c] + tail) == head + EscapeChar(c) + tail
  {
    var e := EscapeOne();
    EachCharConcat(head + [c], tail, e);
    EachCharConcat(head, [c], e);
    EachCharSame(head, e);
    EachCharSame(tail, e);
    assert EachChar([c], e) == e(c) + EachChar("", e) == e(c);
  }

  lemma EscapeShowsIff(t: string, s: string)
    requires s != "" && HasNoSpecial(s) && MissesEscapes(s)
    ensures Contains(Escape(t), s) <==> Contains(t, s)
  {
    if Contains(t, s) {
      var i :| 0 <= i <= |t| && OccursAt(t, s, i);
      assert t == t[..i] + s + t[i + |s|..];
      EscapeParts(t[..i], s, t[i + |s|..]);
      ContainsByParts(Escape(t[..i]), s, Escape(t[i + |s|..]));
    } else {
      AllOfRest(t, EscapeOne(), s);
    }
  }

  /** Every text without `s` prints without `s`. */
  ghost predicate NeverIntroduced(s: string, e: char -> string) {
    forall t :: !Contains(t, s) ==> !Contains(EachChar(t, e), s)
  }

  ghost predicate EscapesNeverIntroduce(s: string) {
    NeverIntroduced(s, EscapeOne())
  }

  /** The exact condition for secrets that are printed as they are. */
  lemma EscapesAreSafeIff(s: string)
    requires s != "" && HasNoSpecial(s)
    ensures EscapesNeverIntroduce(s) <==> MissesEscapes(s)
  {
    if MissesEscapes(s) {
      forall t | !Contains(t, s) ensures !Contains(EachChar(t, EscapeOne()), s) { EscapeShowsIff(t, s); }
    } else {
      var c :| IsSpecial(c) && Touches(s, EscapeChar(c));
      EscapeIntroduces(s, c, EscapeChar(c));
    }
  }

  lemma EscapeIntroduces(s: string, c: char, m: string)
    requires s != "" && HasNoSpecial(s) && IsSpecial(c) && m == EscapeChar(c) && Touches(s, m)
    ensures !EscapesNeverIntroduce(s)
  {
    var d :| -|s| < d < |m| && Agrees(s, m, d);
    var head, tail := if d < 0 then s[..-d] else "", Overhang(s, m, d);
    ForeignSplit(head, [c], tail, s);
    TooShort(head, s);
    TooShort(tail, s);
    EscapeBetween(head, c, tail);
    RebuiltByMarker(head, tail, s, m, d);
  }

  // ---------------------------------------------------------------- secrets of any characters

  predicate Compatible(x: string, m: string) {
    forall k :: 0 <= k < |x| && k < |m| ==> x[k] == m[k]
  }

  ghost predicate Stays(y: string, e: char -> string) {
    forall k :: 0 <= k < |y| ==> e(y[k]) == [y[k]]
  }

  /** Blocks of rewritten characters, the last of which may be cut short. */
  ghost predicate IsCut(y: string, e: char -> string)
    decreases |y|, 1
  {
    y == "" || exists c :: CutAfter(y, e, c)
  }

  /** The first block is that of `c`. */
  ghost predicate CutAfter(y: string, e: char -> string, c: char)
    decreases |y|, 0
  {
    e(c) != "" && Compatible(y, e(c)) && (|y| <= |e(c)| || IsCut(y[|e(c)|..], e))
  }

  /** `s` starts inside the block of `c`, `d` characters in. */
  ghost predicate StartsWithin(s: string, e: char -> string, c: char, d: nat) {
    0 < d < |e(c)| && Compatible(s, e(c)[d..]) && (|s| <= |e(c)| - d || IsCut(s[|e(c)| - d..], e))
  }

  /**
    The three ways into a print that the text does not take: escapes from their start, the
    same behind the backslash that goes before `s[0]`, and from inside an escape sequence.
   */
  ghost predicate Completes(s: string, e: char -> string)
    requires s != ""
  {
    || (!Stays(s, e) && IsCut(s, e))
    || (e(s[0]) == ['\\', s[0]] && !Stays(s[1..], e) && IsCut(s[1..], e))
    || (e(s[0]) == [s[0]] && exists c, d: nat :: StartsWithin(s, e, c, d))
  }

  ghost predicate EscapesComplete(s: string)
    requires s != ""
  {
    Completes(s, EscapeOne())
  }

  /** The exact condition for every secret. */
  lemma EscapesNeverIntroduceIff(s: string)
    requires s != ""
    ensures EscapesNeverIntroduce(s) <==> !EscapesComplete(s)
  {
    EscapeOneIsEscaping();
    NeverIntroducesIff(s, EscapeOne());
  }

  lemma NeverIntroducesIff(s: string, e: char -> string)
    requires s != "" && IsEscaping(e)
    ensures NeverIntroduced(s, e) <==> !Completes(s, e)
  {
    if Completes(s, e) {
      var t := CompletedBy(s, e);
    } else {
      forall t | !Contains(t, s) ensures !Contains(EachChar(t, e), s) { NotCompleted(t, s, e); }
    }
  }

  /**
    What the proof needs of escaping: blocks start with a backslash, the backslash is not the
    only character with a block, and one that holds an escaped character is that character behind a backslash.
   */
  ghost predicate IsEscaping(e: char -> string) {
    && (forall c :: IsBlock(e, c))
    && e('\\') != ['\\'] && (exists c :: IsOtherEscape(e, c))
    && (forall c, d :: IsPlainInside(e, c, d))
  }

  predicate IsBlock(e: char -> string, c: char) {
    e(c) == [c] || (|e(c)| > 1 && e(c)[0] == '\\')
  }

  predicate IsOtherEscape(e: char -> string, c: char) { c != '\\' && e(c) != [c] }

  predicate IsPlainInside(e: char -> string, c: char, d: int) {
    0 < d < |e(c)| && e(e(c)[d]) != [e(c)[d]] ==> d == 1 && e(c) == ['\\', c]
  }

  lemma EscapeOneIsEscaping()
    ensures IsEscaping(EscapeOne())
  {
    var e := EscapeOne();
    assert IsSpecial('\n') && IsOtherEscape(e, '\n');
    forall c, d: int ensures IsPlainInside(e, c, d) {
      if 0 < d < |e(c)| && IsSpecial(e(c)[d]) { SpecialInside(c, e(c), d); }
    }
  }

  lemma SpecialInside(c: char, m: string, d: nat)
    requires m == EscapeOne()(c) && 0 < d < |m| && IsSpecial(m[d])
    ensures d == 1 && m == ['\\', c]
  {
  }

  /** A text whose print starts with `y` and that is not `y`, unless `y` prints as it is. */
  lemma {:induction false} TextOfCut(y: string, e: char -> string) returns (t: string)
    requires IsEscaping(e) && IsCut(y, e)
    ensures y <= EachChar(t, e) && |t| <= |y| && (!Stays(y, e) ==> t != y)
    decreases |y|
  {
    if y == "" {
      t := "";
    } else if y == "\\" {
      var c :| IsOtherEscape(e, c);
      assert IsBlock(e, c);
      t := [c];
      FirstBlock(c, "", e);
      BlockPrefix(y, e(c), "");
    } else {
      var c :| CutAfter(y, e, c);
      assert IsBlock(e, c);
      var m, rest := e(c), "";
      if |y| > |m| { rest := TextOfCut(y[|m|..], e); }
      t := [c] + rest;
      FirstBlock(c, rest, e);
      BlockPrefix(y, m, EachChar(rest, e));
      if m == [c] {
        assert y == [c] + y[1..];
        assert t[1..] == rest;
      }
    }
  }

  lemma FirstBlock(c: char, rest: string, e: char -> string)
    ensures EachChar([c] + rest, e) == e(c) + EachChar(rest, e)
  {
    assert ([c] + rest)[1..] == rest;
  }

  lemma BlockPrefix(y: string, m: string, rest: string)
    requires Compatible(y, m) && (|y| > |m| ==> y[|m|..] <= rest)
    ensures y <= m + rest
  {
    if |y| > |m| {
      assert y[..|m|] == m && y == m + y[|m|..];
    } else {
      assert m[..|y|] == y;
    }
  }

  lemma SameLengthAbsent(t: string, s: string)
    requires |t| <= |s| && t != s
    ensures !Contains(t, s)
  {
    forall i: nat | i <= |t| ensures !OccursAt(t, s, i) {
      if i + |s| <= |t| { assert t[i..i + |s|] == t; }
    }
  }

  lemma CompletedBy(s: string, e: char -> string) returns (t: string)
    requires s != "" && IsEscaping(e) && Completes(s, e)
    ensures !Contains(t, s) && Contains(EachChar(t, e), s)
  {
    if !Stays(s, e) && IsCut(s, e) {
      t := TextOfCut(s, e);
      SameLengthAbsent(t, s);
      StartIsContained(EachChar(t, e), s);
    } else if e(s[0]) == ['\\', s[0]] && !Stays(s[1..], e) && IsCut(s[1..], e) {
      var rest := TextOfCut(s[1..], e);
      t := [s[0]] + rest;
      assert t[1..] == rest;
      SameLengthAbsent(t, s);
      FirstBlock(s[0], rest, e);
      PartOfBlock(s, e(s[0]), 1, EachChar(rest, e));
    } else {
      var c, d: nat :| StartsWithin(s, e, c, d);
      t := CompletedWithin(s, e, c, d);
    }
  }

  lemma CompletedWithin(s: string, e: char -> string, c: char, d: nat) returns (t: string)
    requires s != "" && IsEscaping(e) && e(s[0]) == [s[0]] && StartsWithin(s, e, c, d)
    ensures !Contains(t, s) && Contains(EachChar(t, e), s)
  {
    var m, rest := e(c), "";
    if |s| > |m| - d { rest := TextOfCut(s[|m| - d..], e); }
    t := [c] + rest;
    assert IsBlock(e, c) && t[0] != s[0];
    SameLengthAbsent(t, s);
    FirstBlock(c, rest, e);
    PartOfBlock(s, m, d, EachChar(rest, e));
  }

  lemma PartOfBlock(s: string, m: string, d: nat, rest: string)
    requires d < |m| && Compatible(s, m[d..]) && (|s| > |m| - d ==> s[|m| - d..] <= rest)
    ensures Contains(m + rest, s)
  {
    BlockPrefix(s, m[d..], rest);
    assert m == m[..d] + m[d..];
    ThreeParts(m[..d], m[d..], rest);
    PrefixAt(m[..d], s, m[d..] + rest);
  }

  lemma PrefixAt(a: string, s: string, b: string)
    requires s <= b
    ensures Contains(a + b, s)
  {
    assert a + b == a + s + b[|s|..];
    ContainsByParts(a, s, b[|s|..]);
  }

  lemma StartIsContained(t: string, s: string)
    ensures s <= t ==> Contains(t, s)
  {
    assert s <= t ==> OccursAt(t, s, 0);
  }

  /** What the print of a text starts with. */
  lemma {:induction false} PrefixIsCut(t: string, y: string, e: char -> string)
    requires IsEscaping(e) && y <= EachChar(t, e)
    ensures IsCut(y, e) && (Stays(y, e) ==> y <= t)
    decreases |t|
  {
    if y != "" {
      var c, rest := t[0], t[1..];
      var m := e(c);
      assert IsBlock(e, c);
      CompatibleStart(y, m, EachChar(rest, e));
      if |y| > |m| {
        TailPrefix(y, m, EachChar(rest, e));
        PrefixIsCut(rest, y[|m|..], e);
      }
      assert CutAfter(y, e, c);
      if Stays(y, e) { StaysOnText(t, y, e); }
    }
  }

  lemma StaysOnText(t: string, y: string, e: char -> string)
    requires IsEscaping(e) && t != "" && y != "" && Stays(y, e) && Compatible(y, e(t[0]))
    requires |y| > |e(t[0])| && Stays(y[|e(t[0])|..], e) ==> y[|e(t[0])|..] <= t[1..]
    ensures e(t[0]) == [t[0]] ==> y <= t
  {
    if e(t[0]) == [t[0]] {
      assert y[0] == t[0];
      assert t == [t[0]] + t[1..] && y == [t[0]] + y[1..];
    }
  }

  lemma TailPrefix(y: string, m: string, rest: string)
    requires |y| >= |m| && y <= m + rest
    ensures y[|m|..] <= rest
  {
    assert (m + rest)[|m|..] == rest;
    assert y[|m|..] == (m + rest)[|m|..|y|];
  }

  lemma CompatibleStart(s: string, x: string, rest: string)
    requires s <= x + rest
    ensures Compatible(s, x)
  {
    forall k | 0 <= k < |s| && k < |x| ensures s[k] == x[k] { assert (x + rest)[..|s|][k] == x[k]; }
  }

  lemma {:induction false} NotCompleted(t: string, s: string, e: char -> string)
    requires s != "" && IsEscaping(e) && !Completes(s, e) && !Contains(t, s)
    ensures !Contains(EachChar(t, e), s)
    decreases |t|
  {
    if t == "" {
      TooShort("", s);
    } else {
      var m, rest := e(t[0]), EachChar(t[1..], e);
      assert t == [t[0]] + t[1..];
      BothParts([t[0]], t[1..], s);
      NotCompleted(t[1..], s, e);
      forall j: nat | j <= |m + rest| ensures !OccursAt(m + rest, s, j) {
        if j < |m| {
          NotFromWithin(t, s, e, j);
        } else if j + |s| <= |m + rest| {
          assert m + rest == m + rest + "";
          OccursInside(m, rest, "", s, j);
        }
      }
    }
  }

  lemma NotFromWithin(t: string, s: string, e: char -> string, j: nat)
    requires s != "" && t != "" && IsEscaping(e) && !Completes(s, e) && !Contains(t, s) && j < |e(t[0])|
    ensures !OccursAt(EachChar(t, e), s, j)
  {
    var m, rest := e(t[0]), EachChar(t[1..], e);
    if OccursAt(m + rest, s, j) {
      assert s <= (m + rest)[j..] && (m + rest)[j..] == m[j..] + rest;
      if j == 0 {
        PrefixIsCut(t, s, e);
        StartIsContained(t, s);
      } else {
        FoundWithin(t, s, e, j);
      }
      assert false;
    }
  }

  lemma FoundWithin(t: string, s: string, e: char -> string, d: nat)
    requires s != "" && t != "" && IsEscaping(e) && 0 < d < |e(t[0])|
    requires s <= e(t[0])[d..] + EachChar(t[1..], e)
    ensures Completes(s, e) || Contains(t, s)
  {
    var c := t[0];
    var x := e(c)[d..];
    CompatibleStart(s, x, EachChar(t[1..], e));
    assert s[0] == x[0] == e(c)[d];
    if |s| > |x| {
      TailPrefix(s, x, EachChar(t[1..], e));
      PrefixIsCut(t[1..], s[|x|..], e);
    }
    if e(s[0]) == [s[0]] {
      assert StartsWithin(s, e, c, d);
    } else {
      assert IsPlainInside(e, c, d);
      BehindCompletes(s, t, e);
    }
  }

  lemma BehindCompletes(s: string, t: string, e: char -> string)
    requires s != "" && t != "" && s[0] == t[0] && e(s[0]) == ['\\', s[0]]
    requires |s| > 1 ==> IsCut(s[1..], e) && (Stays(s[1..], e) ==> s[1..] <= t[1..])
    ensures Completes(s, e) || Contains(t, s)
  {
    if Stays(s[1..], e) {
      assert s[1..] <= t[1..];
      assert t == [t[0]] + t[1..] && s == [s[0]] + s[1..];
      StartIsContained(t, s);
    }
  }

  /** A control character is never printed, and a quotation mark only behind a backslash. */
  ghost predicate IsPrinted(t: string) {
    forall k :: 0 <= k < |t| ==> PrintedAt(t, k)
  }

  predicate PrintedAt(t: string, k: nat)
    requires k < |t|
  {
    t[k] >= ' ' && (t[k] == '\"' ==> k > 0 && t[k - 1] == '\\')
  }

  lemma {:induction false} EscapeIsPrinted(t: string)
    ensures IsPrinted(Escape(t))
  {
    if t != "" {
      EscapeIsPrinted(t[1..]);
      OneIsPrinted(t[0], EscapeOne()(t[0]));
      PrintedConcat(EscapeOne()(t[0]), Escape(t[1..]));
    }
  }

  lemma OneIsPrinted(c: char, m: string)
    requires m == EscapeOne()(c)
    ensures IsPrinted(m)
  {
  }

  lemma PrintedConcat(a: string, b: string)
    requires IsPrinted(a) && IsPrinted(b)
    ensures IsPrinted(a + b)
  {
    forall k | 0 <= k < |a + b| ensures PrintedAt(a + b, k) {
      if k < |a| { assert PrintedAt(a, k); } else { assert PrintedAt(b, k - |a|); }
    }
  }

  /** So such secrets are in no print, whether the text holds them or not. */
  lemma UnprintableIsAbsent(t: string, s: string, k: nat)
    requires k < |s| && (s[k] < ' ' || (s[k] == '\"' && k > 0 && s[k - 1] != '\\'))
    ensures !Contains(Escape(t), s)
  {
    var out := Escape(t);
    EscapeIsPrinted(t);
    forall j: nat | j <= |out| ensures !OccursAt(out, s, j) {
      if j + |s| <= |out| {
        assert PrintedAt(out, j + k) && out[j..j + |s|][k] == out[j + k];
        assert k > 0 ==> out[j..j + |s|][k - 1] == out[j + k - 1];
      }
    }
  }

  // ---------------------------------------------------------------- reading the condition off a value

  /** What an operator can read off a value: only its first character matters, unless that is a `u`. */
  lemma FirstCharacterDecides(s: string)
    requires s != "" && HasNoSpecial(s)
    ensures s[0] in "0123456789abcdefnrt" ==> !MissesEscapes(s)
    ensures s[0] !in "0123456789abcdefnrtu" ==> MissesEscapes(s)
    ensures s[0] == 'u' ==> (MissesEscapes(s) <==> !StartsControlCode(s))
  {
    if s[0] in "0123456789abcdefnrt" {
      var c := EndingIn(s[0]);
      var m := EscapeChar(c);
      assert Agrees(s, m, |m| - 1);
    } else if s[0] != 'u' {
      forall c | IsSpecial(c) ensures !Touches(s, EscapeChar(c)) { OtherStartMisses(s, c); }
    } else if StartsControlCode(s) {
      var c := ControlOf(s);
      assert Agrees(s, EscapeChar(c), 1);
    } else {
      forall c | IsSpecial(c) ensures !Touches(s, EscapeChar(c)) { OtherCodeMisses(s, c); }
    }
  }

  predicate IsHexLower(c: char) { IsDigit(c) || 'a' <= c <= 'f' }

  /**
    A `u` and as much of a four-digit code below 0020 as there is room for, without the five
    codes that have a letter of their own.
   */
  predicate StartsControlCode(s: string)
    requires s != ""
  {
    && s[0] == 'u'
    && (|s| > 1 ==> s[1] == '0') && (|s| > 2 ==> s[2] == '0')
    && (|s| > 3 ==> s[3] == '0' || s[3] == '1')
    && (|s| > 4 ==> IsHexLower(s[4]) && (s[3] == '0' ==> s[4] !in "89acd"))
  }

  lemma ControlOf(s: string) returns (c: char)
    requires s != "" && StartsControlCode(s)
    ensures IsSpecial(c) && Agrees(s, EscapeChar(c), 1)
  {
    var hi: nat := if |s| > 3 && s[3] == '0' then 0 else 1;
    var lo: nat :=
      if |s| <= 4 then 0 else if IsDigit(s[4]) then s[4] as int - '0' as int else s[4] as int - 'a' as int + 10;
    c := (16 * hi + lo) as char;
    assert |s| > 4 ==> HexDigit(lo) == s[4];
    assert c as int / 16 == hi && c as int % 16 == lo;
    assert EscapeChar(c) == "\\u00" + [HexDigit(hi), HexDigit(lo)];
  }

  lemma OtherCodeMisses(s: string, c: char)
    requires s != "" && s[0] == 'u' && HasNoSpecial(s) && !StartsControlCode(s) && IsSpecial(c)
    ensures !Touches(s, EscapeChar(c))
  {
    var m := EscapeChar(c);
    forall d | -|s| < d < |m| ensures !Agrees(s, m, d) {
      AgreesAt(s, m, d, if d < 0 then -d else 0);
      AgreesAt(s, m, d, 1);
      AgreesAt(s, m, d, 2);
      AgreesAt(s, m, d, 3);
      AgreesAt(s, m, d, 4);
    }
  }

  /** A special character whose escape sequence ends in this one. */
  lemma EndingIn(last: char) returns (c: char)
    requires last in "0123456789abcdefnrt"
    ensures IsSpecial(c) && EscapeChar(c)[|EscapeChar(c)| - 1] == last
  {
    if last == 'n' {
      c := '\n';
    } else if last == 'r' {
      c := '\r';
    } else if last == 't' {
      c := '\t';
    } else {
      var k: nat := if IsDigit(last) then last as int - '0' as int else last as int - 'a' as int + 10;
      assert HexDigit(k) == last;
      c := (16 + k) as char;
      assert c as int / 16 == 1 && c as int % 16 == k;
    }
  }

  lemma OtherStartMisses(s: string, c: char)
    requires s != "" && HasNoSpecial(s) && s[0] !in "0123456789abcdefnrtu" && IsSpecial(c)
    ensures !Touches(s, EscapeChar(c))
  {
    var m := EscapeChar(c);
    EscapeTailChars(c);
    forall d | -|s| < d < |m| ensures !Agrees(s, m, d) {
      AgreesAt(s, m, d, if d < 0 then -d else 0);
    }
  }

  lemma EscapeTailChars(c: char)
    requires IsSpecial(c)
    ensures forall k :: 0 < k < |EscapeChar(c)| ==>
              EscapeChar(c)[k] in "0123456789abcdefnrtu" || IsSpecial(EscapeChar(c)[k])
  {
  }

  /** The escaped form of a text with special characters is not in that text, so printing introduces it. */
  lemma EscapedFormReturns(t: string)
    requires !HasNoSpecial(t)
    ensures !Contains(t, Escape(t)) && !EscapesNeverIntroduce(Escape(t))
  {
    EscapeIsLonger(t);
    TooShort(t, Escape(t));
    assert OccursAt(Escape(t), Escape(t), 0);
  }

  lemma {:induction false} EscapeIsLonger(t: string)
    ensures |Escape(t)| >= |t| && (!HasNoSpecial(t) ==> |Escape(t)| > |t|)
  {
    if t != "" {
      EscapeIsLonger(t[1..]);
      assert |EscapeOne()(t[0])| >= 1;
    }
  }

  /** A secret with a backslash and an n, met with a line break in their place. */
  lemma BreakReturns(head: string, tail: string)
    requires HasNoSpecial(head) && HasNoSpecial(tail)
    ensures var t, s := head + ['\n'] + tail, head + "\\n" + tail; !Contains(t, s) && Contains(Escape(t), s)
  {
    var t := head + ['\n'] + tail;
    EscapeBetween(head, '\n', tail);
    assert t[|head|] == '\n';
    EscapedFormReturns(t);
    StartIsContained(Escape(t), Escape(t));
  }

  lemma BackslashSecretReturns()
    ensures !Contains("ab\ncd123", "ab\\ncd123") && Contains(Escape("ab\ncd123"), "ab\\ncd123")
  {
    BreakReturns("ab", "cd123");
    assert "ab" + ['\n'] + "cd123" == "ab\ncd123" && "ab" + "\\n" + "cd123" == "ab\\ncd123";
  }

  // ---------------------------------------------------------------- printing

  function PlainText(text: string): string {
    if text == "NaN" || text == "Infinity" || text == "-Infinity" then "null" else text
  }

  /** A container: one line per entry, two spaces deeper. */
  function Block(open: string, lines: seq<string>, ind: string, close: string): string {
    if lines == [] then open + close
    else open + ("\n" + ind + "  ") + (Join(lines, "," + ("\n" + ind + "  ")) + ("\n" + ind) + close)
  }

  /** `JSON.stringify(j, null, 2)` at some indentation; `undefined` as an array item. */
  function Print(j: Json, ind: string): string
    decreases j, 0
  {
    match j
    case JStr(t) => "\"" + Escape(t) + "\""
    case JPlain(text) => PlainText(text)
    case JUndefined => "null"
    case JArr(items) => Block("[", ItemLines(items, ind + "  "), ind, "]")
    case JObj(fields) => Block("{", FieldLines(fields, ind + "  "), ind, "}")
  }

  function ItemLines(items: seq<Json>, ind: string): seq<string>
    decreases items, 1
  {
    if items == [] then [] else [Print(items[0], ind)] + ItemLines(items[1..], ind)
  }

  /** Fields without a value are not printed. */
  function FieldLines(fields: seq<Member>, ind: string): seq<string>
    decreases fields, 1
  {
    if fields == [] then []
    else
      var Member(key, value) := fields[0];
      var rest := FieldLines(fields[1..], ind);
      if value == JUndefined then rest else [FieldLine(key, Print(value, ind))] + rest
  }

  function FieldLine(key: string, value: string): string {
    "\"" + Escape(key) + "\"" + (":" + " " + value)
  }

  // ---------------------------------------------------------------- what the print holds

  /** Not spread over two tokens of a print, nor part of a literal. */
  predicate IsToken(s: string) {
    && |s| > 4 && HasNoSpecial(s) && ' ' !in s && s[|s| - 1] != ',' && !Contains("-Infinity", s)
  }

  /** Characters that `s` lacks separate. */
  lemma ForeignSplit(a: string, m: string, b: string, s: string)
    requires s != "" && m != "" && forall i :: 0 <= i < |m| ==> m[i] !in s
    ensures Contains(a + m + b, s) <==> Contains(a, s) || Contains(b, s)
  {
    forall d | -|s| < d < |m| ensures !Agrees(s, m, d) {
      AgreesAt(s, m, d, if d < 0 then -d else 0);
    }
    if !Contains(a, s) && !Contains(b, s) {
      NoSeam(a, m, b, s);
    } else if !Contains(a + m + b, s) {
      BothParts(a + m, b, s);
      BothParts(a, m, s);
    }
  }

  lemma CommaEnds(line: string, s: string)
    requires s != "" && s[|s| - 1] != ','
    ensures Contains(line + ",", s) <==> Contains(line, s)
  {
    if !Contains(line, s) {
      forall j: nat | j <= |line| + 1 ensures !OccursAt(line + ",", s, j) {
        if j + |s| <= |line| {
          assert "" + line + "," == line + ",";
          OccursInside("", line, ",", s, j);
        } else if j + |s| == |line| + 1 {
          assert (line + ",")[j..j + |s|][|s| - 1] == ',';
        }
      }
    } else if !Contains(line + ",", s) {
      BothParts(line, ",", s);
    }
  }

  lemma BreakIsForeign(ind: string, s: string)
    requires IsToken(s) && forall i :: 0 <= i < |ind| ==> ind[i] == ' '
    ensures forall i :: 0 <= i < |"\n" + ind| ==> ("\n" + ind)[i] !in s
  {
    assert '\n' !in s;
  }

  ghost predicate SomeHolds(lines: seq<string>, s: string) {
    exists i :: 0 <= i < |lines| && Contains(lines[i], s)
  }

  lemma SomeHoldsFirst(line: string, rest: seq<string>, s: string)
    ensures SomeHolds([line] + rest, s) <==> Contains(line, s) || SomeHolds(rest, s)
  {
    var lines := [line] + rest;
    assert forall i :: 0 <= i < |rest| ==> rest[i] == lines[i + 1];
    assert lines[0] == line;
  }

  lemma {:induction false} JoinShowsIff(lines: seq<string>, gap: string, s: string)
    requires IsToken(s) && gap != "" && forall i :: 0 <= i < |gap| ==> gap[i] !in s
    ensures Contains(Join(lines, "," + gap), s) <==> SomeHolds(lines, s)
  {
    if lines == [] {
      TooShort("", s);
    } else if |lines| == 1 {
      assert lines == [lines[0]] + [];
      SomeHoldsFirst(lines[0], [], s);
    } else {
      var rest := Join(lines[1..], "," + gap);
      assert Join(lines, "," + gap) == (lines[0] + ",") + gap + rest;
      ForeignSplit(lines[0] + ",", gap, rest, s);
      CommaEnds(lines[0], s);
      JoinShowsIff(lines[1..], gap, s);
      SomeHoldsFirst(lines[0], lines[1..], s);
      assert lines == [lines[0]] + lines[1..];
    }
  }

  lemma BlockShowsIff(open: string, lines: seq<string>, ind: string, close: string, s: string)
    requires IsToken(s) && (forall i :: 0 <= i < |ind| ==> ind[i] == ' ') && |open| == |close| == 1
    ensures Contains(Block(open, lines, ind, close), s) <==> SomeHolds(lines, s)
  {
    TooShort(open, s);
    TooShort(close, s);
    TooShort(open + close, s);
    if lines != [] {
      var body := Join(lines, "," + ("\n" + ind + "  "));
      assert "\n" + (ind + "  ") == "\n" + ind + "  ";
      BreakIsForeign(ind + "  ", s);
      BreakIsForeign(ind, s);
      ForeignSplit(open, "\n" + ind + "  ", body + ("\n" + ind) + close, s);
      ForeignSplit(body, "\n" + ind, close, s);
      JoinShowsIff(lines, "\n" + ind + "  ", s);
    }
  }

  lemma FieldLineShowsIff(key: string, value: string, s: string)
    requires IsToken(s) && MissesEscapes(s)
    ensures Contains(FieldLine(key, value), s) <==> Contains(key, s) || Contains(value, s)
  {
    QuotedShowsIff(key, ":" + " " + value, s);
    TooShort(":", s);
    ForeignSplit(":", " ", value, s);
  }

  lemma QuotedShowsIff(t: string, rest: string, s: string)
    requires IsToken(s) && MissesEscapes(s)
    ensures Contains("\"" + Escape(t) + "\"" + rest, s) <==> Contains(t, s) || Contains(rest, s)
  {
    assert '\"' !in s;
    ForeignSplit("\"" + Escape(t), "\"", rest, s);
    assert "" + "\"" + Escape(t) == "\"" + Escape(t);
    TooShort("", s);
    ForeignSplit("", "\"", Escape(t), s);
    EscapeShowsIff(t, s);
  }

  /** The printed text holds such a secret iff a string, key, number or literal of the value does. */
  lemma {:induction false} PrintShowsIff(j: Json, ind: string, s: string)
    requires IsToken(s) && MissesEscapes(s) && forall i :: 0 <= i < |ind| ==> ind[i] == ' '
    ensures Contains(Print(j, ind), s) <==> Shows(j, s)
    decreases j, 0
  {
    match j
    case JStr(t) =>
      TooShort("", s);
      QuotedShowsIff(t, "", s);
      assert Print(j, ind) == "\"" + Escape(t) + "\"" + "";
    case JPlain(text) => PlainShowsIff(text, s);
    case JUndefined => TooShort("null", s);
    case JArr(items) =>
      BlockShowsIff("[", ItemLines(items, ind + "  "), ind, "]", s);
      ItemLinesShowIff(items, ind + "  ", s);
    case JObj(fields) =>
      BlockShowsIff("{", FieldLines(fields, ind + "  "), ind, "}", s);
      FieldLinesShowIff(fields, ind + "  ", s);
  }

  lemma PlainShowsIff(text: string, s: string)
    requires IsToken(s)
    ensures Contains(PlainText(text), s) <==> Contains(text, s)
  {
    TooShort("null", s);
    TooShort("NaN", s);
    assert "-Infinity" == "-" + "Infinity";
    BothParts("-", "Infinity", s);
  }

  lemma ShowsFirstItem(x: Json, rest: seq<Json>, s: string)
    ensures Shows(JArr([x] + rest), s) <==> Shows(x, s) || Shows(JArr(rest), s)
  {
    var items := [x] + rest;
    assert forall i :: 0 <= i < |rest| ==> rest[i] == items[i + 1];
    assert JArr(items).items[0] == x;
  }

  lemma ShowsFirstField(x: Member, rest: seq<Member>, s: string)
    ensures Shows(JObj([x] + rest), s) <==>
            (x.value != JUndefined && (Contains(x.key, s) || Shows(x.value, s))) || Shows(JObj(rest), s)
  {
    var fields := [x] + rest;
    assert forall i :: 0 <= i < |rest| ==> rest[i] == fields[i + 1];
    assert JObj(fields).fields[0] == x;
  }

  lemma {:induction false} ItemLinesShowIff(items: seq<Json>, ind: string, s: string)
    requires IsToken(s) && MissesEscapes(s) && forall i :: 0 <= i < |ind| ==> ind[i] == ' '
    ensures SomeHolds(ItemLines(items, ind), s) <==> Shows(JArr(items), s)
    decreases items, 1
  {
    if items != [] {
      PrintShowsIff(items[0], ind, s);
      ItemLinesShowIff(items[1..], ind, s);
      assert items == [items[0]] + items[1..];
      ShowsFirstItem(items[0], items[1..], s);
      SomeHoldsFirst(Print(items[0], ind), ItemLines(items[1..], ind), s);
    }
  }

  lemma {:induction false} FieldLinesShowIff(fields: seq<Member>, ind: string, s: string)
    requires IsToken(s) && MissesEscapes(s) && forall i :: 0 <= i < |ind| ==> ind[i] == ' '
    ensures SomeHolds(FieldLines(fields, ind), s) <==> Shows(JObj(fields), s)
    decreases fields, 1
  {
    if fields != [] {
      var Member(key, value) := fields[0];
      FieldLinesShowIff(fields[1..], ind, s);
      assert fields == [fields[0]] + fields[1..];
      ShowsFirstField(fields[0], fields[1..], s);
      if value != JUndefined {
        PrintShowsIff(value, ind, s);
        FieldLineShowsIff(key, Print(value, ind), s);
        SomeHoldsFirst(FieldLine(key, Print(value, ind)), FieldLines(fields[1..], ind), s);
      }
    }
  }
}
