/**
  One pattern pass of the text sanitizer, `text.replace(pattern, f)`, for an arbitrary
  pattern, and the exact condition under which it cannot bring a secret back.
 */
module Passes {
  import opened Strings
  import opened Redaction

  // ---------------------------------------------------------------- one pattern pass

  /** What a global regular expression finds, left to right. */
  datatype Matches = Rest(tail: string) | Hit(keep: string, hit: string, next: Matches)

  type Matcher = string -> Matches

  function Source(m: Matches): string {
    match m
    case Rest(tail) => tail
    case Hit(keep, hit, next) => keep + hit + Source(next)
  }

  /** `text.replace(pattern, f)` */
  function Rewrite(m: Matches, f: string -> string): string {
    match m
    case Rest(tail) => tail
    case Hit(keep, hit, next) => keep + f(hit) + Rewrite(next, f)
  }

  ghost predicate Lawful(find: Matcher) {
    forall t :: Source(find(t)) == t
  }

  function Replace(text: string, find: Matcher, marker: string): string {
    Rewrite(find(text), _ => marker)
  }

  lemma {:induction false} ConstantRewrite(m: Matches, f: string -> string, g: string -> string, marker: string)
    requires forall x :: f(x) == marker && g(x) == marker
    ensures Rewrite(m, f) == Rewrite(m, g)
  {
    if m.Hit? { ConstantRewrite(m.next, f, g, marker); }
  }

  // ---------------------------------------------------------------- what a pass can bring back

  /** Putting `m` in the place of `c` never completes an occurrence of `s`, whatever stands around it. */
  ghost predicate Replaceable(s: string, c: string, m: string) {
    forall a, b :: !Contains(a + c, s) && !Contains(b, s) ==> !Contains(a + m + b, s)
  }

  /** `y` is `x` with its part before `z` replaced. */
  ghost predicate SafeCut(s: string, x: string, y: string, c: string, m: string, z: string) {
    x == c + z && y == m + z && Replaceable(s, c, m)
  }

  ghost predicate SafeAnswer(s: string, x: string, y: string) {
    x == y || exists c, m, z :: SafeCut(s, x, y, c, m, z)
  }

  /** Every hit is answered safely. */
  ghost predicate AllSafe(s: string, m: Matches, f: string -> string) {
    m.Hit? ==> SafeAnswer(s, m.hit, f(m.hit)) && AllSafe(s, m.next, f)
  }

  lemma {:induction false} EverySafe(s: string, m: Matches, f: string -> string)
    requires forall x :: SafeAnswer(s, x, f(x))
    ensures AllSafe(s, m, f)
  {
    if m.Hit? { EverySafe(s, m.next, f); }
  }

  /** A pass whose answers are safe brings no absent secret back, whatever it matched. */
  lemma {:induction false} RewriteKeepsOut(front: string, m: Matches, f: string -> string, s: string)
    requires s != "" && AllSafe(s, m, f)
    requires !Contains(front + Source(m), s)
    ensures !Contains(front + Rewrite(m, f), s)
    decreases m
  {
    match m
    case Rest(tail) =>
    case Hit(keep, x, next) =>
      var y := f(x);
      assert front + Source(m) == (front + keep + x) + Source(next);
      if x == y {
        RewriteKeepsOut(front + keep + x, next, f, s);
        assert front + Rewrite(m, f) == (front + keep + x) + Rewrite(next, f);
      } else {
        var c, k, z :| SafeCut(s, x, y, c, k, z);
        var left, rest := front + keep, z + Source(next);
        assert front + Source(m) == left + c + rest;
        BothParts(left + c, rest, s);
        RewriteKeepsOut(z, next, f, s);
        assert Replaceable(s, c, k);
        assert front + Rewrite(m, f) == left + k + (z + Rewrite(next, f));
      }
  }

  lemma BothParts(a: string, b: string, s: string)
    requires !Contains(a + b, s)
    ensures !Contains(a, s) && !Contains(b, s)
  {
    assert a + b == "" + a + b && a + b == a + b + "";
    AbsentFromPart("", a, b, s);
    AbsentFromPart(a, b, "", s);
  }

  lemma PassKeepsOut(text: string, find: Matcher, f: string -> string, s: string)
    requires s != "" && AllSafe(s, find(text), f)
    requires Source(find(text)) == text && !Contains(text, s)
    ensures !Contains(Rewrite(find(text), f), s)
  {
    assert "" + text == text;
    RewriteKeepsOut("", find(text), f, s);
    assert "" + Rewrite(find(text), f) == Rewrite(find(text), f);
  }

  lemma UntouchedIsReplaceable(s: string, c: string, m: string)
    requires s != "" && m != "" && !Touches(s, m)
    ensures Replaceable(s, c, m)
  {
    forall a, b | !Contains(a + c, s) && !Contains(b, s) ensures !Contains(a + m + b, s) {
      BothParts(a, c, s);
      NoSeam(a, m, b, s);
    }
  }

  lemma CutIsSafe(s: string, c: string, m: string, z: string)
    requires Replaceable(s, c, m)
    ensures SafeAnswer(s, c + z, m + z)
  {
    assert SafeCut(s, c + z, m + z, c, m, z);
  }

  lemma MarkerIsSafe(s: string, x: string, m: string)
    requires s != "" && m != "" && !Touches(s, m)
    ensures SafeAnswer(s, x, m)
  {
    UntouchedIsReplaceable(s, x, m);
    assert x == x + "" && m == m + "";
    CutIsSafe(s, x, m, "");
  }

  lemma ReplaceKeepsOut(text: string, find: Matcher, marker: string, s: string)
    requires s != "" && marker != "" && !Touches(s, marker)
    requires Source(find(text)) == text && !Contains(text, s)
    ensures !Contains(Replace(text, find, marker), s)
  {
    var f := (x: string) => marker;
    forall x ensures SafeAnswer(s, x, f(x)) { MarkerIsSafe(s, x, marker); }
    EverySafe(s, find(text), f);
    PassKeepsOut(text, find, f, s);
    ConstantRewrite(find(text), f, _ => marker, marker);
  }

  /** A pass with this marker brings `s` into no text that lacks it, whatever its pattern matches. */
  ghost predicate NeverIntroduces(marker: string, s: string) {
    forall find: Matcher, text ::
      Source(find(text)) == text && !Contains(text, s) ==> !Contains(Replace(text, find, marker), s)
  }

  function MatchOnce(text: string, head: string, hit: string, tail: string): Matcher {
    t => if t == text then Hit(head, hit, Rest(tail)) else Rest(t)
  }

  lemma ReplaceOnce(text: string, head: string, hit: string, tail: string, marker: string)
    requires text == head + hit + tail
    ensures Source(MatchOnce(text, head, hit, tail)(text)) == text
    ensures Replace(text, MatchOnce(text, head, hit, tail), marker) == head + marker + tail
  {
    var f := (x: string) => marker;
    ConstantRewrite(Hit(head, hit, Rest(tail)), f, _ => marker, marker);
    assert Rewrite(Hit(head, hit, Rest(tail)), f) == head + f(hit) + Rewrite(Rest(tail), f);
  }

  /** The condition is exact for every single pass: a touched marker can complete the secret. */
  lemma PassIsSafeIff(s: string, marker: string)
    requires s != "" && marker != ""
    ensures NeverIntroduces(marker, s) <==> !Touches(s, marker)
  {
    if !Touches(s, marker) {
      forall find: Matcher, text | Source(find(text)) == text && !Contains(text, s)
        ensures !Contains(Replace(text, find, marker), s)
      {
        ReplaceKeepsOut(text, find, marker, s);
      }
    } else {
      var d :| -|s| < d < |marker| && Agrees(s, marker, d);
      var head, tail := if d < 0 then s[..-d] else "", Overhang(s, marker, d);
      var hit := Spacer(s, s);
      var text := head + hit + tail;
      var find := MatchOnce(text, head, hit, tail);
      SpacerKeepsApart(head, hit, tail, s);
      RebuiltByMarker(head, tail, s, marker, d);
      ReplaceOnce(text, head, hit, tail, marker);
    }
  }
}
