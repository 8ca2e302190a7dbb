/**
  Exact-secret redaction: `text.split(secret).join('[redacted]')`, once per
  secret, and the exact condition under which a secret cannot come back.
 */
module Redaction {
  import opened Strings

  const REDACTED := "[redacted]"

  /** One iteration of the secret loop; the empty secret is skipped. */
  function Redact(text: string, secret: string): string {
    if secret == "" then text else Join(Split(text, secret), REDACTED)
  }

  function RedactAll(text: string, secrets: seq<string>): string
    decreases |secrets|
  {
    if secrets == [] then text else RedactAll(Redact(text, secrets[0]), secrets[1..])
  }

  // ---------------------------------------------------------------- seams

  /** Laying `s` over `m`, shifted by `d`, the characters that meet are equal. */
  predicate Agrees(s: string, m: string, d: int) {
    forall i :: 0 <= i < |s| && 0 <= i + d < |m| ==> s[i] == m[i + d]
  }

  /** Some overlap of at least one character between `s` and the marker `m` agrees. */
  predicate Touches(s: string, m: string) {
    exists d :: -|s| < d < |m| && Agrees(s, m, d)
  }

  /** A marker that `s` does not touch cannot complete an occurrence of `s`. */
  lemma NoSeam(a: string, m: string, b: string, s: string)
    requires s != "" && m != "" && !Touches(s, m)
    requires !Contains(a, s) && !Contains(b, s)
    ensures !Contains(a + m + b, s)
  {
    var text := a + m + b;
    forall j | 0 <= j <= |text| ensures !OccursAt(text, s, j) {
      if j + |s| <= |a| {
        assert "" + a + (m + b) == text;
        OccursInside("", a, m + b, s, j);
      } else if |a| + |m| <= j && j + |s| <= |text| {
        assert (a + m) + b + "" == text;
        OccursInside(a + m, b, "", s, j);
      } else if j + |s| <= |text| && OccursAt(text, s, j) {
        assert Agrees(s, m, j - |a|) by {
          forall i | 0 <= i < |s| && 0 <= i + j - |a| < |m| ensures s[i] == m[i + j - |a|] {
            assert text[j..j + |s|][i] == text[j + i];
          }
        }
        assert false;
      }
    }
  }

  lemma {:induction false} JoinHasNoSeam(pieces: seq<string>, marker: string, s: string)
    requires s != "" && marker != "" && !Touches(s, marker)
    requires forall p :: p in pieces ==> !Contains(p, s)
    ensures !Contains(Join(pieces, marker), s)
  {
    if pieces == [] {
      TooShort("", s);
    } else if |pieces| > 1 {
      JoinHasNoSeam(pieces[1..], marker, s);
      NoSeam(pieces[0], marker, Join(pieces[1..], marker), s);
    }
  }

  // ---------------------------------------------------------------- one secret

  lemma {:induction false} PiecesAreParts(text: string, sep: string, s: string)
    requires sep != "" && !Contains(text, s)
    ensures forall p :: p in Split(text, sep) ==> !Contains(p, s)
    decreases |text|
  {
    match IndexOf(text, sep)
    case None =>
    case Some(i) =>
      AbsentFromSlice(text, 0, i, s);
      AbsentFromSlice(text, i + |sep|, |text|, s);
      assert text[i + |sep|..] == text[i + |sep|..|text|] && text[..i] == text[0..i];
      PiecesAreParts(text[i + |sep|..], sep, s);
  }

  lemma PiecesAreFree(text: string, s: string)
    requires s != ""
    ensures forall p :: p in Split(text, s) ==> !Contains(p, s)
  {
    SplitLeftmost(text, s);
    var pieces := Split(text, s);
    forall k | 0 <= k < |pieces| ensures !Contains(pieces[k], s) {
      if k < |pieces| - 1 { LeftmostPieceIsFree(pieces[k], s); }
    }
  }

  /** The pass of `s` removes `s`. */
  lemma RedactRemoves(text: string, s: string)
    requires s != "" && !Touches(s, REDACTED)
    ensures !Contains(Redact(text, s), s)
  {
    PiecesAreFree(text, s);
    JoinHasNoSeam(Split(text, s), REDACTED, s);
  }

  /** The pass of any secret `t` does not bring `s` back. */
  lemma RedactKeepsOut(text: string, t: string, s: string)
    requires s != "" && !Touches(s, REDACTED) && !Contains(text, s)
    ensures !Contains(Redact(text, t), s)
  {
    if t != "" {
      PiecesAreParts(text, t, s);
      JoinHasNoSeam(Split(text, t), REDACTED, s);
    }
  }

  lemma RedactAbsent(text: string, s: string)
    requires !Contains(text, s)
    ensures Redact(text, s) == text
  {
  }

  // ---------------------------------------------------------------- the secret loop

  lemma {:induction false} RedactAllKeepsOut(text: string, secrets: seq<string>, s: string)
    requires s != "" && !Touches(s, REDACTED)
    requires !Contains(text, s) || s in secrets
    ensures !Contains(RedactAll(text, secrets), s)
    decreases |secrets|
  {
    if secrets != [] {
      if Contains(text, s) {
        if secrets[0] == s { RedactRemoves(text, s); }
      } else {
        RedactKeepsOut(text, secrets[0], s);
      }
      RedactAllKeepsOut(Redact(text, secrets[0]), secrets[1..], s);
    }
  }

  predicate NoDuplicates(xs: seq<string>) {
    forall i, j :: 0 <= i < j < |xs| ==> xs[i] != xs[j]
  }

  predicate LongestFirst(xs: seq<string>) {
    forall i, j :: 0 <= i < j < |xs| ==> |xs[i]| >= |xs[j]|
  }

  /** `s` is out of every output, for every text and every list in the order the environment scan builds. */
  ghost predicate NeverSurvives(s: string) {
    forall text, secrets ::
      s in secrets && NoDuplicates(secrets) && LongestFirst(secrets) ==> !Contains(RedactAll(text, secrets), s)
  }

  /**
    The exact safety condition of the secret loop: among any other secrets, longest first, a
    non-empty secret is removed from every text iff it does not touch the marker.
    (`RedactAllKeepsOut` is the positive half for lists in any order.)
   */
  lemma SecretNeverSurvivesIff(s: string)
    requires s != ""
    ensures NeverSurvives(s) <==> !Touches(s, REDACTED)
  {
    if !Touches(s, REDACTED) {
      forall text, secrets | s in secrets && NoDuplicates(secrets) && LongestFirst(secrets)
        ensures !Contains(RedactAll(text, secrets), s)
      {
        RedactAllKeepsOut(text, secrets, s);
      }
    } else {
      var d :| -|s| < d < |REDACTED| && Agrees(s, REDACTED, d);
      var text, secrets := SurvivingInput(s, d);
      assert s in secrets && NoDuplicates(secrets) && LongestFirst(secrets) && Contains(RedactAll(text, secrets), s);
    }
  }

  /** The part of `s` that sticks out to the right of the marker at shift `d`. */
  function Overhang(s: string, m: string, d: int): (tail: string)
    requires s != "" && -|s| < d < |m|
    ensures |tail| < |s|
  {
    if d + |s| > |m| then s[|m| - d..] else ""
  }

  /** A text and a list of secrets after which `s` is in the output. */
  lemma SurvivingInput(s: string, d: int) returns (text: string, secrets: seq<string>)
    requires s != "" && -|s| < d < |REDACTED| && Agrees(s, REDACTED, d)
    ensures s in secrets && NoDuplicates(secrets) && LongestFirst(secrets)
    ensures Contains(RedactAll(text, secrets), s)
  {
    var tail := Overhang(s, REDACTED, d);
    if d >= 0 {
      text, secrets := s + tail, [s];
      OnePass(text, s);
      SurvivesOwnPass(s, d, tail);
    } else {
      var other := Spacer(s, s[..-d]);
      text, secrets := s[..-d] + other + tail, [s, other];
      SurvivesOtherPass(s, d, tail, other);
      RedactAbsent(text, s);
      OnePass(text, other);
      assert secrets[1..] == [other] && other[0] != s[0];
    }
  }

  lemma OnePass(text: string, s: string)
    ensures RedactAll(text, [s]) == Redact(text, s)
  {
    assert [s][1..] == [];
  }

  lemma SurvivesOwnPass(s: string, d: int, tail: string)
    requires s != "" && 0 <= d < |REDACTED| && Agrees(s, REDACTED, d)
    requires tail == Overhang(s, REDACTED, d)
    ensures Contains(Redact(s + tail, s), s)
  {
    assert "" + s == s && "" + s + tail == s + tail;
    assert OccursAt("" + s, s, 0);
    SplitOnce("", s, tail);
    RebuiltByMarker("", tail, s, REDACTED, d);
  }

  lemma SurvivesOtherPass(s: string, d: int, tail: string, other: string)
    requires s != "" && -|s| < d < 0 && Agrees(s, REDACTED, d)
    requires tail == Overhang(s, REDACTED, d) && other == Spacer(s, s[..-d])
    ensures !Contains(s[..-d] + other + tail, s)
    ensures Contains(Redact(s[..-d] + other + tail, other), s)
  {
    SpacerSeparates(s[..-d], other, tail, s);
    SplitOnce(s[..-d], other, tail);
    RebuiltByMarker(s[..-d], tail, s, REDACTED, d);
  }

  /** `sep` occurring once, leftmost right after `head`, is replaced once. */
  lemma SplitOnce(head: string, sep: string, tail: string)
    requires sep != "" && !Contains(tail, sep)
    requires IndexOf(head + sep, sep) == Some(|head|)
    ensures Redact(head + sep + tail, sep) == head + REDACTED + tail
  {
    var pieces := [head, tail];
    assert Join(pieces[1..], sep) == tail && Join(pieces[1..], REDACTED) == tail;
    SplitIsUnique(head + sep + tail, sep, pieces);
  }

  /** Around the marker, the two ends of `s` rebuild it. */
  lemma RebuiltByMarker(head: string, tail: string, s: string, m: string, d: int)
    requires s != "" && -|s| < d < |m| && Agrees(s, m, d)
    requires tail == Overhang(s, m, d)
    requires head == if d < 0 then s[..-d] else ""
    ensures Contains(head + m + tail, s)
  {
    var out := head + m + tail;
    var at := if d < 0 then 0 else d;
    assert at + |s| <= |out|;
    forall i | 0 <= i < |s| ensures out[at + i] == s[i] {
      if i + d < 0 {
      } else if i + d < |m| {
        assert s[i] == m[i + d];
      } else {
        assert tail[i + d - |m|] == s[i];
      }
    }
    assert out[at..at + |s|] == s;
    assert OccursAt(out, s, at);
  }

  /** As long as `s`: one character, met neither at an end of `s` nor at the end of `head`. */
  function Spacer(s: string, head: string): (r: string)
    requires s != "" && head != ""
    ensures |r| == |s|
    ensures forall i :: 0 <= i < |r| ==> r[i] == r[0]
    ensures 'a' <= r[0] <= 'd' && r[0] != s[0] && r[0] != s[|s| - 1] && r[0] != head[|head| - 1]
  {
    var taken := [s[0], s[|s| - 1], head[|head| - 1]];
    var c := if 'a' !in taken then 'a' else if 'b' !in taken then 'b' else if 'c' !in taken then 'c' else 'd';
    assert forall k :: 0 <= k < 3 ==> taken[k] in taken;
    seq(|s|, _ => c)
  }

  /** Between two stretches, a spacer of the length of `s` keeps `s` out. */
  lemma SpacerKeepsApart(head: string, other: string, tail: string, s: string)
    requires |head| < |s| && |tail| < |s| && |other| == |s|
    requires forall i :: 0 <= i < |other| ==> other[i] == other[0]
    requires other[0] != s[0] && other[0] != s[|s| - 1]
    ensures !Contains(head + other + tail, s)
  {
    var text := head + other + tail;
    forall j: nat | j <= |text| ensures !OccursAt(text, s, j) {
      if j + |s| <= |text| {
        var last := j + |s| - 1;
        assert text[j..j + |s|][0] == text[j] && text[j..j + |s|][|s| - 1] == text[last];
        if |head| <= j < |head| + |other| {
          assert text[j] == other[j - |head|];
        } else if |head| <= last < |head| + |other| {
          assert text[last] == other[last - |head|];
        }
      }
    }
  }

  lemma SpacerSeparates(head: string, other: string, tail: string, s: string)
    requires 0 < |head| < |s|
    requires |tail| < |s| && other == Spacer(s, head)
    ensures !Contains(head + other + tail, s)
    ensures !Contains(tail, other)
    ensures IndexOf(head + other, other) == Some(|head|)
  {
    SpacerKeepsApart(head, other, tail, s);
    var text := head + other;
    assert text[|head|..|head| + |other|] == other;
    forall j: nat | j < |head| ensures !OccursAt(text, other, j) {
      var k := |head| - 1 - j;
      assert 0 <= k < |other| && other[k] == other[0] != head[|head| - 1] == text[|head| - 1];
      if j + |other| <= |text| {
        assert text[j..j + |other|][k] == text[j + k];
      }
    }
    assert OccursAt(text, other, |head|);
  }

  // ---------------------------------------------------------------- consequences

  ghost predicate AllUntouched(secrets: seq<string>) {
    forall s :: s in secrets && s != "" ==> !Touches(s, REDACTED)
  }

  lemma {:induction false} RedactAllAbsent(text: string, secrets: seq<string>)
    requires forall s :: s in secrets && s != "" ==> !Contains(text, s)
    ensures RedactAll(text, secrets) == text
    decreases |secrets|
  {
    if secrets != [] {
      assert secrets[0] in secrets;
      if secrets[0] != "" { RedactAbsent(text, secrets[0]); }
      RedactAllAbsent(text, secrets[1..]);
    }
  }

  /** Running the secret loop twice equals running it once. */
  lemma RedactAllTwice(text: string, secrets: seq<string>)
    requires AllUntouched(secrets)
    ensures RedactAll(RedactAll(text, secrets), secrets) == RedactAll(text, secrets)
  {
    forall s | s in secrets && s != "" ensures !Contains(RedactAll(text, secrets), s) {
      RedactAllKeepsOut(text, secrets, s);
    }
    RedactAllAbsent(RedactAll(text, secrets), secrets);
  }

  /**
    A secret with the minimum length the environment scan accepts that survives its own
    pass, and that a second run of the loop would redact again.
   */
  lemma MarkerWordSurvives()
    ensures Contains(RedactAll("redacted", ["redacted"]), "redacted")
    ensures RedactAll(RedactAll("redacted", ["redacted"]), ["redacted"]) != RedactAll("redacted", ["redacted"])
  {
    var w := "redacted";
    SelfRedact(w);
    OnePass(w, w);
    assert REDACTED == "[" + w + "]";
    ContainsByParts("[", w, "]");
    OnePass(REDACTED, w);
    BracketedRedact(w);
  }

  lemma SelfRedact(w: string)
    requires w != ""
    ensures Redact(w, w) == REDACTED
  {
    assert "" + w == w && "" + w + "" == w && "" + REDACTED + "" == REDACTED;
    assert OccursAt("" + w, w, 0);
    SplitOnce("", w, "");
  }

  lemma BracketedRedact(w: string)
    requires |w| > 1 && w[0] != '['
    ensures Redact("[" + w + "]", w) == "[" + REDACTED + "]"
    ensures |Redact("[" + w + "]", w)| == 12
  {
    assert ("[" + w)[1..1 + |w|] == w;
    assert !OccursAt("[" + w, w, 0) by { assert ("[" + w)[0] != w[0]; }
    assert OccursAt("[" + w, w, 1);
    SplitOnce("[", w, "]");
  }

  lemma AgreesAt(s: string, m: string, d: int, i: int)
    ensures Agrees(s, m, d) && 0 <= i < |s| && 0 <= i + d < |m| ==> s[i] == m[i + d]
  {
  }

  /** For a secret without brackets, touching a bracketed marker means lying in its words. */
  lemma BracketFreeTouchesIff(s: string, words: string)
    requires s != "" && forall i :: 0 <= i < |s| ==> s[i] != '[' && s[i] != ']'
    ensures Touches(s, "[" + words + "]") <==> Contains(words, s)
  {
    var m := "[" + words + "]";
    if Contains(words, s) {
      var i :| 0 <= i <= |words| && OccursAt(words, s, i);
      assert Agrees(s, m, i + 1) by {
        forall k | 0 <= k < |s| ensures s[k] == m[k + i + 1] {
          assert words[i..i + |s|][k] == words[i + k];
        }
      }
    }
    if Touches(s, m) {
      var d :| -|s| < d < |m| && Agrees(s, m, d);
      AgreesAt(s, m, d, -d);
      AgreesAt(s, m, d, |m| - 1 - d);
      assert words[d - 1..d - 1 + |s|] == s by {
        forall k | 0 <= k < |s| ensures words[d - 1 + k] == s[k] {
          assert s[k] == m[k + d];
        }
      }
      assert OccursAt(words, s, d - 1);
    }
  }
}
