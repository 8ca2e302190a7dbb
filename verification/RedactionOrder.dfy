/**
  What the longest-first order of the secrets is for: a secret in a text is replaced whole,
  and the text on its two sides is redacted as if the secret had not been there.
 */
module RedactionOrder {
  import opened Strings
  import opened Redaction

  // ---------------------------------------------------------------- one pass, left to right

  /** `split` and `join` in one sweep, for any marker. */
  function Sweep(text: string, b: string, m: string): string
    requires b != ""
    decreases |text|
  {
    match IndexOf(text, b)
    case None => text
    case Some(i) => text[..i] + m + Sweep(text[i + |b|..], b, m)
  }

  lemma {:induction false} SweepIsJoin(text: string, b: string, m: string)
    requires b != ""
    ensures Join(Split(text, b), m) == Sweep(text, b, m)
    decreases |text|
  {
    match IndexOf(text, b)
    case None =>
    case Some(i) =>
      SweepIsJoin(text[i + |b|..], b, m);
      assert Split(text, b)[1..] == Split(text[i + |b|..], b);
  }

  lemma IndexIs(text: string, b: string, i: nat)
    requires OccursAt(text, b, i) && forall j: nat :: j < i ==> !OccursAt(text, b, j)
    ensures IndexOf(text, b) == Some(i)
  {
  }

  lemma IndexIsNone(text: string, b: string)
    requires forall j: nat :: j <= |text| ==> !OccursAt(text, b, j)
    ensures IndexOf(text, b) == None
  {
  }

  /** An occurrence of `b` in `p + x + q` that starts on one side of an end of `x` and stops on the other. */
  ghost predicate Straddles(p: string, x: string, q: string, b: string, j: nat) {
    && OccursAt(p + x + q, b, j)
    && (j < |p| < j + |b| || j < |p| + |x| < j + |b|)
  }

  ghost predicate Clear(p: string, x: string, q: string, b: string) {
    forall j: nat :: j <= |p + x + q| ==> !Straddles(p, x, q, b, j)
  }

  lemma ClearTail(p: string, x: string, q: string, b: string, k: nat)
    requires k <= |p| && Clear(p, x, q, b)
    ensures Clear(p[k..], x, q, b)
  {
    var t := p[k..] + x + q;
    assert p + x + q == p[..k] + t + "";
    forall j: nat | j <= |t| ensures !Straddles(p[k..], x, q, b, j) {
      if j + |b| <= |t| {
        OccursInside(p[..k], t, "", b, k + j);
        assert !Straddles(p, x, q, b, k + j);
      }
    }
  }

  /** Where nothing straddles, an occurrence lies in `p`, in `x` or in `q`. */
  lemma OccursInOnePart(p: string, x: string, q: string, b: string, j: nat)
    requires b != "" && Clear(p, x, q, b) && j + |b| <= |p + x + q|
    ensures OccursAt(p + x + q, b, j) <==>
            || (j + |b| <= |p| && OccursAt(p, b, j))
            || (|p| <= j && j + |b| <= |p| + |x| && OccursAt(x, b, j - |p|))
            || (|p| + |x| <= j && OccursAt(q, b, j - |p| - |x|))
  {
    assert !Straddles(p, x, q, b, j);
    if j + |b| <= |p| {
      assert "" + p + (x + q) == p + x + q;
      OccursInside("", p, x + q, b, j);
    } else if |p| <= j && j + |b| <= |p| + |x| {
      OccursInside(p, x, q, b, j);
    } else if |p| + |x| <= j {
      assert (p + x) + q + "" == p + x + q;
      OccursInside(p + x, q, "", b, j);
    }
  }

  /** The first occurrence in `p` is the first in the whole text. */
  lemma FirstInFront(p: string, x: string, q: string, b: string)
    requires b != "" && Clear(p, x, q, b) && IndexOf(p, b).Some?
    ensures IndexOf(p + x + q, b) == IndexOf(p, b)
  {
    var i := IndexOf(p, b).value;
    forall j: nat | j <= i ensures OccursAt(p + x + q, b, j) <==> j == i {
      OccursInOnePart(p, x, q, b, j);
    }
    IndexIs(p + x + q, b, i);
  }

  lemma NothingInFront(p: string, x: string, q: string, b: string, j: nat)
    requires b != "" && Clear(p, x, q, b) && IndexOf(p, b).None? && j < |p|
    ensures !OccursAt(p + x + q, b, j)
  {
    if j + |b| <= |p + x + q| { OccursInOnePart(p, x, q, b, j); }
  }

  lemma FirstIsOwn(p: string, b: string, q: string)
    requires b != "" && Clear(p, b, q, b) && IndexOf(p, b).None?
    ensures IndexOf(p + b + q, b) == Some(|p|)
  {
    forall j: nat | j < |p| ensures !OccursAt(p + b + q, b, j) { NothingInFront(p, b, q, b, j); }
    assert (p + b + q)[|p|..|p| + |b|] == b;
    IndexIs(p + b + q, b, |p|);
  }

  lemma NothingBefore(p: string, x: string, q: string, b: string, j: nat, n: nat)
    requires b != "" && Clear(p, x, q, b) && IndexOf(p, b).None? && !Contains(x, b)
    requires forall k: nat :: k < n ==> !OccursAt(q, b, k)
    requires j < |p| + |x| + n
    ensures !OccursAt(p + x + q, b, j)
  {
    if j + |b| <= |p + x + q| { OccursInOnePart(p, x, q, b, j); }
  }

  lemma NothingAnywhere(p: string, x: string, q: string, b: string)
    requires b != "" && Clear(p, x, q, b) && IndexOf(p, b).None? && !Contains(x, b) && IndexOf(q, b).None?
    ensures IndexOf(p + x + q, b) == None
  {
    forall j: nat | j <= |p + x + q| ensures !OccursAt(p + x + q, b, j) {
      NothingBefore(p, x, q, b, j, |q| + 1);
    }
    IndexIsNone(p + x + q, b);
  }

  lemma FirstInBack(p: string, x: string, q: string, b: string, i: nat)
    requires b != "" && Clear(p, x, q, b) && IndexOf(p, b).None? && !Contains(x, b) && IndexOf(q, b) == Some(i)
    ensures IndexOf(p + x + q, b) == Some(|p| + |x| + i)
  {
    var t, at := p + x + q, |p| + |x| + i;
    forall j: nat | j < at ensures !OccursAt(t, b, j) { NothingBefore(p, x, q, b, j, i); }
    assert (p + x) + q + "" == t;
    OccursInside(p + x, q, "", b, at);
    IndexIs(t, b, at);
  }

  lemma {:induction false} SweepAt(text: string, b: string, m: string, i: nat)
    requires b != "" && IndexOf(text, b) == Some(i)
    ensures Sweep(text, b, m) == text[..i] + m + Sweep(text[i + |b|..], b, m)
  {
  }

  lemma Regroup(a: string, m: string, r: string, x: string, y: string)
    ensures a + m + (r + x + y) == (a + m + r) + x + y
    ensures (a + m + r) + x == a + m + (r + x)
    ensures (r + x + a) + m + y == r + x + (a + m + y)
  {
  }

  /** A pass that finds nothing in `x` and nothing across its ends works on the two sides apart. */
  lemma {:induction false} SweepApart(p: string, x: string, q: string, b: string, m: string)
    requires b != "" && !Contains(x, b) && Clear(p, x, q, b)
    ensures Sweep(p + x + q, b, m) == Sweep(p, b, m) + x + Sweep(q, b, m)
    decreases |p|
  {
    match IndexOf(p, b)
    case Some(i) =>
      var rest := p[i + |b|..];
      ClearTail(p, x, q, b, i + |b|);
      SweepApart(rest, x, q, b, m);
      FrontStep(p, x, q, b, m, i);
      SweepAt(p, b, m, i);
      Regroup(p[..i], m, Sweep(rest, b, m), x, Sweep(q, b, m));
    case None => SweepBehind(p, x, q, b, m);
  }

  /** The sweep of the whole text starts like the sweep of `p`. */
  lemma FrontStep(p: string, x: string, q: string, b: string, m: string, i: nat)
    requires b != "" && Clear(p, x, q, b) && IndexOf(p, b) == Some(i)
    ensures Sweep(p + x + q, b, m) == p[..i] + m + Sweep(p[i + |b|..] + x + q, b, m)
  {
    var t := p + x + q;
    FirstInFront(p, x, q, b);
    SweepAt(t, b, m, i);
    assert t[..i] == p[..i] && t[i + |b|..] == p[i + |b|..] + x + q;
  }

  /** `t` ends like `q`, and both are first cut there. */
  lemma {:induction false} SweepSameEnd(t: string, front: string, q: string, b: string, m: string, at: nat, i: nat)
    requires b != "" && IndexOf(q, b) == Some(i) && IndexOf(t, b) == Some(at)
    requires t[..at] == front + q[..i] && t[at + |b|..] == q[i + |b|..]
    ensures Sweep(t, b, m) == front + Sweep(q, b, m)
  {
    var rest := Sweep(q[i + |b|..], b, m);
    SweepAt(q, b, m, i);
    SweepAt(t, b, m, at);
    assert (front + q[..i]) + m + rest == front + (q[..i] + m + rest);
  }

  lemma SweepBehind(p: string, x: string, q: string, b: string, m: string)
    requires b != "" && !Contains(x, b) && Clear(p, x, q, b) && IndexOf(p, b).None?
    ensures Sweep(p + x + q, b, m) == p + x + Sweep(q, b, m)
  {
    match IndexOf(q, b)
    case None => NothingAnywhere(p, x, q, b);
    case Some(i) =>
      var t, at := p + x + q, |p| + |x| + i;
      FirstInBack(p, x, q, b, i);
      assert t[..at] == (p + x) + q[..i] && t[at + |b|..] == q[i + |b|..];
      SweepSameEnd(t, p + x, q, b, m, at, i);
  }

  /** The pass of `s` itself replaces this `s` by one marker. */
  lemma {:induction false} SweepOwn(p: string, s: string, q: string, m: string)
    requires s != "" && Clear(p, s, q, s)
    ensures Sweep(p + s + q, s, m) == Sweep(p, s, m) + m + Sweep(q, s, m)
    decreases |p|
  {
    match IndexOf(p, s)
    case Some(i) =>
      var rest := p[i + |s|..];
      ClearTail(p, s, q, s, i + |s|);
      SweepOwn(rest, s, q, m);
      FrontStep(p, s, q, s, m, i);
      SweepAt(p, s, m, i);
      Regroup(p[..i], m, Sweep(rest, s, m), m, Sweep(q, s, m));
    case None =>
      var t := p + s + q;
      FirstIsOwn(p, s, q);
      SweepAt(t, s, m, |p|);
      assert t[..|p|] == p && t[|p| + |s|..] == q;
  }

  // ---------------------------------------------------------------- what a pass leaves next to `x`

  /** `m` ends, or starts, the stretch `t`, unless nothing was cut there. */
  ghost predicate EndsIn(t: string, m: string) { |t| >= |m| && t[|t| - |m|..] == m }

  ghost predicate StartsWith(t: string, m: string) { |t| >= |m| && t[..|m|] == m }

  /** The end of a swept text is an end of the text, preceded by a marker unless nothing was cut. */
  lemma {:induction false} LastStretch(p: string, b: string, m: string) returns (cut: string, front: string, w: string)
    requires b != ""
    ensures p == cut + w && Sweep(p, b, m) == front + w
    ensures (cut == "" && front == "") || EndsIn(front, m)
    decreases |p|
  {
    match IndexOf(p, b)
    case None => cut, front, w := "", "", p;
    case Some(i) =>
      var cut', front';
      cut', front', w := LastStretch(p[i + |b|..], b, m);
      cut, front := p[..i + |b|] + cut', p[..i] + m + front';
      SweepAt(p, b, m, i);
      Regroup(p[..i], m, front', w, "");
      assert p == p[..i + |b|] + p[i + |b|..];
      EndStays(p[..i] + m, front', m);
  }

  lemma EndStays(a: string, b: string, m: string)
    requires EndsIn(a, m) && (b == "" || EndsIn(b, m))
    ensures EndsIn(a + b, m)
  {
    if b == "" {
      assert a + b == a;
    } else {
      assert (a + b)[|a + b| - |m|..] == b[|b| - |m|..];
    }
  }

  lemma FirstStretch(q: string, b: string, m: string) returns (w: string, cut: string, back: string)
    requires b != ""
    ensures q == w + cut && Sweep(q, b, m) == w + back
    ensures (cut == "" && back == "") || StartsWith(back, m)
  {
    match IndexOf(q, b)
    case None => w, cut, back := q, "", "";
    case Some(i) =>
      var rest := Sweep(q[i + |b|..], b, m);
      SweepAt(q, b, m, i);
      w, cut, back := q[..i], q[i..], m + rest;
      StartStays(w, m, rest);
  }

  lemma StartStays(w: string, m: string, rest: string)
    ensures StartsWith(m + rest, m) && w + m + rest == w + (m + rest)
  {
  }

  lemma OccurrencesAgree(text: string, at: nat, m: string, c: string, j: nat)
    requires OccursAt(text, c, j) && OccursAt(text, m, at)
    ensures Agrees(c, m, j - at)
  {
    forall i | 0 <= i < |c| && 0 <= i + j - at < |m| ensures c[i] == m[i + j - at] {
      assert text[j..j + |c|][i] == text[j + i];
      assert text[at..at + |m|][i + j - at] == text[j + i];
    }
  }

  /** An occurrence of a string that does not touch `m` overlaps no `m`. */
  lemma NotOverMarker(text: string, at: nat, m: string, c: string, j: nat)
    requires !Touches(c, m) && OccursAt(text, c, j) && OccursAt(text, m, at)
    ensures j + |c| <= at || at + |m| <= j
  {
    OccurrencesAgree(text, at, m, c, j);
  }

  /** An occurrence that reaches into `mid` between two marker ends stays in it. */
  lemma InMiddle(front: string, mid: string, back: string, m: string, c: string, j: nat)
    requires c != "" && m != "" && !Touches(c, m) && OccursAt(front + mid + back, c, j)
    requires j < |front| + |mid| && |front| < j + |c|
    requires (front == "" || EndsIn(front, m)) && (back == "" || StartsWith(back, m))
    ensures |front| <= j && j + |c| <= |front| + |mid|
  {
    var t := front + mid + back;
    if front != "" {
      var at := |front| - |m|;
      assert t[at..at + |m|] == front[at..];
      NotOverMarker(t, at, m, c, j);
    }
    if back != "" {
      var at := |front| + |mid|;
      assert t[at..at + |m|] == back[..|m|];
      NotOverMarker(t, at, m, c, j);
    }
  }

  /** The same stretch between other neighbours: what straddles an end of `x` there straddles it here. */
  lemma StraddleMoves(
    u: string, v: string, wp: string, x: string, wq: string, y: string, z: string, m: string, c: string, j: nat)
    requires c != "" && m != "" && !Touches(c, m)
    requires (v == "" || EndsIn(v, m)) && (z == "" || StartsWith(z, m))
    ensures Straddles(v + wp, x, wq + z, c, j) ==> |v| <= j && Straddles(u + wp, x, wq + y, c, j - |v| + |u|)
  {
    if Straddles(v + wp, x, wq + z, c, j) {
      var mid := wp + x + wq;
      assert (v + wp) + x + (wq + z) == v + mid + z && (u + wp) + x + (wq + y) == u + mid + y;
      InMiddle(v, mid, z, m, c, j);
      OccursInside(v, mid, z, c, j);
      OccursInside(u, mid, y, c, j - |v| + |u|);
    }
  }

  /** A pass makes nothing straddle that did not straddle before. */
  lemma ClearAfterSweep(p: string, x: string, q: string, b: string, c: string, m: string)
    requires b != "" && c != "" && m != "" && !Touches(c, m) && Clear(p, x, q, c)
    ensures Clear(Sweep(p, b, m), x, Sweep(q, b, m), c)
  {
    var cutP, front, wp := LastStretch(p, b, m);
    var wq, cutQ, back := FirstStretch(q, b, m);
    forall j: nat ensures !Straddles(front + wp, x, wq + back, c, j) {
      StraddleMoves(cutP, front, wp, x, wq, cutQ, back, m, c, j);
    }
  }

  // ---------------------------------------------------------------- the whole loop

  lemma {:induction false} RedactAllAppend(text: string, xs: seq<string>, ys: seq<string>)
    ensures RedactAll(text, xs + ys) == RedactAll(RedactAll(text, xs), ys)
    decreases |xs|
  {
    if xs == [] {
      assert xs + ys == ys;
    } else {
      assert (xs + ys)[1..] == xs[1..] + ys;
      RedactAllAppend(Redact(text, xs[0]), xs[1..], ys);
    }
  }

  lemma RedactIsSweep(text: string, b: string)
    requires b != ""
    ensures Redact(text, b) == Sweep(text, b, REDACTED)
  {
    SweepIsJoin(text, b, REDACTED);
  }

  lemma RedactApart(p: string, x: string, q: string, b: string)
    requires b != "" && !Contains(x, b) && Clear(p, x, q, b)
    ensures Redact(p + x + q, b) == Redact(p, b) + x + Redact(q, b)
  {
    SweepApart(p, x, q, b, REDACTED);
    RedactIsSweep(p + x + q, b);
    RedactIsSweep(p, b);
    RedactIsSweep(q, b);
  }

  lemma RedactOwn(p: string, s: string, q: string)
    requires s != "" && Clear(p, s, q, s)
    ensures Redact(p + s + q, s) == Redact(p, s) + REDACTED + Redact(q, s)
  {
    SweepOwn(p, s, q, REDACTED);
    RedactIsSweep(p + s + q, s);
    RedactIsSweep(p, s);
    RedactIsSweep(q, s);
  }

  lemma ClearAfterPass(p: string, x: string, q: string, b: string, c: string)
    requires b != "" && c != "" && !Touches(c, REDACTED) && Clear(p, x, q, c)
    ensures Clear(Redact(p, b), x, Redact(q, b), c)
  {
    ClearAfterSweep(p, x, q, b, c, REDACTED);
    RedactIsSweep(p, b);
    RedactIsSweep(q, b);
  }

  /** The passes before the one of `s`. */
  lemma {:induction false} EarlierPasses(p: string, s: string, q: string, pre: seq<string>)
    requires s != "" && !Touches(s, REDACTED) && Clear(p, s, q, s)
    requires forall k :: 0 <= k < |pre| ==>
               pre[k] != "" && !Touches(pre[k], REDACTED) && !Contains(s, pre[k]) && Clear(p, s, q, pre[k])
    ensures RedactAll(p + s + q, pre) == RedactAll(p, pre) + s + RedactAll(q, pre)
    ensures Clear(RedactAll(p, pre), s, RedactAll(q, pre), s)
    decreases |pre|
  {
    if pre != [] {
      var b := pre[0];
      RedactApart(p, s, q, b);
      ClearAfterPass(p, s, q, b, s);
      forall k | 0 <= k < |pre[1..]| ensures Clear(Redact(p, b), s, Redact(q, b), pre[1..][k]) {
        ClearAfterPass(p, s, q, b, pre[k + 1]);
      }
      EarlierPasses(Redact(p, b), s, Redact(q, b), pre[1..]);
    }
  }

  /** The passes after the one of `s`, which meet a marker in its place. */
  lemma {:induction false} LaterPasses(p: string, q: string, post: seq<string>)
    requires forall k :: 0 <= k < |post| ==> post[k] != "" && !Touches(post[k], REDACTED)
    ensures RedactAll(p + REDACTED + q, post) == RedactAll(p, post) + REDACTED + RedactAll(q, post)
    decreases |post|
  {
    if post != [] {
      var b := post[0];
      MarkerIsClear(p, q, b, REDACTED);
      RedactApart(p, REDACTED, q, b);
      LaterPasses(Redact(p, b), Redact(q, b), post[1..]);
    }
  }

  lemma MarkerIsClear(p: string, q: string, b: string, m: string)
    requires b != "" && m != "" && !Touches(b, m)
    ensures !Contains(m, b) && Clear(p, m, q, b)
  {
    TooShort("", b);
    NoSeam("", m, "", b);
    assert "" + m + "" == m;
    var t := p + m + q;
    assert t[|p|..|p| + |m|] == m;
    forall j: nat | j <= |t| ensures !Straddles(p, m, q, b, j) {
      if OccursAt(t, b, j) { NotOverMarker(t, |p|, m, b, j); }
    }
  }

  /**
    In longest-first order no pass works inside a secret that comes later: whatever an
    earlier pass looks for is not part of it.
   */
  lemma EarlierNeverInside(secrets: seq<string>, i: nat, j: nat)
    requires NoDuplicates(secrets) && LongestFirst(secrets) && i < j < |secrets|
    ensures !Contains(secrets[j], secrets[i])
  {
    if |secrets[i]| > |secrets[j]| {
      TooShort(secrets[j], secrets[i]);
    }
  }

  /**
    What longest-first is for. In any text `p + s + q` in which no secret up to `s` in the
    list has an occurrence across an end of this `s`, the secret becomes exactly one marker,
    leaving no fragment even when later secrets are parts of it, and what is left and right
    of it is redacted as if it stood alone.
   */
  lemma LongestFirstLeavesNoFragment(p: string, q: string, secrets: seq<string>, n: nat)
    requires NoDuplicates(secrets) && LongestFirst(secrets) && n < |secrets|
    requires "" !in secrets && AllUntouched(secrets)
    requires forall k :: 0 <= k <= n ==> Clear(p, secrets[n], q, secrets[k])
    ensures RedactAll(p + secrets[n] + q, secrets) == RedactAll(p, secrets) + REDACTED + RedactAll(q, secrets)
  {
    EarlierAreClear(p, q, secrets, n);
    assert secrets == secrets[..n] + ([secrets[n]] + secrets[n + 1..]);
    LoopFactors(p, secrets[n], q, secrets[..n], secrets[n + 1..]);
  }

  lemma {:induction false} LoopFactors(p: string, s: string, q: string, pre: seq<string>, post: seq<string>)
    requires s != "" && !Touches(s, REDACTED) && Clear(p, s, q, s)
    requires forall k :: 0 <= k < |pre| ==>
               pre[k] != "" && !Touches(pre[k], REDACTED) && !Contains(s, pre[k]) && Clear(p, s, q, pre[k])
    requires forall k :: 0 <= k < |post| ==> post[k] != "" && !Touches(post[k], REDACTED)
    ensures var secrets := pre + ([s] + post);
            RedactAll(p + s + q, secrets) == RedactAll(p, secrets) + REDACTED + RedactAll(q, secrets)
  {
    EarlierPasses(p, s, q, pre);
    RedactOwn(RedactAll(p, pre), s, RedactAll(q, pre));
    LaterPasses(Redact(RedactAll(p, pre), s), Redact(RedactAll(q, pre), s), post);
    InThreeSteps(p + s + q, pre, s, post);
    InThreeSteps(p, pre, s, post);
    InThreeSteps(q, pre, s, post);
  }

  lemma EarlierAreClear(p: string, q: string, secrets: seq<string>, n: nat)
    requires NoDuplicates(secrets) && LongestFirst(secrets) && n < |secrets|
    requires "" !in secrets && AllUntouched(secrets)
    requires forall k :: 0 <= k <= n ==> Clear(p, secrets[n], q, secrets[k])
    ensures forall k :: 0 <= k < |secrets| ==> secrets[k] != "" && !Touches(secrets[k], REDACTED)
    ensures forall k :: 0 <= k < n ==> !Contains(secrets[n], secrets[k])
  {
    forall k | 0 <= k < |secrets| ensures secrets[k] != "" && !Touches(secrets[k], REDACTED) {
      assert secrets[k] in secrets;
    }
    forall k | 0 <= k < n ensures !Contains(secrets[n], secrets[k]) { EarlierNeverInside(secrets, k, n); }
  }

  lemma InThreeSteps(text: string, pre: seq<string>, s: string, post: seq<string>)
    ensures RedactAll(text, pre + ([s] + post)) == RedactAll(Redact(RedactAll(text, pre), s), post)
  {
    RedactAllAppend(text, pre, [s] + post);
    assert ([s] + post)[1..] == post;
  }

  /** In the opposite order a part of the longer secret stays in the text. */
  lemma ShortestFirstLeavesFragment(s: string, rest: string)
    requires s != "" && rest != "" && !Contains(rest, s) && !Contains(REDACTED + rest, s + rest)
    ensures RedactAll(s + rest, [s, s + rest]) == REDACTED + rest
  {
    assert "" + s + rest == s + rest && "" + REDACTED + rest == REDACTED + rest;
    assert OccursAt("" + s, s, 0);
    SplitOnce("", s, rest);
    RedactAbsent(REDACTED + rest, s + rest);
    assert [s, s + rest][1..] == [s + rest];
    OnePass(REDACTED + rest, s + rest);
  }
}
