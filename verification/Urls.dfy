/**
  The URL rules of the error sanitizer: trailing punctuation, the decision about a
  parsed URL, and the private-host test. The WHATWG parser is a parameter.
 */
module Urls {
  import opened Strings

  // ---------------------------------------------------------------- trailing text

  predicate IsPunctuation(c: char) {
    c == '.' || c == ',' || c == ';' || c == ':' || c == '!' || c == '?'
  }

  predicate IsCloser(c: char) {
    c == ')' || c == ']' || c == '}'
  }

  function OpenerOf(closer: char): (opener: char)
    requires IsCloser(closer)
    ensures !IsCloser(opener) && !IsPunctuation(opener)
  {
    if closer == ')' then '(' else if closer == ']' then '[' else '{'
  }

  function Count(s: string, c: char): nat {
    if s == "" then 0 else Count(s[..|s| - 1], c) + if s[|s| - 1] == c then 1 else 0
  }

  lemma {:induction false} CountAppend(a: string, b: string, c: char)
    ensures Count(a + b, c) == Count(a, c) + Count(b, c)
  {
    if b == "" {
      assert a + b == a;
    } else {
      CountAppend(a, b[..|b| - 1], c);
      assert (a + b)[..|a + b| - 1] == a + b[..|b| - 1];
    }
  }

  lemma IndexOfChar(s: string, c: char)
    ensures IndexOf(s, [c]).None? ==> Count(s, c) == 0
    ensures IndexOf(s, [c]).Some? ==>
              var i := IndexOf(s, [c]).value;
              i < |s| && s[i] == c && Count(s[..i], c) == 0
  {
    forall j: nat | j < |s| ensures OccursAt(s, [c], j) <==> s[j] == c {
      assert s[j..j + 1] == [s[j]];
    }
    match IndexOf(s, [c])
    case None => NoneCounted(s, c);
    case Some(i) => NoneCounted(s[..i], c);
  }

  /** The length of a split on one character counts that character. */
  lemma {:induction false} SplitLength(s: string, c: char)
    ensures |Split(s, [c])| == Count(s, c) + 1
    decreases |s|
  {
    IndexOfChar(s, c);
    match IndexOf(s, [c])
    case None =>
    case Some(i) =>
      var back := s[i + 1..];
      SplitLength(back, c);
      assert s == s[..i] + [c] + back;
      CountAround(s[..i], back, c);
      assert |Split(s, [c])| == 1 + |Split(back, [c])|;
  }

  lemma CountAround(front: string, back: string, c: char)
    ensures Count(front + [c] + back, c) == Count(front, c) + 1 + Count(back, c)
  {
    CountAppend(front, [c], c);
    CountAppend(front + [c], back, c);
    assert [c][..0] == "" && Count([c], c) == 1;
  }

  lemma {:induction false} NoneCounted(s: string, c: char)
    requires forall j :: 0 <= j < |s| ==> s[j] != c
    ensures Count(s, c) == 0
  {
    if s != "" { NoneCounted(s[..|s| - 1], c); }
  }

  /** The last character of `p` is punctuation, or a closer that outnumbers its openers in `p`. */
  predicate EndsStrippable(p: string) {
    && p != ""
    && var ch := p[|p| - 1];
       IsPunctuation(ch) || (IsCloser(ch) && Count(p, ch) > Count(p, OpenerOf(ch)))
  }

  /** The part of a URL match that is kept. */
  function Kept(raw: string): (r: string)
    ensures |r| <= |raw| && r == raw[..|r|]
  {
    if EndsStrippable(raw) then Kept(raw[..|raw| - 1]) else raw
  }

  lemma {:induction false} KeptEnds(raw: string)
    ensures !EndsStrippable(Kept(raw))
    ensures forall e :: |Kept(raw)| < e <= |raw| ==> EndsStrippable(raw[..e])
  {
    assert raw[..|raw|] == raw;
    if EndsStrippable(raw) {
      KeptEnds(raw[..|raw| - 1]);
      assert forall e :: 0 <= e <= |raw| - 1 ==> raw[..|raw| - 1][..e] == raw[..e];
    }
  }

  /** The source's comparison of two splits is the comparison of counts. */
  lemma CloserTest(body: string, ch: char)
    requires IsCloser(ch)
    ensures |Split(body, [OpenerOf(ch)])| <= |Split(body, [ch])| <==> EndsStrippable(body + [ch])
  {
    SplitLength(body, OpenerOf(ch));
    SplitLength(body, ch);
    CountAppend(body, [ch], ch);
    CountAppend(body, [ch], OpenerOf(ch));
  }

  /** Cutting goes on below a strippable end. */
  lemma StepKept(raw: string, c: char)
    ensures EndsStrippable(raw + [c]) ==> Kept(raw + [c]) == Kept(raw)
    ensures !EndsStrippable(raw + [c]) ==> Kept(raw + [c]) == raw + [c]
  {
    assert (raw + [c])[..|raw + [c]| - 1] == raw;
  }

  /** The two tests of the loop body, for the prefix that ends with `ch`. */
  predicate Cuts(body: string, ch: char) {
    IsPunctuation(ch) || (IsCloser(ch) && |Split(body, [OpenerOf(ch)])| <= |Split(body, [ch])|)
  }

  lemma CutsIsStrippable(body: string, ch: char)
    ensures Cuts(body, ch) <==> EndsStrippable(body + [ch])
    ensures Kept(body + [ch]) == if Cuts(body, ch) then Kept(body) else body + [ch]
  {
    if IsCloser(ch) { CloserTest(body, ch); }
    StepKept(body, ch);
  }

  /** The loop that moves `end` left over what is cut. */
  method SplitTrailing(raw: string) returns (kept: string, cut: string)
    ensures kept == Kept(raw) && kept + cut == raw
    ensures forall c :: c in cut ==> IsPunctuation(c) || IsCloser(c)
  {
    var end := |raw|;
    assert raw[..end] == raw;
    while end > 0
      invariant end <= |raw| && Kept(raw[..end]) == Kept(raw)
      invariant forall k :: end <= k < |raw| ==> IsPunctuation(raw[k]) || IsCloser(raw[k])
      decreases end
    {
      var ch := raw[end - 1];
      var body := raw[..end - 1];
      assert raw[..end] == body + [ch];
      CutsIsStrippable(body, ch);
      if !Cuts(body, ch) { break; }
      end := end - 1;
    }
    kept, cut := raw[..end], raw[end..];
  }

  /** The kept part is the longest prefix that does not end in something strippable. */
  lemma KeptIsLongest(raw: string, p: string)
    ensures p == Kept(raw) <==>
            && |p| <= |raw| && p == raw[..|p|] && !EndsStrippable(p)
            && (forall q :: |p| < |q| <= |raw| && q == raw[..|q|] ==> EndsStrippable(q))
  {
    var k := Kept(raw);
    KeptEnds(raw);
    if |p| <= |raw| && p == raw[..|p|] && !EndsStrippable(p)
       && forall q :: |p| < |q| <= |raw| && q == raw[..|q|] ==> EndsStrippable(q)
    {
      assert |k| <= |p|;
      assert |p| <= |k|;
    }
  }

  lemma KeptIdempotent(raw: string)
    ensures Kept(Kept(raw)) == Kept(raw)
  {
    KeptEnds(raw);
  }

  /** A closing bracket after a match is cut iff no bracket of its type is pending. */
  lemma CloserIsCutIff(raw: string, closer: char)
    requires IsCloser(closer)
    ensures Kept(raw + [closer]) == Kept(raw) <==> Count(raw, OpenerOf(closer)) <= Count(raw, closer)
  {
    StepKept(raw, closer);
    assert (raw + [closer])[..|raw|] == raw;
  }

  /** Sentence punctuation, and closers of a type with nothing pending in `raw`. */
  ghost predicate IsSentenceTail(raw: string, tail: string) {
    forall i :: 0 <= i < |tail| ==>
      IsPunctuation(tail[i]) || (IsCloser(tail[i]) && Count(raw, OpenerOf(tail[i])) <= Count(raw, tail[i]))
  }

  lemma SentenceTailParts(raw: string, front: string, c: char)
    requires IsSentenceTail(raw, front + [c])
    ensures IsSentenceTail(raw, front) && IsSentenceTail(raw, [c])
  {
    assert forall i :: 0 <= i < |front| ==> (front + [c])[i] == front[i];
    assert (front + [c])[|front|] == [c][0];
  }

  /** Such a tail never changes what is kept. */
  lemma {:induction false} TailIsCut(raw: string, tail: string)
    requires IsSentenceTail(raw, tail)
    ensures Kept(raw + tail) == Kept(raw)
  {
    if tail == "" {
      assert raw + tail == raw;
    } else {
      var front, c := tail[..|tail| - 1], tail[|tail| - 1];
      assert tail == front + [c] && raw + tail == (raw + front) + [c];
      SentenceTailParts(raw, front, c);
      TailIsCut(raw, front);
      TailEndIsCut(raw, front, c);
    }
  }

  lemma TailEndIsCut(raw: string, front: string, c: char)
    requires IsSentenceTail(raw, front) && IsSentenceTail(raw, [c])
    ensures Kept(raw + front + [c]) == Kept(raw + front)
  {
    assert [c][0] == c;
    if IsPunctuation(c) {
      StepKept(raw + front, c);
    } else {
      NothingPending(raw, front, c);
      CloserIsCutIff(raw + front, c);
    }
  }

  lemma NothingPending(raw: string, front: string, closer: char)
    requires IsCloser(closer) && Count(raw, OpenerOf(closer)) <= Count(raw, closer)
    requires IsSentenceTail(raw, front)
    ensures Count(raw + front, OpenerOf(closer)) <= Count(raw + front, closer)
  {
    CountAppend(raw, front, closer);
    CountAppend(raw, front, OpenerOf(closer));
    NoneCounted(front, OpenerOf(closer));
  }

  // ---------------------------------------------------------------- one URL

  datatype Url = Url(origin: string, host: string, hostname: string, username: string,
                     password: string, search: string, hash: string, pathname: string)

  type Parser = string -> Option<Url>

  /** A path segment that looks like an embedded credential. */
  predicate IsCredentialLikeSegment(segment: string) {
    && |segment| >= 20
    && (forall c :: c in segment ==> IsLetter(c) || IsDigit(c) || c == '_' || c == '-')
    && (exists c :: c in segment && IsDigit(c))
    && (exists c :: c in segment && IsLetter(c))
  }

  predicate IsLetter(c: char) { IsLowerLetter(c) || IsUpperLetter(c) }

  predicate CarriesSecrets(url: Url) {
    || url.username != "" || url.password != ""
    || url.search != "" || url.hash != ""
    || exists segment :: segment in Split(url.pathname, "/") && IsCredentialLikeSegment(segment)
  }

  predicate IsInternal(url: Url, internalOrigins: seq<string>) {
    Lower(url.origin) in internalOrigins || IsPrivateHostname(url.hostname)
  }

  function SanitizeUrl(raw: string, parse: Parser, internalOrigins: seq<string>, keepNetwork: bool): string {
    var candidate := Kept(raw);
    var trailing := raw[|candidate|..];
    match parse(candidate)
    case None => "[redacted-url]" + trailing
    case Some(url) =>
      if !keepNetwork && IsInternal(url, internalOrigins) then "[internal-url]" + trailing
      else if CarriesSecrets(url) then url.origin + "/[redacted]" + trailing
      else candidate + trailing
  }

  /** The URL may be shown as it is. */
  predicate IsShown(raw: string, parse: Parser, internalOrigins: seq<string>, keepNetwork: bool) {
    match parse(Kept(raw))
    case None => false
    case Some(url) => !CarriesSecrets(url) && (keepNetwork || !IsInternal(url, internalOrigins))
  }

  /** All a parse may reveal of a URL that is not shown: whether it is internal, and its origin. */
  function Residue(raw: string, parse: Parser, internalOrigins: seq<string>, keepNetwork: bool): Option<string> {
    match parse(Kept(raw))
    case None => None
    case Some(url) => if !keepNetwork && IsInternal(url, internalOrigins) then Some("") else Some(url.origin + "/")
  }

  /** What stands in front of the trailing text when the URL is hidden. */
  ghost predicate IsHiddenForm(head: string, candidate: string, parse: Parser) {
    || head == "[redacted-url]" || head == "[internal-url]"
    || (parse(candidate).Some? && head == parse(candidate).value.origin + "/[redacted]")
  }

  /**
    A URL that may not be shown is answered by one of the three hidden forms and its trailing
    text. So a match is echoed iff it may be shown, up to a kept part that is itself a hidden
    form; all of these end in a bracket.
   */
  lemma EchoedIffShown(raw: string, parse: Parser, origins: seq<string>, keep: bool)
    ensures IsShown(raw, parse, origins, keep) ==> SanitizeUrl(raw, parse, origins, keep) == raw
    ensures !IsShown(raw, parse, origins, keep) ==>
              exists head :: IsHiddenForm(head, Kept(raw), parse)
                && SanitizeUrl(raw, parse, origins, keep) == head + raw[|Kept(raw)|..]
    ensures Kept(raw) == "" || Kept(raw)[|Kept(raw)| - 1] != ']' ==>
              (SanitizeUrl(raw, parse, origins, keep) == raw <==> IsShown(raw, parse, origins, keep))
  {
    var c, z := Kept(raw), raw[|Kept(raw)|..];
    assert raw == c + z;
    if !IsShown(raw, parse, origins, keep) {
      var head := HiddenHead(raw, parse, origins, keep);
      if head + z == raw {
        assert head == (head + z)[..|head|] && |head| == |c|;
        assert c == head;
      }
    }
  }

  lemma HiddenHead(raw: string, parse: Parser, origins: seq<string>, keep: bool) returns (head: string)
    requires !IsShown(raw, parse, origins, keep)
    ensures IsHiddenForm(head, Kept(raw), parse) && head != "" && head[|head| - 1] == ']'
    ensures SanitizeUrl(raw, parse, origins, keep) == head + raw[|Kept(raw)|..]
  {
    match parse(Kept(raw))
    case None => head := "[redacted-url]";
    case Some(url) =>
      if !keep && IsInternal(url, origins) {
        head := "[internal-url]";
      } else {
        head := url.origin + "/[redacted]";
        assert head[|head| - 1] == "/[redacted]"[10];
      }
  }

  /**
    Two URLs that are hidden, have the same residue and the same trailing text get the same
    answer: user info, path, query and fragment cannot reach the output.
   */
  lemma HiddenUrlsRevealOnlyResidue(raw: string, other: string, parse: Parser, origins: seq<string>, keep: bool)
    requires !IsShown(raw, parse, origins, keep) && !IsShown(other, parse, origins, keep)
    requires Residue(raw, parse, origins, keep) == Residue(other, parse, origins, keep)
    requires raw[|Kept(raw)|..] == other[|Kept(other)|..]
    ensures SanitizeUrl(raw, parse, origins, keep) == SanitizeUrl(other, parse, origins, keep)
  {
    if parse(Kept(raw)).Some? && parse(Kept(other)).Some? {
      var a, b := parse(Kept(raw)).value, parse(Kept(other)).value;
      if a.origin + "/" == b.origin + "/" {
        assert a.origin == (a.origin + "/")[..|a.origin|] && b.origin == (b.origin + "/")[..|b.origin|];
      }
    }
  }

  // ---------------------------------------------------------------- private hosts

  function StripBrackets(s: string): string {
    var t := if s != "" && s[0] == '[' then s[1..] else s;
    if t != "" && t[|t| - 1] == ']' then t[..|t| - 1] else t
  }

  predicate EndsWith(s: string, suffix: string) {
    |suffix| <= |s| && s[|s| - |suffix|..] == suffix
  }

  predicate IsNumber(part: string) {
    part != "" && forall c :: c in part ==> IsDigit(c)
  }

  /** `1[6-9]|2\d|3[01]` */
  predicate Is16To31(part: string) {
    && |part| == 2
    && (|| (part[0] == '1' && '6' <= part[1] <= '9')
        || (part[0] == '2' && IsDigit(part[1]))
        || (part[0] == '3' && (part[1] == '0' || part[1] == '1')))
  }

  /** The anchored IPv4 patterns, read label by part. */
  predicate IsPrivateQuadText(h: string) {
    var labels := Split(h, ".");
    && |labels| == 4 && IsNumber(labels[2]) && IsNumber(labels[3])
    && (|| (labels[0] in ["127", "10"] && IsNumber(labels[1]))
        || (labels[0] == "192" && labels[1] == "168")
        || (labels[0] == "169" && labels[1] == "254")
        || (labels[0] == "172" && Is16To31(labels[1])))
  }

  predicate HasPrivateSuffix(h: string) {
    EndsWith(h, ".internal") || EndsWith(h, ".local") || EndsWith(h, ".lan") || EndsWith(h, ".svc")
    || EndsWith(h, ".cluster.local")
  }

  predicate IsPrivateHostname(hostname: string) {
    var h := StripBrackets(Lower(hostname));
    if h == "localhost" || EndsWith(h, ".localhost") then true
    else if h == "::1" || h == "0.0.0.0" then true
    else if IsPrivateQuadText(h) then true
    else if HasPrivateSuffix(h) then true
    else '.' !in h && ':' !in h
  }

  /** The canonical dotted quad. */
  function Quad(a: nat, b: nat, c: nat, d: nat): string {
    Join([Decimal(a), Decimal(b), Decimal(c), Decimal(d)], ".")
  }

  function Address(a: nat, b: nat, c: nat, d: nat): nat {
    ((a * 256 + b) * 256 + c) * 256 + d
  }

  /** 10/8, 172.16/12, 192.168/16, 127/8, 169.254/16 or the unspecified address. */
  predicate IsPrivateAddress(ip: nat) {
    || ip / 0x100_0000 == 10
    || ip / 0x10_0000 == 172 * 16 + 1
    || ip / 0x1_0000 == 192 * 256 + 168
    || ip / 0x100_0000 == 127
    || ip / 0x1_0000 == 169 * 256 + 254
    || ip == 0
  }

  lemma PrivateByOctets(a: nat, b: nat, c: nat, d: nat)
    requires a < 256 && b < 256 && c < 256 && d < 256
    ensures IsPrivateAddress(Address(a, b, c, d)) <==>
            || a == 10 || a == 127 || (a == 172 && 16 <= b < 32) || (a == 192 && b == 168)
            || (a == 169 && b == 254) || (a == 0 && b == 0 && c == 0 && d == 0)
  {
    var ip := Address(a, b, c, d);
    assert ip / 0x100_0000 == a;
    assert ip / 0x1_0000 == a * 256 + b;
    assert ip / 0x10_0000 == a * 16 + b / 16;
  }

  lemma DigitsHoldNoDot(n: nat)
    ensures IndexOf(Decimal(n) + ".", ".") == Some(|Decimal(n)|) && !Contains(Decimal(n), ".")
  {
    var l := Decimal(n);
    forall i: nat | i < |l| ensures !OccursAt(l + ".", ".", i) && !OccursAt(l, ".", i) {
      assert l[i] in l;
      assert (l + ".")[i..i + 1] == [l[i]] == l[i..i + 1];
    }
    assert OccursAt(l + ".", ".", |l|);
  }

  lemma QuadLabels(a: nat, b: nat, c: nat, d: nat)
    ensures Split(Quad(a, b, c, d), ".") == [Decimal(a), Decimal(b), Decimal(c), Decimal(d)]
  {
    DigitsHoldNoDot(a);
    DigitsHoldNoDot(b);
    DigitsHoldNoDot(c);
    DigitsHoldNoDot(d);
    SplitIsUnique(Quad(a, b, c, d), ".", [Decimal(a), Decimal(b), Decimal(c), Decimal(d)]);
  }

  lemma DecimalDigits(n: nat)
    requires n < 1000
    ensures n < 10 ==> Decimal(n) == [Digit(n)]
    ensures 10 <= n < 100 ==> Decimal(n) == [Digit(n / 10), Digit(n % 10)]
    ensures 100 <= n ==> Decimal(n) == [Digit(n / 100), Digit(n / 10 % 10), Digit(n % 10)]
  {
    if n >= 100 {
      assert Decimal(n) == Decimal(n / 10) + [Digit(n % 10)];
      assert Decimal(n / 10) == Decimal(n / 10 / 10) + [Digit(n / 10 % 10)];
      assert n / 10 / 10 == n / 100;
    }
  }

  lemma QuadTextIff(a: nat, b: nat, c: nat, d: nat)
    requires a < 256 && b < 256
    ensures IsPrivateQuadText(Quad(a, b, c, d)) <==>
            || a == 10 || a == 127 || (a == 172 && 16 <= b < 32) || (a == 192 && b == 168) || (a == 169 && b == 254)
  {
    QuadLabels(a, b, c, d);
    FirstOctet(a);
    SecondOctet(b);
  }

  /** The text test and numeric block membership agree on every canonical dotted quad. */
  lemma PrivateQuadIff(a: nat, b: nat, c: nat, d: nat)
    requires a < 256 && b < 256 && c < 256 && d < 256
    ensures IsPrivateHostname(Quad(a, b, c, d)) <==> IsPrivateAddress(Address(a, b, c, d))
  {
    PrivateByOctets(a, b, c, d);
    QuadTextIff(a, b, c, d);
    QuadShape(a, b, c, d);
    QuadIsZero(a, b, c, d);
    HostTestOnQuad(Quad(a, b, c, d));
  }

  lemma HostTestOnQuad(h: string)
    requires '.' in h && StripBrackets(Lower(h)) == h
    requires !EndsWith(h, ".localhost") && !HasPrivateSuffix(h) && h != "localhost" && h != "::1"
    ensures IsPrivateHostname(h) <==> h == "0.0.0.0" || IsPrivateQuadText(h)
  {
  }

  lemma QuadChars(a: nat, b: nat, c: nat, d: nat)
    ensures var h := Quad(a, b, c, d);
            && h == Decimal(a) + "." + (Decimal(b) + "." + (Decimal(c) + "." + Decimal(d)))
            && |h| > 6 && IsDigit(h[0]) && IsDigit(h[|h| - 1]) && '.' in h
            && forall i :: 0 <= i < |h| ==> IsDigit(h[i]) || h[i] == '.'
  {
    var w, x, y, z := Decimal(a), Decimal(b), Decimal(c), Decimal(d);
    var labels := [w, x, y, z];
    assert labels[1..] == [x, y, z] && labels[1..][1..] == [y, z] && labels[1..][1..][1..] == [z];
    assert Join([z], ".") == z && Join([y, z], ".") == y + "." + z;
    assert Join([x, y, z], ".") == x + "." + (y + "." + z);
    var h := w + "." + (x + "." + (y + "." + z));
    assert h == Quad(a, b, c, d);
    assert forall c :: c in h ==> c in w || c in x || c in y || c in z || c == '.';
    assert forall i :: 0 <= i < |h| ==> h[i] in h;
    assert h[0] == w[0] && h[|h| - 1] == z[|z| - 1] && h[|w|] == '.';
  }

  lemma QuadShape(a: nat, b: nat, c: nat, d: nat)
    ensures var h := Quad(a, b, c, d);
            && '.' in h && StripBrackets(Lower(h)) == h
            && !EndsWith(h, ".localhost") && !HasPrivateSuffix(h)
            && h != "localhost" && h != "::1"
  {
    QuadChars(a, b, c, d);
    var h := Quad(a, b, c, d);
    assert Lower(h) == h;
    NoLetterSuffix(h, ".localhost");
    NoLetterSuffix(h, ".internal");
    NoLetterSuffix(h, ".local");
    NoLetterSuffix(h, ".lan");
    NoLetterSuffix(h, ".svc");
    NoLetterSuffix(h, ".cluster.local");
  }

  lemma NoLetterSuffix(h: string, suffix: string)
    requires h != "" && suffix != "" && h[|h| - 1] != suffix[|suffix| - 1]
    ensures !EndsWith(h, suffix)
  {
    assert |suffix| <= |h| ==> h[|h| - |suffix|..][|suffix| - 1] == h[|h| - 1];
  }

  lemma QuadIsZero(a: nat, b: nat, c: nat, d: nat)
    ensures Quad(a, b, c, d) == "0.0.0.0" <==> a == 0 && b == 0 && c == 0 && d == 0
  {
    assert Quad(0, 0, 0, 0) == "0.0.0.0" by {
      var labels := ["0", "0", "0", "0"];
      assert labels[1..][1..][1..] == ["0"];
      assert Join(labels, ".") == "0" + "." + ("0" + "." + ("0" + "." + "0"));
    }
    QuadLabels(a, b, c, d);
    QuadLabels(0, 0, 0, 0);
    DecimalInjective(a, 0);
    DecimalInjective(b, 0);
    DecimalInjective(c, 0);
    DecimalInjective(d, 0);
  }

  lemma FirstOctet(a: nat)
    requires a < 256
    ensures Decimal(a) == "127" <==> a == 127
    ensures Decimal(a) == "10" <==> a == 10
    ensures Decimal(a) == "192" <==> a == 192
    ensures Decimal(a) == "169" <==> a == 169
    ensures Decimal(a) == "172" <==> a == 172
  {
    DecimalDigits(a);
  }

  lemma SecondOctet(b: nat)
    requires b < 256
    ensures Is16To31(Decimal(b)) <==> 16 <= b < 32
    ensures Decimal(b) == "168" <==> b == 168
    ensures Decimal(b) == "254" <==> b == 254
  {
    DecimalDigits(b);
  }

  lemma {:induction false} HostDecides(raw: string, parse: Parser, url: Url, origins: seq<string>)
    requires parse(Kept(raw)) == Some(url) && Lower(url.origin) !in origins
    ensures SanitizeUrl(raw, parse, origins, false) ==
              if IsPrivateHostname(url.hostname) then "[internal-url]" + raw[|Kept(raw)|..]
              else SanitizeUrl(raw, parse, origins, true)
    ensures SanitizeUrl(raw, parse, origins, true) ==
              if CarriesSecrets(url) then url.origin + "/[redacted]" + raw[|Kept(raw)|..] else raw
  {
    assert raw == Kept(raw) + raw[|Kept(raw)|..];
  }

  /**
    A URL whose host is a canonical dotted quad is hidden as internal iff the address is in
    a private block, unless its origin is listed or network locations are kept; otherwise it
    is answered like any other URL.
   */
  lemma QuadUrlIsInternalIff(raw: string, parse: Parser, url: Url, origins: seq<string>, a: nat, b: nat, c: nat, d: nat)
    requires a < 256 && b < 256 && c < 256 && d < 256
    requires parse(Kept(raw)) == Some(url) && url.hostname == Quad(a, b, c, d)
    requires Lower(url.origin) !in origins
    ensures SanitizeUrl(raw, parse, origins, false) ==
              if IsPrivateAddress(Address(a, b, c, d)) then "[internal-url]" + raw[|Kept(raw)|..]
              else if CarriesSecrets(url) then url.origin + "/[redacted]" + raw[|Kept(raw)|..]
              else raw
  {
    HostDecides(raw, parse, url, origins);
    PrivateQuadIff(a, b, c, d);
  }
}
