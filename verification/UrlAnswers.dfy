/**
  What the URL rule answers, told from the characters of the match and the fields of the
  parsed URL alone.
 */
module UrlAnswers {
  import opened Strings
  import opened Urls

  // ---------------------------------------------------------------- trailing text

  lemma {:induction false} CountIsNumber(s: string, c: char)
    ensures Count(s, c) == multiset(s)[c]
  {
    if s != "" {
      CountIsNumber(s[..|s| - 1], c);
      assert s == s[..|s| - 1] + [s[|s| - 1]];
    }
  }

  /** The text ends in sentence punctuation, or in a bracket that closes more than was opened. */
  predicate EndsLoose(p: string) {
    && p != ""
    && var last := p[|p| - 1];
       || last in ".,;:!?"
       || (last == ')' && multiset(p)[')'] > multiset(p)['('])
       || (last == ']' && multiset(p)[']'] > multiset(p)['['])
       || (last == '}' && multiset(p)['}'] > multiset(p)['{'])
  }

  lemma EndsLooseIff(p: string)
    ensures EndsLoose(p) <==> EndsStrippable(p)
  {
    CountIsNumber(p, '(');
    CountIsNumber(p, ')');
    CountIsNumber(p, '[');
    CountIsNumber(p, ']');
    CountIsNumber(p, '{');
    CountIsNumber(p, '}');
  }

  /** What is kept of a match is its longest prefix that does not end like that. */
  lemma KeptIsLongestTight(raw: string, n: nat)
    requires n <= |raw|
    ensures raw[..n] == Kept(raw) <==>
            !EndsLoose(raw[..n]) && forall k :: n < k <= |raw| ==> EndsLoose(raw[..k])
  {
    KeptEnds(raw);
    forall k | 0 <= k <= |raw| ensures EndsLoose(raw[..k]) <==> EndsStrippable(raw[..k]) { EndsLooseIff(raw[..k]); }
    var m := |Kept(raw)|;
    assert raw[..m] == Kept(raw);
    if !EndsLoose(raw[..n]) && forall k :: n < k <= |raw| ==> EndsLoose(raw[..k]) {
      assert m <= n;
      assert n <= m;
    }
  }

  // ---------------------------------------------------------------- pieces between separators

  /** `text[i..j]` lies between separators or the ends of the text, and holds none. */
  predicate IsStretch(text: string, c: char, i: int, j: int) {
    && 0 <= i <= j <= |text| && c !in text[i..j]
    && (i == 0 || text[i - 1] == c) && (j == |text| || text[j] == c)
  }

  /** The first place of a character, if it has one. */
  lemma FirstPlace(text: string, c: char) returns (n: nat)
    ensures n <= |text| && c !in text[..n] && (n < |text| ==> text[n] == c)
  {
    n := 0;
    while n < |text| && text[n] != c
      invariant n <= |text| && c !in text[..n]
    {
      assert text[..n + 1] == text[..n] + [text[n]];
      n := n + 1;
    }
  }

  lemma SplitNone(text: string, c: char)
    requires c !in text
    ensures Split(text, [c]) == [text]
  {
    IndexOfChar(text, c);
    assert IndexOf(text, [c]).Some? ==> c in text;
  }

  lemma SplitAtFirst(text: string, c: char, n: nat)
    requires n < |text| && text[n] == c && c !in text[..n]
    ensures Split(text, [c]) == [text[..n]] + Split(text[n + 1..], [c])
  {
    FirstIndex(text, c, n);
    assert n + |[c]| == n + 1;
  }

  lemma FirstIndex(text: string, c: char, n: nat)
    requires n < |text| && text[n] == c && c !in text[..n]
    ensures IndexOf(text, [c]) == Some(n)
  {
    assert text[n..n + 1] == [c];
    forall j: nat | j < n ensures !OccursAt(text, [c], j) {
      assert text[j] in text[..n];
      assert text[j..j + 1][0] == text[j];
    }
    FirstAt(text, [c], n);
  }

  lemma {:induction false} PieceIsStretch(text: string, c: char, p: string) returns (i: nat, j: nat)
    requires p in Split(text, [c])
    ensures IsStretch(text, c, i, j) && p == text[i..j]
    decreases |text|
  {
    var n := FirstPlace(text, c);
    if PieceIsFront(text, c, n, p) {
      FrontIsStretch(text, c, n);
      i, j := 0, n;
    } else {
      var a, b := PieceIsStretch(text[n + 1..], c, p);
      i, j := a + n + 1, b + n + 1;
      StretchOfRest(text, c, n, a, b, i, j);
    }
  }

  /** A piece is the front or one of the rest. */
  predicate PieceIsFront(text: string, c: char, n: nat, p: string)
    requires n <= |text| && c !in text[..n] && (n < |text| ==> text[n] == c) && p in Split(text, [c])
    ensures PieceIsFront(text, c, n, p) ==> p == text[..n]
    ensures !PieceIsFront(text, c, n, p) ==> n < |text| && p in Split(text[n + 1..], [c])
  {
    if n == |text| then
      assert text[..n] == text;
      SplitNone(text, c);
      true
    else
      SplitAtFirst(text, c, n);
      p == text[..n]
  }

  lemma FrontIsStretch(text: string, c: char, n: nat)
    requires n <= |text| && c !in text[..n] && (n < |text| ==> text[n] == c)
    ensures IsStretch(text, c, 0, n) && text[0..n] == text[..n]
  {
  }

  /** Behind a separator the stretches of a text are those of the rest. */
  lemma StretchOfRest(text: string, c: char, n: nat, a: nat, b: nat, i: nat, j: nat)
    requires n < |text| && text[n] == c && i == a + n + 1 && j == b + n + 1 && a <= b
    ensures IsStretch(text, c, i, j) <==> IsStretch(text[n + 1..], c, a, b)
    ensures j <= |text| ==> text[n + 1..][a..b] == text[i..j]
  {
    if j <= |text| {
      assert text[n + 1..][a..b] == text[i..j];
      assert a > 0 ==> text[n + 1..][a - 1] == text[i - 1];
    }
  }

  lemma {:induction false} NoneIn(s: string, c: char)
    requires Count(s, c) == 0
    ensures c !in s
  {
    CountIsNumber(s, c);
  }

  lemma NoneBetween(text: string, c: char, i: nat, j: nat, k: int)
    requires i <= j <= |text| && c !in text[i..j]
    ensures i <= k < j ==> text[k] != c
  {
    if i <= k < j { assert text[k] == text[i..j][k - i]; }
  }

  lemma {:induction false} StretchIsPiece(text: string, c: char, i: nat, j: nat)
    requires IsStretch(text, c, i, j)
    ensures text[i..j] in Split(text, [c])
    decreases |text|
  {
    var n := FirstPlace(text, c);
    if n == |text| {
      assert text[..n] == text;
      SplitNone(text, c);
      NoneBetween(text, c, 0, n, i - 1);
      NoneBetween(text, c, 0, n, j);
      assert text[i..j] == text;
    } else {
      SplitAtFirst(text, c, n);
      if i <= n {
        NoneBetween(text, c, 0, n, i - 1);
        NoneBetween(text, c, i, j, n);
        NoneBetween(text, c, 0, n, j);
        assert i == 0 && j == n;
      } else {
        var a, b := i - n - 1, j - n - 1;
        StretchOfRest(text, c, n, a, b, i, j);
        StretchIsPiece(text[n + 1..], c, a, b);
      }
    }
  }

  // ---------------------------------------------------------------- credentials in a URL

  predicate IsKeyChar(c: char) {
    'a' <= c <= 'z' || 'A' <= c <= 'Z' || '0' <= c <= '9' || c == '_' || c == '-'
  }

  /** At least twenty letters, digits, `_` and `-`, a letter and a digit among them. */
  predicate LooksLikeKey(s: string) {
    && |s| >= 20
    && (forall k :: 0 <= k < |s| ==> IsKeyChar(s[k]))
    && (exists k :: 0 <= k < |s| && '0' <= s[k] <= '9')
    && (exists k :: 0 <= k < |s| && ('a' <= s[k] <= 'z' || 'A' <= s[k] <= 'Z'))
  }

  /** The path holds such a stretch between slashes or its ends. */
  predicate HoldsKey(path: string) {
    exists i, j :: 0 <= i <= j <= |path| && IsStretch(path, '/', i, j) && LooksLikeKey(path[i..j])
  }

  lemma KeyIff(s: string)
    ensures LooksLikeKey(s) <==> IsCredentialLikeSegment(s)
  {
    assert forall k :: 0 <= k < |s| ==> s[k] in s;
  }

  lemma HoldsKeyIff(path: string)
    ensures HoldsKey(path) <==> exists x :: x in Split(path, "/") && IsCredentialLikeSegment(x)
  {
    var pieces := Split(path, "/");
    if HoldsKey(path) {
      var i, j :| 0 <= i <= j <= |path| && IsStretch(path, '/', i, j) && LooksLikeKey(path[i..j]);
      StretchIsPiece(path, '/', i, j);
      KeyIff(path[i..j]);
    }
    if x :| x in pieces && IsCredentialLikeSegment(x) {
      var i, j := PieceIsStretch(path, '/', x);
      KeyIff(x);
    }
  }

  /** A user name, a password, a query, a fragment, or a key in the path. */
  predicate HoldsSecret(url: Url) {
    |url.username| > 0 || |url.password| > 0 || |url.search| > 0 || |url.hash| > 0 || HoldsKey(url.pathname)
  }

  /**
    Every answer, from the fields: no parse gives the marker; an internal URL the internal
    marker, unless network locations are kept; one that holds a secret its origin and the
    inserted text; any other is echoed. The trailing text follows.
   */
  lemma AnswerByFields(raw: string, parse: Parser, origins: seq<string>, keep: bool)
    ensures var candidate := Kept(raw);
            var tail := raw[|candidate|..];
            SanitizeUrl(raw, parse, origins, keep) ==
              match parse(candidate)
              case None => "[redacted-url]" + tail
              case Some(url) =>
                if !keep && (Lower(url.origin) in origins || IsPrivateHostname(url.hostname))
                then "[internal-url]" + tail
                else if HoldsSecret(url) then url.origin + "/[redacted]" + tail
                else raw
  {
    assert raw == Kept(raw) + raw[|Kept(raw)|..];
    if parse(Kept(raw)).Some? { HoldsKeyIff(parse(Kept(raw)).value.pathname); }
  }

  // ---------------------------------------------------------------- private hosts

  /** The last label of a name with several. */
  lemma {:induction false} LastLabelIff(h: string, w: string)
    requires '.' !in w
    ensures var labels := Split(h, "."); EndsWith(h, "." + w) <==> |labels| > 1 && labels[|labels| - 1] == w
    decreases |h|
  {
    IndexOfChar(h, '.');
    match IndexOf(h, ".")
    case None =>
      NoneIn(h, '.');
      EndHoldsDot(h, w);
    case Some(n) =>
      var rest := h[n + 1..];
      LastLabelIff(rest, w);
      EndOfRest(h, n, w);
      NoSeparatorLeft(rest, w);
  }

  lemma EndHoldsDot(h: string, w: string)
    ensures EndsWith(h, "." + w) ==> '.' in h
  {
    if EndsWith(h, "." + w) { assert h[|h| - |w| - 1] == ("." + w)[0]; }
  }

  /** The end after the first dot. */
  lemma EndOfRest(h: string, n: nat, w: string)
    requires n < |h| && h[n] == '.' && Count(h[..n], '.') == 0 && '.' !in w
    ensures EndsWith(h, "." + w) <==> h[n + 1..] == w || EndsWith(h[n + 1..], "." + w)
  {
    NoneIn(h[..n], '.');
    var k := |h| - |w| - 1;
    if k >= 0 {
      assert h[k..] == [h[k]] + h[k + 1..];
      assert ("." + w)[0] == '.' && ("." + w)[1..] == w;
      assert k < n ==> h[k] == h[..n][k];
      assert k > n ==> h[n + 1..][k - n - 1..] == h[k..];
    }
  }

  lemma NoSeparatorLeft(h: string, w: string)
    requires '.' !in w
    ensures h == w ==> Split(h, ".") == [w]
    ensures |Split(h, ".")| == 1 ==> Split(h, ".")[0] == h
  {
    IndexOfChar(h, '.');
  }

  predicate AllDigits(s: string) { s != "" && forall i :: 0 <= i < |s| ==> '0' <= s[i] <= '9' }

  /** Four labels of a private block, the last two any numbers. */
  predicate IsPrivateBlock(labels: seq<string>) {
    && |labels| == 4 && AllDigits(labels[2]) && AllDigits(labels[3])
    && (|| (labels[0] == "10" && AllDigits(labels[1])) || (labels[0] == "127" && AllDigits(labels[1]))
        || (labels[0] == "192" && labels[1] == "168") || (labels[0] == "169" && labels[1] == "254")
        || (labels[0] == "172" && IsDecimalText(labels[1]) && 16 <= ParseDecimal(labels[1]) < 32))
  }

  lemma TwoDigits(s: string)
    ensures Is16To31(s) <==> IsDecimalText(s) && 16 <= ParseDecimal(s) < 32
  {
    if IsDecimalText(s) {
      DecimalIff(ParseDecimal(s), s);
      if ParseDecimal(s) < 1000 { DecimalDigits(ParseDecimal(s)); } else { LongIsLarge(ParseDecimal(s)); }
    }
    if |s| == 2 {
      assert s[..1] == [s[0]] && s[..1][..0] == "";
      assert ParseDecimal(s) == 10 * ParseDecimal(s[..1]) + if IsDigit(s[1]) then s[1] as int - '0' as int else 0;
    }
  }

  lemma LongIsLarge(n: nat)
    requires n >= 1000
    ensures |Decimal(n)| > 2
  {
    assert |Decimal(n / 10 / 10)| > 0;
  }

  lemma BlockIff(h: string)
    ensures IsPrivateBlock(Split(h, ".")) <==> IsPrivateQuadText(h)
  {
    var labels := Split(h, ".");
    if |labels| == 4 {
      TwoDigits(labels[1]);
      DigitsIff(labels[1]);
      DigitsIff(labels[2]);
      DigitsIff(labels[3]);
    }
  }

  lemma DigitsIff(s: string)
    ensures AllDigits(s) <==> IsNumber(s)
  {
    assert forall i :: 0 <= i < |s| ==> s[i] in s;
  }

  predicate IsReservedLabel(w: string) {
    w == "localhost" || w == "internal" || w == "local" || w == "lan" || w == "svc"
  }

  /** A name counts as internal by its labels: a single one, a reserved last one, or a private block. */
  predicate IsInternalName(h: string) {
    var labels := Split(h, ".");
    || (|labels| == 1 && ':' !in h)
    || (|labels| > 1 && IsReservedLabel(labels[|labels| - 1]))
    || IsPrivateBlock(labels) || h == "0.0.0.0" || h == "::1"
  }

  /** The host test, for every name without outer brackets, in any case. */
  lemma PrivateHostIff(host: string)
    requires host == "" || (host[0] != '[' && host[|host| - 1] != ']')
    ensures IsPrivateHostname(host) <==> IsInternalName(Lower(host))
  {
    var h := Lower(host);
    assert StripBrackets(h) == h;
    TestOfName(host, h);
    BlockIff(h);
    SingleLabelIff(h);
    ReservedLabelIff(h);
  }

  lemma TestOfName(host: string, h: string)
    requires h == Lower(host) == StripBrackets(h)
    ensures IsPrivateHostname(host) <==>
            || ('.' !in h && ':' !in h) || (EndsWith(h, ".localhost") || HasPrivateSuffix(h))
            || IsPrivateQuadText(h) || h == "0.0.0.0" || h == "::1"
  {
    assert h == "localhost" ==> '.' !in h && ':' !in h;
  }

  lemma SingleLabelIff(h: string)
    ensures '.' !in h <==> |Split(h, ".")| == 1
  {
    SplitLength(h, '.');
    CountIsNumber(h, '.');
  }

  lemma ReservedLabelIff(h: string)
    ensures EndsWith(h, ".localhost") || HasPrivateSuffix(h) <==>
            var labels := Split(h, ".");
            |labels| > 1 && IsReservedLabel(labels[|labels| - 1])
  {
    LastLabelIff(h, "localhost");
    LastLabelIff(h, "internal");
    LastLabelIff(h, "local");
    LastLabelIff(h, "lan");
    LastLabelIff(h, "svc");
    ClusterIsLocal(h);
    assert "." + "localhost" == ".localhost" && "." + "internal" == ".internal" && "." + "local" == ".local";
    assert "." + "lan" == ".lan" && "." + "svc" == ".svc";
  }

  lemma ClusterIsLocal(h: string)
    ensures EndsWith(h, ".cluster.local") ==> EndsWith(h, ".local")
  {
    if EndsWith(h, ".cluster.local") {
      assert ".cluster.local"[8..] == ".local";
      assert h[|h| - 6..] == h[|h| - 14..][8..];
    }
  }

  /** An IPv6 host is tested without its brackets. */
  lemma BracketsAreDropped(x: string)
    requires x == "" || (x[0] != '[' && x[|x| - 1] != ']')
    ensures IsPrivateHostname("[" + x + "]") <==> IsPrivateHostname(x)
  {
    var h := Lower("[" + x + "]");
    assert h == "[" + Lower(x) + "]";
    assert StripBrackets(h) == Lower(x) == StripBrackets(Lower(x));
  }
}
