/**
  A reader of JSON texts (RFC 8259), and the round trip: what `JSON.stringify(value, null, 2)`
  prints of a sanitized value reads back as that value.
 */
module JsonReader {
  import opened Strings
  import opened SanitizeValue
  import opened JsonText

  // ---------------------------------------------------------------- the reader

  predicate IsGap(c: char) { c == ' ' || c == '\n' || c == '\t' || c == '\r' }

  function SkipGaps(s: string): (r: string)
    ensures |r| <= |s|
  {
    if s != "" && IsGap(s[0]) then SkipGaps(s[1..]) else s
  }

  function HexValue(c: char): (r: Option<nat>)
    ensures r.Some? ==> r.value < 16
  {
    if IsDigit(c) then Some(c as int - '0' as int)
    else if 'a' <= c <= 'f' then Some(c as int - 'a' as int + 10)
    else if 'A' <= c <= 'F' then Some(c as int - 'A' as int + 10)
    else None
  }

  /** The four digits of a `\u` escape below the surrogates. */
  function ReadCode(s: string): (r: Option<char>) {
    if |s| < 4 || HexValue(s[0]).None? || HexValue(s[1]).None? || HexValue(s[2]).None? || HexValue(s[3]).None?
    then None
    else
      var n := ((HexValue(s[0]).value * 16 + HexValue(s[1]).value) * 16 + HexValue(s[2]).value) * 16
               + HexValue(s[3]).value;
      if n < 0xD800 then Some(n as char) else None
  }

  /** The character after a backslash, and how many characters spell it. */
  function ReadEscape(s: string): (r: Option<(char, nat)>)
    ensures r.Some? ==> 0 < r.value.1 <= |s|
  {
    if s == "" then None
    else if s[0] == '\"' || s[0] == '\\' || s[0] == '/' then Some((s[0], 1))
    else if s[0] == 'b' then Some(('\U{08}', 1))
    else if s[0] == 'f' then Some(('\U{0C}', 1))
    else if s[0] == 'n' then Some(('\n', 1))
    else if s[0] == 'r' then Some(('\r', 1))
    else if s[0] == 't' then Some(('\t', 1))
    else if s[0] == 'u' then
      var code := ReadCode(s[1..]);
      if code.Some? then Some((code.value, 5)) else None
    else None
  }

  /** The text up to the closing quotation mark, and what follows that. */
  function ReadString(s: string): (r: Option<(string, string)>)
    ensures r.Some? ==> |r.value.1| < |s|
  {
    if s == "" || s[0] < ' ' then None
    else if s[0] == '\"' then Some(("", s[1..]))
    else
      var (c, rest) :=
        if s[0] != '\\' then (Some(s[0]), s[1..])
        else
          var e := ReadEscape(s[1..]);
          if e.Some? then (Some(e.value.0), s[1..][e.value.1..]) else (None, s[1..]);
      var more := ReadString(rest);
      if c.Some? && more.Some? then Some(([c.value] + more.value.0, more.value.1)) else None
  }

  predicate IsLiteralChar(c: char) {
    IsDigit(c) || IsLowerLetter(c) || IsUpperLetter(c) || c == '+' || c == '-' || c == '.'
  }

  function LiteralLength(s: string): (n: nat)
    ensures n <= |s|
  {
    if s != "" && IsLiteralChar(s[0]) then 1 + LiteralLength(s[1..]) else 0
  }

  function ReadValue(s: string): (r: Option<(Json, string)>)
    ensures r.Some? ==> |r.value.1| < |s|
    decreases |s|, 0
  {
    var t := SkipGaps(s);
    if t == "" then None
    else if t[0] == '\"' then
      var r := ReadString(t[1..]);
      if r.Some? then Some((JStr(r.value.0), r.value.1)) else None
    else if t[0] == '[' then
      var u := SkipGaps(t[1..]);
      if u != "" && u[0] == ']' then Some((JArr([]), u[1..]))
      else
        var r := ReadItems(u);
        if r.Some? then Some((JArr(r.value.0), r.value.1)) else None
    else if t[0] == '{' then
      var u := SkipGaps(t[1..]);
      if u != "" && u[0] == '}' then Some((JObj([]), u[1..]))
      else
        var r := ReadFields(u);
        if r.Some? then Some((JObj(r.value.0), r.value.1)) else None
    else
      var n := LiteralLength(t);
      if n > 0 then Some((JPlain(t[..n]), t[n..])) else None
  }

  /** Items up to the closing bracket. */
  function ReadItems(s: string): (r: Option<(seq<Json>, string)>)
    ensures r.Some? ==> |r.value.1| < |s|
    decreases |s|, 1
  {
    var first := ReadValue(s);
    if first.None? then None
    else
      var t := SkipGaps(first.value.1);
      if t == "" then None
      else if t[0] == ']' then Some(([first.value.0], t[1..]))
      else if t[0] != ',' then None
      else
        var more := ReadItems(t[1..]);
        if more.Some? then Some(([first.value.0] + more.value.0, more.value.1)) else None
  }

  /** A name, a colon and a value. */
  function ReadField(s: string): (r: Option<(Member, string)>)
    ensures r.Some? ==> |r.value.1| < |s|
    decreases |s|, 1
  {
    var t := SkipGaps(s);
    if t == "" || t[0] != '\"' then None
    else
      var name := ReadString(t[1..]);
      if name.None? then None
      else
        var u := SkipGaps(name.value.1);
        if u == "" || u[0] != ':' then None
        else
          var value := ReadValue(u[1..]);
          if value.Some? then Some((Member(name.value.0, value.value.0), value.value.1)) else None
  }

  /** Fields up to the closing brace. */
  function ReadFields(s: string): (r: Option<(seq<Member>, string)>)
    ensures r.Some? ==> |r.value.1| < |s|
    decreases |s|, 2
  {
    var first := ReadField(s);
    if first.None? then None
    else
      var t := SkipGaps(first.value.1);
      if t == "" then None
      else if t[0] == '}' then Some(([first.value.0], t[1..]))
      else if t[0] != ',' then None
      else
        var more := ReadFields(t[1..]);
        if more.Some? then Some(([first.value.0] + more.value.0, more.value.1)) else None
  }

  // ---------------------------------------------------------------- what a print keeps of a value

  /** Numbers that are not finite print as null, `undefined` is null in an array and no field in an object. */
  function Canon(j: Json): Json
    decreases j, 0
  {
    match j
    case JStr(t) => j
    case JPlain(t) => JPlain(if t == "NaN" || t == "Infinity" || t == "-Infinity" then "null" else t)
    case JUndefined => JPlain("null")
    case JArr(items) => JArr(CanonItems(items))
    case JObj(fields) => JObj(CanonFields(fields))
  }

  function CanonItems(items: seq<Json>): seq<Json>
    decreases items, 1
  {
    if items == [] then [] else [Canon(items[0])] + CanonItems(items[1..])
  }

  function CanonFields(fields: seq<Member>): seq<Member>
    decreases fields, 1
  {
    if fields == [] then []
    else
      var Member(key, value) := fields[0];
      (if value == JUndefined then [] else [Member(key, Canon(value))]) + CanonFields(fields[1..])
  }

  /** The text of a number, a boolean or null. */
  predicate IsLiteral(t: string) {
    t != "" && forall i :: 0 <= i < |t| ==> IsLiteralChar(t[i])
  }

  ghost predicate HasLiterals(j: Json)
    decreases j
  {
    match j
    case JPlain(t) => IsLiteral(t)
    case JArr(items) => forall i :: 0 <= i < |items| ==> HasLiterals(items[i])
    case JObj(fields) => forall i :: 0 <= i < |fields| ==> HasLiterals(fields[i].value)
    case _ => true
  }

  // ---------------------------------------------------------------- strings read back

  lemma ReadOneChar(c: char, x: string)
    ensures var more := ReadString(x);
            ReadString(EscapeOne()(c) + x) ==
              if more.Some? then Some(([c] + more.value.0, more.value.1)) else None
  {
    var m := EscapeOne()(c);
    if IsSpecial(c) {
      ReadsSpecial(c, x);
      EscapedHead(c, x);
    } else {
      assert (m + x)[0] == c && (m + x)[1..] == x;
    }
  }

  lemma EscapedHead(c: char, x: string)
    requires IsSpecial(c) && ReadEscape(EscapeChar(c)[1..] + x) == Some((c, |EscapeChar(c)| - 1))
    ensures var more := ReadString(x);
            ReadString(EscapeChar(c) + x) ==
              if more.Some? then Some(([c] + more.value.0, more.value.1)) else None
  {
    var m := EscapeChar(c);
    assert (m + x)[0] == '\\' && (m + x)[1..] == m[1..] + x;
    assert (m[1..] + x)[|m| - 1..] == x;
  }

  lemma ReadsSpecial(c: char, x: string)
    requires IsSpecial(c)
    ensures ReadEscape(EscapeChar(c)[1..] + x) == Some((c, |EscapeChar(c)| - 1))
  {
    var m := EscapeChar(c);
    var s := m[1..] + x;
    assert s[0] == m[1];
    if |m| == 6 {
      var hi, lo := c as int / 16, c as int % 16;
      assert m == "\\u00" + [HexDigit(hi), HexDigit(lo)];
      HexReadsBack(hi);
      HexReadsBack(lo);
      var t := s[1..];
      assert t[0] == '0' && t[1] == '0' && t[2] == HexDigit(hi) && t[3] == HexDigit(lo);
      assert 16 * hi + lo == c as int;
    }
  }

  lemma HexReadsBack(n: nat)
    requires n < 16
    ensures HexValue(HexDigit(n)) == Some(n)
  {
  }

  /** An escaped text and its closing quotation mark read back as the text. */
  lemma {:induction false} StringReadsBack(t: string, rest: string)
    ensures ReadString(Escape(t) + ("\"" + rest)) == Some((t, rest))
    decreases |t|
  {
    var end := "\"" + rest;
    if t == "" {
      assert Escape(t) + end == end && end[1..] == rest;
    } else {
      StringReadsBack(t[1..], rest);
      ReadOneChar(t[0], Escape(t[1..]) + end);
      Associate(EscapeOne()(t[0]), Escape(t[1..]), end);
      assert t == [t[0]] + t[1..];
    }
  }

  // ---------------------------------------------------------------- values read back

  predicate IsGaps(b: string) {
    forall i :: 0 <= i < |b| ==> IsGap(b[i])
  }

  lemma {:induction false} GapsAreSkipped(b: string, x: string)
    requires IsGaps(b)
    ensures SkipGaps(b + x) == SkipGaps(x)
  {
    if b == "" {
      assert b + x == x;
    } else {
      assert (b + x)[1..] == b[1..] + x;
      GapsAreSkipped(b[1..], x);
    }
  }

  lemma {:induction false} LiteralEnds(t: string, rest: string)
    requires (forall i :: 0 <= i < |t| ==> IsLiteralChar(t[i])) && (rest == "" || !IsLiteralChar(rest[0]))
    ensures LiteralLength(t + rest) == |t|
  {
    if t == "" {
      assert t + rest == rest;
    } else {
      assert (t + rest)[1..] == t[1..] + rest;
      LiteralEnds(t[1..], rest);
    }
  }

  lemma LiteralReadsBack(t: string, rest: string)
    requires IsLiteral(t) && (rest == "" || !IsLiteralChar(rest[0]))
    ensures ReadValue(t + rest) == Some((JPlain(t), rest))
  {
    LiteralEnds(t, rest);
    var s := t + rest;
    assert s[0] == t[0] && SkipGaps(s) == s;
    assert s[..|t|] == t && s[|t|..] == rest;
  }

  lemma QuotedReadsBack(t: string, rest: string)
    ensures ReadValue("\"" + Escape(t) + "\"" + rest) == Some((JStr(t), rest))
  {
    var s := "\"" + Escape(t) + "\"" + rest;
    StringReadsBack(t, rest);
    assert s[0] == '\"' && s[1..] == Escape(t) + ("\"" + rest);
  }

  /** A print starts with something that is neither a gap nor a closing bracket. */
  lemma PrintStarts(j: Json, ind: string, rest: string)
    requires HasLiterals(j)
    ensures var s := Print(j, ind) + rest; s != "" && !IsGap(s[0]) && s[0] != ']' && s[0] != '}'
  {
    var p := Print(j, ind);
    assert p != "" && !IsGap(p[0]) && p[0] != ']' && p[0] != '}';
    assert (p + rest)[0] == p[0];
  }

  /** What follows a value: the end of the text, a comma or a gap. */
  predicate EndsValue(rest: string) {
    rest == "" || rest[0] == ',' || rest[0] == '\n'
  }

  lemma {:induction false} PrintReadsBack(j: Json, ind: string, rest: string)
    requires HasLiterals(j) && IsGaps(ind) && EndsValue(rest)
    ensures ReadValue(Print(j, ind) + rest) == Some((Canon(j), rest))
    decreases j, 0
  {
    match j
    case JStr(t) => QuotedReadsBack(t, rest);
    case JPlain(t) => LiteralReadsBack(PlainText(t), rest);
    case JUndefined => LiteralReadsBack("null", rest);
    case JArr(items) =>
      if items == [] {
        EmptyReadsBack(rest);
      } else {
        ItemsReadBack(items, ind + "  ", "\n" + ind, rest);
        ArrayReadsBack(items, ind, rest);
      }
    case JObj(fields) =>
      if FieldLines(fields, ind + "  ") == [] {
        EmptyReadsBack(rest);
        NoFieldsLeft(fields, ind + "  ");
      } else {
        FieldsReadBack(fields, ind + "  ", "\n" + ind, rest);
        ObjectReadsBack(fields, ind, rest);
      }
  }

  lemma EmptyReadsBack(rest: string)
    ensures ReadValue("[" + "]" + rest) == Some((JArr([]), rest))
    ensures ReadValue("{" + "}" + rest) == Some((JObj([]), rest))
  {
    var s, t := "[" + "]" + rest, "{" + "}" + rest;
    assert s[0] == '[' && s[1] == ']' && s[1..][0] == ']' && s[1..][1..] == rest;
    assert t[0] == '{' && t[1] == '}' && t[1..][0] == '}' && t[1..][1..] == rest;
  }

  /** The lines of a container and what closes it. */
  function Body(lines: seq<string>, ind: string, end: string, close: string, rest: string): string {
    Join(lines, "," + ("\n" + ind)) + (end + (close + rest))
  }

  lemma BlockShape(open: string, lines: seq<string>, ind: string, close: string, rest: string)
    requires lines != [] && |open| == 1
    ensures var s := Block(open, lines, ind, close) + rest;
            && s[0] == open[0]
            && s[1..] == ("\n" + ind + "  ") + Body(lines, ind + "  ", "\n" + ind, close, rest)
  {
    var j, gap := Join(lines, "," + ("\n" + ind + "  ")), "\n" + ind + "  ";
    assert "\n" + (ind + "  ") == gap;
    BlockRegroups(open, gap, j, "\n" + ind, close, rest);
    var b := gap + (j + (("\n" + ind) + (close + rest)));
    assert (open + b)[1..] == b;
  }

  lemma BlockRegroups(open: string, gap: string, j: string, end: string, close: string, rest: string)
    ensures open + gap + (j + end + close) + rest == open + (gap + (j + (end + (close + rest))))
  {
    Associate(open + gap, j + end + close, rest);
    Associate(j + end, close, rest);
    Associate(j, end, close + rest);
    Associate(open, gap, j + (end + (close + rest)));
  }

  lemma ArrayReadsBack(items: seq<Json>, ind: string, rest: string)
    requires items != [] && HasLiterals(JArr(items)) && IsGaps(ind)
    requires ReadItems(Body(ItemLines(items, ind + "  "), ind + "  ", "\n" + ind, "]", rest))
             == Some((CanonItems(items), rest))
    ensures ReadValue(Block("[", ItemLines(items, ind + "  "), ind, "]") + rest)
            == Some((JArr(CanonItems(items)), rest))
  {
    var lines := ItemLines(items, ind + "  ");
    var b := Body(lines, ind + "  ", "\n" + ind, "]", rest);
    BlockShape("[", lines, ind, "]", rest);
    BodyStarts(items, ind + "  ", "\n" + ind, rest);
    GapsAreSkipped("\n" + ind + "  ", b);
  }

  lemma BodyStarts(items: seq<Json>, ind: string, end: string, rest: string)
    requires items != [] && HasLiterals(JArr(items))
    ensures var b := Body(ItemLines(items, ind), ind, end, "]", rest); b != "" && !IsGap(b[0]) && b[0] != ']'
  {
    var lines := ItemLines(items, ind);
    assert HasLiterals(JArr(items).items[0]);
    assert lines[0] == Print(items[0], ind);
    JoinStarts(lines, "," + ("\n" + ind));
    PrintStarts(items[0], ind, "");
    assert Print(items[0], ind) + "" == Print(items[0], ind);
  }

  lemma JoinStarts(lines: seq<string>, sep: string)
    requires lines != [] && lines[0] != ""
    ensures Join(lines, sep) != "" && Join(lines, sep)[0] == lines[0][0]
  {
  }

  lemma ValueSkipsGaps(b: string, x: string)
    requires IsGaps(b)
    ensures ReadValue(b + x) == ReadValue(x) && ReadItems(b + x) == ReadItems(x)
    ensures ReadField(b + x) == ReadField(x) && ReadFields(b + x) == ReadFields(x)
  {
    GapsAreSkipped(b, x);
  }

  lemma {:induction false} ItemsReadBack(items: seq<Json>, ind: string, end: string, rest: string)
    requires items != [] && HasLiterals(JArr(items)) && IsGaps(ind) && IsGaps(end) && end != "" && end[0] == '\n'
    ensures ReadItems(Body(ItemLines(items, ind), ind, end, "]", rest)) == Some((CanonItems(items), rest))
    decreases items, 1
  {
    var lines, first := ItemLines(items, ind), Print(items[0], ind);
    assert HasLiterals(JArr(items).items[0]);
    assert lines[0] == first && lines[1..] == ItemLines(items[1..], ind);
    if |items| == 1 {
      var tail := end + ("]" + rest);
      PrintReadsBack(items[0], ind, tail);
      EndIsClosed(end, "]", rest);
      assert items[1..] == [] && lines == [first];
      BodyOfOne(lines, ind, end, "]", rest);
      LastItem(first + tail, Canon(items[0]), tail, rest);
    } else {
      forall i | 0 <= i < |items[1..]| ensures HasLiterals(items[1..][i]) {
        assert HasLiterals(JArr(items).items[i + 1]);
      }
      ItemsReadBack(items[1..], ind, end, rest);
      var next := Body(lines[1..], ind, end, "]", rest);
      BodyGoesOn(lines, ind, end, "]", rest);
      var tail := "," + (("\n" + ind) + next);
      CommaThenNext(ind, next);
      PrintReadsBack(items[0], ind, tail);
      NextItem(first + tail, Canon(items[0]), tail, CanonItems(items[1..]), rest);
    }
  }

  lemma LastItem(s: string, v: Json, tail: string, rest: string)
    requires ReadValue(s) == Some((v, tail)) && SkipGaps(tail) == "]" + rest
    ensures ReadItems(s) == Some(([v] + [], rest))
  {
    assert ("]" + rest)[1..] == rest && [v] + [] == [v];
  }

  lemma NextItem(s: string, v: Json, tail: string, more: seq<Json>, rest: string)
    requires ReadValue(s) == Some((v, tail)) && SkipGaps(tail) == tail && tail != "" && tail[0] == ','
    requires ReadItems(tail[1..]) == Some((more, rest))
    ensures ReadItems(s) == Some(([v] + more, rest))
  {
  }

  lemma LastField(s: string, v: Member, tail: string, rest: string)
    requires ReadField(s) == Some((v, tail)) && SkipGaps(tail) == "}" + rest
    ensures ReadFields(s) == Some(([v] + [], rest))
  {
    assert ("}" + rest)[1..] == rest && [v] + [] == [v];
  }

  lemma NextField(s: string, v: Member, tail: string, more: seq<Member>, rest: string)
    requires ReadField(s) == Some((v, tail)) && SkipGaps(tail) == tail && tail != "" && tail[0] == ','
    requires ReadFields(tail[1..]) == Some((more, rest))
    ensures ReadFields(s) == Some(([v] + more, rest))
  {
  }

  lemma EndIsClosed(end: string, close: string, rest: string)
    requires IsGaps(end) && |close| == 1 && !IsGap(close[0])
    ensures SkipGaps(end + (close + rest)) == close + rest
    ensures (close + rest)[0] == close[0] && (close + rest)[1..] == rest
  {
    GapsAreSkipped(end, close + rest);
  }

  lemma BodyOfOne(lines: seq<string>, ind: string, end: string, close: string, rest: string)
    requires |lines| == 1
    ensures Body(lines, ind, end, close, rest) == lines[0] + (end + (close + rest))
  {
  }

  /** A first line, a comma, a line break, and the body of the other lines. */
  lemma BodyGoesOn(lines: seq<string>, ind: string, end: string, close: string, rest: string)
    requires |lines| > 1
    ensures Body(lines, ind, end, close, rest)
            == lines[0] + ("," + (("\n" + ind) + Body(lines[1..], ind, end, close, rest)))
  {
    var sep, j := "," + ("\n" + ind), Join(lines[1..], "," + ("\n" + ind));
    assert Join(lines, sep) == lines[0] + sep + j;
  }

  lemma CommaThenNext(ind: string, next: string)
    requires IsGaps(ind)
    ensures var t := "," + (("\n" + ind) + next);
            && SkipGaps(t) == t && t[0] == ',' && EndsValue(t)
            && ReadItems(t[1..]) == ReadItems(next) && ReadFields(t[1..]) == ReadFields(next)
  {
    var t := "," + (("\n" + ind) + next);
    assert t[1..] == ("\n" + ind) + next;
    ValueSkipsGaps("\n" + ind, next);
  }

  // ---------------------------------------------------------------- objects read back

  lemma {:induction false} NoFieldsLeft(fields: seq<Member>, ind: string)
    ensures FieldLines(fields, ind) == [] <==> CanonFields(fields) == []
  {
    if fields != [] { NoFieldsLeft(fields[1..], ind); }
  }

  lemma FieldReadsBack(key: string, value: Json, ind: string, rest: string)
    requires ReadValue(Print(value, ind) + rest) == Some((Canon(value), rest))
    ensures ReadField(FieldLine(key, Print(value, ind)) + rest) == Some((Member(key, Canon(value)), rest))
  {
    var p := Print(value, ind);
    var u := ":" + (" " + (p + rest));
    FieldRegroups("\"", Escape(key), "\"", ":", " ", p, rest);
    StringReadsBack(key, u);
    ValueSkipsGaps(" ", p + rest);
    FieldByParts(Escape(key) + ("\"" + u), key, u, " " + (p + rest), Canon(value), rest);
  }

  lemma FieldByParts(x: string, key: string, u: string, y: string, v: Json, rest: string)
    requires ReadString(x) == Some((key, u)) && u == ":" + y && ReadValue(y) == Some((v, rest))
    ensures ReadField("\"" + x) == Some((Member(key, v), rest))
  {
    assert ("\"" + x)[0] == '\"' && ("\"" + x)[1..] == x;
    assert u[0] == ':' && u[1..] == y;
  }

  lemma FieldRegroups(q: string, k: string, r: string, c: string, b: string, p: string, rest: string)
    ensures q + k + r + (c + b + p) + rest == q + (k + (r + (c + (b + (p + rest)))))
  {
    Associate(q + k + r, c + b + p, rest);
    Associate(c + b, p, rest);
    Associate(c, b, p + rest);
    Associate(q + k, r, c + (b + (p + rest)));
    Associate(q, k, r + (c + (b + (p + rest))));
  }

  lemma ObjectReadsBack(fields: seq<Member>, ind: string, rest: string)
    requires FieldLines(fields, ind + "  ") != [] && IsGaps(ind)
    requires ReadFields(Body(FieldLines(fields, ind + "  "), ind + "  ", "\n" + ind, "}", rest))
             == Some((CanonFields(fields), rest))
    ensures ReadValue(Block("{", FieldLines(fields, ind + "  "), ind, "}") + rest)
            == Some((JObj(CanonFields(fields)), rest))
  {
    var lines := FieldLines(fields, ind + "  ");
    var b := Body(lines, ind + "  ", "\n" + ind, "}", rest);
    BlockShape("{", lines, ind, "}", rest);
    FieldLinesStart(fields, ind + "  ");
    JoinStarts(lines, "," + ("\n" + (ind + "  ")));
    GapsAreSkipped("\n" + ind + "  ", b);
  }

  lemma {:induction false} FieldLinesStart(fields: seq<Member>, ind: string)
    requires FieldLines(fields, ind) != []
    ensures var line := FieldLines(fields, ind)[0]; line != "" && line[0] == '\"'
  {
    if fields[0].value == JUndefined { FieldLinesStart(fields[1..], ind); }
  }

  lemma {:induction false} FieldsReadBack(fields: seq<Member>, ind: string, end: string, rest: string)
    requires HasLiterals(JObj(fields)) && FieldLines(fields, ind) != []
    requires IsGaps(ind) && IsGaps(end) && end != "" && end[0] == '\n'
    ensures ReadFields(Body(FieldLines(fields, ind), ind, end, "}", rest)) == Some((CanonFields(fields), rest))
    decreases fields, 1
  {
    var Member(key, value) := fields[0];
    var lines, more := FieldLines(fields, ind), FieldLines(fields[1..], ind);
    assert HasLiterals(JObj(fields).fields[0].value);
    forall i | 0 <= i < |fields[1..]| ensures HasLiterals(fields[1..][i].value) {
      assert HasLiterals(JObj(fields).fields[i + 1].value);
    }
    if value == JUndefined {
      FieldsReadBack(fields[1..], ind, end, rest);
      assert CanonFields(fields) == CanonFields(fields[1..]);
    } else {
      var first := FieldLine(key, Print(value, ind));
      assert lines == [first] + more && lines[1..] == more;
      NoFieldsLeft(fields[1..], ind);
      if more == [] {
        var tail := end + ("}" + rest);
        PrintReadsBack(value, ind, tail);
        FieldReadsBack(key, value, ind, tail);
        EndIsClosed(end, "}", rest);
        BodyOfOne(lines, ind, end, "}", rest);
        LastField(first + tail, Member(key, Canon(value)), tail, rest);
      } else {
        FieldsReadBack(fields[1..], ind, end, rest);
        var next := Body(more, ind, end, "}", rest);
        var tail := "," + (("\n" + ind) + next);
        BodyGoesOn(lines, ind, end, "}", rest);
        CommaThenNext(ind, next);
        PrintReadsBack(value, ind, tail);
        FieldReadsBack(key, value, ind, tail);
        NextField(first + tail, Member(key, Canon(value)), tail, CanonFields(fields[1..]), rest);
      }
    }
  }
}
