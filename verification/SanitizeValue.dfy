/**
  `sanitizeValue`: the depth-bounded recursion over arbitrary object graphs. Objects and
  arrays live in a heap and are reached by reference, so a graph may be shared or cyclic;
  a heap is a total map from references to nodes and may even be infinite.
 */
module SanitizeValue {
  import opened Strings
  import opened Redaction

  const MAX_DEPTH := 8
  const MAX_ARRAY_ITEMS := 50

  /** A value as the function meets it; functions and symbols behave like `undefined`. */
  datatype Value =
    | Str(s: string)
    | Plain(text: string)    // null, number or boolean, returned as it is
    | BigInt(n: int)
    | Undefined
    | Ref(id: nat)

  datatype Node =
    | Items(items: seq<Value>)
    | Entries(entries: seq<(string, Value)>)

  type Heap = nat -> Node

  /** A sanitized value: a finite tree. */
  datatype Json =
    | JStr(s: string)
    | JPlain(text: string)
    | JUndefined
    | JArr(items: seq<Json>)
    | JObj(fields: seq<Member>)

  datatype Member = Member(key: string, value: Json)

  /** The string rule for the given context and options, and the key rules. */
  datatype Policy = Policy(clean: string -> string, isDropped: string -> bool, isSecretKey: string -> bool)

  function IntText(n: int): string {
    if n < 0 then "-" + Decimal(-n) else Decimal(n)
  }

  function MoreItems(n: nat): string {
    "[" + Decimal(n) + " more items truncated]"
  }

  /** An integer text: digits without a leading zero, after a minus sign unless they are zero. */
  predicate IsIntText(t: string) {
    if t != "" && t[0] == '-' then IsDecimalText(t[1..]) && t[1] != '0' else IsDecimalText(t)
  }

  function ParseInt(t: string): int {
    if t != "" && t[0] == '-' then 0 - ParseDecimal(t[1..]) else ParseDecimal(t)
  }

  /** The digits of a BigInt are the text that reads back as it, sign included. */
  lemma IntTextIff(n: int, t: string)
    ensures t == IntText(n) <==> IsIntText(t) && ParseInt(t) == n
  {
    DecimalIsText(if n < 0 then -n else n);
    DecimalRoundTrip(if n < 0 then -n else n);
    assert ("-" + Decimal(if n < 0 then -n else n))[1..] == Decimal(if n < 0 then -n else n);
    if IsIntText(t) {
      if t[0] == '-' {
        TextIsDecimal(t[1..]);
        assert t == "-" + t[1..];
      } else {
        TextIsDecimal(t);
      }
    }
  }

  /** The note about truncated items spells out how many there are. */
  lemma MoreItemsIff(n: nat, t: string)
    ensures t == MoreItems(n) <==>
            exists digits :: IsDecimalText(digits) && ParseDecimal(digits) == n
                             && t == "[" + digits + " more items truncated]"
  {
    DecimalIff(n, Decimal(n));
    if digits :| IsDecimalText(digits) && ParseDecimal(digits) == n && t == "[" + digits + " more items truncated]" {
      DecimalIff(n, digits);
    }
  }

  function Prefix<T>(xs: seq<T>, n: nat): seq<T> {
    if |xs| <= n then xs else xs[..n]
  }

  // ---------------------------------------------------------------- the recursion

  /** `sanitizeValue(value, ctx, options, depth)` */
  function Sanitize(h: Heap, p: Policy, v: Value, depth: nat): Json
    requires depth <= MAX_DEPTH
    decreases MAX_DEPTH - depth, 1, 0
  {
    match v
    case Str(s) => JStr(p.clean(s))
    case Plain(t) => JPlain(t)
    case BigInt(n) => JStr(IntText(n))
    case Undefined => JUndefined
    case Ref(id) =>
      if depth >= MAX_DEPTH then JStr("[truncated]")
      else match h(id)
        case Items(items) =>
          JArr(SanitizeItems(h, p, Prefix(items, MAX_ARRAY_ITEMS), depth)
               + if |items| > MAX_ARRAY_ITEMS then [JStr(MoreItems(|items| - MAX_ARRAY_ITEMS))] else [])
        case Entries(entries) => JObj(SanitizeFields(h, p, entries, depth))
  }

  function SanitizeItems(h: Heap, p: Policy, items: seq<Value>, depth: nat): (r: seq<Json>)
    requires depth < MAX_DEPTH
    ensures |r| == |items|
    decreases MAX_DEPTH - depth, 0, |items|
  {
    if items == [] then []
    else [Sanitize(h, p, items[0], depth + 1)] + SanitizeItems(h, p, items[1..], depth)
  }

  function SanitizeFields(h: Heap, p: Policy, entries: seq<(string, Value)>, depth: nat): seq<Member>
    requires depth < MAX_DEPTH
    decreases MAX_DEPTH - depth, 0, |entries|
  {
    if entries == [] then []
    else
      var (key, inner) := entries[0];
      var rest := SanitizeFields(h, p, entries[1..], depth);
      if p.isDropped(key) then rest
      else if p.isSecretKey(key) then [Member(key, JStr(REDACTED))] + rest
      else
        var clean := Sanitize(h, p, inner, depth + 1);
        if clean == JUndefined then rest else [Member(key, clean)] + rest
  }

  // ---------------------------------------------------------------- unfolding

  /** A finite tree of values; `Cut` stands for what lies deeper than the unfolding. */
  datatype Tree =
    | Leaf(v: Value)
    | Cut
    | Arr(items: seq<Tree>)
    | Obj(entries: seq<Field>)

  datatype Field = Field(key: string, tree: Tree)

  /** The graph seen from `v`, `fuel` container levels deep. */
  function Unfold(h: Heap, v: Value, fuel: nat): Tree
    decreases fuel, 1, 0
  {
    if !v.Ref? then Leaf(v)
    else if fuel == 0 then Cut
    else match h(v.id)
      case Items(items) => Arr(UnfoldItems(h, items, fuel - 1))
      case Entries(entries) => Obj(UnfoldEntries(h, entries, fuel - 1))
  }

  function UnfoldItems(h: Heap, items: seq<Value>, fuel: nat): (r: seq<Tree>)
    ensures |r| == |items|
    decreases fuel, 2, |items|
  {
    if items == [] then [] else [Unfold(h, items[0], fuel)] + UnfoldItems(h, items[1..], fuel)
  }

  function UnfoldEntries(h: Heap, entries: seq<(string, Value)>, fuel: nat): seq<Field>
    decreases fuel, 2, |entries|
  {
    if entries == [] then []
    else [Field(entries[0].0, Unfold(h, entries[0].1, fuel))] + UnfoldEntries(h, entries[1..], fuel)
  }

  /** The sanitizer of a finite tree: plain structural recursion, with no depth and no heap. */
  function SanitizeTree(p: Policy, t: Tree): Json
    decreases t, 0
  {
    match t
    case Leaf(Str(s)) => JStr(p.clean(s))
    case Leaf(Plain(x)) => JPlain(x)
    case Leaf(BigInt(n)) => JStr(IntText(n))
    case Leaf(_) => JUndefined
    case Cut => JStr("[truncated]")
    case Arr(items) =>
      JArr(TreeItems(p, Prefix(items, MAX_ARRAY_ITEMS))
           + if |items| > MAX_ARRAY_ITEMS then [JStr(MoreItems(|items| - MAX_ARRAY_ITEMS))] else [])
    case Obj(entries) => JObj(TreeFields(p, entries))
  }

  function TreeItems(p: Policy, items: seq<Tree>): (r: seq<Json>)
    ensures |r| == |items|
    decreases items, 1
  {
    if items == [] then [] else [SanitizeTree(p, items[0])] + TreeItems(p, items[1..])
  }

  function TreeFields(p: Policy, entries: seq<Field>): seq<Member>
    decreases entries, 1
  {
    if entries == [] then []
    else
      var Field(key, inner) := entries[0];
      var rest := TreeFields(p, entries[1..]);
      if p.isDropped(key) then rest
      else if p.isSecretKey(key) then [Member(key, JStr(REDACTED))] + rest
      else
        var clean := SanitizeTree(p, inner);
        if clean == JUndefined then rest else [Member(key, clean)] + rest
  }

  /**
    The depth-bounded recursion over the graph is the structural recursion over its
    unfolding, so a cyclic graph is sanitized like the finite tree it unfolds to.
   */
  lemma {:induction false} SanitizeIsUnfolded(h: Heap, p: Policy, v: Value, depth: nat)
    requires depth <= MAX_DEPTH
    ensures Sanitize(h, p, v, depth) == SanitizeTree(p, Unfold(h, v, MAX_DEPTH - depth))
    decreases MAX_DEPTH - depth, 1, 0
  {
    if v.Ref? && depth < MAX_DEPTH {
      match h(v.id)
      case Items(items) =>
        var kept := Prefix(items, MAX_ARRAY_ITEMS);
        ItemsAreUnfolded(h, p, kept, depth);
        UnfoldPrefix(h, items, MAX_ARRAY_ITEMS, MAX_DEPTH - depth - 1);
      case Entries(entries) => FieldsAreUnfolded(h, p, entries, depth);
    }
  }

  lemma {:induction false} ItemsAreUnfolded(h: Heap, p: Policy, items: seq<Value>, depth: nat)
    requires depth < MAX_DEPTH
    ensures SanitizeItems(h, p, items, depth) == TreeItems(p, UnfoldItems(h, items, MAX_DEPTH - depth - 1))
    decreases MAX_DEPTH - depth, 0, |items|
  {
    if items != [] {
      SanitizeIsUnfolded(h, p, items[0], depth + 1);
      ItemsAreUnfolded(h, p, items[1..], depth);
      var trees := UnfoldItems(h, items, MAX_DEPTH - depth - 1);
      assert trees[1..] == UnfoldItems(h, items[1..], MAX_DEPTH - depth - 1);
    }
  }

  lemma {:induction false} FieldsAreUnfolded(h: Heap, p: Policy, entries: seq<(string, Value)>, depth: nat)
    requires depth < MAX_DEPTH
    ensures SanitizeFields(h, p, entries, depth) == TreeFields(p, UnfoldEntries(h, entries, MAX_DEPTH - depth - 1))
    decreases MAX_DEPTH - depth, 0, |entries|
  {
    if entries != [] {
      SanitizeIsUnfolded(h, p, entries[0].1, depth + 1);
      FieldsAreUnfolded(h, p, entries[1..], depth);
      var trees := UnfoldEntries(h, entries, MAX_DEPTH - depth - 1);
      assert trees[1..] == UnfoldEntries(h, entries[1..], MAX_DEPTH - depth - 1);
    }
  }

  lemma {:induction false} UnfoldPrefix(h: Heap, items: seq<Value>, n: nat, fuel: nat)
    ensures UnfoldItems(h, Prefix(items, n), fuel) == Prefix(UnfoldItems(h, items, fuel), n)
    decreases |items|
  {
    if items != [] {
      var trees := UnfoldItems(h, items, fuel);
      assert trees[1..] == UnfoldItems(h, items[1..], fuel);
      if n == 0 {
        assert Prefix(items, 0) == [];
      } else {
        UnfoldPrefix(h, items[1..], n - 1, fuel);
        assert Prefix(items, n) == [items[0]] + Prefix(items[1..], n - 1);
        assert Prefix(trees, n) == [trees[0]] + Prefix(trees[1..], n - 1);
      }
    }
  }

  // ---------------------------------------------------------------- shape of the result

  /** The texts a string leaf can be: sanitized text, BigInt digits, or one of the three notes. */
  ghost predicate IsLeafText(p: Policy, t: string) {
    || (exists s :: p.clean(s) == t)
    || (exists n: int :: IntText(n) == t)
    || (exists n: nat :: MoreItems(n) == t)
    || t == "[truncated]" || t == REDACTED
  }

  /** At most `levels` containers nest, arrays have at most 51 items, and keys and leaves obey the rules. */
  ghost predicate WellShaped(p: Policy, j: Json, levels: nat)
    decreases j, 0
  {
    match j
    case JStr(t) => IsLeafText(p, t)
    case JArr(items) =>
      levels > 0 && |items| <= MAX_ARRAY_ITEMS + 1 && forall x :: x in items ==> WellShaped(p, x, levels - 1)
    case JObj(fields) =>
      levels > 0 && forall f :: f in fields ==>
        && !p.isDropped(f.key) && f.value != JUndefined
        && (p.isSecretKey(f.key) ==> f.value == JStr(REDACTED))
        && WellShaped(p, f.value, levels - 1)
    case _ => true
  }

  lemma {:induction false} ResultIsWellShaped(h: Heap, p: Policy, v: Value, depth: nat)
    requires depth <= MAX_DEPTH
    ensures WellShaped(p, Sanitize(h, p, v, depth), MAX_DEPTH - depth)
    decreases MAX_DEPTH - depth, 1, 0
  {
    if v.Ref? && depth < MAX_DEPTH {
      match h(v.id)
      case Items(items) => ItemsAreWellShaped(h, p, Prefix(items, MAX_ARRAY_ITEMS), depth);
      case Entries(entries) => FieldsAreWellShaped(h, p, entries, depth);
    }
  }

  lemma {:induction false} ItemsAreWellShaped(h: Heap, p: Policy, items: seq<Value>, depth: nat)
    requires depth < MAX_DEPTH
    ensures forall x :: x in SanitizeItems(h, p, items, depth) ==> WellShaped(p, x, MAX_DEPTH - depth - 1)
    decreases MAX_DEPTH - depth, 0, |items|
  {
    if items != [] {
      ResultIsWellShaped(h, p, items[0], depth + 1);
      ItemsAreWellShaped(h, p, items[1..], depth);
    }
  }

  lemma {:induction false} FieldsAreWellShaped(h: Heap, p: Policy, entries: seq<(string, Value)>, depth: nat)
    requires depth < MAX_DEPTH
    ensures forall f :: f in SanitizeFields(h, p, entries, depth) ==>
              && !p.isDropped(f.key) && f.value != JUndefined
              && (p.isSecretKey(f.key) ==> f.value == JStr(REDACTED))
              && WellShaped(p, f.value, MAX_DEPTH - depth - 1)
    decreases MAX_DEPTH - depth, 0, |entries|
  {
    if entries != [] {
      ResultIsWellShaped(h, p, entries[0].1, depth + 1);
      FieldsAreWellShaped(h, p, entries[1..], depth);
    }
  }

  // ---------------------------------------------------------------- where a secret can still show

  /** Some string, key, number or literal of the printed result holds `s`. */
  ghost predicate Shows(j: Json, s: string)
    decreases j
  {
    match j
    case JStr(t) => Contains(t, s)
    case JPlain(t) => Contains(t, s)
    case JArr(items) => exists i :: 0 <= i < |items| && Shows(items[i], s)
    case JObj(fields) =>
      exists i :: 0 <= i < |fields| && fields[i].value != JUndefined
        && (Contains(fields[i].key, s) || Shows(fields[i].value, s))
    case _ => false
  }

  /** A leaf that sanitizes to nothing; an unfolding has no reference leaves. */
  predicate IsNothing(t: Tree) {
    t.Leaf? && (t.v.Undefined? || t.v.Ref?)
  }

  lemma NothingIff(p: Policy, t: Tree)
    ensures SanitizeTree(p, t) == JUndefined <==> IsNothing(t)
  {
  }

  /** A key that stays. */
  predicate IsKept(p: Policy, entry: Field) {
    !p.isDropped(entry.key) && (p.isSecretKey(entry.key) || !IsNothing(entry.tree))
  }

  /**
    The four ways the unfolded input exposes `s`: as part of a key that is kept, in the text
    of a number or literal, in the digits of a BigInt, or in the note about truncated items.
    Values under dropped or secret-named keys, items past the fiftieth and everything below
    the cut do not count.
   */
  ghost predicate Exposes(p: Policy, t: Tree, s: string)
    decreases t
  {
    match t
    case Leaf(Plain(x)) => Contains(x, s)
    case Leaf(BigInt(n)) => Contains(IntText(n), s)
    case Leaf(_) => false
    case Cut => false
    case Arr(items) =>
      || (exists i :: 0 <= i < |items| && i < MAX_ARRAY_ITEMS && Exposes(p, items[i], s))
      || (|items| > MAX_ARRAY_ITEMS && Contains(MoreItems(|items| - MAX_ARRAY_ITEMS), s))
    case Obj(entries) =>
      exists i :: 0 <= i < |entries| && IsKept(p, entries[i])
        && (Contains(entries[i].key, s) || (!p.isSecretKey(entries[i].key) && Exposes(p, entries[i].tree, s)))
  }

  /** The string rule removes `s`, and the fixed markers do not hold it. */
  ghost predicate Removes(p: Policy, s: string) {
    && (forall t :: !Contains(p.clean(t), s))
    && !Contains(REDACTED, s) && !Contains("[truncated]", s)
  }

  lemma {:induction false} ShowsIffExposed(p: Policy, t: Tree, s: string)
    requires Removes(p, s)
    ensures Shows(SanitizeTree(p, t), s) <==> Exposes(p, t, s)
    decreases t, 0
  {
    match t
    case Leaf(_) =>
    case Cut =>
    case Arr(items) =>
      var kept := Prefix(items, MAX_ARRAY_ITEMS);
      var out := TreeItems(p, kept);
      forall i | 0 <= i < |kept|
        ensures out[i] == SanitizeTree(p, items[i]) && (Shows(out[i], s) <==> Exposes(p, items[i], s))
      {
        TreeItemAt(p, kept, i);
        ShowsIffExposed(p, items[i], s);
      }
      var result := SanitizeTree(p, t).items;
      assert forall i :: 0 <= i < |kept| ==> result[i] == out[i];
      if |items| > MAX_ARRAY_ITEMS {
        assert result[MAX_ARRAY_ITEMS] == JStr(MoreItems(|items| - MAX_ARRAY_ITEMS));
      }
    case Obj(entries) =>
      forall i | 0 <= i < |entries|
        ensures Shows(SanitizeTree(p, entries[i].tree), s) <==> Exposes(p, entries[i].tree, s)
      {
        ShowsIffExposed(p, entries[i].tree, s);
      }
      FieldsShowIff(p, entries, s);
  }

  lemma {:induction false} TreeItemAt(p: Policy, items: seq<Tree>, i: nat)
    requires i < |items|
    ensures TreeItems(p, items)[i] == SanitizeTree(p, items[i])
  {
    if i > 0 { TreeItemAt(p, items[1..], i - 1); }
  }

  ghost predicate EntryShows(p: Policy, entry: Field, s: string) {
    IsKept(p, entry)
    && (Contains(entry.key, s) || (!p.isSecretKey(entry.key) && Shows(SanitizeTree(p, entry.tree), s)))
  }

  lemma {:induction false} FieldsShowIff(p: Policy, entries: seq<Field>, s: string)
    requires !Contains(REDACTED, s)
    ensures Shows(JObj(TreeFields(p, entries)), s) <==> exists i :: 0 <= i < |entries| && EntryShows(p, entries[i], s)
  {
    if entries != [] {
      var rest := TreeFields(p, entries[1..]);
      NothingIff(p, entries[0].tree);
      FieldsShowIff(p, entries[1..], s);
      var fields := TreeFields(p, entries);
      if |fields| > |rest| {
        assert fields[1..] == rest;
        assert forall i :: 0 <= i < |rest| ==> fields[i + 1] == rest[i];
        assert Shows(fields[0].value, s) || Contains(fields[0].key, s) <==> EntryShows(p, entries[0], s);
      }
      assert forall i :: 0 <= i < |entries[1..]| ==> entries[1..][i] == entries[i + 1];
    }
  }

  /**
    Over every graph, the sanitized value shows a removed secret iff the input exposes it
    through a kept key, a number or literal, the digits of a BigInt or a truncation note.
   */
  lemma SecretShowsIff(h: Heap, p: Policy, v: Value, s: string)
    requires Removes(p, s)
    ensures Shows(Sanitize(h, p, v, 0), s) <==> Exposes(p, Unfold(h, v, MAX_DEPTH), s)
  {
    SanitizeIsUnfolded(h, p, v, 0);
    ShowsIffExposed(p, Unfold(h, v, MAX_DEPTH), s);
  }

  /** A key is not rewritten: an object with the secret as a key keeps it. */
  lemma SecretKeyIsKept(p: Policy, s: string)
    requires Removes(p, s) && !p.isDropped(s) && !p.isSecretKey(s)
    ensures Shows(Sanitize(_ => Entries([(s, Plain("1"))]), p, Ref(0), 0), s)
  {
    var h: Heap := _ => Entries([(s, Plain("1"))]);
    var t := Unfold(h, Ref(0), MAX_DEPTH);
    assert UnfoldEntries(h, [(s, Plain("1"))], 7) == [Field(s, Leaf(Plain("1")))];
    assert t == Obj([Field(s, Leaf(Plain("1")))]);
    assert OccursAt(s, s, 0);
    assert IsKept(p, t.entries[0]);
    SecretShowsIff(h, p, Ref(0), s);
  }

  /** A number is not rewritten either: a secret of digits shows when it is thrown as a number. */
  lemma SecretNumberIsKept(p: Policy, key: string, digits: string)
    requires !p.isDropped(key) && !p.isSecretKey(key)
    ensures Sanitize(_ => Entries([(key, Plain(digits))]), p, Ref(0), 0) == JObj([Member(key, JPlain(digits))])
    ensures Shows(Sanitize(_ => Entries([(key, Plain(digits))]), p, Ref(0), 0), digits)
  {
    var h: Heap := _ => Entries([(key, Plain(digits))]);
    var entries := [(key, Plain(digits))];
    assert entries[1..] == [] && SanitizeFields(h, p, entries[1..], 0) == [];
    assert SanitizeFields(h, p, entries, 0) == [Member(key, JPlain(digits))];
    assert digits[..|digits|] == digits && OccursAt(digits, digits, 0);
    var out := JObj([Member(key, JPlain(digits))]);
    assert out.fields[0].value == JPlain(digits) && Shows(out.fields[0].value, digits);
  }
}
