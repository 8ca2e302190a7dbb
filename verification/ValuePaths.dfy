/**
  What `sanitizeValue` makes of each place of a value: the leaf found along a path of the
  result, told from what lies along that path in the input.
 */
module ValuePaths {
  import opened Strings
  import opened SanitizeValue

  /** One step into an array or an object. */
  datatype Step = Index(i: nat) | Name(key: string)

  function FieldOf(fields: seq<Member>, key: string): Option<Json> {
    if fields == [] then None else if fields[0].key == key then Some(fields[0].value) else FieldOf(fields[1..], key)
  }

  function EntryOf(entries: seq<(string, Value)>, key: string): Option<Value> {
    if entries == [] then None else if entries[0].0 == key then Some(entries[0].1) else EntryOf(entries[1..], key)
  }

  /** What stands at the end of a path of a sanitized value. */
  function At(j: Json, path: seq<Step>): Option<Json>
    decreases |path|
  {
    if path == [] then Some(j)
    else match (j, path[0])
      case (JArr(items), Index(i)) => if i < |items| then At(items[i], path[1..]) else None
      case (JObj(fields), Name(key)) =>
        var field := FieldOf(fields, key);
        if field.Some? then At(field.value, path[1..]) else None
      case _ => None
  }

  /** What becomes of the place at the end of a path of the input. */
  datatype Fate = Gone | Redacted | CountOf(more: nat) | Kept(v: Value, depth: nat)

  /**
    Along the path, items past the fiftieth are gone and the fifty-first stands for their
    number; dropped keys and undefined fields are gone; under a secret name nothing is left
    but the marker; and nothing is left below the eighth level.
   */
  function FateOf(h: Heap, p: Policy, v: Value, depth: nat, path: seq<Step>): Fate
    decreases |path|
  {
    if path == [] then Kept(v, depth)
    else if !v.Ref? || depth >= 8 then Gone
    else match (h(v.id), path[0])
      case (Items(items), Index(i)) =>
        if i < |items| && i < 50 then FateOf(h, p, items[i], depth + 1, path[1..])
        else if i == 50 && |items| > 50 && |path| == 1 then CountOf(|items| - 50)
        else Gone
      case (Entries(entries), Name(key)) =>
        var inner := EntryOf(entries, key);
        if inner.None? || p.isDropped(key) then Gone
        else if p.isSecretKey(key) then if |path| == 1 then Redacted else Gone
        else if inner.value.Undefined? then Gone
        else FateOf(h, p, inner.value, depth + 1, path[1..])
      case _ => Gone
  }

  ghost predicate IsNoteOf(n: nat, t: string) {
    exists digits ::
      IsDecimalText(digits) && ParseDecimal(digits) == n && t == "[" + digits + " more items truncated]"
  }

  /** The text a value of this fate is given. */
  ghost predicate Meets(h: Heap, p: Policy, fate: Fate, out: Option<Json>) {
    match fate
    case Gone => out == None
    case Redacted => out == Some(JStr("[redacted]"))
    case CountOf(n) => out.Some? && out.value.JStr? && IsNoteOf(n, out.value.s)
    case Kept(Str(s), _) => out == Some(JStr(p.clean(s)))
    case Kept(Plain(t), _) => out == Some(JPlain(t))
    case Kept(BigInt(n), _) => out.Some? && out.value.JStr? && IsIntText(out.value.s) && ParseInt(out.value.s) == n
    case Kept(Undefined, _) => out == Some(JUndefined)
    case Kept(Ref(id), depth) =>
      if depth >= 8 then out == Some(JStr("[truncated]"))
      else match h(id)
        case Items(items) =>
          out.Some? && out.value.JArr? && |out.value.items| == if |items| > 50 then 51 else |items|
        case Entries(_) => out.Some? && out.value.JObj?
  }

  /** `Object.entries` lists each key once. */
  ghost predicate UniqueNames(entries: seq<(string, Value)>) {
    forall i, j :: 0 <= i < j < |entries| ==> entries[i].0 != entries[j].0
  }

  ghost predicate WellNamed(h: Heap) {
    forall id :: h(id).Entries? ==> UniqueNames(h(id).entries)
  }

  lemma {:induction false} ItemIsSanitized(h: Heap, p: Policy, items: seq<Value>, depth: nat, i: nat)
    requires depth < 8 && i < |items|
    ensures SanitizeItems(h, p, items, depth)[i] == Sanitize(h, p, items[i], depth + 1)
    decreases |items|
  {
    if i > 0 { ItemIsSanitized(h, p, items[1..], depth, i - 1); }
  }

  lemma {:induction false} MissingStaysMissing(
    h: Heap, p: Policy, entries: seq<(string, Value)>, depth: nat, key: string)
    requires depth < 8 && forall i :: 0 <= i < |entries| ==> entries[i].0 != key
    ensures FieldOf(SanitizeFields(h, p, entries, depth), key) == None
    decreases |entries|
  {
    if entries != [] {
      MissingStaysMissing(h, p, entries[1..], depth, key);
      FirstField(h, p, entries, depth, key);
    }
  }

  lemma {:induction false} FirstField(h: Heap, p: Policy, entries: seq<(string, Value)>, depth: nat, key: string)
    requires depth < 8 && entries != []
    ensures var (name, inner) := entries[0];
            var rest := FieldOf(SanitizeFields(h, p, entries[1..], depth), key);
            FieldOf(SanitizeFields(h, p, entries, depth), key) ==
              if name != key || p.isDropped(name) then rest
              else if p.isSecretKey(name) then Some(JStr("[redacted]"))
              else if inner.Undefined? then rest
              else Some(Sanitize(h, p, inner, depth + 1))
  {
    var rest := SanitizeFields(h, p, entries[1..], depth);
    var fields := SanitizeFields(h, p, entries, depth);
    assert Sanitize(h, p, entries[0].1, depth + 1) == JUndefined <==> entries[0].1.Undefined?;
    if |fields| > |rest| { assert fields[1..] == rest; }
  }

  lemma {:induction false} FieldIsSanitized(h: Heap, p: Policy, entries: seq<(string, Value)>, depth: nat, key: string)
    requires depth < 8 && UniqueNames(entries)
    ensures FieldOf(SanitizeFields(h, p, entries, depth), key) ==
              match EntryOf(entries, key)
              case None => None
              case Some(inner) =>
                if p.isDropped(key) then None
                else if p.isSecretKey(key) then Some(JStr("[redacted]"))
                else if inner.Undefined? then None
                else Some(Sanitize(h, p, inner, depth + 1))
    decreases |entries|
  {
    if entries != [] {
      FirstField(h, p, entries, depth, key);
      if entries[0].0 == key {
        MissingStaysMissing(h, p, entries[1..], depth, key);
      } else {
        FieldIsSanitized(h, p, entries[1..], depth, key);
      }
    }
  }

  /**
    Place by place, over every graph: what stands at the end of any path of the sanitized
    value is what became of the place at the end of that path of the input.
   */
  lemma {:induction false} EveryPlaceMeetsItsFate(h: Heap, p: Policy, v: Value, depth: nat, path: seq<Step>)
    requires WellNamed(h) && depth <= 8
    ensures Meets(h, p, FateOf(h, p, v, depth, path), At(Sanitize(h, p, v, depth), path))
    decreases |path|
  {
    if path == [] {
      PlaceItself(h, p, v, depth);
    } else if v.Ref? && depth < 8 {
      match (h(v.id), path[0])
      case (Items(items), Index(i)) => ItemMeets(h, p, v, items, depth, i, path);
      case (Entries(entries), Name(key)) =>
        FieldIsSanitized(h, p, entries, depth, key);
        var inner := EntryOf(entries, key);
        if inner.Some? && !p.isDropped(key) && !p.isSecretKey(key) && !inner.value.Undefined? {
          EveryPlaceMeetsItsFate(h, p, inner.value, depth + 1, path[1..]);
        }
      case _ =>
    }
  }

  lemma {:induction false} PlaceItself(h: Heap, p: Policy, v: Value, depth: nat)
    requires depth <= 8
    ensures Meets(h, p, Kept(v, depth), Some(Sanitize(h, p, v, depth)))
  {
    if v.BigInt? { IntTextIff(v.n, IntText(v.n)); }
  }

  lemma {:induction false} ItemMeets(
    h: Heap, p: Policy, v: Value, items: seq<Value>, depth: nat, i: nat, path: seq<Step>)
    requires WellNamed(h) && depth < 8 && v.Ref? && h(v.id) == Items(items) && path != [] && path[0] == Index(i)
    ensures Meets(h, p, FateOf(h, p, v, depth, path), At(Sanitize(h, p, v, depth), path))
    decreases |path|, 0
  {
    var kept := Prefix(items, 50);
    var out := Sanitize(h, p, v, depth).items;
    assert |out| == if |items| > 50 then 51 else |items|;
    if i < |kept| {
      ItemIsSanitized(h, p, kept, depth, i);
      assert out[i] == Sanitize(h, p, items[i], depth + 1);
      EveryPlaceMeetsItsFate(h, p, items[i], depth + 1, path[1..]);
    } else if i == 50 && |items| > 50 {
      assert out[50] == JStr(MoreItems(|items| - 50));
      MoreItemsIff(|items| - 50, MoreItems(|items| - 50));
      assert IsNoteOf(|items| - 50, MoreItems(|items| - 50));
      if |path| == 1 { assert At(out[50], path[1..]) == Some(out[50]); }
    }
  }

  /** The fields that are left stand in the order of the input. */
  lemma {:induction false} OrderIsKept(
    h: Heap, p: Policy, entries: seq<(string, Value)>, depth: nat, j: nat, k: nat) returns (a: nat, b: nat)
    requires depth < 8 && j < k < |SanitizeFields(h, p, entries, depth)|
    ensures a < b < |entries|
    ensures SanitizeFields(h, p, entries, depth)[j].key == entries[a].0
    ensures SanitizeFields(h, p, entries, depth)[k].key == entries[b].0
    decreases |entries|
  {
    var fields, rest := SanitizeFields(h, p, entries, depth), SanitizeFields(h, p, entries[1..], depth);
    if |fields| > |rest| && j == 0 {
      a := 0;
      b := FieldHasEntry(h, p, entries[1..], depth, k - 1);
      b := b + 1;
    } else {
      var n := |fields| - |rest|;
      a, b := OrderIsKept(h, p, entries[1..], depth, j - n, k - n);
      a, b := a + 1, b + 1;
    }
  }

  lemma {:induction false} FieldHasEntry(h: Heap, p: Policy, entries: seq<(string, Value)>, depth: nat, k: nat)
    returns (b: nat)
    requires depth < 8 && k < |SanitizeFields(h, p, entries, depth)|
    ensures b < |entries| && SanitizeFields(h, p, entries, depth)[k].key == entries[b].0
    decreases |entries|
  {
    var fields, rest := SanitizeFields(h, p, entries, depth), SanitizeFields(h, p, entries[1..], depth);
    if |fields| > |rest| && k == 0 {
      b := 0;
    } else {
      b := FieldHasEntry(h, p, entries[1..], depth, k - (|fields| - |rest|));
      b := b + 1;
    }
  }
}
