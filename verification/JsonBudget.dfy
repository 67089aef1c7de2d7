/**
 The one-pass structural check on record JSON: two budgets, one of nodes and one
 of metadata text, are threaded through the tree as it is visited.
 */
module JsonBudget {
  import opened Common

  const MAX_NODES: nat := 16 * 1024
  const MAX_TEXT: nat := 256 * 1024
  const MAX_DEPTH: nat := 32
  const MAX_KEY: nat := 64

  /** UTF-8 bytes. */
  type Text = seq<Byte>

  /** The ASCII text terminal_response_json. */
  const OUTBOX: Text := [
    0x74, 0x65, 0x72, 0x6D, 0x69, 0x6E, 0x61, 0x6C, 0x5F, 0x72, 0x65, 0x73, 0x70, 0x6F, 0x6E, 0x73, 0x65, 0x5F, 0x6A,
    0x73, 0x6F, 0x6E]

  datatype Json = Null | Bool(b: bool) | Number(n: real) | Str(text: Text) | Arr(items: seq<Json>) | Obj(fields: seq<Field>)
  datatype Field = Field(key: Text, value: Json)

  // ----- what the budgets are spent on ----------------------------------------------------

  function Nodes(j: Json): (n: nat)
    ensures n >= 1
    decreases j, 0
  {
    1 + match j
        case Arr(items) => ItemNodes(items, 0)
        case Obj(fields) => FieldNodes(fields, 0)
        case _ => 0
  }

  function ItemNodes(items: seq<Json>, i: nat): (n: nat)
    requires i <= |items|
    decreases items, |items| - i
  {
    if i == |items| then 0 else Nodes(items[i]) + ItemNodes(items, i + 1)
  }

  function FieldNodes(fields: seq<Field>, i: nat): (n: nat)
    requires i <= |fields|
    decreases fields, |fields| - i
  {
    if i == |fields| then 0 else Nodes(fields[i].value) + FieldNodes(fields, i + 1)
  }

  /** Bytes of string values, other than a string standing directly under the top-level outbox key. */
  function MetadataText(j: Json, depth: nat, outbox: bool): (n: nat)
    decreases j, 0
  {
    match j
    case Str(text) => if outbox then 0 else |text|
    case Arr(items) => ItemText(items, 0, depth)
    case Obj(fields) => FieldText(fields, 0, depth)
    case _ => 0
  }

  function ItemText(items: seq<Json>, i: nat, depth: nat): (n: nat)
    requires i <= |items|
    decreases items, |items| - i
  {
    if i == |items| then 0 else MetadataText(items[i], depth + 1, false) + ItemText(items, i + 1, depth)
  }

  function FieldText(fields: seq<Field>, i: nat, depth: nat): (n: nat)
    requires i <= |fields|
    decreases fields, |fields| - i
  {
    if i == |fields| then 0
    else MetadataText(fields[i].value, depth + 1, IsOutbox(depth, fields[i].key)) + FieldText(fields, i + 1, depth)
  }

  predicate IsOutbox(depth: nat, key: Text) {
    depth == 0 && key == OUTBOX
  }

  predicate KeyFits(key: Text) {
    |key| <= MAX_KEY && 0 !in key
  }

  /** Every node of `j` lies no deeper than the limit when `j` itself is at `depth`. */
  predicate DepthFits(j: Json, depth: nat)
    decreases j
  {
    && depth <= MAX_DEPTH
    && match j
       case Arr(items) => forall i :: 0 <= i < |items| ==> DepthFits(items[i], depth + 1)
       case Obj(fields) => forall i :: 0 <= i < |fields| ==> DepthFits(fields[i].value, depth + 1)
       case _ => true
  }

  predicate KeysFit(j: Json)
    decreases j
  {
    match j
    case Arr(items) => forall i :: 0 <= i < |items| ==> KeysFit(items[i])
    case Obj(fields) => forall i :: 0 <= i < |fields| ==> IsShort(fields[i].key) && KeysFit(fields[i].value)
    case _ => true
  }

  /** At most 64 bytes, none of them NUL. */
  predicate IsShort(key: Text) {
    |key| <= 64 && forall i :: 0 <= i < |key| ==> key[i] != 0
  }

  /** The tree fits what is left of both budgets. */
  ghost predicate Fits(j: Json, depth: nat, outbox: bool, nodes: nat, text: nat) {
    Nodes(j) <= nodes && DepthFits(j, depth) && KeysFit(j) && MetadataText(j, depth, outbox) <= text
  }

  // ----- the pass -----------------------------------------------------------------------------

  class Budget {
    var remaining: nat
    var textRemaining: nat

    constructor (nodes: nat, text: nat)
      ensures remaining == nodes && textRemaining == text
    {
      remaining, textRemaining := nodes, text;
    }
  }

  method Visit(budget: Budget, j: Json, depth: nat, outbox: bool) returns (ok: bool)
    modifies budget
    ensures ok <==> Fits(j, depth, outbox, old(budget.remaining), old(budget.textRemaining))
    ensures ok ==> budget.remaining == old(budget.remaining) - Nodes(j)
    ensures ok ==> budget.textRemaining == old(budget.textRemaining) - MetadataText(j, depth, outbox)
    decreases j, 1
  {
    if budget.remaining == 0 || depth > MAX_DEPTH {
      return false;
    }
    budget.remaining := budget.remaining - 1;
    match j {
      case Str(text) =>
        if !outbox {
          if |text| > budget.textRemaining {
            return false;
          }
          budget.textRemaining := budget.textRemaining - |text|;
        }
        return true;
      case Arr(items) => ok := VisitItems(budget, items, depth);
      case Obj(fields) => ok := VisitFields(budget, fields, depth);
      case _ => return true;
    }
  }

  method VisitItems(budget: Budget, items: seq<Json>, depth: nat) returns (ok: bool)
    modifies budget
    ensures ok <==>
      && ItemNodes(items, 0) <= old(budget.remaining) && ItemText(items, 0, depth) <= old(budget.textRemaining)
      && (forall i :: 0 <= i < |items| ==> DepthFits(items[i], depth + 1) && KeysFit(items[i]))
    ensures ok ==> budget.remaining == old(budget.remaining) - ItemNodes(items, 0)
    ensures ok ==> budget.textRemaining == old(budget.textRemaining) - ItemText(items, 0, depth)
    decreases items, 0
  {
    for n := 0 to |items|
      invariant budget.remaining - ItemNodes(items, n) == old(budget.remaining) - ItemNodes(items, 0)
      invariant budget.textRemaining - ItemText(items, n, depth) == old(budget.textRemaining) - ItemText(items, 0, depth)
      invariant forall i :: 0 <= i < n ==> DepthFits(items[i], depth + 1) && KeysFit(items[i])
    {
      ok := Visit(budget, items[n], depth + 1, false);
      if !ok {
        return;
      }
    }
    ok := true;
  }

  method VisitFields(budget: Budget, fields: seq<Field>, depth: nat) returns (ok: bool)
    modifies budget
    ensures ok <==>
      && FieldNodes(fields, 0) <= old(budget.remaining) && FieldText(fields, 0, depth) <= old(budget.textRemaining)
      && (forall i :: 0 <= i < |fields| ==>
            IsShort(fields[i].key) && DepthFits(fields[i].value, depth + 1) && KeysFit(fields[i].value))
    ensures ok ==> budget.remaining == old(budget.remaining) - FieldNodes(fields, 0)
    ensures ok ==> budget.textRemaining == old(budget.textRemaining) - FieldText(fields, 0, depth)
    decreases fields, 0
  {
    for n := 0 to |fields|
      invariant budget.remaining - FieldNodes(fields, n) == old(budget.remaining) - FieldNodes(fields, 0)
      invariant budget.textRemaining - FieldText(fields, n, depth)
             == old(budget.textRemaining) - FieldText(fields, 0, depth)
      invariant forall i :: 0 <= i < n ==>
        IsShort(fields[i].key) && DepthFits(fields[i].value, depth + 1) && KeysFit(fields[i].value)
    {
      var field := fields[n];
      if !KeyFits(field.key) {
        return false;
      }
      ok := Visit(budget, field.value, depth + 1, IsOutbox(depth, field.key));
      if !ok {
        return;
      }
    }
    ok := true;
  }

  // ----- the same limits as totals over the tree -------------------------------------------------

  function Height(j: Json): (h: nat)
    decreases j, 0
  {
    match j
    case Arr(items) => ItemHeight(items, 0)
    case Obj(fields) => FieldHeight(fields, 0)
    case _ => 0
  }

  function ItemHeight(items: seq<Json>, i: nat): (h: nat)
    requires i <= |items|
    decreases items, |items| - i
  {
    if i == |items| then 0 else Max(1 + Height(items[i]), ItemHeight(items, i + 1))
  }

  function FieldHeight(fields: seq<Field>, i: nat): (h: nat)
    requires i <= |fields|
    decreases fields, |fields| - i
  {
    if i == |fields| then 0 else Max(1 + Height(fields[i].value), FieldHeight(fields, i + 1))
  }

  lemma {:induction false} DepthIsHeight(j: Json, depth: nat)
    ensures DepthFits(j, depth) <==> depth + Height(j) <= MAX_DEPTH
    decreases j, 0
  {
    match j
    case Arr(items) => ItemDepths(items, 0, depth);
    case Obj(fields) => FieldDepths(fields, 0, depth);
    case _ =>
  }

  lemma {:induction false} ItemDepths(items: seq<Json>, i: nat, depth: nat)
    requires i <= |items|
    ensures (depth <= MAX_DEPTH && forall k :: i <= k < |items| ==> DepthFits(items[k], depth + 1))
       <==> depth + ItemHeight(items, i) <= MAX_DEPTH
    decreases items, |items| - i
  {
    if i == |items| {
    } else {
      DepthIsHeight(items[i], depth + 1);
      ItemDepths(items, i + 1, depth);
    }
  }

  lemma {:induction false} FieldDepths(fields: seq<Field>, i: nat, depth: nat)
    requires i <= |fields|
    ensures (depth <= MAX_DEPTH && forall k :: i <= k < |fields| ==> DepthFits(fields[k].value, depth + 1))
       <==> depth + FieldHeight(fields, i) <= MAX_DEPTH
    decreases fields, |fields| - i
  {
    if i == |fields| {
    } else {
      DepthIsHeight(fields[i].value, depth + 1);
      FieldDepths(fields, i + 1, depth);
    }
  }

  /** All string bytes of the tree. */
  function AllText(j: Json): (n: nat)
    decreases j, 0
  {
    match j
    case Str(text) => |text|
    case Arr(items) => AllItemText(items, 0)
    case Obj(fields) => AllFieldText(fields, 0)
    case _ => 0
  }

  function AllItemText(items: seq<Json>, i: nat): (n: nat)
    requires i <= |items|
    decreases items, |items| - i
  {
    if i == |items| then 0 else AllText(items[i]) + AllItemText(items, i + 1)
  }

  function AllFieldText(fields: seq<Field>, i: nat): (n: nat)
    requires i <= |fields|
    decreases fields, |fields| - i
  {
    if i == |fields| then 0 else AllText(fields[i].value) + AllFieldText(fields, i + 1)
  }

  /** Bytes of the strings that are values of the outbox key of the top-level object. */
  function OutboxText(j: Json): (n: nat) {
    if j.Obj? then OutboxFields(j.fields, 0) else 0
  }

  function OutboxFields(fields: seq<Field>, i: nat): (n: nat)
    requires i <= |fields|
    decreases |fields| - i
  {
    if i == |fields| then 0
    else
      var f := fields[i];
      (if NamesOutbox(f.key) && f.value.Str? then |f.value.text| else 0) + OutboxFields(fields, i + 1)
  }

  predicate NamesOutbox(key: Text) {
    var name := "terminal_response_json";
    |key| == |name| && forall i :: 0 <= i < |name| ==> key[i] == name[i] as int
  }

  lemma OutboxNamed(key: Text)
    ensures NamesOutbox(key) <==> key == OUTBOX
  {
  }

  lemma {:induction false} NestedText(j: Json, depth: nat, outbox: bool)
    requires depth > 0
    ensures MetadataText(j, depth, outbox) == if outbox && j.Str? then 0 else AllText(j)
    decreases j, 0
  {
    match j
    case Arr(items) => NestedItems(items, 0, depth);
    case Obj(fields) => NestedFields(fields, 0, depth);
    case _ =>
  }

  lemma {:induction false} NestedItems(items: seq<Json>, i: nat, depth: nat)
    requires i <= |items|
    ensures ItemText(items, i, depth) == AllItemText(items, i)
    decreases items, |items| - i
  {
    if i == |items| {
    } else {
      NestedText(items[i], depth + 1, false);
      NestedItems(items, i + 1, depth);
    }
  }

  lemma {:induction false} NestedFields(fields: seq<Field>, i: nat, depth: nat)
    requires i <= |fields| && depth > 0
    ensures FieldText(fields, i, depth) == AllFieldText(fields, i)
    decreases fields, |fields| - i
  {
    if i == |fields| {
    } else {
      NestedText(fields[i].value, depth + 1, false);
      NestedFields(fields, i + 1, depth);
    }
  }

  lemma {:induction false} TopFields(fields: seq<Field>, i: nat)
    requires i <= |fields|
    ensures FieldText(fields, i, 0) + OutboxFields(fields, i) == AllFieldText(fields, i)
    decreases |fields| - i
  {
    if i == |fields| {
    } else {
      NestedText(fields[i].value, 1, IsOutbox(0, fields[i].key));
      OutboxNamed(fields[i].key);
      TopFields(fields, i + 1);
    }
  }

  /** The text charged is all the text there is, less exactly the top-level outbox strings. */
  lemma ChargedText(j: Json)
    ensures MetadataText(j, 0, false) + OutboxText(j) == AllText(j)
  {
    match j
    case Arr(items) => NestedItems(items, 0, 0);
    case Obj(fields) => TopFields(fields, 0);
    case _ =>
  }

  /** The whole check: accepted exactly when the tree's totals are within every limit. */
  method ValidateStructure(j: Json) returns (ok: bool)
    ensures ok <==>
      && Nodes(j) <= 16384 && Height(j) <= 32 && KeysFit(j)
      && AllText(j) - OutboxText(j) <= 262144
  {
    var budget := new Budget(MAX_NODES, MAX_TEXT);
    ok := Visit(budget, j, 0, false);
    DepthIsHeight(j, 0);
    ChargedText(j);
  }
}
