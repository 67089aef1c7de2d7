/** The budgets of one invocation: at most one memory and one time token, in source order. */
module BudgetSets {
  import opened Common
  import opened DecimalBudget

  datatype Budgets = Budgets(order: seq<BudgetToken>, memory: Option<nat>, deadline: Option<nat>)

  const EMPTY := Budgets([], None, None)

  function Refusal(b: Budgets, token: BudgetToken): (r: Option<BudgetError>) {
    if |b.order| == 2 then Some(TooMany)
    else if token.Memory? && b.memory.Some? then Some(DuplicateMemory)
    else if token.Time? && b.deadline.Some? then Some(DuplicateTime)
    else None
  }

  function Pushed(b: Budgets, token: BudgetToken): (next: Budgets) {
    if Refusal(b, token).Some? then b
    else if token.Memory? then Budgets(b.order + [token], Some(token.bytes), b.deadline)
    else Budgets(b.order + [token], b.memory, Some(token.millis))
  }

  class BudgetSet {
    var order: seq<BudgetToken>
    var memory: Option<nat>
    var deadline: Option<nat>

    ghost function View(): Budgets
      reads this
    {
      Budgets(order, memory, deadline)
    }

    constructor ()
      ensures View() == EMPTY
    {
      order, memory, deadline := [], None, None;
    }

    method Push(token: BudgetToken) returns (refusal: Option<BudgetError>)
      modifies this
      ensures refusal == Refusal(old(View()), token)
      ensures View() == Pushed(old(View()), token)
    {
      if |order| == 2 {
        return Some(TooMany);
      }
      match token {
        case Memory(_, bytes) =>
          if memory.Some? {
            return Some(DuplicateMemory);
          }
          memory := Some(bytes);
        case Time(_, millis) =>
          if deadline.Some? {
            return Some(DuplicateTime);
          }
          deadline := Some(millis);
      }
      order := order + [token];
      return None;
    }
  }

  // ----- runs -----------------------------------------------------------------------------

  function After(tokens: seq<BudgetToken>): (b: Budgets) {
    if tokens == [] then EMPTY
    else Pushed(After(tokens[..|tokens| - 1]), tokens[|tokens| - 1])
  }

  predicate SameKind(a: BudgetToken, b: BudgetToken) {
    a.Memory? == b.Memory?
  }

  /** Every token that is the first of its kind, in order. */
  function Firsts(tokens: seq<BudgetToken>): (kept: seq<BudgetToken>)
    ensures forall t :: t in kept ==> t in tokens
  {
    if tokens == [] then []
    else
      var before, last := tokens[..|tokens| - 1], tokens[|tokens| - 1];
      if exists t :: t in before && SameKind(t, last) then Firsts(before) else Firsts(before) + [last]
  }

  ghost predicate Mirrors(b: Budgets, tokens: seq<BudgetToken>) {
    && b.order == Firsts(tokens)
    && |b.order| == (if b.memory.Some? then 1 else 0) + (if b.deadline.Some? then 1 else 0)
    && (b.memory.Some? <==> exists t :: t in tokens && t.Memory?)
    && (b.deadline.Some? <==> exists t :: t in tokens && t.Time?)
    && (forall t :: t in b.order && t.Memory? ==> b.memory == Some(t.bytes))
    && (forall t :: t in b.order && t.Time? ==> b.deadline == Some(t.millis))
  }

  /** Whatever is pushed and however often it is refused, exactly the first of each kind is held. */
  lemma {:induction false} HoldsFirstOfEachKind(tokens: seq<BudgetToken>)
    ensures Mirrors(After(tokens), tokens)
  {
    if tokens == [] {
    } else {
      var before, last := tokens[..|tokens| - 1], tokens[|tokens| - 1];
      HoldsFirstOfEachKind(before);
      assert tokens == before + [last];
      MirrorsStep(After(before), before, last);
    }
  }

  lemma MirrorsStep(b: Budgets, before: seq<BudgetToken>, last: BudgetToken)
    requires Mirrors(b, before)
    ensures Mirrors(Pushed(b, last), before + [last])
  {
    var tokens := before + [last];
    assert tokens[..|tokens| - 1] == before;
    assert forall t :: t in tokens <==> t in before || t == last;
    if last.Memory? {
      assert (exists t :: t in before && SameKind(t, last)) <==> exists t :: t in before && t.Memory?;
    } else {
      assert (exists t :: t in before && SameKind(t, last)) <==> exists t :: t in before && t.Time?;
    }
  }

  /** A push is refused exactly when its kind came before; as one too many when both kinds did. */
  lemma RefusedExactly(tokens: seq<BudgetToken>, token: BudgetToken)
    ensures var refusal := Refusal(After(tokens), token);
      var memory, time := exists t :: t in tokens && t.Memory?, exists t :: t in tokens && t.Time?;
      && (refusal.Some? <==> if token.Memory? then memory else time)
      && (refusal == Some(TooMany) <==> memory && time)
      && (refusal == Some(DuplicateMemory) <==> token.Memory? && memory && !time)
      && (refusal == Some(DuplicateTime) <==> token.Time? && time && !memory)
  {
    HoldsFirstOfEachKind(tokens);
  }
}
