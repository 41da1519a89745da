/**
 * The `Form` component of src/form/src/Form.tsx: a registry of form items
 * grouped by path (`formItems`), bulk validation over it (`validate`) and
 * bulk reset (`restoreValidation`).
 */
module FormComponent {
  import opened Wrappers
  import opened Aggregation

  /** A validation rule. The form never looks inside one; it only hands the rule filter on. */
  datatype FormItemRule = FormItemRule(key: string)

  /** Decides whether a rule takes part in the current validation pass. */
  type ApplyRule = FormItemRule -> bool

  /** The default rule filter of `validate`: every rule applies. */
  function AcceptEveryRule(rule: FormItemRule): bool {
    true
  }

  /**
   * A registered form item as the form sees it: the identity of the item
   * instance and its `path` (absent when the item is bound to no field).
   */
  datatype FormItem = FormItem(id: nat, path: Option<string>)

  /** A call the form makes into one of its items. */
  datatype ItemCall =
    | CallInternalValidate(item: FormItem, trigger: Option<string>, shouldRuleBeApplied: ApplyRule)
    | CallRestoreValidation(item: FormItem)

  /**
   * The per-field rule engine behind an item's `internalValidate`: the
   * outcome the item settles with for a trigger and a rule filter.
   */
  type RuleEngine = (FormItem, Option<string>, ApplyRule) -> ValidationOutcome

  /** `formItems`: from path to the form items under it, in key order. */
  type Registry = seq<(string, seq<FormItem>)>

  /** JavaScript truthiness of a path: present and not the empty string. */
  predicate IsTruthy(path: Option<string>) {
    path.Some? && path.value != ""
  }

  /** Every registered item, key by key, then in array order within a key. */
  function Flatten(reg: Registry): (items: seq<FormItem>)
    ensures forall k, j :: 0 <= k < |reg| && 0 <= j < |reg[k].1| ==> reg[k].1[j] in items
  {
    if reg == [] then [] else Flatten(reg[..|reg| - 1]) + reg[|reg| - 1].1
  }

  /** The items of one key's array that `validate` asks, in array order. */
  function Selected(items: seq<FormItem>): (asked: seq<FormItem>)
    ensures |asked| <= |items|
    ensures forall i :: 0 <= i < |asked| ==> IsTruthy(asked[i].path)
  {
    if items == [] then []
    else
      var n := |items| - 1;
      Selected(items[..n]) + (if IsTruthy(items[n].path) then [items[n]] else [])
  }

  /**
   * The items `validate` asks, in the order it asks them: key by key, and
   * within a key those whose path is truthy.
   */
  function Participants(reg: Registry): (asked: seq<FormItem>)
    ensures forall i :: 0 <= i < |asked| ==> IsTruthy(asked[i].path)
  {
    if reg == [] then [] else Participants(reg[..|reg| - 1]) + Selected(reg[|reg| - 1].1)
  }

  /** The calls `validate` makes: a null trigger and the caller's rule filter for each item. */
  function ValidateCalls(items: seq<FormItem>, shouldRuleBeApplied: ApplyRule): seq<ItemCall> {
    seq(|items|, i requires 0 <= i < |items| => CallInternalValidate(items[i], None, shouldRuleBeApplied))
  }

  /** The outcomes those calls settle with, in the same order. */
  function Outcomes(items: seq<FormItem>, shouldRuleBeApplied: ApplyRule, engine: RuleEngine): seq<ValidationOutcome> {
    seq(|items|, i requires 0 <= i < |items| => engine(items[i], None, shouldRuleBeApplied))
  }

  /** The calls `restoreValidation` makes: one reset for each item. */
  function RestoreCalls(items: seq<FormItem>): seq<ItemCall> {
    seq(|items|, i requires 0 <= i < |items| => CallRestoreValidation(items[i]))
  }

  /** No item instance occurs twice, whatever path it is recorded with. */
  predicate Distinct(items: seq<FormItem>) {
    forall i, j :: 0 <= i < j < |items| ==> items[i].id != items[j].id
  }

  class Form {
    /** The registered items, grouped under the path they are bound to. */
    var formItems: Registry
    /** Every call the form has made into its items, in the order made. */
    var itemCalls: seq<ItemCall>

    constructor ()
      ensures formItems == [] && itemCalls == []
    {
      formItems := [];
      itemCalls := [];
    }

    /**
     * Asks every item with a truthy path for its outcome, key by key and in
     * array order, with a null trigger and the caller's rule filter, and
     * reports the aggregate of the outcomes. The registry is left as it was.
     */
    method Validate(engine: RuleEngine, hasCallback: bool := false, shouldRuleBeApplied: ApplyRule := AcceptEveryRule)
      returns (report: Report)
      modifies this`itemCalls
      ensures formItems == old(formItems)
      ensures itemCalls == old(itemCalls) + ValidateCalls(Participants(formItems), shouldRuleBeApplied)
      ensures report == Aggregate(Outcomes(Participants(formItems), shouldRuleBeApplied, engine), hasCallback)
    {
      var formItemValidationPromises: seq<ValidationOutcome> := [];
      ghost var asked: seq<FormItem> := [];
      var k := 0;
      while k < |formItems|
        invariant 0 <= k <= |formItems|
        invariant asked == Participants(formItems[..k])
        invariant itemCalls == old(itemCalls) + ValidateCalls(asked, shouldRuleBeApplied)
        invariant formItemValidationPromises == Outcomes(asked, shouldRuleBeApplied, engine)
      {
        var outcomes := ValidateInstances(formItems[k].1, engine, shouldRuleBeApplied);
        CallsAppend(asked, Selected(formItems[k].1), shouldRuleBeApplied, engine);
        formItemValidationPromises := formItemValidationPromises + outcomes;
        ParticipantsSnoc(formItems, k);
        asked := asked + Selected(formItems[k].1);
        k := k + 1;
      }
      assert formItems[..k] == formItems;
      assert formItemValidationPromises == Outcomes(Participants(formItems), shouldRuleBeApplied, engine);
      report := Aggregate(formItemValidationPromises, hasCallback);
    }

    /** The inner loop of `validate`: asks the items of one key's array, in array order. */
    method ValidateInstances(formItemInstances: seq<FormItem>, engine: RuleEngine, shouldRuleBeApplied: ApplyRule)
      returns (outcomes: seq<ValidationOutcome>)
      modifies this`itemCalls
      ensures itemCalls == old(itemCalls) + ValidateCalls(Selected(formItemInstances), shouldRuleBeApplied)
      ensures outcomes == Outcomes(Selected(formItemInstances), shouldRuleBeApplied, engine)
    {
      outcomes := [];
      ghost var asked: seq<FormItem> := [];
      var j := 0;
      while j < |formItemInstances|
        invariant 0 <= j <= |formItemInstances|
        invariant asked == Selected(formItemInstances[..j])
        invariant itemCalls == old(itemCalls) + ValidateCalls(asked, shouldRuleBeApplied)
        invariant outcomes == Outcomes(asked, shouldRuleBeApplied, engine)
      {
        var formItemInstance := formItemInstances[j];
        SelectedSnoc(formItemInstances, j);
        if IsTruthy(formItemInstance.path) {
          itemCalls := itemCalls + [CallInternalValidate(formItemInstance, None, shouldRuleBeApplied)];
          var outcome := engine(formItemInstance, None, shouldRuleBeApplied);
          outcomes := outcomes + [outcome];
          CallsAppend(asked, [formItemInstance], shouldRuleBeApplied, engine);
          asked := asked + [formItemInstance];
        }
        j := j + 1;
      }
      assert formItemInstances[..j] == formItemInstances;
    }

    /**
     * Asks every registered item to reset, whatever its path, key by key
     * and in array order. The registry is left as it was.
     */
    method RestoreValidation()
      modifies this`itemCalls
      ensures formItems == old(formItems)
      ensures itemCalls == old(itemCalls) + RestoreCalls(Flatten(formItems))
    {
      ghost var restored: seq<FormItem> := [];
      var k := 0;
      while k < |formItems|
        invariant 0 <= k <= |formItems|
        invariant restored == Flatten(formItems[..k])
        invariant itemCalls == old(itemCalls) + RestoreCalls(restored)
      {
        var formItemInstances := formItems[k].1;
        ghost var done := restored;
        var j := 0;
        while j < |formItemInstances|
          invariant 0 <= j <= |formItemInstances|
          invariant restored == done + formItemInstances[..j]
          invariant itemCalls == old(itemCalls) + RestoreCalls(restored)
        {
          var formItemInstance := formItemInstances[j];
          assert formItemInstances[..j + 1] == formItemInstances[..j] + [formItemInstance];
          itemCalls := itemCalls + [CallRestoreValidation(formItemInstance)];
          assert RestoreCalls(restored + [formItemInstance]) == RestoreCalls(restored) + [CallRestoreValidation(formItemInstance)];
          restored := restored + [formItemInstance];
          j := j + 1;
        }
        assert formItemInstances[..j] == formItemInstances;
        FlattenSnoc(formItems, k);
        k := k + 1;
      }
      assert formItems[..k] == formItems;
    }
  }

  lemma SelectedSnoc(items: seq<FormItem>, j: nat)
    requires j < |items|
    ensures Selected(items[..j + 1]) == Selected(items[..j]) + if IsTruthy(items[j].path) then [items[j]] else []
  {
    assert items[..j + 1][..j] == items[..j];
  }

  lemma ParticipantsSnoc(reg: Registry, k: nat)
    requires k < |reg|
    ensures Participants(reg[..k + 1]) == Participants(reg[..k]) + Selected(reg[k].1)
  {
    assert reg[..k + 1][..k] == reg[..k];
  }

  lemma FlattenSnoc(reg: Registry, k: nat)
    requires k < |reg|
    ensures Flatten(reg[..k + 1]) == Flatten(reg[..k]) + reg[k].1
  {
    assert reg[..k + 1][..k] == reg[..k];
  }

  lemma CallsAppend(a: seq<FormItem>, b: seq<FormItem>, shouldRuleBeApplied: ApplyRule, engine: RuleEngine)
    ensures ValidateCalls(a + b, shouldRuleBeApplied)
         == ValidateCalls(a, shouldRuleBeApplied) + ValidateCalls(b, shouldRuleBeApplied)
    ensures Outcomes(a + b, shouldRuleBeApplied, engine)
         == Outcomes(a, shouldRuleBeApplied, engine) + Outcomes(b, shouldRuleBeApplied, engine)
  {
  }

  /** An item is selected as often as it occurs in the array if its path is truthy, and never otherwise. */
  lemma {:induction false} SelectedCounts(items: seq<FormItem>, it: FormItem)
    ensures multiset(Selected(items))[it] == if IsTruthy(it.path) then multiset(items)[it] else 0
  {
    if items != [] {
      var n := |items| - 1;
      assert items == items[..n] + [items[n]];
      SelectedCounts(items[..n], it);
    }
  }

  /**
   * Only items with a truthy path are asked, each as often as it is
   * registered; an item whose path is absent or empty is never asked.
   */
  lemma {:induction false} ParticipantsCounts(reg: Registry, it: FormItem)
    ensures multiset(Participants(reg))[it] == if IsTruthy(it.path) then multiset(Flatten(reg))[it] else 0
  {
    if reg != [] {
      var n := |reg| - 1;
      ParticipantsCounts(reg[..n], it);
      SelectedCounts(reg[n].1, it);
    }
  }

  lemma {:induction false} SelectedAppend(a: seq<FormItem>, b: seq<FormItem>)
    ensures Selected(a + b) == Selected(a) + Selected(b)
    decreases |b|
  {
    if b == [] {
      assert a + b == a;
    } else {
      var n := |b| - 1;
      assert (a + b)[..|a + b| - 1] == a + b[..n];
      SelectedAppend(a, b[..n]);
    }
  }

  /**
   * Registry order is kept: the items of earlier keys are asked before
   * those of later keys.
   */
  lemma {:induction false} ParticipantsAppend(a: Registry, b: Registry)
    ensures Participants(a + b) == Participants(a) + Participants(b)
    decreases |b|
  {
    if b == [] {
      assert a + b == a;
    } else {
      var n := |b| - 1;
      assert (a + b)[..|a + b| - 1] == a + b[..n];
      ParticipantsAppend(a, b[..n]);
    }
  }

  /**
   * The participants are exactly the registered items, key by key and in
   * array order, with those whose path is not truthy left out.
   */
  lemma {:induction false} ParticipantsInRegistryOrder(reg: Registry)
    ensures Participants(reg) == Selected(Flatten(reg))
  {
    if reg != [] {
      var n := |reg| - 1;
      ParticipantsInRegistryOrder(reg[..n]);
      SelectedAppend(Flatten(reg[..n]), reg[n].1);
    }
  }

  lemma {:induction false} DistinctOccursOnce(items: seq<FormItem>, it: FormItem)
    requires Distinct(items) && it in items
    ensures multiset(items)[it] == 1
  {
    var n := |items| - 1;
    assert items == items[..n] + [items[n]];
    assert Distinct(items[..n]);
    if items[n] == it {
      assert forall i :: 0 <= i < n ==> items[..n][i] != it;
      assert it !in items[..n];
    } else {
      DistinctOccursOnce(items[..n], it);
    }
  }

  /**
   * When no item is registered twice, `restoreValidation` resets each
   * registered item exactly once, and `validate` asks each registered item
   * exactly once if its path is truthy and never otherwise.
   */
  lemma ExactlyOnce(reg: Registry, it: FormItem, shouldRuleBeApplied: ApplyRule)
    requires Distinct(Flatten(reg)) && it in Flatten(reg)
    ensures |set i | 0 <= i < |RestoreCalls(Flatten(reg))| && RestoreCalls(Flatten(reg))[i] == CallRestoreValidation(it)| == 1
    ensures |set i | 0 <= i < |ValidateCalls(Participants(reg), shouldRuleBeApplied)|
                   && ValidateCalls(Participants(reg), shouldRuleBeApplied)[i].item == it|
         == if IsTruthy(it.path) then 1 else 0
  {
    var items, asked := Flatten(reg), Participants(reg);
    var restores, validates := RestoreCalls(items), ValidateCalls(asked, shouldRuleBeApplied);
    DistinctOccursOnce(items, it);
    ParticipantsCounts(reg, it);
    OccurrenceIndices(items, it);
    OccurrenceIndices(asked, it);
    assert (set i | 0 <= i < |restores| && restores[i] == CallRestoreValidation(it))
        == (set i | 0 <= i < |items| && items[i] == it);
    assert (set i | 0 <= i < |validates| && validates[i].item == it)
        == (set i | 0 <= i < |asked| && asked[i] == it);
  }

  /** The positions holding an item are as many as its occurrences. */
  lemma {:induction false} OccurrenceIndices(items: seq<FormItem>, it: FormItem)
    ensures |set i | 0 <= i < |items| && items[i] == it| == multiset(items)[it]
  {
    if items != [] {
      var n := |items| - 1;
      assert items == items[..n] + [items[n]];
      OccurrenceIndices(items[..n], it);
      var s := set i | 0 <= i < |items| && items[i] == it;
      var s' := set i | 0 <= i < n && items[..n][i] == it;
      assert s == if items[n] == it then s' + {n} else s';
    }
  }

  /**
   * With no registered item whose path is truthy (an empty registry
   * included) nothing is asked and `validate` reports success.
   */
  lemma NoParticipantsSucceeds(reg: Registry, shouldRuleBeApplied: ApplyRule, engine: RuleEngine, hasCallback: bool)
    requires forall it :: it in Flatten(reg) ==> !IsTruthy(it.path)
    ensures Participants(reg) == []
    ensures Succeeded(Aggregate(Outcomes(Participants(reg), shouldRuleBeApplied, engine), hasCallback))
  {
    var p := Participants(reg);
    if p != [] {
      ParticipantsCounts(reg, p[0]);
      assert false;
    }
  }

  /**
   * Reference count of the registrations of an item: its occurrences in each
   * key's array, summed from the first key to the last.
   */
  function Registrations(reg: Registry, it: FormItem): nat {
    if reg == [] then 0 else multiset(reg[0].1)[it] + Registrations(reg[1..], it)
  }

  lemma {:induction false} RegistrationsSnoc(reg: Registry, it: FormItem)
    requires reg != []
    ensures Registrations(reg, it) == Registrations(reg[..|reg| - 1], it) + multiset(reg[|reg| - 1].1)[it]
  {
    if |reg| > 1 {
      assert reg[1..][..|reg[1..]| - 1] == reg[..|reg| - 1][1..];
      RegistrationsSnoc(reg[1..], it);
    }
  }

  /**
   * `restoreValidation` resets an item as often as it is registered, over
   * all keys: an item registered under two keys is reset twice.
   */
  lemma {:induction false} FlattenCounts(reg: Registry, it: FormItem)
    ensures multiset(Flatten(reg))[it] == Registrations(reg, it)
  {
    if reg != [] {
      var n := |reg| - 1;
      FlattenCounts(reg[..n], it);
      RegistrationsSnoc(reg, it);
    }
  }

  /** Every item the registry order yields is registered under some key. */
  lemma {:induction false} FlattenOnlyRegistered(reg: Registry, it: FormItem)
    requires it in Flatten(reg)
    ensures exists k :: 0 <= k < |reg| && it in reg[k].1
  {
    var n := |reg| - 1;
    if it !in reg[n].1 {
      assert it in Flatten(reg[..n]);
      FlattenOnlyRegistered(reg[..n], it);
      var k :| 0 <= k < n && it in reg[..n][k].1;
      assert reg[k] == reg[..n][k];
    }
  }
}
