/**
 * Verified scenarios of `validate` and `restoreValidation` on small registries,
 * with the rule engine fixed to a table of per-item outcomes.
 */
module Scenarios {
  import opened Wrappers
  import opened Aggregation
  import opened FormComponent

  /**
   * "user.name" passes and "user.age" fails with "too young": the promise
   * rejects with the failing field's errors alone.
   */
  method FailingFieldRejects() returns (report: Report)
    ensures report == Report(RejectedWith([[ValidateError("too young", "user.age")]]), [])
  {
    var name := FormItem(0, Some("user.name"));
    var age := FormItem(1, Some("user.age"));
    var form := new Form();
    var reg: Registry := [("user.name", [name]), ("user.age", [age])];
    form.formItems := reg;
    var errs := [ValidateError("too young", "user.age")];
    var passed := ValidationOutcome(true, None);
    var failed := ValidationOutcome(false, Some(errs));
    var engine := (it: FormItem, trigger: Option<string>, shouldRuleBeApplied: ApplyRule) =>
      if it == age then failed else passed;
    TwoKeysParticipants(reg);
    assert Outcomes([name, age], AcceptEveryRule, engine) == [passed, failed];
    OneFailureRejects(errs);
    report := form.Validate(engine);
  }

  /**
   * An item registered under the empty path is never asked, and the
   * promise resolves.
   */
  method EmptyPathIsSkipped() returns (report: Report, calls: seq<ItemCall>)
    ensures report == Report(Fulfilled, [])
    ensures calls == []
  {
    var unbound := FormItem(0, Some(""));
    var form := new Form();
    var reg: Registry := [("", [unbound])];
    form.formItems := reg;
    assert [unbound][..0] == [] && reg[..0] == [];
    assert Selected([unbound]) == [];
    assert Participants(reg) == [];
    var engine := (it: FormItem, trigger: Option<string>, shouldRuleBeApplied: ApplyRule) =>
      ValidationOutcome(true, None);
    report := form.Validate(engine);
    calls := form.itemCalls;
  }

  /** Resetting a form with no registered items makes no call. */
  method RestoreOnEmptyRegistry() returns (calls: seq<ItemCall>)
    ensures calls == []
  {
    var form := new Form();
    form.RestoreValidation();
    calls := form.itemCalls;
  }

  /**
   * Resetting reaches every registered item, the one under the empty path
   * included, in registry order.
   */
  method RestoreReachesUnboundItems() returns (calls: seq<ItemCall>)
    ensures calls == [CallRestoreValidation(FormItem(0, Some("user.name"))), CallRestoreValidation(FormItem(1, Some("")))]
  {
    var form := new Form();
    form.formItems := [("user.name", [FormItem(0, Some("user.name"))]), ("", [FormItem(1, Some(""))])];
    form.RestoreValidation();
    calls := form.itemCalls;
  }

  /** A registry of two keys holding one item each, both with a truthy path, asks both items in key order. */
  lemma TwoKeysParticipants(reg: Registry)
    requires |reg| == 2 && |reg[0].1| == 1 && |reg[1].1| == 1
    requires IsTruthy(reg[0].1[0].path) && IsTruthy(reg[1].1[0].path)
    ensures Participants(reg) == [reg[0].1[0], reg[1].1[0]]
  {
    var a, b := reg[0].1[0], reg[1].1[0];
    assert reg[0].1 == [a] && reg[1].1 == [b];
    assert [a][..0] == [] && [b][..0] == [];
    assert Selected([a]) == [a] && Selected([b]) == [b];
    assert reg[..1][..0] == [] && reg[..1] == [reg[0]];
    assert Participants(reg[..1]) == [a];
  }

  /** A passing outcome without errors followed by a failing one rejects with the failing one's errors alone. */
  lemma OneFailureRejects(errs: ErrorList)
    ensures Aggregate([ValidationOutcome(true, None), ValidationOutcome(false, Some(errs))], false)
         == Report(RejectedWith([errs]), [])
  {
    var passed, failed := ValidationOutcome(true, None), ValidationOutcome(false, Some(errs));
    assert [passed, failed] == [passed] + [failed];
    FailurePayloadAppend([passed], [failed]);
    FailurePayloadSingle(passed);
    FailurePayloadSingle(failed);
  }
}
