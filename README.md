# Form validation fan-out and fan-in

A Dafny model of the `Form` component's two bulk operations in
`src/form/src/Form.tsx`:

- `validate(validateCallback?, shouldRuleBeApplied = () => true)` walks the
  registry `formItems` (path key → array of registered form items). It walks
  key by key and, within a key, in array order. It asks every item whose
  `path` is truthy to `internalValidate(null, shouldRuleBeApplied)`. Once
  all outcomes are in:
  - If some outcome is invalid, it reports failure with the `errors` of
    every outcome whose `errors` is truthy. The report goes to the callback
    when one was given; otherwise the promise rejects.
  - Otherwise it reports success: the callback is invoked with no argument,
    or the promise resolves. When a callback is given, the returned promise
    never settles.
- `restoreValidation()` walks the same registry in the same order and asks
  every item to `restoreValidation()`, whatever its path.

The model has four modules:

- `Wrappers`: `Option`, standing for both `undefined` and `null`.
- `Aggregation`: the pure fan-in step, that is, the `.then` callback after
  `Promise.all`.
- `FormComponent`: the registry as an ordered sequence of `(key, items)`
  pairs, and the class `Form`. `Form` holds that registry and a log
  `itemCalls` of every call the form makes into its items, in the order
  made. `Validate` and `RestoreValidation` are nested loops, as in the
  source. Each is proved to append exactly the calls given by a
  specification function of the registry, and to leave the registry as it
  was.
- `Scenarios`: verified scenarios of both operations on small concrete registries.

A form item is a value: its identity plus its `path`. What an item answers
to `internalValidate` comes from the parameter `engine`, which stands for
the item's rule engine. The model therefore says which items are asked, in
which order and with which arguments. It also says how their answers are
combined. It does not model how an item reaches its answer.

The failure payload is not limited to failing outcomes. The code
(`Form.tsx:81-83`) keeps the `errors` of every outcome whose `errors` is
truthy. That includes an empty array, and it includes the errors of a valid
outcome when present. `Aggregation.PresentErrorsAreReported` states this
behaviour.

## Model

| member | source | states |
|---|---|---|
| Aggregation.WithErrors | src/form/src/Form.tsx:81-82 | keeps only outcomes of the input whose `errors` is present, and never more outcomes than the input holds |
| Aggregation.FailurePayload | src/form/src/Form.tsx:81-83 | the payload is no longer than the outcomes, and each entry is the `errors` of some outcome. Its content and order are pinned down by `FailurePayloadMatchesReference`, `FailurePayloadLength` and `PresentErrorsAreReported` |
| Aggregation.WithErrorsCounts | src/form/src/Form.tsx:81-82 | the truthy-`errors` filter keeps each outcome with present `errors` exactly as often as it occurs, and drops every other |
| Aggregation.WithErrorsAppend | src/form/src/Form.tsx:81-82 | filtering distributes over concatenation, so order is kept |
| Aggregation.Aggregate | src/form/src/Form.tsx:79-95 | exactly one reporting action per call. The callback is used iff one was given, and then the promise stays pending. The caller sees success iff every outcome is valid. On failure, the callback argument or the rejection reason is the failure payload |
| Aggregation.FailurePayloadAppend | src/form/src/Form.tsx:81-83 | the payload of a concatenation is the concatenation of payloads, i.e. outcome order is preserved |
| Aggregation.FailurePayloadSingle | src/form/src/Form.tsx:81-83 | one outcome contributes its `errors` iff they are present |
| Aggregation.FailurePayloadMatchesReference | src/form/src/Form.tsx:81-83 | the filter/map payload equals an independent front-to-back definition, one contribution per outcome |
| Aggregation.PresentErrorsAreReported | src/form/src/Form.tsx:81-83 | every present `errors` value is in the payload, even an empty list and even one from a valid outcome |
| Aggregation.FailurePayloadLength | src/form/src/Form.tsx:81-83 | the payload has exactly one entry per outcome whose `errors` is present |
| Aggregation.AbsentErrorsContributeNothing | src/form/src/Form.tsx:80-88 | when no outcome carries `errors`, the failure payload is empty (derived from `FailurePayloadLength`) |
| FormComponent.Form.constructor | src/form/src/Form.tsx:62 | a new form starts with an empty registry and has made no calls |
| FormComponent.Form.Validate | src/form/src/Form.tsx:63-97 | leaves the registry unchanged. Appends exactly one `internalValidate(null, shouldRuleBeApplied)` call per participant, in participant order. Returns the aggregate of the participants' outcomes in that order |
| FormComponent.Form.ValidateInstances | src/form/src/Form.tsx:71-77 | over one key's array, calls exactly the items with a truthy path, in array order, and collects their outcomes in that order |
| FormComponent.Form.RestoreValidation | src/form/src/Form.tsx:98-105 | leaves the registry unchanged and appends exactly one reset call per registered item, whatever its path, key by key and in array order. With an empty registry it appends nothing |
| FormComponent.Flatten | src/form/src/Form.tsx:99-103 | every item registered under any key is among the items reset. `FlattenOnlyRegistered` gives the converse, and `FlattenCounts` gives how often each occurs |
| FormComponent.FlattenCounts | src/form/src/Form.tsx:99-103 | an item occurs in the reset order exactly as often as it is registered, summed over all keys, so an item registered under two keys is reset twice |
| FormComponent.FlattenOnlyRegistered | src/form/src/Form.tsx:99-103 | every item in the reset order is registered under some key, so only registered items are reset or asked |
| FormComponent.Selected | src/form/src/Form.tsx:71-76 | asks no more items than the array holds, and only items whose path is truthy. Which items, and in which order, is pinned down by `SelectedCounts` and `SelectedAppend` |
| FormComponent.Participants | src/form/src/Form.tsx:69-78 | every item asked has a truthy path. Which items, and in which order, is pinned down by `ParticipantsCounts` and `ParticipantsInRegistryOrder` |
| FormComponent.SelectedCounts | src/form/src/Form.tsx:71-72 | within one array, an item is asked as often as it occurs if its path is truthy, and never otherwise |
| FormComponent.ParticipantsCounts | src/form/src/Form.tsx:69-78 | only items with a truthy path are asked, each as often as it occurs in the registry order, which `FlattenCounts` equates with its number of registrations. An item with an absent or empty path is never asked |
| FormComponent.SelectedAppend | src/form/src/Form.tsx:71-77 | selection distributes over concatenation of arrays |
| FormComponent.ParticipantsAppend | src/form/src/Form.tsx:69-78 | items under earlier keys are asked before items under later keys |
| FormComponent.ParticipantsInRegistryOrder | src/form/src/Form.tsx:69-78 | the participants are the registered items in key order then array order, with those whose path is not truthy removed |
| FormComponent.OccurrenceIndices | src/form/src/Form.tsx:62 | helper that `ExactlyOnce` applies to the registry order: the number of positions holding an item equals its number of occurrences |
| FormComponent.DistinctOccursOnce | src/form/src/Form.tsx:62 | helper that `ExactlyOnce` applies to the registry order: in a sequence with no instance twice, each item in it occurs once |
| FormComponent.ExactlyOnce | src/form/src/Form.tsx:69-104 | with no item instance registered twice (compared by identity), exactly one of the reset calls goes to each registered item, and exactly one of the `internalValidate` calls goes to it if its path is truthy and none otherwise |
| FormComponent.NoParticipantsSucceeds | src/form/src/Form.tsx:69-93 | with no item having a truthy path (the empty registry included), nothing is asked and validation reports success |
| Scenarios.FailingFieldRejects | src/form/src/Form.tsx:63-97 | "user.name" valid and "user.age" invalid with "too young": the promise rejects with `[["too young"]]` |
| Scenarios.TwoKeysParticipants | src/form/src/Form.tsx:69-78 | two keys with one truthy-path item each: both items are asked, in key order |
| Scenarios.OneFailureRejects | src/form/src/Form.tsx:79-88 | a passing outcome without errors followed by a failing one: the promise rejects with the failing one's errors alone |
| Scenarios.EmptyPathIsSkipped | src/form/src/Form.tsx:63-97 | an item under the empty path is never asked, and the promise resolves |
| Scenarios.RestoreOnEmptyRegistry | src/form/src/Form.tsx:98-105 | reset on an empty registry makes no call |
| Scenarios.RestoreReachesUnboundItems | src/form/src/Form.tsx:98-105 | reset reaches the item under the empty path too, in registry order |

## Left out

- Rendering (`Form.tsx:113-127`) and the default `onSubmit` handler (`Form.tsx:48-51`): presentation only.
- Theme and style set-up (`Form.tsx:60`) and the component props (`Form.tsx:19-52`): these do not affect either operation.
- `provide` of the props and the registry to descendants (`Form.tsx:106-107`). Registering and deregistering items is done by `FormItem`, which is not part of this model. The registry is a field that the model's operations read and never change.
- How a form item reaches its outcome: rules, `async-validator` and the item's own state. This is the `engine` parameter. `FormItem` and `interface.ts` are not part of this model; the rule type is an opaque key.
- The item's own effects of a reset. Only the call is recorded.
- The item's internal state and any aliasing between item instances. An item is a value (identity and path), and `path` is read as it stands when the operation runs.
- Concurrency of `Promise.all`. The outcomes are combined in the order the calls were made, and combining starts only after every call. A field promise that rejects instead of resolving is not modelled.
- Object key iteration order. The registry is a sequence of key/array pairs, and its order is the iteration order of `keysOf`.
- The `async` wrapper and microtask timing. A pending promise is a `Pending` state and never changes later.
