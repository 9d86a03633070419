# blueprint: fields and models, verified in Dafny

blueprint is a small in-memory record abstraction for JavaScript. A **field** is a named value slot. It has:

- a friendly name;
- tags;
- a replaceable formatter, which `get()` applies;
- an ordered list of validators;
- the error its last check recorded.

A **model** (`make()`) is an insertion-ordered collection of fields. Whole-record operations run over its fields:

- validity with error collection;
- merge, which skips readonly fields;
- tag queries;
- JSON- and CSV-style serialisation.

The project models both halves in their own form:

- `values.dfy` (module `Values`): the values a field holds and the callables it stores.
  - `undefined` is `None`; every other value is a string.
  - JavaScript truthiness is `Truthy`.
  - A formatter or validator slot is `Some(f)` when it holds a function.
- `field.dfy` (module `Fields`): `lib/field.js`.
  - The closure object is the class `Field`. Its methods update its fields in place.
  - `FieldView` is the snapshot its readers see: `hasValue`, `get`, `isTagged`, the readonly lock, and the validity check.
  - `Run` is the recursive specification of the validator loop. `Field.IsValid` is that loop, with early return, proved against `Run`.
- `model.dfy` (module `Blueprint`): `index.js`.
  - The validator factories `is` and `isNot` are pure functions.
  - `make()` is the class `Model`. It holds `order` (the insertion order `Object.keys(store)` gives), `store` (name to `Field`) and `errors`.
  - Each `eachField` loop is a `while` loop over `order`.
  - The whole-record updates (`isValid`, `merge`) are specified by pure functions over the fields' snapshots (`Checked`, `Failures`, `Merged`). Each loop is proved one field at a time against them.
  - The invariant `Model.Valid` says several things. Every name in `store` appears once in `order`. Every field is stored under its own name. Every field keeps its own invariant: a readonly field carries the `"readonly"` tag, and a recorded error is non-empty.
- `csv.dfy` (module `Csv`): `Array.prototype.join`, as `toCSV` uses it. It comes with a splitter that undoes the join when no cell contains the delimiter.

Thrown errors and TypeErrors are modelled as follows:

- The errors the code throws on purpose are `Outcome.Thrown(message)`:
  - `"readonly"` from `set` on a locked field;
  - `"no field <name>"` from the model's `set`.
- The TypeErrors the code raises by accident are preconditions that callers must meet:
  - an unregistered name passed to `tag`, `format`, `validation`, `get`, `isTagged` or `getFriendlyName`;
  - `push` onto tags that are not an array;
  - calling a formatter that is not a function while validators exist.

`errors()` returns the model's `errors` field. On a field, `name()` is the constant `Field.name`, `getFriendlyName()` the constant `Field.friendlyName`, and `error()` the field `Field.error`.

The readonly lock is the one the code implements. The readonly test (test/field_test.js:59-67) only sets a truthy value and then expects the next `set` to throw. The code (`lib/field.js:25`) refuses a `set` only when the current value is truthy. So a readonly field that holds `""` or `undefined` can still be overwritten: see `Fields.ReadonlyEmptyStringStaysWritable`.

## Model

| member | source | states |
|---|---|---|
| Fields.Run | lib/field.js:57-69 | the recorded error is either the one the loop started with or a non-empty message that one of the validators gave on the value |
| Fields.RunOkIff | lib/field.js:59-68 | `isValid()` is true exactly when no function entry of the list gives an invalid verdict; entries that are not functions never fail |
| Fields.RunPassesWithLastMessage | lib/field.js:58-68 | when no validator fails, the check passes and records the last non-empty message any validator gave (a passing one included), or nothing if none gave one |
| Fields.RunStopsAtFirstFailure | lib/field.js:59-66 | at the first failing validator the check returns false, having recorded the last non-empty message up to and including it; validators after it have no influence |
| Fields.Initial | lib/field.js:4-14 | a new field keeps the `readonly` option, holds no value, is not locked, has no error (`error()` is undefined), has an empty validator list and the identity formatter, and passes its check; its friendly name is `options.friendlyName` when non-empty and the name otherwise; it is tagged with exactly the given tags (none for a non-array), plus `"readonly"` when made readonly |
| Fields.Field.constructor | lib/field.js:79-80 | `make(name, opts)` builds exactly the state `Initial` describes, the readonly tag pushed at creation included |
| Fields.Field.Set | lib/field.js:24-28 | throws `"readonly"` exactly when the field was made readonly and its current value is truthy, and then leaves it unchanged; otherwise the value becomes `val`, so `set(undefined)` unsets it |
| Fields.FreshFieldSetGet | lib/field.js:8-38 | on a new field the first `set(v)` succeeds, after which `get()` returns `v` and `hasValue()` holds exactly when `v` is defined |
| Fields.FieldView.HasValue | lib/field.js:30-32 | `hasValue()` holds exactly when the value is not `undefined` |
| Fields.FieldView.Get | lib/field.js:34-38 | `get()` is the formatter applied to the value when the formatter is a function, and the raw value otherwise |
| Fields.FieldView.IsTagged | lib/field.js:44-47 | `isTagged(t)` is false when the tags are not an array, and membership of `t` in the array otherwise |
| Fields.ReadonlyLocksAfterTruthySet | lib/field.js:24-28 | a new readonly field is not locked, and after a truthy first `set` it is locked, so by `Field.Set` the next `set` throws `"readonly"` and keeps the value |
| Fields.ReadonlyEmptyStringStaysWritable | lib/field.js:25 | a readonly field that holds `""` has a value but is not locked |
| Fields.Field.Tag | lib/field.js:40-47 | `tag(t)` appends `t` to the tag array; afterwards `isTagged(u)` holds exactly for the earlier tags and `t` |
| Fields.Field.Format | lib/field.js:49-51 | `format(fn)` replaces only the formatter, and the next `get()` returns `fn(value)`, or the raw value when `fn` is not a function |
| Fields.FormatResetIsPassthrough | lib/field.js:34-38 | both the default formatter and a non-function formatter make `get()` return the raw value |
| Fields.Field.Validation | lib/field.js:53-55 | `validation(fn)` appends `fn` to the validator list and changes nothing else |
| Fields.Field.ClearValidators | lib/field.js:75-77 | `clearValidators()` empties the list, after which the check passes and records no error |
| Fields.Field.IsValid | lib/field.js:57-69 | the loop with early return yields exactly the result and error of `Run` on the formatted value, starting from no error; only the error changes |
| Csv.Join | index.js:148 | `Array.prototype.join`: the cells in order with the separator between neighbours; `""` for no cells |
| Csv.Delimiter | index.js:148 | the separator is never empty: the given delimiter when it is non-empty, `","` otherwise |
| Csv.SplitJoin | index.js:148 | joining cells with a one-character delimiter that no cell contains, then splitting on it, gives the cells back |
| Csv.JoinTwoCells | test/model_test.js:217-228 | two cells `"value a"` and `"value b"` join to `"value a,value b"` with the default delimiter and to `"value a#value b"` with `"#"` |
| Blueprint.Is | index.js:7-13 | the validator is valid on `x` exactly when `p(x)` holds; otherwise it carries `msg` |
| Blueprint.IsNot | index.js:15-21 | the validator is valid on `x` exactly when `p(x)` does not hold; otherwise it carries `msg` |
| Blueprint.IsNotIsNegatedIs | index.js:7-21 | `isNot(p, m)` is `is` of the negated predicate, and its validity is always the opposite of `is(p, m)` |
| Blueprint.IsAsOnlyValidator | index.js:7-13 | a field whose only validator is `is(p, m)` is valid iff `p` holds of its formatted value, and records `m` (non-empty) otherwise |
| Blueprint.FailuresOfAll | index.js:99-106 | after a full check, `errors` names exactly the failing fields, each with the error its check recorded; `errors` is empty iff every field is valid |
| Blueprint.MergeTwice | index.js:123-128 | merging the same data twice gives the same fields as merging it once |
| Blueprint.Model.constructor | index.js:23-24 | `make()` starts with no fields and no errors |
| Blueprint.Model.GetFields | index.js:26-38 | `getFields()` is the insertion order: every registered name once |
| Blueprint.Model.Insert | index.js:42 | storing a field under its name replaces any previous field; the name joins the order only when new |
| Blueprint.Model.Add | index.js:40-44 | `add(name, opts)` stores a fresh field in its initial state; re-adding a name replaces its field but leaves the order unchanged; the other fields and `errors` stay as they were |
| Blueprint.Model.AddThenSet | index.js:40-44 | `add(name, opts)` then `set(name, v)`: the set succeeds and `get(name)` returns `v`, defined or not |
| Blueprint.Model.GetFriendlyName | index.js:46-48 | the friendly name of the field stored under `name` |
| Blueprint.Model.GetFriendlyNames | index.js:50-56 | one entry per registered name, holding that field's friendly name |
| Blueprint.Model.Set | index.js:58-63 | an unregistered name throws `"no field <name>"` and changes nothing; otherwise the result and effect are `Field.set` on that field alone |
| Blueprint.Model.Tag | index.js:65-67 | `tag(name, t)` adds `t` to that field's tags and changes no other field |
| Blueprint.Model.Get | index.js:69-71 | `get()` of the field stored under `name` |
| Blueprint.Model.IsTagged | index.js:73-75 | `isTagged(t)` of the field stored under `name` |
| Blueprint.Model.Tagged | index.js:77-84 | `tagged(t)` contains exactly the names whose fields carry `t`, and it is a subsequence of the insertion order |
| Blueprint.Model.Format | index.js:94-97 | `format(name, fn)` replaces that field's formatter and changes no other field |
| Blueprint.Model.Validation | index.js:112-115 | `validation(name, fn)` appends to that field's validators and changes no other field |
| Blueprint.Model.CheckField | index.js:102-103 | one field's check: its error becomes what `Run` records, the result and error are reported, and no other field changes |
| Blueprint.Model.CheckNext | index.js:101-104 | one iteration of the check loop keeps the invariant: the fields visited so far are checked, and `found` holds exactly their failures |
| Blueprint.Model.CheckAll | index.js:101-104 | every field is checked (no short-circuit), and `found` maps exactly the failing names to their errors |
| Blueprint.Model.IsValid | index.js:99-106 | `isValid()` replaces `errors` with exactly the failures of this check and returns true iff it is empty; every field's error is what its own check recorded |
| Blueprint.Model.ClearValidators | index.js:117-121 | every field's validator list becomes empty, and nothing else changes |
| Blueprint.Model.MergeField | index.js:125-126 | one field of `merge`: it takes `data[name]` (`undefined` when absent) unless tagged readonly, and then `set` cannot throw; no other field changes |
| Blueprint.Model.MergeNext | index.js:124-127 | one iteration of the merge loop keeps the invariant that the fields visited so far are merged |
| Blueprint.Model.Merge | index.js:123-128 | afterwards every field not tagged readonly holds `data[name]` or is unset, and readonly-tagged fields are untouched |
| Blueprint.Model.ToJson | index.js:130-137 | exactly one key per field that has a value, mapped to that field's `get()` |
| Blueprint.Model.ToCsv | index.js:139-149 | one entry per field in insertion order (`get()` when set, `""` otherwise), joined by the delimiter, or by `","` when it is missing or empty |

## Left out

- `toEncodedUrl` (index.js:151-153) is not modelled. It hands `toJSON()` to the external `qs` library, whose encoding rules are not part of this model.
- `forEachTagged` (index.js:86-92) is not modelled. It calls back into arbitrary caller code that receives the model and may change it. When the callback changes no tags and re-adds no field, the names it visits are those `Tagged` returns, in the same order. A callback that tags a later field makes it visited, and one that re-adds a later field replaces it with an untagged one, which is then skipped (index.js:87-89 tests each field only when the loop reaches it).
- Values other than strings and `undefined` (numbers, objects, `null`) are not modelled, and neither is what formatters and validators compute. They are abstract total functions on `Value`.
- Validator results are `Verdict(isValid, error)`, and an `error` of `""` stands for a missing or falsy `error` property.
- The options object is `Options`:
  - a missing or falsy `friendlyName` is `""`;
  - missing tags are an empty array;
  - missing or falsy tags (`undefined`, `null`, `0`, `""`, `false`) become the empty array `TagList([])`, since lib/field.js:7 falls back to `[]`;
  - any truthy non-array tags value is `NotAList`, which `isTagged` treats as "no tags". A string passed as `tags` would make `isTagged` do a substring search; that case is not modelled.
- `Fields.Field.Tag`, `Blueprint.Model.Tag`, `Fields.Initial`, `Fields.FreshFieldSetGet`, `Fields.Field.constructor`, `Blueprint.Model.Add` and `Blueprint.Model.AddThenSet` require array tags when they push onto them. On a non-array the source throws a TypeError.
- `Blueprint.Model.Tag`, `Blueprint.Model.Format` and `Blueprint.Model.Validation`, and the functions `Get`, `GetFriendlyName` and `IsTagged`, require a registered name. The source throws a TypeError on `store[name]` being `undefined`.
- `Fields.Field.IsValid`, `Blueprint.Model.IsValid`, `Blueprint.Model.CheckAll` and `Blueprint.IsAsOnlyValidator` require every field's formatter to be a function whenever it has function validators (lib/field.js:61). Otherwise the source throws a TypeError part-way through.
- The `tags` array the caller passes in is shared with the field and mutated by `tag()`. The model copies it: aliasing is not modelled.
- The `options` object is shared with the field too: `set` reads `options.readonly` afresh each time (lib/field.js:25). The model fixes `readonly` at creation. A caller who turns `readonly` on after `add` gets a field that locks without carrying the readonly tag, so `merge` can then throw `"readonly"`. That case is not modelled.
- Key order:
  - `Object.keys` puts integer-like keys first; the model uses plain insertion order.
  - `toJSON()`, `getFriendlyNames()` and `errors()` build objects in insertion order (index.js:50-56, 100-105). The model returns maps (`Blueprint.Model.ToJson`, `Blueprint.Model.GetFriendlyNames` and the `errors` field), so that key order is not modelled.
- `Blueprint.Model.Add`, `Blueprint.Model.Set` and `Blueprint.Model.Merge` treat the store and `merge`'s `data` as plain maps. In the source both are ordinary objects that inherit from `Object.prototype`, so field names and `data` keys are assumed not to be `__proto__` or a name inherited from `Object.prototype`. Cases the model does not capture:
  - `add("__proto__")` creates no own key (index.js:42), and a later `set` throws `"no field __proto__"`;
  - `merge` reads an inherited function for a field named, say, `toString` (index.js:126), where the model gives `undefined`;
  - a field named `hasOwnProperty` shadows the method, so every later `set` throws a TypeError (index.js:59).
- Method chaining (`set`, `add`, `format` and `validation` return the model) is not modelled. The methods return nothing, or the `Outcome`.
- `Blueprint.Model.IsValid` assigns `errors` once, at the end of the loop. The source resets it before the loop and fills it field by field. A validator that calls `errors()` during the check would see the difference; that is not modelled.
- `toCSV(opts)` takes the delimiter itself: `""` stands for a missing `opts`, a missing `delimiter` or a falsy one.
