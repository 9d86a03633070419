/** A single named value slot with a friendly name, tags, a formatter and validators (lib/field.js). */
module Fields {
  import opened Values

  /** Tag storage: the array given as `options.tags` (or `[]` when that is missing), or a value that is not an array, such as `{}`. */
  datatype Tags = TagList(items: seq<string>) | NotAList

  /**
   * The options `make` reads. A `friendlyName` of `""` stands for a missing (or falsy) one,
   * `TagList([])` for missing or falsy tags, and `readonly` is the truthiness of `options.readonly`.
   */
  datatype Options = Options(tags: Tags, friendlyName: string, readonly: bool)

  const NoOptions := Options(TagList([]), "", false)

  /** The tag a readonly field carries from creation, and the message `set` throws on it. */
  const ReadonlyTag := "readonly"

  /** The result of one validity check: whether it passed, and the error the field records. */
  datatype Report = Report(ok: bool, error: Option<string>)

  function Identity(v: Value): Value { v }

  /** A validator list entry fails on `x` when it is a function whose verdict on `x` is not valid. */
  predicate Fails(v: Validator, x: Value) {
    v.Some? && !v.value(x).isValid
  }

  /**
   * The validator loop of `isValid` on the formatted value `x`, entered with `err` recorded:
   * non-functions are skipped, a non-empty error overwrites the recorded one,
   * and the first invalid verdict ends the loop with `false`.
   * The recorded error is left as it was or replaced by a non-empty message.
   */
  function Run(vs: seq<Validator>, x: Value, err: Option<string>): (r: Report)
    ensures r.error == err || (r.error.Some? && r.error.value != "")
    ensures r.error != err ==> r.error.Some? && r.error.value in Messages(vs, x)
  {
    if vs == [] then Report(true, err)
    else if vs[0].None? then Run(vs[1..], x, err)
    else
      var verdict := vs[0].value(x);
      var err' := if verdict.error != "" then Some(verdict.error) else err;
      if !verdict.isValid then Report(false, err') else Run(vs[1..], x, err')
  }

  /** The non-empty error messages the function entries of `vs` give on `x`, in list order (a reference for `Run`). */
  function Messages(vs: seq<Validator>, x: Value): seq<string> {
    if vs == [] then []
    else (if vs[0].Some? && vs[0].value(x).error != "" then [vs[0].value(x).error] else []) + Messages(vs[1..], x)
  }

  /** The last element of `s`, or `d` when `s` is empty. */
  function LastOr(s: seq<string>, d: Option<string>): Option<string> {
    if s == [] then d else Some(s[|s| - 1])
  }

  lemma LastOrAppend(a: seq<string>, b: seq<string>, d: Option<string>)
    ensures LastOr(a + b, d) == LastOr(b, LastOr(a, d))
  {
    if b != [] {
      assert (a + b)[|a + b| - 1] == b[|b| - 1];
    } else {
      assert a + b == a;
    }
  }

  /** `isValid` is true exactly when no function validator fails: skipped entries never fail. */
  lemma {:induction false} RunOkIff(vs: seq<Validator>, x: Value, err: Option<string>)
    ensures Run(vs, x, err).ok <==> forall i :: 0 <= i < |vs| ==> !Fails(vs[i], x)
  {
    if vs != [] {
      var err' := if vs[0].Some? && vs[0].value(x).error != "" then Some(vs[0].value(x).error) else err;
      RunOkIff(vs[1..], x, err');
      if Run(vs, x, err).ok {
        forall i | 0 <= i < |vs| ensures !Fails(vs[i], x) {
          if i > 0 { assert vs[i] == vs[1..][i - 1]; }
        }
      } else if !Fails(vs[0], x) {
        var j :| 0 <= j < |vs[1..]| && Fails(vs[1..][j], x);
        assert vs[j + 1] == vs[1..][j];
      }
    }
  }

  /** When every validator passes, all of them run and the recorded error is the last non-empty message. */
  lemma {:induction false} RunPassesWithLastMessage(vs: seq<Validator>, x: Value, err: Option<string>)
    requires forall i :: 0 <= i < |vs| ==> !Fails(vs[i], x)
    ensures Run(vs, x, err) == Report(true, LastOr(Messages(vs, x), err))
  {
    if vs != [] {
      var head := if vs[0].Some? && vs[0].value(x).error != "" then [vs[0].value(x).error] else [];
      assert forall i :: 0 <= i < |vs[1..]| ==> vs[1..][i] == vs[i + 1];
      RunPassesWithLastMessage(vs[1..], x, LastOr(head, err));
      LastOrAppend(head, Messages(vs[1..], x), err);
    }
  }

  /**
   * At the first failing validator `k` the check stops with `false`; the recorded error is the last
   * non-empty message among `vs[..k+1]`, and validators after `k` have no influence on the result.
   */
  lemma {:induction false} RunStopsAtFirstFailure(vs: seq<Validator>, x: Value, err: Option<string>, k: nat, rest: seq<Validator>)
    requires k < |vs| && Fails(vs[k], x)
    requires forall i :: 0 <= i < k ==> !Fails(vs[i], x)
    ensures Run(vs, x, err) == Report(false, LastOr(Messages(vs[..k + 1], x), err))
    ensures Run(vs[..k + 1] + rest, x, err) == Run(vs, x, err)
  {
    var head := if vs[0].Some? && vs[0].value(x).error != "" then [vs[0].value(x).error] else [];
    assert Messages(vs[..k + 1], x) == head + Messages(vs[..k + 1][1..], x);
    LastOrAppend(head, Messages(vs[..k + 1][1..], x), err);
    if k == 0 {
      assert vs[..1][1..] == [];
    } else {
      assert vs[1..][..k] == vs[..k + 1][1..];
      assert (vs[..k + 1] + rest)[1..] == vs[1..][..k] + rest;
      assert forall i :: 0 <= i < k - 1 ==> vs[1..][i] == vs[i + 1];
      RunStopsAtFirstFailure(vs[1..], x, LastOr(head, err), k - 1, rest);
    }
  }

  /** The state of a field as its public readers observe it (the closure variables of `make`). */
  datatype FieldView = FieldView(
    name: string,
    friendlyName: string,
    readonly: bool,
    value: Value,
    tags: Tags,
    formatter: Formatter,
    validators: seq<Validator>,
    error: Option<string>)
  {
    /** `hasValue()`: the value is not `undefined`. */
    predicate HasValue() {
      value.Some?
    }

    /** `get()`: the formatter applied to the value when it is a function, the raw value otherwise. */
    function Get(): Value {
      if formatter.Some? then formatter.value(value) else value
    }

    /** `isTagged(t)`: false when the tag storage is not an array, membership otherwise. */
    predicate IsTagged(t: string) {
      tags.TagList? && t in tags.items
    }

    /** `set` throws "readonly" in exactly this state: made readonly and holding a truthy value. */
    predicate Locked() {
      readonly && Truthy(value)
    }

    /** `isValid()` calls the formatter for each function validator, so it throws a TypeError unless this holds. */
    predicate CanCheck() {
      formatter.Some? || forall i :: 0 <= i < |validators| ==> validators[i].None?
    }

    /** What `isValid()` returns and the error it records: the validator loop on `get()`, starting from no error. */
    function Validity(): Report {
      Run(validators, Get(), None)
    }

    /** Invariant of every field: a readonly field carries the readonly tag, and a recorded error is non-empty. */
    predicate Valid() {
      (readonly ==> IsTagged(ReadonlyTag)) && (error.Some? ==> error.value != "")
    }
  }

  /** The state `make(name, opts)` creates. */
  function Initial(name: string, opts: Options): (f: FieldView)
    requires opts.readonly ==> opts.tags.TagList?
    ensures f.Valid() && f.name == name && f.readonly == opts.readonly && !f.HasValue() && !f.Locked()
    ensures f.friendlyName == if opts.friendlyName != "" then opts.friendlyName else name
    ensures forall t :: f.IsTagged(t) <==> (opts.tags.TagList? && t in opts.tags.items) || (opts.readonly && t == ReadonlyTag)
    ensures f.Get() == None && f.Validity() == Report(true, None)
    ensures f.formatter == Some(Identity) && f.validators == [] && f.error == None
  {
    FieldView(
      name,
      if opts.friendlyName != "" then opts.friendlyName else name,
      opts.readonly,
      None,
      if opts.readonly then TagList(opts.tags.items + [ReadonlyTag]) else opts.tags,
      Some(Identity),
      [],
      None)
  }

  /** On a new field the first `set(v)` succeeds, after which `get()` is `v` and `hasValue()` says whether `v` is defined. */
  lemma FreshFieldSetGet(name: string, opts: Options, v: Value)
    requires opts.readonly ==> opts.tags.TagList?
    ensures !Initial(name, opts).Locked()
    ensures Initial(name, opts).(value := v).Get() == v
    ensures Initial(name, opts).(value := v).HasValue() <==> v.Some?
  {
  }

  /** A readonly field accepts its first `set`; once that stored a truthy value it is locked, so the next `set` throws `"readonly"` and the value stays. */
  lemma ReadonlyLocksAfterTruthySet(name: string, opts: Options, v: Value)
    requires opts.readonly && opts.tags.TagList? && Truthy(v)
    ensures !Initial(name, opts).Locked()
    ensures Initial(name, opts).(value := v).Locked()
  {
  }

  /** A readonly field whose first value is the empty string is not locked: a second `set` overwrites it. */
  lemma ReadonlyEmptyStringStaysWritable(name: string, opts: Options)
    requires opts.readonly && opts.tags.TagList?
    ensures var f := Initial(name, opts);
      f.readonly && !f.(value := Some("")).Locked() && f.(value := Some("")).HasValue()
  {
  }

  /** `format(undefined)` and the default formatter both give the raw value back. */
  lemma FormatResetIsPassthrough(f: FieldView)
    ensures f.(formatter := None).Get() == f.value
    ensures f.(formatter := Some(Identity)).Get() == f.value
  {
  }

  class Field {
    const name: string
    const friendlyName: string
    const readonly: bool
    var value: Value
    var tags: Tags
    var formatter: Formatter
    var validators: seq<Validator>
    var error: Option<string>

    function View(): FieldView
      reads this
    {
      FieldView(name, friendlyName, readonly, value, tags, formatter, validators, error)
    }

    ghost predicate Valid()
      reads this
    {
      View().Valid()
    }

    /** `make(name, opts)`; with `readonly` set the tags must be an array, or `tags.push` throws. */
    constructor (name: string, opts: Options)
      requires opts.readonly ==> opts.tags.TagList?
      ensures Valid() && View() == Initial(name, opts)
    {
      this.name := name;
      friendlyName := if opts.friendlyName != "" then opts.friendlyName else name;
      readonly := opts.readonly;
      value := None;
      tags := if opts.readonly then TagList(opts.tags.items + [ReadonlyTag]) else opts.tags;
      formatter := Some(Identity);
      validators := [];
      error := None;
    }

    /** `set(val)`: throws "readonly" when locked and leaves the value; otherwise stores `val`, `undefined` included. */
    method Set(val: Value) returns (r: Outcome)
      requires Valid()
      modifies this
      ensures Valid()
      ensures r == if old(View().Locked()) then Thrown(ReadonlyTag) else Ok
      ensures View() == if r.Ok? then old(View()).(value := val) else old(View())
    {
      if Truthy(value) && readonly {
        return Thrown(ReadonlyTag);
      }
      value := val;
      r := Ok;
    }

    /** `tag(t)` appends to the tag array (pushing onto a non-array throws a TypeError, so callers do not). */
    method Tag(t: string)
      requires Valid() && tags.TagList?
      modifies this
      ensures Valid() && View() == old(View()).(tags := TagList(old(tags.items) + [t]))
      ensures forall u :: View().IsTagged(u) <==> old(View().IsTagged(u)) || u == t
    {
      tags := TagList(tags.items + [t]);
    }

    /** `format(fn)`: replaces the formatter; the next `get()` uses it. */
    method Format(fn: Formatter)
      requires Valid()
      modifies this
      ensures Valid() && View() == old(View()).(formatter := fn)
      ensures View().Get() == if fn.Some? then fn.value(value) else value
    {
      formatter := fn;
    }

    /** `validation(fn)`: appends one entry to the validator list. */
    method Validation(fn: Validator)
      requires Valid()
      modifies this
      ensures Valid() && View() == old(View()).(validators := old(validators) + [fn])
    {
      validators := validators + [fn];
    }

    /** `clearValidators()`: empties the validator list, after which every check passes with no error. */
    method ClearValidators()
      requires Valid()
      modifies this
      ensures Valid() && View() == old(View()).(validators := [])
      ensures View().Validity() == Report(true, None)
    {
      validators := [];
    }

    /**
     * `isValid()`: resets the error, then runs the validators in order on the formatted value.
     * Returns and records what `Run` gives; nothing but the error changes.
     */
    method IsValid() returns (ok: bool)
      requires Valid() && View().CanCheck()
      modifies this
      ensures Valid()
      ensures Report(ok, error) == old(View().Validity())
      ensures View() == old(View()).(error := error)
    {
      ghost var x := View().Get();
      error := None;
      var i := 0;
      while i < |validators|
        invariant 0 <= i <= |validators|
        invariant View() == old(View()).(error := error)
        invariant error.Some? ==> error.value != ""
        invariant Run(validators, x, None) == Run(validators[i..], x, error)
      {
        assert validators[i..][1..] == validators[i + 1..];
        if validators[i].Some? {
          var verdict := validators[i].value(formatter.value(value));
          if verdict.error != "" {
            error := Some(verdict.error);
          }
          if !verdict.isValid {
            return false;
          }
        }
        i := i + 1;
      }
      ok := true;
    }
  }
}
