/** The record: an insertion-ordered collection of fields with whole-record operations (index.js). */
module Blueprint {
  import opened Values
  import opened Fields
  import Csv

  /** `is(p, msg)`: a validator that passes exactly when `p` holds and otherwise fails with `msg`. */
  function Is(p: Value -> bool, msg: string): (v: Value -> Verdict)
    ensures forall x :: v(x).isValid <==> p(x)
    ensures forall x :: v(x).error == if p(x) then "" else msg
  {
    x => if p(x) then Verdict(true, "") else Verdict(false, msg)
  }

  /** `isNot(p, msg)`: a validator that passes exactly when `p` does not hold and otherwise fails with `msg`. */
  function IsNot(p: Value -> bool, msg: string): (v: Value -> Verdict)
    ensures forall x :: v(x).isValid <==> !p(x)
    ensures forall x :: v(x).error == if p(x) then msg else ""
  {
    x => if !p(x) then Verdict(true, "") else Verdict(false, msg)
  }

  /** `isNot(p, msg)` is `is` of the negated predicate: on every value it gives the opposite validity. */
  lemma IsNotIsNegatedIs(p: Value -> bool, msg: string, x: Value)
    ensures IsNot(p, msg)(x) == Is(y => !p(y), msg)(x)
    ensures IsNot(p, msg)(x).isValid != Is(p, msg)(x).isValid
  {
  }

  /** A field whose only validator is `is(p, msg)`, with `msg` non-empty, is valid iff `p` holds of its formatted value, and records `msg` otherwise. */
  lemma IsAsOnlyValidator(f: FieldView, p: Value -> bool, msg: string)
    requires msg != "" && f.formatter.Some?
    ensures f.(validators := [Some(Is(p, msg))]).Validity() == Report(p(f.Get()), if p(f.Get()) then None else Some(msg))
  {
    var vs: seq<Validator> := [Some(Is(p, msg))];
    var x := f.Get();
    assert f.(validators := vs).Get() == x;
    var verdict := Is(p, msg)(x);
    assert verdict.isValid == p(x) && verdict.error == if p(x) then "" else msg;
    assert vs[1..] == [];
    assert Run(vs[1..], x, None) == Report(true, None);
  }

  /** `a` is `b` with some elements left out, the rest kept in order. */
  predicate IsSubsequence(a: seq<string>, b: seq<string>)
    decreases |b|
  {
    a == [] || (b != [] &&
      ((a[|a| - 1] == b[|b| - 1] && IsSubsequence(a[..|a| - 1], b[..|b| - 1])) || IsSubsequence(a, b[..|b| - 1])))
  }

  /** `data[name]` in `merge`: the property when present, `undefined` otherwise. */
  function Lookup(data: map<string, string>, name: string): Value {
    if name in data then Some(data[name]) else None
  }

  /** The entry `toCSV` emits for one field: `get()` when it has a value (an `undefined` result joins as `""`), `""` otherwise. */
  function Cell(f: FieldView): string {
    if f.HasValue() && f.Get().Some? then f.Get().value else ""
  }

  /** Every field named in `done` after its own `isValid()`: its error is what its check recorded. */
  function Checked(views: map<string, FieldView>, done: set<string>): (r: map<string, FieldView>)
    ensures r.Keys == views.Keys
  {
    map n | n in views :: if n in done then CheckedView(views[n]) else views[n]
  }

  /** A field after its own `isValid()`: its error is the one its validators recorded. */
  function CheckedView(f: FieldView): FieldView {
    f.(error := f.Validity().error)
  }

  /** The `errors` object `isValid()` builds after checking the fields named in `done`. */
  function Failures(views: map<string, FieldView>, done: set<string>): map<string, Option<string>> {
    map n | n in views && n in done && !views[n].Validity().ok :: views[n].Validity().error
  }

  /**
   * Checking one more field: while `done` is checked, the field `name` still holds its state from `views`;
   * afterwards it holds that state with its recorded error, and it joins the failures exactly when its check fails.
   */
  lemma CheckedStep(views: map<string, FieldView>, done: set<string>, name: string, now: map<string, FieldView>)
    requires name in views && name !in done && now == Checked(views, done)
    ensures now[name] == views[name]
    ensures Checked(views, done + {name}) == now[name := CheckedView(now[name])]
    ensures Failures(views, done + {name}) ==
      if now[name].Validity().ok then Failures(views, done)
      else Failures(views, done)[name := now[name].Validity().error]
  {
  }

  /**
   * After checking every field, the failures name exactly the fields whose check fails, each with its
   * recorded error; so no failures means every field is valid.
   */
  lemma FailuresOfAll(views: map<string, FieldView>)
    ensures forall n :: n in Failures(views, views.Keys) <==> n in views && !views[n].Validity().ok
    ensures forall n :: n in Failures(views, views.Keys) ==> Failures(views, views.Keys)[n] == Checked(views, views.Keys)[n].error
    ensures Failures(views, views.Keys) == map[] <==> forall n :: n in views ==> views[n].Validity().ok
  {
  }

  /** Every field named in `done` after `merge(data)` visited it: readonly-tagged fields keep their state, the others take `data[n]`. */
  function Merged(views: map<string, FieldView>, data: map<string, string>, done: set<string>): (r: map<string, FieldView>)
    ensures r.Keys == views.Keys
  {
    map n | n in views :: if n in done then MergedView(views[n], data, n) else views[n]
  }

  /** The field `n` after `merge(data)`: unchanged when tagged readonly, holding `data[n]` otherwise. */
  function MergedView(f: FieldView, data: map<string, string>, n: string): FieldView {
    if f.IsTagged(ReadonlyTag) then f else f.(value := Lookup(data, n))
  }

  /** Merging one more field: it still holds its state from `views`, and afterwards holds its merged state. */
  lemma MergedStep(views: map<string, FieldView>, data: map<string, string>, done: set<string>, name: string, now: map<string, FieldView>)
    requires name in views && name !in done && now == Merged(views, data, done)
    ensures Merged(views, data, done + {name}) == now[name := MergedView(now[name], data, name)]
  {
  }

  /** Merging the same data twice is merging it once: readonly-tagged fields stay untouched, the rest already hold `data`. */
  lemma MergeTwice(views: map<string, FieldView>, data: map<string, string>)
    ensures Merged(Merged(views, data, views.Keys), data, views.Keys) == Merged(views, data, views.Keys)
  {
  }

  /** Two maps with the same keys that agree everywhere except at `k`. */
  lemma UpdatedAt(after: map<string, FieldView>, before: map<string, FieldView>, k: string)
    requires after.Keys == before.Keys && k in after
    requires forall n :: n in after && n != k ==> after[n] == before[n]
    ensures after == before[k := after[k]]
  {
  }

  class Model {
    /** The keys of `store` in insertion order (what `Object.keys(store)` gives). */
    var order: seq<string>
    var store: map<string, Field>
    /** What the last `isValid()` found: failing field name to that field's `error()`. */
    var errors: map<string, Option<string>>
    ghost var Repr: set<Field>

    /**
     * Every stored name appears once in `order`, and each field is the one made under its own name;
     * hence two names never share a field, and changing one field leaves every other as it was.
     */
    ghost predicate Shape()
      reads this`order, this`store
    {
      && (forall n :: n in store <==> n in order)
      && (forall i, j :: 0 <= i < j < |order| ==> order[i] != order[j])
      && (forall n :: n in store ==> store[n].name == n)
    }

    /** The shape above, and every field is valid and part of the record's representation. */
    ghost predicate Valid()
      reads this`order, this`store, this`Repr, Repr
    {
      Shape() && forall n :: n in store ==> store[n] in Repr && store[n].Valid()
    }

    /** `make()`: a record with no fields and no errors. */
    constructor ()
      ensures Valid() && order == [] && store == map[] && errors == map[] && Repr == {}
    {
      order, store, errors, Repr := [], map[], map[], {};
    }

    /** Each registered name with the state of its field. */
    ghost function Views(): (m: map<string, FieldView>)
      reads this`store, this`order, this`Repr, Repr
      requires Valid()
      ensures m.Keys == store.Keys
    {
      map n | n in store :: store[n].View()
    }

    /** One `toCSV` entry per field name in `names`. */
    ghost function CellsOf(names: seq<string>): (cs: seq<string>)
      reads this, Repr
      requires Valid() && forall n :: n in names ==> n in store
      ensures |cs| == |names|
      ensures forall i :: 0 <= i < |names| ==> cs[i] == Cell(store[names[i]].View())
      decreases |names|
    {
      if names == [] then []
      else CellsOf(names[..|names| - 1]) + [Cell(store[names[|names| - 1]].View())]
    }

    /** `getFields()`: every registered name once, in insertion order. */
    method GetFields() returns (r: seq<string>)
      requires Valid()
      ensures r == order
      ensures forall n :: n in r <==> n in store
    {
      r := [];
      var i := 0;
      while i < |order|
        invariant 0 <= i <= |order|
        invariant r == order[..i]
      {
        r := r + [store[order[i]].name];
        i := i + 1;
      }
    }

    /** Stores `f` under its own name, replacing any previous field; a name already present keeps its place. */
    method Insert(f: Field)
      requires Valid() && f.Valid() && f !in Repr
      modifies this
      ensures Valid()
      ensures order == if f.name in old(store) then old(order) else old(order) + [f.name]
      ensures store == old(store)[f.name := f] && Repr == old(Repr) + {f} && errors == old(errors)
    {
      if f.name !in store {
        order := order + [f.name];
      }
      store := store[f.name := f];
      Repr := Repr + {f};
    }

    /** `add(name, opts)`: stores a fresh field under `name`, replacing any previous one; a re-added name keeps its place. */
    method Add(name: string, opts: Options)
      requires Valid() && (opts.readonly ==> opts.tags.TagList?)
      modifies this
      ensures Valid()
      ensures order == if name in old(store) then old(order) else old(order) + [name]
      ensures store.Keys == old(store.Keys) + {name}
      ensures fresh(store[name]) && store[name].View() == Initial(name, opts) && Repr == old(Repr) + {store[name]}
      ensures forall n :: n in old(store) && n != name ==> store[n] == old(store[n])
      ensures errors == old(errors)
    {
      var f := new Field(name, opts);
      Insert(f);
    }

    /** `add(name, opts)` followed by `set(name, v)`: the set succeeds, and `get(name)` then gives `v` back. */
    method AddThenSet(name: string, opts: Options, v: Value) returns (r: Outcome)
      requires Valid() && (opts.readonly ==> opts.tags.TagList?)
      modifies this, Repr
      ensures Valid() && name in store
      ensures r == Ok && Get(name) == v
      ensures store[name].View().HasValue() <==> v.Some?
    {
      Add(name, opts);
      FreshFieldSetGet(name, opts, v);
      r := Set(name, v);
    }

    /** `getFriendlyName(name)`; an unregistered name throws a TypeError, so callers register first. */
    function GetFriendlyName(name: string): string
      reads this, Repr
      requires Valid() && name in store
    {
      store[name].friendlyName
    }

    /** `getFriendlyNames()`: every registered name mapped to its field's friendly name. */
    method GetFriendlyNames() returns (r: map<string, string>)
      requires Valid()
      ensures r.Keys == store.Keys
      ensures forall n :: n in r ==> r[n] == store[n].friendlyName
    {
      r := map[];
      var i := 0;
      while i < |order|
        invariant 0 <= i <= |order|
        invariant forall n :: n in r <==> n in order[..i]
        invariant forall n :: n in r ==> r[n] == store[n].friendlyName
      {
        var f := store[order[i]];
        r := r[f.name := f.friendlyName];
        i := i + 1;
      }
    }

    /** `set(name, value)`: throws "no field <name>" for an unregistered name and changes nothing; otherwise `Field.set`. */
    method Set(name: string, value: Value) returns (r: Outcome)
      requires Valid()
      modifies Repr
      ensures Valid()
      ensures r == if name !in store then Thrown("no field " + name)
                   else if old(store[name].View().Locked()) then Thrown(ReadonlyTag)
                   else Ok
      ensures forall n :: n in store ==>
        store[n].View() == if n == name && r.Ok? then old(store[n].View()).(value := value) else old(store[n].View())
    {
      if name !in store {
        return Thrown("no field " + name);
      }
      r := store[name].Set(value);
    }

    /** `tag(name, t)`: delegates to the field, whose tags must be an array. */
    method Tag(name: string, t: string)
      requires Valid() && name in store && store[name].tags.TagList?
      modifies store[name]
      ensures Valid()
      ensures forall u :: store[name].View().IsTagged(u) <==> old(store[name].View().IsTagged(u)) || u == t
      ensures store[name].View() == old(store[name].View()).(tags := TagList(old(store[name].tags.items) + [t]))
      ensures forall n :: n in store && n != name ==> store[n].View() == old(store[n].View())
    {
      store[name].Tag(t);
    }

    /** `get(name)`: the named field's `get()`. */
    function Get(name: string): Value
      reads this, Repr
      requires Valid() && name in store
    {
      store[name].View().Get()
    }

    /** `isTagged(name, t)`: the named field's `isTagged(t)`. */
    predicate IsTagged(name: string, t: string)
      reads this, Repr
      requires Valid() && name in store
    {
      store[name].View().IsTagged(t)
    }

    /** `tagged(t)`: the names whose fields carry `t`, in insertion order. */
    method Tagged(t: string) returns (r: seq<string>)
      requires Valid()
      ensures forall n :: n in r <==> n in store && store[n].View().IsTagged(t)
      ensures IsSubsequence(r, order)
    {
      r := [];
      var i := 0;
      while i < |order|
        invariant 0 <= i <= |order|
        invariant forall n :: n in r <==> n in order[..i] && store[n].View().IsTagged(t)
        invariant IsSubsequence(r, order[..i])
      {
        var f := store[order[i]];
        assert order[..i + 1][..i] == order[..i];
        if f.View().IsTagged(t) {
          assert (r + [f.name])[..|r|] == r;
          r := r + [f.name];
        }
        i := i + 1;
      }
      assert order[..|order|] == order;
    }

    /** `format(name, fn)`: replaces the named field's formatter. */
    method Format(name: string, fn: Formatter)
      requires Valid() && name in store
      modifies store[name]
      ensures Valid()
      ensures store[name].View() == old(store[name].View()).(formatter := fn)
      ensures forall n :: n in store && n != name ==> store[n].View() == old(store[n].View())
    {
      store[name].Format(fn);
    }

    /** `validation(name, fn)`: appends to the named field's validators. */
    method Validation(name: string, fn: Validator)
      requires Valid() && name in store
      modifies store[name]
      ensures Valid()
      ensures store[name].View() == old(store[name].View()).(validators := old(store[name].validators) + [fn])
      ensures forall n :: n in store && n != name ==> store[n].View() == old(store[n].View())
    {
      store[name].Validation(fn);
    }

    /**
     * One step of `isValid()`: the named field's own `isValid()`. Its error becomes what its check records,
     * and every other field stays as it was.
     */
    method CheckField(name: string) returns (ok: bool, err: Option<string>)
      requires Valid() && name in store && store[name].View().CanCheck()
      modifies store[name]
      ensures Valid()
      ensures Views() == old(Views())[name := CheckedView(old(Views())[name])]
      ensures ok == old(Views())[name].Validity().ok && err == old(Views())[name].Validity().error
    {
      ghost var pre := Views();
      assert store[name].View() == pre[name];
      ok := store[name].IsValid();
      err := store[name].error;
      assert Valid();
      ghost var post := Views();
      forall n | n in post && n != name ensures post[n] == pre[n] {
        assert store[n] != store[name];
      }
      UpdatedAt(post, pre, name);
    }

    /** The names of the first `i` fields in insertion order. */
    ghost function Prefix(i: nat): set<string>
      reads this`order
      requires i <= |order|
    {
      set j | 0 <= j < i :: order[j]
    }

    /** The next name in insertion order is not among the earlier ones. */
    lemma PrefixNext(i: nat)
      requires Shape() && i < |order|
      ensures order[i] !in Prefix(i) && Prefix(i + 1) == Prefix(i) + {order[i]}
    {
    }

    /** The state of `isValid()` after checking the first `i` fields: those fields checked, their failures in `found`. */
    ghost predicate Progress(before: map<string, FieldView>, i: nat, found: map<string, Option<string>>)
      reads this`order, this`store, this`Repr, Repr
    {
      && Valid() && i <= |order|
      && Views() == Checked(before, Prefix(i))
      && found == Failures(before, Prefix(i))
    }

    /** One iteration of the loop of `isValid()`: checks the next field and records it when it fails. */
    method CheckNext(ghost before: map<string, FieldView>, i: nat, found: map<string, Option<string>>)
      returns (i': nat, found': map<string, Option<string>>)
      requires Progress(before, i, found) && i < |order|
      requires forall n :: n in before ==> before[n].CanCheck()
      modifies store[order[i]]
      ensures i' == i + 1 && Progress(before, i', found')
    {
      var name := order[i];
      ghost var done, pre := Prefix(i), Views();
      PrefixNext(i);
      CheckedStep(before, done, name, pre);
      var fieldOk, err := CheckField(name);
      found' := found;
      if !fieldOk {
        found' := found[name := err];
      }
      i' := i + 1;
    }

    /** The loop of `isValid()`: every field checked in insertion order, the failing ones collected. */
    method CheckAll() returns (found: map<string, Option<string>>)
      requires Valid()
      requires forall n :: n in store ==> store[n].View().CanCheck()
      modifies Repr
      ensures Valid()
      ensures Views() == Checked(old(Views()), store.Keys)
      ensures found == Failures(old(Views()), store.Keys)
    {
      ghost var before := Views();
      assert forall n :: n in before ==> before[n].CanCheck();
      found := map[];
      var i: nat := 0;
      while i < |order|
        invariant Progress(before, i, found)
        decreases |order| - i
      {
        i, found := CheckNext(before, i, found);
      }
      assert Prefix(i) == store.Keys by {
        forall n | n in store ensures n in Prefix(i) {
          var j :| 0 <= j < |order| && order[j] == n;
        }
      }
    }

    /**
     * `isValid()`: discards the old errors and checks every field, none skipped after a failure.
     * `errors` then maps exactly the failing names to their fields' errors, and the result says it is empty.
     */
    method IsValid() returns (ok: bool)
      requires Valid()
      requires forall n :: n in store ==> store[n].View().CanCheck()
      modifies this`errors, Repr
      ensures Valid()
      ensures Views() == Checked(old(Views()), store.Keys)
      ensures errors == Failures(old(Views()), store.Keys)
      ensures ok <==> errors == map[]
    {
      var found := CheckAll();
      label checked:
      errors := found;
      ErrorsOutsideFrame@checked();
      ok := |errors| == 0;
      assert ok <==> errors == map[] by {
        if errors != map[] {
          var n :| n in errors;
          assert n in errors.Keys;
        }
      }
    }

    /** Writing `errors` changes no field and none of the bookkeeping of the record. */
    twostate lemma ErrorsOutsideFrame()
      requires old(Valid()) && unchanged(this`order, this`store, this`Repr) && unchanged(Repr)
      ensures Valid() && Views() == old(Views())
    {
    }

    /** `clearValidators()`: empties every field's validators. */
    method ClearValidators()
      requires Valid()
      modifies Repr
      ensures Valid()
      ensures forall n :: n in store ==> store[n].View() == old(store[n].View()).(validators := [])
    {
      var i := 0;
      while i < |order|
        invariant 0 <= i <= |order|
        invariant Valid()
        invariant forall n :: n in store ==>
          store[n].View() == if n in order[..i] then old(store[n].View()).(validators := []) else old(store[n].View())
      {
        assert order[..i + 1] == order[..i] + [order[i]];
        store[order[i]].ClearValidators();
        i := i + 1;
      }
      assert order[..|order|] == order;
    }

    /** The state of `merge(data)` after visiting the first `i` fields in insertion order. */
    ghost predicate Merging(before: map<string, FieldView>, data: map<string, string>, i: nat)
      reads this`order, this`store, this`Repr, Repr
    {
      Valid() && i <= |order| && Views() == Merged(before, data, Prefix(i))
    }

    /** `merge(data)` on one field: it takes its entry of `data` unless it is tagged readonly; every other field stays as it was. */
    method MergeField(data: map<string, string>, name: string)
      requires Valid() && name in store
      modifies store[name]
      ensures Valid()
      ensures Views() == old(Views())[name := MergedView(old(Views())[name], data, name)]
    {
      ghost var pre := Views();
      var f := store[name];
      assert f.View() == pre[name];
      if !f.View().IsTagged(ReadonlyTag) {
        var r := f.Set(Lookup(data, name));
        assert r == Ok;
      }
      assert Valid();
      ghost var post := Views();
      forall n | n in post && n != name ensures post[n] == pre[n] {
        assert store[n] != store[name];
      }
      UpdatedAt(post, pre, name);
    }

    /** One iteration of the loop of `merge(data)`. */
    method MergeNext(ghost before: map<string, FieldView>, data: map<string, string>, i: nat) returns (i': nat)
      requires Merging(before, data, i) && i < |order|
      modifies store[order[i]]
      ensures i' == i + 1 && Merging(before, data, i')
    {
      var name := order[i];
      ghost var done, pre := Prefix(i), Views();
      PrefixNext(i);
      MergedStep(before, data, done, name, pre);
      MergeField(data, name);
      i' := i + 1;
    }

    /**
     * `merge(data)`: every field not tagged readonly takes `data[name]`, `undefined` for a missing key;
     * readonly-tagged fields are skipped, so merge never throws.
     */
    method Merge(data: map<string, string>)
      requires Valid()
      modifies Repr
      ensures Valid()
      ensures Views() == Merged(old(Views()), data, store.Keys)
    {
      ghost var before := Views();
      var i: nat := 0;
      while i < |order|
        invariant Merging(before, data, i)
        decreases |order| - i
      {
        i := MergeNext(before, data, i);
      }
      assert Prefix(i) == store.Keys by {
        forall n | n in store ensures n in Prefix(i) {
          var j :| 0 <= j < |order| && order[j] == n;
        }
      }
    }

    /** `toJSON()`: one property per field that has a value, holding that field's `get()`; unset fields are omitted. */
    method ToJson() returns (r: map<string, Value>)
      requires Valid()
      ensures forall n :: n in r <==> n in store && store[n].View().HasValue()
      ensures forall n :: n in r ==> r[n] == store[n].View().Get()
    {
      r := map[];
      var i := 0;
      while i < |order|
        invariant 0 <= i <= |order|
        invariant forall n :: n in r <==> n in order[..i] && store[n].View().HasValue()
        invariant forall n :: n in r ==> n in store && r[n] == store[n].View().Get()
      {
        var f := store[order[i]];
        assert order[..i + 1] == order[..i] + [order[i]];
        if f.View().HasValue() {
          r := r[f.name := f.View().Get()];
        }
        i := i + 1;
      }
      assert order[..|order|] == order;
    }

    /**
     * `toCSV({delimiter})`: one entry per field in insertion order, `get()` when set and `""` otherwise,
     * joined by the delimiter, or by "," when it is missing or empty (`""` stands for missing).
     */
    method ToCsv(delimiter: string) returns (r: string)
      requires Valid()
      ensures r == Csv.Join(CellsOf(order), Csv.Delimiter(delimiter))
    {
      var cells := [];
      var i := 0;
      while i < |order|
        invariant 0 <= i <= |order|
        invariant |cells| == i
        invariant forall j :: 0 <= j < i ==> cells[j] == Cell(store[order[j]].View())
      {
        var f := store[order[i]];
        if f.View().HasValue() && f.View().Get().Some? {
          cells := cells + [f.View().Get().value];
        } else {
          cells := cells + [""];
        }
        i := i + 1;
      }
      assert cells == CellsOf(order);
      r := Csv.Join(cells, Csv.Delimiter(delimiter));
    }
  }
}
