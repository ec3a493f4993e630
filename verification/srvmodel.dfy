/** The part of a service model that the dependency analysis reads: a keyed collection
    of entries, each holding an opaque value, an invocable signature, or a nested model
    whose entries take part in the same analysis. */
module SrvModel {
  import opened Wrappers

  /** The name under which an invocable entry publishes its result, and the names it
      reads before it can run (an absent input list is the empty one). */
  datatype ReturnPath = ReturnPath(name: string, inPaths: seq<string>)

  /** What an entry holds. `Invocable` stands for both a signature entry and a service
      entry; its return path is `None` when the signature declares none. */
  datatype Value =
    | Opaque
    | Invocable(returnPath: Option<ReturnPath>)
    | Nested(model: Model)

  datatype Entry = Entry(key: string, value: Value)

  /** The entries, in the iteration order of the model's key set, and the depends-on
      annotations recorded on the model, from entry key to the entry keys it waits for. */
  datatype Model = Model(entries: seq<Entry>, dependsOn: map<string, seq<string>>)

  /** The return path an entry declares, if any. */
  function ReturnPathOf(e: Entry): Option<ReturnPath> {
    if e.value.Invocable? then e.value.returnPath else None
  }

  /** `e` publishes its result under the name `n`. */
  predicate Declares(e: Entry, n: string) {
    ReturnPathOf(e).Some? && ReturnPathOf(e).value.name == n
  }

  /** The keys of the top-level entries. */
  function Keys(m: Model): set<string> {
    set e | e in m.entries :: e.key
  }

  /** Every entry of `m` at any depth, in the order of a recursive descent: each entry
      comes right before the entries of the model it holds. */
  function Flatten(m: Model): seq<Entry> {
    FlattenFrom(m, 0)
  }

  function FlattenFrom(m: Model, i: nat): seq<Entry>
    requires i <= |m.entries|
    decreases m, |m.entries| - i
  {
    if i == |m.entries| then []
    else
      var e := m.entries[i];
      [e] + (if e.value.Nested? then Flatten(e.value.model) else []) + FlattenFrom(m, i + 1)
  }

  /** An entry is at some depth of `m` exactly when it is a top-level entry or an entry
      at some depth of a model held by a top-level entry. */
  lemma {:induction false} FlattenMembers(m: Model, i: nat, x: Entry)
    requires i <= |m.entries|
    ensures x in FlattenFrom(m, i) <==>
              exists j :: i <= j < |m.entries| &&
                (x == m.entries[j] || (m.entries[j].value.Nested? && x in Flatten(m.entries[j].value.model)))
    decreases |m.entries| - i
  {
    if i < |m.entries| {
      FlattenMembers(m, i + 1, x);
      var e := m.entries[i];
      var rest := FlattenFrom(m, i + 1);
      var inner := if e.value.Nested? then Flatten(e.value.model) else [];
      assert FlattenFrom(m, i) == [e] + inner + rest;
      assert x in FlattenFrom(m, i) <==> x == e || x in inner || x in rest;
    }
  }

  /** The descent reads the entries alone, never the annotations. */
  lemma {:induction false} FlattenIgnoresAnnotations(m1: Model, m2: Model, i: nat)
    requires m1.entries == m2.entries && i <= |m1.entries|
    ensures FlattenFrom(m1, i) == FlattenFrom(m2, i)
    decreases |m1.entries| - i
  {
    if i < |m1.entries| {
      FlattenIgnoresAnnotations(m1, m2, i + 1);
    }
  }
}
