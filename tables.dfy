/** The insertion-ordered dictionaries catpip accumulates into. A Python dict
    remembers the order in which its keys were first inserted, and catpip's
    output lists the packages in that order; so a table is a key sequence (the
    order) together with a map (the values). */
module Tables {

  /** The value of a table: `keys` in insertion order, `values` the mapping. */
  datatype Dict = Dict(keys: seq<string>, values: map<string, string>) {

    /** Each key is listed once, and exactly the mapped keys are listed. */
    ghost predicate Valid() {
      && (forall i, j :: 0 <= i < j < |keys| ==> keys[i] != keys[j])
      && (forall k :: k in values <==> k in keys)
    }

    /** `d[k] = v`: `k` maps to `v`, every other key keeps its value, the
        existing order is kept, and a key that is new goes last. */
    function Set(k: string, v: string): (r: Dict)
      ensures k in r.values && r.values[k] == v
      ensures forall j :: j != k ==> (j in r.values <==> j in values)
      ensures forall j :: j != k && j in values ==> r.values[j] == values[j]
      ensures keys <= r.keys
      ensures k in values ==> r.keys == keys
      ensures k !in values ==> |r.keys| == |keys| + 1 && r.keys[|keys|] == k
      ensures Valid() ==> r.Valid()
    {
      if k in values then Dict(keys, values[k := v]) else Dict(keys + [k], values[k := v])
    }
  }

  /** The empty dictionary, `{}`. */
  const Empty: Dict := Dict([], map[])

  /** Overwriting the only key of a one-entry dict. */
  lemma SetSingleton(k: string, v: string, w: string)
    ensures Dict([k], map[k := v]).Set(k, w) == Dict([k], map[k := w])
  {
    assert map[k := v][k := w] == map[k := w];
  }

  /** A dict object that the merge mutates in place. */
  class Table {
    var keys: seq<string>
    var values: map<string, string>

    function Model(): Dict
      reads this
    {
      Dict(keys, values)
    }

    ghost predicate Valid()
      reads this
    {
      Model().Valid()
    }

    constructor ()
      ensures Valid() && Model() == Empty
    {
      keys := [];
      values := map[];
    }

    /** `table[k] = v` */
    method Put(k: string, v: string)
      requires Valid()
      modifies this
      ensures Valid() && Model() == old(Model()).Set(k, v)
    {
      if k !in values {
        keys := keys + [k];
      }
      values := values[k := v];
    }
  }
}
