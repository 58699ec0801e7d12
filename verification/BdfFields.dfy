/** Looking a key up among the fields of a canonical dictionary. */
module BdfFields {
  import opened Words
  import opened Bdf

  /** The first field with a key. */
  function Find(fields: seq<Entry>, key: Text): Option<Value> {
    if fields == [] then Option.None
    else if fields[0].key == key then Some(fields[0].value)
    else Find(fields[1..], key)
  }

  lemma {:induction false} FindsSomeField(fields: seq<Entry>, key: Text)
    requires Find(fields, key).Some?
    ensures Entry(key, Find(fields, key).value) in fields
  {
    if fields[0].key == key {
      assert fields[0] == Entry(key, Find(fields, key).value);
    } else {
      FindsSomeField(fields[1..], key);
    }
  }

  lemma {:induction false} FindsFirst(fields: seq<Entry>, i: nat)
    requires i < |fields| && forall j :: 0 <= j < i ==> fields[j].key != fields[i].key
    ensures Find(fields, fields[i].key) == Some(fields[i].value)
  {
    if i > 0 {
      assert fields[0].key != fields[i].key;
      FindsFirst(fields[1..], i - 1);
    }
  }

  /** Canonical fields hold each key once, so what is found is what is there. */
  lemma FindsWhatIsThere(fields: seq<Entry>, key: Text, value: Value)
    requires AdjacentSorted(fields)
    ensures Find(fields, key) == Some(value) <==> Entry(key, value) in fields
  {
    if Entry(key, value) in fields {
      var i :| 0 <= i < |fields| && fields[i] == Entry(key, value);
      forall j | 0 <= j < i ensures fields[j].key != fields[i].key {
        AdjacentSortedIsSorted(fields, j, i);
      }
      FindsFirst(fields, i);
    }
    if Find(fields, key) == Some(value) {
      FindsSomeField(fields, key);
    }
  }

  /** Canonical fields stand in the order of their keys. */
  lemma KeysInOrder(fields: seq<Entry>, i: nat, j: nat)
    requires AdjacentSorted(fields) && i < |fields| && j < |fields|
    requires Before(fields[i].key, fields[j].key)
    ensures i < j
  {
    BeforeIrreflexive(fields[i].key);
    if j < i {
      AdjacentSortedIsSorted(fields, j, i);
      BeforeTransitive(fields[i].key, fields[j].key, fields[i].key);
      assert false;
    }
  }

  /** No field holds a container. */
  predicate Flat(fields: seq<Entry>) {
    forall i :: 0 <= i < |fields| ==> !fields[i].value.List? && !fields[i].value.Dict?
  }

  lemma {:induction false} FlatFieldsDoNotNest(fields: seq<Entry>)
    requires Flat(fields)
    ensures NestingEntries(fields) == 0
  {
    if fields != [] {
      FlatFieldsDoNotNest(fields[1..]);
    }
  }

  lemma FlatFieldsAreCanonical(fields: seq<Entry>)
    requires AdjacentSorted(fields) && Flat(fields)
    ensures IsCanonical(Dict(fields)) && Nesting(Dict(fields)) == 1
  {
    forall i | 0 <= i < |fields| ensures IsCanonical(fields[i].value) {
      assert !fields[i].value.List? && !fields[i].value.Dict?;
    }
    FlatFieldsDoNotNest(fields);
  }
}
