/** The browser's `localStorage`: string keys to string values, enumerated by
    index (`length`, `key(i)`). The enumeration order is left to the browser;
    this model fixes one: a new key goes to the end, and overwriting a key
    keeps its place. */
module Storage {

  import opened Wrappers

  /** The abstract value of the store: its keys in enumeration order and the
      value held under each. */
  datatype Store = Store(keys: seq<string>, items: map<string, string>) {

    /** Every key is enumerated exactly once. */
    ghost predicate Valid() {
      && (forall i, j :: 0 <= i < j < |keys| ==> keys[i] != keys[j])
      && (forall k :: k in items <==> k in keys)
    }

    /** `getItem(k)`: `null` for a key never written. */
    function GetItem(k: string): (v: Option<string>)
      ensures v.Some? <==> k in items
      ensures v.Some? ==> v.value == items[k]
    {
      if k in items then Some(items[k]) else None
    }

    /** `setItem(k, v)`: last write wins; no other key changes. */
    function SetItem(k: string, v: string): (r: Store)
      ensures Valid() ==> r.Valid()
      ensures r.GetItem(k) == Some(v)
      ensures forall k' :: k' != k ==> r.GetItem(k') == GetItem(k')
      ensures k in items ==> r.keys == keys
      ensures k !in items ==> r.keys == keys + [k]
    {
      Store(if k in items then keys else keys + [k], items[k := v])
    }
  }

  const Empty := Store([], map[])

  class LocalStorage {

    var keys: seq<string>
    var items: map<string, string>

    function Model(): Store
      reads this
    {
      Store(keys, items)
    }

    ghost predicate Valid()
      reads this
    {
      Model().Valid()
    }

    constructor ()
      ensures Valid() && Model() == Empty
    {
      keys, items := [], map[];
    }

    /** `localStorage.length` */
    function Length(): (n: nat)
      reads this
      ensures Valid() ==> n == |items|
    {
      StoreSize(Model());
      |keys|
    }

    /** `localStorage.key(i)` */
    function Key(i: nat): (k: string)
      requires i < |keys|
      reads this
      ensures Valid() ==> k in items
    {
      keys[i]
    }

    /** `localStorage.getItem(k)` */
    function GetItem(k: string): (v: Option<string>)
      reads this
      ensures v == Model().GetItem(k)
    {
      if k in items then Some(items[k]) else None
    }

    /** `localStorage.setItem(k, v)` */
    method SetItem(k: string, v: string)
      requires Valid()
      modifies this
      ensures Valid()
      ensures Model() == old(Model()).SetItem(k, v)
    {
      if k !in items {
        keys := keys + [k];
      }
      items := items[k := v];
    }
  }

  /** The number of enumerated keys is the number of stored items. */
  lemma StoreSize(st: Store)
    ensures st.Valid() ==> |st.keys| == |st.items|
  {
    if st.Valid() {
      KeysCardinality(st.keys);
      assert st.items.Keys == set k | k in st.keys;
    }
  }

  lemma {:induction false} KeysCardinality(keys: seq<string>)
    requires forall i, j :: 0 <= i < j < |keys| ==> keys[i] != keys[j]
    ensures |set k | k in keys| == |keys|
  {
    if keys != [] {
      var last := keys[|keys| - 1];
      var init := keys[..|keys| - 1];
      KeysCardinality(init);
      assert (set k | k in keys) == (set k | k in init) + {last};
      assert last !in init;
    }
  }
}
