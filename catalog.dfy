/** The novel catalog the homepage works on (`window.novelsData` or the built-in
    sample list). */
module Catalog {

  import opened Wrappers

  /** One catalog entry. `author` and `genres` may be missing. */
  datatype Novel = Novel(
    id: string,
    title: string,
    author: Option<string>,
    cover: string,
    chapters: int,
    genres: Option<seq<string>>,
    latestChapter: string,
    updateTime: string)

  /** `catalog.find(n => n.id === id)`: the first novel with that id, if any. */
  function Find(catalog: seq<Novel>, id: string): (r: Option<Novel>)
    ensures r.None? <==> forall n :: n in catalog ==> n.id != id
    ensures r.Some? ==> exists i :: FirstWithId(catalog, id, i) && catalog[i] == r.value
  {
    if catalog == [] then None
    else if catalog[0].id == id then
      assert FirstWithId(catalog, id, 0);
      Some(catalog[0])
    else
      var r := Find(catalog[1..], id);
      assert forall n :: n in catalog ==> n == catalog[0] || n in catalog[1..];
      assert r.Some? ==> exists i :: FirstWithId(catalog, id, i) && catalog[i] == r.value by {
        if r.Some? {
          var i :| FirstWithId(catalog[1..], id, i) && catalog[1..][i] == r.value;
          assert FirstWithId(catalog, id, i + 1);
        }
      }
      r
  }

  /** `catalog[i]` is the first novel whose id is `id`. */
  ghost predicate FirstWithId(catalog: seq<Novel>, id: string, i: int) {
    && 0 <= i < |catalog|
    && catalog[i].id == id
    && forall j :: 0 <= j < i ==> catalog[j].id != id
  }
}
