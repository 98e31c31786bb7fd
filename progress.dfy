/** Reading progress (`initReadingProgress`, `getContinueReading`,
    `displayContinueReading`): a chapter page records, under `reading_<novelId>`,
    which chapter of the novel was opened and when; the homepage lists every such
    record, most recent first, and shows up to five of them joined with the
    catalog. `JSON.stringify` and `JSON.parse` are the injected `Codec`; the clock
    is the `now` parameter. */
module ReadingProgress {

  import opened Wrappers
  import opened Text
  import opened Sequences
  import opened Sorting
  import opened Storage
  import opened Catalog

  /** The stored record `{novelId, chapter, timestamp}`; the ISO-8601 timestamp
      is modelled by the instant it denotes, as an integer. */
  datatype Progress = Progress(novelId: string, chapter: int, timestamp: int)

  /** The outcome of `JSON.parse` on a stored value: a record, or a thrown
      `SyntaxError`. */
  datatype Parsed = Valid(record: Progress) | Malformed

  datatype Codec = Codec(stringify: Progress -> string, parse: string -> Parsed)

  /** What JSON guarantees: parsing what was stringified gives the record back. */
  ghost predicate RoundTrips(codec: Codec) {
    forall p :: codec.parse(codec.stringify(p)) == Valid(p)
  }

  const ReadingPrefix := "reading_"

  /** `key.startsWith('reading_')` */
  predicate IsReadingKey(k: string) {
    StartsWith(k, ReadingPrefix)
  }

  /** `` `reading_${novelId}` `` */
  function ReadingKey(novelId: string): (k: string)
    ensures IsReadingKey(k)
    ensures k[|ReadingPrefix|..] == novelId
  {
    ReadingPrefix + novelId
  }

  function NovelIdOf(p: Progress): string {
    p.novelId
  }

  /** The guard `novelId && chapterNumber`: `None` stands for `undefined`, `null`
      and `NaN`; the empty string and the number 0 are falsy as well. */
  predicate ShouldSave(novelId: Option<string>, chapter: Option<int>) {
    novelId.Some? && novelId.value != "" && chapter.Some? && chapter.value != 0
  }

  /** The store after the page load's progress write. */
  function SaveProgressTo(st: Store, codec: Codec, novelId: Option<string>, chapter: Option<int>,
                          now: int): (r: Store)
    ensures st.Valid() ==> r.Valid()
    ensures !ShouldSave(novelId, chapter) ==> r == st
    ensures ShouldSave(novelId, chapter) ==>
              r.GetItem(ReadingKey(novelId.value))
              == Some(codec.stringify(Progress(novelId.value, chapter.value, now)))
    ensures forall k :: !ShouldSave(novelId, chapter) || k != ReadingKey(novelId.value) ==>
              r.GetItem(k) == st.GetItem(k)
  {
    if ShouldSave(novelId, chapter) then
      st.SetItem(ReadingKey(novelId.value), codec.stringify(Progress(novelId.value, chapter.value, now)))
    else
      st
  }

  /** `initReadingProgress(novelId, chapterNumber)`, its synchronous write. */
  method SaveProgress(storage: LocalStorage, codec: Codec, novelId: Option<string>,
                      chapter: Option<int>, now: int)
    requires storage.Valid()
    modifies storage
    ensures storage.Valid()
    ensures storage.Model() == SaveProgressTo(old(storage.Model()), codec, novelId, chapter, now)
  {
    if ShouldSave(novelId, chapter) {
      var progress := Progress(novelId.value, chapter.value, now);
      storage.SetItem(ReadingKey(novelId.value), codec.stringify(progress));
    }
  }

  /** What the listing loop pushes for key `k`: the parsed record of a
      `reading_` key, nothing for another key or an unparsable value. */
  function Pushed(k: string, items: map<string, string>, parse: string -> Parsed): (r: seq<Progress>)
    ensures |r| <= 1
    ensures r != [] <==> k in items && IsReadingKey(k) && parse(items[k]).Valid?
    ensures r != [] ==> parse(items[k]) == Valid(r[0])
  {
    if k in items && IsReadingKey(k) then
      match parse(items[k])
      case Valid(p) => [p]
      case Malformed => []
    else []
  }

  /** The records collected by the loop over `keys`, in key order, before sorting. */
  function Collect(keys: seq<string>, items: map<string, string>, parse: string -> Parsed): (r: seq<Progress>)
    ensures |r| <= |keys|
  {
    if keys == [] then []
    else Collect(keys[..|keys| - 1], items, parse) + Pushed(keys[|keys| - 1], items, parse)
  }

  /** The comparator `new Date(b.timestamp) - new Date(a.timestamp)` as a sort key. */
  function Recency(p: Progress): int {
    -p.timestamp
  }

  /** `getContinueReading()` as a function of the store. */
  function ListProgress(st: Store, parse: string -> Parsed): (r: seq<Progress>)
    ensures multiset(r) == multiset(Collect(st.keys, st.items, parse))
    ensures forall i, j :: 0 <= i < j < |r| ==> r[i].timestamp >= r[j].timestamp
  {
    var r := SortBy(Collect(st.keys, st.items, parse), Recency);
    assert SortedBy(r, Recency);
    r
  }

  /** `p` is the parsed value of some `reading_` key of the store. */
  ghost predicate StoredUnderReadingKey(st: Store, parse: string -> Parsed, p: Progress) {
    exists k :: k in st.items && IsReadingKey(k) && parse(st.items[k]) == Valid(p)
  }

  /** `getContinueReading()`: scan the store, keep the `reading_` keys whose value
      parses, and sort the records most recent first. */
  method GetContinueReading(storage: LocalStorage, codec: Codec) returns (allProgress: seq<Progress>)
    requires storage.Valid()
    ensures allProgress == ListProgress(storage.Model(), codec.parse)
    ensures forall p :: p in allProgress <==> StoredUnderReadingKey(storage.Model(), codec.parse, p)
    ensures forall i, j :: 0 <= i < j < |allProgress| ==>
              allProgress[i].timestamp >= allProgress[j].timestamp
  {
    allProgress := [];
    for i := 0 to storage.Length()
      invariant allProgress == Collect(storage.keys[..i], storage.items, codec.parse)
    {
      var key := storage.Key(i);
      assert storage.keys[..i + 1][..i] == storage.keys[..i];
      if StartsWith(key, ReadingPrefix) {
        var progress := codec.parse(storage.GetItem(key).value);
        match progress {
          case Valid(p) => allProgress := allProgress + [p];
          case Malformed =>
        }
      }
    }
    assert storage.keys[..|storage.keys|] == storage.keys;
    allProgress := SortBy(allProgress, Recency);
    ListedIffStored(storage.Model(), codec.parse);
  }

  lemma {:induction false} CollectMembers(keys: seq<string>, items: map<string, string>,
                                          parse: string -> Parsed, p: Progress)
    ensures p in Collect(keys, items, parse) <==>
            exists k :: k in keys && k in items && IsReadingKey(k) && parse(items[k]) == Valid(p)
  {
    if keys != [] {
      var init, last := keys[..|keys| - 1], keys[|keys| - 1];
      assert keys == init + [last];
      CollectMembers(init, items, parse, p);
      assert forall k :: k in keys <==> k in init || k == last;
    }
  }

  /** The listing holds exactly the records stored under `reading_` keys that
      parse; values that do not parse and keys without the prefix (`theme`,
      `fontSize`, `scroll_...`) contribute nothing. */
  lemma ListedIffStored(st: Store, parse: string -> Parsed)
    requires st.Valid()
    ensures forall p :: p in ListProgress(st, parse) <==> StoredUnderReadingKey(st, parse, p)
  {
    forall p ensures p in ListProgress(st, parse) <==> StoredUnderReadingKey(st, parse, p) {
      assert p in ListProgress(st, parse) <==> p in multiset(Collect(st.keys, st.items, parse));
      CollectMembers(st.keys, st.items, parse, p);
    }
  }

  /** `Collect` only looks at the `reading_` keys it enumerates. */
  lemma {:induction false} CollectAgree(keys: seq<string>, items1: map<string, string>,
                                        items2: map<string, string>, parse: string -> Parsed)
    requires forall k :: k in keys && IsReadingKey(k) ==>
               (k in items1 <==> k in items2) && (k in items1 ==> items1[k] == items2[k])
    ensures Collect(keys, items1, parse) == Collect(keys, items2, parse)
  {
    if keys != [] {
      CollectAgree(keys[..|keys| - 1], items1, items2, parse);
    }
  }

  /** Writing a key without the `reading_` prefix leaves the listing as it was. */
  lemma NonReadingWriteIgnored(st: Store, parse: string -> Parsed, k: string, v: string)
    requires !IsReadingKey(k)
    ensures ListProgress(st.SetItem(k, v), parse) == ListProgress(st, parse)
  {
    var st' := st.SetItem(k, v);
    CollectAgree(st.keys, st.items, st'.items, parse);
    assert Collect(st'.keys, st'.items, parse) == Collect(st.keys, st.items, parse) by {
      if k !in st.items {
        assert st'.keys[..|st'.keys| - 1] == st.keys;
        assert Pushed(k, st'.items, parse) == [];
        assert Collect(st'.keys, st'.items, parse)
            == Collect(st.keys, st'.items, parse) + Pushed(k, st'.items, parse);
      }
    }
  }

  predicate Distinct(keys: seq<string>) {
    forall i, j :: 0 <= i < j < |keys| ==> keys[i] != keys[j]
  }

  /** Overwriting the last enumerated key changes only its own contribution. */
  lemma CollectAfterWriteLast(keys: seq<string>, items: map<string, string>,
                              parse: string -> Parsed, k: string, v: string)
    requires Distinct(keys) && keys != [] && keys[|keys| - 1] == k
    ensures Collect(keys, items, parse) == Collect(keys[..|keys| - 1], items, parse) + Pushed(k, items, parse)
    ensures Collect(keys, items[k := v], parse)
         == Collect(keys[..|keys| - 1], items, parse) + Pushed(k, items[k := v], parse)
  {
    var init := keys[..|keys| - 1];
    assert forall i :: 0 <= i < |init| ==> init[i] == keys[i] && keys[i] != k;
    CollectAgree(init, items, items[k := v], parse);
  }

  /** Overwriting an earlier key leaves the last key's contribution as it was. */
  lemma CollectAfterWriteEarlier(keys: seq<string>, items: map<string, string>,
                                 parse: string -> Parsed, k: string, v: string)
    requires Distinct(keys) && k in keys && keys[|keys| - 1] != k
    ensures Distinct(keys[..|keys| - 1]) && k in keys[..|keys| - 1]
    ensures Collect(keys, items, parse)
         == Collect(keys[..|keys| - 1], items, parse) + Pushed(keys[|keys| - 1], items, parse)
    ensures Collect(keys, items[k := v], parse)
         == Collect(keys[..|keys| - 1], items[k := v], parse) + Pushed(keys[|keys| - 1], items, parse)
  {
    var init := keys[..|keys| - 1];
    assert forall i :: 0 <= i < |init| ==> init[i] == keys[i];
    var i :| 0 <= i < |keys| && keys[i] == k;
    assert init[i] == k;
  }

  /** How overwriting an enumerated key `k` changes the collected records: what
      `k` pushed before is traded for what it pushes now. */
  lemma {:induction false} CollectAfterWrite(keys: seq<string>, items: map<string, string>,
                                             parse: string -> Parsed, k: string, v: string)
    requires Distinct(keys) && k in keys
    ensures multiset(Collect(keys, items[k := v], parse)) + multiset(Pushed(k, items, parse))
         == multiset(Collect(keys, items, parse)) + multiset(Pushed(k, items[k := v], parse))
  {
    var init, last := keys[..|keys| - 1], keys[|keys| - 1];
    var pushed, pushed' := Pushed(k, items, parse), Pushed(k, items[k := v], parse);
    if last == k {
      CollectAfterWriteLast(keys, items, parse, k, v);
      var before := Collect(init, items, parse);
      calc {
        multiset(before + pushed') + multiset(pushed);
        multiset(before + pushed) + multiset(pushed');
      }
    } else {
      CollectAfterWriteEarlier(keys, items, parse, k, v);
      CollectAfterWrite(init, items, parse, k, v);
      var m, m' := multiset(Collect(init, items, parse)), multiset(Collect(init, items[k := v], parse));
      var h := multiset(Pushed(last, items, parse));
      assert multiset(Collect(keys, items, parse)) == m + h;
      assert multiset(Collect(keys, items[k := v], parse)) == m' + h;
      MultisetTrade(m, m', h, multiset(pushed), multiset(pushed'));
    }
  }

  lemma MultisetTrade<T>(m: multiset<T>, m': multiset<T>, h: multiset<T>, p: multiset<T>, p': multiset<T>)
    requires m' + p == m + p'
    ensures (m' + h) + p == (m + h) + p'
  {
    assert (m' + h) + p == (m' + p) + h;
  }

  /** A `reading_` value that no longer parses drops out of the listing, and
      nothing else changes: every other record stays, and no record is added. */
  lemma {:induction false} CorruptedEntryDropped(st: Store, parse: string -> Parsed, k: string, v: string)
    requires st.Valid() && k in st.items && IsReadingKey(k) && parse(v) == Malformed
    ensures parse(st.items[k]).Malformed? ==>
              multiset(ListProgress(st.SetItem(k, v), parse)) == multiset(ListProgress(st, parse))
    ensures parse(st.items[k]).Valid? ==>
              multiset(ListProgress(st.SetItem(k, v), parse))
              == multiset(ListProgress(st, parse)) - multiset{parse(st.items[k]).record}
  {
    var st' := st.SetItem(k, v);
    assert st'.keys == st.keys && st'.items == st.items[k := v];
    var after := multiset(ListProgress(st', parse));
    var before := multiset(ListProgress(st, parse));
    var dropped := multiset(Pushed(k, st.items, parse));
    assert Distinct(st.keys) && k in st.keys;
    CollectMalformedWrite(st.keys, st.items, parse, k, v);
    assert after + dropped == before;
    if parse(st.items[k]).Valid? {
      var q := parse(st.items[k]).record;
      assert dropped == multiset{q};
      MultisetRemove(after, before, q);
    } else {
      assert dropped == multiset{};
    }
  }

  /** Overwriting an enumerated `reading_` key with a malformed value removes
      what that key contributed and nothing else. */
  lemma CollectMalformedWrite(keys: seq<string>, items: map<string, string>,
                              parse: string -> Parsed, k: string, v: string)
    requires Distinct(keys) && k in keys && IsReadingKey(k) && parse(v) == Malformed
    ensures multiset(Collect(keys, items[k := v], parse)) + multiset(Pushed(k, items, parse))
         == multiset(Collect(keys, items, parse))
  {
    assert Pushed(k, items[k := v], parse) == [];
    CollectAfterWrite(keys, items, parse, k, v);
  }

  lemma MultisetRemove<T>(a: multiset<T>, b: multiset<T>, q: T)
    requires a + multiset{q} == b
    ensures a == b - multiset{q}
  {
    assert forall x :: (b - multiset{q})[x] == a[x];
  }

  /** Every stored `reading_` record lives under its own novel's key, as
      `SaveProgress` writes them. */
  ghost predicate Consistent(st: Store, parse: string -> Parsed) {
    forall k :: k in st.items && IsReadingKey(k) && parse(st.items[k]).Valid? ==>
      k == ReadingKey(parse(st.items[k]).record.novelId)
  }

  lemma {:induction false} CollectOneRecordPerNovel(keys: seq<string>, items: map<string, string>,
                                                    parse: string -> Parsed)
    requires Distinct(keys)
    requires forall k :: k in items && IsReadingKey(k) && parse(items[k]).Valid? ==>
               k == ReadingKey(parse(items[k]).record.novelId)
    ensures DistinctBy(Collect(keys, items, parse), NovelIdOf)
  {
    if keys != [] {
      var init, last := keys[..|keys| - 1], keys[|keys| - 1];
      assert Distinct(init);
      CollectOneRecordPerNovel(init, items, parse);
      var before := Collect(init, items, parse);
      var pushed := Pushed(last, items, parse);
      if pushed != [] {
        var p := pushed[0];
        forall q | q in before ensures q.novelId != p.novelId {
          CollectMembers(init, items, parse, q);
          var kq :| kq in init && kq in items && IsReadingKey(kq) && parse(items[kq]) == Valid(q);
          assert kq != last;
          assert ReadingKey(q.novelId) == kq && ReadingKey(p.novelId) == last;
        }
        var all := before + pushed;
        forall i, j | 0 <= i < j < |all| ensures all[i].novelId != all[j].novelId {
          if j == |before| {
            assert all[i] in before;
          } else {
            assert all[i] == before[i] && all[j] == before[j];
          }
        }
      }
    }
  }

  /** One record per novel: in a consistent store no two listed records share a
      novel id. */
  lemma OneRecordPerNovel(st: Store, parse: string -> Parsed)
    requires st.Valid() && Consistent(st, parse)
    ensures DistinctBy(ListProgress(st, parse), NovelIdOf)
  {
    CollectOneRecordPerNovel(st.keys, st.items, parse);
    SortPreservesDistinctBy(Collect(st.keys, st.items, parse), Recency, NovelIdOf);
  }

  /** Saving lists the new record. */
  lemma SaveThenListed(st: Store, codec: Codec, novelId: Option<string>, chapter: Option<int>, now: int)
    requires st.Valid() && RoundTrips(codec) && ShouldSave(novelId, chapter)
    ensures Progress(novelId.value, chapter.value, now)
              in ListProgress(SaveProgressTo(st, codec, novelId, chapter, now), codec.parse)
  {
    var st' := SaveProgressTo(st, codec, novelId, chapter, now);
    var p := Progress(novelId.value, chapter.value, now);
    var k := ReadingKey(novelId.value);
    assert st'.items[k] == codec.stringify(p);
    assert StoredUnderReadingKey(st', codec.parse, p);
    ListedIffStored(st', codec.parse);
  }

  /** Saving keeps the store consistent and replaces whatever the novel had:
      the new record is its only one. */
  lemma SaveReplacesRecord(st: Store, codec: Codec, novelId: Option<string>, chapter: Option<int>,
                           now: int)
    requires st.Valid() && RoundTrips(codec) && Consistent(st, codec.parse)
    requires ShouldSave(novelId, chapter)
    ensures Consistent(SaveProgressTo(st, codec, novelId, chapter, now), codec.parse)
    ensures forall q :: q in ListProgress(SaveProgressTo(st, codec, novelId, chapter, now), codec.parse)
                        && q.novelId == novelId.value ==>
              q == Progress(novelId.value, chapter.value, now)
  {
    var st' := SaveProgressTo(st, codec, novelId, chapter, now);
    var k := ReadingKey(novelId.value);
    forall k' | k' in st'.items && IsReadingKey(k') && codec.parse(st'.items[k']).Valid?
      ensures k' == ReadingKey(codec.parse(st'.items[k']).record.novelId)
    {
      if k' != k {
        assert st'.GetItem(k') == st.GetItem(k');
      }
    }
    ListedIffStored(st', codec.parse);
    forall q | q in ListProgress(st', codec.parse) && q.novelId == novelId.value
      ensures q == Progress(novelId.value, chapter.value, now)
    {
      var kq :| kq in st'.items && IsReadingKey(kq) && codec.parse(st'.items[kq]) == Valid(q);
      assert kq == ReadingKey(q.novelId);
    }
  }

  /** Saving one novel's progress leaves every other novel's records listed as
      they were. */
  lemma SaveKeepsOtherNovels(st: Store, codec: Codec, novelId: Option<string>, chapter: Option<int>,
                             now: int)
    requires st.Valid() && RoundTrips(codec) && Consistent(st, codec.parse)
    requires ShouldSave(novelId, chapter)
    ensures forall q: Progress :: q.novelId != novelId.value ==>
              (q in ListProgress(SaveProgressTo(st, codec, novelId, chapter, now), codec.parse)
               <==> q in ListProgress(st, codec.parse))
  {
    var st' := SaveProgressTo(st, codec, novelId, chapter, now);
    var k := ReadingKey(novelId.value);
    ListedIffStored(st, codec.parse);
    ListedIffStored(st', codec.parse);
    forall q: Progress | q.novelId != novelId.value
      ensures StoredUnderReadingKey(st', codec.parse, q) <==> StoredUnderReadingKey(st, codec.parse, q)
    {
      if StoredUnderReadingKey(st, codec.parse, q) {
        var kq :| kq in st.items && IsReadingKey(kq) && codec.parse(st.items[kq]) == Valid(q);
        assert kq == ReadingKey(q.novelId);
        assert kq != k;
        assert st'.GetItem(kq) == st.GetItem(kq);
      }
      if StoredUnderReadingKey(st', codec.parse, q) {
        var kq :| kq in st'.items && IsReadingKey(kq) && codec.parse(st'.items[kq]) == Valid(q);
        assert kq != k;
        assert st'.GetItem(kq) == st.GetItem(kq);
      }
    }
  }

  /** Last write wins: a second save for the same novel leaves the store exactly
      as a single save of the second position would. */
  lemma SaveTwiceOverwrites(st: Store, codec: Codec, novelId: Option<string>,
                            chapter1: Option<int>, now1: int, chapter2: Option<int>, now2: int)
    requires ShouldSave(novelId, chapter2)
    ensures SaveProgressTo(SaveProgressTo(st, codec, novelId, chapter1, now1), codec, novelId, chapter2, now2)
         == SaveProgressTo(st, codec, novelId, chapter2, now2)
  {
    if ShouldSave(novelId, chapter1) {
      var k := ReadingKey(novelId.value);
      var v1 := codec.stringify(Progress(novelId.value, chapter1.value, now1));
      var v2 := codec.stringify(Progress(novelId.value, chapter2.value, now2));
      assert st.items[k := v1][k := v2] == st.items[k := v2];
    }
  }

  /** The continue-reading section shows at most this many novels. */
  const ContinueReadingLimit := 5

  /** One card of the section: the catalog's novel and the record it continues. */
  datatype ContinueEntry = ContinueEntry(novel: Novel, progress: Progress)

  function Records(entries: seq<ContinueEntry>): (r: seq<Progress>)
    ensures |r| == |entries|
    ensures forall i :: 0 <= i < |entries| ==> r[i] == entries[i].progress
  {
    if entries == [] then [] else [entries[0].progress] + Records(entries[1..])
  }

  /** `records.map(find in catalog)`, with the records whose novel is missing dropped. */
  function JoinCatalog(records: seq<Progress>, catalog: seq<Novel>): (r: seq<ContinueEntry>)
    ensures |r| <= |records|
    ensures forall e :: e in r ==> Find(catalog, e.progress.novelId) == Some(e.novel)
    ensures IsSubsequence(Records(r), records)
    ensures forall p :: p in Records(r) <==> p in records && Find(catalog, p.novelId).Some?
    ensures forall p {:trigger multiset(Records(r))[p]} :: multiset(Records(r))[p]
                        == if Find(catalog, p.novelId).Some? then multiset(records)[p] else 0
  {
    if records == [] then []
    else
      var rest := JoinCatalog(records[1..], catalog);
      assert records == [records[0]] + records[1..];
      match Find(catalog, records[0].novelId)
      case Some(novel) =>
        var r := [ContinueEntry(novel, records[0])] + rest;
        assert Records(r) == [records[0]] + Records(rest);
        ConsSubsequence(records[0], Records(rest), records[1..]);
        r
      case None =>
        SkipSubsequence(records[0], Records(rest), records[1..]);
        rest
  }

  /** The data part of `displayContinueReading(novels)`: the first five records,
      each joined with the first catalog novel of the same id; records without
      one are left out (the slice is taken before the join). */
  function ContinueReading(records: seq<Progress>, catalog: seq<Novel>): (r: seq<ContinueEntry>)
    ensures |r| <= ContinueReadingLimit
    ensures forall e :: e in r ==> e.novel in catalog && e.novel.id == e.progress.novelId
    ensures forall e :: e in r ==> Find(catalog, e.progress.novelId) == Some(e.novel)
    ensures var shown := if |records| <= ContinueReadingLimit then records
                         else records[..ContinueReadingLimit];
            && IsSubsequence(Records(r), shown)
            && (forall p :: p in Records(r) <==> p in shown && Find(catalog, p.novelId).Some?)
            && forall p {:trigger multiset(Records(r))[p]} :: multiset(Records(r))[p]
                           == if Find(catalog, p.novelId).Some? then multiset(shown)[p] else 0
  {
    var shown := if |records| <= ContinueReadingLimit then records else records[..ContinueReadingLimit];
    JoinCatalog(shown, catalog)
  }

  /** Joining a list sorted most recent first keeps it sorted so. */
  lemma ContinueReadingByRecency(records: seq<Progress>, catalog: seq<Novel>)
    requires forall i, j :: 0 <= i < j < |records| ==> records[i].timestamp >= records[j].timestamp
    ensures var r := ContinueReading(records, catalog);
            forall i, j :: 0 <= i < j < |r| ==> r[i].progress.timestamp >= r[j].progress.timestamp
  {
    var shown := if |records| <= ContinueReadingLimit then records else records[..ContinueReadingLimit];
    var r := ContinueReading(records, catalog);
    assert SortedBy(shown, Recency);
    SubsequenceSorted(Records(r), shown, Recency);
    assert forall i :: 0 <= i < |r| ==> Records(r)[i] == r[i].progress;
  }

  /** The cards shown on the homepage for a store: each continues a record stored
      under a `reading_` key, with a catalog novel, most recent first. */
  lemma ContinueReadingFromStore(st: Store, parse: string -> Parsed, catalog: seq<Novel>)
    requires st.Valid()
    ensures var r := ContinueReading(ListProgress(st, parse), catalog);
            && |r| <= ContinueReadingLimit
            && (forall e :: e in r ==> StoredUnderReadingKey(st, parse, e.progress) && e.novel in catalog)
            && forall i, j :: 0 <= i < j < |r| ==> r[i].progress.timestamp >= r[j].progress.timestamp
  {
    var all := ListProgress(st, parse);
    ListedIffStored(st, parse);
    ContinueReadingFromRecords(all, catalog);
    ContinueReadingByRecency(all, catalog);
  }

  /** Every card continues one of the listed records. */
  lemma ContinueReadingFromRecords(records: seq<Progress>, catalog: seq<Novel>)
    ensures forall e :: e in ContinueReading(records, catalog) ==> e.progress in records
  {
    var shown := if |records| <= ContinueReadingLimit then records else records[..ContinueReadingLimit];
    var r := ContinueReading(records, catalog);
    forall e | e in r ensures e.progress in records {
      var i :| 0 <= i < |r| && r[i] == e;
      assert Records(r)[i] == e.progress;
      assert e.progress in shown;
    }
  }
}
