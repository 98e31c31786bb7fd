/** The homepage search box (`initSearch`): on every input the query is
    lower-cased and trimmed; a query of fewer than two characters shows the whole
    catalog, a longer one shows the novels whose title, author or one of whose
    genres contains it, ignoring case. */
module Search {

  import opened Wrappers
  import opened Text
  import opened Sequences
  import opened Catalog

  const MinQueryLength := 2

  /** `e.target.value.toLowerCase().trim()`: no upper-case letter, and no
      whitespace at either end. */
  function NormalizeQuery(raw: string): (q: string)
    ensures forall i :: 0 <= i < |q| ==> !IsUpper(q[i])
    ensures q != [] ==> !IsJsWhitespace(q[0]) && !IsJsWhitespace(q[|q| - 1])
  {
    TrimOfLower(ToLower(raw));
    Trim(ToLower(raw))
  }

  /** The filter predicate. A missing or empty author, and missing genres, never
      match. */
  predicate MatchesQuery(n: Novel, query: string) {
    || Contains(ToLower(n.title), query)
    || (n.author.Some? && n.author.value != "" && Contains(ToLower(n.author.value), query))
    || (n.genres.Some? && exists g :: g in n.genres.value && Contains(ToLower(g), query))
  }

  /** `novels.filter(novel => MatchesQuery(novel, query))` */
  function FilterMatching(novels: seq<Novel>, query: string): (r: seq<Novel>)
    ensures IsSubsequence(r, novels)
    ensures forall n :: n in r <==> n in novels && MatchesQuery(n, query)
    ensures forall n {:trigger multiset(r)[n]} :: multiset(r)[n] == if MatchesQuery(n, query) then multiset(novels)[n] else 0
  {
    if novels == [] then []
    else
      var rest := FilterMatching(novels[1..], query);
      assert novels == [novels[0]] + novels[1..];
      if MatchesQuery(novels[0], query) then
        ConsSubsequence(novels[0], rest, novels[1..]);
        [novels[0]] + rest
      else
        SkipSubsequence(novels[0], rest, novels[1..]);
        rest
  }

  /** What the novel grid shows for the text typed into the search box. The
      threshold `query.length < 2` counts UTF-16 code units. */
  function SearchResults(novels: seq<Novel>, raw: string): (r: seq<Novel>)
    ensures |r| <= |novels|
    ensures Utf16Length(NormalizeQuery(raw)) < MinQueryLength ==> r == novels
    ensures Utf16Length(NormalizeQuery(raw)) >= MinQueryLength ==>
              && IsSubsequence(r, novels)
              && (forall n :: n in r <==> n in novels && MatchesQuery(n, NormalizeQuery(raw)))
              && forall n {:trigger multiset(r)[n]} :: multiset(r)[n]
                             == if MatchesQuery(n, NormalizeQuery(raw)) then multiset(novels)[n] else 0
  {
    var query := NormalizeQuery(raw);
    if Utf16Length(query) < MinQueryLength then novels
    else
      var r := FilterMatching(novels, query);
      SubsequenceLength(r, novels);
      r
  }

  /** Normalizing an already normalized query changes nothing. */
  lemma NormalizeQueryIdempotent(raw: string)
    ensures NormalizeQuery(NormalizeQuery(raw)) == NormalizeQuery(raw)
  {
    var lowered := ToLower(raw);
    var q := Trim(lowered);
    TrimOfLower(lowered);
    ToLowerOfLower(q);
    TrimIdempotent(lowered);
  }

  /** The case of what is typed does not matter. */
  lemma SearchIgnoresQueryCase(novels: seq<Novel>, raw: string)
    ensures SearchResults(novels, ToLower(raw)) == SearchResults(novels, raw)
  {
    ToLowerIdempotent(raw);
  }

  /** One astral character, such as an emoji, is a query of length two: the
      catalog is filtered rather than shown whole. */
  lemma AstralQueryFilters(novels: seq<Novel>, c: char)
    requires IsAstral(c)
    ensures SearchResults(novels, [c]) == FilterMatching(novels, NormalizeQuery([c]))
  {
    assert ToLower([c]) == [c];
    assert !IsJsWhitespace(c);
    assert Trim([c]) == [c];
    assert Utf16Length([c]) == 2;
  }
}
