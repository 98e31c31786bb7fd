/** The chapter part of an update link (`loadLatestUpdates`):
    `latestChapter.toLowerCase().replace(/ /g, '-').replace(/[^a-z0-9-]/g, '')`. */
module Slug {

  import opened Text
  import opened Sequences

  /** The characters a slug keeps: `[a-z0-9-]`. */
  predicate IsSlugChar(c: char) {
    ('a' <= c <= 'z') || ('0' <= c <= '9') || c == '-'
  }

  /** `.replace(/ /g, '-')` */
  function ReplaceSpaces(s: string): (r: string)
    ensures |r| == |s|
    ensures forall i :: 0 <= i < |s| ==> r[i] == if s[i] == ' ' then '-' else s[i]
  {
    if s == [] then [] else [if s[0] == ' ' then '-' else s[0]] + ReplaceSpaces(s[1..])
  }

  /** `.replace(/[^a-z0-9-]/g, '')` */
  function DeleteNonSlugChars(s: string): (r: string)
    ensures |r| <= |s|
    ensures forall i :: 0 <= i < |r| ==> IsSlugChar(r[i])
    ensures IsSubsequence(r, s)
    ensures forall c {:trigger multiset(r)[c]} :: multiset(r)[c] == if IsSlugChar(c) then multiset(s)[c] else 0
  {
    if s == [] then []
    else
      var rest := DeleteNonSlugChars(s[1..]);
      assert s == [s[0]] + s[1..];
      if IsSlugChar(s[0]) then
        ConsSubsequence(s[0], rest, s[1..]);
        [s[0]] + rest
      else
        SkipSubsequence(s[0], rest, s[1..]);
        rest
  }

  /** The slug: only `[a-z0-9-]` survives, and it is never longer than the title. */
  function ChapterSlug(title: string): (r: string)
    ensures |r| <= |title|
    ensures forall i :: 0 <= i < |r| ==> IsSlugChar(r[i])
  {
    DeleteNonSlugChars(ReplaceSpaces(ToLower(title)))
  }

  /** What one character of the title turns into, stated on its own: a space
      becomes `-`, an ASCII letter its lower-case form, a digit or `-` itself,
      and anything else disappears. */
  function SlugOfChar(c: char): string {
    if c == ' ' then "-"
    else if 'A' <= c <= 'Z' then [(c as int + 32) as char]
    else if IsSlugChar(c) then [c]
    else []
  }

  lemma ToLowerAppend(a: string, b: string)
    ensures ToLower(a + b) == ToLower(a) + ToLower(b)
  {
    assert forall i :: 0 <= i < |a + b| ==> ToLower(a + b)[i] == (ToLower(a) + ToLower(b))[i];
  }

  lemma ReplaceSpacesAppend(a: string, b: string)
    ensures ReplaceSpaces(a + b) == ReplaceSpaces(a) + ReplaceSpaces(b)
  {
    assert forall i :: 0 <= i < |a + b| ==>
      ReplaceSpaces(a + b)[i] == (ReplaceSpaces(a) + ReplaceSpaces(b))[i];
  }

  lemma {:induction false} DeleteNonSlugCharsAppend(a: string, b: string)
    ensures DeleteNonSlugChars(a + b) == DeleteNonSlugChars(a) + DeleteNonSlugChars(b)
  {
    if a == [] {
      assert a + b == b;
    } else {
      assert (a + b)[1..] == a[1..] + b;
      DeleteNonSlugCharsAppend(a[1..], b);
    }
  }

  /** The slug is computed character by character: it distributes over
      concatenation. */
  lemma SlugAppend(a: string, b: string)
    ensures ChapterSlug(a + b) == ChapterSlug(a) + ChapterSlug(b)
  {
    ToLowerAppend(a, b);
    ReplaceSpacesAppend(ToLower(a), ToLower(b));
    DeleteNonSlugCharsAppend(ReplaceSpaces(ToLower(a)), ReplaceSpaces(ToLower(b)));
  }

  /** The three-step chain agrees with the per-character description. */
  lemma SlugOfOneChar(c: char)
    ensures ChapterSlug([c]) == SlugOfChar(c)
  {
    assert ToLower([c]) == [LowerChar(c)];
    assert ReplaceSpaces([LowerChar(c)]) == [if LowerChar(c) == ' ' then '-' else LowerChar(c)];
    var d := if LowerChar(c) == ' ' then '-' else LowerChar(c);
    assert DeleteNonSlugChars([d]) == (if IsSlugChar(d) then [d] else []) + DeleteNonSlugChars([]);
  }

  /** The reference definition: the concatenated images of the title's characters. */
  function SlugByChar(title: string): string {
    if title == [] then [] else SlugOfChar(title[0]) + SlugByChar(title[1..])
  }

  /** The regular-expression chain computes the reference definition on every title. */
  lemma {:induction false} ChapterSlugIsSlugByChar(title: string)
    ensures ChapterSlug(title) == SlugByChar(title)
  {
    if title != [] {
      assert title == [title[0]] + title[1..];
      SlugAppend([title[0]], title[1..]);
      SlugOfOneChar(title[0]);
      ChapterSlugIsSlugByChar(title[1..]);
    }
  }

  /** Every space of the title becomes a `-` in the slug. */
  lemma SlugOfSpace(a: string, b: string)
    ensures ChapterSlug(a + " " + b) == ChapterSlug(a) + "-" + ChapterSlug(b)
  {
    SlugAppend(a + " ", b);
    SlugAppend(a, " ");
    SlugOfOneChar(' ');
  }

  /** A string made of slug characters alone is its own slug. */
  lemma {:induction false} SlugOfSlug(s: string)
    requires forall i :: 0 <= i < |s| ==> IsSlugChar(s[i])
    ensures ChapterSlug(s) == s
  {
    if s != [] {
      assert s == [s[0]] + s[1..];
      SlugAppend([s[0]], s[1..]);
      SlugOfOneChar(s[0]);
      SlugOfSlug(s[1..]);
    }
  }

  /** Building the slug of a slug changes nothing. */
  lemma SlugIdempotent(title: string)
    ensures ChapterSlug(ChapterSlug(title)) == ChapterSlug(title)
  {
    SlugOfSlug(ChapterSlug(title));
  }
}
