/** The blog editor's text handling: the content box holds the paragraphs
    separated by blank lines, the tags box holds the tags separated by
    commas, the search box filters the list, and the publish toggle picks
    the logged action. */
module BlogEditor {
  import opened Wrappers
  import opened Seqs
  import opened Text

  const ParagraphBreak: string := "\n\n"

  /** `contentText.split('\n\n').filter(p => p.trim()).map(p => p.trim())`:
      the non-blank chunks, trimmed. */
  function ParseContent(text: string): (r: seq<string>)
    ensures forall k :: 0 <= k < |r| ==> r[k] != "" && IsTrimmed(r[k])
  {
    var kept := Filter(SplitOn(text, ParagraphBreak), NotBlank);
    forall k | 0 <= k < |kept| ensures Trim(kept[k]) != "" {
      TrimEmpty(kept[k]);
    }
    TrimAll(kept)
  }

  predicate NotBlank(s: string) {
    !AllSpace(s)
  }

  /** Every piece trimmed. */
  function TrimAll(s: seq<string>): (r: seq<string>)
    ensures |r| == |s| && forall k :: 0 <= k < |s| ==> r[k] == Trim(s[k])
  {
    seq(|s|, k requires 0 <= k < |s| => Trim(s[k]))
  }

  /** The content box as filled for an existing post. */
  function ContentText(paragraphs: seq<string>): string {
    Join(paragraphs, ParagraphBreak)
  }

  /** A paragraph the content box can carry unchanged. */
  predicate GoodParagraph(p: string) {
    p != "" && IsTrimmed(p) && !Contains(p, ParagraphBreak)
  }

  /** Paragraphs that are trimmed, non-empty and without a blank line come
      back unchanged from the content box. */
  lemma ContentRoundTrip(paragraphs: seq<string>)
    requires forall k :: 0 <= k < |paragraphs| ==> GoodParagraph(paragraphs[k])
    ensures ParseContent(ContentText(paragraphs)) == paragraphs
  {
    ParseContentSteps(ContentText(paragraphs));
    if paragraphs == [] {
      EmptySplit(ParagraphBreak);
      assert AllSpace("");
    } else {
      forall k | 0 <= k < |paragraphs| ensures CleanBefore(paragraphs[k], ParagraphBreak) {
        BreakNotAcrossEnd(paragraphs[k]);
      }
      SplitJoin(paragraphs, ParagraphBreak);
      KeptAndTrimmed(paragraphs);
    }
  }

  /** Non-empty trimmed text is not blank and trims to itself. */
  lemma Settled(p: string)
    requires p != "" && IsTrimmed(p)
    ensures NotBlank(p) && Trim(p) == p
  {
    TrimTrimmed(p);
    TrimEmpty(p);
  }

  /** Dropping the blank pieces and trimming the rest keeps non-empty
      trimmed pieces as they are. */
  lemma KeptAndTrimmed(pieces: seq<string>)
    requires forall k :: 0 <= k < |pieces| ==> pieces[k] != "" && IsTrimmed(pieces[k])
    ensures TrimAll(Filter(pieces, NotBlank)) == pieces
  {
    forall k | 0 <= k < |pieces| ensures NotBlank(pieces[k]) && Trim(pieces[k]) == pieces[k] {
      Settled(pieces[k]);
    }
    FilterAll(pieces, NotBlank);
  }

  lemma ParseContentSteps(text: string)
    ensures ParseContent(text) == TrimAll(Filter(SplitOn(text, ParagraphBreak), NotBlank))
  {
  }

  lemma ParseTagsSteps(text: string)
    ensures ParseTags(text) == Filter(TrimAll(SplitOn(text, ",")), NonEmpty)
  {
  }

  /** Splitting the empty text gives one empty piece. */
  lemma EmptySplit(sep: string)
    requires |sep| > 0
    ensures SplitOn("", sep) == [""]
  {
    assert FindFirst("", sep).None?;
  }

  /** A good paragraph followed by a blank line holds no blank line that
      starts inside the paragraph. */
  lemma BreakNotAcrossEnd(p: string)
    requires GoodParagraph(p)
    ensures CleanBefore(p, ParagraphBreak)
  {
    forall k | 0 <= k < |p| ensures !OccursAt(p + ParagraphBreak, k, ParagraphBreak) {
      if k + 2 <= |p| {
        assert (p + ParagraphBreak)[k..k + 2] == p[k..k + 2];
        assert !OccursAt(p, k, ParagraphBreak);
      } else {
        assert k == |p| - 1;
        assert (p + ParagraphBreak)[k] == p[|p| - 1];
        assert !IsSpace(p[|p| - 1]);
        assert (p + ParagraphBreak)[k..k + |ParagraphBreak|][0] != ParagraphBreak[0];
      }
    }
  }

  // ---------------------------------------------------------------------------
  // tags

  predicate NonEmpty(s: string) {
    s != ""
  }

  /** `handleTagsChange`: split on commas, trim, drop the empty ones. */
  function ParseTags(text: string): (r: seq<string>)
    ensures forall k :: 0 <= k < |r| ==> r[k] != "" && IsTrimmed(r[k]) && ',' !in r[k]
  {
    var pieces := SplitOn(text, ",");
    var trimmed := TrimAll(pieces);
    TrimmedPiecesClean(pieces);
    var r := Filter(trimmed, NonEmpty);
    forall k | 0 <= k < |r| ensures IsTrimmed(r[k]) && ',' !in r[k] {
      FilterMembers(trimmed, NonEmpty, r[k]);
    }
    r
  }

  /** Trimmed pieces without commas are trimmed and have no commas. */
  lemma TrimmedPiecesClean(pieces: seq<string>)
    requires forall k :: 0 <= k < |pieces| ==> !Contains(pieces[k], ",")
    ensures forall t :: t in TrimAll(pieces) ==> IsTrimmed(t) && ',' !in t
  {
    forall k | 0 <= k < |pieces| ensures IsTrimmed(Trim(pieces[k])) && ',' !in Trim(pieces[k]) {
      NoCommaInTrim(pieces[k]);
    }
  }

  lemma NoCommaInTrim(s: string)
    requires !Contains(s, ",")
    ensures ',' !in Trim(s)
  {
    NotContainsChar(s, ',');
    var k := TrimOffset(s);
    assert Trim(s) == s[k..k + |Trim(s)|];
  }

  /** The tags box as filled: `tags.join(', ')`. */
  function TagsText(tags: seq<string>): string {
    Join(tags, ", ")
  }

  /** A tag the tags box can carry unchanged. */
  predicate GoodTag(t: string) {
    t != "" && IsTrimmed(t) && ',' !in t
  }

  /** Tags that are trimmed, non-empty and comma-free come back unchanged
      from the tags box. */
  lemma TagsRoundTrip(tags: seq<string>)
    requires forall k :: 0 <= k < |tags| ==> GoodTag(tags[k])
    ensures ParseTags(TagsText(tags)) == tags
  {
    ParseTagsSteps(TagsText(tags));
    if tags == [] {
      EmptySplit(",");
    } else {
      SplitTags(tags);
      TrimSpaced(tags);
      FilterAll(tags, NonEmpty);
    }
  }

  /** `split(',')` of the tags box gives the spaced tags. */
  lemma SplitTags(tags: seq<string>)
    requires |tags| >= 1
    requires forall k :: 0 <= k < |tags| ==> ',' !in tags[k]
    ensures SplitOn(TagsText(tags), ",") == Spaced(tags)
  {
    var pieces := Spaced(tags);
    JoinSpaced(tags);
    forall k | 0 <= k < |pieces| ensures ',' !in pieces[k] {
      if k > 0 { assert pieces[k] == " " + tags[k]; }
    }
    SplitJoinChar(pieces, ',');
  }

  /** Trimming the spaced tags gives the tags back. */
  lemma TrimSpaced(tags: seq<string>)
    requires |tags| >= 1
    requires forall k :: 0 <= k < |tags| ==> IsTrimmed(tags[k])
    ensures TrimAll(Spaced(tags)) == tags
  {
    var trimmed := TrimAll(Spaced(tags));
    forall k | 0 <= k < |tags| ensures trimmed[k] == tags[k] {
      if k == 0 { TrimTrimmed(tags[0]); } else { TrimLeadingBlank(tags[k]); }
    }
  }

  /** The pieces `split(',')` finds in `tags.join(', ')`: every tag but the
      first keeps the blank written after the comma. */
  function Spaced(tags: seq<string>): (r: seq<string>)
    requires |tags| >= 1
    ensures |r| == |tags| && r[0] == tags[0]
    ensures forall k :: 1 <= k < |tags| ==> r[k] == " " + tags[k]
  {
    [tags[0]] + seq(|tags| - 1, k requires 0 <= k < |tags| - 1 => " " + tags[k + 1])
  }

  lemma {:induction false} JoinSpaced(tags: seq<string>)
    requires |tags| >= 1
    ensures Join(Spaced(tags), ",") == Join(tags, ", ")
    decreases |tags|
  {
    if |tags| > 1 {
      JoinSpaced(tags[1..]);
      var rest := Spaced(tags)[1..];
      JoinBlank(tags[1..]);
      assert rest == Blanked(tags[1..]);
    }
  }

  /** Every tag behind a blank. */
  function Blanked(tags: seq<string>): (r: seq<string>)
    ensures |r| == |tags| && forall k :: 0 <= k < |tags| ==> r[k] == " " + tags[k]
  {
    seq(|tags|, k requires 0 <= k < |tags| => " " + tags[k])
  }

  lemma {:induction false} JoinBlank(tags: seq<string>)
    requires |tags| >= 1
    ensures Join(Blanked(tags), ",") == " " + Join(tags, ", ")
    decreases |tags|
  {
    if |tags| > 1 {
      JoinBlank(tags[1..]);
      assert Blanked(tags)[1..] == Blanked(tags[1..]);
    }
  }

  // ---------------------------------------------------------------------------
  // search and publish toggle

  /** A post as the editor's list shows it. */
  datatype Post = Post(id: string, title: string, category: string, author: string,
                       tags: seq<string>, published: Option<bool>)

  /** Some tag contains the (lower-cased) query. */
  predicate TagMatches(tags: seq<string>, query: string) {
    exists k :: 0 <= k < |tags| && Contains(ToLower(tags[k]), query)
  }

  /** The search of one post for an already lower-cased query. */
  predicate Matches(p: Post, query: string) {
    || Contains(ToLower(p.title), query)
    || Contains(ToLower(p.category), query)
    || Contains(ToLower(p.author), query)
    || TagMatches(p.tags, query)
  }

  /** The search effect: an empty query shows every post; otherwise the
      posts whose title, category, author or a tag contains the query, any
      case, in list order. */
  function Search(posts: seq<Post>, query: string): (r: seq<Post>)
    ensures query == "" ==> r == posts
    ensures query != "" ==> r == Filter(posts, MatchesQuery(ToLower(query)))
    ensures query != "" ==> forall p :: p in r <==> p in posts && Matches(p, ToLower(query))
    ensures query != "" ==> forall p :: multiset(r)[p] == if Matches(p, ToLower(query)) then multiset(posts)[p] else 0
  {
    if query == "" then posts
    else
      var keep := MatchesQuery(ToLower(query));
      var r := Filter(posts, keep);
      FilterMultiset(posts, keep);
      forall p ensures p in r <==> p in posts && keep(p) {
        FilterMembers(posts, keep, p);
      }
      r
  }

  /** The search's test for one post, given the lower-cased query. */
  function MatchesQuery(q: string): Post -> bool {
    (p: Post) => Matches(p, q)
  }

  /** The search ignores case: a query and its lower-cased form find the
      same posts. */
  lemma SearchIgnoresCase(posts: seq<Post>, query: string)
    requires query != ""
    ensures Search(posts, query) == Search(posts, ToLower(query))
  {
    LowerIdempotent(query);
    assert ToLower(query) != "";
  }

  /** `!!post.published`: a missing flag is false here. */
  function IsSet(flag: Option<bool>): bool {
    flag == Some(true)
  }

  /** `handleTogglePublished`: the flag written and the action logged. */
  function TogglePublished(p: Post): (r: (bool, string))
    ensures r.0 == !IsSet(p.published)
    ensures r.1 == (if IsSet(p.published) then "unpublish" else "publish")
    ensures r.1 == "publish" <==> r.0
  {
    if IsSet(p.published) then (false, "unpublish") else (true, "publish")
  }

  /** Toggling twice writes the flag back and logs both actions in turn. */
  lemma ToggleTwice(p: Post)
    ensures var (first, a1) := TogglePublished(p);
      var (second, a2) := TogglePublished(p.(published := Some(first)));
      second == IsSet(p.published) && a1 != a2
  {
  }

  /** A post stored without the flag is listed as published, yet the toggle
      treats it as unpublished: it writes `true` and logs "publish". */
  lemma ToggleWithoutFlag(p: Post)
    requires p.published.None?
    ensures TogglePublished(p) == (true, "publish")
  {
  }
}
