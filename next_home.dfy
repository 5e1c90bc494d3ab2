/**
 * The list view of the Next.js application (its home page): it fetches the
 * post index, drops deleted posts, orders the rest newest first, attaches
 * each post's body, and shows one page of five posts at a time with a
 * preview and a reading-time estimate for each.
 *
 * The network is not modelled: the parsed index and the fetched bodies are
 * parameters of `Home.LoadPosts`.
 */
module NextHome {

  import opened Wrappers
  import opened JsNumber
  import opened JsString
  import opened JsArray

  /** A post; `date` is the index's date as a millisecond timestamp, an absent `deleted` is `false`. */
  datatype BlogPost = BlogPost(title: string, date: int, filename: string, deleted: bool, content: Option<string>)

  /** Posts per page: `useState(5)` with no setter. */
  const PageSize: nat := 5
  const WordsPerMinute: nat := 200
  const PreviewChars: nat := 200
  const PreviewLines: nat := 3

  /** The label `getReadingTime` appends to the minute count. */
  const MinRead: string := " min read"

  predicate IsListed(p: BlogPost) {
    !p.deleted
  }

  function DateOf(p: BlogPost): int {
    p.date
  }

  // ---------------------------------------------------------------------
  // The index pipeline of loadPosts

  /** `posts.filter(post => !post.deleted).sort((a, b) => b.date - a.date)`. */
  function ListedByDate(index: seq<BlogPost>): seq<BlogPost> {
    SortDesc(Filter(index, IsListed), DateOf)
  }

  /**
   * The list holds every non-deleted post of the index as often as the
   * index does, and no deleted one; it is ordered newest first, and posts
   * with equal dates keep their index order.
   */
  lemma ListedByDateSpec(index: seq<BlogPost>)
    ensures forall i :: 0 <= i < |ListedByDate(index)| ==> !ListedByDate(index)[i].deleted
    ensures forall p :: multiset(ListedByDate(index))[p] == if p.deleted then 0 else multiset(index)[p]
    ensures SortedDesc(ListedByDate(index), DateOf)
    ensures forall d :: WithKey(ListedByDate(index), DateOf, d) == WithKey(Filter(index, IsListed), DateOf, d)
  {
    var listed := Filter(index, IsListed);
    SortDescPermutation(listed, DateOf);
    SortDescSorted(listed, DateOf);
    SortDescStable(listed, DateOf);
    forall p ensures multiset(ListedByDate(index))[p] == if p.deleted then 0 else multiset(index)[p] {
      FilterMultiset(index, IsListed, p);
    }
    forall i | 0 <= i < |ListedByDate(index)| ensures !ListedByDate(index)[i].deleted {
      var r := ListedByDate(index);
      assert r[i] in multiset(r);
      FilterMultiset(index, IsListed, r[i]);
    }
  }

  /** Three posts, the middle one deleted: the other two come out newest first. */
  lemma ListedByDateExample(a: BlogPost, b: BlogPost, c: BlogPost)
    requires !a.deleted && b.deleted && !c.deleted && a.date < c.date
    ensures ListedByDate([a, b, c]) == [c, a]
  {
    assert [a, b, c][1..] == [b, c] && [b, c][1..] == [c];
    assert Filter([c], IsListed) == [c];
    assert Filter([b, c], IsListed) == [c];
    assert Filter([a, b, c], IsListed) == [a, c];
    assert [a, c][..1] == [a];
    assert SortDesc([a], DateOf) == [a];
  }

  /** Every body of the list was fetched: otherwise `Promise.all` rejects. */
  predicate AllFetched(posts: seq<BlogPost>, bodies: string -> Option<string>) {
    forall i :: 0 <= i < |posts| ==> bodies(posts[i].filename).Some?
  }

  /** `{ ...post, content }` for every post, in order. */
  function WithBodies(posts: seq<BlogPost>, bodies: string -> Option<string>): (r: seq<BlogPost>)
    ensures |r| == |posts|
  {
    seq(|posts|, i requires 0 <= i < |posts| => posts[i].(content := bodies(posts[i].filename)))
  }

  /** Attaching the bodies keeps the order, the dates, the listing and every field but `content`, which holds the fetched text. */
  lemma WithBodiesSpec(posts: seq<BlogPost>, bodies: string -> Option<string>)
    requires AllFetched(posts, bodies)
    ensures SortedDesc(posts, DateOf) ==> SortedDesc(WithBodies(posts, bodies), DateOf)
    ensures forall i :: 0 <= i < |posts| ==>
      var p := WithBodies(posts, bodies)[i];
      && p.title == posts[i].title && p.date == posts[i].date && p.filename == posts[i].filename
      && p.deleted == posts[i].deleted && p.content.Some? && p.content == bodies(posts[i].filename)
  {
  }

  // ---------------------------------------------------------------------
  // Paging: `Page {pageIndex + 1} of {Math.ceil(totalPosts / pageSize)}` and the two buttons

  function PageCount(totalPosts: nat): nat {
    CeilDiv(totalPosts, PageSize)
  }

  /** `disabled={pageIndex === 0}` on Previous. */
  predicate PrevDisabled(pageIndex: int) {
    pageIndex == 0
  }

  /** `disabled={pageIndex >= Math.ceil(totalPosts / pageSize) - 1}` on Next. */
  predicate NextDisabled(pageIndex: int, totalPosts: nat) {
    pageIndex >= PageCount(totalPosts) - 1
  }

  /** The page count counts exactly the non-empty pages. */
  lemma PageCountSpec(posts: seq<BlogPost>, pageIndex: int)
    requires pageIndex >= 0
    ensures Page(posts, pageIndex, PageSize) != [] <==> pageIndex < PageCount(|posts|)
  {
    PageBlock(posts, pageIndex, PageSize);
    var n := |posts|;
    if pageIndex < PageCount(n) {
      MulMonotone(pageIndex + 1, PageCount(n), PageSize);
    } else {
      MulMonotone(PageCount(n), pageIndex, PageSize);
    }
  }

  /** Next is disabled exactly when the following page would be empty; so with no posts it is disabled. */
  lemma NextDisabledSpec(posts: seq<BlogPost>, pageIndex: int)
    requires pageIndex >= 0
    ensures NextDisabled(pageIndex, |posts|) <==> Page(posts, pageIndex + 1, PageSize) == []
  {
    PageCountSpec(posts, pageIndex + 1);
  }

  /**
   * From a page that exists (page 0 when there are none), clicking an
   * enabled button leads to a page that exists.
   */
  lemma ButtonsKeepPageInRange(pageIndex: int, totalPosts: nat)
    requires 0 <= pageIndex && (pageIndex == 0 || pageIndex < PageCount(totalPosts))
    ensures !NextDisabled(pageIndex, totalPosts) ==> 0 <= pageIndex + 1 < PageCount(totalPosts)
    ensures !PrevDisabled(pageIndex) ==> 0 <= pageIndex - 1 < PageCount(totalPosts)
  {
  }

  // ---------------------------------------------------------------------
  // getPostPreview

  /** `line.trim() !== ''`. */
  predicate IsNonBlank(line: string) {
    Trim(line) != ""
  }

  /** `content.split('\n').filter(line => line.trim() !== '').slice(0, 3)`. */
  function PreviewLinesOf(content: string): seq<string> {
    JsSlice(Filter(Split(content, '\n'), IsNonBlank), 0, PreviewLines)
  }

  /**
   * `getPostPreview`: empty for empty content; otherwise the first 200
   * characters of the joined preview lines, always followed by `...`.
   */
  function GetPostPreview(content: string): (r: string)
    ensures content == "" ==> r == ""
    ensures content != "" ==> 3 <= |r| <= PreviewChars + 3 && r[|r| - 3..] == "..."
    ensures content != "" ==>
      var whole := Join(PreviewLinesOf(content), "\n");
      r[..|r| - 3] == whole[..Min(|whole|, PreviewChars)]
  {
    if content == "" then "" else Ellipsis(Join(PreviewLinesOf(content), "\n"))
  }

  /** The last step of `getPostPreview`: cut at 200 characters, then `...` in either case. */
  function Ellipsis(preview: string): (r: string)
    ensures |r| == Min(|preview|, PreviewChars) + 3
    ensures r[..|r| - 3] == preview[..Min(|preview|, PreviewChars)] && r[|r| - 3..] == "..."
  {
    if |preview| > PreviewChars then preview[..PreviewChars] + "..." else preview + "..."
  }

  /** `line` holds a character that is not JavaScript whitespace. */
  predicate HasVisibleChar(line: string) {
    exists k :: 0 <= k < |line| && !IsJsSpace(line[k])
  }

  /**
   * The preview lines are the leading (at most three) lines of the content
   * that are not blank, untouched: each one holds a non-whitespace character
   * and no newline.
   */
  lemma PreviewLinesSpec(content: string)
    ensures var ls, all := PreviewLinesOf(content), Filter(Split(content, '\n'), IsNonBlank);
      && |ls| == Min(|all|, PreviewLines)
      && ls == all[..|ls|]
      && forall i :: 0 <= i < |ls| ==> '\n' !in ls[i] && HasVisibleChar(ls[i])
  {
    PreviewSliceSpec(Split(content, '\n'));
  }

  lemma PreviewSliceSpec(lines: seq<string>)
    requires forall j :: 0 <= j < |lines| ==> '\n' !in lines[j]
    ensures var ls, all := JsSlice(Filter(lines, IsNonBlank), 0, PreviewLines), Filter(lines, IsNonBlank);
      && |ls| == Min(|all|, PreviewLines)
      && ls == all[..|ls|]
      && forall i :: 0 <= i < |ls| ==> '\n' !in ls[i] && HasVisibleChar(ls[i])
  {
    var all := Filter(lines, IsNonBlank);
    JsSliceNonNegative(all, 0, PreviewLines);
    forall i | 0 <= i < Min(|all|, PreviewLines) ensures '\n' !in all[i] && HasVisibleChar(all[i]) {
      NonBlankLine(lines, i);
    }
  }

  /** A line that survives the blank-line filter has no newline and some non-whitespace character. */
  lemma NonBlankLine(lines: seq<string>, i: nat)
    requires forall j :: 0 <= j < |lines| ==> '\n' !in lines[j]
    requires i < |Filter(lines, IsNonBlank)|
    ensures '\n' !in Filter(lines, IsNonBlank)[i] && HasVisibleChar(Filter(lines, IsNonBlank)[i])
  {
    var line := Filter(lines, IsNonBlank)[i];
    FilterMultiset(lines, IsNonBlank, line);
    assert line in multiset(Filter(lines, IsNonBlank));
    TrimEmptyIff(line);
  }

  /** The text before `...` spans at most three lines of the content. */
  lemma PreviewAtMostThreeLines(content: string)
    requires content != ""
    ensures var r := GetPostPreview(content); |Split(r[..|r| - 3], '\n')| <= PreviewLines
  {
    var r, ls := GetPostPreview(content), PreviewLinesOf(content);
    assert r[..|r| - 3] == Join(ls, "\n")[..|r| - 3];
    PreviewLinesSpec(content);
    JoinedPrefixLines(ls, |r| - 3);
  }

  /** A prefix of lines joined with newlines splits into no more pieces than there were lines. */
  lemma JoinedPrefixLines(ls: seq<string>, n: nat)
    requires forall i :: 0 <= i < |ls| ==> '\n' !in ls[i]
    requires n <= |Join(ls, "\n")|
    ensures |Split(Join(ls, "\n")[..n], '\n')| <= if ls == [] then 1 else |ls|
  {
    var whole := Join(ls, "\n");
    SplitLength(whole[..n], '\n');
    OccurrencesPrefix(whole, n, '\n');
    if ls != [] {
      JoinOccurrences(ls, '\n');
    }
  }

  /** When the preview is not cut, splitting it at newlines gives back exactly the preview lines. */
  lemma PreviewShowsWholeLines(content: string)
    requires content != ""
    requires PreviewLinesOf(content) != []
    requires |Join(PreviewLinesOf(content), "\n")| <= PreviewChars
    ensures var r := GetPostPreview(content); Split(r[..|r| - 3], '\n') == PreviewLinesOf(content)
  {
    var r := GetPostPreview(content);
    PreviewLinesSpec(content);
    assert r[..|r| - 3] == Join(PreviewLinesOf(content), "\n");
    SplitJoin(PreviewLinesOf(content), '\n');
  }

  // ---------------------------------------------------------------------
  // getReadingTime

  /** `getReadingTime`: `"1 min read"` for empty content, else `ceil(words / 200)` minutes. */
  function GetReadingTime(content: string): (r: string)
    ensures |r| > |MinRead| && r[|r| - |MinRead|..] == MinRead && IsDigits(r[..|r| - |MinRead|])
  {
    if content == "" then "1 min read"
    else NatToString(CeilDiv(TokenCount(content), WordsPerMinute)) + MinRead
  }

  /** The minute figure a reading-time label shows. */
  function MinutesShown(shown: string): nat
    requires |shown| >= |MinRead| && IsDigits(shown[..|shown| - |MinRead|])
  {
    ParseNat(shown[..|shown| - |MinRead|])
  }

  /**
   * The label is the minute figure printed in decimal, then " min read": so
   * `"1 min read"` for empty content. It shows at least one minute; for
   * non-empty content the least `m` with `tokens <= 200 * m`, where the token
   * count is one more than the number of maximal whitespace runs.
   */
  lemma ReadingTimeSpec(content: string)
    ensures var m := MinutesShown(GetReadingTime(content));
      && GetReadingTime(content) == NatToString(m) + MinRead
      && m >= 1
      && (content == "" ==> m == 1)
      && (content != "" ==> (m - 1) * WordsPerMinute < 1 + RunCount(content) <= m * WordsPerMinute)
  {
    var r := GetReadingTime(content);
    if content == "" {
      assert r[..|r| - |MinRead|] == "1";
      assert ParseNat("1") == ParseNat("") * 10 + DigitValue('1');
      assert NatToString(1) == "1";
    } else {
      var m := CeilDiv(TokenCount(content), WordsPerMinute);
      assert r[..|r| - |MinRead|] == NatToString(m);
      ParseNatToString(m);
      TokenCountRuns(content);
    }
  }

  /** More tokens never show fewer minutes; empty content has one token and shows the least figure. */
  lemma ReadingTimeMonotone(a: string, b: string)
    requires TokenCount(a) <= TokenCount(b)
    ensures MinutesShown(GetReadingTime(a)) <= MinutesShown(GetReadingTime(b))
  {
    ReadingTimeSpec(a);
    ReadingTimeSpec(b);
    if a != "" {
      ReadingTimeIs(a);
      if b != "" {
        ReadingTimeIs(b);
        CeilDivMonotone(TokenCount(a), TokenCount(b), WordsPerMinute);
      } else {
        assert TokenCount(b) == 1;
        CeilDivMonotone(TokenCount(a), 1, WordsPerMinute);
      }
    }
  }

  lemma ReadingTimeIs(content: string)
    requires content != ""
    ensures MinutesShown(GetReadingTime(content)) == CeilDiv(TokenCount(content), WordsPerMinute)
  {
    var r := GetReadingTime(content);
    assert r[..|r| - |MinRead|] == NatToString(CeilDiv(TokenCount(content), WordsPerMinute));
    ParseNatToString(CeilDiv(TokenCount(content), WordsPerMinute));
  }

  /** For words separated by single spaces the estimate is `ceil(words / 200)`: 400 words read in 2 minutes. */
  lemma ReadingTimeOfWords(words: seq<string>)
    requires |words| >= 1
    requires forall i :: 0 <= i < |words| ==> IsWord(words[i])
    ensures MinutesShown(GetReadingTime(Join(words, " "))) == CeilDiv(|words|, WordsPerMinute)
    ensures |words| == 400 ==> MinutesShown(GetReadingTime(Join(words, " "))) == 2
  {
    JoinStartsWithWord(words);
    SplitWsWords(words);
    ReadingTimeIs(Join(words, " "));
  }

  /**
   * A trailing newline counts as one more word, so 400 words followed by a
   * newline show 3 minutes.
   */
  lemma ReadingTimeTrailingNewline(words: seq<string>)
    requires |words| >= 1
    requires forall i :: 0 <= i < |words| ==> IsWord(words[i])
    ensures MinutesShown(GetReadingTime(Join(words, " ") + "\n")) == CeilDiv(|words| + 1, WordsPerMinute)
    ensures |words| == 400 ==> MinutesShown(GetReadingTime(Join(words, " ") + "\n")) == 3
  {
    SplitWsWordsNewline(words);
    ReadingTimeIs(Join(words, " ") + "\n");
  }

  // ---------------------------------------------------------------------
  // The component state

  /** The state of `Home`: the values its `useState` hooks hold. */
  class Home {
    var posts: seq<BlogPost>
    var currentPosts: seq<BlogPost>
    var pageIndex: int
    var totalPosts: nat
    var loading: bool

    /** `totalPosts` always counts `posts`. */
    ghost predicate Valid()
      reads this
    {
      totalPosts == |posts|
    }

    /** The first render: nothing loaded, page 0, the spinner showing. */
    constructor ()
      ensures Valid()
      ensures posts == [] && currentPosts == [] && pageIndex == 0 && totalPosts == 0 && loading
    {
      posts, currentPosts, pageIndex, totalPosts, loading := [], [], 0, 0, true;
    }

    /**
     * `loadPosts` after its fetches settled. `index` is the parsed index
     * (`None` when the fetch or the parse failed); `bodies` gives each
     * body fetch's text (`None` when it failed). Any failure leaves the
     * posts as they were; `loading` ends false either way.
     */
    method LoadPosts(index: Option<seq<BlogPost>>, bodies: string -> Option<string>)
      requires Valid()
      modifies this
      ensures Valid() && !loading
      ensures pageIndex == old(pageIndex) && currentPosts == old(currentPosts)
      ensures index.Some? && AllFetched(ListedByDate(index.value), bodies) ==>
        posts == WithBodies(ListedByDate(index.value), bodies)
      ensures !(index.Some? && AllFetched(ListedByDate(index.value), bodies)) ==>
        posts == old(posts) && totalPosts == old(totalPosts)
    {
      if index.Some? {
        var filteredPosts := ListedByDate(index.value);
        if AllFetched(filteredPosts, bodies) {
          var postsWithContent := WithBodies(filteredPosts, bodies);
          posts := postsWithContent;
          totalPosts := |postsWithContent|;
        }
      }
      loading := false;
    }

    /** `updateCurrentPosts`, the effect that runs whenever `posts` or `pageIndex` changed. */
    method UpdateCurrentPosts()
      modifies this`currentPosts
      ensures currentPosts == Page(posts, pageIndex, PageSize)
    {
      var startIndex := pageIndex * PageSize;
      currentPosts := JsSlice(posts, startIndex, startIndex + PageSize);
    }

    /** `handlePageChange`: only the index changes; the effect above then recomputes the page. */
    method HandlePageChange(newPageIndex: int)
      modifies this`pageIndex
      ensures pageIndex == newPageIndex
    {
      pageIndex := newPageIndex;
    }
  }

  /**
   * A successful load followed by its effect: the page shown is the first
   * five visible posts, newest first, each with its content.
   */
  method LoadAndShowFirstPage(index: seq<BlogPost>, bodies: string -> Option<string>) returns (shown: seq<BlogPost>)
    requires AllFetched(ListedByDate(index), bodies)
    ensures |shown| == Min(PageSize, |ListedByDate(index)|)
    ensures shown == WithBodies(ListedByDate(index), bodies)[..Min(PageSize, |ListedByDate(index)|)]
    ensures SortedDesc(shown, DateOf)
    ensures forall i :: 0 <= i < |shown| ==> !shown[i].deleted && shown[i].content.Some?
  {
    var home := new Home();
    home.LoadPosts(Some(index), bodies);
    home.UpdateCurrentPosts();
    shown := home.currentPosts;
    var listed := ListedByDate(index);
    ListedByDateSpec(index);
    WithBodiesSpec(listed, bodies);
    PageBlock(home.posts, 0, PageSize);
    forall i | 0 <= i < |shown| ensures !shown[i].deleted && shown[i].content.Some? {
      assert shown[i] == home.posts[i];
    }
  }
}
