/**
 * The homepage of the Angular application: the post index sorted newest
 * first, a paginator over it (two posts per page to start with), and the
 * bodies of all posts fetched after the index arrived.
 *
 * The index and the bodies are parameters: `LoadPosts` is the index
 * subscription and `ReceiveContent` one body subscription.
 */
module Homepage {

  import opened Wrappers
  import opened JsArray
  import opened NgPosts

  /** The paginator's event: the page the user picked and the page size in force. */
  datatype PageEvent = PageEvent(pageIndex: int, pageSize: int)

  class HomepageComponent {
    var posts: array<BlogPost>
    var currentPosts: seq<BlogPost>
    var pageSize: int
    var pageIndex: int
    var totalPosts: int

    /**
     * `totalPosts` counts `posts`, the posts are distinct records, and the
     * page shown is the slice the paging state selects.
     */
    ghost predicate Valid()
      reads this, posts
    {
      && totalPosts == posts.Length
      && Distinct(posts[..])
      && currentPosts == Page(posts[..], pageIndex, pageSize)
    }

    /** The field initialisers: nothing loaded, page 0 of size 2. */
    constructor ()
      ensures Valid()
      ensures posts.Length == 0 && currentPosts == [] && pageSize == 2 && pageIndex == 0 && totalPosts == 0
    {
      posts := new BlogPost[0];
      currentPosts, pageSize, pageIndex, totalPosts := [], 2, 0, 0;
    }

    /**
     * The index subscription: the received array is sorted in place, newest
     * first and stably, and becomes `posts`; the count and the current page
     * follow. Fetching the bodies is `LoadPostContents`.
     */
    method LoadPosts(received: array<BlogPost>)
      requires Valid()
      requires Distinct(received[..])
      modifies this, received
      ensures Valid()
      ensures posts == received && posts[..] == SortDesc(old(received[..]), DateOf)
      ensures multiset(posts[..]) == multiset(old(received[..])) && SortedDesc(posts[..], DateOf)
      ensures totalPosts == posts.Length
      ensures pageIndex == old(pageIndex) && pageSize == old(pageSize)
    {
      SortInPlace(received, DateOf);
      SortDescPermutation(old(received[..]), DateOf);
      SortDescSorted(old(received[..]), DateOf);
      DistinctPermutation(old(received[..]), received[..]);
      posts := received;
      totalPosts := posts.Length;
      UpdateCurrentPosts();
    }

    /** `updateCurrentPosts`: the slice of `posts` at `pageIndex * pageSize`. */
    method UpdateCurrentPosts()
      modifies this`currentPosts
      ensures currentPosts == Page(posts[..], pageIndex, pageSize)
    {
      var startIndex := pageIndex * pageSize;
      currentPosts := JsSlice(posts[..], startIndex, startIndex + pageSize);
    }

    /** One body subscription: `post.content = content` for the `i`-th post. */
    method ReceiveContent(i: int, content: string)
      requires Valid() && 0 <= i < posts.Length
      modifies posts[i]
      ensures posts[i].content == Some(content)
      ensures forall j :: 0 <= j < posts.Length && j != i ==> posts[j].content == old(posts[j].content)
    {
      posts[i].content := Some(content);
    }

    /**
     * `loadPostContents` once every request settled: `bodies(f)` is the text
     * fetched for file `f`, `None` for a failed request (`HttpClient` treats an
     * HTTP error status as one, and no callback runs). The callbacks write
     * to different posts, so the order they run in does not matter; the
     * page shown holds the same records, so it shows the bodies too.
     */
    method LoadPostContents(bodies: string -> Option<string>)
      requires Valid()
      modifies set j | 0 <= j < posts.Length :: posts[j]
      ensures forall j :: 0 <= j < posts.Length ==>
        posts[j].content == if bodies(posts[j].filename).Some? then bodies(posts[j].filename) else old(posts[j].content)
      ensures forall k :: 0 <= k < |currentPosts| && bodies(currentPosts[k].filename).Some? ==>
        currentPosts[k].content == bodies(currentPosts[k].filename)
    {
      var i := 0;
      while i < posts.Length
        invariant 0 <= i <= posts.Length
        invariant forall j :: 0 <= j < i ==>
          posts[j].content == if bodies(posts[j].filename).Some? then bodies(posts[j].filename) else old(posts[j].content)
        invariant forall j :: i <= j < posts.Length ==> posts[j].content == old(posts[j].content)
      {
        var body := bodies(posts[i].filename);
        if body.Some? {
          ReceiveContent(i, body.value);
        }
        i := i + 1;
      }
      forall k | 0 <= k < |currentPosts| && bodies(currentPosts[k].filename).Some?
        ensures currentPosts[k].content == bodies(currentPosts[k].filename)
      {
        var start := pageIndex * pageSize;
        JsSliceElement(posts[..], start, start + pageSize, k);
        assert currentPosts[k] == posts[ResolveIndex(start, posts.Length) + k];
      }
    }

    /** `onPageChange`: take index and size from the event and recompute the page. */
    method OnPageChange(event: PageEvent)
      requires Valid()
      modifies this
      ensures Valid()
      ensures pageIndex == event.pageIndex && pageSize == event.pageSize
      ensures posts == old(posts) && totalPosts == old(totalPosts)
      ensures currentPosts == Page(posts[..], event.pageIndex, event.pageSize)
    {
      pageIndex := event.pageIndex;
      pageSize := event.pageSize;
      UpdateCurrentPosts();
    }
  }
}
