/**
 * The single-post view of the Angular application. It looks the route's
 * file name up in the post index, then fetches that post's body; while
 * either request is pending `loading` is true.
 *
 * The two responses are parameters: `OnIndex` is the index subscription,
 * `OnContent` the body subscription.
 */
module BlogPostView {

  import opened Wrappers
  import opened JsNumber
  import opened JsString
  import opened JsArray
  import opened NgPosts

  const WordsPerMinute: nat := 200

  /** `p => p.filename === filename`, the lookup's predicate. */
  function NamedAs(filename: string): BlogPost -> bool {
    (p: BlogPost) => p.filename == filename
  }

  class BlogPostComponent {
    var post: BlogPost?
    var loading: bool

    /** The field initialisers: no post, loading. */
    constructor ()
      ensures post == null && loading
    {
      post, loading := null, true;
    }

    /**
     * The index subscription: the first entry named `filename` becomes the
     * post and its body is requested (`fetching`), `loading` staying true;
     * with no such entry only `loading` changes, to false.
     */
    method OnIndex(filename: string, posts: seq<BlogPost>) returns (fetching: bool)
      modifies this
      ensures fetching == FirstIndex(posts, NamedAs(filename)).Some?
      ensures fetching ==> post == posts[FirstIndex(posts, NamedAs(filename)).value] && loading == old(loading)
      ensures !fetching ==> post == old(post) && !loading
    {
      var found := FirstIndex(posts, NamedAs(filename));
      if found.Some? {
        post := posts[found.value];
        fetching := true;
      } else {
        loading := false;
        fetching := false;
      }
    }

    /**
     * The body subscription: `this.post!.content = content`, then `loading`
     * turns false. With no post the assignment throws and nothing changes.
     */
    method OnContent(content: string)
      modifies this, post
      ensures post == old(post)
      ensures post == null ==> loading == old(loading)
      ensures post != null ==> post.content == Some(content) && !loading
    {
      if post != null {
        post.content := Some(content);
        loading := false;
      }
    }

    /**
     * `getReadingTime`: 0 when there is no post or its content is absent or
     * empty, otherwise the least `m` with `tokens <= 200 * m`, which is at
     * least 1; the token count is one more than the number of whitespace runs.
     */
    function GetReadingTime(): (m: nat)
      reads this, post
      ensures m == 0 <==> post == null || post.content == None || post.content == Some("")
      ensures m > 0 ==>
        && post != null && post.content.Some?
        && (m - 1) * WordsPerMinute < 1 + RunCount(post.content.value) <= m * WordsPerMinute
    {
      if post == null || post.content.None? || post.content.value == "" then 0
      else
        TokenCountRuns(post.content.value);
        CeilDiv(TokenCount(post.content.value), WordsPerMinute)
    }
  }

  /**
   * Opening a post that the index lists: after the index and then the body
   * arrive, the view shows that record with its body and stops loading.
   */
  method OpenPost(filename: string, posts: seq<BlogPost>, content: string) returns (view: BlogPostComponent)
    requires exists i :: 0 <= i < |posts| && posts[i].filename == filename
    modifies set i | 0 <= i < |posts| :: posts[i]
    ensures view.post != null && view.post.filename == filename && view.post in posts
    ensures view.post.content == Some(content) && !view.loading
    ensures (view.GetReadingTime() == 0) == (content == "")
  {
    view := new BlogPostComponent();
    var i :| 0 <= i < |posts| && posts[i].filename == filename;
    assert NamedAs(filename)(posts[i]);
    var fetching := view.OnIndex(filename, posts);
    view.OnContent(content);
  }

  /**
   * A second route while the first body is still in flight, its own body
   * arriving first: the late first body overwrites it, because the callback
   * writes to whatever `post` is when it runs.
   */
  method LateBodyLandsOnNextPost(first: BlogPost, second: BlogPost, firstBody: string, secondBody: string)
    returns (view: BlogPostComponent)
    modifies first, second
    ensures view.post == second && second.content == Some(firstBody) && !view.loading
  {
    view := new BlogPostComponent();
    var fetchingFirst := view.OnIndex(first.filename, [first]);
    var fetchingSecond := view.OnIndex(second.filename, [second]);
    view.OnContent(secondBody);
    view.OnContent(firstBody);
  }
}
