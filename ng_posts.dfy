/**
 * The post record of the Angular application. Both the homepage and the
 * blog-post view receive these records from the index fetch and assign
 * their `content` in place, so a post is an object here and not a value.
 */
module NgPosts {

  import opened Wrappers

  class BlogPost {
    const title: string
    /** The index's date as a millisecond timestamp (`new Date(date).getTime()`). */
    const date: int
    const filename: string
    var content: Option<string>

    constructor (title: string, date: int, filename: string, content: Option<string>)
      ensures this.title == title && this.date == date && this.filename == filename
      ensures this.content == content
    {
      this.title, this.date, this.filename, this.content := title, date, filename, content;
    }
  }

  /** The sort key of the homepage. */
  function DateOf(p: BlogPost): int {
    p.date
  }
}
