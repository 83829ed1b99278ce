/** The post record shared by the listing pages (`BlogPost` in app/data/blogs.ts). */
module Posts {
  import opened Wrappers
  import opened Text

  /**
   * One post. `category` is kept as a string so that an empty category can be expressed;
   * `link` is the optional external link.
   */
  datatype BlogPost = BlogPost(
    slug: String,
    title: String,
    excerpt: String,
    date: String,
    author: String,
    content: String,
    category: String,
    link: Option<String>)

  /** `ExtendedBlogPost`: a post with the listing's `isExternal` flag (`undefined` read as false). */
  datatype ListedPost = ListedPost(post: BlogPost, isExternal: bool)

  /** The internal route of a post on the home page grid and the updates listing. */
  const BlogsUpdatesPrefix: String := "/blogsupdates/"
}
