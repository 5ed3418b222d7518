/** The `posts` row (src/types/supabase.ts) shared by the editor, the admin table and the home page. */
module Posts {
  import opened Wrappers

  datatype Post = Post(
    id: string,
    title: string,
    slug: string,
    excerpt: string,
    content: string,
    published: bool,
    createdAt: string,
    featuredImage: Option<string>,
    viewCount: Option<int>,          // `view_count`, read as `view_count || 0`
    tags: Option<seq<string>>)

  /** `post.view_count || 0`. */
  function Views(p: Post): int {
    p.viewCount.GetOr(0)
  }
}
