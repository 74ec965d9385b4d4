/** The records the scraper reads from the forum's JSON and the tree it builds. */
module Types {
  import opened Wrappers
  import opened JsText

  /** One entry of a post's `link_counts`. */
  datatype Link = Link(url: JsString, internal: bool, reflection: bool, title: JsString, clicks: int)

  /** One forum message. `replyTo` is `reply_to_post_number` (null is `None`);
      `linkCounts` is the optional `link_counts` array. */
  datatype Post = Post(
    id: int,
    username: JsString,
    cooked: JsString,
    createdAt: JsString,
    postNumber: int,
    replyTo: Option<int>,
    linkCounts: Option<seq<Link>>)
  {
    /** The source's truthiness test on `reply_to_post_number`: null and 0
        both mean "not a reply". */
    predicate IsReply() {
      replyTo.Some? && replyTo.value != 0
    }
  }

  /** Thread metadata: title, slug, tags and `post_stream`. */
  datatype TopicData = TopicData(
    title: JsString,
    slug: JsString,
    tags: seq<JsString>,
    posts: seq<Post>,
    stream: seq<int>)

  /** The reply structure derived from a flat list of posts. */
  datatype ConversationTree = ConversationTree(
    postMap: map<int, Post>,
    childrenMap: map<int, seq<Post>>,
    topLevelPosts: seq<Post>)

  /** The code the renderer calls but that is not part of this model:
      `convert` is DOMPurify's `sanitize` followed by Turndown's `turndown`
      (HTML of a post to markdown), and `formatDate` is `formatDateISO`. */
  datatype Services = Services(
    convert: JsString -> JsString,
    formatDate: JsString -> JsString)
}
