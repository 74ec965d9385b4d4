/**
  `renderPostTree`: the comments as nested blockquotes. A post at depth d
  writes its header, a line holding just the quote prefix, its body and its
  external-links block with every line quoted d times, one empty line, and
  then its replies at depth d + 1.

  The source recurses without a bound. The model counts the levels it may
  still descend (`fuel`) and gives `None` when they run out. With unique
  post numbers `|posts|` levels always suffice (`TreeRenders`); a post listed
  among the replies to its own number makes the recursion endless
  (`SelfNestedNeverEnds`).
 */
module PostTree {
  import opened Wrappers
  import opened JsText
  import opened Types
  import opened Galleries
  import opened ExternalLinks
  import opened ConversationTree

  /** What stays fixed during one rendering. */
  datatype Context = Context(
    childrenMap: map<int, seq<Post>>,
    baseUrl: JsString,
    topicId: JsString,
    services: Services)

  const QuoteMarker: JsString := Lit("> ")

  /** `"> ".repeat(depth)`. */
  function Prefix(depth: nat): JsString {
    Repeat(QuoteMarker, depth)
  }

  predicate StartsWith(s: JsString, t: JsString) {
    |t| <= |s| && s[..|t|] == t
  }

  /** A deeper prefix begins with a shallower one. */
  lemma {:induction false} PrefixExtends(d: nat, e: nat)
    requires d <= e
    ensures StartsWith(Prefix(e), Prefix(d))
    decreases d
  {
    if d > 0 {
      PrefixExtends(d - 1, e - 1);
      assert Prefix(e) == QuoteMarker + Prefix(e - 1);
      assert Prefix(d) == QuoteMarker + Prefix(d - 1);
    }
  }

  /** The post's permalink, `${baseUrl}/t/${topicId}/${post_number}`. */
  function PostLink(ctx: Context, n: int): JsString {
    ctx.baseUrl + Lit("/t/") + ctx.topicId + Lit("/") + NumberToString(n)
  }

  /** The header line: the author in bold, the numbered link, the date. */
  function Header(p: Post, depth: nat, ctx: Context): JsString {
    Prefix(depth) + Lit("**") + p.username + Lit("** \U{2022} [Post #") + NumberToString(p.postNumber)
      + Lit("](") + PostLink(ctx, p.postNumber) + Lit(") \U{2022} ") + ctx.services.formatDate(p.createdAt)
  }

  /** A post's body as markdown: sanitised and converted, then gallery-grouped. */
  function PostMarkdown(p: Post, services: Services): JsString {
    ProcessImageGalleries(services.convert(p.cooked))
  }

  /** `text.split("\n")`, each line written after `prefix`. */
  function QuotedSplit(prefix: JsString, text: JsString): (lines: seq<JsString>)
    ensures |lines| == |Split(text, NewLine)|
    ensures forall k | 0 <= k < |lines| :: lines[k] == prefix + Split(text, NewLine)[k]
    ensures forall k | 0 <= k < |lines| :: StartsWith(lines[k], prefix)
  {
    var parts := Split(text, NewLine);
    var lines := seq(|parts|, k requires 0 <= k < |parts| => prefix + parts[k]);
    assert forall k | 0 <= k < |lines| :: lines[k][..|prefix|] == prefix;
    lines
  }

  /** The text after the prefix in each line. */
  function Unquote(prefix: JsString, lines: seq<JsString>): (r: seq<JsString>)
    requires forall k | 0 <= k < |lines| :: StartsWith(lines[k], prefix)
    ensures |r| == |lines|
  {
    seq(|lines|, k requires 0 <= k < |lines| => assert StartsWith(lines[k], prefix); lines[k][|prefix|..])
  }

  /** Unquoting the quoted lines of a text and joining them restores it. */
  lemma QuotedSplitReadBack(prefix: JsString, text: JsString)
    ensures Join([NewLine], Unquote(prefix, QuotedSplit(prefix, text))) == text
  {
    var lines := QuotedSplit(prefix, text);
    assert Unquote(prefix, lines) == Split(text, NewLine) by {
      forall k | 0 <= k < |lines|
        ensures Unquote(prefix, lines)[k] == Split(text, NewLine)[k]
      {
        assert (prefix + Split(text, NewLine)[k])[|prefix|..] == Split(text, NewLine)[k];
      }
    }
    JoinSplit(text, NewLine);
  }

  /** The body: the post's markdown split at newlines, each line quoted. */
  function BodyLines(p: Post, depth: nat, ctx: Context): seq<JsString> {
    QuotedSplit(Prefix(depth), PostMarkdown(p, ctx.services))
  }

  /** The external-links block split at newlines, each line quoted; nothing
      when the block is empty (`if (externalLinks)`). */
  function LinkLines(p: Post, depth: nat, ctx: Context): seq<JsString> {
    var links := RenderExternalLinks(p);
    if links == [] then [] else QuotedSplit(Prefix(depth), links)
  }

  /** The lines one post writes before its replies: the header, the bare
      prefix, the body, the links block and one empty line. */
  function PostLines(p: Post, depth: nat, ctx: Context): seq<JsString> {
    [Header(p, depth, ctx), Prefix(depth)] + BodyLines(p, depth, ctx) + LinkLines(p, depth, ctx) + [[]]
  }

  /** Every line is empty or begins with the quote prefix of `depth`. */
  predicate QuotedAtLeast(lines: seq<JsString>, depth: nat) {
    forall k | 0 <= k < |lines| :: lines[k] == [] || StartsWith(lines[k], Prefix(depth))
  }

  /** The body and the links block can be read back from a post's lines:
      taking the prefix off each line and joining the lines with newlines
      gives the markdown, and the links block, which is written exactly
      when it is not empty. */
  lemma PostLinesReadBack(p: Post, depth: nat, ctx: Context)
    ensures Join([NewLine], Unquote(Prefix(depth), BodyLines(p, depth, ctx))) == PostMarkdown(p, ctx.services)
    ensures LinkLines(p, depth, ctx) == [] <==> RenderExternalLinks(p) == []
    ensures RenderExternalLinks(p) != [] ==>
      Join([NewLine], Unquote(Prefix(depth), LinkLines(p, depth, ctx))) == RenderExternalLinks(p)
  {
    QuotedSplitReadBack(Prefix(depth), PostMarkdown(p, ctx.services));
    if RenderExternalLinks(p) != [] {
      QuotedSplitReadBack(Prefix(depth), RenderExternalLinks(p));
    }
  }

  /** A post's own lines are quoted at its depth, the closing empty line
      aside. */
  lemma PostLinesQuoted(p: Post, depth: nat, ctx: Context)
    ensures QuotedAtLeast(PostLines(p, depth, ctx), depth)
  {
    var prefix := Prefix(depth);
    var header := Header(p, depth, ctx);
    assert StartsWith(header, prefix) by {
      assert header[..|prefix|] == prefix;
    }
    var top: seq<JsString> := [header, prefix];
    var body := BodyLines(p, depth, ctx);
    var links := LinkLines(p, depth, ctx);
    assert QuotedAtLeast(top, depth);
    assert QuotedAtLeast(body, depth);
    assert QuotedAtLeast(links, depth);
    QuotedConcat(top, body, depth);
    QuotedConcat(top + body, links, depth);
    QuotedConcat(top + body + links, [[]], depth);
  }

  /** Lines quoted at some depth are quoted at every smaller depth. */
  lemma QuotedShallower(lines: seq<JsString>, d: nat, e: nat)
    requires d <= e && QuotedAtLeast(lines, e)
    ensures QuotedAtLeast(lines, d)
  {
    PrefixExtends(d, e);
    var pd, pe := Prefix(d), Prefix(e);
    forall k | 0 <= k < |lines| && lines[k] != []
      ensures StartsWith(lines[k], pd)
    {
      assert lines[k][..|pd|] == lines[k][..|pe|][..|pd|];
    }
  }

  /** A post's lines followed by its replies, quoted one level deeper, start
      with the header and are quoted at the post's depth. */
  lemma OwnThenReplies(p: Post, depth: nat, ctx: Context, replies: seq<JsString>)
    requires QuotedAtLeast(replies, depth + 1)
    ensures var r := PostLines(p, depth, ctx) + replies;
      |r| > 0 && r[0] == Header(p, depth, ctx) && QuotedAtLeast(r, depth)
  {
    PostLinesQuoted(p, depth, ctx);
    QuotedShallower(replies, depth, depth + 1);
    QuotedConcat(PostLines(p, depth, ctx), replies, depth);
  }

  /** `childrenMap.get(post_number)`, a missing entry read as no replies. */
  function Children(ctx: Context, p: Post): seq<Post> {
    if p.postNumber in ctx.childrenMap then ctx.childrenMap[p.postNumber] else []
  }

  /** `renderPost(post, depth)`, with `fuel` levels left to descend: the
      post's own lines, then its replies one level deeper. */
  function RenderPost(p: Post, depth: nat, ctx: Context, fuel: nat): Option<seq<JsString>>
    decreases fuel, 1, 0
  {
    if fuel == 0 then None
    else
      match RenderPosts(Children(ctx, p), depth + 1, ctx, fuel - 1)
      case None => None
      case Some(replies) => Some(PostLines(p, depth, ctx) + replies)
  }

  /** `posts.forEach((post) => renderPost(post, depth))`: the renderings one
      after another. */
  function RenderPosts(ps: seq<Post>, depth: nat, ctx: Context, fuel: nat): Option<seq<JsString>>
    decreases fuel, 2, |ps|
  {
    if |ps| == 0 then Some([])
    else
      match RenderPost(ps[0], depth, ctx, fuel)
      case None => None
      case Some(first) =>
        match RenderPosts(ps[1..], depth, ctx, fuel)
        case None => None
        case Some(rest) => Some(first + rest)
  }

  /** A finished rendering starts with the post's header, and every line is
      either an empty separator or quoted at least `depth` times: replies are
      quoted deeper than the post they answer. */
  lemma {:induction false} RenderPostShape(p: Post, depth: nat, ctx: Context, fuel: nat)
    requires RenderPost(p, depth, ctx, fuel).Some?
    ensures var r := RenderPost(p, depth, ctx, fuel).value;
      |r| > 0 && r[0] == Header(p, depth, ctx) && QuotedAtLeast(r, depth)
    decreases fuel, 1, 0
  {
    RenderPostUnfold(p, depth, ctx, fuel);
    var kids := Children(ctx, p);
    RenderPostsShape(kids, depth + 1, ctx, fuel - 1);
    OwnThenReplies(p, depth, ctx, RenderPosts(kids, depth + 1, ctx, fuel - 1).value);
  }

  /** The renderings of a list: the first line is the first post's header,
      and every line is an empty separator or quoted at least `depth` times. */
  lemma {:induction false} RenderPostsShape(ps: seq<Post>, depth: nat, ctx: Context, fuel: nat)
    requires RenderPosts(ps, depth, ctx, fuel).Some?
    ensures var r := RenderPosts(ps, depth, ctx, fuel).value;
      && (|ps| > 0 ==> |r| > 0 && r[0] == Header(ps[0], depth, ctx))
      && QuotedAtLeast(r, depth)
    decreases fuel, 2, |ps|
  {
    if |ps| > 0 {
      var first := RenderPost(ps[0], depth, ctx, fuel).value;
      var rest := RenderPosts(ps[1..], depth, ctx, fuel).value;
      RenderPostShape(ps[0], depth, ctx, fuel);
      RenderPostsShape(ps[1..], depth, ctx, fuel);
      QuotedConcat(first, rest, depth);
    }
  }

  /** A rendering that finished is the post's own lines followed by its
      replies' rendering. */
  lemma RenderPostUnfold(p: Post, depth: nat, ctx: Context, fuel: nat)
    requires RenderPost(p, depth, ctx, fuel).Some?
    ensures fuel > 0 && RenderPosts(Children(ctx, p), depth + 1, ctx, fuel - 1).Some?
    ensures RenderPost(p, depth, ctx, fuel).value
      == PostLines(p, depth, ctx) + RenderPosts(Children(ctx, p), depth + 1, ctx, fuel - 1).value
  {
  }

  lemma QuotedConcat(a: seq<JsString>, b: seq<JsString>, depth: nat)
    requires QuotedAtLeast(a, depth) && QuotedAtLeast(b, depth)
    ensures QuotedAtLeast(a + b, depth)
  {
    forall k | |a| <= k < |a + b|
      ensures (a + b)[k] == b[k - |a|]
    {
    }
  }

  /** `renderPostTree`: the top-level posts at depth 1. */
  function RenderPostTree(
    posts: seq<Post>, childrenMap: map<int, seq<Post>>, baseUrl: JsString, topicId: JsString,
    services: Services, fuel: nat): Option<seq<JsString>>
  {
    RenderPosts(posts, 1, Context(childrenMap, baseUrl, topicId, services), fuel)
  }

  /** A post's rendering finishes exactly when its replies' does, one level
      deeper with one level less. */
  lemma RenderPostStep(p: Post, depth: nat, ctx: Context, fuel: nat)
    ensures RenderPost(p, depth, ctx, fuel).Some? <==>
      fuel > 0 && RenderPosts(Children(ctx, p), depth + 1, ctx, fuel - 1).Some?
  {
  }

  // ---------------------------------------------------------------------
  // Fuel.

  /** More fuel never changes a rendering that finished. */
  lemma {:induction false} RenderPostFuel(p: Post, depth: nat, ctx: Context, f: nat, g: nat)
    requires f <= g && RenderPost(p, depth, ctx, f).Some?
    ensures RenderPost(p, depth, ctx, g) == RenderPost(p, depth, ctx, f)
    decreases f, 1, 0
  {
    RenderPostStep(p, depth, ctx, f);
    RenderPostsFuel(Children(ctx, p), depth + 1, ctx, f - 1, g - 1);
    RenderPostCongruent(p, depth, ctx, f, g);
  }

  /** A post renders the same whenever its replies do. */
  lemma RenderPostCongruent(p: Post, depth: nat, ctx: Context, f: nat, g: nat)
    requires f > 0 && g > 0
    requires RenderPosts(Children(ctx, p), depth + 1, ctx, f - 1) == RenderPosts(Children(ctx, p), depth + 1, ctx, g - 1)
    ensures RenderPost(p, depth, ctx, f) == RenderPost(p, depth, ctx, g)
  {
  }

  lemma {:induction false} RenderPostsFuel(ps: seq<Post>, depth: nat, ctx: Context, f: nat, g: nat)
    requires f <= g && RenderPosts(ps, depth, ctx, f).Some?
    ensures RenderPosts(ps, depth, ctx, g) == RenderPosts(ps, depth, ctx, f)
    decreases f, 2, |ps|
  {
    if |ps| > 0 {
      RenderPostFuel(ps[0], depth, ctx, f, g);
      RenderPostsFuel(ps[1..], depth, ctx, f, g);
    }
  }

  // ---------------------------------------------------------------------
  // Endless recursion.

  /** A list in which one rendering does not finish does not finish. */
  lemma {:induction false} RenderPostsStuck(ps: seq<Post>, i: nat, depth: nat, ctx: Context, fuel: nat)
    requires i < |ps| && RenderPost(ps[i], depth, ctx, fuel).None?
    ensures RenderPosts(ps, depth, ctx, fuel).None?
    decreases i
  {
    if i > 0 && RenderPost(ps[0], depth, ctx, fuel).Some? {
      RenderPostsStuck(ps[1..], i - 1, depth, ctx, fuel);
    }
  }

  /** A post listed among the replies to its own number (two posts sharing a
      number, one replying to it, or a post replying to itself) renders
      itself again one level deeper, for ever: no amount of fuel finishes. */
  lemma {:induction false} SelfNestedNeverEnds(p: Post, depth: nat, ctx: Context, fuel: nat)
    requires p in Children(ctx, p)
    ensures RenderPost(p, depth, ctx, fuel).None?
    decreases fuel
  {
    if fuel > 0 {
      SelfNestedNeverEnds(p, depth + 1, ctx, fuel - 1);
      StuckBelow(p, p, depth, ctx, fuel);
    }
  }

  /** A post one of whose replies does not finish one level deeper does not
      finish either. */
  lemma StuckBelow(p: Post, q: Post, depth: nat, ctx: Context, fuel: nat)
    requires fuel > 0 && q in Children(ctx, p)
    requires RenderPost(q, depth + 1, ctx, fuel - 1).None?
    ensures RenderPost(p, depth, ctx, fuel).None?
  {
    var kids := Children(ctx, p);
    var i :| 0 <= i < |kids| && kids[i] == q;
    RenderPostsStuck(kids, i, depth + 1, ctx, fuel - 1);
    RenderPostStep(p, depth, ctx, fuel);
  }

  /** In a tree built from the posts, a reply to its own number is listed
      among the replies to its number. */
  lemma SelfReplyNested(posts: seq<Post>, p: Post, ctx: Context)
    requires p in posts && p.IsReply() && p.replyTo.value == p.postNumber
    requires ctx.childrenMap == BuildConversationTree(posts).childrenMap
    ensures p in Children(ctx, p)
  {
    PlacedOnce(posts, p);
    assert p in multiset(ctx.childrenMap[p.postNumber]);
  }

  // ---------------------------------------------------------------------
  // Termination with unique post numbers.

  predicate UniqueNumbers(posts: seq<Post>) {
    forall i, j | 0 <= i < j < |posts| :: posts[i].postNumber != posts[j].postNumber
  }

  predicate Distinct(s: seq<Post>) {
    forall i, j | 0 <= i < j < |s| :: s[i] != s[j]
  }

  /** A path down the reply structure: distinct posts of `posts`, starting at
      one that is not a reply, each further one replying to the one before. */
  predicate ReplyChain(posts: seq<Post>, chain: seq<Post>) {
    && |chain| > 0
    && Distinct(chain)
    && (forall k | 0 <= k < |chain| :: chain[k] in posts)
    && !chain[0].IsReply()
    && (forall k | 0 < k < |chain| :: chain[k].IsReply() && chain[k].replyTo.value == chain[k - 1].postNumber)
  }

  /** A list of distinct elements drawn from `pool` is no longer than it. */
  lemma {:induction false} DistinctFits(chain: seq<Post>, pool: seq<Post>)
    requires Distinct(chain)
    requires forall k | 0 <= k < |chain| :: chain[k] in pool
    ensures |chain| <= |pool|
    decreases |chain|
  {
    if |chain| > 0 {
      var last := |chain| - 1;
      assert chain[last] in pool;
      var i :| 0 <= i < |pool| && pool[i] == chain[last];
      var rest := pool[..i] + pool[i + 1..];
      forall k | 0 <= k < last
        ensures chain[k] in rest
      {
        var j :| 0 <= j < |pool| && pool[j] == chain[k];
        if j < i {
          assert rest[j] == pool[j];
        } else {
          assert rest[j - 1] == pool[j];
        }
      }
      DistinctFits(chain[..last], rest);
    }
  }

  /** With unique numbers a reply to the last post of a chain is not in the
      chain yet, so the chain grows by it. */
  lemma ExtendChain(posts: seq<Post>, chain: seq<Post>, c: Post)
    requires UniqueNumbers(posts) && ReplyChain(posts, chain)
    requires c in posts && c.IsReply() && c.replyTo.value == chain[|chain| - 1].postNumber
    ensures ReplyChain(posts, chain + [c])
  {
    var last := |chain| - 1;
    forall i | 0 < i < |chain|
      ensures chain[i] != c
    {
      NumbersTell(posts, chain[i - 1], chain[last]);
    }
    var ext := chain + [c];
    assert forall k | 0 <= k < |chain| :: ext[k] == chain[k];
  }

  /** With unique numbers, different posts have different numbers. */
  lemma NumbersTell(posts: seq<Post>, x: Post, y: Post)
    requires UniqueNumbers(posts) && x in posts && y in posts && x != y
    ensures x.postNumber != y.postNumber
  {
    var a :| 0 <= a < |posts| && posts[a] == x;
    var b :| 0 <= b < |posts| && posts[b] == y;
    assert a != b;
  }

  /** The replies a built tree lists for a number are posts replying to it. */
  lemma ChildIsReply(posts: seq<Post>, n: int, c: Post)
    requires n in BuildConversationTree(posts).childrenMap
    requires c in BuildConversationTree(posts).childrenMap[n]
    ensures c in posts && c.IsReply() && c.replyTo.value == n
  {
    assert c in multiset(BuildConversationTree(posts).childrenMap[n]);
    RoutedToOnly(posts, ChildOf(n), c);
    assert c in RoutedTo(posts, ChildOf(n));
  }

  /** Every post listed under a number is a reply to that number. */
  predicate RepliesListed(posts: seq<Post>, childrenMap: map<int, seq<Post>>) {
    forall n, c | n in childrenMap && c in childrenMap[n] :: c in posts && c.IsReply() && c.replyTo.value == n
  }

  /** A built tree lists under each number only replies to it. */
  lemma TreeRepliesListed(posts: seq<Post>)
    ensures RepliesListed(posts, BuildConversationTree(posts).childrenMap)
  {
    var cm := BuildConversationTree(posts).childrenMap;
    forall n, c | n in cm && c in cm[n]
      ensures c in posts && c.IsReply() && c.replyTo.value == n
    {
      ChildIsReply(posts, n, c);
    }
  }

  /** The last post of a chain renders when the fuel covers the posts not
      yet on the chain. */
  lemma {:induction false} ChainRenders(posts: seq<Post>, chain: seq<Post>, depth: nat, ctx: Context, fuel: nat)
    requires UniqueNumbers(posts) && ReplyChain(posts, chain)
    requires RepliesListed(posts, ctx.childrenMap)
    requires |posts| < fuel + |chain|
    ensures RenderPost(chain[|chain| - 1], depth, ctx, fuel).Some?
    decreases fuel, 1, 0
  {
    DistinctFits(chain, posts);
    var p := chain[|chain| - 1];
    var kids := Children(ctx, p);
    assert forall c | c in kids :: c in posts && c.IsReply() && c.replyTo.value == p.postNumber;
    RepliesRender(posts, chain, kids, depth + 1, ctx, fuel - 1);
    RenderPostStep(p, depth, ctx, fuel);
  }

  lemma {:induction false} RepliesRender(
    posts: seq<Post>, chain: seq<Post>, kids: seq<Post>, depth: nat, ctx: Context, fuel: nat)
    requires UniqueNumbers(posts) && ReplyChain(posts, chain)
    requires RepliesListed(posts, ctx.childrenMap)
    requires forall c | c in kids :: c in posts && c.IsReply() && c.replyTo.value == chain[|chain| - 1].postNumber
    requires |posts| < fuel + |chain| + 1
    ensures RenderPosts(kids, depth, ctx, fuel).Some?
    decreases fuel, 2, |kids|
  {
    if |kids| > 0 {
      ExtendChain(posts, chain, kids[0]);
      ChainRenders(posts, chain + [kids[0]], depth, ctx, fuel);
      RepliesRender(posts, chain, kids[1..], depth, ctx, fuel);
    }
  }

  lemma {:induction false} TopLevelRender(posts: seq<Post>, tops: seq<Post>, depth: nat, ctx: Context, fuel: nat)
    requires UniqueNumbers(posts)
    requires RepliesListed(posts, ctx.childrenMap)
    requires forall c | c in tops :: c in posts && !c.IsReply()
    requires |posts| <= fuel
    ensures RenderPosts(tops, depth, ctx, fuel).Some?
    decreases |tops|
  {
    if |tops| > 0 {
      ChainRenders(posts, [tops[0]], depth, ctx, fuel);
      TopLevelRender(posts, tops[1..], depth, ctx, fuel);
    }
  }

  /** With unique post numbers, the comment tree built from the posts
      renders completely within `|posts|` levels, so the source's recursion
      ends. */
  lemma TreeRenders(posts: seq<Post>, baseUrl: JsString, topicId: JsString, services: Services, fuel: nat)
    requires UniqueNumbers(posts) && |posts| <= fuel
    ensures var t := BuildConversationTree(posts);
      RenderPostTree(t.topLevelPosts, t.childrenMap, baseUrl, topicId, services, fuel).Some?
  {
    var t := BuildConversationTree(posts);
    forall c | c in t.topLevelPosts
      ensures c in posts && !c.IsReply()
    {
      assert c in multiset(t.topLevelPosts);
      RoutedToOnly(posts, TopLevel, c);
      assert c in RoutedTo(posts, TopLevel);
    }
    TreeRepliesListed(posts);
    TopLevelRender(posts, t.topLevelPosts, 1, Context(t.childrenMap, baseUrl, topicId, services), fuel);
  }
}
