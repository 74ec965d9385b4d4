/**
  `generateMarkdownContent`: the whole document. The lead post is the post
  numbered 1; without one there is no document. Otherwise the frontmatter,
  the lead post's markdown and links block, a rule, the comments heading and
  the rendered comment tree are joined by newlines.
 */
module Document {
  import opened Wrappers
  import opened JsText
  import opened Types
  import opened ConversationTree
  import opened ExternalLinks
  import opened Frontmatter
  import opened PostTree

  /** The two ways the source fails: it throws when no post is numbered 1,
      and its recursion over the comments overflows the call stack when it
      does not end. */
  datatype Error = MissingOriginalPost | CommentsDoNotEnd

  /** The thematic break between the lead post and the comments. */
  const Rule: JsString := Lit("---")
  const CommentsHeading: JsString := Lit("## Comments")

  /** `tree.postMap.get(1)` reads the entry the last post numbered 1 wrote. */
  predicate IsOriginalPost(posts: seq<Post>, i: int) {
    LastWithNumber(posts, i, 1)
  }

  /** The comment lines: the tree of the posts rendered from its top-level
      posts, with as many levels as there are posts. */
  function Comments(allPosts: seq<Post>, baseUrl: JsString, topicId: JsString, services: Services): Option<seq<JsString>> {
    var t := BuildConversationTree(allPosts);
    RenderPostTree(t.topLevelPosts, t.childrenMap, baseUrl, topicId, services, |allPosts|)
  }

  /** With unique post numbers the comments always finish. */
  lemma CommentsEnd(allPosts: seq<Post>, baseUrl: JsString, topicId: JsString, services: Services)
    ensures UniqueNumbers(allPosts) ==> Comments(allPosts, baseUrl, topicId, services).Some?
  {
    if UniqueNumbers(allPosts) {
      TreeRenders(allPosts, baseUrl, topicId, services, |allPosts|);
    }
  }

  /** The lines the document joins, in order. */
  function Sections(
    topic: TopicData, op: Post, sourceUrl: JsString, created: JsString, services: Services,
    comments: seq<JsString>): seq<JsString>
  {
    var md := PostMarkdown(op, services);
    GenerateYamlFrontmatter(topic, op, sourceUrl, md, created, services.formatDate)
      + [[], md, RenderExternalLinks(op), [], Rule, [], CommentsHeading, []]
      + comments
  }

  /** `generateMarkdownContent`. `created` is today's date, which the source
      reads from the clock. It fails exactly when no post is numbered 1; it
      never fails on the comments when post numbers are unique; otherwise it
      writes the sections for the last post numbered 1. */
  function GenerateMarkdownContent(
    topic: TopicData, allPosts: seq<Post>, sourceUrl: JsString, baseUrl: JsString, topicId: JsString,
    services: Services, created: JsString): (r: Result<JsString, Error>)
    ensures r == Failure(MissingOriginalPost) <==> forall p | p in allPosts :: p.postNumber != 1
    ensures UniqueNumbers(allPosts) ==> r != Failure(CommentsDoNotEnd)
    ensures r == Failure(CommentsDoNotEnd) <==>
      (exists p | p in allPosts :: p.postNumber == 1) && Comments(allPosts, baseUrl, topicId, services).None?
    ensures r.Success? ==> exists i | IsOriginalPost(allPosts, i) ::
      && Comments(allPosts, baseUrl, topicId, services).Some?
      && r.value == Join([NewLine], Sections(topic, allPosts[i], sourceUrl, created, services,
                                             Comments(allPosts, baseUrl, topicId, services).value))
  {
    var postMap := BuildConversationTree(allPosts).postMap;
    LeadPostPresent(allPosts);
    if 1 !in postMap then
      Failure(MissingOriginalPost)
    else
      var op := postMap[1];
      LeadPostFound(allPosts);
      var i :| IsOriginalPost(allPosts, i) && allPosts[i] == op;
      CommentsEnd(allPosts, baseUrl, topicId, services);
      var comments := Comments(allPosts, baseUrl, topicId, services);
      if comments.None? then
        Failure(CommentsDoNotEnd)
      else
        var doc := Join([NewLine], Sections(topic, op, sourceUrl, created, services, comments.value));
        assert IsOriginalPost(allPosts, i)
          && doc == Join([NewLine], Sections(topic, allPosts[i], sourceUrl, created, services, comments.value));
        Success(doc)
  }

  /** `postMap` has an entry for 1 exactly when some post is numbered 1. */
  lemma LeadPostPresent(allPosts: seq<Post>)
    ensures 1 in BuildConversationTree(allPosts).postMap <==> exists p | p in allPosts :: p.postNumber == 1
  {
  }

  /** That entry is the last post numbered 1. */
  lemma LeadPostFound(allPosts: seq<Post>)
    requires 1 in BuildConversationTree(allPosts).postMap
    ensures exists i | IsOriginalPost(allPosts, i) :: allPosts[i] == BuildConversationTree(allPosts).postMap[1]
  {
    var m := BuildConversationTree(allPosts).postMap;
    var i :| LastWithNumber(allPosts, i, 1) && allPosts[i] == m[1];
    assert IsOriginalPost(allPosts, i);
  }

  /** The document as text: the frontmatter opens it, so it starts with
      "---" and a newline; then come a blank line, the lead post's markdown,
      its links block, a blank line, the rule, a blank line, the comments
      heading and a newline; the comment lines, when there are any, follow
      after one more newline. */
  lemma DocumentLayout(
    topic: TopicData, op: Post, sourceUrl: JsString, created: JsString, services: Services,
    comments: seq<JsString>)
    ensures var doc := Join([NewLine], Sections(topic, op, sourceUrl, created, services, comments));
      var md := PostMarkdown(op, services);
      var front := Join([NewLine], GenerateYamlFrontmatter(topic, op, sourceUrl, md, created, services.formatDate));
      var head := front + [NewLine, NewLine] + md + [NewLine] + RenderExternalLinks(op)
        + [NewLine, NewLine] + Rule + [NewLine, NewLine] + CommentsHeading + [NewLine];
      && StartsWith(doc, Fence + [NewLine])
      && (comments == [] ==> doc == head)
      && (comments != [] ==> doc == head + [NewLine] + Join([NewLine], comments))
  {
    var md := PostMarkdown(op, services);
    var fm := GenerateYamlFrontmatter(topic, op, sourceUrl, md, created, services.formatDate);
    JoinedSections(fm, md, RenderExternalLinks(op), comments);
  }

  /** The text of the joined sections for any frontmatter lines. */
  lemma JoinedSections(fm: seq<JsString>, md: JsString, links: JsString, comments: seq<JsString>)
    requires |fm| > 1 && fm[0] == Fence
    ensures var doc := Join([NewLine], fm + [[], md, links, [], Rule, [], CommentsHeading, []] + comments);
      var head := Join([NewLine], fm) + [NewLine, NewLine] + md + [NewLine] + links
        + [NewLine, NewLine] + Rule + [NewLine, NewLine] + CommentsHeading + [NewLine];
      && StartsWith(doc, Fence + [NewLine])
      && (comments == [] ==> doc == head)
      && (comments != [] ==> doc == head + [NewLine] + Join([NewLine], comments))
  {
    var front := Join([NewLine], fm);
    var middle: seq<JsString> := [[], md, links, [], Rule, [], CommentsHeading, []];
    var nl: JsString := [NewLine];
    JoinAppend(nl, fm, middle);
    MiddleJoined(front, md, links);
    var head := front + [NewLine, NewLine] + md + [NewLine] + links
      + [NewLine, NewLine] + Rule + [NewLine, NewLine] + CommentsHeading + [NewLine];
    if comments != [] {
      JoinAppend(nl, fm + middle, comments);
    } else {
      assert fm + middle + comments == fm + middle;
    }
    FrontStartsWithFence(fm);
    var doc := Join(nl, fm + middle + comments);
    assert |head| >= 4 && head[..4] == front[..4];
    assert StartsWith(doc, Fence + nl) by {
      assert doc[..4] == head[..4];
    }
  }

  /** The eight lines after the frontmatter, joined onto it. */
  lemma MiddleJoined(front: JsString, md: JsString, links: JsString)
    ensures front + [NewLine] + Join([NewLine], [[], md, links, [], Rule, [], CommentsHeading, []])
      == front + [NewLine, NewLine] + md + [NewLine] + links
        + [NewLine, NewLine] + Rule + [NewLine, NewLine] + CommentsHeading + [NewLine]
  {
    var middle: seq<JsString> := [[], md, links, [], Rule, [], CommentsHeading, []];
    var nl: JsString := [NewLine];
    var midText := [] + nl + md + nl + links + nl + [] + nl + Rule + nl + [] + nl + CommentsHeading + nl + [];
    assert Join(nl, middle) == midText by {
      JoinEight(nl, middle);
    }
  }

  /** Joining eight lines puts a newline between each pair. */
  lemma JoinEight(sep: JsString, l: seq<JsString>)
    requires |l| == 8
    ensures Join(sep, l) == l[0] + sep + l[1] + sep + l[2] + sep + l[3] + sep + l[4] + sep + l[5] + sep + l[6] + sep + l[7]
  {
    assert Join(sep, l[7..]) == l[7];
    assert Join(sep, l[6..]) == l[6] + sep + l[7];
    assert Join(sep, l[5..]) == l[5] + sep + (l[6] + sep + l[7]);
    assert Join(sep, l[4..]) == l[4] + sep + (l[5] + sep + (l[6] + sep + l[7]));
    assert Join(sep, l[3..]) == l[3] + sep + (l[4] + sep + (l[5] + sep + (l[6] + sep + l[7])));
    assert Join(sep, l[2..]) == l[2] + sep + (l[3] + sep + (l[4] + sep + (l[5] + sep + (l[6] + sep + l[7]))));
    assert Join(sep, l[1..]) == l[1] + sep + (l[2] + sep + (l[3] + sep + (l[4] + sep + (l[5] + sep + (l[6] + sep + l[7])))));
  }

  /** A frontmatter block of more than one line, joined, starts with the
      fence and a newline. */
  lemma FrontStartsWithFence(fm: seq<JsString>)
    requires |fm| > 1 && fm[0] == Fence
    ensures var front := Join([NewLine], fm);
      |front| >= 4 && front[..4] == Fence + [NewLine]
  {
  }
}
