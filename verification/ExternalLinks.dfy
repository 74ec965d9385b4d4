/**
  `renderExternalLinks`: the "External Links" block listed under a post,
  built from its `link_counts`.
 */
module ExternalLinks {
  import opened Wrappers
  import opened JsText
  import opened Types

  /** The extensions of `/\.(jpeg|jpg|png|gif|webp)(\?.*)?$/i`, lower case. */
  function ImageExtensions(): seq<JsString> {
    [Lit("jpeg"), Lit("jpg"), Lit("png"), Lit("gif"), Lit("webp")]
  }

  function LowerAll(s: JsString): (r: JsString)
    ensures |r| == |s|
  {
    seq(|s|, i requires 0 <= i < |s| => AsciiLower(s[i]))
  }

  /** What may follow the extension: nothing, or "?" and units that are not
      line terminators (`(\?.*)?$`). */
  predicate QueryTail(t: JsString) {
    |t| == 0 || (t[0] == '?' as int && forall i | 1 <= i < |t| :: !IsLineTerminator(t[i]))
  }

  /** From index `k`, `url` holds ".", the extension `e` in any ASCII case,
      and a query tail up to the end. */
  predicate ExtensionAt(url: JsString, k: int, e: JsString) {
    && 0 <= k && k + 1 + |e| <= |url|
    && url[k] == '.' as int
    && LowerAll(url[k + 1..k + 1 + |e|]) == e
    && QueryTail(url[k + 1 + |e|..])
  }

  /** The image-URL test of `renderExternalLinks`: the regex is unanchored on
      the left, so any "." followed by an image extension and an optional
      query string at the very end qualifies. */
  predicate IsImageUrl(url: JsString) {
    exists k, e | 0 <= k < |url| && e in ImageExtensions() :: ExtensionAt(url, k, e)
  }

  /** A link the block lists: not internal and not an image URL. */
  predicate IsListed(l: Link) {
    !l.internal && !IsImageUrl(l.url)
  }

  /** The links of `links` the block lists, in order. */
  function ListedLinks(links: seq<Link>): (r: seq<Link>)
    ensures |r| <= |links|
    ensures forall l | l in r :: l in links && IsListed(l)
    ensures forall l | l in links && IsListed(l) :: l in r
  {
    if |links| == 0 then []
    else (if IsListed(links[0]) then [links[0]] else []) + ListedLinks(links[1..])
  }

  /** `link_counts.filter((link) => !link.internal)`. */
  function NonInternal(links: seq<Link>): seq<Link> {
    if |links| == 0 then []
    else (if !links[0].internal then [links[0]] else []) + NonInternal(links[1..])
  }

  /** The `forEach` that skips image URLs and formats the others. */
  function NonImageBullets(links: seq<Link>): seq<JsString> {
    if |links| == 0 then []
    else (if !IsImageUrl(links[0].url) then [Bullet(links[0])] else []) + NonImageBullets(links[1..])
  }

  /** One listed link: `- [title](url)`. */
  function Bullet(l: Link): JsString {
    Lit("- [") + l.title + Lit("](") + l.url + Lit(")")
  }

  function Bullets(links: seq<Link>): (r: seq<JsString>)
    ensures |r| == |links|
    ensures forall i | 0 <= i < |links| :: r[i] == Bullet(links[i])
  {
    seq(|links|, i requires 0 <= i < |links| => Bullet(links[i]))
  }

  const Heading: JsString := Lit("**External Links:**")

  /** `renderExternalLinks`. Empty exactly when the post lists no link (no
      `link_counts`, or every link internal or an image); otherwise a blank
      line, the heading and one bullet per listed link, in input order,
      joined by newlines. */
  function RenderExternalLinks(post: Post): (r: JsString)
    ensures r == [] <==> post.linkCounts.None? || |ListedLinks(post.linkCounts.value)| == 0
    ensures r != [] ==>
      r == [NewLine] + Heading + [NewLine] + Join([NewLine], Bullets(ListedLinks(post.linkCounts.value)))
  {
    match post.linkCounts
    case None => []
    case Some(links) =>
      if |links| == 0 then []
      else
        var external := NonInternal(links);
        if |external| == 0 then
          NonInternalEmpty(links);
          []
        else
          var filtered := NonImageBullets(external);
          FilterComposition(links);
          if |filtered| > 0 then
            BlockLayout(filtered);
            Join([NewLine], [[], Heading] + filtered)
          else []
  }

  /** Filtering internal links and then image URLs lists exactly the links
      `IsListed` accepts. */
  lemma {:induction false} FilterComposition(links: seq<Link>)
    ensures NonImageBullets(NonInternal(links)) == Bullets(ListedLinks(links))
    decreases |links|
  {
    if |links| > 0 {
      var l := links[0];
      var rest := links[1..];
      FilterComposition(rest);
      if l.internal {
        assert NonInternal(links) == NonInternal(rest);
      } else {
        assert NonInternal(links) == [l] + NonInternal(rest);
        NonImageBulletsCons(l, NonInternal(rest));
        BulletsCons(l, ListedLinks(rest));
      }
    }
  }

  lemma NonImageBulletsCons(l: Link, x: seq<Link>)
    ensures NonImageBullets([l] + x) == (if IsImageUrl(l.url) then [] else [Bullet(l)]) + NonImageBullets(x)
  {
    ConsParts(l, x);
  }

  lemma BulletsCons(l: Link, y: seq<Link>)
    ensures Bullets([l] + y) == [Bullet(l)] + Bullets(y)
  {
  }

  lemma {:induction false} NonInternalEmpty(links: seq<Link>)
    requires NonInternal(links) == []
    ensures ListedLinks(links) == []
    decreases |links|
  {
    if |links| > 0 {
      NonInternalEmpty(links[1..]);
    }
  }

  lemma BlockLayout(bullets: seq<JsString>)
    requires |bullets| > 0
    ensures Join([NewLine], [[], Heading] + bullets)
      == [NewLine] + Heading + [NewLine] + Join([NewLine], bullets)
  {
    var top: seq<JsString> := [[], Heading];
    JoinAppend([NewLine], top, bullets);
    assert Join([NewLine], top) == [NewLine] + Heading by {
      assert top[1..] == [Heading];
    }
  }
}
