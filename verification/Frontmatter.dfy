/**
  `escapeYamlString` and `generateYamlFrontmatter`: the YAML header of the
  document, with its quoted scalars and the whitespace-collapsed description.
 */
module Frontmatter {
  import opened JsText
  import opened Types

  const Quote: Unit := '"' as int
  const Backslash: Unit := '\\' as int

  /** `escapeYamlString`: every `"` becomes `\"`; nothing else changes, in
      particular a backslash is kept as it is. The result never starts with a
      quote, and each quote in it follows a backslash. */
  function EscapeYamlString(s: JsString): (r: JsString)
    ensures |r| >= |s|
    ensures |r| > 0 ==> r[0] != Quote
    ensures EscapedQuotes(r)
    decreases |s|
  {
    if |s| == 0 then []
    else if s[0] == Quote then [Backslash, Quote] + EscapeYamlString(s[1..])
    else [s[0]] + EscapeYamlString(s[1..])
  }

  /** Every quote is preceded by a backslash. */
  predicate EscapedQuotes(t: JsString) {
    forall i | 0 <= i < |t| && t[i] == Quote :: 0 < i && t[i - 1] == Backslash
  }

  /** The inverse of `EscapeYamlString`: a backslash directly before a quote
      is dropped. */
  function UnescapeQuotes(t: JsString): JsString
    decreases |t|
  {
    if |t| == 0 then []
    else if |t| >= 2 && t[0] == Backslash && t[1] == Quote then [Quote] + UnescapeQuotes(t[2..])
    else [t[0]] + UnescapeQuotes(t[1..])
  }

  /** Unescaping an escaped text followed by anything that does not start
      with a quote gives the text back, followed by the unescaped rest. */
  lemma {:induction false} UnescapeAppend(c: JsString, t: JsString)
    requires |t| == 0 || t[0] != Quote
    ensures UnescapeQuotes(EscapeYamlString(c) + t) == c + UnescapeQuotes(t)
    decreases |c|
  {
    if |c| == 0 {
      assert EscapeYamlString(c) + t == t;
    } else {
      var e := EscapeYamlString(c[1..]);
      var rest := e + t;
      EscapedStart(c[1..], t);
      UnescapeAppend(c[1..], t);
      var head: JsString := if c[0] == Quote then [Backslash, Quote] else [c[0]];
      assert EscapeYamlString(c) == head + e;
      AppendAssoc(head, e, t);
      if c[0] == Quote {
        UnescapePair(rest);
      } else {
        UnescapeCons(c[0], rest);
      }
      AppendAssoc([c[0]], c[1..], UnescapeQuotes(t));
      assert c == [c[0]] + c[1..];
    }
  }

  /** An escaped text followed by a text that does not start with a quote
      does not start with a quote. */
  lemma EscapedStart(c: JsString, t: JsString)
    requires |t| == 0 || t[0] != Quote
    ensures var rest := EscapeYamlString(c) + t; |rest| == 0 || rest[0] != Quote
  {
    var e := EscapeYamlString(c);
    if |e| == 0 {
      assert e + t == t;
    } else {
      assert (e + t)[0] == e[0];
    }
  }

  lemma UnescapePair(rest: JsString)
    ensures UnescapeQuotes([Backslash, Quote] + rest) == [Quote] + UnescapeQuotes(rest)
  {
    assert ([Backslash, Quote] + rest)[2..] == rest;
  }

  lemma UnescapeCons(u: Unit, rest: JsString)
    requires u != Quote
    requires |rest| == 0 || rest[0] != Quote
    ensures UnescapeQuotes([u] + rest) == [u] + UnescapeQuotes(rest)
  {
    assert ([u] + rest)[1..] == rest;
  }

  /** Escaping round-trips. */
  lemma UnescapeEscape(s: JsString)
    ensures UnescapeQuotes(EscapeYamlString(s)) == s
  {
    UnescapeAppend(s, []);
    assert EscapeYamlString(s) + [] == EscapeYamlString(s);
  }

  /** Escaping is injective: different titles or tags never collide. */
  lemma EscapeInjective(a: JsString, b: JsString)
    requires EscapeYamlString(a) == EscapeYamlString(b)
    ensures a == b
  {
    UnescapeEscape(a);
    UnescapeEscape(b);
  }

  /** A text without quotes is left as it is. */
  lemma {:induction false} EscapeWithoutQuotes(s: JsString)
    requires Quote !in s
    ensures EscapeYamlString(s) == s
    decreases |s|
  {
    if |s| > 0 {
      assert Quote !in s[1..] by {
        forall i | 0 <= i < |s[1..]|
          ensures s[1..][i] != Quote
        {
          assert s[1..][i] == s[i + 1];
        }
      }
      EscapeWithoutQuotes(s[1..]);
      assert s == [s[0]] + s[1..];
    }
  }

  /** `s.replace(/\s+/g, " ")`: each maximal run of whitespace becomes one
      space. */
  function CollapseWhitespace(s: JsString): (r: JsString)
    ensures |r| <= |s|
    ensures |r| == 0 <==> |s| == 0
    ensures |r| > 0 ==> (IsWhitespace(r[0]) <==> IsWhitespace(s[0]))
    ensures forall i | 0 <= i < |r| && IsWhitespace(r[i]) :: r[i] == Space
    ensures forall i | 0 <= i < |r| - 1 :: !IsWhitespace(r[i]) || !IsWhitespace(r[i + 1])
    decreases |s|
  {
    if |s| == 0 then []
    else if IsWhitespace(s[0]) then
      [Space] + CollapseWhitespace(TrimStart(s[1..]))
    else [s[0]] + CollapseWhitespace(s[1..])
  }

  /** The non-whitespace units of a text, in order. */
  function Visible(s: JsString): JsString
    decreases |s|
  {
    if |s| == 0 then []
    else (if IsWhitespace(s[0]) then [] else [s[0]]) + Visible(s[1..])
  }

  lemma {:induction false} VisibleTrimStart(s: JsString)
    ensures Visible(TrimStart(s)) == Visible(s)
    decreases |s|
  {
    if |s| > 0 && IsWhitespace(s[0]) {
      VisibleTrimStart(s[1..]);
    }
  }

  /** Collapsing keeps every non-whitespace unit, in order. */
  lemma {:induction false} CollapseKeepsVisible(s: JsString)
    ensures Visible(CollapseWhitespace(s)) == Visible(s)
    decreases |s|
  {
    if |s| > 0 {
      if IsWhitespace(s[0]) {
        var t := TrimStart(s[1..]);
        CollapseKeepsVisible(t);
        VisibleTrimStart(s[1..]);
        assert ([Space] + CollapseWhitespace(t))[1..] == CollapseWhitespace(t);
      } else {
        CollapseKeepsVisible(s[1..]);
        assert ([s[0]] + CollapseWhitespace(s[1..]))[1..] == CollapseWhitespace(s[1..]);
      }
    }
  }

  /** A text that does not start with whitespace is its own `trimStart`. */
  lemma TrimStartNoop(s: JsString)
    requires |s| == 0 || !IsWhitespace(s[0])
    ensures TrimStart(s) == s
  {
  }

  /** Collapsing twice is collapsing once. */
  lemma {:induction false} CollapseIdempotent(s: JsString)
    ensures CollapseWhitespace(CollapseWhitespace(s)) == CollapseWhitespace(s)
    decreases |s|
  {
    if |s| > 0 {
      var r := CollapseWhitespace(s);
      if IsWhitespace(s[0]) {
        var t := TrimStart(s[1..]);
        var ct := CollapseWhitespace(t);
        CollapseIdempotent(t);
        assert r == [Space] + ct;
        assert r[1..] == ct;
        TrimStartNoop(ct);
      } else {
        CollapseIdempotent(s[1..]);
        assert r == [s[0]] + CollapseWhitespace(s[1..]);
        assert r[1..] == CollapseWhitespace(s[1..]);
      }
    }
  }

  /** The description's length cut: `substring(0, 150)`, in code units. */
  const DescriptionLength := 150

  /** The description text before escaping: the first 150 code units of the
      lead post's markdown, cut before whitespace is collapsed. */
  function Description(markdown: JsString): JsString {
    CollapseWhitespace(if |markdown| <= DescriptionLength then markdown else markdown[..DescriptionLength])
  }

  /** The description is at most 150 units long, its only whitespace is single
      spaces, and it keeps the visible units of the cut markdown. */
  lemma DescriptionShape(markdown: JsString)
    ensures |Description(markdown)| <= DescriptionLength
    ensures forall i | 0 <= i < |Description(markdown)| && IsWhitespace(Description(markdown)[i]) ::
      Description(markdown)[i] == Space
    ensures Visible(Description(markdown)) ==
      Visible(if |markdown| <= DescriptionLength then markdown else markdown[..DescriptionLength])
  {
    CollapseKeepsVisible(if |markdown| <= DescriptionLength then markdown else markdown[..DescriptionLength]);
  }

  /** `line` is `key`, a quote, an escaped text whose quotes are all preceded
      by a backslash, and a closing quote; unescaping that text gives `value`. */
  predicate QuotedField(line: JsString, key: JsString, value: JsString) {
    && |line| >= |key| + 2
    && line[..|key|] == key
    && line[|key|] == Quote
    && line[|line| - 1] == Quote
    && EscapedQuotes(line[|key| + 1..|line| - 1])
    && UnescapeQuotes(line[|key| + 1..|line| - 1]) == value
  }

  const Fence: JsString := Lit("---")
  const DefaultTag: JsString := Lit("discourse-clipping")
  const Ellipsis: JsString := Lit("...")
  const TitleKey: JsString := Lit("title: ")
  const DescriptionKey: JsString := Lit("description: ")
  const ItemKey: JsString := Lit("  - ")

  /** The field lines written as `key "escaped"`. */
  function QuotedLine(key: JsString, value: JsString): (line: JsString)
    ensures QuotedField(line, key, value)
  {
    var e := EscapeYamlString(value);
    var line := key + [Quote] + e + [Quote];
    assert line[..|key|] == key;
    assert line[|key| + 1..|line| - 1] == e;
    UnescapeEscape(value);
    line
  }

  /** The description line: the quotes close after the appended "...". */
  function DescriptionLine(markdown: JsString): (line: JsString)
    ensures QuotedField(line, DescriptionKey, Description(markdown) + Ellipsis)
  {
    var e := EscapeYamlString(Description(markdown));
    var line := DescriptionKey + [Quote] + e + Ellipsis + [Quote];
    assert line[..|DescriptionKey|] == DescriptionKey;
    assert line[|DescriptionKey| + 1..|line| - 1] == e + Ellipsis;
    UnescapeAppend(Description(markdown), Ellipsis);
    assert UnescapeQuotes(Ellipsis) == Ellipsis;
    assert EscapedQuotes(e + Ellipsis) by {
      forall i | 0 <= i < |e + Ellipsis| && (e + Ellipsis)[i] == Quote
        ensures 0 < i && (e + Ellipsis)[i - 1] == Backslash
      {
        assert i < |e|;
      }
    }
    line
  }

  /** The tag lines: one per tag, in order, or the default tag. */
  function TagLines(tags: seq<JsString>): (lines: seq<JsString>)
    ensures |lines| == if |tags| > 0 then |tags| else 1
    ensures forall i | 0 <= i < |tags| :: QuotedField(lines[i], ItemKey, tags[i])
    ensures |tags| == 0 ==> QuotedField(lines[0], ItemKey, DefaultTag)
  {
    if |tags| > 0 then seq(|tags|, i requires 0 <= i < |tags| => QuotedLine(ItemKey, tags[i]))
    else
      EscapeWithoutQuotes(DefaultTag);
      [QuotedLine(ItemKey, DefaultTag)]
  }

  const SourceKey: JsString := Lit("source: ")
  const AuthorLine: JsString := Lit("author:")
  const PublishedKey: JsString := Lit("published: ")
  const CreatedKey: JsString := Lit("created: ")
  const TagsLine: JsString := Lit("tags:")

  /** The author entry: a quoted Obsidian wiki link to the user. */
  function AuthorItem(username: JsString): JsString {
    ItemKey + [Quote] + Lit("[[") + username + Lit("]]") + [Quote]
  }

  /** The nine lines before the tags. */
  function HeaderLines(
    topic: TopicData, op: Post, sourceUrl: JsString, markdown: JsString,
    created: JsString, formatDate: JsString -> JsString): (h: seq<JsString>)
    ensures |h| == 9
    ensures h[0] == Fence
    ensures QuotedField(h[1], TitleKey, topic.title)
    ensures h[2] == SourceKey + [Quote] + sourceUrl + [Quote]
    ensures h[3] == AuthorLine
    ensures h[4] == AuthorItem(op.username)
    ensures h[5] == PublishedKey + formatDate(op.createdAt)
    ensures h[6] == CreatedKey + created
    ensures QuotedField(h[7], DescriptionKey, Description(markdown) + Ellipsis)
    ensures h[8] == TagsLine
  {
    [ Fence,
      QuotedLine(TitleKey, topic.title),
      SourceKey + [Quote] + sourceUrl + [Quote],
      AuthorLine,
      AuthorItem(op.username),
      PublishedKey + formatDate(op.createdAt),
      CreatedKey + created,
      DescriptionLine(markdown),
      TagsLine ]
  }

  /** `generateYamlFrontmatter`. `created` is today's date, which the source
      takes from the clock; `formatDate` is `formatDateISO`. The lines are, in
      this order: the opening fence, the quoted title, the source URL, the
      author (the lead post's user), the publication and creation dates, the
      quoted description with "..." appended, the tags (or the default tag)
      and the closing fence. The title, description and tags decode back to
      their values; the source URL and the user name are quoted unescaped. */
  function GenerateYamlFrontmatter(
    topic: TopicData, op: Post, sourceUrl: JsString, markdown: JsString,
    created: JsString, formatDate: JsString -> JsString): (lines: seq<JsString>)
    ensures |lines| == 10 + (if |topic.tags| > 0 then |topic.tags| else 1)
    ensures lines[0] == Fence && lines[|lines| - 1] == Fence
    ensures QuotedField(lines[1], TitleKey, topic.title)
    ensures lines[2] == SourceKey + [Quote] + sourceUrl + [Quote]
    ensures lines[3] == AuthorLine
    ensures lines[4] == AuthorItem(op.username)
    ensures lines[5] == PublishedKey + formatDate(op.createdAt)
    ensures lines[6] == CreatedKey + created
    ensures QuotedField(lines[7], DescriptionKey, Description(markdown) + Ellipsis)
    ensures lines[8] == TagsLine
    ensures forall i | 0 <= i < |topic.tags| :: QuotedField(lines[9 + i], ItemKey, topic.tags[i])
    ensures |topic.tags| == 0 ==> QuotedField(lines[9], ItemKey, DefaultTag)
  {
    var head := HeaderLines(topic, op, sourceUrl, markdown, created, formatDate);
    var tags := TagLines(topic.tags);
    var rest := tags + [Fence];
    var lines := head + rest;
    assert forall i | 0 <= i < |head| :: lines[i] == head[i];
    assert forall i | 0 <= i < |rest| :: lines[9 + i] == rest[i];
    assert forall i | 0 <= i < |tags| :: rest[i] == tags[i];
    lines
  }
}
