/**
  The three conversion rules `createTurndownService` adds: which elements
  each rule claims (its filter) and the markdown it writes for them (its
  replacement). Turndown's HTML parsing and its built-in rules are not part
  of this model; an element is described by the few facts the rules read.
 */
module ImageRules {
  import opened Wrappers
  import opened JsText
  import opened Emoji
  import opened Galleries

  /** The element kinds the filters distinguish (`nodeName`). */
  datatype Tag = Aside | Anchor | Img | OtherTag

  /** What the rules read of a DOM element: its kind, its classes, the
      attributes (`None` for a missing one), whether its parent carries the
      class "lightbox", and whether it lies inside an element with the class
      "onebox" (`isInsideOnebox`, a DOM `closest` query). */
  datatype Element = Element(
    tag: Tag,
    classes: seq<JsString>,
    src: Option<JsString>,
    alt: Option<JsString>,
    href: Option<JsString>,
    width: Option<JsString>,
    height: Option<JsString>,
    parentIsLightbox: bool,
    insideOnebox: bool)

  /** `isAvatarUrl`. */
  predicate IsAvatarUrl(url: JsString) {
    Contains(url, Lit("user_avatar")) || Contains(url, Lit("/avatar/"))
  }

  /** An avatar URL stays one whatever is put around it. */
  lemma AvatarUrlExtends(prefix: JsString, url: JsString, suffix: JsString)
    requires IsAvatarUrl(url)
    ensures IsAvatarUrl(prefix + url + suffix)
  {
    var big := prefix + url + suffix;
    forall t, i | OccursAt(url, t, i)
      ensures OccursAt(big, t, |prefix| + i)
    {
      assert big[|prefix| + i..|prefix| + i + |t|] == url[i..i + |t|];
    }
  }

  /** A text shorter than both markers is never an avatar URL ("" in
      particular). */
  lemma ShortUrlNotAvatar(url: JsString)
    requires |url| < 8
    ensures !IsAvatarUrl(url)
  {
  }

  /** `getAttribute(name) || ""`: a missing attribute reads as empty. */
  function AttrOrEmpty(a: Option<JsString>): JsString {
    a.GetOr([])
  }

  // ---------------------------------------------------------------------
  // Filters.

  /** The "onebox" rule claims an ASIDE with the class "onebox" or
      "allowlistedgeneric". */
  predicate OneboxFilter(e: Element) {
    e.tag == Aside && (Lit("onebox") in e.classes || Lit("allowlistedgeneric") in e.classes)
  }

  /** The "discourseImage" rule claims an A with the class "lightbox". */
  predicate LightboxFilter(e: Element) {
    e.tag == Anchor && Lit("lightbox") in e.classes
  }

  /** The "regularImage" rule claims every IMG. */
  predicate RegularImageFilter(e: Element) {
    e.tag == Img
  }

  datatype Rule = OneboxRule | DiscourseImageRule | RegularImageRule

  /** The custom rule Turndown applies. `addRule` puts each new rule in
      front, so the rules are tried last-added first. */
  function CustomRule(e: Element): (r: Option<Rule>)
    ensures r == Some(OneboxRule) <==> OneboxFilter(e)
    ensures r == Some(DiscourseImageRule) <==> LightboxFilter(e)
    ensures r == Some(RegularImageRule) <==> RegularImageFilter(e)
  {
    if RegularImageFilter(e) then Some(RegularImageRule)
    else if LightboxFilter(e) then Some(DiscourseImageRule)
    else if OneboxFilter(e) then Some(OneboxRule)
    else None
  }

  /** No element is claimed by two rules, so the order in which Turndown
      tries them does not matter. */
  lemma FiltersDisjoint(e: Element)
    ensures !(OneboxFilter(e) && LightboxFilter(e))
    ensures !(OneboxFilter(e) && RegularImageFilter(e))
    ensures !(LightboxFilter(e) && RegularImageFilter(e))
  {
  }

  // ---------------------------------------------------------------------
  // Replacements.

  /** `![caption](target)`, a markdown image. */
  function ImageRef(caption: JsString, target: JsString): JsString {
    Lit("![") + caption + Lit("](") + target + Lit(")")
  }

  /** The display width the rules give content images. */
  const SizeLabel: JsString := Lit("|320")

  /** The "onebox" replacement: the embed is dropped, its links come back
      through the external-links block. */
  function OneboxReplacement(e: Element): (r: JsString)
    requires OneboxFilter(e)
    ensures r == []
  {
    []
  }

  /** The "discourseImage" replacement: nothing for an avatar link or a link
      inside a onebox, otherwise a sized image of the link target. */
  function LightboxReplacement(e: Element): (r: JsString)
    ensures r == [] <==> IsAvatarUrl(AttrOrEmpty(e.href)) || e.insideOnebox
    ensures r != [] ==> r == ImageRef(SizeLabel, AttrOrEmpty(e.href))
  {
    var href := AttrOrEmpty(e.href);
    if IsAvatarUrl(href) then []
    else if e.insideOnebox then []
    else ImageRef(SizeLabel, href)
  }

  /** A sized image of a non-empty, single-line target is a line the gallery
      pass collects: consecutive lightbox images end up side by side. */
  lemma SizedImageRefIsImageLine(target: JsString)
    requires |target| > 0 && NoLineTerminator(target)
    ensures IsImageLine(ImageRef(SizeLabel, target))
  {
    var s := ImageRef(SizeLabel, target);
    assert SizeLabel == ['|' as int, '3' as int, '2' as int, '0' as int];
    assert s == ['!' as int, '[' as int, '|' as int, '3' as int, '2' as int, '0' as int, ']' as int, '(' as int]
      + target + [')' as int];
    assert SizedImageWith(s, 3);
    SizedImageIsImageLine(s);
  }

  /** The three tests that send an image to the emoji conversion. */
  predicate MentionsEmoji(src: JsString, alt: JsString) {
    Contains(src, Lit("/emoji/")) || Contains(src, Lit("emoji")) || Contains(alt, Lit("emoji"))
  }

  /** `attr && parseInt(attr) < 100`; `parseInt` gives `None` for NaN, which
      is never below 100. */
  predicate IsSmall(attr: Option<JsString>, parseInt: JsString -> Option<int>) {
    && attr.Some? && |attr.value| > 0
    && parseInt(attr.value).Some? && parseInt(attr.value).value < 100
  }

  /** What the "regularImage" rule decides for an image. */
  datatype ImageOutcome =
    | Skipped        // inside a lightbox or a onebox, or an avatar
    | EmojiText      // converted by `convertEmojiImage`
    | SmallImage     // kept with its alt text and no size
    | ContentImage   // kept at the display width

  /** The decision, in the source's order: lightbox parent, onebox, emoji,
      avatar, small dimensions. The emoji test comes before the avatar
      test. */
  function ClassifyImage(e: Element, parseInt: JsString -> Option<int>): ImageOutcome {
    var src := AttrOrEmpty(e.src);
    var alt := AttrOrEmpty(e.alt);
    if e.parentIsLightbox || e.insideOnebox then Skipped
    else if MentionsEmoji(src, alt) then EmojiText
    else if IsAvatarUrl(src) then Skipped
    else if IsSmall(e.width, parseInt) || IsSmall(e.height, parseInt) then SmallImage
    else ContentImage
  }

  /** The "regularImage" replacement. Images inside a lightbox or a onebox
      and avatars that do not mention emoji give nothing; emoji images give
      `convertEmojiImage`'s text; a small image keeps its alt text; any other
      image becomes a sized image of its source. */
  function RegularImageReplacement(
    e: Element, lookup: JsString -> Option<JsString>, parseInt: JsString -> Option<int>): (r: JsString)
    ensures e.parentIsLightbox || e.insideOnebox ==> r == []
    ensures (&& !e.parentIsLightbox && !e.insideOnebox && IsAvatarUrl(AttrOrEmpty(e.src))
             && !MentionsEmoji(AttrOrEmpty(e.src), AttrOrEmpty(e.alt))) ==> r == []
    ensures !e.parentIsLightbox && !e.insideOnebox && MentionsEmoji(AttrOrEmpty(e.src), AttrOrEmpty(e.alt)) ==>
      r == ConvertEmojiImage(AttrOrEmpty(e.alt), AttrOrEmpty(e.src), lookup)
    ensures (&& !e.parentIsLightbox && !e.insideOnebox
             && !MentionsEmoji(AttrOrEmpty(e.src), AttrOrEmpty(e.alt)) && !IsAvatarUrl(AttrOrEmpty(e.src))
             && (IsSmall(e.width, parseInt) || IsSmall(e.height, parseInt))) ==>
      r == ImageRef(AttrOrEmpty(e.alt), AttrOrEmpty(e.src))
    ensures (&& !e.parentIsLightbox && !e.insideOnebox
             && !MentionsEmoji(AttrOrEmpty(e.src), AttrOrEmpty(e.alt)) && !IsAvatarUrl(AttrOrEmpty(e.src))
             && !IsSmall(e.width, parseInt) && !IsSmall(e.height, parseInt)) ==>
      r == ImageRef(SizeLabel, AttrOrEmpty(e.src))
  {
    var src := AttrOrEmpty(e.src);
    var alt := AttrOrEmpty(e.alt);
    match ClassifyImage(e, parseInt)
    case Skipped => []
    case EmojiText => ConvertEmojiImage(alt, src, lookup)
    case SmallImage => ImageRef(alt, src)
    case ContentImage => ImageRef(SizeLabel, src)
  }

  /** Every image is either dropped, turned into emoji text, or written as a
      markdown image whose target is its source; a non-empty single-line
      source written at the display width is a gallery line. */
  lemma RegularImageShape(e: Element, lookup: JsString -> Option<JsString>, parseInt: JsString -> Option<int>)
    ensures var r := RegularImageReplacement(e, lookup, parseInt);
      match ClassifyImage(e, parseInt)
      case Skipped => r == []
      case EmojiText => MentionsEmoji(AttrOrEmpty(e.src), AttrOrEmpty(e.alt))
      case SmallImage => exists caption :: r == ImageRef(caption, AttrOrEmpty(e.src))
      case ContentImage =>
        && r == ImageRef(SizeLabel, AttrOrEmpty(e.src))
        && (|AttrOrEmpty(e.src)| > 0 && NoLineTerminator(AttrOrEmpty(e.src)) ==> IsImageLine(r))
  {
    var src := AttrOrEmpty(e.src);
    var r := RegularImageReplacement(e, lookup, parseInt);
    if ClassifyImage(e, parseInt) == SmallImage {
      assert r == ImageRef(AttrOrEmpty(e.alt), src);
    }
    if ClassifyImage(e, parseInt) == ContentImage && |src| > 0 && NoLineTerminator(src) {
      SizedImageRefIsImageLine(src);
    }
  }

  /** The emoji test wins over the avatar test: an avatar-looking image whose
      source mentions "emoji" is converted, not dropped. */
  lemma EmojiBeforeAvatar(e: Element, lookup: JsString -> Option<JsString>, parseInt: JsString -> Option<int>)
    requires !e.parentIsLightbox && !e.insideOnebox
    requires IsAvatarUrl(AttrOrEmpty(e.src)) && MentionsEmoji(AttrOrEmpty(e.src), AttrOrEmpty(e.alt))
    ensures ClassifyImage(e, parseInt) == EmojiText
  {
  }

  /** The first emoji test is implied by the second: a source containing
      "/emoji/" contains "emoji". */
  lemma EmojiDirMentionsEmoji(src: JsString)
    requires Contains(src, Lit("/emoji/"))
    ensures Contains(src, Lit("emoji"))
  {
    var dir, name := Lit("/emoji/"), Lit("emoji");
    assert |dir| == 7 && |name| == 5;
    var i :| 0 <= i <= |src| - 7 && OccursAt(src, dir, i);
    assert dir[1..6] == name;
    forall k | 0 <= k < 5
      ensures src[i + 1 + k] == name[k]
    {
      assert src[i + 1 + k] == src[i..i + 7][1 + k] == dir[1 + k];
    }
    assert src[i + 1..i + 6] == name;
    assert OccursAt(src, name, i + 1);
  }
}
