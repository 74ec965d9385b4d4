/**
  `convertEmojiImage`: the text that replaces an emoji image. In order: the
  first emoji code point already in the alt text; otherwise the table entry
  for the name taken from the image URL (or, failing that, from the alt text
  without its surrounding colons); otherwise the alt text itself. The
  name-to-emoji table of node-emoji is a parameter.
 */
module Emoji {
  import opened Wrappers
  import opened JsText

  predicate IsHighSurrogate(u: Unit) {
    0xD800 <= u <= 0xDBFF
  }

  predicate IsLowSurrogate(u: Unit) {
    0xDC00 <= u <= 0xDFFF
  }

  /** Code units taken by the code point that starts at `i`: a high
      surrogate followed by a low one is a pair; any other unit, a lone
      surrogate included, stands for itself. */
  function WidthAt(s: JsString, i: int): (w: nat)
    requires 0 <= i < |s|
    ensures 1 <= w <= 2 && i + w <= |s|
  {
    if IsHighSurrogate(s[i]) && i + 1 < |s| && IsLowSurrogate(s[i + 1]) then 2 else 1
  }

  /** The code point that starts at `i`, decoded as a regex with the `u`
      flag reads it. */
  function CodePointAt(s: JsString, i: int): int
    requires 0 <= i < |s|
  {
    if WidthAt(s, i) == 2 then 0x10000 + (s[i] as int - 0xD800) * 0x400 + (s[i + 1] as int - 0xDC00)
    else s[i]
  }

  /** The ranges of `unicodeEmojiRegex`. */
  predicate IsEmojiCodePoint(c: int) {
    || (0x1F600 <= c <= 0x1F64F) || (0x1F300 <= c <= 0x1F5FF)
    || (0x1F680 <= c <= 0x1F6FF) || (0x1F700 <= c <= 0x1F77F)
    || (0x1F780 <= c <= 0x1F7FF) || (0x1F800 <= c <= 0x1F8FF)
    || (0x2600 <= c <= 0x26FF) || (0x2700 <= c <= 0x27BF)
  }

  predicate EmojiAt(s: JsString, i: int) {
    0 <= i < |s| && IsEmojiCodePoint(CodePointAt(s, i))
  }

  /** The scan of `alt.match(unicodeEmojiRegex)` from the code point at `i`,
      stepping one code point at a time. It finds the leftmost index holding
      an emoji, or reports that there is none: the second unit of a pair is
      never an emoji on its own, so stepping over it loses nothing. */
  function FirstEmojiFrom(s: JsString, i: nat): (r: Option<nat>)
    requires i <= |s|
    ensures r.Some? ==> i <= r.value < |s| && EmojiAt(s, r.value)
    ensures r.Some? ==> forall j | i <= j < r.value :: !EmojiAt(s, j)
    ensures r.None? ==> forall j | i <= j < |s| :: !EmojiAt(s, j)
    decreases |s| - i
  {
    if i == |s| then None
    else if EmojiAt(s, i) then Some(i)
    else
      var w := WidthAt(s, i);
      assert w == 2 ==> !EmojiAt(s, i + 1) by {
        if w == 2 {
          assert CodePointAt(s, i + 1) == s[i + 1];
        }
      }
      FirstEmojiFrom(s, i + w)
  }

  const Slash: Unit := '/' as int
  const Dot: Unit := '.' as int
  const Colon: Unit := ':' as int
  const EmojiDir: JsString := Lit("/emoji/")

  /** The first index at or after `from` holding `u`. */
  function NextIndexOf(s: JsString, u: Unit, from: nat): (r: Option<nat>)
    requires from <= |s|
    ensures r.Some? ==> from <= r.value < |s| && s[r.value] == u
    ensures r.Some? ==> forall j | from <= j < r.value :: s[j] != u
    ensures r.None? ==> forall j | from <= j < |s| :: s[j] != u
    decreases |s| - from
  {
    if from == |s| then None
    else if s[from] == u then Some(from)
    else NextIndexOf(s, u, from + 1)
  }

  predicate IsNameUnit(u: Unit) {
    u != Slash && u != Dot
  }

  /** The longest prefix of units that are neither "/" nor "." (the greedy
      group `([^/.]+)`). */
  function NameRun(s: JsString): (r: JsString)
    ensures |r| <= |s| && r == s[..|r|]
    ensures forall k | 0 <= k < |r| :: IsNameUnit(r[k])
    ensures |r| < |s| ==> !IsNameUnit(s[|r|])
  {
    if |s| > 0 && IsNameUnit(s[0]) then [s[0]] + NameRun(s[1..]) else []
  }

  /** The match of `/\/emoji\/[^/]+\/([^/.]+)/` starting at `p`, as its
      group: "/emoji/", a non-empty segment up to the next "/", then the
      longest run of units that are neither "/" nor ".", which must not be
      empty. The segment cannot stop before the next slash, so this is the
      only way the match can go. */
  function EmojiNameAt(src: JsString, p: nat): (r: Option<JsString>)
    ensures r.Some? ==> OccursAt(src, EmojiDir, p)
    ensures r.Some? ==> |r.value| > 0 && forall k | 0 <= k < |r.value| :: IsNameUnit(r.value[k])
  {
    if !OccursAt(src, EmojiDir, p) then None
    else
      var q := p + |EmojiDir|;
      match NextIndexOf(src, Slash, q)
      case None => None
      case Some(k) =>
        if k == q then None
        else
          var name := NameRun(src[k + 1..]);
          if |name| == 0 then None else Some(name)
  }

  /** No match starts at or after `p` and before `q`. */
  predicate NoMatchBetween(src: JsString, p: nat, q: nat) {
    forall j | p <= j < q :: EmojiNameAt(src, j).None?
  }

  /** `src.match(...)` without the `g` flag: the leftmost match. */
  function EmojiNameFrom(src: JsString, p: nat): (r: Option<JsString>)
    ensures r.Some? ==> exists q | p <= q <= |src| :: EmojiNameAt(src, q) == r && NoMatchBetween(src, p, q)
    ensures r.None? ==> forall q | p <= q <= |src| :: EmojiNameAt(src, q).None?
    decreases |src| + 1 - p
  {
    if p > |src| then None
    else if EmojiNameAt(src, p).Some? then EmojiNameAt(src, p)
    else EmojiNameFrom(src, p + 1)
  }

  /** `alt.replace(/^:+|:+$/g, "")`. */
  function StripColons(alt: JsString): JsString {
    DropTrailing(DropLeading(alt, Colon), Colon)
  }

  /** The name looked up in the table: the URL's emoji name when the URL has
      one, else the alt text without surrounding colons. */
  function EmojiName(alt: JsString, src: JsString): JsString {
    match EmojiNameFrom(src, 0)
    case Some(name) => name
    case None => StripColons(alt)
  }

  /** The alt text holds no emoji code point. */
  predicate NoEmoji(alt: JsString) {
    forall i | 0 <= i < |alt| :: !EmojiAt(alt, i)
  }

  /** `convertEmojiImage`; `lookup` is node-emoji's `get`, `None` standing for
      `undefined`. The first emoji of the alt text wins; without one, a
      non-empty table entry for the name wins; otherwise the alt text stays,
      as `emojiChar || alt` falls back on an empty or missing entry. */
  function ConvertEmojiImage(alt: JsString, src: JsString, lookup: JsString -> Option<JsString>): (r: JsString)
    ensures forall i | EmojiAt(alt, i) && (forall j | 0 <= j < i :: !EmojiAt(alt, j)) ::
      r == alt[i..i + WidthAt(alt, i)]
    ensures NoEmoji(alt) && lookup(EmojiName(alt, src)).Some? && |lookup(EmojiName(alt, src)).value| > 0 ==>
      r == lookup(EmojiName(alt, src)).value
    ensures NoEmoji(alt) && (lookup(EmojiName(alt, src)).None? || lookup(EmojiName(alt, src)).value == []) ==>
      r == alt
  {
    match FirstEmojiFrom(alt, 0)
    case Some(i) => alt[i..i + WidthAt(alt, i)]
    case None =>
      match lookup(EmojiName(alt, src))
      case Some(e) => if |e| > 0 then e else alt
      case None => alt
  }

  /** An emoji already in the alt text decides alone: neither the URL nor
      the table is consulted. */
  lemma AltEmojiDecides(alt: JsString, src1: JsString, src2: JsString,
                        lookup1: JsString -> Option<JsString>, lookup2: JsString -> Option<JsString>)
    requires exists i :: EmojiAt(alt, i)
    ensures ConvertEmojiImage(alt, src1, lookup1) == ConvertEmojiImage(alt, src2, lookup2)
  {
    var i := FirstEmojiFrom(alt, 0);
  }

  /** Without "/emoji/" in the URL the name comes from the alt text. */
  lemma NameFromAlt(alt: JsString, src: JsString)
    requires !Contains(src, EmojiDir)
    ensures EmojiName(alt, src) == StripColons(alt)
  {
    assert forall q | 0 <= q <= |src| :: !OccursAt(src, EmojiDir, q);
  }

  /** A URL of the form "/emoji/<set>/<name><rest>", where the set is a
      non-empty segment and the rest does not continue the name (it is empty
      or starts with "/" or "."), yields that name. */
  lemma EmojiUrlName(emojiSet: JsString, name: JsString, rest: JsString)
    requires |emojiSet| > 0 && Slash !in emojiSet
    requires |name| > 0 && forall k | 0 <= k < |name| :: IsNameUnit(name[k])
    requires |rest| == 0 || !IsNameUnit(rest[0])
    ensures EmojiNameAt(EmojiDir + emojiSet + [Slash] + name + rest, 0) == Some(name)
  {
    var src := EmojiDir + emojiSet + [Slash] + name + rest;
    var k := |EmojiDir| + |emojiSet|;
    assert src[..|EmojiDir|] == EmojiDir;
    assert src[k] == Slash;
    assert forall j | |EmojiDir| <= j < k :: src[j] == emojiSet[j - |EmojiDir|];
    assert NextIndexOf(src, Slash, |EmojiDir|) == Some(k);
    assert src[k + 1..] == name + rest;
    NameRunOf(name, rest);
  }

  /** The name run of `name + rest` is `name` when `rest` does not continue
      it. */
  lemma {:induction false} NameRunOf(name: JsString, rest: JsString)
    requires forall k | 0 <= k < |name| :: IsNameUnit(name[k])
    requires |rest| == 0 || !IsNameUnit(rest[0])
    ensures NameRun(name + rest) == name
    decreases |name|
  {
    if |name| == 0 {
      assert name + rest == rest;
    } else {
      assert (name + rest)[1..] == name[1..] + rest;
      NameRunOf(name[1..], rest);
      assert name == [name[0]] + name[1..];
    }
  }

  /** The URL of the source's example, "/emoji/twitter/heart.png", yields
      the name "heart". */
  lemma HeartUrlName()
    ensures EmojiNameAt(Lit("/emoji/twitter/heart.png"), 0) == Some(Lit("heart"))
  {
    assert Lit("/emoji/twitter/heart.png") == EmojiDir + Lit("twitter") + [Slash] + Lit("heart") + Lit(".png");
    EmojiUrlName(Lit("twitter"), Lit("heart"), Lit(".png"));
  }

  /** Text made only of ASCII units holds no emoji. */
  lemma AsciiHasNoEmoji(s: JsString)
    requires forall k | 0 <= k < |s| :: s[k] < 0x80
    ensures NoEmoji(s)
  {
  }

  /** Without an emoji in the alt text and with a match in the URL, the
      table entry for the matched name decides: a non-empty entry replaces
      the image, and otherwise the alt text stays. */
  lemma UrlNameLookedUp(alt: JsString, src: JsString, lookup: JsString -> Option<JsString>)
    requires NoEmoji(alt) && EmojiNameFrom(src, 0).Some?
    ensures var entry := lookup(EmojiNameFrom(src, 0).value);
      && (entry.Some? && |entry.value| > 0 ==> ConvertEmojiImage(alt, src, lookup) == entry.value)
      && (entry.None? || entry.value == [] ==> ConvertEmojiImage(alt, src, lookup) == alt)
  {
  }

  /** Without an emoji in the alt text and without a match in the URL, the
      table entry for the alt text without its surrounding colons decides. */
  lemma NoMatchLookedUp(alt: JsString, src: JsString, lookup: JsString -> Option<JsString>)
    requires NoEmoji(alt) && EmojiNameFrom(src, 0).None?
    ensures var entry := lookup(StripColons(alt));
      && (entry.Some? && |entry.value| > 0 ==> ConvertEmojiImage(alt, src, lookup) == entry.value)
      && (entry.None? || entry.value == [] ==> ConvertEmojiImage(alt, src, lookup) == alt)
  {
  }

  /** Positions where no match starts can be skipped. */
  lemma SkipNoMatch(src: JsString, p: nat, k: nat)
    requires p <= k && NoMatchBetween(src, p, k)
    ensures EmojiNameFrom(src, p) == EmojiNameFrom(src, k)
  {
    var i := p;
    while i < k
      invariant p <= i <= k
      invariant EmojiNameFrom(src, p) == EmojiNameFrom(src, i)
    {
      NoMatchStep(src, i);
      i := i + 1;
    }
  }

  /** Where no match starts, the search moves on to the next position. */
  lemma NoMatchStep(src: JsString, p: nat)
    requires EmojiNameAt(src, p).None?
    ensures EmojiNameFrom(src, p) == EmojiNameFrom(src, p + 1)
  {
  }

  /** A match with no match before it is the one `match` returns. */
  lemma LeftmostMatch(src: JsString, p: nat, q: nat)
    requires p <= q && EmojiNameAt(src, q).Some? && NoMatchBetween(src, p, q)
    ensures EmojiNameFrom(src, p) == EmojiNameAt(src, q)
  {
    SkipNoMatch(src, p, q);
  }

  /** `/emoji/<set>/<name>` after any prefix yields `name` at the offset
      where "/emoji/" starts. */
  lemma EmojiUrlNameAt(pre: JsString, emojiSet: JsString, name: JsString, rest: JsString)
    requires |emojiSet| > 0 && Slash !in emojiSet
    requires |name| > 0 && forall k | 0 <= k < |name| :: IsNameUnit(name[k])
    requires |rest| == 0 || !IsNameUnit(rest[0])
    ensures EmojiNameAt(pre + EmojiDir + emojiSet + [Slash] + name + rest, |pre|) == Some(name)
  {
    var src := pre + EmojiDir + emojiSet + [Slash] + name + rest;
    var d := |pre| + |EmojiDir|;
    var k := d + |emojiSet|;
    assert src[|pre|..d] == EmojiDir;
    assert src[k] == Slash;
    assert forall j | d <= j < k :: src[j] == emojiSet[j - d];
    assert NextIndexOf(src, Slash, d) == Some(k);
    assert src[k + 1..] == name + rest;
    NameRunOf(name, rest);
  }

  /** A URL such as `https://host/images/emoji/<set>/<name>.png`, whose first
      "/emoji/" follows the prefix `pre`, with emoji-free alt text: the
      table's non-empty entry for `name` replaces the image, and otherwise
      the alt text stays. */
  lemma PrefixedEmojiUrlConverted(alt: JsString, pre: JsString, emojiSet: JsString, name: JsString,
                                  rest: JsString, lookup: JsString -> Option<JsString>)
    requires NoEmoji(alt)
    requires forall q | 0 <= q < |pre| :: !OccursAt(pre + EmojiDir + emojiSet + [Slash] + name + rest, EmojiDir, q)
    requires |emojiSet| > 0 && Slash !in emojiSet
    requires |name| > 0 && forall k | 0 <= k < |name| :: IsNameUnit(name[k])
    requires |rest| == 0 || !IsNameUnit(rest[0])
    ensures var src := pre + EmojiDir + emojiSet + [Slash] + name + rest;
      && (lookup(name).Some? && |lookup(name).value| > 0 ==> ConvertEmojiImage(alt, src, lookup) == lookup(name).value)
      && (lookup(name).None? || lookup(name).value == [] ==> ConvertEmojiImage(alt, src, lookup) == alt)
  {
    var src := pre + EmojiDir + emojiSet + [Slash] + name + rest;
    EmojiUrlNameAt(pre, emojiSet, name, rest);
    assert NoMatchBetween(src, 0, |pre|);
    LeftmostMatch(src, 0, |pre|);
    UrlNameLookedUp(alt, src, lookup);
  }

  /** A URL whose only "/emoji/" is followed by a slash-free rest, such as
      `https://host/emoji/smile.png`, has no match: the regular expression
      needs a set segment ended by a slash. */
  lemma SetlessEmojiUrl(pre: JsString, seg: JsString)
    requires Slash !in seg
    requires forall q | 0 <= q < |pre| :: !OccursAt(pre + EmojiDir + seg, EmojiDir, q)
    ensures EmojiNameFrom(pre + EmojiDir + seg, 0).None?
  {
    var src := pre + EmojiDir + seg;
    forall q | 0 <= q <= |src|
      ensures EmojiNameAt(src, q).None?
    {
      if q == |pre| {
        NoSetSegment(pre, seg);
      } else if q > |pre| {
        NoLaterEmojiDir(pre, seg, q);
      }
    }
  }

  /** After the "/emoji/" that follows `pre`, no slash ends a set segment. */
  lemma NoSetSegment(pre: JsString, seg: JsString)
    requires Slash !in seg
    ensures NextIndexOf(pre + EmojiDir + seg, Slash, |pre| + |EmojiDir|).None?
  {
    var src := pre + EmojiDir + seg;
    var d := |pre| + |EmojiDir|;
    assert forall j | d <= j < |src| :: src[j] == seg[j - d];
  }

  /** A later "/emoji/" would need a slash inside `seg`. */
  lemma NoLaterEmojiDir(pre: JsString, seg: JsString, q: int)
    requires Slash !in seg && q > |pre|
    ensures !OccursAt(pre + EmojiDir + seg, EmojiDir, q)
  {
    var src := pre + EmojiDir + seg;
    var d := |pre| + |EmojiDir|;
    if q + |EmojiDir| <= |src| {
      assert src[q + 6] == seg[q + 6 - d];
      assert EmojiDir[6] == Slash;
      assert src[q..q + |EmojiDir|][6] == src[q + 6];
    }
  }

  /** Without "/emoji/" in the URL, the table entry for the alt text without
      its surrounding colons decides. */
  lemma AltNameLookedUp(alt: JsString, src: JsString, lookup: JsString -> Option<JsString>)
    requires NoEmoji(alt) && !Contains(src, EmojiDir)
    ensures var entry := lookup(StripColons(alt));
      && (entry.Some? && |entry.value| > 0 ==> ConvertEmojiImage(alt, src, lookup) == entry.value)
      && (entry.None? || entry.value == [] ==> ConvertEmojiImage(alt, src, lookup) == alt)
  {
    NameFromAlt(alt, src);
  }

  /** An image whose URL is `/emoji/<set>/<name>` followed by a non-name
      unit or nothing, with no emoji in its alt text, becomes the table's
      non-empty entry for `name`, or else keeps its alt text. With the set
      "twitter", the name "heart" and the rest ".png", a non-empty entry for
      "heart" is the result. */
  lemma EmojiUrlConverted(alt: JsString, emojiSet: JsString, name: JsString, rest: JsString,
                          lookup: JsString -> Option<JsString>)
    requires NoEmoji(alt)
    requires |emojiSet| > 0 && Slash !in emojiSet
    requires |name| > 0 && forall k | 0 <= k < |name| :: IsNameUnit(name[k])
    requires |rest| == 0 || !IsNameUnit(rest[0])
    ensures var src := EmojiDir + emojiSet + [Slash] + name + rest;
      && (lookup(name).Some? && |lookup(name).value| > 0 ==> ConvertEmojiImage(alt, src, lookup) == lookup(name).value)
      && (lookup(name).None? || lookup(name).value == [] ==> ConvertEmojiImage(alt, src, lookup) == alt)
  {
    var src := EmojiDir + emojiSet + [Slash] + name + rest;
    EmojiUrlName(emojiSet, name, rest);
    assert EmojiNameFrom(src, 0) == EmojiNameAt(src, 0);
    UrlNameLookedUp(alt, src, lookup);
  }
}
