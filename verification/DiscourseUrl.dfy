/**
  The path scan of `parseDiscourseUrl`: the topic id is the first segment
  made only of ASCII digits that follows the first segment "t". The URL
  itself is taken as already parsed by the `URL` constructor, into its origin
  and its path.
 */
module DiscourseUrl {
  import opened Wrappers
  import opened JsText

  const Slash: Unit := '/' as int

  datatype UrlInfo = UrlInfo(baseUrl: JsString, topicId: JsString)

  /** `/^\d+$/`: one or more ASCII digits and nothing else. */
  predicate IsAllDigits(s: JsString) {
    |s| > 0 && forall k | 0 <= k < |s| :: IsAsciiDigit(s[k])
  }

  /** `.filter((p) => p)`: the non-empty texts, in order. */
  function NonEmpty(parts: seq<JsString>): (r: seq<JsString>)
    ensures forall k | 0 <= k < |r| :: |r[k]| > 0
    ensures forall p | p in r :: p in parts
    ensures forall p | p in parts && |p| > 0 :: p in r
  {
    if |parts| == 0 then []
    else (if |parts[0]| > 0 then [parts[0]] else []) + NonEmpty(parts[1..])
  }

  /** `pathname.split("/").filter((p) => p)`: the path's segments. */
  function PathParts(pathname: JsString): (r: seq<JsString>)
    ensures forall k | 0 <= k < |r| :: |r[k]| > 0 && Slash !in r[k]
  {
    var parts := Split(pathname, Slash);
    var r := NonEmpty(parts);
    assert forall k | 0 <= k < |r| :: Slash !in r[k] by {
      forall k | 0 <= k < |r|
        ensures Slash !in r[k]
      {
        assert r[k] in r;
        var j :| 0 <= j < |parts| && parts[j] == r[k];
      }
    }
    r
  }

  /** `parts.indexOf(t)`, `None` standing for -1. */
  function IndexOfPart(parts: seq<JsString>, t: JsString): (r: Option<nat>)
    ensures r.Some? ==> r.value < |parts| && parts[r.value] == t
    ensures r.Some? ==> forall k | 0 <= k < r.value :: parts[k] != t
    ensures r.None? ==> forall k | 0 <= k < |parts| :: parts[k] != t
  {
    if |parts| == 0 then None
    else if parts[0] == t then Some(0)
    else match IndexOfPart(parts[1..], t)
      case None => None
      case Some(i) => Some(i + 1)
  }

  /** The loop `for (let i = tIndex + 1; ...)`: the first all-digit segment at
      or after `from`. */
  function FirstDigitsFrom(parts: seq<JsString>, from: nat): (r: Option<nat>)
    requires from <= |parts|
    ensures r.Some? ==> from <= r.value < |parts| && IsAllDigits(parts[r.value])
    ensures r.Some? ==> forall k | from <= k < r.value :: !IsAllDigits(parts[k])
    ensures r.None? ==> forall k | from <= k < |parts| :: !IsAllDigits(parts[k])
    decreases |parts| - from
  {
    if from == |parts| then None
    else if IsAllDigits(parts[from]) then Some(from)
    else FirstDigitsFrom(parts, from + 1)
  }

  /** The segment that opens a topic path. */
  const TopicMarker: JsString := Lit("t")

  /** The index of the topic id among the segments: the first all-digit
      segment after the first "t". There is one exactly when some "t" is
      followed, somewhere later, by an all-digit segment. */
  function TopicIdIndex(parts: seq<JsString>): (r: Option<nat>)
    ensures r.Some? <==> exists t, k | 0 <= t < k < |parts| :: parts[t] == TopicMarker && IsAllDigits(parts[k])
    ensures r.Some? ==> exists t | 0 <= t < r.value < |parts| ::
      && parts[t] == TopicMarker
      && (forall j | 0 <= j < t :: parts[j] != TopicMarker)
      && IsAllDigits(parts[r.value])
      && (forall j | t < j < r.value :: !IsAllDigits(parts[j]))
  {
    match IndexOfPart(parts, TopicMarker)
    case None => None
    case Some(t) =>
      var found := FirstDigitsFrom(parts, t + 1);
      assert found.None? ==> forall t', k | 0 <= t' < k < |parts| && parts[t'] == TopicMarker :: !IsAllDigits(parts[k]) by {
        if found.None? {
          forall t', k | 0 <= t' < k < |parts| && parts[t'] == TopicMarker
            ensures !IsAllDigits(parts[k])
          {
            assert t <= t';
          }
        }
      }
      found
  }

  /** The scan over an already parsed URL: the base URL is the origin and
      the topic id is the segment `TopicIdIndex` picks. */
  function ParseTopicPath(origin: JsString, pathname: JsString): (r: Option<UrlInfo>)
    ensures r.Some? <==> TopicIdIndex(PathParts(pathname)).Some?
    ensures r.Some? ==> && r.value.baseUrl == origin
                        && r.value.topicId == PathParts(pathname)[TopicIdIndex(PathParts(pathname)).value]
                        && IsAllDigits(r.value.topicId)
  {
    var parts := PathParts(pathname);
    match TopicIdIndex(parts)
    case None => None
    case Some(k) => Some(UrlInfo(origin, parts[k]))
  }

  /** The path "/t/<slug>/<id>". */
  function TopicPath(slug: JsString, id: JsString): JsString {
    [Slash] + TopicMarker + [Slash] + slug + [Slash] + id
  }

  /** A path "/t/<slug>/<id>", with a slash-free slug that is not all
      digits and an all-digit id, gives that id. */
  lemma TopicPathOf(origin: JsString, slug: JsString, id: JsString)
    requires |slug| > 0 && Slash !in slug && !IsAllDigits(slug)
    requires IsAllDigits(id)
    ensures ParseTopicPath(origin, TopicPath(slug, id)) == Some(UrlInfo(origin, id))
  {
    var parts: seq<JsString> := [TopicMarker, slug, id];
    TopicPathParts(slug, id);
    TopicIdIndexOf(slug, id);
    assert parts[2] == id;
  }

  lemma TopicPathParts(slug: JsString, id: JsString)
    requires |slug| > 0 && Slash !in slug && IsAllDigits(id)
    ensures PathParts(TopicPath(slug, id)) == [TopicMarker, slug, id]
  {
    var parts: seq<JsString> := [TopicMarker, slug, id];
    var split := Split(TopicPath(slug, id), Slash);
    TopicPathSplit(slug, id);
    assert split == [[]] + parts;
    assert split[1..] == parts;
    NonEmptyKeeps(parts);
    assert NonEmpty(split) == NonEmpty(split[1..]);
  }

  /** The segments of "/t/<slug>/<id>" before the empty ones are dropped. */
  lemma TopicPathSplit(slug: JsString, id: JsString)
    requires Slash !in slug && IsAllDigits(id)
    ensures Split(TopicPath(slug, id), Slash) == [[]] + [TopicMarker, slug, id]
  {
    assert Slash !in id by {
      forall k | 0 <= k < |id| ensures id[k] != Slash {
        assert IsAsciiDigit(id[k]);
      }
    }
    assert Slash !in TopicMarker;
    var third := slug + [Slash] + id;
    var second := TopicMarker + [Slash] + third;
    assert TopicPath(slug, id) == [] + [Slash] + second;
    assert Split(id, Slash) == [id];
    SplitStep(slug, Slash, id);
    SplitStep(TopicMarker, Slash, third);
    SplitStep([], Slash, second);
    assert [slug] + [id] == [slug, id];
    assert [TopicMarker] + [slug, id] == [TopicMarker, slug, id];
  }

  lemma TopicIdIndexOf(slug: JsString, id: JsString)
    requires !IsAllDigits(slug) && IsAllDigits(id)
    ensures TopicIdIndex([TopicMarker, slug, id]) == Some(2)
  {
    var parts: seq<JsString> := [TopicMarker, slug, id];
    assert IndexOfPart(parts, TopicMarker) == Some(0);
    assert FirstDigitsFrom(parts, 2) == Some(2);
    assert FirstDigitsFrom(parts, 1) == Some(2);
  }

  /** The example of the source's tests: a path "/t/topic-name/12345" gives
      the topic id "12345". */
  lemma TopicPathExample(origin: JsString)
    ensures ParseTopicPath(origin, Lit("/t/topic-name/12345")) == Some(UrlInfo(origin, Lit("12345")))
  {
    var slug := Lit("topic-name");
    var id := Lit("12345");
    assert Lit("/t/topic-name/12345") == TopicPath(slug, id);
    assert !IsAllDigits(slug) by {
      assert !IsAsciiDigit(slug[0]);
    }
    assert Slash !in slug;
    assert IsAllDigits(id) by {
      forall k | 0 <= k < |id| ensures IsAsciiDigit(id[k]) {
      }
    }
    TopicPathOf(origin, slug, id);
  }

  /** Texts that are all non-empty pass the filter unchanged. */
  lemma {:induction false} NonEmptyKeeps(parts: seq<JsString>)
    requires forall k | 0 <= k < |parts| :: |parts[k]| > 0
    ensures NonEmpty(parts) == parts
    decreases |parts|
  {
    if |parts| > 0 {
      var rest := parts[1..];
      assert forall k | 0 <= k < |rest| :: |rest[k]| > 0 by {
        forall k | 0 <= k < |rest| ensures |rest[k]| > 0 {
          assert rest[k] == parts[k + 1];
        }
      }
      NonEmptyKeeps(rest);
      assert [parts[0]] + rest == parts;
    }
  }
}
