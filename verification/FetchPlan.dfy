/**
  The planning part of `fetchAllPosts`: which post ids still have to be
  fetched, how they are cut into requests of at most 50 ids, the query of
  each request, and how the answers are appended to the posts already at
  hand. The network call is a parameter; a failed request contributes no
  posts, as the source only logs a warning then.
 */
module FetchPlan {
  import opened Wrappers
  import opened JsText
  import opened Types

  /** `chunkSize`. */
  const ChunkSize := 50

  /** The ids of some posts, in order. */
  function Ids(posts: seq<Post>): (r: seq<int>)
    ensures |r| == |posts|
    ensures forall k | 0 <= k < |posts| :: r[k] == posts[k].id
  {
    seq(|posts|, k requires 0 <= k < |posts| => posts[k].id)
  }

  /** `stream.filter((id) => !fetchedPostIds.has(id))`: the ids of the
      stream no initial post carries, in stream order, repeats included. */
  function RemainingIds(initial: seq<Post>, stream: seq<int>): (r: seq<int>)
    ensures |r| <= |stream|
    ensures forall x | x in r :: x in stream && x !in Ids(initial)
    ensures forall x | x in stream && x !in Ids(initial) :: x in r
  {
    if |stream| == 0 then []
    else (if stream[0] !in Ids(initial) then [stream[0]] else []) + RemainingIds(initial, stream[1..])
  }

  /** Each id occurs in the result as often as in the stream, unless an
      initial post carries it, in which case it does not occur at all. */
  lemma {:induction false} RemainingIdsCount(initial: seq<Post>, stream: seq<int>)
    ensures forall x :: multiset(RemainingIds(initial, stream))[x]
                        == (if x in Ids(initial) then 0 else multiset(stream)[x])
    decreases |stream|
  {
    if |stream| > 0 {
      RemainingIdsCount(initial, stream[1..]);
      assert stream == [stream[0]] + stream[1..];
    }
  }

  /** The filter keeps stream order: filtering two consecutive pieces of the
      stream gives the two filtered pieces one after the other. */
  lemma {:induction false} RemainingIdsAppend(initial: seq<Post>, a: seq<int>, b: seq<int>)
    ensures RemainingIds(initial, a + b) == RemainingIds(initial, a) + RemainingIds(initial, b)
    decreases |a|
  {
    if |a| == 0 {
      assert a + b == b;
    } else {
      assert (a + b)[1..] == a[1..] + b;
      RemainingIdsAppend(initial, a[1..], b);
      var head := if a[0] !in Ids(initial) then [a[0]] else [];
      AppendAssoc(head, RemainingIds(initial, a[1..]), RemainingIds(initial, b));
    }
  }

  /** The concatenation of some sequences. */
  function Flatten<T>(parts: seq<seq<T>>): seq<T> {
    if |parts| == 0 then [] else parts[0] + Flatten(parts[1..])
  }

  lemma {:induction false} FlattenSnoc<T>(parts: seq<seq<T>>, last: seq<T>)
    ensures Flatten(parts + [last]) == Flatten(parts) + last
    decreases |parts|
  {
    if |parts| == 0 {
      assert parts + [last] == [last];
      assert [last][1..] == [];
    } else {
      assert (parts + [last])[1..] == parts[1..] + [last];
      FlattenSnoc(parts[1..], last);
      AppendAssoc(parts[0], Flatten(parts[1..]), last);
    }
  }

  /** The cut into requests: consecutive pieces of 50 ids, the last one
      possibly shorter. Together they are the ids, in order. */
  predicate IsChunking(ids: seq<int>, chunks: seq<seq<int>>) {
    && Flatten(chunks) == ids
    && (forall k | 0 <= k < |chunks| :: 1 <= |chunks[k]| <= ChunkSize)
    && (forall k | 0 <= k < |chunks| - 1 :: |chunks[k]| == ChunkSize)
  }

  /** The loop `for (let i = 0; i < ids.length; i += chunkSize)` with
      `ids.slice(i, i + chunkSize)`: the slice stops at the end of the ids. */
  method PlanChunks(ids: seq<int>) returns (chunks: seq<seq<int>>)
    ensures IsChunking(ids, chunks)
    ensures |chunks| == (|ids| + ChunkSize - 1) / ChunkSize
  {
    chunks := [];
    var i := 0;
    while i < |ids|
      invariant 0 <= i <= |ids| + ChunkSize
      invariant i == ChunkSize * |chunks|
      invariant i < |ids| ==> Flatten(chunks) == ids[..i]
      invariant i >= |ids| ==> Flatten(chunks) == ids
      invariant forall k | 0 <= k < |chunks| :: 1 <= |chunks[k]| <= ChunkSize
      invariant forall k | 0 <= k < |chunks| - 1 :: |chunks[k]| == ChunkSize
      invariant |chunks| > 0 && i < |ids| ==> |chunks[|chunks| - 1]| == ChunkSize
      invariant |chunks| > 0 ==> i - ChunkSize < |ids|
      decreases |ids| - i
    {
      var end := if i + ChunkSize <= |ids| then i + ChunkSize else |ids|;
      var chunk := ids[i..end];
      FlattenSnoc(chunks, chunk);
      assert ids[..i] + chunk == ids[..end];
      chunks := chunks + [chunk];
      i := i + ChunkSize;
    }
    DivideExactly(|ids| + ChunkSize - 1, |chunks|);
  }

  lemma DivideExactly(m: int, c: int)
    requires ChunkSize * c <= m < ChunkSize * c + ChunkSize
    ensures m / ChunkSize == c
  {
  }

  /** The request query `post_ids[]=<id>&post_ids[]=<id>...`. */
  function PostQuery(chunk: seq<int>): JsString {
    Join(Lit("&"), QueryItems(chunk))
  }

  function QueryItems(chunk: seq<int>): (items: seq<JsString>)
    ensures |items| == |chunk|
    ensures forall k | 0 <= k < |chunk| :: items[k] == Lit("post_ids[]=") + NumberToString(chunk[k])
  {
    seq(|chunk|, k requires 0 <= k < |chunk| => Lit("post_ids[]=") + NumberToString(chunk[k]))
  }

  /** `${baseUrl}/t/${topicId}/posts.json?${postQuery}`. */
  function PostsUrl(baseUrl: JsString, topicId: JsString, chunk: seq<int>): JsString {
    baseUrl + Lit("/t/") + topicId + Lit("/posts.json?") + PostQuery(chunk)
  }

  /** The query names each id of the chunk once, in order: splitting it at
      "&" gives back one `post_ids[]=<id>` item per id. */
  lemma QueryListsChunk(chunk: seq<int>)
    requires |chunk| > 0
    ensures Split(PostQuery(chunk), '&' as int) == QueryItems(chunk)
  {
    var items := QueryItems(chunk);
    forall k | 0 <= k < |items|
      ensures '&' as int !in items[k]
    {
      NumberHasNoAmpersand(chunk[k]);
    }
    assert Lit("&") == ['&' as int];
    SplitJoin(items, '&' as int);
  }

  lemma NumberHasNoAmpersand(n: int)
    ensures '&' as int !in Lit("post_ids[]=") + NumberToString(n)
  {
    var d := if n < 0 then -n else n;
    assert forall k | 0 <= k < |Digits(d)| :: Digits(d)[k] != '&' as int;
  }

  /** What one request contributes: the posts its URL returned, or nothing
      when it failed. */
  function Answer(fetch: JsString -> Option<seq<Post>>, baseUrl: JsString, topicId: JsString,
                  chunk: seq<int>): seq<Post> {
    fetch(PostsUrl(baseUrl, topicId, chunk)).GetOr([])
  }

  function Answers(fetch: JsString -> Option<seq<Post>>, baseUrl: JsString, topicId: JsString,
                   chunks: seq<seq<int>>): (r: seq<seq<Post>>)
    ensures |r| == |chunks|
    ensures forall k | 0 <= k < |chunks| :: r[k] == Answer(fetch, baseUrl, topicId, chunks[k])
  {
    seq(|chunks|, k requires 0 <= k < |chunks| => Answer(fetch, baseUrl, topicId, chunks[k]))
  }

  /** `fetchAllPosts`: the initial posts, then the answers to the requests
      in request order. `fetch` stands for the HTTP GET of one request URL. */
  method FetchAllPosts(baseUrl: JsString, topicId: JsString, initial: seq<Post>, stream: seq<int>,
                       fetch: JsString -> Option<seq<Post>>)
    returns (all: seq<Post>, chunks: seq<seq<int>>)
    ensures IsChunking(RemainingIds(initial, stream), chunks)
    ensures all == initial + Flatten(Answers(fetch, baseUrl, topicId, chunks))
  {
    var remaining := RemainingIds(initial, stream);
    all := initial;
    chunks := PlanChunks(remaining);
    if |remaining| == 0 {
      assert chunks == [];
      return;
    }
    all := AppendAnswers(initial, baseUrl, topicId, chunks, fetch);
  }

  /** The request loop: each chunk's answer is pushed onto the posts, in
      request order. */
  method AppendAnswers(initial: seq<Post>, baseUrl: JsString, topicId: JsString, chunks: seq<seq<int>>,
                       fetch: JsString -> Option<seq<Post>>)
    returns (all: seq<Post>)
    ensures all == initial + Flatten(Answers(fetch, baseUrl, topicId, chunks))
  {
    all := initial;
    var k := 0;
    while k < |chunks|
      invariant 0 <= k <= |chunks|
      invariant all == initial + Flatten(Answers(fetch, baseUrl, topicId, chunks[..k]))
    {
      AnswersStep(fetch, baseUrl, topicId, chunks, k);
      all := all + Answer(fetch, baseUrl, topicId, chunks[k]);
      k := k + 1;
    }
    assert chunks[..k] == chunks;
  }

  /** One more request appends its answer to the posts gathered so far. */
  lemma AnswersStep(fetch: JsString -> Option<seq<Post>>, baseUrl: JsString, topicId: JsString,
                    chunks: seq<seq<int>>, k: int)
    requires 0 <= k < |chunks|
    ensures Flatten(Answers(fetch, baseUrl, topicId, chunks[..k + 1]))
      == Flatten(Answers(fetch, baseUrl, topicId, chunks[..k])) + Answer(fetch, baseUrl, topicId, chunks[k])
  {
    var before := Answers(fetch, baseUrl, topicId, chunks[..k]);
    var answer := Answer(fetch, baseUrl, topicId, chunks[k]);
    assert Answers(fetch, baseUrl, topicId, chunks[..k + 1]) == before + [answer];
    FlattenSnoc(before, answer);
  }

  /** The request to `url` succeeded and returned exactly the posts `chunk`
      asked for. */
  predicate Answered(fetch: JsString -> Option<seq<Post>>, url: JsString, chunk: seq<int>) {
    fetch(url).Some? && Ids(fetch(url).value) == chunk
  }

  /** When every request succeeds and answers with exactly the posts it
      asked for, the answers carry the requested ids, in request order. */
  lemma {:induction false} CompleteFetch(fetch: JsString -> Option<seq<Post>>, baseUrl: JsString, topicId: JsString,
                                         chunks: seq<seq<int>>)
    requires forall k | 0 <= k < |chunks| :: Answered(fetch, PostsUrl(baseUrl, topicId, chunks[k]), chunks[k])
    ensures Ids(Flatten(Answers(fetch, baseUrl, topicId, chunks))) == Flatten(chunks)
    decreases |chunks|
  {
    if |chunks| > 0 {
      var answers := Answers(fetch, baseUrl, topicId, chunks);
      assert answers[1..] == Answers(fetch, baseUrl, topicId, chunks[1..]);
      CompleteFetch(fetch, baseUrl, topicId, chunks[1..]);
      IdsAppend(answers[0], Flatten(answers[1..]));
    }
  }

  lemma IdsAppend(a: seq<Post>, b: seq<Post>)
    ensures Ids(a + b) == Ids(a) + Ids(b)
  {
  }

  /** Under the same condition, `fetchAllPosts` returns the initial posts'
      ids followed by the remaining ids in stream order, so every id of the
      stream is present. */
  lemma StreamCovered(initial: seq<Post>, stream: seq<int>, all: seq<Post>, chunks: seq<seq<int>>,
                      baseUrl: JsString, topicId: JsString, fetch: JsString -> Option<seq<Post>>)
    requires IsChunking(RemainingIds(initial, stream), chunks)
    requires all == initial + Flatten(Answers(fetch, baseUrl, topicId, chunks))
    requires forall k | 0 <= k < |chunks| :: Answered(fetch, PostsUrl(baseUrl, topicId, chunks[k]), chunks[k])
    ensures Ids(all) == Ids(initial) + RemainingIds(initial, stream)
    ensures forall x | x in stream :: x in Ids(all)
  {
    CompleteFetch(fetch, baseUrl, topicId, chunks);
    IdsAppend(initial, Flatten(Answers(fetch, baseUrl, topicId, chunks)));
  }
}
