/**
  `buildConversationTree`: a flat list of posts becomes a post-number lookup,
  a map from a post number to the posts that reply to it, and the list of
  top-level comments. Lists are sorted by post number with a stable sort, as
  `Array.prototype.sort` is.
 */
module ConversationTree {
  import opened Wrappers
  import opened JsText
  import opened Types

  /** Where the builder puts a post: a reply goes under its target, a
      non-reply other than #1 is a top-level comment, and #1 without a reply
      target is the lead post, kept out of both. */
  datatype Route = Lead | TopLevel | ChildOf(parent: int)

  function RouteOf(p: Post): Route {
    if p.IsReply() then ChildOf(p.replyTo.value)
    else if p.postNumber != 1 then TopLevel
    else Lead
  }

  /** The posts routed to `r`, in input order: every such post as many times
      as it occurs in the input, and nothing else. */
  function RoutedTo(posts: seq<Post>, r: Route): (s: seq<Post>)
    ensures forall p | p in s :: RouteOf(p) == r
    ensures forall p | RouteOf(p) == r :: multiset(s)[p] == multiset(posts)[p]
    ensures forall p | p in s :: p in posts
  {
    if |posts| == 0 then []
    else
      assert posts == [posts[0]] + posts[1..];
      (if RouteOf(posts[0]) == r then [posts[0]] else []) + RoutedTo(posts[1..], r)
  }

  /** The post numbers some reply points at, whether or not a post with that
      number is present. */
  function ReplyTargets(posts: seq<Post>): set<int> {
    set p | p in posts && p.IsReply() :: p.replyTo.value
  }

  predicate SortedByNumber(s: seq<Post>) {
    forall i, j | 0 <= i < j < |s| :: s[i].postNumber <= s[j].postNumber
  }

  /** Inserts `p` after every post of the sorted `s` whose number is at most
      `p`'s, which keeps equal numbers in arrival order. */
  function Insert(s: seq<Post>, p: Post): (r: seq<Post>)
    ensures multiset(r) == multiset(s) + multiset{p}
    ensures |r| == |s| + 1
    ensures forall q | q in r :: q in s || q == p
  {
    if |s| == 0 then [p]
    else if p.postNumber < s[0].postNumber then [p] + s
    else
      assert s == [s[0]] + s[1..];
      [s[0]] + Insert(s[1..], p)
  }

  lemma {:induction false} InsertSorted(s: seq<Post>, p: Post)
    requires SortedByNumber(s)
    ensures SortedByNumber(Insert(s, p))
    decreases |s|
  {
    if |s| > 0 && p.postNumber >= s[0].postNumber {
      var rest := Insert(s[1..], p);
      InsertSorted(s[1..], p);
      forall k | 0 <= k < |rest|
        ensures s[0].postNumber <= rest[k].postNumber
      {
        assert rest[k] in rest;
        if rest[k] != p {
          var m :| 0 <= m < |s[1..]| && s[1..][m] == rest[k];
          assert s[m + 1] == rest[k];
        }
      }
      var r := [s[0]] + rest;
      assert Insert(s, p) == r;
      forall i, j | 0 <= i < j < |r|
        ensures r[i].postNumber <= r[j].postNumber
      {
        if i == 0 {
          assert r[j] == rest[j - 1];
        } else {
          assert r[i] == rest[i - 1] && r[j] == rest[j - 1];
        }
      }
    }
  }

  /** The stable ascending sort by post number (`(a, b) => a.post_number -
      b.post_number`). */
  function SortByNumber(s: seq<Post>): (r: seq<Post>)
    ensures SortedByNumber(r)
    ensures multiset(r) == multiset(s)
    ensures |r| == |s|
  {
    if |s| == 0 then []
    else
      assert s == s[..|s| - 1] + [s[|s| - 1]];
      InsertSorted(SortByNumber(s[..|s| - 1]), s[|s| - 1]);
      Insert(SortByNumber(s[..|s| - 1]), s[|s| - 1])
  }

  /** The posts of `s` whose number is `n`, in order. */
  function WithNumber(s: seq<Post>, n: int): seq<Post> {
    if |s| == 0 then []
    else (if s[0].postNumber == n then [s[0]] else []) + WithNumber(s[1..], n)
  }

  lemma {:induction false} WithNumberConcat(a: seq<Post>, b: seq<Post>, n: int)
    ensures WithNumber(a + b, n) == WithNumber(a, n) + WithNumber(b, n)
    decreases |a|
  {
    if |a| == 0 {
      assert a + b == b;
    } else {
      var head := if a[0].postNumber == n then [a[0]] else [];
      assert (a + b)[0] == a[0];
      assert (a + b)[1..] == a[1..] + b;
      WithNumberConcat(a[1..], b, n);
      calc {
        WithNumber(a + b, n);
        head + WithNumber(a[1..] + b, n);
        head + (WithNumber(a[1..], n) + WithNumber(b, n));
        (head + WithNumber(a[1..], n)) + WithNumber(b, n);
      }
    }
  }

  lemma {:induction false} WithNumberNone(s: seq<Post>, n: int)
    requires forall i | 0 <= i < |s| :: s[i].postNumber != n
    ensures WithNumber(s, n) == []
    decreases |s|
  {
    if |s| > 0 {
      WithNumberNone(s[1..], n);
    }
  }

  lemma {:induction false} InsertStable(s: seq<Post>, p: Post, n: int)
    requires SortedByNumber(s)
    ensures WithNumber(Insert(s, p), n) == WithNumber(s, n) + (if p.postNumber == n then [p] else [])
    decreases |s|
  {
    var tail := if p.postNumber == n then [p] else [];
    assert WithNumber([p], n) == tail by {
      assert [p][1..] == [];
    }
    if |s| == 0 {
      assert Insert(s, p) == [p];
      assert WithNumber(s, n) == [];
    } else if p.postNumber < s[0].postNumber {
      if p.postNumber == n {
        forall i | 0 <= i < |s|
          ensures s[i].postNumber != n
        {
          if i > 0 {
            assert s[0].postNumber <= s[i].postNumber;
          }
        }
        WithNumberNone(s, n);
      }
      assert Insert(s, p) == [p] + s;
      WithNumberConcat([p], s, n);
    } else {
      var head := if s[0].postNumber == n then [s[0]] else [];
      assert WithNumber([s[0]], n) == head by {
        assert [s[0]][1..] == [];
      }
      var sorted1 := s[1..];
      assert SortedByNumber(sorted1) by {
        forall i, j | 0 <= i < j < |sorted1|
          ensures sorted1[i].postNumber <= sorted1[j].postNumber
        {
          assert sorted1[i] == s[i + 1] && sorted1[j] == s[j + 1];
        }
      }
      assert s == [s[0]] + sorted1;
      InsertStable(sorted1, p, n);
      assert Insert(s, p) == [s[0]] + Insert(sorted1, p);
      WithNumberConcat([s[0]], Insert(sorted1, p), n);
      WithNumberConcat([s[0]], sorted1, n);
      AppendAssoc(head, WithNumber(sorted1, n), tail);
    }
  }

  /** The sort is stable: posts sharing a number keep their input order. */
  lemma {:induction false} SortByNumberStable(s: seq<Post>, n: int)
    ensures WithNumber(SortByNumber(s), n) == WithNumber(s, n)
    decreases |s|
  {
    if |s| > 0 {
      var init := s[..|s| - 1];
      var last := s[|s| - 1];
      var sortedInit := SortByNumber(init);
      var tail := if last.postNumber == n then [last] else [];
      assert s == init + [last];
      assert SortByNumber(s) == Insert(sortedInit, last);
      SortByNumberStable(init, n);
      InsertStable(sortedInit, last, n);
      WithNumberConcat(init, [last], n);
      assert WithNumber([last], n) == tail by {
        assert [last][1..] == [];
      }
    }
  }

  /** `posts[i]` is the last post numbered `n`. */
  predicate LastWithNumber(posts: seq<Post>, i: int, n: int) {
    && 0 <= i < |posts|
    && posts[i].postNumber == n
    && forall j | i < j < |posts| :: posts[j].postNumber != n
  }

  /** `postMap`: one entry per post number present; when numbers repeat, the
      later post overwrites the earlier one. */
  function PostMap(posts: seq<Post>): (m: map<int, Post>)
    ensures m.Keys == set p | p in posts :: p.postNumber
    ensures forall n | n in m :: exists i | LastWithNumber(posts, i, n) :: posts[i] == m[n]
  {
    if |posts| == 0 then map[]
    else
      var init := posts[..|posts| - 1];
      var last := posts[|posts| - 1];
      assert posts == init + [last];
      var m := PostMap(init)[last.postNumber := last];
      assert forall n | n in m && n != last.postNumber :: exists i | LastWithNumber(posts, i, n) :: posts[i] == m[n]
      by {
        forall n | n in m && n != last.postNumber
          ensures exists i | LastWithNumber(posts, i, n) :: posts[i] == m[n]
        {
          var i :| LastWithNumber(init, i, n) && init[i] == m[n];
          LastKept(init, last, i, n);
        }
      }
      assert LastWithNumber(posts, |posts| - 1, last.postNumber);
      m
  }

  /** Appending a post with another number keeps the last post numbered `n`. */
  lemma LastKept(init: seq<Post>, last: Post, i: int, n: int)
    requires LastWithNumber(init, i, n) && last.postNumber != n
    ensures LastWithNumber(init + [last], i, n) && (init + [last])[i] == init[i]
  {
    var posts := init + [last];
    forall j | i < j < |posts|
      ensures posts[j].postNumber != n
    {
      if j < |init| {
        assert posts[j] == init[j];
      }
    }
  }

  /** `buildConversationTree`. */
  function BuildConversationTree(posts: seq<Post>): (t: ConversationTree)
    ensures t.postMap.Keys == set p | p in posts :: p.postNumber
    ensures t.childrenMap.Keys == ReplyTargets(posts)
    ensures forall k | k in t.childrenMap ::
      && SortedByNumber(t.childrenMap[k])
      && multiset(t.childrenMap[k]) == multiset(RoutedTo(posts, ChildOf(k)))
    ensures SortedByNumber(t.topLevelPosts)
    ensures multiset(t.topLevelPosts) == multiset(RoutedTo(posts, TopLevel))
  {
    ConversationTree(
      PostMap(posts),
      map k | k in ReplyTargets(posts) :: SortByNumber(RoutedTo(posts, ChildOf(k))),
      SortByNumber(RoutedTo(posts, TopLevel)))
  }

  /** Each occurrence of a post lands in exactly the place its route names:
      a reply in its target's list (created even when no post has that
      number), a top-level comment in `topLevelPosts`, and the lead post in
      neither. */
  lemma PlacedOnce(posts: seq<Post>, p: Post)
    requires p in posts
    ensures var t := BuildConversationTree(posts);
      match RouteOf(p)
      case TopLevel =>
        && multiset(t.topLevelPosts)[p] == multiset(posts)[p]
        && forall k | k in t.childrenMap :: p !in t.childrenMap[k]
      case ChildOf(parent) =>
        && parent in t.childrenMap
        && multiset(t.childrenMap[parent])[p] == multiset(posts)[p]
        && p !in t.topLevelPosts
        && forall k | k in t.childrenMap && k != parent :: p !in t.childrenMap[k]
      case Lead =>
        && p !in t.topLevelPosts
        && forall k | k in t.childrenMap :: p !in t.childrenMap[k]
  {
    var t := BuildConversationTree(posts);
    var cm := t.childrenMap;
    forall k | k in cm && p in cm[k]
      ensures RouteOf(p) == ChildOf(k)
    {
      assert p in multiset(cm[k]);
      RoutedToOnly(posts, ChildOf(k), p);
    }
    if p in t.topLevelPosts {
      assert p in multiset(t.topLevelPosts);
      RoutedToOnly(posts, TopLevel, p);
    }
    if RouteOf(p).ChildOf? {
      assert RouteOf(p).parent in ReplyTargets(posts);
    }
  }

  lemma RoutedToOnly(posts: seq<Post>, r: Route, p: Post)
    requires p in multiset(RoutedTo(posts, r))
    ensures RouteOf(p) == r
  {
    assert p in RoutedTo(posts, r);
  }
}
