/**
  The file-name part of `getSafeOutputPath`: the four slug-cleaning steps and
  the `<topicId>-<slug>.md` name. The regexes have no `u` flag, so each step
  works on UTF-16 code units; with the `i` flag but without `u`, only ASCII
  letters fold case, so the class `[a-z0-9\-_]` with `i` keeps exactly ASCII
  letters, digits, `-` and `_`.
 */
module OutputPath {
  import opened JsText

  const Dot: Unit := '.' as int
  const Underscore: Unit := '_' as int
  const Hyphen: Unit := '-' as int

  /** The longest slug kept (`substring(0, 200)`). */
  const MaxSlugLength := 200

  predicate IsSlugSafe(u: Unit) {
    IsAsciiLetter(u) || IsAsciiDigit(u) || u == Hyphen || u == Underscore
  }

  /** `.replace(/[^a-z0-9\-_]/gi, "_")`: every unit outside the class becomes
      an underscore. */
  function ReplaceUnsafe(s: JsString): (r: JsString)
    ensures |r| == |s|
  {
    seq(|s|, i requires 0 <= i < |s| => if IsSlugSafe(s[i]) then s[i] else Underscore)
  }

  /** Two dots in a row start at `k`. */
  predicate DotPairAt(s: JsString, k: int)
    requires 0 <= k < |s| - 1
  {
    s[k] == Dot && s[k + 1] == Dot
  }

  /** `.replace(/\.{2,}/g, "_")`: scanning from the left, each run of two or
      more dots becomes one underscore; a single dot stays. No two dots are
      adjacent afterwards. */
  function ReplaceDotRuns(s: JsString): JsString
    decreases |s|
  {
    if |s| >= 2 && s[0] == Dot && s[1] == Dot then [Underscore] + ReplaceDotRuns(DropLeading(s, Dot))
    else if |s| == 0 then []
    else [s[0]] + ReplaceDotRuns(s[1..])
  }

  /** After the run replacement no two dots are adjacent, and a leading dot
      was a lone dot of the input. */
  lemma {:induction false} NoDotPairLeft(s: JsString)
    ensures var r := ReplaceDotRuns(s);
      && |r| <= |s|
      && (forall k | 0 <= k < |r| - 1 :: !DotPairAt(r, k))
      && (|r| > 0 && r[0] == Dot ==> s[0] == Dot && (|s| == 1 || s[1] != Dot))
    decreases |s|
  {
    if |s| >= 2 && s[0] == Dot && s[1] == Dot {
      var t := DropLeading(s, Dot);
      NoDotPairLeft(t);
      var r := ReplaceDotRuns(s);
      assert r[1..] == ReplaceDotRuns(t);
      forall k | 0 <= k < |r| - 1 ensures !DotPairAt(r, k) {
        if k > 0 {
          assert r[k] == r[1..][k - 1] && r[k + 1] == r[1..][k];
          assert !DotPairAt(r[1..], k - 1);
        }
      }
    } else if |s| > 0 {
      var t := s[1..];
      NoDotPairLeft(t);
      var r := ReplaceDotRuns(s);
      assert r[1..] == ReplaceDotRuns(t);
      forall k | 0 <= k < |r| - 1 ensures !DotPairAt(r, k) {
        if k > 0 {
          assert r[k] == r[1..][k - 1] && r[k + 1] == r[1..][k];
          assert !DotPairAt(r[1..], k - 1);
        }
      }
    }
  }

  /** `.replace(/^\.+|\.+$/g, "")`: the leading and the trailing dots go. */
  function StripDots(s: JsString): JsString {
    DropTrailing(DropLeading(s, Dot), Dot)
  }

  /** `r` is the slice of `s` starting at `i`, with only dots before and
      after it. */
  predicate DotsAround(s: JsString, i: int, r: JsString) {
    && 0 <= i <= |s| - |r|
    && r == s[i..i + |r|]
    && (forall k | 0 <= k < i :: s[k] == Dot)
    && (forall k | i + |r| <= k < |s| :: s[k] == Dot)
  }

  /** What the stripping leaves neither starts nor ends with a dot, and only
      dots were removed around it. */
  lemma StripDotsEnds(s: JsString)
    ensures var r := StripDots(s);
      && (|r| > 0 ==> r[0] != Dot && r[|r| - 1] != Dot)
      && exists i :: DotsAround(s, i, r)
  {
    var t := DropLeading(s, Dot);
    var i := |s| - |t|;
    DropLeadingDropsOnly(s, Dot);
    DropTrailingSlice(s, i);
    assert DotsAround(s, i, StripDots(s));
  }

  /** Dropping the trailing dots of a suffix `s[i..]` leaves a slice of `s`
      starting at `i`, followed in `s` by dots only. */
  lemma DropTrailingSlice(s: JsString, i: int)
    requires 0 <= i <= |s|
    ensures var r := DropTrailing(s[i..], Dot);
      && r == s[i..i + |r|]
      && (|r| > 0 ==> r[0] == s[i])
      && (forall k | i + |r| <= k < |s| :: s[k] == Dot)
  {
    var t := s[i..];
    var r := DropTrailing(t, Dot);
    DropTrailingDropsOnly(t, Dot);
    assert r == t[..|r|];
    forall k | i + |r| <= k < |s|
      ensures s[k] == Dot
    {
      assert s[k] == t[k - i];
    }
  }

  /** `n` dots. */
  function Dots(n: nat): (r: JsString)
    ensures |r| == n && forall k | 0 <= k < n :: r[k] == Dot
  {
    seq(n, _ => Dot)
  }

  /** `.substring(0, n)` for a non-negative `n`. */
  function Take(s: JsString, n: nat): (r: JsString)
    ensures |r| == if |s| <= n then |s| else n
    ensures r == s[..|r|]
  {
    if |s| <= n then s else s[..n]
  }

  /** The slug cleaning of `getSafeOutputPath`. Position by position the
      result is the slug's own unit when that unit is safe and an underscore
      otherwise, cut at 200 units: the two dot steps never change anything,
      because the first step leaves no dot behind. */
  function SanitizeSlug(slug: JsString): (r: JsString)
    ensures |r| == if |slug| <= MaxSlugLength then |slug| else MaxSlugLength
    ensures forall i | 0 <= i < |r| :: IsSlugSafe(r[i])
    ensures forall i | 0 <= i < |r| :: r[i] == if IsSlugSafe(slug[i]) then slug[i] else Underscore
  {
    var replaced := ReplaceUnsafe(slug);
    DotStepsNoop(replaced);
    var cleaned := StripDots(ReplaceDotRuns(replaced));
    assert cleaned == replaced;
    Take(cleaned, MaxSlugLength)
  }

  /** On a text without dots the three dot steps are the identity. */
  lemma DotStepsNoop(s: JsString)
    requires Dot !in s
    ensures ReplaceDotRuns(s) == s
    ensures StripDots(s) == s
  {
    ReplaceDotRunsNoop(s);
    assert |s| > 0 ==> s[0] != Dot && s[|s| - 1] != Dot;
  }

  lemma {:induction false} ReplaceDotRunsNoop(s: JsString)
    requires Dot !in s
    ensures ReplaceDotRuns(s) == s
    decreases |s|
  {
    if |s| > 0 {
      assert s[0] != Dot;
      assert Dot !in s[1..] by {
        forall k | 0 <= k < |s| - 1
          ensures s[1..][k] != Dot
        {
          assert s[1..][k] == s[k + 1];
        }
      }
      ReplaceDotRunsNoop(s[1..]);
      assert s == [s[0]] + s[1..];
    }
  }

  /** Cleaning is idempotent: a cleaned slug is its own cleaning. */
  lemma SanitizeSlugIdempotent(slug: JsString)
    ensures SanitizeSlug(SanitizeSlug(slug)) == SanitizeSlug(slug)
  {
  }

  /** A dot-free text is copied through by the run replacement. */
  lemma {:induction false} ReplaceDotRunsConcat(a: JsString, b: JsString)
    requires Dot !in a
    ensures ReplaceDotRuns(a + b) == a + ReplaceDotRuns(b)
    decreases |a|
  {
    if |a| > 0 {
      assert Dot !in a[1..] by {
        forall k | 0 <= k < |a| - 1 ensures a[1..][k] != Dot {
          assert a[1..][k] == a[k + 1];
        }
      }
      ReplaceDotRunsConcat(a[1..], b);
      assert (a + b)[0] == a[0] && (a + b)[1..] == a[1..] + b;
      assert a == [a[0]] + a[1..];
    } else {
      assert a + b == b;
    }
  }

  /** Dropping the leading dots of `n` dots followed by a text that does
      not start with a dot leaves that text. */
  lemma DropDots(n: nat, b: JsString)
    requires |b| == 0 || b[0] != Dot
    ensures DropLeading(Dots(n) + b, Dot) == b
  {
    var x := Dots(n) + b;
    var r := DropLeading(x, Dot);
    var m := |x| - |r|;
    DropLeadingDropsOnly(x, Dot);
    assert x[n..] == b;
  }

  /** Dropping the trailing dots of a text that does not end with a dot
      followed by `n` dots leaves that text. */
  lemma DropTrailingDots(a: JsString, n: nat)
    requires |a| == 0 || a[|a| - 1] != Dot
    ensures DropTrailing(a + Dots(n), Dot) == a
  {
    var x := a + Dots(n);
    var r := DropTrailing(x, Dot);
    DropTrailingDropsOnly(x, Dot);
    assert x[..|a|] == a;
  }

  /** The dot steps on their own, on texts the first step never hands them:
      a run of two or more dots between dot-free texts becomes one
      underscore, */
  lemma DotRunReplaced(a: JsString, n: nat, b: JsString)
    requires Dot !in a && Dot !in b && n >= 2
    ensures ReplaceDotRuns(a + Dots(n) + b) == a + [Underscore] + b
  {
    assert a + Dots(n) + b == a + (Dots(n) + b);
    ReplaceDotRunsConcat(a, Dots(n) + b);
    RunReplaced(n, b);
  }

  lemma RunReplaced(n: nat, b: JsString)
    requires Dot !in b && n >= 2
    ensures ReplaceDotRuns(Dots(n) + b) == [Underscore] + b
  {
    var run := Dots(n) + b;
    assert run[0] == Dot && run[1] == Dot;
    assert |b| > 0 ==> b[0] in b;
    DropDots(n, b);
    ReplaceDotRunsNoop(b);
  }

  /** a single dot between dot-free, non-empty texts is kept by both, */
  lemma SingleDotKept(a: JsString, b: JsString)
    requires Dot !in a && Dot !in b && |a| > 0 && |b| > 0
    ensures StripDots(ReplaceDotRuns(a + [Dot] + b)) == a + [Dot] + b
  {
    SingleDotReplaced(a, b);
    StripDotsNoop(a + [Dot] + b);
  }

  lemma SingleDotReplaced(a: JsString, b: JsString)
    requires Dot !in a && Dot !in b && |b| > 0
    ensures ReplaceDotRuns(a + [Dot] + b) == a + [Dot] + b
  {
    var c := [Dot] + b;
    assert a + [Dot] + b == a + c;
    ReplaceDotRunsConcat(a, c);
    assert c[1] == b[0] && b[0] in b;
    assert c[1..] == b;
    assert ReplaceDotRuns(c) == [Dot] + ReplaceDotRuns(b);
    ReplaceDotRunsNoop(b);
  }

  /** A text that neither starts nor ends with a dot keeps all its dots. */
  lemma StripDotsNoop(x: JsString)
    requires |x| > 0 && x[0] != Dot && x[|x| - 1] != Dot
    ensures StripDots(x) == x
  {
    assert DropLeading(x, Dot) == x;
  }

  /** and the dots before and after a text that neither starts nor ends
      with a dot are removed. */
  lemma OuterDotsStripped(p: nat, m: JsString, q: nat)
    requires |m| > 0 && m[0] != Dot && m[|m| - 1] != Dot
    ensures StripDots(Dots(p) + m + Dots(q)) == m
  {
    assert Dots(p) + m + Dots(q) == Dots(p) + (m + Dots(q));
    DropDots(p, m + Dots(q));
    DropTrailingDots(m, q);
  }

  const Extension: JsString := Lit(".md")

  /** The file name `${topicId}-${sanitizedSlug}.md`: the topic id, a hyphen,
      only safe units, and the extension. */
  function OutputFileName(topicId: JsString, slug: JsString): (f: JsString)
    ensures |f| == |topicId| + 1 + |SanitizeSlug(slug)| + 3
    ensures f[..|topicId|] == topicId && f[|topicId|] == Hyphen
    ensures f[|f| - 3..] == Extension
    ensures forall i | |topicId| <= i < |f| - 3 :: IsSlugSafe(f[i])
  {
    var f := topicId + [Hyphen] + SanitizeSlug(slug) + Extension;
    assert f[..|topicId|] == topicId;
    assert f[|f| - 3..] == Extension;
    f
  }

  /** With a topic id of ASCII digits, as `parseDiscourseUrl` produces, the
      file name holds no slash or backslash and no ".." (its one dot is the
      extension's), so joining it to the target directory cannot leave that
      directory; the run-time check of `getSafeOutputPath` then never fires. */
  lemma FileNameStaysInDirectory(topicId: JsString, slug: JsString)
    requires forall i | 0 <= i < |topicId| :: IsAsciiDigit(topicId[i])
    ensures var f := OutputFileName(topicId, slug);
      && '/' as int !in f
      && '\\' as int !in f
      && forall i | 0 <= i < |f| && f[i] == Dot :: i == |f| - 3
  {
    var f := OutputFileName(topicId, slug);
    forall i | 0 <= i < |f| - 3
      ensures f[i] != Dot && f[i] != '/' as int && f[i] != '\\' as int
    {
      if i < |topicId| {
        assert f[..|topicId|][i] == topicId[i];
      }
    }
    assert f[|f| - 3..] == [Dot, 'm' as int, 'd' as int];
    assert f[|f| - 3] == Dot && f[|f| - 2] == 'm' as int && f[|f| - 1] == 'd' as int;
  }
}
