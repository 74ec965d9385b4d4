/**
  `processImageGalleries`: a line-by-line pass over converted markdown that
  joins each run of consecutive sized-image lines into one gallery line.
 */
module Galleries {
  import opened JsText

  /** `s` matches `/^!\[\|\d+\]\(.+\)$/` with `k` digits: "![|", `k` ASCII
      digits, "](", at least one unit that is not a line terminator, ")", and
      nothing after it. */
  predicate SizedImageWith(s: JsString, k: int) {
    && 1 <= k && k + 5 <= |s| - 2
    && s[0] == '!' as int && s[1] == '[' as int && s[2] == '|' as int
    && (forall i | 3 <= i < 3 + k :: IsAsciiDigit(s[i]))
    && s[3 + k] == ']' as int && s[4 + k] == '(' as int
    && (forall i | k + 5 <= i < |s| - 1 :: !IsLineTerminator(s[i]))
    && s[|s| - 1] == ')' as int
  }

  /** The gallery pattern `/^!\[\|\d+\]\(.+\)$/`: a sized image reference
      such as `![|320](url)` as a whole line. */
  predicate IsSizedImage(s: JsString) {
    exists k | 1 <= k <= |s| :: SizedImageWith(s, k)
  }

  /** A line the pass collects: its trimmed form is a sized image. */
  predicate IsImageLine(line: JsString) {
    IsSizedImage(Trim(line))
  }

  predicate NoLineTerminator(s: JsString) {
    forall i | 0 <= i < |s| :: !IsLineTerminator(s[i])
  }

  /** `flushImages`: several collected images become one line joined by
      single spaces, a single one stays as it is, none gives nothing. */
  function Flush(run: seq<JsString>): seq<JsString> {
    if |run| > 1 then [Join([Space], run)]
    else if |run| == 1 then (if run[0] != [] then [run[0]] else [])
    else []
  }

  /** The loop of `processImageGalleries`: `run` holds the trimmed image
      lines collected so far and `out` the lines already emitted. */
  function Scan(lines: seq<JsString>, run: seq<JsString>, out: seq<JsString>): seq<JsString>
    decreases |lines|
  {
    if |lines| == 0 then out + Flush(run)
    else if IsImageLine(lines[0]) then Scan(lines[1..], run + [Trim(lines[0])], out)
    else Scan(lines[1..], [], out + Flush(run) + [lines[0]])
  }

  /** `processImageGalleries`. */
  function ProcessImageGalleries(markdown: JsString): JsString {
    Join([NewLine], Scan(Split(markdown, NewLine), [], []))
  }

  // ---------------------------------------------------------------------
  // The reference: maximal runs.

  /** Length of the leading run of image lines. */
  function RunLength(lines: seq<JsString>): (n: nat)
    ensures n <= |lines|
    ensures forall i | 0 <= i < n :: IsImageLine(lines[i])
    ensures n < |lines| ==> !IsImageLine(lines[n])
    decreases |lines|
  {
    if |lines| == 0 || !IsImageLine(lines[0]) then 0 else 1 + RunLength(lines[1..])
  }

  function TrimAll(lines: seq<JsString>): (r: seq<JsString>)
    ensures |r| == |lines|
    ensures forall i | 0 <= i < |lines| :: r[i] == Trim(lines[i])
  {
    seq(|lines|, i requires 0 <= i < |lines| => Trim(lines[i]))
  }

  /** What the pass is meant to do: every maximal run of image lines becomes
      one line, its trimmed images joined by single spaces (a run of one is
      just the trimmed line); every other line is kept as it is, in order. */
  function Galleries(lines: seq<JsString>): seq<JsString>
    decreases |lines|
  {
    if |lines| == 0 then []
    else if !IsImageLine(lines[0]) then [lines[0]] + Galleries(lines[1..])
    else
      var n := RunLength(lines);
      [Join([Space], TrimAll(lines[..n]))] + Galleries(lines[n..])
  }

  // ---------------------------------------------------------------------
  // Facts about sized images.

  lemma SizedImageShape(s: JsString)
    requires IsSizedImage(s)
    ensures |s| >= 8 && s[0] == '!' as int && s[|s| - 1] == ')' as int
    ensures NoLineTerminator(s)
  {
    var k :| 1 <= k <= |s| && SizedImageWith(s, k);
    forall i | 0 <= i < |s|
      ensures !IsLineTerminator(s[i])
    {
      if 3 <= i < 3 + k {
        assert IsAsciiDigit(s[i]);
      }
    }
  }

  /** Appending text without line terminators that ends in ")" to a sized
      image leaves a sized image: the regex `.+` absorbs it. */
  lemma ExtendSizedImage(a: JsString, b: JsString)
    requires IsSizedImage(a)
    requires |b| >= 1 && NoLineTerminator(b) && b[|b| - 1] == ')' as int
    ensures IsSizedImage(a + b)
  {
    var k :| 1 <= k <= |a| && SizedImageWith(a, k);
    var s := a + b;
    forall i | k + 5 <= i < |s| - 1
      ensures !IsLineTerminator(s[i])
    {
      if i < |a| - 1 {
        assert s[i] == a[i];
      } else if i == |a| - 1 {
        assert s[i] == ')' as int;
      } else {
        assert s[i] == b[i - |a|];
      }
    }
    forall i | 3 <= i < 3 + k
      ensures IsAsciiDigit(s[i])
    {
      assert s[i] == a[i];
    }
    assert SizedImageWith(s, k);
  }

  /** A gallery line, the space-joined images of a run, is itself a sized
      image: this is why a second pass changes nothing. */
  lemma {:induction false} JoinedImagesAreSizedImage(imgs: seq<JsString>)
    requires |imgs| >= 1
    requires forall i | 0 <= i < |imgs| :: IsSizedImage(imgs[i])
    ensures IsSizedImage(Join([Space], imgs))
    decreases |imgs|
  {
    if |imgs| > 1 {
      var rest := Join([Space], imgs[1..]);
      JoinedImagesAreSizedImage(imgs[1..]);
      SizedImageShape(rest);
      var b := [Space] + rest;
      assert b[|b| - 1] == rest[|rest| - 1];
      assert NoLineTerminator(b) by {
        forall i | 0 <= i < |b|
          ensures !IsLineTerminator(b[i])
        {
          if i > 0 {
            assert b[i] == rest[i - 1];
          }
        }
      }
      ExtendSizedImage(imgs[0], b);
      assert Join([Space], imgs) == imgs[0] + b;
    }
  }

  /** A sized image is its own trim, so it is an image line. */
  lemma SizedImageIsImageLine(s: JsString)
    requires IsSizedImage(s)
    ensures Trim(s) == s
    ensures IsImageLine(s)
  {
    SizedImageShape(s);
    TrimFixed(s);
  }

  /** The line a run of image lines turns into. */
  lemma GroupLine(lines: seq<JsString>)
    requires |lines| >= 1
    requires forall i | 0 <= i < |lines| :: IsImageLine(lines[i])
    ensures IsSizedImage(Join([Space], TrimAll(lines)))
    ensures IsImageLine(Join([Space], TrimAll(lines)))
    ensures Flush(TrimAll(lines)) == [Join([Space], TrimAll(lines))]
  {
    var t := TrimAll(lines);
    JoinedImagesAreSizedImage(t);
    SizedImageIsImageLine(Join([Space], t));
    if |t| == 1 {
      SizedImageShape(t[0]);
    }
  }

  // ---------------------------------------------------------------------
  // The loop computes the reference.

  lemma {:induction false} GalleriesSplitRun(lines: seq<JsString>)
    ensures Galleries(lines)
      == Flush(TrimAll(lines[..RunLength(lines)])) + Galleries(lines[RunLength(lines)..])
  {
    var n := RunLength(lines);
    if n == 0 {
      assert lines[n..] == lines;
    } else {
      GroupLine(lines[..n]);
    }
  }

  lemma {:induction false} ScanSpec(lines: seq<JsString>, run: seq<JsString>, out: seq<JsString>)
    ensures Scan(lines, run, out)
      == out + Flush(run + TrimAll(lines[..RunLength(lines)])) + Galleries(lines[RunLength(lines)..])
    decreases |lines|
  {
    if |lines| == 0 {
      assert run + TrimAll(lines[..0]) == run;
    } else if IsImageLine(lines[0]) {
      ScanSpecImage(lines, run, out);
    } else {
      ScanSpecText(lines, run, out);
    }
  }

  lemma {:induction false} ScanSpecImage(lines: seq<JsString>, run: seq<JsString>, out: seq<JsString>)
    requires |lines| > 0 && IsImageLine(lines[0])
    ensures Scan(lines, run, out)
      == out + Flush(run + TrimAll(lines[..RunLength(lines)])) + Galleries(lines[RunLength(lines)..])
    decreases |lines|, 0
  {
    var n := RunLength(lines);
    var rest := lines[1..];
    var run' := run + [Trim(lines[0])];
    assert Scan(lines, run, out) == Scan(rest, run', out);
    assert RunLength(rest) == n - 1;
    var collected := run' + TrimAll(rest[..n - 1]);
    assert Scan(rest, run', out) == out + Flush(collected) + Galleries(rest[n - 1..]) by {
      ScanSpec(rest, run', out);
    }
    assert rest[n - 1..] == lines[n..];
    assert collected == run + TrimAll(lines[..n]) by {
      TrimAllCons(lines, n);
      AppendAssoc(run, [Trim(lines[0])], TrimAll(rest[..n - 1]));
    }
  }

  lemma TrimAllCons(lines: seq<JsString>, n: nat)
    requires 1 <= n <= |lines|
    ensures TrimAll(lines[..n]) == [Trim(lines[0])] + TrimAll(lines[1..][..n - 1])
  {
    var a := TrimAll(lines[..n]);
    var b := [Trim(lines[0])] + TrimAll(lines[1..][..n - 1]);
    assert |a| == |b|;
    forall i | 0 <= i < |a|
      ensures a[i] == b[i]
    {
      if i > 0 {
        assert b[i] == Trim(lines[1..][..n - 1][i - 1]);
      }
    }
  }

  lemma {:induction false} ScanSpecText(lines: seq<JsString>, run: seq<JsString>, out: seq<JsString>)
    requires |lines| > 0 && !IsImageLine(lines[0])
    ensures Scan(lines, run, out)
      == out + Flush(run + TrimAll(lines[..RunLength(lines)])) + Galleries(lines[RunLength(lines)..])
    decreases |lines|, 0
  {
    var rest := lines[1..];
    var m := RunLength(rest);
    var head := out + Flush(run);
    var out' := head + [lines[0]];
    var f := Flush(TrimAll(rest[..m]));
    var g := Galleries(rest[m..]);
    assert RunLength(lines) == 0;
    assert run + TrimAll(lines[..0]) == run;
    assert lines[0..] == lines;
    assert Galleries(lines) == [lines[0]] + Galleries(rest);
    calc {
      Scan(lines, run, out);
      Scan(rest, [], out');
      { ScanSpec(rest, [], out');
        assert [] + TrimAll(rest[..m]) == TrimAll(rest[..m]); }
      out' + f + g;
      { AppendAssoc(out', f, g); }
      out' + (f + g);
      { GalleriesSplitRun(rest); }
      out' + Galleries(rest);
      { AppendAssoc(head, [lines[0]], Galleries(rest)); }
      head + ([lines[0]] + Galleries(rest));
      head + Galleries(lines);
    }
  }

  /** The source's state machine computes exactly the maximal-run grouping. */
  lemma ScanIsGalleries(lines: seq<JsString>)
    ensures Scan(lines, [], []) == Galleries(lines)
  {
    ScanFromStart(lines);
    GalleriesSplitRun(lines);
  }

  /** From the loop's initial state, the output is the flushed leading run
      followed by the grouping of the rest. */
  lemma ScanFromStart(lines: seq<JsString>)
    ensures Scan(lines, [], [])
      == Flush(TrimAll(lines[..RunLength(lines)])) + Galleries(lines[RunLength(lines)..])
  {
    ScanSpec(lines, [], []);
    EmptyState(TrimAll(lines[..RunLength(lines)]), Galleries(lines[RunLength(lines)..]));
  }

  lemma EmptyState(t: seq<JsString>, g: seq<JsString>)
    ensures [] + Flush([] + t) + g == Flush(t) + g
  {
    assert [] + t == t;
  }

  // ---------------------------------------------------------------------
  // Properties of the grouping.

  /** There are never more output lines than input lines, and at least one
      when there was at least one. */
  lemma {:induction false} GalleriesNoLonger(lines: seq<JsString>)
    ensures |Galleries(lines)| <= |lines|
    ensures |lines| >= 1 ==> |Galleries(lines)| >= 1
    decreases |lines|
  {
    if |lines| > 0 {
      if !IsImageLine(lines[0]) {
        GalleriesNoLonger(lines[1..]);
      } else {
        GalleriesNoLonger(lines[RunLength(lines)..]);
      }
    }
  }

  /** The lines that are not image lines, in order. */
  function TextLines(lines: seq<JsString>): seq<JsString>
    decreases |lines|
  {
    if |lines| == 0 then []
    else (if IsImageLine(lines[0]) then [] else [lines[0]]) + TextLines(lines[1..])
  }

  lemma {:induction false} TextLinesOfRun(lines: seq<JsString>, n: nat)
    requires n <= |lines|
    requires forall i | 0 <= i < n :: IsImageLine(lines[i])
    ensures TextLines(lines) == TextLines(lines[n..])
    decreases n
  {
    if n > 0 {
      TextLinesOfRun(lines[1..], n - 1);
      assert lines[1..][n - 1..] == lines[n..];
    }
  }

  /** Every line that is not an image line comes out unchanged and in its
      original order, and nothing else that is not an image line appears. */
  lemma {:induction false} GalleriesKeepText(lines: seq<JsString>)
    ensures TextLines(Galleries(lines)) == TextLines(lines)
    decreases |lines|
  {
    if |lines| > 0 {
      if !IsImageLine(lines[0]) {
        GalleriesKeepText(lines[1..]);
        assert ([lines[0]] + Galleries(lines[1..]))[1..] == Galleries(lines[1..]);
      } else {
        var n := RunLength(lines);
        var g := Join([Space], TrimAll(lines[..n]));
        GroupLine(lines[..n]);
        GalleriesKeepText(lines[n..]);
        assert ([g] + Galleries(lines[n..]))[1..] == Galleries(lines[n..]);
        TextLinesOfRun(lines, n);
      }
    }
  }

  /** Grouping twice is grouping once. */
  lemma {:induction false} GalleriesIdempotent(lines: seq<JsString>)
    ensures Galleries(Galleries(lines)) == Galleries(lines)
    decreases |lines|
  {
    if |lines| > 0 {
      var out := Galleries(lines);
      if !IsImageLine(lines[0]) {
        GalleriesIdempotent(lines[1..]);
        assert out[1..] == Galleries(lines[1..]);
      } else {
        var n := RunLength(lines);
        var g := Join([Space], TrimAll(lines[..n]));
        var rest := Galleries(lines[n..]);
        GroupLine(lines[..n]);
        SizedImageIsImageLine(g);
        GalleriesIdempotent(lines[n..]);
        assert |rest| > 0 ==> !IsImageLine(rest[0]);
        var out := [g] + rest;
        assert RunLength(out) == 1 by {
          assert out[1..] == rest;
        }
        assert out[..1] == [g];
        assert TrimAll([g]) == [g];
        assert out[1..] == rest;
      }
    }
  }

  /** No output line of the grouping holds a newline when no input line did. */
  lemma {:induction false} GalleriesNoNewLine(lines: seq<JsString>)
    requires forall i | 0 <= i < |lines| :: NewLine !in lines[i]
    ensures forall i | 0 <= i < |Galleries(lines)| :: NewLine !in Galleries(lines)[i]
    decreases |lines|
  {
    if |lines| > 0 {
      if !IsImageLine(lines[0]) {
        GalleriesNoNewLine(lines[1..]);
      } else {
        var n := RunLength(lines);
        var g := Join([Space], TrimAll(lines[..n]));
        GroupLine(lines[..n]);
        SizedImageShape(g);
        GalleriesNoNewLine(lines[n..]);
        assert NewLine !in g;
      }
    }
  }

  /** `processImageGalleries` is idempotent on any markdown text. */
  lemma ProcessImageGalleriesIdempotent(markdown: JsString)
    ensures ProcessImageGalleries(ProcessImageGalleries(markdown)) == ProcessImageGalleries(markdown)
  {
    var lines := Split(markdown, NewLine);
    var out := Galleries(lines);
    ScanIsGalleries(lines);
    GalleriesNoLonger(lines);
    GalleriesNoNewLine(lines);
    SplitJoin(out, NewLine);
    ScanIsGalleries(out);
    GalleriesIdempotent(lines);
  }

  /** `processImageGalleries` in terms of the reference: the output lines
      are the maximal-run grouping of the input lines, and there are never
      more of them. */
  lemma ProcessImageGalleriesSpec(markdown: JsString)
    ensures var lines := Split(markdown, NewLine);
      && Split(ProcessImageGalleries(markdown), NewLine) == Galleries(lines)
      && |Galleries(lines)| <= |lines|
      && TextLines(Galleries(lines)) == TextLines(lines)
  {
    var lines := Split(markdown, NewLine);
    ScanIsGalleries(lines);
    GalleriesNoLonger(lines);
    GalleriesNoNewLine(lines);
    SplitJoin(Galleries(lines), NewLine);
    GalleriesKeepText(lines);
  }
}
