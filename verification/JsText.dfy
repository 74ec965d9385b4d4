/**
  JavaScript strings as the source program sees them: sequences of UTF-16 code
  units. Regular expressions without the `u` flag, `substring`, `trim`,
  `split` and `join` all work on code units, so every text of the model is a
  `JsString`.
 */
module JsText {

  /** One UTF-16 code unit. */
  type Unit = u: int | 0 <= u < 0x1_0000

  type JsString = seq<Unit>

  /** Literal text. Every literal of the model lies in the Basic Multilingual
      Plane, where one character is one UTF-16 code unit. */
  function Lit(s: string): (r: JsString)
    requires forall i | 0 <= i < |s| :: s[i] as int < 0x1_0000
  {
    seq(|s|, i requires 0 <= i < |s| => s[i] as int)
  }

  const NewLine: Unit := '\n' as int
  const Space: Unit := ' ' as int

  /** ECMAScript WhiteSpace and LineTerminator code units: the set that
      `String.prototype.trim` removes and that the regex class `\s` matches. */
  predicate IsWhitespace(u: Unit) {
    || u == 0x09 || u == 0x0A || u == 0x0B || u == 0x0C || u == 0x0D || u == 0x20
    || u == 0xA0 || u == 0x1680 || (0x2000 <= u <= 0x200A)
    || u == 0x2028 || u == 0x2029 || u == 0x202F || u == 0x205F
    || u == 0x3000 || u == 0xFEFF
  }

  /** The code units that the regex `.` does not match (no `s` flag). */
  predicate IsLineTerminator(u: Unit) {
    u == 0x0A || u == 0x0D || u == 0x2028 || u == 0x2029
  }

  predicate IsAsciiDigit(u: Unit) {
    '0' as int <= u <= '9' as int
  }

  predicate IsAsciiLetter(u: Unit) {
    ('a' as int <= u <= 'z' as int) || ('A' as int <= u <= 'Z' as int)
  }

  /** ASCII lower-casing: the only case folding a regex with the `i` flag and
      without the `u` flag performs between ASCII letters. */
  function AsciiLower(u: Unit): Unit {
    if 'A' as int <= u <= 'Z' as int then u + 32 else u
  }

  /** `t` occurs in `s` at index `i`. */
  predicate OccursAt(s: JsString, t: JsString, i: int) {
    0 <= i && i + |t| <= |s| && s[i..i + |t|] == t
  }

  /** `String.prototype.includes`. */
  predicate Contains(s: JsString, t: JsString) {
    exists i | 0 <= i <= |s| - |t| :: OccursAt(s, t, i)
  }

  /** `String.prototype.trimStart`: the input without its leading
      whitespace. */
  function TrimStart(s: JsString): (r: JsString)
    ensures |r| <= |s|
    ensures |r| > 0 ==> !IsWhitespace(r[0])
  {
    if |s| > 0 && IsWhitespace(s[0]) then TrimStart(s[1..]) else s
  }

  /** `String.prototype.trimEnd`: the input without its trailing
      whitespace. */
  function TrimEnd(s: JsString): (r: JsString)
    ensures |r| <= |s|
    ensures |r| > 0 ==> !IsWhitespace(r[|r| - 1]) && r[0] == s[0]
  {
    if |s| > 0 && IsWhitespace(s[|s| - 1]) then TrimEnd(s[..|s| - 1]) else s
  }

  /** What `trimStart` leaves is a suffix, and only whitespace is dropped
      before it. */
  lemma {:induction false} TrimStartDropsOnly(s: JsString)
    ensures var r := TrimStart(s);
      && r == s[|s| - |r|..]
      && forall k | 0 <= k < |s| - |r| :: IsWhitespace(s[k])
    decreases |s|
  {
    if |s| > 0 && IsWhitespace(s[0]) {
      TrimStartDropsOnly(s[1..]);
      var r := TrimStart(s);
      assert r == s[1..][|s| - 1 - |r|..];
      assert forall k | 1 <= k < |s| - |r| :: s[k] == s[1..][k - 1];
    }
  }

  /** What `trimEnd` leaves is a prefix, and only whitespace is dropped
      after it. */
  lemma {:induction false} TrimEndDropsOnly(s: JsString)
    ensures var r := TrimEnd(s);
      && r == s[..|r|]
      && forall k | |r| <= k < |s| :: IsWhitespace(s[k])
    decreases |s|
  {
    if |s| > 0 && IsWhitespace(s[|s| - 1]) {
      TrimEndDropsOnly(s[..|s| - 1]);
      var r := TrimEnd(s);
      assert r == s[..|s| - 1][..|r|];
      assert forall k | |r| <= k < |s| - 1 :: s[k] == s[..|s| - 1][k];
    }
  }

  /** `r` is the slice of `s` starting at `i`, with only whitespace before
      and after it. */
  predicate WhitespaceAround(s: JsString, i: int, r: JsString) {
    && 0 <= i <= |s| - |r|
    && r == s[i..i + |r|]
    && (forall k | 0 <= k < i :: IsWhitespace(s[k]))
    && (forall k | i + |r| <= k < |s| :: IsWhitespace(s[k]))
  }

  /** `String.prototype.trim`: the input without its leading and trailing
      whitespace; what remains starts and ends with a non-whitespace unit. */
  function Trim(s: JsString): (r: JsString)
    ensures |r| <= |s|
    ensures |r| > 0 ==> !IsWhitespace(r[0]) && !IsWhitespace(r[|r| - 1])
  {
    TrimEnd(TrimStart(s))
  }

  /** `trim` removes exactly the outer whitespace: the result is a slice of
      the input with only whitespace before and after it. Since the slice
      starts and ends with non-whitespace, this fixes it uniquely. */
  lemma TrimIsSlice(s: JsString)
    ensures exists i :: WhitespaceAround(s, i, Trim(s))
  {
    TrimSlice(s);
    assert WhitespaceAround(s, |s| - |TrimStart(s)|, Trim(s));
  }

  /** The trimmed text is the slice that starts after the leading
      whitespace. */
  lemma TrimSlice(s: JsString)
    ensures WhitespaceAround(s, |s| - |TrimStart(s)|, TrimEnd(TrimStart(s)))
    ensures |TrimEnd(TrimStart(s))| > 0 ==> TrimEnd(TrimStart(s))[0] == TrimStart(s)[0]
  {
    var t := TrimStart(s);
    var i := |s| - |t|;
    TrimStartDropsOnly(s);
    assert t == s[i..];
    TrimEndSlice(s, i);
  }

  /** `trimEnd` of a suffix `s[i..]` is a slice of `s` starting at `i`,
      followed in `s` by whitespace only. */
  lemma TrimEndSlice(s: JsString, i: int)
    requires 0 <= i <= |s|
    ensures var r := TrimEnd(s[i..]);
      && r == s[i..i + |r|]
      && (|r| > 0 ==> r[0] == s[i])
      && (forall k | i + |r| <= k < |s| :: IsWhitespace(s[k]))
  {
    var t := s[i..];
    var r := TrimEnd(t);
    TrimEndDropsOnly(t);
    forall k | i + |r| <= k < |s|
      ensures IsWhitespace(s[k])
    {
      assert s[k] == t[k - i];
    }
  }

  /** A text that already starts and ends with non-whitespace is its own
      trim. */
  lemma TrimFixed(s: JsString)
    requires |s| > 0 && !IsWhitespace(s[0]) && !IsWhitespace(s[|s| - 1])
    ensures Trim(s) == s
  {
  }

  /** Trimming twice is trimming once. */
  lemma TrimIdempotent(s: JsString)
    ensures Trim(Trim(s)) == Trim(s)
  {
    if |Trim(s)| > 0 {
      TrimFixed(Trim(s));
    }
  }

  /** The text without its leading copies of `u` (a `/^u+/` replaced by ""). */
  function DropLeading(s: JsString, u: Unit): (r: JsString)
    ensures |r| <= |s|
    ensures |s| > 0 && s[0] == u ==> |r| < |s|
    ensures |r| > 0 ==> r[0] != u
  {
    if |s| > 0 && s[0] == u then DropLeading(s[1..], u) else s
  }

  /** The text without its trailing copies of `u` (a `/u+$/` replaced by ""). */
  function DropTrailing(s: JsString, u: Unit): (r: JsString)
    ensures |r| <= |s|
    ensures |r| > 0 ==> r[|r| - 1] != u
  {
    if |s| > 0 && s[|s| - 1] == u then DropTrailing(s[..|s| - 1], u) else s
  }

  /** What `DropLeading` leaves is a suffix, and only copies of `u` are
      dropped before it. */
  lemma {:induction false} DropLeadingDropsOnly(s: JsString, u: Unit)
    ensures var r := DropLeading(s, u);
      && r == s[|s| - |r|..]
      && forall k | 0 <= k < |s| - |r| :: s[k] == u
    decreases |s|
  {
    if |s| > 0 && s[0] == u {
      DropLeadingDropsOnly(s[1..], u);
      var r := DropLeading(s, u);
      assert r == s[1..][|s| - 1 - |r|..];
      assert forall k | 1 <= k < |s| - |r| :: s[k] == s[1..][k - 1];
    }
  }

  /** What `DropTrailing` leaves is a prefix, and only copies of `u` are
      dropped after it. */
  lemma {:induction false} DropTrailingDropsOnly(s: JsString, u: Unit)
    ensures var r := DropTrailing(s, u);
      && r == s[..|r|]
      && forall k | |r| <= k < |s| :: s[k] == u
    decreases |s|
  {
    if |s| > 0 && s[|s| - 1] == u {
      DropTrailingDropsOnly(s[..|s| - 1], u);
      var r := DropTrailing(s, u);
      assert r == s[..|s| - 1][..|r|];
      assert forall k | |r| <= k < |s| - 1 :: s[k] == s[..|s| - 1][k];
    }
  }

  /** Index of the first occurrence of `u` in `s`. */
  function IndexOf(s: JsString, u: Unit): (i: nat)
    requires u in s
    ensures i < |s| && s[i] == u && u !in s[..i]
  {
    if s[0] == u then 0 else 1 + IndexOf(s[1..], u)
  }

  /** `s.split(sep)` for a one-unit separator: the maximal separator-free
      pieces, in order; an empty input gives one empty piece. */
  function Split(s: JsString, sep: Unit): (parts: seq<JsString>)
    ensures |parts| >= 1
    ensures forall k | 0 <= k < |parts| :: sep !in parts[k]
    decreases |s|
  {
    if sep !in s then [s]
    else
      var i := IndexOf(s, sep);
      [s[..i]] + Split(s[i + 1..], sep)
  }

  /** `parts.join(sep)`. */
  function Join(sep: JsString, parts: seq<JsString>): JsString
    decreases |parts|
  {
    if |parts| == 0 then []
    else if |parts| == 1 then parts[0]
    else parts[0] + sep + Join(sep, parts[1..])
  }

  /** Joining the pieces of a split restores the text. */
  lemma {:induction false} JoinSplit(s: JsString, sep: Unit)
    ensures Join([sep], Split(s, sep)) == s
    decreases |s|
  {
    if sep in s {
      var i := IndexOf(s, sep);
      var rest := s[i + 1..];
      JoinSplit(rest, sep);
      assert Split(s, sep) == [s[..i]] + Split(rest, sep);
      assert s == s[..i] + [sep] + rest;
    }
  }

  /** Splitting a join of separator-free pieces gives the pieces back. */
  lemma {:induction false} SplitJoin(parts: seq<JsString>, sep: Unit)
    requires |parts| >= 1
    requires forall k | 0 <= k < |parts| :: sep !in parts[k]
    ensures Split(Join([sep], parts), sep) == parts
    decreases |parts|
  {
    if |parts| > 1 {
      var tail := Join([sep], parts[1..]);
      assert Join([sep], parts) == parts[0] + [sep] + tail;
      SplitStep(parts[0], sep, tail);
      SplitJoin(parts[1..], sep);
      assert parts == [parts[0]] + parts[1..];
    }
  }

  /** A split cuts at the first separator. */
  lemma SplitStep(a: JsString, sep: Unit, tail: JsString)
    requires sep !in a
    ensures Split(a + [sep] + tail, sep) == [a] + Split(tail, sep)
  {
    var s := a + [sep] + tail;
    IndexOfAfter(a, sep, tail);
    assert s[..|a|] == a;
    assert s[|a| + 1..] == tail;
  }

  /** The first `u` of `a + [u] + b` is the one after `a` when `a` has none. */
  lemma IndexOfAfter(a: JsString, u: Unit, b: JsString)
    requires u !in a
    ensures u in a + [u] + b && IndexOf(a + [u] + b, u) == |a|
  {
    var s := a + [u] + b;
    assert s[|a|] == u;
    assert s[..|a|] == a;
  }

  /** Joining two non-empty lists puts one separator between their joins. */
  lemma {:induction false} JoinAppend(sep: JsString, a: seq<JsString>, b: seq<JsString>)
    requires |a| >= 1 && |b| >= 1
    ensures Join(sep, a + b) == Join(sep, a) + sep + Join(sep, b)
    decreases |a|
  {
    if |a| == 1 {
      assert (a + b)[1..] == b;
    } else {
      assert (a + b)[1..] == a[1..] + b;
      JoinAppend(sep, a[1..], b);
    }
  }

  /** The head and the tail of a sequence built by prepending. */
  lemma ConsParts<T>(h: T, t: seq<T>)
    ensures ([h] + t)[0] == h && ([h] + t)[1..] == t
  {
  }

  /** Concatenation is associative; stated once so that long proofs can name
      the regrouping step instead of searching for it. */
  lemma AppendAssoc<T>(a: seq<T>, b: seq<T>, c: seq<T>)
    ensures a + b + c == a + (b + c)
  {
  }

  /** `s.repeat(n)`. */
  function Repeat(s: JsString, n: nat): (r: JsString)
    ensures |r| == n * |s|
  {
    if n == 0 then [] else s + Repeat(s, n - 1)
  }

  /** Decimal digits of a non-negative integer, without leading zeros. */
  function Digits(n: nat): (r: JsString)
    ensures |r| >= 1
    ensures forall k | 0 <= k < |r| :: IsAsciiDigit(r[k])
    decreases n
  {
    if n < 10 then [48 + n] else Digits(n / 10) + [48 + n % 10]
  }

  /** `String(n)` for an integer below 10^21, where JavaScript prints plain
      decimal notation. */
  function NumberToString(n: int): JsString {
    if n < 0 then ['-' as int] + Digits(-n) else Digits(n)
  }
}
