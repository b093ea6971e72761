/**
 * The `str` operations of Rust's core library that the request parser and the
 * header lookup rely on, defined over strings of Unicode scalar values:
 * `char::is_whitespace`, `trim`, `find`, `split_whitespace`, `lines` and
 * `eq_ignore_ascii_case`.
 */
module Str {
  import opened Wrappers

  /** `char::is_whitespace`: the characters with the Unicode White_Space property. */
  predicate IsWhitespace(c: char) {
    var v := c as int;
    (0x09 <= v <= 0x0D) || v == 0x20 || v == 0x85 || v == 0xA0 || v == 0x1680
    || (0x2000 <= v <= 0x200A) || v == 0x2028 || v == 0x2029 || v == 0x202F
    || v == 0x205F || v == 0x3000
  }

  predicate NoWhitespace(s: string) {
    forall i :: 0 <= i < |s| ==> !IsWhitespace(s[i])
  }

  /** Neither end of `s` is whitespace: `s` is its own `trim()`. */
  predicate Trimmed(s: string) {
    s == [] || (!IsWhitespace(s[0]) && !IsWhitespace(s[|s| - 1]))
  }

  /** The end of the run of whitespace that starts at `k`. */
  function SkipWhitespace(s: string, k: nat): (n: nat)
    requires k <= |s|
    ensures k <= n <= |s|
    ensures forall i :: k <= i < n ==> IsWhitespace(s[i])
    ensures n < |s| ==> !IsWhitespace(s[n])
    decreases |s| - k
  {
    if k == |s| || !IsWhitespace(s[k]) then k else SkipWhitespace(s, k + 1)
  }

  /** The start of the run of whitespace that ends at `k`. */
  function SkipWhitespaceBack(s: string, k: nat): (n: nat)
    requires k <= |s|
    ensures n <= k
    ensures forall i :: n <= i < k ==> IsWhitespace(s[i])
    ensures n > 0 ==> !IsWhitespace(s[n - 1])
  {
    if k == 0 || !IsWhitespace(s[k - 1]) then k else SkipWhitespaceBack(s, k - 1)
  }

  /** `trim_start()`: drops the leading whitespace. */
  function TrimStart(s: string): (t: string)
    ensures t == [] || !IsWhitespace(t[0])
  {
    s[SkipWhitespace(s, 0)..]
  }

  /** `trim_end()`: drops the trailing whitespace. */
  function TrimEnd(s: string): (t: string)
    ensures t == [] || !IsWhitespace(t[|t| - 1])
  {
    s[..SkipWhitespaceBack(s, |s|)]
  }

  /** `trim()`: drops whitespace at both ends. */
  function Trim(s: string): (t: string)
    ensures Trimmed(t)
    ensures |t| <= |s|
  {
    TrimEnd(TrimStart(s))
  }

  lemma TrimOfTrimmed(s: string)
    requires Trimmed(s)
    ensures Trim(s) == s
  {
    assert SkipWhitespace(s, 0) == 0;
    assert s[0..] == s;
  }

  /** Skipping whitespace after a leading character is skipping it in the rest. */
  lemma {:induction false} SkipAfterFirst(w: char, s: string, k: nat)
    requires k <= |s|
    ensures SkipWhitespace([w] + s, k + 1) == SkipWhitespace(s, k) + 1
    decreases |s| - k
  {
    if k < |s| {
      assert ([w] + s)[k + 1] == s[k];
      if IsWhitespace(s[k]) {
        SkipAfterFirst(w, s, k + 1);
      }
    }
  }

  /** Leading whitespace does not change `trim()`. */
  lemma TrimSkipsLeading(w: char, s: string)
    requires IsWhitespace(w)
    ensures Trim([w] + s) == Trim(s)
  {
    SkipAfterFirst(w, s, 0);
    assert ([w] + s)[SkipWhitespace(s, 0) + 1..] == s[SkipWhitespace(s, 0)..];
  }

  /**
   * What `trim()` means: it keeps one contiguous stretch of `s` and drops
   * only whitespace on either side of it. With `Trimmed`, this pins the
   * result down: the stretch runs from the first non-whitespace character
   * to the last.
   */
  lemma TrimIsSlice(s: string)
    ensures exists i, j ::
              && 0 <= i <= j <= |s| && Trim(s) == s[i..j]
              && (forall k :: 0 <= k < i ==> IsWhitespace(s[k]))
              && (forall k :: j <= k < |s| ==> IsWhitespace(s[k]))
  {
    var i := SkipWhitespace(s, 0);
    var t := s[i..];
    var m := SkipWhitespaceBack(t, |t|);
    assert Trim(s) == s[i..i + m];
    forall k | i + m <= k < |s| ensures IsWhitespace(s[k]) {
      assert s[k] == t[k - i];
    }
  }

  /** Trimming adds no character: one absent from `s` is absent from `trim()`. */
  lemma TrimWithin(s: string, c: char)
    requires c !in s
    ensures c !in Trim(s)
  {
    var i := SkipWhitespace(s, 0);
    var t := s[i..];
    assert Trim(s) == t[..SkipWhitespaceBack(t, |t|)];
    assert forall d :: d in t ==> d in s;
  }

  /** `find(c)`: the index of the first `c`, if any. */
  function Find(s: string, c: char): (r: Option<nat>)
    ensures r.Some? ==> r.value < |s| && s[r.value] == c && c !in s[..r.value]
    ensures r.None? <==> c !in s
  {
    if s == [] then None
    else if s[0] == c then Some(0)
    else match Find(s[1..], c)
      case None => None
      case Some(i) =>
        assert s[..i + 1] == [s[0]] + s[1..][..i];
        Some(i + 1)
  }

  lemma FindAfter(a: string, c: char, b: string)
    requires c !in a
    ensures Find(a + [c] + b, c) == Some(|a|)
  {
    var s := a + [c] + b;
    assert s[|a|] == c && s[..|a|] == a;
  }

  /** Length of the run of non-whitespace characters that starts `s`. */
  function TokenLength(s: string): (n: nat)
    ensures n <= |s| && NoWhitespace(s[..n])
    ensures n < |s| ==> IsWhitespace(s[n])
  {
    if s == [] || IsWhitespace(s[0]) then 0
    else
      var n := TokenLength(s[1..]);
      assert s[..n + 1] == [s[0]] + s[1..][..n];
      n + 1
  }

  /** `split_whitespace()`: the maximal runs of non-whitespace characters, in order. */
  function SplitWhitespace(s: string): (ts: seq<string>)
    ensures forall i :: 0 <= i < |ts| ==> ts[i] != [] && NoWhitespace(ts[i])
    decreases |s|
  {
    if s == [] then []
    else if IsWhitespace(s[0]) then SplitWhitespace(s[1..])
    else
      var n := TokenLength(s);
      [s[..n]] + SplitWhitespace(s[n..])
  }

  lemma TokenLengthOf(a: string, rest: string)
    requires NoWhitespace(a)
    requires rest == [] || IsWhitespace(rest[0])
    ensures TokenLength(a + rest) == |a|
    decreases |a|
  {
    if a != [] {
      assert (a + rest)[1..] == a[1..] + rest;
      TokenLengthOf(a[1..], rest);
    }
  }

  /** A whitespace-free token followed by whitespace is split off as the first token. */
  lemma SplitFirstToken(a: string, w: char, rest: string)
    requires a != [] && NoWhitespace(a) && IsWhitespace(w)
    ensures SplitWhitespace(a + [w] + rest) == [a] + SplitWhitespace(rest)
  {
    var s := a + [w] + rest;
    assert s == a + ([w] + rest);
    TokenLengthOf(a, [w] + rest);
    assert s[..|a|] == a;
    assert s[|a|..] == [w] + rest;
    assert s[|a|..][1..] == rest;
  }

  lemma SplitSingleToken(a: string)
    requires a != [] && NoWhitespace(a)
    ensures SplitWhitespace(a) == [a]
  {
    TokenLengthOf(a, []);
    assert a + [] == a;
  }

  /**
   * What `split_whitespace()` means: a whitespace character separates, so
   * the tokens of `a`, a whitespace character and `b` are the tokens of `a`
   * followed by those of `b`. With `SplitSingleToken`, this determines the
   * result for every text.
   */
  lemma {:induction false} SplitAround(a: string, w: char, b: string)
    requires IsWhitespace(w)
    ensures SplitWhitespace(a + [w] + b) == SplitWhitespace(a) + SplitWhitespace(b)
    decreases |a|
  {
    var s := a + [w] + b;
    if a == [] {
      assert s == [w] + b && s[1..] == b;
    } else if IsWhitespace(a[0]) {
      assert s[0] == a[0] && s[1..] == a[1..] + [w] + b;
      SplitAround(a[1..], w, b);
    } else {
      var m := TokenLength(a);
      if m < |a| {
        SplitTokenFirst(a, w, b);
        SplitAround(a[m..], w, b);
      } else {
        SplitTokenAll(a, w, b);
      }
    }
  }

  /** A first token that ends inside `a` is split off the same way with or without what follows `a`. */
  lemma SplitTokenFirst(a: string, w: char, b: string)
    requires a != [] && !IsWhitespace(a[0]) && IsWhitespace(w) && TokenLength(a) < |a|
    ensures var m := TokenLength(a);
      && SplitWhitespace(a + [w] + b) == [a[..m]] + SplitWhitespace(a[m..] + [w] + b)
      && SplitWhitespace(a) == [a[..m]] + SplitWhitespace(a[m..])
  {
    var m := TokenLength(a);
    var s := a + [w] + b;
    var rest := a[m..] + [w] + b;
    assert a == a[..m] + a[m..];
    assert s == a[..m] + rest;
    assert s[0] == a[0];
    TokenLengthOf(a[..m], rest);
    assert s[..m] == a[..m] && s[m..] == rest;
  }

  /** When all of `a` is one token, the whitespace after it ends that token. */
  lemma SplitTokenAll(a: string, w: char, b: string)
    requires a != [] && !IsWhitespace(a[0]) && IsWhitespace(w) && TokenLength(a) == |a|
    ensures SplitWhitespace(a + [w] + b) == SplitWhitespace(a) + SplitWhitespace(b)
  {
    var s := a + [w] + b;
    assert a[..|a|] == a;
    assert s == a + ([w] + b);
    assert s[0] == a[0];
    TokenLengthOf(a, [w] + b);
    assert s[..|a|] == a && s[|a|..] == [w] + b && s[|a|..][1..] == b;
    SplitSingleToken(a);
  }

  /** Drops one trailing carriage return. */
  function StripCr(l: string): (r: string)
    ensures r == l || (l == r + ['\r'])
  {
    if |l| > 0 && l[|l| - 1] == '\r' then l[..|l| - 1] else l
  }

  /**
   * `lines()`: the pieces between line feeds, each with a `"\r\n"` or `"\n"`
   * terminator removed; a final terminator does not start an empty line, and
   * a carriage return not followed by a line feed stays in the line.
   */
  function Lines(s: string): (ls: seq<string>)
    ensures forall i :: 0 <= i < |ls| ==> '\n' !in ls[i]
    decreases |s|
  {
    if s == [] then []
    else match Find(s, '\n')
      case None => [s]
      case Some(i) => [StripCr(s[..i])] + Lines(s[i + 1..])
  }

  /** A line terminated by CR LF is the first line. */
  lemma LinesCrlf(a: string, b: string)
    requires '\n' !in a
    ensures Lines(a + "\r\n" + b) == [a] + Lines(b)
  {
    var s := a + "\r\n" + b;
    assert s == (a + ['\r']) + ['\n'] + b;
    FindAfter(a + ['\r'], '\n', b);
    assert s[..|a| + 1] == a + ['\r'];
    assert s[|a| + 2..] == b;
  }

  /**
   * A line ended by a line feed is the first line, less one carriage return
   * before the line feed; with `LinesLast`, this determines `lines()` for
   * every text.
   */
  lemma LinesLf(a: string, b: string)
    requires '\n' !in a
    ensures Lines(a + "\n" + b) == [StripCr(a)] + Lines(b)
  {
    var s := a + "\n" + b;
    assert s == a + ['\n'] + b;
    FindAfter(a, '\n', b);
    assert s[..|a|] == a;
    assert s[|a| + 1..] == b;
  }

  lemma LinesLast(a: string)
    requires a != [] && '\n' !in a
    ensures Lines(a) == [a]
  {
  }

  /** `join(sep)`: the pieces in order, with `sep` between consecutive ones. */
  function Join<T>(ps: seq<seq<T>>, sep: seq<T>): seq<T> {
    if ps == [] then []
    else if |ps| == 1 then ps[0]
    else ps[0] + sep + Join(ps[1..], sep)
  }

  /**
   * `lines()` undoes joining with CR LF, provided no piece holds a line feed
   * and the last piece is not empty.
   */
  lemma {:induction false} LinesOfJoin(ls: seq<string>)
    requires |ls| >= 1 && ls[|ls| - 1] != []
    requires forall i :: 0 <= i < |ls| ==> '\n' !in ls[i]
    ensures Lines(Join(ls, "\r\n")) == ls
  {
    if |ls| == 1 {
      LinesLast(ls[0]);
    } else {
      LinesOfJoin(ls[1..]);
      LinesCrlf(ls[0], Join(ls[1..], "\r\n"));
      assert [ls[0]] + ls[1..] == ls;
    }
  }

  /** `u8::to_ascii_lowercase`, lifted to characters: only `A`..`Z` change. */
  function ToAsciiLowercase(c: char): (d: char)
    ensures ('A' <= c <= 'Z') ==> d as int == c as int + 32
    ensures !('A' <= c <= 'Z') ==> d == c
  {
    if 'A' <= c <= 'Z' then (c as int + 32) as char else c
  }

  /**
   * `eq_ignore_ascii_case`: equal after lower-casing ASCII letters. Rust
   * compares the UTF-8 bytes; `Response.EqIgnoreAsciiCaseBytes` proves that
   * comparing characters gives the same answer.
   */
  predicate EqIgnoreAsciiCase(a: string, b: string) {
    |a| == |b| && forall i :: 0 <= i < |a| ==> ToAsciiLowercase(a[i]) == ToAsciiLowercase(b[i])
  }
}
