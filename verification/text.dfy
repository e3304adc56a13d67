/**
 * The handful of Python string operations the scraper relies on, stated over
 * `seq<char>`: `str.strip()`, the `in` substring test, `str.split(sep, 1)`,
 * `str.replace(c, '')`, `''.join(...)` and a leftmost `re.search(r'\d+%', s)`.
 */
module Text {
  import opened Wrappers

  /** The characters for which Python's `str.isspace()` holds, i.e. the ones `strip()` removes. */
  predicate IsSpace(c: char) {
    || '\t' <= c <= '\r' || '\U{1c}' <= c <= '\U{1f}' || c == ' ' || c == '\U{85}' || c == '\U{a0}'
    || c == '\U{1680}' || '\U{2000}' <= c <= '\U{200a}' || c == '\U{2028}' || c == '\U{2029}'
    || c == '\U{202f}' || c == '\U{205f}' || c == '\U{3000}'
  }

  /** `s.strip()`: drops whitespace from the front, then from the back. */
  function Strip(s: string): string
    decreases |s|
  {
    if s != [] && IsSpace(s[0]) then Strip(s[1..])
    else if s != [] && IsSpace(s[|s| - 1]) then Strip(s[..|s| - 1])
    else s
  }

  /** `r` is the slice `s[i..j]`, and everything outside the slice is whitespace. */
  ghost predicate TrimmedTo(s: string, r: string, i: int, j: int) {
    && 0 <= i <= j <= |s| && r == s[i..j]
    && (forall k :: 0 <= k < i ==> IsSpace(s[k]))
    && (forall k :: j <= k < |s| ==> IsSpace(s[k]))
  }

  /** `strip()` keeps one slice of its input and drops only whitespace around it. */
  lemma {:induction false} StripSlice(s: string) returns (i: nat, j: nat)
    ensures TrimmedTo(s, Strip(s), i, j)
    ensures s != [] && !IsSpace(s[0]) ==> i == 0
    decreases |s|
  {
    if s != [] && IsSpace(s[0]) {
      var t := s[1..];
      var i', j' := StripSlice(t);
      i, j := i' + 1, j' + 1;
      assert s[i..j] == t[i'..j'];
      forall k | 0 <= k < i ensures IsSpace(s[k]) {
        if k > 0 { assert s[k] == t[k - 1]; }
      }
      forall k | j <= k < |s| ensures IsSpace(s[k]) {
        assert s[k] == t[k - 1];
      }
    } else if s != [] && IsSpace(s[|s| - 1]) {
      var t := s[..|s| - 1];
      i, j := StripSlice(t);
      assert t != [] ==> t[0] == s[0];
      assert s[i..j] == t[i..j];
      forall k | j <= k < |s| ensures IsSpace(s[k]) {
        if k < |s| - 1 { assert s[k] == t[k]; }
      }
    } else {
      i, j := 0, |s|;
    }
  }

  /** What `strip()` keeps neither starts nor ends with whitespace. */
  lemma {:induction false} StripEnds(s: string)
    ensures var r := Strip(s); r == [] || (!IsSpace(r[0]) && !IsSpace(r[|r| - 1]))
    decreases |s|
  {
    if s != [] && IsSpace(s[0]) {
      StripEnds(s[1..]);
    } else if s != [] && IsSpace(s[|s| - 1]) {
      StripEnds(s[..|s| - 1]);
    }
  }

  /** Every character `strip()` keeps comes from its input. */
  lemma StripKeepsChars(s: string, c: char)
    ensures c in Strip(s) ==> c in s
  {
    if c in Strip(s) {
      var i, j := StripSlice(s);
      var k :| 0 <= k < |Strip(s)| && Strip(s)[k] == c;
      assert s[i + k] == c;
    }
  }

  /** Stripping twice changes nothing more. */
  lemma {:induction false} StripIdempotent(s: string)
    ensures Strip(Strip(s)) == Strip(s)
    decreases |s|
  {
    if s != [] && IsSpace(s[0]) {
      StripIdempotent(s[1..]);
    } else if s != [] && IsSpace(s[|s| - 1]) {
      StripIdempotent(s[..|s| - 1]);
    }
  }

  /** `t in s` for strings: `t` occurs as a contiguous piece of `s`. */
  predicate Contains(s: string, t: string)
    decreases |s|
  {
    (|t| <= |s| && s[..|t|] == t) || (s != [] && Contains(s[1..], t))
  }

  /** The part of `s` before the first `c` (all of `s` when there is none). */
  function Before(s: string, c: char): string {
    if s == [] || s[0] == c then [] else [s[0]] + Before(s[1..], c)
  }

  /** The part of `s` after the first `c` (empty when there is none). */
  function After(s: string, c: char): string {
    if s == [] then [] else if s[0] == c then s[1..] else After(s[1..], c)
  }

  /** Around the first `c`, `s` is `Before + [c] + After`, and `Before` holds no `c`. */
  lemma {:induction false} BeforeAfter(s: string, c: char)
    requires c in s
    ensures s == Before(s, c) + [c] + After(s, c)
    ensures c !in Before(s, c)
  {
    if s[0] != c {
      assert s == [s[0]] + s[1..];
      BeforeAfter(s[1..], c);
    }
  }

  /** `s.split(sep, 1)`: the parts before and after the first `sep`, or `[s]` when there is none. */
  function SplitOnce(s: string, sep: char): (parts: seq<string>)
    ensures 1 <= |parts| <= 2
  {
    if sep in s then [Before(s, sep), After(s, sep)] else [s]
  }

  /** Splitting once keeps every character: the two parts surround the first separator. */
  lemma SplitOnceSpec(s: string, sep: char)
    ensures var parts := SplitOnce(s, sep);
      && (sep !in s ==> parts == [s])
      && (sep in s ==> |parts| == 2 && parts[0] + [sep] + parts[1] == s && sep !in parts[0])
  {
    if sep in s {
      BeforeAfter(s, sep);
    }
  }

  /** `s.replace(c, '')` for a one-character `c`. */
  function RemoveChar(s: string, c: char): (r: string)
    ensures c !in r
    ensures |r| <= |s|
  {
    if s == [] then []
    else (if s[0] == c then [] else [s[0]]) + RemoveChar(s[1..], c)
  }

  /** `replace` keeps every other character and only those. */
  lemma {:induction false} RemoveCharKeeps(s: string, c: char, x: char)
    ensures x in RemoveChar(s, c) <==> x in s && x != c
    decreases |s|
  {
    if s != [] {
      RemoveCharKeeps(s[1..], c, x);
      assert s == [s[0]] + s[1..];
    }
  }

  /** The concatenation of `xss` in order; `''.join(parts)` on strings. */
  function Flatten<T>(xss: seq<seq<T>>): seq<T> {
    if xss == [] then [] else Flatten(xss[..|xss| - 1]) + xss[|xss| - 1]
  }

  /** `[f(x) for x in xs]`. */
  function MapSeq<A, B>(f: A -> B, xs: seq<A>): (ys: seq<B>)
    ensures |ys| == |xs|
  {
    seq(|xs|, k requires 0 <= k < |xs| => f(xs[k]))
  }

  /** Mapping distributes over concatenation. */
  lemma MapSeqAppend<A, B>(f: A -> B, xs: seq<A>, ys: seq<A>)
    ensures MapSeq(f, xs + ys) == MapSeq(f, xs) + MapSeq(f, ys)
  {
  }

  /** Mapping one more element appends its image. */
  lemma MapSeqSnoc<A, B>(f: A -> B, xs: seq<A>, k: nat)
    requires k < |xs|
    ensures MapSeq(f, xs[..k + 1]) == MapSeq(f, xs[..k]) + [f(xs[k])]
  {
  }

  /** Mapping commutes with taking a prefix. */
  lemma MapSeqPrefix<A, B>(f: A -> B, xs: seq<A>, m: nat)
    requires m <= |xs|
    ensures MapSeq(f, xs)[..m] == MapSeq(f, xs[..m])
  {
  }

  /** Every element of a flattened sequence comes from one of its parts. */
  lemma {:induction false} FlattenElement<T>(xss: seq<seq<T>>, i: nat) returns (j: nat, k: nat)
    requires i < |Flatten(xss)|
    ensures j < |xss| && k < |xss[j]| && Flatten(xss)[i] == xss[j][k]
    decreases |xss|
  {
    var init := xss[..|xss| - 1];
    if i < |Flatten(init)| {
      j, k := FlattenElement(init, i);
    } else {
      j, k := |xss| - 1, i - |Flatten(init)|;
    }
  }

  /** Flattening distributes over concatenation. */
  lemma {:induction false} FlattenAppend<T>(xss: seq<seq<T>>, yss: seq<seq<T>>)
    ensures Flatten(xss + yss) == Flatten(xss) + Flatten(yss)
    decreases |yss|
  {
    if yss == [] {
      assert xss + yss == xss;
    } else {
      var init, last := yss[..|yss| - 1], yss[|yss| - 1];
      var all := xss + yss;
      assert all[..|all| - 1] == xss + init && all[|all| - 1] == last;
      FlattenAppend(xss, init);
      assert Flatten(all) == Flatten(xss + init) + last;
      assert Flatten(yss) == Flatten(init) + last;
    }
  }

  /** `[x.strip() for x in xs]`. */
  function StripEach(xs: seq<string>): (r: seq<string>)
    ensures |r| == |xs| && forall k :: 0 <= k < |xs| ==> r[k] == Strip(xs[k])
  {
    seq(|xs|, k requires 0 <= k < |xs| => Strip(xs[k]))
  }

  predicate IsDigit(c: char) {
    '0' <= c <= '9'
  }

  /** The length of the run of digits at the start of `s`. */
  function DigitRun(s: string): (n: nat)
    ensures n <= |s|
    ensures forall k :: 0 <= k < n ==> IsDigit(s[k])
    ensures n < |s| ==> !IsDigit(s[n])
  {
    if s != [] && IsDigit(s[0]) then 1 + DigitRun(s[1..]) else 0
  }

  /**
   * `\d+%` matches at the start of `t`: the maximal run of digits there is
   * non-empty and followed by `%` (a shorter run is followed by a digit, so
   * backtracking finds nothing else).
   */
  predicate PercentRun(t: string) {
    0 < DigitRun(t) < |t| && t[DigitRun(t)] == '%'
  }

  /**
   * `re.search(r'\d+%', s).group()` with ASCII digits: the leftmost start
   * position whose maximal run of digits is non-empty and followed by `%`.
   */
  function FirstPercent(s: string): (r: Option<string>)
    ensures r.Some? ==> |r.value| >= 2 && r.value[|r.value| - 1] == '%'
    ensures r.Some? ==> forall k :: 0 <= k < |r.value| - 1 ==> IsDigit(r.value[k])
    ensures r.Some? ==> Contains(s, r.value)
    ensures '%' !in s ==> r.None?
    decreases |s|
  {
    if s == [] then None
    else if PercentRun(s) then
      var n := DigitRun(s);
      assert s[..n + 1][..n + 1] == s[..n + 1];
      Some(s[..n + 1])
    else
      var r := FirstPercent(s[1..]);
      assert '%' !in s ==> '%' !in s[1..];
      r
  }

  /** `\d+%` matches at position `p` of `s`. */
  predicate MatchAt(s: string, p: nat) {
    p < |s| && PercentRun(s[p..])
  }

  lemma MatchAtShift(s: string, q: nat)
    requires s != []
    ensures MatchAt(s[1..], q) <==> MatchAt(s, q + 1)
  {
    if q + 1 <= |s| {
      assert s[1..][q..] == s[q + 1..];
    }
  }

  /** A match at the front is what the search returns. */
  lemma FirstPercentHere(s: string)
    requires MatchAt(s, 0)
    ensures FirstPercent(s) == Some(s[..DigitRun(s) + 1])
  {
    assert s[0..] == s;
  }

  /** Without a match at the front, the search moves on by one character. */
  lemma FirstPercentSkip(s: string)
    requires s != [] && !MatchAt(s, 0)
    ensures FirstPercent(s) == FirstPercent(s[1..])
  {
    assert s[0..] == s;
  }

  /** The search succeeds exactly when `\d+%` matches somewhere in `s`. */
  lemma {:induction false} FirstPercentFound(s: string)
    ensures FirstPercent(s).Some? <==> exists p :: 0 <= p < |s| && MatchAt(s, p)
    decreases |s|
  {
    if s != [] {
      if MatchAt(s, 0) {
        FirstPercentHere(s);
      } else {
        FirstPercentSkip(s);
        FirstPercentFound(s[1..]);
        if exists p :: 0 <= p < |s| && MatchAt(s, p) {
          var p :| 0 <= p < |s| && MatchAt(s, p);
          MatchAtShift(s, p - 1);
        }
        if exists p :: 0 <= p < |s| - 1 && MatchAt(s[1..], p) {
          var p :| 0 <= p < |s| - 1 && MatchAt(s[1..], p);
          MatchAtShift(s, p);
        }
      }
    }
  }

  /** No match before `p` in `s` means none before `p - 1` in its tail. */
  lemma NoMatchBefore(s: string, p: nat)
    requires 0 < p <= |s|
    requires forall q :: 0 <= q < p ==> !MatchAt(s, q)
    ensures forall q :: 0 <= q < p - 1 ==> !MatchAt(s[1..], q)
  {
    forall q | 0 <= q < p - 1
      ensures !MatchAt(s[1..], q)
    {
      MatchAtShift(s, q);
    }
  }

  /** `.group()` is the leftmost match, with the digit run found there taken in full. */
  lemma {:induction false} FirstPercentLeftmost(s: string, p: nat)
    requires MatchAt(s, p)
    requires forall q :: 0 <= q < p ==> !MatchAt(s, q)
    ensures FirstPercent(s) == Some(s[p..][..DigitRun(s[p..]) + 1])
    decreases p
  {
    if p == 0 {
      FirstPercentHere(s);
      assert s[0..] == s;
    } else {
      FirstPercentSkip(s);
      MatchAtShift(s, p - 1);
      NoMatchBefore(s, p);
      FirstPercentLeftmost(s[1..], p - 1);
      assert s[1..][p - 1..] == s[p..];
    }
  }
}
