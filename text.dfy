/**
 * Literal string operations the variable service relies on from
 * java.lang.String: substring occurrence (`contains` / `indexOf`) and
 * literal replace-all (`replace(CharSequence, CharSequence)`).
 */
module Text {

  /** `t` occurs in `s` starting at index `i`. */
  predicate OccursAt(s: string, t: string, i: nat)
  {
    i + |t| <= |s| && s[i..i + |t|] == t
  }

  /** `t` occurs somewhere in `s` as a contiguous substring. */
  ghost predicate Contains(s: string, t: string)
  {
    exists i: nat :: OccursAt(s, t, i)
  }

  /** No occurrence of `t` in `s` starts before index `k`. */
  ghost predicate NoOccurrenceBefore(s: string, t: string, k: nat)
  {
    forall j: nat :: j < k ==> !OccursAt(s, t, j)
  }

  /**
   * The first index at or after `from` where `t` occurs in `s`, or -1
   * (String.indexOf(t, from)).
   */
  function IndexOf(s: string, t: string, from: nat): (r: int)
    ensures r == -1 || (from <= r && OccursAt(s, t, r))
    ensures forall j: nat :: from <= j && (r == -1 || j < r) ==> !OccursAt(s, t, j)
    decreases |s| - from
  {
    if from + |t| > |s| then -1
    else if s[from..from + |t|] == t then from
    else IndexOf(s, t, from + 1)
  }

  /** String.contains: true exactly when `t` occurs in `s`. */
  lemma IndexOfContains(s: string, t: string)
    ensures IndexOf(s, t, 0) >= 0 <==> Contains(s, t)
  {
    if IndexOf(s, t, 0) >= 0 {
      var i: nat := IndexOf(s, t, 0);
      assert OccursAt(s, t, i);
    }
  }

  /**
   * Every non-overlapping occurrence of the non-empty literal `t` in `s`,
   * taken from left to right, replaced by `v` (String.replace).
   */
  function ReplaceAll(s: string, t: string, v: string): string
    requires |t| > 0
    decreases |s|
  {
    if |s| < |t| then s
    else if s[..|t|] == t then v + ReplaceAll(s[|t|..], t, v)
    else [s[0]] + ReplaceAll(s[1..], t, v)
  }

  lemma OccursAtTail(s: string, t: string, n: nat, j: nat)
    requires n <= |s|
    ensures OccursAt(s[n..], t, j) <==> OccursAt(s, t, j + n)
  {
    if j + |t| <= |s| - n {
      assert s[n..][j..j + |t|] == s[j + n..j + n + |t|];
    }
  }

  /** Five pieces regrouped around the second: the first two, then the other three together. */
  lemma Regroup(a: string, b: string, c: string, d: string, e: string)
    ensures a + b + c + d + e == a + b + (c + d + e)
  {
  }

  /** A head put before a three-piece text joins its first piece. */
  lemma Prepend(h: string, x: string, p: string, y: string)
    ensures h + (x + p + y) == (h + x) + p + y
  {
  }

  /** The first character of a + b + c, with a not empty, and what follows it. */
  lemma HeadOfThree(a: string, b: string, c: string)
    requires a != []
    ensures (a + b + c)[0] == a[0] && (a + b + c)[1..] == a[1..] + b + c && a + b + c == a + (b + c)
  {
  }

  /** The three pieces of a + b + c, recovered by slicing. */
  lemma SlicesOfThree(a: string, b: string, c: string)
    ensures (a + b + c)[0..|a|] == a
    ensures (a + b + c)[|a|..|a| + |b|] == b
    ensures (a + b + c)[|a| + |b|..] == c
  {
  }

  /** The five pieces of a + b + c + d + e, recovered by slicing. */
  lemma SlicesOfFive(a: string, b: string, c: string, d: string, e: string)
    ensures (a + b + c + d + e)[0..|a|] == a
    ensures (a + b + c + d + e)[|a|..|a| + |b|] == b
    ensures (a + b + c + d + e)[|a| + |b|..|a| + |b| + |c|] == c
    ensures (a + b + c + d + e)[|a| + |b| + |c|..|a| + |b| + |c| + |d|] == d
    ensures (a + b + c + d + e)[|a| + |b| + |c| + |d|..] == e
  {
  }

  /** The part of a + b + c from the `k`-th character of b on. */
  lemma SliceFrom(a: string, b: string, c: string, k: nat)
    requires k <= |b|
    ensures (a + b + c)[|a| + k..] == b[k..] + c
  {
    assert (a + b + c)[|a|..] == b + c;
    assert (b + c)[k..] == b[k..] + c;
  }

  /** Replacing a literal that does not occur leaves the text unchanged. */
  lemma {:induction false} ReplaceAllAbsent(s: string, t: string, v: string)
    requires |t| > 0
    requires !Contains(s, t)
    ensures ReplaceAll(s, t, v) == s
    decreases |s|
  {
    if |s| >= |t| {
      assert !OccursAt(s, t, 0);
      forall j: nat ensures !OccursAt(s[1..], t, j) {
        OccursAtTail(s, t, 1, j);
        assert !OccursAt(s, t, j + 1);
      }
      ReplaceAllAbsent(s[1..], t, v);
    }
  }

  /**
   * Replacing at the first occurrence: when `t` first occurs at |a| in
   * a + t + b, that occurrence becomes `v` and the search resumes after it.
   * With ReplaceAllAbsent this pins ReplaceAll down completely.
   */
  lemma {:induction false} ReplaceAllFirst(a: string, t: string, b: string, v: string)
    requires |t| > 0
    requires NoOccurrenceBefore(a + t + b, t, |a|)
    ensures ReplaceAll(a + t + b, t, v) == a + v + ReplaceAll(b, t, v)
    decreases |a|
  {
    var s := a + t + b;
    if a == [] {
      assert s == t + b;
      assert s[..|t|] == t;
      assert s[|t|..] == b;
    } else {
      assert !OccursAt(s, t, 0);
      assert s[..|t|] != t;
      assert s[1..] == a[1..] + t + b;
      forall j: nat | j < |a[1..]| ensures !OccursAt(a[1..] + t + b, t, j) {
        OccursAtTail(s, t, 1, j);
        assert !OccursAt(s, t, j + 1);
      }
      ReplaceAllFirst(a[1..], t, b, v);
      assert s == [a[0]] + (a[1..] + t + b);
      assert a == [a[0]] + a[1..];
    }
  }

  /** A prefix of `s` that no occurrence of `t` starts in is kept as is. */
  lemma {:induction false} ReplaceAllKeepsPrefix(s: string, t: string, v: string, k: nat)
    requires |t| > 0
    requires k <= |s|
    requires NoOccurrenceBefore(s, t, k)
    ensures k <= |ReplaceAll(s, t, v)| && ReplaceAll(s, t, v)[..k] == s[..k]
    decreases |s|
  {
    if |s| < |t| || k == 0 {
    } else {
      assert !OccursAt(s, t, 0);
      forall j: nat | j < k - 1 ensures !OccursAt(s[1..], t, j) {
        OccursAtTail(s, t, 1, j);
        assert !OccursAt(s, t, j + 1);
      }
      ReplaceAllKeepsPrefix(s[1..], t, v, k - 1);
      var r := ReplaceAll(s[1..], t, v);
      assert ReplaceAll(s, t, v) == [s[0]] + r;
      assert s[..k] == [s[0]] + s[1..][..k - 1];
    }
  }

  /** A first character at which `t` does not occur is copied, and replacing goes on after it. */
  lemma ReplaceAllKeepsHead(s: string, t: string, v: string)
    requires |t| > 0 && |s| > 0 && !OccursAt(s, t, 0)
    ensures ReplaceAll(s, t, v) == [s[0]] + ReplaceAll(s[1..], t, v)
  {
    if |s| < |t| {
      assert s == [s[0]] + s[1..];
    }
  }

  /**
   * A stretch `c` without the first character of `t` is copied as is, and
   * replacing carries on in what follows it.
   */
  lemma {:induction false} ReplaceAllSkipsFree(c: string, b: string, t: string, v: string)
    requires |t| > 0 && forall k | 0 <= k < |c| :: c[k] != t[0]
    ensures ReplaceAll(c + b, t, v) == c + ReplaceAll(b, t, v)
    decreases |c|
  {
    if c == [] {
      assert c + b == b;
    } else {
      var s := c + b;
      assert s[0] == c[0] != t[0];
      if |s| >= |t| {
        assert s[0..|t|][0] == s[0];
      }
      ReplaceAllKeepsHead(s, t, v);
      assert s[0] == c[0] && s[1..] == c[1..] + b;
      ReplaceAllSkipsFree(c[1..], b, t, v);
      assert c == [c[0]] + c[1..];
    }
  }

  /** No occurrence of `t` starts in a stretch of `s` lacking its first character. */
  lemma NoOccurrenceWithoutFirstChar(s: string, t: string, k: nat)
    requires |t| > 0 && k <= |s| && t[0] !in s[..k]
    ensures NoOccurrenceBefore(s, t, k)
  {
    forall j: nat | j < k ensures !OccursAt(s, t, j) {
      assert s[..k][j] == s[j];
      if j + |t| <= |s| {
        assert s[j..j + |t|][0] == s[j];
      }
    }
  }

  /** `t` is not in `s` when the positions it could start at lack its first character. */
  lemma AbsentWithoutFirstChar(s: string, t: string, k: nat)
    requires |t| > 0 && k <= |s| && t[0] !in s[..k] && |s| < k + |t|
    ensures !Contains(s, t)
  {
    NoOccurrenceWithoutFirstChar(s, t, k);
  }

  /** A text without the first character of `t` is not changed by replacing `t`. */
  lemma ReplaceNone(s: string, t: string, v: string)
    requires |t| > 0 && t[0] !in s
    ensures ReplaceAll(s, t, v) == s
  {
    assert s[..|s|] == s;
    AbsentWithoutFirstChar(s, t, |s|);
    ReplaceAllAbsent(s, t, v);
  }

  /**
   * A single occurrence of `t`, with its first character nowhere else, is
   * replaced by `v`.
   */
  lemma ReplaceOnce(s: string, pre: string, t: string, post: string, v: string)
    requires |t| > 0 && t[0] !in pre && t[0] !in post
    requires s == pre + t + post
    ensures ReplaceAll(s, t, v) == pre + v + post
  {
    assert s[..|pre|] == pre;
    NoOccurrenceWithoutFirstChar(s, t, |pre|);
    ReplaceAllFirst(pre, t, post, v);
    ReplaceNone(post, t, v);
  }

  /**
   * Two occurrences of `t`, with its first character nowhere else, are both
   * replaced by `v`.
   */
  lemma ReplaceTwice(s: string, pre: string, t: string, mid: string, post: string, v: string)
    requires |t| > 0 && t[0] !in pre && t[0] !in mid && t[0] !in post
    requires s == pre + t + mid + t + post
    ensures ReplaceAll(s, t, v) == pre + v + mid + v + post
  {
    var rest := mid + t + post;
    Regroup(pre, t, mid, t, post);
    assert s[..|pre|] == pre;
    NoOccurrenceWithoutFirstChar(s, t, |pre|);
    ReplaceAllFirst(pre, t, rest, v);
    ReplaceOnce(rest, mid, t, post, v);
  }

  /**
   * The first occurrence of `t`, when the text after it holds no `t`, is the
   * only one replaced.
   */
  lemma ReplaceFirstOnly(s: string, pre: string, t: string, rest: string, v: string)
    requires |t| > 0 && NoOccurrenceBefore(s, t, |pre|) && !Contains(rest, t)
    requires s == pre + t + rest
    ensures ReplaceAll(s, t, v) == pre + v + rest
  {
    ReplaceAllFirst(pre, t, rest, v);
    ReplaceAllAbsent(rest, t, v);
  }
}
