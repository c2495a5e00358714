/**
 * replaceVariable on texts of a fixed shape: one or two placeholders and no
 * other '$'. These pin down what the loop does step by step: which
 * placeholders it rewrites, that every occurrence of a matched literal is
 * rewritten, and that text brought in by a value is not searched again.
 */
module Shapes {
  import opened Text
  import opened Placeholder
  import opened Entities
  import opened Resolver

  /**
   * "${" + code + "}" with a code outside the grammar (such as `${x}` or
   * `${1ab}`) is never replaced, whatever the variables.
   */
  lemma RejectedCodeKept(s: string, pre: string, code: string, post: string, vs: seq<Variable>)
    requires DistinctCodes(vs)
    requires !ValidCode(code) && '}' !in code
    requires '$' !in pre && '$' !in code && '$' !in post
    requires s == pre + Wrap(code) + post
    ensures Resolve(s, vs) == s
  {
    ScanRejected(s, pre, code, post);
  }

  /** The loop over one match is one step. */
  lemma ApplyOne(work: string, m: Match, d: map<string, string>)
    ensures ApplyMatches(work, [m], d) == Step(work, m.group, d)
  {
    assert [m][1..] == [];
  }

  /** The loop over two matches is two steps. */
  lemma ApplyTwo(work: string, m1: Match, m2: Match, d: map<string, string>)
    ensures ApplyMatches(work, [m1, m2], d) == Step(Step(work, m1.group, d), m2.group, d)
  {
    assert [m1, m2][1..] == [m2];
    ApplyOne(Step(work, m1.group, d), m2, d);
  }

  /** replaceVariable on a non-empty text for a team with variables runs the loop. */
  lemma ResolveRunsLoop(s: string, vs: seq<Variable>, ms: seq<Match>)
    requires DistinctCodes(vs) && s != "" && vs != []
    requires Scan(s, 0) == ms
    ensures Resolve(s, vs) == ApplyMatches(s, ms, ToMap(vs))
  {
  }

  /** The loop over a text whose only match is `p`: one step. */
  lemma ResolveOneMatch(s: string, vs: seq<Variable>, m: Match)
    requires DistinctCodes(vs) && s != "" && vs != []
    requires Scan(s, 0) == [m]
    ensures Resolve(s, vs) == Step(s, m.group, ToMap(vs))
  {
    ResolveRunsLoop(s, vs, [m]);
    ApplyOne(s, m, ToMap(vs));
  }

  /** The loop over a text with exactly two matches `p` then `q`: two steps. */
  lemma ResolveTwoMatches(s: string, vs: seq<Variable>, m1: Match, m2: Match)
    requires DistinctCodes(vs) && s != "" && vs != []
    requires Scan(s, 0) == [m1, m2]
    ensures Resolve(s, vs) == Step(Step(s, m1.group, ToMap(vs)), m2.group, ToMap(vs))
  {
    ResolveRunsLoop(s, vs, [m1, m2]);
    ApplyTwo(s, m1, m2, ToMap(vs));
  }

  /**
   * A text with one placeholder, and no other '$', whose code has the
   * non-empty value `v`: that placeholder is replaced by `v`.
   */
  lemma ResolveSingle(s: string, pre: string, code: string, post: string, vs: seq<Variable>, v: string)
    requires DistinctCodes(vs)
    requires ValidCode(code) && '$' !in pre && '$' !in post
    requires s == pre + Wrap(code) + post
    requires Lookup(ToMap(vs), Wrap(code)) == v && v != ""
    ensures Resolve(s, vs) == pre + v + post
  {
    assert vs != [];
    ScanSingle(s, pre, code, post);
    ResolveOneMatch(s, vs, Match(|pre|, Wrap(code)));
    ReplaceOnce(s, pre, Wrap(code), post, v);
  }

  /** A code with a non-empty value means the team has variables. */
  lemma FoundNonEmpty(vs: seq<Variable>, p: string)
    requires DistinctCodes(vs) && Lookup(ToMap(vs), p) != ""
    ensures vs != []
  {
  }

  /** The step for a placeholder with a non-empty value is a replace-all. */
  lemma StepWithValue(s: string, p: string, d: map<string, string>, v: string, r: string)
    requires Lookup(d, p) == v && v != ""
    requires |p| > 0 && ReplaceAll(s, p, v) == r
    ensures Step(s, p, d) == r
  {
  }

  /** The step for a placeholder without a usable value changes nothing. */
  lemma StepWithoutValue(s: string, p: string, d: map<string, string>)
    requires Lookup(d, p) == ""
    ensures Step(s, p, d) == s
  {
  }

  /** `s` is `pre`, a first placeholder, `mid`, a second one, `post`, with no other '$'. */
  ghost predicate PairShape(s: string, pre: string, code1: string, mid: string, code2: string, post: string)
  {
    && ValidCode(code1) && ValidCode(code2)
    && '$' !in pre && '$' !in mid && '$' !in post
    && s == pre + Wrap(code1) + mid + Wrap(code2) + post
  }

  /** The matches of a text of the pair shape. */
  lemma PairScan(s: string, pre: string, code1: string, mid: string, code2: string, post: string)
    requires PairShape(s, pre, code1, mid, code2, post)
    ensures s != "" && IsPlaceholder(Wrap(code1)) && IsPlaceholder(Wrap(code2))
    ensures Scan(s, 0) == [Match(|pre|, Wrap(code1)), Match(|pre| + |Wrap(code1)| + |mid|, Wrap(code2))]
  {
    PlaceholderIsWrap(Wrap(code1), code1);
    PlaceholderIsWrap(Wrap(code2), code2);
    ScanPair(s, pre, code1, mid, code2, post);
  }

  /** On a text of the pair shape the loop runs the left step, then the right one. */
  lemma PairResolve(s: string, pre: string, code1: string, mid: string, code2: string, post: string,
                    vs: seq<Variable>)
    requires DistinctCodes(vs) && vs != []
    requires PairShape(s, pre, code1, mid, code2, post)
    ensures IsPlaceholder(Wrap(code1)) && IsPlaceholder(Wrap(code2))
    ensures Resolve(s, vs) == Step(Step(s, Wrap(code1), ToMap(vs)), Wrap(code2), ToMap(vs))
  {
    PairScan(s, pre, code1, mid, code2, post);
    ResolveTwoMatches(s, vs, Match(|pre|, Wrap(code1)), Match(|pre| + |Wrap(code1)| + |mid|, Wrap(code2)));
  }

  /** The two steps for a placeholder that occurs twice. */
  lemma RepeatedSteps(s: string, pre: string, code: string, mid: string, post: string,
                      d: map<string, string>, v: string)
    requires PairShape(s, pre, code, mid, code, post)
    requires Lookup(d, Wrap(code)) == v && v != "" && '$' !in v
    ensures IsPlaceholder(Wrap(code))
    ensures Step(Step(s, Wrap(code), d), Wrap(code), d) == pre + v + mid + v + post
  {
    var r := pre + v + mid + v + post;
    PlaceholderIsWrap(Wrap(code), code);
    ReplaceTwice(s, pre, Wrap(code), mid, post, v);
    ReplaceNone(r, Wrap(code), v);
    StepWithValue(s, Wrap(code), d, v, r);
    StepWithValue(r, Wrap(code), d, v, r);
  }

  /**
   * A placeholder that occurs twice is matched twice; the first step
   * already rewrites both occurrences, and the second finds nothing left.
   */
  lemma ResolveRepeated(s: string, pre: string, code: string, mid: string, post: string,
                        vs: seq<Variable>, v: string)
    requires DistinctCodes(vs)
    requires PairShape(s, pre, code, mid, code, post)
    requires Lookup(ToMap(vs), Wrap(code)) == v && v != "" && '$' !in v
    ensures Resolve(s, vs) == pre + v + mid + v + post
  {
    FoundNonEmpty(vs, Wrap(code));
    PairResolve(s, pre, code, mid, code, post, vs);
    RepeatedSteps(s, pre, code, mid, post, ToMap(vs), v);
  }

  /** The two steps when only the left placeholder has a value. */
  lemma FirstOnlySteps(s: string, pre: string, code1: string, mid: string, code2: string, post: string,
                       d: map<string, string>, v: string)
    requires PairShape(s, pre, code1, mid, code2, post) && code1 != code2
    requires Lookup(d, Wrap(code1)) == v && v != "" && Lookup(d, Wrap(code2)) == ""
    ensures IsPlaceholder(Wrap(code1)) && IsPlaceholder(Wrap(code2))
    ensures Step(Step(s, Wrap(code1), d), Wrap(code2), d) == pre + v + mid + Wrap(code2) + post
  {
    var rest := mid + Wrap(code2) + post;
    var r1 := pre + v + rest;
    PlaceholderIsWrap(Wrap(code1), code1);
    PlaceholderIsWrap(Wrap(code2), code2);
    OtherPlaceholderAbsent(rest, mid, code2, post, code1);
    Regroup(pre, Wrap(code1), mid, Wrap(code2), post);
    assert s[..|pre|] == pre;
    NoOccurrenceWithoutFirstChar(s, Wrap(code1), |pre|);
    ReplaceFirstOnly(s, pre, Wrap(code1), rest, v);
    StepWithValue(s, Wrap(code1), d, v, r1);
    StepWithoutValue(r1, Wrap(code2), d);
    Regroup(pre, v, mid, Wrap(code2), post);
  }


  /**
   * Of two placeholders, one with a value and one without: the first is
   * replaced and the second is left verbatim.
   */
  lemma ResolveFirstOnly(s: string, pre: string, code1: string, mid: string, code2: string, post: string,
                         vs: seq<Variable>, v: string)
    requires DistinctCodes(vs)
    requires PairShape(s, pre, code1, mid, code2, post) && code1 != code2
    requires Lookup(ToMap(vs), Wrap(code1)) == v && v != "" && Lookup(ToMap(vs), Wrap(code2)) == ""
    ensures Resolve(s, vs) == pre + v + mid + Wrap(code2) + post
  {
    FoundNonEmpty(vs, Wrap(code1));
    PairResolve(s, pre, code1, mid, code2, post, vs);
    FirstOnlySteps(s, pre, code1, mid, code2, post, ToMap(vs), v);
  }

  /** The two steps when the left value is the right placeholder itself. */
  lemma ChainedSteps(s: string, pre: string, code1: string, mid: string, code2: string, post: string,
                     d: map<string, string>, v: string)
    requires PairShape(s, pre, code1, mid, code2, post) && code1 != code2
    requires Lookup(d, Wrap(code1)) == Wrap(code2) && Lookup(d, Wrap(code2)) == v && v != "" && '$' !in v
    ensures IsPlaceholder(Wrap(code1)) && IsPlaceholder(Wrap(code2))
    ensures Step(Step(s, Wrap(code1), d), Wrap(code2), d) == pre + v + mid + v + post
  {
    var rest := mid + Wrap(code2) + post;
    var r1 := pre + Wrap(code2) + rest;
    PlaceholderIsWrap(Wrap(code1), code1);
    PlaceholderIsWrap(Wrap(code2), code2);
    OtherPlaceholderAbsent(rest, mid, code2, post, code1);
    Regroup(pre, Wrap(code1), mid, Wrap(code2), post);
    assert s[..|pre|] == pre;
    NoOccurrenceWithoutFirstChar(s, Wrap(code1), |pre|);
    ReplaceFirstOnly(s, pre, Wrap(code1), rest, Wrap(code2));
    StepWithValue(s, Wrap(code1), d, Wrap(code2), r1);
    Regroup(pre, Wrap(code2), mid, Wrap(code2), post);
    ReplaceTwice(r1, pre, Wrap(code2), mid, post, v);
    StepWithValue(r1, Wrap(code2), d, v, pre + v + mid + v + post);
  }

  /**
   * The first placeholder's value is the second placeholder itself, and the
   * second is matched later in the original text: the later step replaces
   * both the original occurrence and the one the first step brought in.
   * That values are never searched on their own is
   * ResolveReadsOnlyMatchedCodes.
   */
  lemma ResolveChained(s: string, pre: string, code1: string, mid: string, code2: string, post: string,
                       vs: seq<Variable>, v: string)
    requires DistinctCodes(vs)
    requires PairShape(s, pre, code1, mid, code2, post) && code1 != code2
    requires Lookup(ToMap(vs), Wrap(code1)) == Wrap(code2)
    requires Lookup(ToMap(vs), Wrap(code2)) == v && v != "" && '$' !in v
    ensures Resolve(s, vs) == pre + v + mid + v + post
  {
    FoundNonEmpty(vs, Wrap(code2));
    PairResolve(s, pre, code1, mid, code2, post, vs);
    ChainedSteps(s, pre, code1, mid, code2, post, ToMap(vs), v);
  }
}
