/**
 * replaceVariable: substitutes a team's variable values for the placeholders
 * of a text. The matches are searched in the ORIGINAL text; each match whose
 * code has a non-empty value rewrites every occurrence of its literal in the
 * working text. Text a substitution brings in is never searched for matches.
 */
module Resolver {
  import opened Text
  import opened Placeholder
  import opened Entities
  import opened Wrappers

  /** No two variables of the list share a code (Collectors.toMap throws otherwise). */
  ghost predicate DistinctCodes(vs: seq<Variable>)
  {
    forall i, j | 0 <= i < j < |vs| :: vs[i].code != vs[j].code
  }

  /** The code -> value dictionary built from a team's variables. */
  function ToMap(vs: seq<Variable>): (m: map<string, string>)
    requires DistinctCodes(vs)
    ensures forall i | 0 <= i < |vs| :: vs[i].code in m && m[vs[i].code] == vs[i].value
    ensures forall c | c in m :: exists i | 0 <= i < |vs| :: vs[i].code == c
    decreases |vs|
  {
    if vs == [] then map[]
    else
      var rest := ToMap(vs[1..]);
      assert forall c | c in rest :: exists i | 0 <= i < |vs| :: vs[i].code == c by {
        forall c | c in rest ensures exists i | 0 <= i < |vs| :: vs[i].code == c {
          var j :| 0 <= j < |vs[1..]| && vs[1..][j].code == c;
          assert vs[j + 1].code == c;
        }
      }
      rest[vs[0].code := vs[0].value]
  }

  /**
   * `variableMap.get(getCodeFromPlaceholder(placeholder))`, with the null of
   * a missing code read as "": StringUtils.isNotEmpty rejects both alike.
   */
  function Lookup(m: map<string, string>, placeholder: string): string
  {
    if |placeholder| >= 3 && CodeFromPlaceholder(placeholder) in m then m[CodeFromPlaceholder(placeholder)] else ""
  }

  /** One iteration of the loop, for the match whose text is `placeholder`. */
  function Step(work: string, placeholder: string, m: map<string, string>): string
  {
    if Lookup(m, placeholder) != "" then ReplaceAll(work, placeholder, Lookup(m, placeholder)) else work
  }

  /** The loop run over the matches `ms`, in order, starting from `work`. */
  function ApplyMatches(work: string, ms: seq<Match>, m: map<string, string>): string
    decreases |ms|
  {
    if ms == [] then work else ApplyMatches(Step(work, ms[0].group, m), ms[1..], m)
  }

  /** What replaceVariable returns for `mixed` when the team's variables are `vs`. */
  function Resolve(mixed: string, vs: seq<Variable>): string
    requires DistinctCodes(vs)
  {
    if mixed == "" || vs == [] then mixed
    else ApplyMatches(mixed, Scan(mixed, 0), ToMap(vs))
  }

  /**
   * replaceVariable. `variables` is what findByTeamId returns for the team;
   * the matcher is bound to `mixed`, so the matches come from the original
   * text while `restore` is rewritten.
   */
  method ReplaceVariable(mixed: string, variables: seq<Variable>) returns (restore: string)
    requires DistinctCodes(variables)
    ensures restore == Resolve(mixed, variables)
    ensures mixed == "" || variables == [] ==> restore == mixed
  {
    if mixed == "" {
      return mixed;
    }
    if variables == [] {
      return mixed;
    }
    var variableMap := ToMap(variables);
    restore := mixed;
    var pos := 0;
    var found := NextMatch(mixed, pos);
    ghost var todo := Scan(mixed, 0);
    ghost var result := ApplyMatches(mixed, todo, variableMap);
    while found.Some?
      invariant pos <= |mixed|
      invariant found == NextMatch(mixed, pos)
      invariant todo == Scan(mixed, pos)
      invariant ApplyMatches(restore, todo, variableMap) == result
      decreases |mixed| - pos
    {
      var placeholder := found.value.group;
      ghost var before := restore;
      var variableCode := CodeFromPlaceholder(placeholder);
      var variableValue := if variableCode in variableMap then variableMap[variableCode] else "";
      if variableValue != "" {
        restore := ReplaceAll(restore, placeholder, variableValue);
      }
      assert restore == Step(before, placeholder, variableMap);
      var next := found.value.start + |placeholder|;
      ghost var rest := LoopStep(mixed, pos, found.value, next, todo, before, restore, variableMap, result);
      pos := next;
      todo := rest;
      found := NextMatch(mixed, pos);
    }
  }

  /** The scan from `pos` is its next match followed by the scan after that match. */
  lemma ScanStep(mixed: string, pos: nat, m: Match, next: int)
    requires NextMatch(mixed, pos) == Some(m) && next == m.start + |m.group|
    ensures pos < next <= |mixed|
    ensures Scan(mixed, pos) == [m] + Scan(mixed, next)
  {
    ScanCons(mixed, pos, m, Scan(mixed, next));
  }

  /** One iteration of replaceVariable keeps what is left to do equal to the whole substitution. */
  lemma LoopStep(mixed: string, pos: nat, m: Match, next: int, todo: seq<Match>, work: string, stepped: string,
                 d: map<string, string>, result: string) returns (rest: seq<Match>)
    requires NextMatch(mixed, pos) == Some(m) && next == m.start + |m.group|
    requires todo == Scan(mixed, pos) && ApplyMatches(work, todo, d) == result
    requires stepped == Step(work, m.group, d)
    ensures pos < next <= |mixed|
    ensures rest == Scan(mixed, next)
    ensures ApplyMatches(stepped, rest, d) == result
  {
    rest := Scan(mixed, next);
    ScanStep(mixed, pos, m, next);
    ApplyCons(work, m, rest, d);
  }

  lemma ApplyCons(work: string, m: Match, rest: seq<Match>, d: map<string, string>)
    ensures ApplyMatches(work, [m] + rest, d) == ApplyMatches(Step(work, m.group, d), rest, d)
  {
    assert ([m] + rest)[1..] == rest;
  }

  /** A run of the loop in which no match has a usable value changes nothing. */
  lemma {:induction false} ApplyMatchesUnresolved(work: string, ms: seq<Match>, m: map<string, string>)
    requires forall k | 0 <= k < |ms| :: Lookup(m, ms[k].group) == ""
    ensures ApplyMatches(work, ms, m) == work
    decreases |ms|
  {
    if ms != [] {
      ApplyMatchesUnresolved(work, ms[1..], m);
    }
  }

  /**
   * A text in which no placeholder of the grammar occurs (for instance one
   * without "${", or with only `${x}` or `${1ab}`) is returned unchanged,
   * whatever the variables.
   */
  lemma ResolveWithoutPlaceholder(mixed: string, vs: seq<Variable>)
    requires DistinctCodes(vs)
    requires forall p: string | IsPlaceholder(p) :: !Contains(mixed, p)
    ensures Resolve(mixed, vs) == mixed
  {
    ScanEmptyIffNoPlaceholder(mixed);
  }

  /** When no matched code has a non-empty value, the text is returned unchanged. */
  lemma ResolveWithoutUsableValue(mixed: string, vs: seq<Variable>)
    requires DistinctCodes(vs)
    requires forall k | 0 <= k < |Scan(mixed, 0)| :: Lookup(ToMap(vs), Scan(mixed, 0)[k].group) == ""
    ensures Resolve(mixed, vs) == mixed
  {
    if mixed != "" && vs != [] {
      ApplyMatchesUnresolved(mixed, Scan(mixed, 0), ToMap(vs));
    }
  }

  /**
   * Replacing a placeholder literal `q` leaves every occurrence of a
   * different delimited literal `p` in place: the text on either side of it
   * is rewritten on its own, and `p` itself is kept verbatim. No occurrence
   * of `q` can start inside `p` or run into it.
   */
  lemma {:induction false} ReplaceAllKeepsOtherPlaceholder(a: string, p: string, b: string, q: string, v: string)
    requires Delimited(p) && Delimited(q) && p != q
    ensures ReplaceAll(a + p + b, q, v) == ReplaceAll(a, q, v) + p + ReplaceAll(b, q, v)
    decreases |a|
  {
    if a == [] {
      ReplaceAllAtOtherPlaceholder(a, p, b, q, v);
    } else if OccursAt(a + p + b, q, 0) {
      OccurrenceBeforePlaceholder(a, p, b, q);
      ReplaceAllKeepsOtherPlaceholder(a[|q|..], p, b, q, v);
      ReplaceBeforePlaceholder(a, p, b, q, v);
    } else {
      ReplaceAllKeepsOtherPlaceholder(a[1..], p, b, q, v);
      CopyBeforePlaceholder(a, p, b, q, v);
    }
  }

  /** An occurrence at the front of a prefix is one at the front of the whole text. */
  lemma NotAtFrontOfPrefix(a: string, c: string, q: string)
    requires !OccursAt(a + c, q, 0)
    ensures !OccursAt(a, q, 0)
  {
    if |q| <= |a| {
      assert a[0..|q|] == (a + c)[0..|q|];
    }
  }

  /** Where the text starts with `p`, `p` is copied and replacing resumes after it. */
  lemma ReplaceAllAtOtherPlaceholder(a: string, p: string, b: string, q: string, v: string)
    requires Delimited(p) && Delimited(q) && p != q && a == []
    ensures ReplaceAll(a + p + b, q, v) == ReplaceAll(a, q, v) + p + ReplaceAll(b, q, v)
  {
    var s := p + b;
    assert a + p + b == s;
    OtherPlaceholderNotAtFront(p, b, q);
    ReplaceAllKeepsHead(s, q, v);
    ReplaceAllSkipsFree(p[1..], b, q, v);
    Prepend([p[0]], p[1..], [], ReplaceAll(b, q, v));
    assert p == [p[0]] + p[1..];
    assert ReplaceAll(a, q, v) == [];
  }

  /** A text that starts with `p` does not start with another delimited literal `q`. */
  lemma OtherPlaceholderNotAtFront(p: string, b: string, q: string)
    requires Delimited(p) && Delimited(q) && p != q
    ensures |p + b| > 0 && !OccursAt(p + b, q, 0) && (p + b)[1..] == p[1..] + b
    ensures forall k | 0 <= k < |p[1..]| :: p[1..][k] != q[0]
  {
    var s := p + b;
    if OccursAt(s, q, 0) {
      assert OccursAt(s, p, 0);
      PlaceholdersDoNotOverlap(s, p, 0, q, 0);
    }
  }

  /** An occurrence of `q` at the front of `a + p + b`, with `a` not empty, lies inside `a`. */
  lemma OccurrenceBeforePlaceholder(a: string, p: string, b: string, q: string)
    requires Delimited(p) && Delimited(q) && a != [] && OccursAt(a + p + b, q, 0)
    ensures |q| <= |a| && OccursAt(a, q, 0) && (a + p + b)[|q|..] == a[|q|..] + p + b
  {
    var s := a + p + b;
    assert s[|a|] == '$';
    assert forall k | 0 <= k < |q| && k < |s| :: s[k] == q[k];
    assert a[0..|q|] == s[0..|q|];
  }

  /**
   * Where `q` occurs at the front of `a + p + b`, with `a` not empty, it is
   * replaced within `a`, and the split carries over from the rest of `a`.
   */
  lemma ReplaceBeforePlaceholder(a: string, p: string, b: string, q: string, v: string)
    requires |q| > 0 && |q| <= |a| && OccursAt(a, q, 0) && (a + p + b)[|q|..] == a[|q|..] + p + b
    requires ReplaceAll(a[|q|..] + p + b, q, v) == ReplaceAll(a[|q|..], q, v) + p + ReplaceAll(b, q, v)
    ensures ReplaceAll(a + p + b, q, v) == ReplaceAll(a, q, v) + p + ReplaceAll(b, q, v)
  {
    var x, y := ReplaceAll(a[|q|..], q, v), ReplaceAll(b, q, v);
    assert (a + p + b)[..|q|] == q;
    assert ReplaceAll(a + p + b, q, v) == v + (x + p + y);
    assert a[..|q|] == q;
    assert ReplaceAll(a, q, v) == v + x;
    Prepend(v, x, p, y);
  }

  /**
   * Where `q` does not occur at the front of `a + p + b`, the first character
   * of `a` is copied, and the split carries over from the rest of `a`.
   */
  lemma CopyBeforePlaceholder(a: string, p: string, b: string, q: string, v: string)
    requires |q| > 0 && a != [] && !OccursAt(a + p + b, q, 0)
    requires ReplaceAll(a[1..] + p + b, q, v) == ReplaceAll(a[1..], q, v) + p + ReplaceAll(b, q, v)
    ensures ReplaceAll(a + p + b, q, v) == ReplaceAll(a, q, v) + p + ReplaceAll(b, q, v)
  {
    var s := a + p + b;
    HeadOfThree(a, p, b);
    NotAtFrontOfPrefix(a, p + b, q);
    var x, y := ReplaceAll(a[1..], q, v), ReplaceAll(b, q, v);
    ReplaceAllKeepsHead(s, q, v);
    assert ReplaceAll(s, q, v) == [a[0]] + (x + p + y);
    ReplaceAllKeepsHead(a, q, v);
    Prepend([a[0]], x, p, y);
  }

  /**
   * A delimited literal that is not a placeholder with a usable value
   * survives every step of the loop where it stands: the text before it and
   * the text after it go through the same steps, each on its own.
   */
  lemma {:induction false} ApplyMatchesKeepsUnresolved(a: string, p: string, b: string, ms: seq<Match>,
                                                       m: map<string, string>)
    requires forall k | 0 <= k < |ms| :: IsPlaceholder(ms[k].group)
    requires Delimited(p) && (IsPlaceholder(p) ==> Lookup(m, p) == "")
    ensures ApplyMatches(a + p + b, ms, m) == ApplyMatches(a, ms, m) + p + ApplyMatches(b, ms, m)
    decreases |ms|
  {
    if ms != [] {
      var q := ms[0].group;
      if Lookup(m, q) != "" {
        PlaceholderShape(q);
        ReplaceAllKeepsOtherPlaceholder(a, p, b, q, Lookup(m, q));
      }
      assert Step(a + p + b, q, m) == Step(a, q, m) + p + Step(b, q, m);
      ApplyMatchesKeepsUnresolved(Step(a, q, m), p, Step(b, q, m), ms[1..], m);
    }
  }

  /**
   * The two early returns of replaceVariable agree with the loop: the result
   * is always the steps for the matches of the original text, applied in
   * order (on an empty text there are none; without variables no step has a
   * value).
   */
  lemma ResolveIsFold(mixed: string, vs: seq<Variable>)
    requires DistinctCodes(vs)
    ensures Resolve(mixed, vs) == ApplyMatches(mixed, Scan(mixed, 0), ToMap(vs))
  {
    if mixed == "" {
      assert Scan(mixed, 0) == [];
    } else if vs == [] {
      ApplyMatchesUnresolved(mixed, Scan(mixed, 0), ToMap(vs));
    }
  }

  /**
   * Every occurrence of a placeholder whose code no variable gives a
   * non-empty value is left verbatim, at its place between the resolved
   * text before it and the resolved text after it. It is never removed nor
   * replaced by an empty string.
   */
  lemma UnresolvedPlaceholderKept(mixed: string, vs: seq<Variable>, a: string, code: string, b: string)
    requires DistinctCodes(vs)
    requires ValidCode(code)
    requires forall i | 0 <= i < |vs| :: vs[i].code == code ==> vs[i].value == ""
    requires mixed == a + Wrap(code) + b
    ensures Resolve(mixed, vs) ==
      ApplyMatches(a, Scan(mixed, 0), ToMap(vs)) + Wrap(code) + ApplyMatches(b, Scan(mixed, 0), ToMap(vs))
    ensures OccursAt(Resolve(mixed, vs), Wrap(code), |ApplyMatches(a, Scan(mixed, 0), ToMap(vs))|)
  {
    var p := Wrap(code);
    var ms, d := Scan(mixed, 0), ToMap(vs);
    PlaceholderShape(p) by { PlaceholderIsWrap(p, code); }
    CodeOfWrap(code);
    assert Lookup(d, p) == "";
    ScanSound(mixed, 0);
    ResolveIsFold(mixed, vs);
    ApplyMatchesKeepsUnresolved(a, p, b, ms, d);
    var ra, rb := ApplyMatches(a, ms, d), ApplyMatches(b, ms, d);
    assert (ra + p + rb)[|ra|..|ra| + |p|] == p;
  }

  /**
   * Every occurrence of "${" + code + "}" with a code outside the grammar
   * (such as `x` or `1ab`) is left verbatim at its place, whatever the
   * variables: it is never a match, and no match can rewrite it. The code
   * must hold no '$' or '}', which would make the literal start or close
   * another span.
   */
  lemma RejectedPlaceholderKept(mixed: string, vs: seq<Variable>, a: string, code: string, b: string)
    requires DistinctCodes(vs)
    requires !ValidCode(code) && '$' !in code && '}' !in code
    requires mixed == a + Wrap(code) + b
    ensures Resolve(mixed, vs) ==
      ApplyMatches(a, Scan(mixed, 0), ToMap(vs)) + Wrap(code) + ApplyMatches(b, Scan(mixed, 0), ToMap(vs))
    ensures OccursAt(Resolve(mixed, vs), Wrap(code), |ApplyMatches(a, Scan(mixed, 0), ToMap(vs))|)
  {
    var p := Wrap(code);
    var ms, d := Scan(mixed, 0), ToMap(vs);
    PlaceholderIsWrap(p, code);
    WrapDelimited(code);
    ScanSound(mixed, 0);
    ResolveIsFold(mixed, vs);
    ApplyMatchesKeepsUnresolved(a, p, b, ms, d);
    var ra, rb := ApplyMatches(a, ms, d), ApplyMatches(b, ms, d);
    assert (ra + p + rb)[|ra|..|ra| + |p|] == p;
  }

  /** Two dictionaries that agree on every code of `ms` lead to the same result. */
  lemma {:induction false} ApplyMatchesAgree(work: string, ms: seq<Match>, m1: map<string, string>, m2: map<string, string>)
    requires forall k | 0 <= k < |ms| :: Lookup(m1, ms[k].group) == Lookup(m2, ms[k].group)
    ensures ApplyMatches(work, ms, m1) == ApplyMatches(work, ms, m2)
    decreases |ms|
  {
    if ms != [] {
      assert Step(work, ms[0].group, m1) == Step(work, ms[0].group, m2);
      ApplyMatchesAgree(Step(work, ms[0].group, m1), ms[1..], m1, m2);
    }
  }

  /**
   * Only the codes of placeholders matched in the ORIGINAL text are ever
   * looked up: values are not expanded again, so two variable lists that
   * agree on those codes give the same result.
   */
  lemma ResolveReadsOnlyMatchedCodes(mixed: string, vs1: seq<Variable>, vs2: seq<Variable>)
    requires DistinctCodes(vs1) && DistinctCodes(vs2)
    requires forall k | 0 <= k < |Scan(mixed, 0)| ::
      Lookup(ToMap(vs1), Scan(mixed, 0)[k].group) == Lookup(ToMap(vs2), Scan(mixed, 0)[k].group)
    ensures Resolve(mixed, vs1) == Resolve(mixed, vs2)
  {
    ResolveIsFold(mixed, vs1);
    ResolveIsFold(mixed, vs2);
    ApplyMatchesAgree(mixed, Scan(mixed, 0), ToMap(vs1), ToMap(vs2));
  }
}
