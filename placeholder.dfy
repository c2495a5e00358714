/**
 * The placeholder grammar of the variable service,
 *   \$\{([A-Za-z])+([A-Za-z0-9._-])+\}
 * and a hand-written scanner that finds its matches the way
 * java.util.regex.Matcher.find() does: leftmost first, each search
 * resuming where the previous match ended.
 */
module Placeholder {
  import opened Text
  import opened Wrappers

  const PlaceholderStart: string := "${"
  const PlaceholderEnd: string := "}"

  /** One match of the pattern: where it starts and its text (Matcher.group()). */
  datatype Match = Match(start: nat, group: string)

  predicate IsLetter(c: char)
  {
    'A' <= c <= 'Z' || 'a' <= c <= 'z'
  }

  /** The second character class, [A-Za-z0-9._-] */
  predicate IsCodeChar(c: char)
  {
    IsLetter(c) || '0' <= c <= '9' || c == '.' || c == '_' || c == '-'
  }

  /**
   * A code the pattern accepts between the delimiters. Since every letter is
   * also in the second class, ([A-Za-z])+([A-Za-z0-9._-])+ is exactly "a
   * letter followed by one or more characters of the second class".
   */
  predicate ValidCode(code: string)
  {
    |code| >= 2 && IsLetter(code[0]) && forall k | 0 <= k < |code| :: IsCodeChar(code[k])
  }

  /** A whole string the pattern matches. */
  predicate IsPlaceholder(p: string)
  {
    |p| >= 3 && p[..2] == PlaceholderStart && p[|p| - 1] == '}' && ValidCode(p[2..|p| - 1])
  }

  /** The placeholder literal of a code: "${" + code + "}". */
  function Wrap(code: string): (p: string)
    ensures |p| == |code| + 3 && p[..2] == PlaceholderStart && p[|p| - 1] == '}'
    ensures p[0] == '$'
    ensures p[2..|p| - 1] == code
  {
    PlaceholderStart + code + PlaceholderEnd
  }

  /**
   * getCodeFromPlaceholder: drops the two-character prefix and the
   * one-character suffix. String.substring(2, length - 1) throws for
   * strings shorter than three characters, |"${"| + |"}"|.
   */
  function CodeFromPlaceholder(placeholder: string): (code: string)
    requires |placeholder| >= 3
    ensures |code| == |placeholder| - 3
    ensures Wrap(code) == placeholder <==> placeholder[..2] == "${" && placeholder[|placeholder| - 1] == '}'
  {
    placeholder[|PlaceholderStart|..|placeholder| - |PlaceholderEnd|]
  }

  /** Round trip of getCodeFromPlaceholder against the literal built from a code. */
  lemma CodeOfWrap(code: string)
    ensures CodeFromPlaceholder(Wrap(code)) == code
  {
  }

  /** The wrapped code is a placeholder exactly when the code is valid, and
      every placeholder is the wrapping of its own code. */
  lemma PlaceholderIsWrap(p: string, code: string)
    ensures IsPlaceholder(Wrap(code)) <==> ValidCode(code)
    ensures IsPlaceholder(p) ==> p == Wrap(CodeFromPlaceholder(p)) && ValidCode(CodeFromPlaceholder(p))
  {
    if IsPlaceholder(p) {
      assert p == p[..2] + p[2..|p| - 1] + [p[|p| - 1]];
    }
  }

  /**
   * A "${...}" literal whose '$' is its first character only and whose '}'
   * is its last only. Every placeholder is one, and so is "${" + code + "}"
   * for any code without '$' and '}', such as `x` or `1ab`.
   */
  predicate Delimited(p: string)
  {
    && |p| >= 3 && p[0] == '$' && p[1] == '{' && p[|p| - 1] == '}'
    && (forall k | 0 < k < |p| :: p[k] != '$')
    && (forall k | 0 <= k < |p| - 1 :: p[k] != '}')
  }

  /** A code without '$' and '}' wraps to a delimited literal. */
  lemma WrapDelimited(code: string)
    requires '$' !in code && '}' !in code
    ensures Delimited(Wrap(code))
  {
    var p := Wrap(code);
    forall k | 2 <= k < |p| - 1 ensures p[k] == code[k - 2] {
    }
  }

  /** Inside a placeholder, '$' appears only first and '}' only last. */
  lemma PlaceholderShape(p: string)
    requires IsPlaceholder(p)
    ensures |p| >= 5 && Delimited(p)
  {
    var code := p[2..|p| - 1];
    assert p[0] == p[..2][0] && p[1] == p[..2][1];
    forall k | 2 <= k < |p| - 1 ensures IsCodeChar(p[k]) {
      assert p[k] == code[k - 2];
    }
  }

  /**
   * The end of the run of code characters starting at `k`: the first index
   * at or after `k` that is not a code character, or |s|.
   */
  function CodeRunEnd(s: string, k: nat): nat
    requires k <= |s|
    decreases |s| - k
  {
    if k < |s| && IsCodeChar(s[k]) then CodeRunEnd(s, k + 1) else k
  }

  /** CodeRunEnd ends the longest run of code characters from `k`. */
  lemma {:induction false} CodeRunEndIsRun(s: string, k: nat)
    requires k <= |s|
    ensures k <= CodeRunEnd(s, k) <= |s|
    ensures forall j | k <= j < CodeRunEnd(s, k) :: IsCodeChar(s[j])
    ensures CodeRunEnd(s, k) == |s| || !IsCodeChar(s[CodeRunEnd(s, k)])
    decreases |s| - k
  {
    if k < |s| && IsCodeChar(s[k]) {
      CodeRunEndIsRun(s, k + 1);
    }
  }

  /** A run of code characters from `k` closed by another character at `e` ends at `e`. */
  lemma {:induction false} CodeRunEndAt(s: string, k: nat, e: nat)
    requires k <= e < |s| && !IsCodeChar(s[e])
    requires forall j | k <= j < e :: IsCodeChar(s[j])
    ensures CodeRunEnd(s, k) == e
    decreases e - k
  {
    if k < e {
      CodeRunEndAt(s, k + 1, e);
    }
  }

  /**
   * The end of the pattern's match starting exactly at `i`, if any. As '}'
   * is not a code character, the closing brace must be the first character
   * after the run of code characters, so there is at most one such match.
   */
  function MatchAt(s: string, i: nat): Option<nat>
  {
    if i + 2 < |s| && s[i] == '$' && s[i + 1] == '{' && IsLetter(s[i + 2]) then
      var k := CodeRunEnd(s, i + 2);
      if k < |s| && s[k] == '}' && k - (i + 2) >= 2 then Some(k + 1) else None
    else None
  }

  /** A match the scanner reports spans a placeholder. */
  lemma MatchAtSound(s: string, i: nat, e: nat)
    requires MatchAt(s, i) == Some(e)
    ensures i <= e <= |s| && IsPlaceholder(s[i..e])
  {
    var k := CodeRunEnd(s, i + 2);
    CodeRunEndIsRun(s, i + 2);
    assert e == k + 1 && i + 4 <= k < |s|;
    var p := s[i..e];
    var code := p[2..|p| - 1];
    assert p[..2] == s[i..i + 2];
    assert |p| == e - i && |code| == k - i - 2;
    assert code[0] == p[2] == s[i + 2];
    assert p[|p| - 1] == s[k];
    forall j | 0 <= j < |code| ensures IsCodeChar(code[j]) {
      assert code[j] == p[j + 2] == s[i + 2 + j];
    }
  }

  /** A placeholder spanning s[i..e] is what the scanner reports at `i`. */
  lemma MatchAtComplete(s: string, i: nat, e: nat)
    requires i <= e <= |s| && IsPlaceholder(s[i..e])
    ensures MatchAt(s, i) == Some(e)
  {
    var p := s[i..e];
    var code := p[2..|p| - 1];
    PlaceholderShape(p);
    assert s[i] == p[0] && s[i + 1] == p[1];
    assert |code| == |p| - 3 >= 2;
    assert p[2] == code[0];
    assert s[i + 2] == p[2];
    forall j | i + 2 <= j < e - 1 ensures IsCodeChar(s[j]) {
      assert s[j] == p[j - i];
      assert p[j - i] == code[j - i - 2];
    }
    assert s[e - 1] == p[|p| - 1] == '}';
    // The run of code characters stops exactly at the closing brace.
    CodeRunEndAt(s, i + 2, e - 1);
  }

  /** MatchAt finds a match exactly where a placeholder occurs. */
  lemma MatchAtIsPlaceholder(s: string, i: nat, e: nat)
    ensures MatchAt(s, i) == Some(e) <==> i <= e <= |s| && IsPlaceholder(s[i..e])
  {
    if MatchAt(s, i) == Some(e) {
      MatchAtSound(s, i, e);
    }
    if i <= e <= |s| && IsPlaceholder(s[i..e]) {
      MatchAtComplete(s, i, e);
    }
  }

  /** Two delimited literals, placeholders among them, never overlap in a text unless they coincide. */
  lemma PlaceholdersDoNotOverlap(s: string, p: string, i: nat, q: string, j: nat)
    requires Delimited(p) && Delimited(q)
    requires OccursAt(s, p, i) && OccursAt(s, q, j)
    requires i <= j < i + |p|
    ensures i == j && p == q
  {
    assert s[j] == q[0];
    assert s[j] == p[j - i];
    assert i == j;
    forall k | 0 <= k < |p| && k < |q| ensures p[k] == q[k] {
      assert s[i + k] == p[k];
      assert s[i + k] == q[k];
    }
    assert |p| == |q|;
  }

  /**
   * The leftmost match starting at or after `from` (one call of
   * Matcher.find() whose search begins at `from`).
   */
  function NextMatch(s: string, from: nat): (r: Option<Match>)
    ensures r.Some? ==> from <= r.value.start && 5 <= |r.value.group| && r.value.start + |r.value.group| <= |s|
    decreases |s| - from
  {
    if from >= |s| then None
    else match MatchAt(s, from)
      case Some(e) =>
        MatchAtIsPlaceholder(s, from, e);
        Some(Match(from, s[from..e]))
      case None => NextMatch(s, from + 1)
  }

  /** What NextMatch finds is an occurrence of a placeholder at or after `from`. */
  lemma {:induction false} NextMatchSound(s: string, from: nat)
    ensures NextMatch(s, from).Some? ==>
      var m := NextMatch(s, from).value;
      from <= m.start && OccursAt(s, m.group, m.start) && IsPlaceholder(m.group)
    decreases |s| - from
  {
    if from < |s| {
      match MatchAt(s, from)
      case Some(e) => MatchAtIsPlaceholder(s, from, e);
      case None => NextMatchSound(s, from + 1);
    }
  }

  /** NextMatch is the leftmost match: none starts between `from` and it. */
  lemma {:induction false} NextMatchLeftmost(s: string, from: nat)
    ensures forall j: nat | from <= j && (NextMatch(s, from).None? || j < NextMatch(s, from).value.start) ::
      MatchAt(s, j).None?
    decreases |s| - from
  {
    if from < |s| && MatchAt(s, from).None? {
      NextMatchLeftmost(s, from + 1);
    }
  }

  /**
   * Every match, in order, of `while (matcher.find())` over `s` from `from`:
   * each search resumes where the previous match ended.
   */
  function Scan(s: string, from: nat): (ms: seq<Match>)
    decreases |s| - from
  {
    match NextMatch(s, from)
    case None => []
    case Some(m) => [m] + Scan(s, m.start + |m.group|)
  }

  /**
   * `ms` are placeholder occurrences of `s` at or after `from`, in order and
   * without overlap.
   */
  ghost predicate SoundMatches(s: string, from: nat, ms: seq<Match>)
  {
    && (forall k | 0 <= k < |ms| ::
          from <= ms[k].start && OccursAt(s, ms[k].group, ms[k].start) && IsPlaceholder(ms[k].group))
    && (forall k | 0 <= k < |ms| - 1 :: ms[k].start + |ms[k].group| <= ms[k + 1].start)
  }

  /** A match in front of sound matches that start after it keeps them sound. */
  lemma SoundCons(s: string, from: nat, m: Match, ms: seq<Match>)
    requires from <= m.start && OccursAt(s, m.group, m.start) && IsPlaceholder(m.group)
    requires SoundMatches(s, m.start + |m.group|, ms)
    ensures SoundMatches(s, from, [m] + ms)
  {
    var all := [m] + ms;
    forall k | 0 < k < |all| ensures all[k] == ms[k - 1] {
    }
  }

  /**
   * Soundness of the scanner: each match is an occurrence of a placeholder
   * at or after `from`, and the matches are in order and do not overlap.
   */
  lemma {:induction false} ScanSound(s: string, from: nat)
    ensures SoundMatches(s, from, Scan(s, from))
    decreases |s| - from
  {
    match NextMatch(s, from)
    case None =>
    case Some(m) =>
      var e := m.start + |m.group|;
      NextMatchSound(s, from);
      ScanSound(s, e);
      ScanCons(s, from, m, Scan(s, e));
      SoundCons(s, from, m, Scan(s, e));
  }

  /** A placeholder occurring at `i` is the match MatchAt finds there. */
  lemma PlaceholderMatchesAt(s: string, p: string, i: nat)
    requires IsPlaceholder(p) && OccursAt(s, p, i)
    ensures MatchAt(s, i) == Some(i + |p|)
  {
    MatchAtIsPlaceholder(s, i, i + |p|);
  }

  /**
   * The search from `from` stops at or before any placeholder occurring at
   * `i >= from`: either it finds exactly that occurrence, or a match that
   * ends no later than `i`.
   */
  lemma NextMatchReaches(s: string, from: nat, p: string, i: nat)
    requires IsPlaceholder(p) && OccursAt(s, p, i) && from <= i
    ensures NextMatch(s, from).Some?
    ensures NextMatch(s, from) == Some(Match(i, p))
            || NextMatch(s, from).value.start + |NextMatch(s, from).value.group| <= i
  {
    PlaceholderMatchesAt(s, p, i);
    NextMatchLeftmost(s, from);
    NextMatchSound(s, from);
    var m := NextMatch(s, from).value;
    var e := m.start + |m.group|;
    MatchAtIsPlaceholder(s, m.start, e);
    if m.start == i {
      assert m.group == s[i..i + |p|];
    } else if i < e {
      PlaceholderShape(p);
      PlaceholderShape(m.group);
      PlaceholdersDoNotOverlap(s, m.group, m.start, p, i);
    }
  }

  /**
   * Completeness of the scanner: every occurrence of a placeholder at or
   * after `from` is one of the matches. Together with the contract of Scan,
   * the matches are exactly the placeholder occurrences.
   */
  lemma {:induction false} ScanComplete(s: string, from: nat, p: string, i: nat) returns (k: nat)
    requires IsPlaceholder(p) && OccursAt(s, p, i) && from <= i
    ensures k < |Scan(s, from)| && Scan(s, from)[k] == Match(i, p)
    decreases |s| - from
  {
    NextMatchReaches(s, from, p, i);
    var m := NextMatch(s, from).value;
    var rest := Scan(s, m.start + |m.group|);
    ScanCons(s, from, m, rest);
    if m == Match(i, p) {
      k := 0;
    } else {
      var k' := ScanComplete(s, m.start + |m.group|, p, i);
      k := k' + 1;
      assert Scan(s, from)[k] == rest[k'];
    }
  }

  /** The scan finds nothing exactly when no placeholder occurs in the text. */
  lemma ScanEmptyIffNoPlaceholder(s: string)
    ensures Scan(s, 0) == [] <==> forall p: string | IsPlaceholder(p) :: !Contains(s, p)
  {
    ScanSound(s, 0);
    if Scan(s, 0) != [] {
      var m := Scan(s, 0)[0];
      assert IsPlaceholder(m.group) && OccursAt(s, m.group, m.start);
    } else {
      forall p: string | IsPlaceholder(p) ensures !Contains(s, p) {
        if Contains(s, p) {
          var i: nat :| OccursAt(s, p, i);
          var k := ScanComplete(s, 0, p, i);
          assert false;
        }
      }
    }
  }

  /** In particular a text without "${" yields no match. */
  lemma ScanEmptyWithoutStart(s: string)
    requires !Contains(s, PlaceholderStart)
    ensures Scan(s, 0) == []
  {
    forall p: string | IsPlaceholder(p) ensures !Contains(s, p) {
      if Contains(s, p) {
        var i: nat :| OccursAt(s, p, i);
        assert s[i..i + 2] == p[..2];
        assert OccursAt(s, PlaceholderStart, i);
        assert false;
      }
    }
    ScanEmptyIffNoPlaceholder(s);
  }

  /** The search skips a stretch without '$' (no match can start there). */
  lemma {:induction false} NextMatchSkips(s: string, from: nat, i: nat)
    requires from <= i <= |s| && '$' !in s[from..i]
    ensures NextMatch(s, from) == NextMatch(s, i)
    decreases i - from
  {
    if from < i {
      assert s[from] == s[from..i][0];
      assert s[from + 1..i] == s[from..i][1..];
      NextMatchSkips(s, from + 1, i);
    }
  }

  /**
   * "${" + code + "}" with a code outside the grammar is not matched where it
   * starts, as long as the code itself holds no '}' that could close a
   * shorter placeholder.
   */
  lemma RejectedCodeNotMatched(pre: string, code: string, post: string)
    requires !ValidCode(code) && '}' !in code
    ensures MatchAt(pre + Wrap(code) + post, |pre|) == None
  {
    var s := pre + Wrap(code) + post;
    var i := |pre|;
    var c := i + 2 + |code|;
    assert s[c] == '}';
    forall j | 0 <= j < |code| ensures s[i + 2 + j] == code[j] {
      assert s[i..c + 1] == Wrap(code);
    }
    if i + 2 < |s| && s[i] == '$' && s[i + 1] == '{' && IsLetter(s[i + 2]) {
      var k := CodeRunEnd(s, i + 2);
      CodeRunEndIsRun(s, i + 2);
      assert k <= c;
      if k < c {
        assert s[k] == code[k - i - 2];
      } else {
        assert forall j | 0 <= j < |code| :: IsCodeChar(code[j]);
        assert |code| < 2;
      }
    }
  }

  /** The search skips a '$'-free tail: nothing is found there. */
  lemma NoMatchInTail(s: string, e: nat)
    requires e <= |s| && '$' !in s[e..]
    ensures NextMatch(s, e) == None
  {
    assert s[e..|s|] == s[e..];
    NextMatchSkips(s, e, |s|);
  }

  /** After its '$', a placeholder is the brace, the code and the closing brace. */
  lemma WrapTail(code: string)
    ensures Wrap(code)[1..] == "{" + code + "}"
    ensures '$' !in code ==> '$' !in Wrap(code)[1..]
  {
    assert Wrap(code) == "$" + ("{" + code + "}");
  }

  /** A text whose only "${" opens a rejected code yields no match at all. */
  lemma ScanRejected(s: string, pre: string, code: string, post: string)
    requires !ValidCode(code) && '}' !in code
    requires '$' !in pre && '$' !in code && '$' !in post
    requires s == pre + Wrap(code) + post
    ensures Scan(s, 0) == []
  {
    var i := |pre|;
    SlicesOfThree(pre, Wrap(code), post);
    NextMatchSkips(s, 0, i);
    RejectedCodeNotMatched(pre, code, post);
    assert NextMatch(s, i) == NextMatch(s, i + 1);
    SliceFrom(pre, Wrap(code), post, 1);
    WrapTail(code);
    NoMatchInTail(s, i + 1);
  }

  /** A match with nothing after it is the whole scan. */
  lemma ScanLast(s: string, from: nat, m: Match)
    requires NextMatch(s, from) == Some(m) && NextMatch(s, m.start + |m.group|) == None
    ensures Scan(s, from) == [m]
  {
    assert Scan(s, m.start + |m.group|) == [];
    ScanCons(s, from, m, []);
  }

  /** Scan unfolded once at a found match, followed by the known rest. */
  lemma ScanCons(s: string, from: nat, m: Match, ms: seq<Match>)
    requires NextMatch(s, from) == Some(m) && Scan(s, m.start + |m.group|) == ms
    ensures Scan(s, from) == [m] + ms
  {
  }

  /** Scan unfolded once at a first match, followed by a known single match. */
  lemma ScanTwo(s: string, i: nat, p: string, m: Match)
    requires NextMatch(s, 0) == Some(Match(i, p))
    requires Scan(s, i + |p|) == [m]
    ensures Scan(s, 0) == [Match(i, p), m]
  {
    ScanCons(s, 0, Match(i, p), [m]);
  }

  /** An occurrence of a well-formed placeholder is the match found at its start. */
  lemma MatchOfOccurrence(s: string, i: nat, code: string)
    requires ValidCode(code) && OccursAt(s, Wrap(code), i)
    ensures NextMatch(s, i) == Some(Match(i, Wrap(code)))
  {
    PlaceholderIsWrap(Wrap(code), code);
    MatchAtComplete(s, i, i + |Wrap(code)|);
  }

  /**
   * A placeholder occurrence with no '$' between `from` and it is the match
   * the search from `from` finds.
   */
  lemma FirstMatchAt(s: string, from: nat, i: nat, code: string)
    requires ValidCode(code) && OccursAt(s, Wrap(code), i)
    requires from <= i && '$' !in s[from..i]
    ensures NextMatch(s, from) == Some(Match(i, Wrap(code)))
  {
    NextMatchSkips(s, from, i);
    MatchOfOccurrence(s, i, code);
  }

  /**
   * A placeholder occurrence with no '$' between `from` and it, nor after
   * it, is the only match from `from` on.
   */
  lemma ScanOnlyAt(s: string, from: nat, i: nat, code: string)
    requires ValidCode(code) && OccursAt(s, Wrap(code), i)
    requires from <= i && '$' !in s[from..i] && '$' !in s[i + |Wrap(code)|..]
    ensures Scan(s, from) == [Match(i, Wrap(code))]
  {
    FirstMatchAt(s, from, i, code);
    NoMatchInTail(s, i + |Wrap(code)|);
    ScanLast(s, from, Match(i, Wrap(code)));
  }

  /**
   * `s` holds the placeholder `p1` of `code1` at `i` and that of `code2` at
   * `j`, in this order, with no other '$' before, between or after them.
   */
  ghost predicate PairAt(s: string, i: nat, p1: string, code1: string, j: nat, code2: string)
  {
    && ValidCode(code1) && p1 == Wrap(code1) && OccursAt(s, p1, i)
    && ValidCode(code2) && OccursAt(s, Wrap(code2), j) && i + |p1| <= j
    && '$' !in s[0..i] && '$' !in s[i + |p1|..j] && '$' !in s[j + |Wrap(code2)|..]
  }

  /** The first search of a pair text finds its first placeholder. */
  lemma FirstOfPair(s: string, i: nat, p1: string, code1: string, j: nat, code2: string)
    requires PairAt(s, i, p1, code1, j, code2)
    ensures NextMatch(s, 0) == Some(Match(i, p1))
  {
    FirstMatchAt(s, 0, i, code1);
  }

  /** After the first placeholder of a pair text, the second is the only match. */
  lemma RestOfPair(s: string, i: nat, p1: string, code1: string, j: nat, code2: string)
    requires PairAt(s, i, p1, code1, j, code2)
    ensures Scan(s, i + |p1|) == [Match(j, Wrap(code2))]
  {
    ScanOnlyAt(s, i + |p1|, j, code2);
  }

  /** The two placeholders of a pair text are its two matches, in order. */
  lemma ScanPairAt(s: string, i: nat, p1: string, code1: string, j: nat, code2: string)
    requires PairAt(s, i, p1, code1, j, code2)
    ensures Scan(s, 0) == [Match(i, p1), Match(j, Wrap(code2))]
  {
    FirstOfPair(s, i, p1, code1, j, code2);
    RestOfPair(s, i, p1, code1, j, code2);
    ScanTwo(s, i, p1, Match(j, Wrap(code2)));
  }

  /** A text with one placeholder, and no other '$', has exactly that match. */
  lemma ScanSingle(s: string, pre: string, code: string, post: string)
    requires ValidCode(code) && '$' !in pre && '$' !in post
    requires s == pre + Wrap(code) + post
    ensures Scan(s, 0) == [Match(|pre|, Wrap(code))]
  {
    SlicesOfThree(pre, Wrap(code), post);
    ScanOnlyAt(s, 0, |pre|, code);
  }

  /** A text with two placeholders, and no other '$', has exactly those two matches, in order. */
  lemma ScanPair(s: string, pre: string, code1: string, mid: string, code2: string, post: string)
    requires ValidCode(code1) && ValidCode(code2)
    requires '$' !in pre && '$' !in mid && '$' !in post
    requires s == pre + Wrap(code1) + mid + Wrap(code2) + post
    ensures Scan(s, 0) == [Match(|pre|, Wrap(code1)), Match(|pre| + |Wrap(code1)| + |mid|, Wrap(code2))]
  {
    PairPieces(s, pre, code1, mid, code2, post);
    ScanPairAt(s, |pre|, Wrap(code1), code1, |pre| + |Wrap(code1)| + |mid|, code2);
  }

  /** A text built from two placeholders and '$'-free pieces is a pair text. */
  lemma PairPieces(s: string, pre: string, code1: string, mid: string, code2: string, post: string)
    requires ValidCode(code1) && ValidCode(code2)
    requires '$' !in pre && '$' !in mid && '$' !in post
    requires s == pre + Wrap(code1) + mid + Wrap(code2) + post
    ensures PairAt(s, |pre|, Wrap(code1), code1, |pre| + |Wrap(code1)| + |mid|, code2)
  {
    SlicesOfFive(pre, Wrap(code1), mid, Wrap(code2), post);
  }

  /**
   * In a text whose only '$' opens the placeholder at |mid|, every
   * placeholder occurrence is that one.
   */
  lemma OnlyPlaceholderAt(rest: string, mid: string, q: string, post: string, p: string, i: nat)
    requires IsPlaceholder(p) && IsPlaceholder(q) && '$' !in mid && '$' !in post
    requires rest == mid + q + post
    requires OccursAt(rest, p, i)
    ensures i == |mid| && p == q
  {
    PlaceholderShape(p);
    PlaceholderShape(q);
    assert rest[i] == p[0];
    forall j | 0 <= j < |mid| ensures rest[j] != '$' {
      assert rest[j] == mid[j];
    }
    forall j | |mid| < j < |mid| + |q| ensures rest[j] != '$' {
      assert rest[j] == q[j - |mid|];
    }
    forall j | |mid| + |q| <= j < |rest| ensures rest[j] != '$' {
      assert rest[j] == post[j - |mid| - |q|];
    }
    assert OccursAt(rest, q, |mid|) by {
      assert rest[|mid|..|mid| + |q|] == q;
    }
    PlaceholdersDoNotOverlap(rest, q, |mid|, p, i);
  }

  /** A placeholder other than the only one of a text does not occur in it. */
  lemma OtherPlaceholderAbsent(rest: string, mid: string, code: string, post: string, other: string)
    requires ValidCode(code) && ValidCode(other) && code != other
    requires '$' !in mid && '$' !in post
    requires rest == mid + Wrap(code) + post
    ensures !Contains(rest, Wrap(other))
  {
    PlaceholderIsWrap(Wrap(code), code);
    PlaceholderIsWrap(Wrap(other), other);
    forall i: nat ensures !OccursAt(rest, Wrap(other), i) {
      if OccursAt(rest, Wrap(other), i) {
        OnlyPlaceholderAt(rest, mid, Wrap(code), post, Wrap(other), i);
        CodeOfWrap(code);
        CodeOfWrap(other);
        assert false;
      }
    }
  }
}
