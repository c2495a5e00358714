/**
 * Concrete runs of replaceVariable and isDepend: the doc-comment example of
 * VariableServiceImpl and the edge cases of the loop, each an instance of a
 * general lemma about the shape of the text.
 */
module Examples {
  import opened Text
  import opened Placeholder
  import opened Entities
  import opened Resolver
  import opened Shapes
  import opened Dependency

  /** Every character of `code` from index `k` on is a code character, one at a time. */
  predicate CodeCharsFrom(code: string, k: nat)
    decreases |code| - k
  {
    k >= |code| || (IsCodeChar(code[k]) && CodeCharsFrom(code, k + 1))
  }

  lemma {:induction false} CodeCharsFromAll(code: string, k: nat)
    requires CodeCharsFrom(code, k)
    ensures forall j | k <= j < |code| :: IsCodeChar(code[j])
    decreases |code| - k
  {
    if k < |code| {
      CodeCharsFromAll(code, k + 1);
    }
  }

  lemma KafkaClusterValid()
    ensures ValidCode("kafka.cluster")
  {
    assert CodeCharsFrom("kafka.cluster", 0);
    CodeCharsFromAll("kafka.cluster", 0);
  }

  lemma OtherCodeValid()
    ensures ValidCode("other.code")
  {
    assert CodeCharsFrom("other.code", 0);
    CodeCharsFromAll("other.code", 0);
  }

  // ---- the resolved texts spelled out, each proved on its own ----

  lemma DocCommentText()
    ensures "--cluster " + "broker1:9092" + "" == "--cluster broker1:9092"
  {
  }

  lemma RepeatedText()
    ensures "" + "v" + "-" + "v" + "" == "v-v"
  {
  }

  lemma UnresolvedText()
    ensures "" + "1" + " and " + Wrap("cd") + "" == "1 and ${cd}"
  {
  }

  lemma NoRescanText()
    ensures "" + "${cd}" + "" == "${cd}"
  {
  }

  lemma ChainedText()
    ensures "" + "X" + "" + "X" + "" == "XX"
  {
  }

  // ---- the doc comment: "--cluster ${kafka.cluster}" ----

  /** The variable of the doc comment. */
  const KafkaCluster := Variable(1, 10, "kafka.cluster", "broker1:9092", 7)

  lemma DocCommentShape()
    ensures "--cluster ${kafka.cluster}" == "--cluster " + Wrap("kafka.cluster") + ""
  {
  }

  /** "--cluster ${kafka.cluster}" resolves to "--cluster broker1:9092". */
  lemma DocCommentExample()
    ensures Resolve("--cluster ${kafka.cluster}", [KafkaCluster]) == "--cluster broker1:9092"
  {
    KafkaClusterValid();
    DocCommentShape();
    assert Lookup(ToMap([KafkaCluster]), Wrap("kafka.cluster")) == "broker1:9092";
    ResolveSingle("--cluster ${kafka.cluster}", "--cluster ", "kafka.cluster", "", [KafkaCluster], "broker1:9092");
    DocCommentText();
  }

  /** isDepend on the doc-comment text: kafka.cluster is referenced, other.code is not. */
  lemma IsDependExample()
    ensures IsDepend("kafka.cluster", "--cluster ${kafka.cluster}")
    ensures !IsDepend("other.code", "--cluster ${kafka.cluster}")
  {
    KafkaClusterValid();
    OtherCodeValid();
    DocCommentShape();
    SlicesOfThree("--cluster ", Wrap("kafka.cluster"), "");
    assert OccursAt("--cluster " + Wrap("kafka.cluster") + "", Wrap("kafka.cluster"), |"--cluster "|);
    OtherPlaceholderAbsent("--cluster ${kafka.cluster}", "--cluster ", "kafka.cluster", "", "other.code");
  }

  // ---- codes outside the grammar: "${x}" and "${1ab}" ----

  /** `${x}` (a one-letter code) and `${1ab}` (a leading digit) are never replaced, whatever the variables. */
  lemma RejectedCodesExample(vs: seq<Variable>)
    requires DistinctCodes(vs)
    ensures Resolve("${x}", vs) == "${x}"
    ensures Resolve("${1ab}", vs) == "${1ab}"
  {
    assert "${x}" == "" + Wrap("x") + "" && !ValidCode("x");
    assert "${1ab}" == "" + Wrap("1ab") + "" && !ValidCode("1ab");
    RejectedCodeKept("${x}", "", "x", "", vs);
    RejectedCodeKept("${1ab}", "", "1ab", "", vs);
  }

  // ---- a repeated placeholder: "${kk}-${kk}" ----

  /** "${kk}-${kk}" with kk = "v" gives "v-v": both occurrences are rewritten. */
  lemma RepeatedExample()
    ensures Resolve("${kk}-${kk}", [Variable(1, 10, "kk", "v", 7)]) == "v-v"
  {
    var s, vs := "${kk}-${kk}", [Variable(1, 10, "kk", "v", 7)];
    assert PairShape(s, "", "kk", "-", "kk", "");
    assert Lookup(ToMap(vs), Wrap("kk")) == "v";
    ResolveRepeated(s, "", "kk", "-", "", vs, "v");
    RepeatedText();
  }

  // ---- an unresolved placeholder: "${ab} and ${cd}" ----

  /**
   * "${ab} and ${cd}" with ab = "1" gives "1 and ${cd}", both when cd is
   * missing and when its value is empty.
   */
  lemma UnresolvedShape()
    ensures PairShape("${ab} and ${cd}", "", "ab", " and ", "cd", "")
  {
  }

  lemma UnresolvedLookups()
    ensures Lookup(ToMap([Variable(1, 10, "ab", "1", 7)]), Wrap("ab")) == "1"
    ensures Lookup(ToMap([Variable(1, 10, "ab", "1", 7)]), Wrap("cd")) == ""
    ensures Lookup(ToMap([Variable(1, 10, "ab", "1", 7), Variable(2, 10, "cd", "", 7)]), Wrap("ab")) == "1"
    ensures Lookup(ToMap([Variable(1, 10, "ab", "1", 7), Variable(2, 10, "cd", "", 7)]), Wrap("cd")) == ""
  {
  }

  /**
   * "${ab} and ${cd}" with ab = "1" gives "1 and ${cd}", both when cd is
   * missing and when its value is empty.
   */
  lemma UnresolvedExample()
    ensures Resolve("${ab} and ${cd}", [Variable(1, 10, "ab", "1", 7)]) == "1 and ${cd}"
    ensures Resolve("${ab} and ${cd}", [Variable(1, 10, "ab", "1", 7), Variable(2, 10, "cd", "", 7)])
            == "1 and ${cd}"
  {
    UnresolvedShape();
    UnresolvedLookups();
    ResolveFirstOnly("${ab} and ${cd}", "", "ab", " and ", "cd", "", [Variable(1, 10, "ab", "1", 7)], "1");
    ResolveFirstOnly("${ab} and ${cd}", "", "ab", " and ", "cd", "",
                     [Variable(1, 10, "ab", "1", 7), Variable(2, 10, "cd", "", 7)], "1");
    UnresolvedText();
  }

  // ---- values are not searched again: "${ab}" and "${ab}${cd}" ----

  /** "${ab}" with ab = "${cd}" gives "${cd}" although cd has a value: the value is not searched. */
  lemma NoRescanExample()
    ensures Resolve("${ab}", [Variable(1, 10, "ab", "${cd}", 7), Variable(2, 10, "cd", "final", 7)]) == "${cd}"
  {
    var s, vs := "${ab}", [Variable(1, 10, "ab", "${cd}", 7), Variable(2, 10, "cd", "final", 7)];
    assert s == "" + Wrap("ab") + "" && ValidCode("ab");
    assert DistinctCodes(vs) && Lookup(ToMap(vs), Wrap("ab")) == "${cd}";
    ResolveSingle(s, "", "ab", "", vs, "${cd}");
    NoRescanText();
  }

  lemma ChainedShape()
    ensures PairShape("${ab}${cd}", "", "ab", "", "cd", "")
  {
  }

  lemma ChainedLookups()
    ensures Lookup(ToMap([Variable(1, 10, "ab", "${cd}", 7), Variable(2, 10, "cd", "X", 7)]), Wrap("ab"))
            == Wrap("cd")
    ensures Lookup(ToMap([Variable(1, 10, "ab", "${cd}", 7), Variable(2, 10, "cd", "X", 7)]), Wrap("cd")) == "X"
  {
  }

  /**
   * "${ab}${cd}" with ab = "${cd}" and cd = "X" gives "XX": the literal the
   * first step brings in is rewritten by the later step for the ${cd} that
   * was matched in the original text.
   */
  lemma ChainedExample()
    ensures Resolve("${ab}${cd}", [Variable(1, 10, "ab", "${cd}", 7), Variable(2, 10, "cd", "X", 7)]) == "XX"
  {
    ChainedShape();
    ChainedLookups();
    ResolveChained("${ab}${cd}", "", "ab", "", "cd", "",
                   [Variable(1, 10, "ab", "${cd}", 7), Variable(2, 10, "cd", "X", 7)], "X");
    ChainedText();
  }
}
