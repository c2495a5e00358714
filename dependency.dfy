/**
 * isDepend and isDependByApplications: whether a variable is referenced by
 * an application's arguments or by any stored version of a Flink SQL script.
 */
module Dependency {
  import opened Wrappers
  import opened Text
  import opened Placeholder
  import opened Entities
  import opened Resolver

  /**
   * isDepend: `mixed` contains the literal "${" + variableCode + "}". This is
   * a plain substring test; the code is not checked against the grammar.
   */
  function IsDepend(variableCode: string, mixed: string): (r: bool)
    ensures r <==> Contains(mixed, Wrap(variableCode))
    ensures mixed == "" ==> !r
  {
    if mixed == "" then false
    else
      var placeholder := Wrap(variableCode);
      IndexOfContains(mixed, placeholder);
      IndexOf(mixed, placeholder, 0) >= 0
  }

  /**
   * Some application argument string, or some decompressed SQL body, holds
   * the placeholder of `code`. A null list (None) holds nothing.
   */
  ghost predicate DependedOn(code: string, applications: Option<seq<Application>>,
                             flinkSqls: Option<seq<FlinkSql>>, unzip: string -> string)
  {
    || (applications.Some? && exists i | 0 <= i < |applications.value| ::
          Contains(applications.value[i].args, Wrap(code)))
    || (flinkSqls.Some? && exists i | 0 <= i < |flinkSqls.value| ::
          Contains(unzip(flinkSqls.value[i].sql), Wrap(code)))
  }

  /**
   * isDependByApplications. `applications` and `flinkSqls` are what the
   * application and Flink SQL services return for the variable's team, and
   * `unzip` is DeflaterUtils.unzipString. The scan stops at the first hit.
   */
  method IsDependByApplications(variable: Variable, applications: Option<seq<Application>>,
                                flinkSqls: Option<seq<FlinkSql>>, unzip: string -> string)
    returns (r: bool)
    ensures r <==> DependedOn(variable.code, applications, flinkSqls, unzip)
  {
    if applications.Some? {
      var apps := applications.value;
      for i := 0 to |apps|
        invariant forall j | 0 <= j < i :: !Contains(apps[j].args, Wrap(variable.code))
      {
        if IsDepend(variable.code, apps[i].args) {
          return true;
        }
      }
    }
    if flinkSqls.Some? {
      var sqls := flinkSqls.value;
      for i := 0 to |sqls|
        invariant forall j | 0 <= j < i :: !Contains(unzip(sqls[j].sql), Wrap(variable.code))
      {
        if IsDepend(variable.code, unzip(sqls[i].sql)) {
          return true;
        }
      }
    }
    return false;
  }

  /** The variable list without its `i`-th entry. */
  function Without(vs: seq<Variable>, i: nat): (r: seq<Variable>)
    requires i < |vs|
    ensures |r| == |vs| - 1
    ensures forall j | 0 <= j < |r| :: r[j] == vs[if j < i then j else j + 1]
  {
    vs[..i] + vs[i + 1..]
  }

  lemma WithoutKeepsDistinct(vs: seq<Variable>, i: nat)
    requires DistinctCodes(vs) && i < |vs|
    ensures DistinctCodes(Without(vs, i))
  {
    var rest := Without(vs, i);
    forall a, b | 0 <= a < b < |rest| ensures rest[a].code != rest[b].code {
      assert rest[a] == vs[if a < i then a else a + 1];
      assert rest[b] == vs[if b < i then b else b + 1];
    }
  }

  /** Every entry other than the removed one keeps its code and value. */
  lemma ToMapWithoutKeeps(vs: seq<Variable>, i: nat, j: nat)
    requires DistinctCodes(vs) && i < |vs| && DistinctCodes(Without(vs, i))
    requires j < |vs| && j != i
    ensures vs[j].code in ToMap(Without(vs, i)) && ToMap(Without(vs, i))[vs[j].code] == vs[j].value
  {
    var rest := Without(vs, i);
    var k := if j < i then j else j - 1;
    assert rest[k] == vs[j];
  }

  /** The shorter list brings in no code of its own. */
  lemma ToMapWithoutAddsNothing(vs: seq<Variable>, i: nat, k: nat)
    requires DistinctCodes(vs) && i < |vs|
    requires k < |Without(vs, i)|
    ensures Without(vs, i)[k].code in ToMap(vs)
  {
    var j := if k < i then k else k + 1;
    assert Without(vs, i)[k] == vs[j];
  }

  /** Every code other than the removed one maps to the same value. */
  lemma ToMapWithout(vs: seq<Variable>, i: nat, c: string)
    requires DistinctCodes(vs) && i < |vs| && c != vs[i].code
    ensures DistinctCodes(Without(vs, i))
    ensures c in ToMap(vs) <==> c in ToMap(Without(vs, i))
    ensures c in ToMap(vs) ==> ToMap(vs)[c] == ToMap(Without(vs, i))[c]
  {
    WithoutKeepsDistinct(vs, i);
    if c in ToMap(vs) {
      var j :| 0 <= j < |vs| && vs[j].code == c;
      ToMapWithoutKeeps(vs, i, j);
    }
    if c in ToMap(Without(vs, i)) {
      var k :| 0 <= k < |Without(vs, i)| && Without(vs, i)[k].code == c;
      ToMapWithoutAddsNothing(vs, i, k);
    }
  }

  /**
   * What the guard protects: removing a variable that a text does not
   * depend on leaves the resolution of that text unchanged.
   */
  lemma UnreferencedVariableIrrelevant(mixed: string, vs: seq<Variable>, i: nat)
    requires DistinctCodes(vs) && i < |vs|
    requires !IsDepend(vs[i].code, mixed)
    ensures DistinctCodes(Without(vs, i))
    ensures Resolve(mixed, vs) == Resolve(mixed, Without(vs, i))
  {
    WithoutKeepsDistinct(vs, i);
    var rest := Without(vs, i);
    if mixed != "" {
      var ms := Scan(mixed, 0);
      ScanSound(mixed, 0);
      var m1 := ToMap(vs);
      var m2 := ToMap(rest);
      forall k | 0 <= k < |ms| ensures Lookup(m1, ms[k].group) == Lookup(m2, ms[k].group) {
        var p := ms[k].group;
        PlaceholderIsWrap(p, "");
        var c := CodeFromPlaceholder(p);
        assert Contains(mixed, p) by {
          assert OccursAt(mixed, p, ms[k].start);
        }
        assert p != Wrap(vs[i].code);
        CodeOfWrap(vs[i].code);
        ToMapWithout(vs, i, c);
      }
      if rest == [] {
        ApplyMatchesUnresolved(mixed, ms, m1);
      } else {
        ApplyMatchesAgree(mixed, ms, m1, m2);
      }
    }
  }

  /**
   * Deleting a variable the guard lets through changes the resolution of no
   * guarded text: no application's arguments and no decompressed SQL body.
   */
  lemma GuardedDeletionPreservesResolution(vs: seq<Variable>, i: nat, applications: Option<seq<Application>>,
                                           flinkSqls: Option<seq<FlinkSql>>, unzip: string -> string)
    requires DistinctCodes(vs) && i < |vs|
    requires !DependedOn(vs[i].code, applications, flinkSqls, unzip)
    ensures DistinctCodes(Without(vs, i))
    ensures applications.Some? ==> forall a | 0 <= a < |applications.value| ::
      Resolve(applications.value[a].args, vs) == Resolve(applications.value[a].args, Without(vs, i))
    ensures flinkSqls.Some? ==> forall f | 0 <= f < |flinkSqls.value| ::
      Resolve(unzip(flinkSqls.value[f].sql), vs) == Resolve(unzip(flinkSqls.value[f].sql), Without(vs, i))
  {
    UnreferencedVariableIrrelevant("", vs, i);
    if applications.Some? {
      forall a | 0 <= a < |applications.value|
        ensures Resolve(applications.value[a].args, vs) == Resolve(applications.value[a].args, Without(vs, i))
      {
        UnreferencedVariableIrrelevant(applications.value[a].args, vs, i);
      }
    }
    if flinkSqls.Some? {
      forall f | 0 <= f < |flinkSqls.value|
        ensures Resolve(unzip(flinkSqls.value[f].sql), vs) == Resolve(unzip(flinkSqls.value[f].sql), Without(vs, i))
      {
        UnreferencedVariableIrrelevant(unzip(flinkSqls.value[f].sql), vs, i);
      }
    }
  }
}
