/**
 * createVariable and deleteVariable: the guarded insert and delete on the
 * team-scoped variable table, which is modelled as an in-memory map from
 * record id to record.
 */
module Store {
  import opened Wrappers
  import opened Text
  import opened Placeholder
  import opened Entities
  import opened Resolver
  import opened Dependency

  /** The two ApiAlertException cases the guards raise. */
  datatype Error = CodeAlreadyExists | VariableInUse

  class VariableStore {
    /** The table, keyed by record id. */
    var records: map<nat, Variable>
    /** The id the next saved record receives. */
    var nextId: nat

    /**
     * Each record sits under its own id, every id was handed out already,
     * and no two records of a team share a code (the uniqueness that
     * createVariable's guard keeps).
     */
    ghost predicate Valid()
      reads this
    {
      && (forall id | id in records :: records[id].id == id && id < nextId)
      && (forall a, b | a in records && b in records && a != b ::
            records[a].teamId != records[b].teamId || records[a].code != records[b].code)
    }

    /** findByVariableCode(teamId, code) != null. */
    predicate HasCode(teamId: int, code: string)
      reads this
    {
      exists id | id in records :: records[id].teamId == teamId && records[id].code == code
    }

    /** `vs` is a listing of team `teamId`'s records, each once (findByTeamId). */
    ghost predicate ListsTeam(vs: seq<Variable>, teamId: int)
      reads this
    {
      && (forall k | 0 <= k < |vs| ::
            vs[k].id in records && records[vs[k].id] == vs[k] && vs[k].teamId == teamId)
      && (forall k, l | 0 <= k < l < |vs| :: vs[k].id != vs[l].id)
    }

    constructor ()
      ensures Valid()
      ensures records == map[] && nextId == 1
    {
      records := map[];
      nextId := 1;
    }

    /**
     * createVariable: refuse a code the team already has; otherwise stamp
     * the creator and save the record under a fresh id.
     */
    method CreateVariable(variable: Variable, creatorId: int) returns (outcome: Outcome<Error>)
      requires Valid()
      modifies this
      ensures Valid()
      ensures outcome.Fail? <==> old(HasCode(variable.teamId, variable.code))
      ensures outcome.Fail? ==> outcome.error == CodeAlreadyExists
      ensures outcome.Fail? ==> records == old(records) && nextId == old(nextId)
      ensures outcome.Pass? ==>
        && records == old(records)[old(nextId) := variable.(id := old(nextId), creatorId := creatorId)]
        && nextId == old(nextId) + 1
      ensures HasCode(variable.teamId, variable.code)
    {
      if HasCode(variable.teamId, variable.code) {
        return Fail(CodeAlreadyExists);
      }
      var saved := variable.(id := nextId, creatorId := creatorId);
      records := records[nextId := saved];
      nextId := nextId + 1;
      assert records[saved.id] == saved;
      return Pass;
    }

    /**
     * deleteVariable: refuse while some application's arguments or some
     * decompressed SQL body of the team references the code; otherwise
     * remove the record by its id. `applications` and `flinkSqls` are what
     * the services return for `variable.teamId`.
     */
    method DeleteVariable(variable: Variable, applications: Option<seq<Application>>,
                          flinkSqls: Option<seq<FlinkSql>>, unzip: string -> string)
      returns (outcome: Outcome<Error>)
      requires Valid()
      modifies this
      ensures Valid()
      ensures outcome.Fail? <==> DependedOn(variable.code, applications, flinkSqls, unzip)
      ensures outcome.Fail? ==> outcome.error == VariableInUse
      ensures outcome.Fail? ==> records == old(records) && nextId == old(nextId)
      ensures outcome.Pass? ==> records == old(records) - {variable.id} && nextId == old(nextId)
    {
      var used := IsDependByApplications(variable, applications, flinkSqls, unzip);
      if used {
        return Fail(VariableInUse);
      }
      records := records - {variable.id};
      return Pass;
    }
  }

  /**
   * The toMap precondition holds for what findByTeamId returns: a valid
   * store never lists a team with two records of the same code.
   */
  lemma TeamListingHasDistinctCodes(store: VariableStore, vs: seq<Variable>, teamId: int)
    requires store.Valid() && store.ListsTeam(vs, teamId)
    ensures DistinctCodes(vs)
  {
    forall k, l | 0 <= k < l < |vs| ensures vs[k].code != vs[l].code {
      assert vs[k].id != vs[l].id;
      assert store.records[vs[k].id] == vs[k] && store.records[vs[l].id] == vs[l];
    }
  }
}
