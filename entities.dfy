/**
 * The records the variable service works on.
 */
module Entities {

  /**
   * A team-scoped variable (entity Variable): `code` is what placeholders
   * name, `value` what they are replaced by. `id` is the store's key.
   */
  datatype Variable = Variable(id: nat, teamId: int, code: string, value: string, creatorId: int)

  /** An application (entity Application) as far as dependency checks read it: its program arguments. */
  datatype Application = Application(args: string)

  /** One stored version of a Flink SQL script (entity FlinkSql), still compressed. */
  datatype FlinkSql = FlinkSql(sql: string)
}
