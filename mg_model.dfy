/** A row of a Metrics Grimoire identities table, as the object-relational
    mapper returns it (`MetricsGrimoireIdentity`). */
module MgModel {
  import opened Wrappers
  import opened JsonOutput

  /** `mgId`, `email`, `name` and `username` are the mapped columns; `asDict`
      stands for what the row's `to_dict()` returns, whose code is not part of
      this model. */
  datatype MgIdentity = MgIdentity(mgId: Value, email: Option<string>, name: Option<string>,
                                   username: Option<string>, asDict: Dict)
}
