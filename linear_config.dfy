/**
  The environment-completeness check shared by the advisory environment hook
  and the pre-implementation hook: which of the two workflow keys are unset
  or empty, in the order TEAM, PROJECT.
 */
module LinearConfig {
  import opened Hooks

  /** The keys the workflow needs, in the order they are checked. */
  const RequiredKeys: seq<string> := [Team, Project]

  /** The keys of `keys` that `env` leaves unset or empty, in the order of `keys`. */
  function UnsetAmong(env: Env, keys: seq<string>): (r: seq<string>)
    ensures forall k :: k in r <==> k in keys && !IsSet(env, k)
    ensures |r| <= |keys|
  {
    if keys == [] then []
    else (if IsSet(env, keys[0]) then [] else [keys[0]]) + UnsetAmong(env, keys[1..])
  }

  /**
    The `missing` list: exactly the unset keys, TEAM before PROJECT, each at most once.
   */
  function MissingVars(env: Env): (r: seq<string>)
    ensures Team in r <==> !IsSet(env, Team)
    ensures Project in r <==> !IsSet(env, Project)
    ensures forall k :: k in r ==> k == Team || k == Project
    ensures forall i, j :: 0 <= i < j < |r| ==> r[i] == Team && r[j] == Project
    ensures r == [] <==> IsSet(env, Team) && IsSet(env, Project)
  {
    MissingVarsUnfold(env);
    UnsetAmong(env, RequiredKeys)
  }

  lemma MissingVarsUnfold(env: Env)
    ensures Team != Project
    ensures UnsetAmong(env, RequiredKeys)
      == (if IsSet(env, Team) then [] else [Team]) + (if IsSet(env, Project) then [] else [Project])
  {
    assert Team[16] != Project[16];
    assert RequiredKeys[1..] == [Project];
    assert [Project][1..] == [];
  }

  /** Only whether each key is set matters, not its value. */
  lemma MissingVarsOnlySetness(env1: Env, env2: Env)
    requires IsSet(env1, Team) == IsSet(env2, Team)
    requires IsSet(env1, Project) == IsSet(env2, Project)
    ensures MissingVars(env1) == MissingVars(env2)
  {
    MissingVarsUnfold(env1);
    MissingVarsUnfold(env2);
  }
}
