/**
  The hook that runs before leaving plan mode: it blocks when the workflow
  keys are missing, and blocks on `main`/`master` unless the branch carries an
  issue id. It keeps no state.
 */
module PreImplementCheck {
  import opened Text
  import opened Hooks
  import opened LinearConfig
  import IssueId

  /** `check_linear_config`: whether both keys are set, and otherwise a `"Missing: ..."` line. */
  method CheckLinearConfig(env: Env) returns (configured: bool, message: string)
    ensures configured <==> IsSet(env, Team) && IsSet(env, Project)
    ensures configured ==> message == ""
    ensures !configured ==> message == "Missing: " + Join(", ", MissingVars(env))
  {
    MissingVarsUnfold(env);
    var team := IsSet(env, Team);
    var project := IsSet(env, Project);
    if !team || !project {
      var missing: seq<string> := [];
      if !team {
        missing := missing + [Team];
      }
      if !project {
        missing := missing + [Project];
      }
      return false, "Missing: " + Join(", ", missing);
    }
    return true, "";
  }

  const SettingsHint: string :=
    "Add to .claude/settings.json:\n"
    + "{\n"
    + "  \"env\": {\n"
    + "    \"LINEAR_WORKFLOW_TEAM\": \"YourTeam\",\n"
    + "    \"LINEAR_WORKFLOW_PROJECT\": \"YourProject\"\n"
    + "  }\n"
    + "}\n\n"
    + "Or use Linear MCP to find your team/project names:\n"
    + "  mcp__linear__list_teams()\n"
    + "  mcp__linear__list_projects(teamId: ...)"

  /** The deny reason when a key is missing; it embeds the `"Missing: ..."` line. */
  function NotConfiguredReason(missingLine: string): string {
    "Linear workflow not configured.\n\n" + missingLine + ("\n\n" + SettingsHint)
  }

  const MainBranchReason: string :=
    "Cannot start implementation on main branch.\n\n"
    + "Before implementing:\n"
    + "1. Search Linear for similar issues matching your plan\n"
    + "2. If similar issue exists \U{2192} ask user which to use\n"
    + "3. If no match \U{2192} create new issue from plan\n"
    + "4. Create branch using gitBranchName from issue\n"
    + "5. Then exit plan mode to start implementation\n\n"
    + "Use linear-workflow skill for guidance."

  /** `main`: the decision for the environment and the branch `get_current_branch` reports (`""` on failure). */
  function Decide(env: Env, branch: string): HookOutput {
    var missing := MissingVars(env);
    if missing != [] then BlockWithReason(NotConfiguredReason("Missing: " + Join(", ", missing)))
    else if IssueId.HasIssueId(branch) then NoOutput
    else if branch == "main" || branch == "master" then BlockWithReason(MainBranchReason)
    else NoOutput
  }

  /** An unconfigured environment is denied on every branch, and the reason names the missing keys. */
  lemma NotConfiguredDenies(env: Env, branch: string)
    requires !IsSet(env, Team) || !IsSet(env, Project)
    ensures IsPreToolUseDeny(Decide(env, branch))
    ensures Contains(Decide(env, branch).permissionDecisionReason, "Missing: " + Join(", ", MissingVars(env)))
  {
    ContainsInfix("Linear workflow not configured.\n\n", "Missing: " + Join(", ", MissingVars(env)), "\n\n" + SettingsHint);
  }

  /** Configured, the hook denies exactly on `main` and `master`; any other branch, `""` included, is allowed silently. */
  lemma ConfiguredDeniesExactlyProtected(env: Env, branch: string)
    requires IsSet(env, Team) && IsSet(env, Project)
    ensures Decide(env, branch).Deny? <==> branch == "main" || branch == "master"
    ensures !Decide(env, branch).Deny? ==> Decide(env, branch) == NoOutput
    ensures IssueId.HasIssueId(branch) ==> Decide(env, branch) == NoOutput
  {
    IssueId.ProtectedBranchesHaveNoId();
  }

  /** Every deny is a PreToolUse deny with a non-empty reason. */
  lemma DenyShape(env: Env, branch: string)
    ensures Decide(env, branch).NoOutput? || IsPreToolUseDeny(Decide(env, branch))
    ensures Decide(env, branch).Deny? ==> Decide(env, branch).permissionDecisionReason != ""
  {
  }

  /** The decision depends on the environment only through which of the two keys are set. */
  lemma DependsOnlyOnSetness(env1: Env, env2: Env, branch: string)
    requires IsSet(env1, Team) == IsSet(env2, Team)
    requires IsSet(env1, Project) == IsSet(env2, Project)
    ensures Decide(env1, branch) == Decide(env2, branch)
  {
    MissingVarsOnlySetness(env1, env2);
  }
}
