/**
  The advisory environment hook: when either workflow key is missing it
  prints one warning per session (never a deny) and records in a per-session
  state file that it has warned.
 */
module CheckLinearEnv {
  import opened Wrappers
  import opened Text
  import opened Hooks
  import opened LinearConfig
  import EnsureLinearBranch

  /**
    The JSON object held in the env-warned state file: the record this hook
    writes, or an object of any other shape, of which only the truthiness of
    `warned` is read. A file that is not an object has no value here.
   */
  datatype WarnState =
    | Warned(missing: seq<string>, warnedAt: string)
    | Unrecognised(warnedFlag: bool)
  {
    /** `state and state.get("warned")`. */
    predicate IsWarned() {
      Warned? || warnedFlag
    }
  }

  /** `get_session_state_path`: `Path(cwd) / ".claude" / f"linear-env-warned-{session_id}.json"`. */
  function StatePath(cwd: string, sessionId: string): string {
    ClaudeFile(cwd, "linear-env-warned-" + sessionId + ".json")
  }

  /**
    Different sessions of one project never share a env-warned file (as string
    paths). Each hook has its own file family, so each states this of its own
    `StatePath`; the argument shared by both is `ClaudeFamilyInjective`.
   */
  lemma StatePathInjective(cwd: string, s1: string, s2: string)
    requires StatePath(cwd, s1) == StatePath(cwd, s2)
    ensures s1 == s2
  {
    ClaudeFamilyInjective(cwd, "linear-env-warned-", s1, s2, ".json");
  }

  /** The env hook's and the branch hook's state files never coincide, so neither reads the other's record. */
  lemma StateFamiliesDisjoint(cwd: string, s1: string, s2: string)
    ensures StatePath(cwd, s1) != EnsureLinearBranch.StatePath(cwd, s2)
  {
    var a := "linear-env-warned-" + s1 + ".json";
    var b := "linear-session-" + s2 + ".json";
    assert a[7] != b[7];
    ClaudeFileInjective(cwd, a, b);
  }

  const WarningHead: string := "\U{26A0}\U{FE0F} Linear workflow environment not configured.\n\n"

  const WarningTail: string :=
    "\n\nTo enable Linear-tracked development, add to .claude/settings.json:\n"
    + "{\n"
    + "  \"env\": {\n"
    + "    \"LINEAR_WORKFLOW_TEAM\": \"YourTeam\",\n"
    + "    \"LINEAR_WORKFLOW_PROJECT\": \"YourProject\"\n"
    + "  }\n"
    + "}\n\n"
    + "Use Linear MCP to find your team/project:\n"
    + "  mcp__linear__list_teams()\n"
    + "  mcp__linear__list_projects(teamId: ...)"

  /** The `systemMessage` of the warning. */
  function WarningMessage(missing: seq<string>): string {
    WarningHead + ("Missing: " + Join(", ", missing)) + WarningTail
  }

  /** `check_linear_config`: builds `missing` by appending, key by key. */
  method CheckLinearConfig(env: Env) returns (configured: bool, missing: seq<string>)
    ensures missing == MissingVars(env)
    ensures configured <==> missing == []
  {
    MissingVarsUnfold(env);
    missing := [];
    if !IsSet(env, Team) {
      missing := missing + [Team];
    }
    if !IsSet(env, Project) {
      missing := missing + [Project];
    }
    configured := |missing| == 0;
  }

  /**
    The state file consulted: unparseable input counts as `{}`, an absent
    `cwd` is the process's working directory `processCwd`.
   */
  function PathOf(input: HookInput, processCwd: string): string {
    match input
    case Malformed => StatePath(processCwd, "unknown")
    case Payload(sid, cwd, _, _) => StatePath(cwd.GetOr(processCwd), SessionOf(sid))
  }

  type Store = map<string, WarnState>

  datatype Effect = Effect(output: HookOutput, save: Option<(string, WarnState)>)

  function Apply(store: Store, save: Option<(string, WarnState)>): Store {
    match save
    case Some((path, state)) => store[path := state]
    case None => store
  }

  predicate AlreadyWarned(store: Store, path: string) {
    path in store && store[path].IsWarned()
  }

  /** `main`, given the process's working directory, the environment and the time stamp written as `warned_at`. */
  function Run(input: HookInput, processCwd: string, env: Env, now: string, store: Store): Effect {
    var path := PathOf(input, processCwd);
    var missing := MissingVars(env);
    if AlreadyWarned(store, path) || missing == [] then Effect(NoOutput, None)
    else
      Effect(Advisory(WarningMessage(missing), "PreToolUse", true, missing), Some((path, Warned(missing, now))))
  }

  /** Unparseable stdin is handled exactly like the empty object. */
  lemma MalformedIsEmptyObject(processCwd: string, env: Env, now: string, store: Store)
    ensures Run(Malformed, processCwd, env, now, store)
         == Run(Payload(None, None, None, ToolInput(None, None)), processCwd, env, now, store)
  {
  }

  /** Configured: nothing printed and nothing saved, so the check repeats on every invocation. */
  lemma ConfiguredIsSilent(input: HookInput, processCwd: string, env: Env, now: string, store: Store)
    requires IsSet(env, Team) && IsSet(env, Project)
    ensures Run(input, processCwd, env, now, store) == Effect(NoOutput, None)
  {
  }

  /**
    Not configured and not yet warned: one advisory payload naming exactly the
    missing keys, and the `{warned: true, missing}` record saved.
   */
  lemma WarnsWhenMissing(input: HookInput, processCwd: string, env: Env, now: string, store: Store)
    requires !AlreadyWarned(store, PathOf(input, processCwd))
    requires !IsSet(env, Team) || !IsSet(env, Project)
    ensures var e := Run(input, processCwd, env, now, store);
      && e.output.Advisory?
      && Contains(e.output.systemMessage, "Missing: " + Join(", ", MissingVars(env)))
      && e.output.missingVars == MissingVars(env) && MissingVars(env) != []
      && e.output.linearWorkflowWarning && e.output.hookEventName == "PreToolUse"
      && e.save == Some((PathOf(input, processCwd), Warned(MissingVars(env), now)))
  {
    ContainsInfix(WarningHead, "Missing: " + Join(", ", MissingVars(env)), WarningTail);
  }

  /** A session already marked `warned` prints nothing and writes nothing, whatever the environment. */
  lemma WarnedIsSilent(input: HookInput, processCwd: string, env: Env, now: string, store: Store)
    requires AlreadyWarned(store, PathOf(input, processCwd))
    ensures Run(input, processCwd, env, now, store) == Effect(NoOutput, None)
  {
  }

  /** After one warning, every later invocation of the session is silent, even if the environment changes. */
  lemma WarnsOnce(input: HookInput, processCwd: string, env: Env, now: string, store: Store,
                  env2: Env, now2: string)
    requires Run(input, processCwd, env, now, store).output.Advisory?
    ensures var e := Run(input, processCwd, env, now, store);
      Run(input, processCwd, env2, now2, Apply(store, e.save)) == Effect(NoOutput, None)
  {
  }

  /** The hook is advisory: it never emits a `permissionDecision`. */
  lemma NeverDenies(input: HookInput, processCwd: string, env: Env, now: string, store: Store)
    ensures !Run(input, processCwd, env, now, store).output.Deny?
  {
  }

  /** The project's env-warned state files. */
  class EnvWarnGate {
    var store: Store

    constructor (initial: Store)
      ensures store == initial
    {
      store := initial;
    }

    /** One invocation of the hook. */
    method Invoke(input: HookInput, processCwd: string, env: Env, now: string) returns (out: HookOutput)
      modifies this
      ensures out == Run(input, processCwd, env, now, old(store)).output
      ensures store == Apply(old(store), Run(input, processCwd, env, now, old(store)).save)
    {
      var path := PathOf(input, processCwd);
      ghost var effect := Run(input, processCwd, env, now, store);
      if path in store && store[path].IsWarned() {
        assert effect == Effect(NoOutput, None);
        return NoOutput;
      }
      var configured, missing := CheckLinearConfig(env);
      if configured {
        assert effect == Effect(NoOutput, None);
        return NoOutput;
      }
      out := Advisory(WarningMessage(missing), "PreToolUse", true, missing);
      assert effect == Effect(out, Some((path, Warned(missing, now))));
      store := store[path := Warned(missing, now)];
    }
  }
}
