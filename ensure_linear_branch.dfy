/**
  The branch hook that runs before Write and Edit: on the first invocation of a
  session it checks that the current branch carries an issue id, blocks edits
  on `main`/`master`, and records in a per-session state file that the check
  is done, so that later invocations of the session exit at once.
 */
module EnsureLinearBranch {
  import opened Wrappers
  import opened Hooks
  import IssueId
  import Text

  /**
    The JSON object held in a session state file. The first three are the
    records this hook writes (all have `"checked": true`); `Unrecognised` is
    an object of any other shape, of which only the truthiness of `checked`
    is read. A file that is not an object has no value here.
   */
  datatype SessionState =
    | Unconfigured(checkedAt: string)
    | IssueBranch(branch: string, issueId: Option<string>, checkedAt: string)
    | PlainBranch(branch: string, checkedAt: string)
    | Unrecognised(checkedFlag: bool)
  {
    /** `state and state.get("checked")`. */
    predicate Checked() {
      !Unrecognised? || checkedFlag
    }

    /** The `linear_configured` key, absent from an unrecognised file. */
    function LinearConfigured(): Option<bool> {
      match this
      case Unconfigured(_) => Some(false)
      case Unrecognised(_) => None
      case _ => Some(true)
    }

    /** The `warning` key, written only for a branch without an issue id. */
    function Warning(): Option<string> {
      if PlainBranch? then Some(NoIssueWarning) else None
    }
  }

  const NoIssueWarning: string := "Branch has no Linear issue ID"

  const MainBranchReason: string :=
    "Cannot modify files on main branch without a Linear issue.\n\n"
    + "Before making changes:\n"
    + "1. Search Linear for existing issues matching your work\n"
    + "2. Create a new issue if needed\n"
    + "3. Create a branch using gitBranchName from the issue\n"
    + "4. Then proceed with your changes\n\n"
    + "Use linear-workflow skill for guidance."

  /** `get_session_state_path`: `Path(cwd) / ".claude" / f"linear-session-{session_id}.json"`. */
  function StatePath(cwd: string, sessionId: string): string {
    ClaudeFile(cwd, "linear-session-" + sessionId + ".json")
  }

  /**
    Different sessions of one project never share a branch-state file (as string
    paths). Each hook has its own file family, so each states this of its own
    `StatePath`; the argument shared by both is `ClaudeFamilyInjective`.
   */
  lemma StatePathInjective(cwd: string, s1: string, s2: string)
    requires StatePath(cwd, s1) == StatePath(cwd, s2)
    ensures s1 == s2
  {
    ClaudeFamilyInjective(cwd, "linear-session-", s1, s2, ".json");
  }

  /** The state store: each state file's path mapped to its parsed contents (absent, not JSON or a falsy non-object: no key). */
  type Store = map<string, SessionState>

  /** What one invocation does: what it prints and which state file, if any, it overwrites. */
  datatype Effect = Effect(output: HookOutput, save: Option<(string, SessionState)>)

  function Apply(store: Store, save: Option<(string, SessionState)>): Store {
    match save
    case Some((path, state)) => store[path := state]
    case None => store
  }

  /** The state file the invocation consults, when the payload gets that far. */
  function PathOf(input: HookInput): Option<string> {
    match input
    case Malformed => None
    case Payload(sid, cwd, _, _) =>
      var dir := cwd.GetOr("");
      if dir == "" then None else Some(StatePath(dir, SessionOf(sid)))
  }

  /** The invocation gets past the parse, `cwd` and cache checks. */
  predicate Unchecked(input: HookInput, store: Store) {
    PathOf(input).Some? && !(PathOf(input).value in store && store[PathOf(input).value].Checked())
  }

  /**
    `main`, given the environment, the branch `get_current_branch` reports
    (`""` on failure or timeout) and the time stamp written as `checked_at`.
   */
  function Run(input: HookInput, env: Env, branch: string, now: string, store: Store): Effect {
    match PathOf(input)
    case None => Effect(NoOutput, None)
    case Some(path) =>
      if path in store && store[path].Checked() then Effect(NoOutput, None)
      else if !IsSet(env, Team) then Effect(NoOutput, Some((path, Unconfigured(now))))
      else if IssueId.HasIssueId(branch) then
        Effect(NoOutput, Some((path, IssueBranch(branch, IssueId.IssueIdOf(branch), now))))
      else if branch == "main" || branch == "master" then Effect(BlockWithReason(MainBranchReason), None)
      else Effect(NoOutput, Some((path, PlainBranch(branch, now))))
  }

  /** Unparseable input, or no `cwd`: nothing printed, nothing written. */
  lemma NoCwdIsInert(input: HookInput, env: Env, branch: string, now: string, store: Store)
    requires input.Malformed? || input.cwd.GetOr("") == ""
    ensures Run(input, env, branch, now, store) == Effect(NoOutput, None)
  {
  }

  /** Once the session's record says `checked`, nothing is printed or written, whatever the branch or environment. */
  lemma CheckedIsSilent(input: HookInput, env: Env, branch: string, now: string, store: Store)
    requires input.Payload? && input.cwd.GetOr("") != ""
    requires var path := StatePath(input.cwd.value, SessionOf(input.sessionId));
      path in store && store[path].Checked()
    ensures Run(input, env, branch, now, store) == Effect(NoOutput, None)
  {
  }

  /**
    Without a team the hook never blocks, and the unchecked session records
    `{checked: true, linear_configured: false}`.
   */
  lemma NoTeamNeverDenies(input: HookInput, env: Env, branch: string, now: string, store: Store)
    requires !IsSet(env, Team)
    ensures Run(input, env, branch, now, store).output == NoOutput
    ensures Unchecked(input, store) ==>
      Run(input, env, branch, now, store).save == Some((PathOf(input).value, Unconfigured(now)))
    ensures Unconfigured(now).Checked() && Unconfigured(now).LinearConfigured() == Some(false)
  {
  }

  /** `LINEAR_WORKFLOW_PROJECT` is never consulted. */
  lemma ProjectNeverConsulted(input: HookInput, env: Env, value: string, branch: string, now: string, store: Store)
    ensures Run(input, env[Project := value], branch, now, store) == Run(input, env, branch, now, store)
    ensures Run(input, env - {Project}, branch, now, store) == Run(input, env, branch, now, store)
  {
    assert Team[16] != Project[16];
    assert IsSet(env[Project := value], Team) == IsSet(env, Team);
    assert IsSet(env - {Project}, Team) == IsSet(env, Team);
  }

  /** With the team configured, an unchecked session is denied exactly on `main` and `master`. */
  lemma DeniesExactlyProtectedBranches(input: HookInput, env: Env, branch: string, now: string, store: Store)
    requires Unchecked(input, store) && IsSet(env, Team)
    ensures Run(input, env, branch, now, store).output.Deny? <==> branch == "main" || branch == "master"
    ensures Run(input, env, branch, now, store).output.Deny? ==>
      IsPreToolUseDeny(Run(input, env, branch, now, store).output)
  {
    IssueId.ProtectedBranchesHaveNoId();
  }

  /** A deny writes no state, so the next invocation of the session denies again. */
  lemma DenyRepeats(input: HookInput, env: Env, branch: string, now: string, now2: string, store: Store)
    requires Run(input, env, branch, now, store).output.Deny?
    ensures Run(input, env, branch, now, store).save == None
    ensures Run(input, env, branch, now2, Apply(store, Run(input, env, branch, now, store).save)).output.Deny?
  {
  }

  /**
    Every other path past the cache check overwrites the state file with a
    whole new checked record that does not depend on what the file held before.
   */
  lemma OtherwiseSavesChecked(input: HookInput, env: Env, branch: string, now: string, store: Store, other: Store)
    requires Unchecked(input, store) && Unchecked(input, other)
    requires !Run(input, env, branch, now, store).output.Deny?
    ensures var e := Run(input, env, branch, now, store);
      e.output == NoOutput && e.save.Some? && e.save.value.0 == PathOf(input).value && e.save.value.1.Checked()
    ensures Run(input, env, branch, now, other) == Run(input, env, branch, now, store)
  {
  }

  /** A failed branch lookup (`""`) takes the warn-and-save path. */
  lemma FailedLookupWarns(input: HookInput, env: Env, now: string, store: Store)
    requires Unchecked(input, store) && IsSet(env, Team)
    ensures Run(input, env, "", now, store) == Effect(NoOutput, Some((PathOf(input).value, PlainBranch("", now))))
    ensures PlainBranch("", now).Warning() == Some(NoIssueWarning)
  {
  }

  /** On an issue branch the record keeps the branch and the upper-cased first issue id. */
  lemma IssueBranchRecorded(input: HookInput, env: Env, branch: string, now: string, store: Store)
    requires Unchecked(input, store) && IsSet(env, Team) && IssueId.HasIssueId(branch)
    ensures var e := Run(input, env, branch, now, store);
      && e.output == NoOutput
      && e.save.Some? && e.save.value.1.IssueBranch? && e.save.value.1.branch == branch
      && e.save.value.1.issueId == IssueId.IssueIdOf(branch)
      && e.save.value.1.issueId.Some? && IssueId.HasIssueId(e.save.value.1.issueId.value)
      && var id := e.save.value.1.issueId.value;
         exists d :: IssueId.IsMatch(id, IssueId.Span(0, d, |id|)) && forall k :: 0 <= k < d ==> Text.IsAsciiUpper(id[k])
  {
    IssueId.IssueIdOfWellFormed(branch);
  }

  /** After any invocation that did not deny, the next one in the same session is silent and writes nothing. */
  lemma SecondRunIsSilent(input: HookInput, env: Env, branch: string, now: string, store: Store,
                          env2: Env, branch2: string, now2: string)
    requires !Run(input, env, branch, now, store).output.Deny?
    ensures Run(input, env2, branch2, now2, Apply(store, Run(input, env, branch, now, store).save)) == Effect(NoOutput, None)
  {
  }

  /** The project's state files, as the hook reads and overwrites them. */
  class BranchGate {
    var store: Store

    constructor (initial: Store)
      ensures store == initial
    {
      store := initial;
    }

    /** `load_session_state`: a missing file or one that is not JSON reads as `None`. */
    method Load(path: string) returns (state: Option<SessionState>)
      ensures state.Some? <==> path in store
      ensures state.Some? ==> state.value == store[path]
    {
      state := if path in store then Some(store[path]) else None;
    }

    /** `save_session_state`: overwrite, never merge. */
    method Save(path: string, state: SessionState)
      modifies this
      ensures store == old(store)[path := state]
    {
      store := store[path := state];
    }

    /** One invocation of the hook. */
    method Invoke(input: HookInput, env: Env, branch: string, now: string) returns (out: HookOutput)
      modifies this
      ensures out == Run(input, env, branch, now, old(store)).output
      ensures store == Apply(old(store), Run(input, env, branch, now, old(store)).save)
    {
      if input.Malformed? {
        return NoOutput;
      }
      var cwd := input.cwd.GetOr("");
      if cwd == "" {
        return NoOutput;
      }
      var path := StatePath(cwd, SessionOf(input.sessionId));
      var state := Load(path);
      if state.Some? && state.value.Checked() {
        return NoOutput;
      }
      if !IsSet(env, Team) {
        Save(path, Unconfigured(now));
        return NoOutput;
      }
      if IssueId.HasIssueId(branch) {
        Save(path, IssueBranch(branch, IssueId.IssueIdOf(branch), now));
        return NoOutput;
      }
      if branch == "main" || branch == "master" {
        return BlockWithReason(MainBranchReason);
      }
      Save(path, PlainBranch(branch, now));
      return NoOutput;
    }
  }
}
