/**
  What every hook shares: the payload read from standard input, the JSON
  object printed to standard output, the environment, and the paths of the
  per-session files under the project's `.claude` directory.
 */
module Hooks {
  import opened Wrappers

  /** The `tool_input` object of a payload (absent keys are `None`). */
  datatype ToolInput = ToolInput(filePath: Option<string>, command: Option<string>)

  /**
    The result of `json.load(sys.stdin)`: `Malformed` when it raised
    `JSONDecodeError`, otherwise the keys the hooks read (absent keys are `None`).
   */
  datatype HookInput =
    | Malformed
    | Payload(sessionId: Option<string>, cwd: Option<string>, toolName: Option<string>, toolInput: ToolInput)

  /** What a hook prints: nothing, a `hookSpecificOutput` deny object, or an advisory warning object. */
  datatype HookOutput =
    | NoOutput
    | Deny(hookEventName: string, permissionDecision: string, permissionDecisionReason: string)
    | Advisory(systemMessage: string, hookEventName: string, linearWorkflowWarning: bool, missingVars: seq<string>)

  /** `block_with_reason(reason)`: the deny object every blocking hook prints before exiting. */
  function BlockWithReason(reason: string): HookOutput {
    Deny("PreToolUse", "deny", reason)
  }

  /** A deny object as the host expects it from a PreToolUse hook. */
  predicate IsPreToolUseDeny(out: HookOutput) {
    out.Deny? && out.hookEventName == "PreToolUse" && out.permissionDecision == "deny"
  }

  /** `session_id` with its default. */
  function SessionOf(sessionId: Option<string>): string {
    sessionId.GetOr("unknown")
  }

  /** `os.environ`. */
  type Env = map<string, string>

  const Team: string := "LINEAR_WORKFLOW_TEAM"
  const Project: string := "LINEAR_WORKFLOW_PROJECT"

  /** `os.environ.get(key)` is truthy: present and non-empty. */
  predicate IsSet(env: Env, key: string) {
    key in env && env[key] != ""
  }

  /** `str(Path(dir) / name)` for a relative `name`. */
  function JoinPath(dir: string, name: string): string {
    if dir == "" then name
    else if dir[|dir| - 1] == '/' then dir + name
    else dir + "/" + name
  }

  /** `Path(cwd) / ".claude" / name`. */
  function ClaudeFile(cwd: string, name: string): string {
    JoinPath(JoinPath(cwd, ".claude"), name)
  }

  lemma JoinPathCancel(dir: string, a: string, b: string)
    requires JoinPath(dir, a) == JoinPath(dir, b)
    ensures a == b
  {
    var p := JoinPath(dir, a);
    var n := |p| - |a|;
    assert a == p[n..];
    assert b == JoinPath(dir, b)[n..];
  }

  /** Within one project directory, different file names give different files. */
  lemma {:induction false} ClaudeFileInjective(cwd: string, a: string, b: string)
    ensures ClaudeFile(cwd, a) == ClaudeFile(cwd, b) <==> a == b
  {
    if ClaudeFile(cwd, a) == ClaudeFile(cwd, b) {
      JoinPathCancel(JoinPath(cwd, ".claude"), a, b);
    }
  }

  /** Within one project directory, a state-file family `<p><session><q>` names each session's file apart. */
  lemma ClaudeFamilyInjective(cwd: string, p: string, s1: string, s2: string, q: string)
    requires ClaudeFile(cwd, p + s1 + q) == ClaudeFile(cwd, p + s2 + q)
    ensures s1 == s2
  {
    ClaudeFileInjective(cwd, p + s1 + q, p + s2 + q);
    ConcatCancel(p, s1, s2, q);
  }

  lemma ConcatCancel(p: string, a: string, b: string, q: string)
    requires p + a + q == p + b + q
    ensures a == b
  {
    var s := p + a + q;
    assert a == s[|p|..|s| - |q|];
    assert b == (p + b + q)[|p|..|s| - |q|];
  }
}
