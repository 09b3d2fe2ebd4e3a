# Linear workflow hooks, modelled in Dafny

This project models the five hook scripts of a Linear-tracked development
workflow for a coding assistant. The assistant runs each hook before or after
a tool call. A hook reads a JSON payload (`session_id`, `cwd`, `tool_name`,
`tool_input`), decides, and may print a JSON object and touch a per-session
file under the project's `.claude` directory.

- **Branch gate** (`scripts/ensure_linear_branch.py`, before Write/Edit).
  - On the first invocation of a session it checks that the current branch
    carries an issue id (`[a-z]+-\d+`, case-insensitive).
  - It denies edits on `main`/`master`.
  - It caches a `checked` record per session, so later invocations exit at once.
  - Without `LINEAR_WORKFLOW_TEAM` it allows and caches.
- **Environment warning** (`scripts/check_linear_env.py`).
  - It lists the unset workflow keys, TEAM before PROJECT.
  - It prints one advisory warning per session and never blocks.
  - It records in a per-session file that it has warned.
- **Pre-implementation gate** (`scripts/pre_implement_check.py`, before leaving
  plan mode). It keeps no state. When a key is missing it denies on every
  branch. Otherwise it denies on `main`/`master` unless the branch carries an
  issue id.
- **Commit-message validator** (`scripts/validate_commit_msg.py`).
  - It extracts the subject of a `git commit -m ...` command: a heredoc first,
    then `-m "..."`, then `-m '...'`, taking the first line, stripped.
  - The subject must match `type[(scope)][!]: description`.
  - A rejected subject is denied with the first reason that applies.
  - Merge commits and anything that cannot be extracted are let through.
- **Progress recorder** (`scripts/record_progress.py`, after Write/Edit).
  - It stores the written path relative to `cwd`.
  - It never logs writes into `.claude/progress` itself.
  - Otherwise it appends exactly one record to the session's log.

How the model is built:

- Every hook's `main` is a pure function over its inputs and the state it reads:
  `Run`, or `Decide` for the stateless hooks. The inputs include the branch name
  the git query reports, the environment as a map, and the time stamp.
- The state files are a `map` from path to parsed record; the progress logs are
  a `map` from path to a sequence of records.
- The hooks that write state are also written as classes whose `Invoke` or
  `Record` method updates that map in place. Each such method is proved equal
  to the pure function.
- The regular expressions are written as deterministic scanners over `string`.
  Lemmas tie each scanner to the language it recognises.
- `str.strip` and `\s` use Python's full `str.isspace` set; regex letters and
  digits are ASCII only.

Files: `text.dfy` (the `Option` type and string helpers), `hooks.dfy` (payload,
output, environment, paths), `issue_id.dfy`, `linear_config.dfy`, and one file
per hook.

## Model

| member | source | states |
|---|---|---|
| `IssueId.HasIssueId` | scripts/ensure_linear_branch.py:60-62 | `has_issue_id`; its meaning is stated by `IssueId.HasIssueIdIff` (some ASCII letter immediately followed by `-` and a digit) and `IssueId.FindIssueId` (the leftmost match) |
| `IssueId.HasIssueIdIff` | scripts/ensure_linear_branch.py:60-62 | the issue-id search succeeds exactly when some ASCII letter is immediately followed by `-` and a digit |
| `IssueId.FindIssueId` | scripts/ensure_linear_branch.py:118 | the search finds a match iff there is an id; the match is the leftmost one and covers the whole letter run, `-` and the whole digit run |
| `IssueId.IssueIdOf` | scripts/ensure_linear_branch.py:118-125 | the `issue_id` stored for a branch, the leftmost match upper-cased; stated by `IssueId.IssueIdOfWellFormed` |
| `IssueId.IssueIdOfWellFormed` | scripts/ensure_linear_branch.py:118-125 | on an issue branch the stored id exists, is upper-case letters, `-`, digits, and again contains an issue id |
| `IssueId.ProtectedBranchesHaveNoId` | scripts/ensure_linear_branch.py:132 | neither `main` nor `master` contains an issue id |
| `EnsureLinearBranch.StatePath` | scripts/ensure_linear_branch.py:22-24 | `<cwd>/.claude/linear-session-<session>.json`; stated by `EnsureLinearBranch.StatePathInjective` and `CheckLinearEnv.StateFamiliesDisjoint` |
| `Hooks.ClaudeFileInjective` | scripts/ensure_linear_branch.py:22-24 | within one project, two file names under `.claude` give the same path iff they are equal |
| `Hooks.ClaudeFamilyInjective` | scripts/ensure_linear_branch.py:22-24 | within one project, the names `<prefix><session><suffix>` of one state-file family give different sessions different paths |
| `EnsureLinearBranch.StatePathInjective` | scripts/ensure_linear_branch.py:22-24 | different sessions of one project never share a branch-state file, as string paths without `pathlib`'s normalisation of `//` and `/./` (see the path-joining line under Left out) |
| `EnsureLinearBranch.Run` | scripts/ensure_linear_branch.py:78-155 | the whole hook: what it prints and the state write it makes; stated by the lemmas from `EnsureLinearBranch.NoCwdIsInert` to `EnsureLinearBranch.SecondRunIsSilent` |
| `EnsureLinearBranch.NoCwdIsInert` | scripts/ensure_linear_branch.py:80-89 | unparseable input or an empty or absent `cwd`: no output, no state write |
| `EnsureLinearBranch.CheckedIsSilent` | scripts/ensure_linear_branch.py:91-96 | once the session's record is `checked`, no output and no write, whatever the branch or environment |
| `EnsureLinearBranch.NoTeamNeverDenies` | scripts/ensure_linear_branch.py:98-111 | without a team the hook never denies, and an unchecked session saves `{checked: true, linear_configured: false}` |
| `EnsureLinearBranch.ProjectNeverConsulted` | scripts/ensure_linear_branch.py:99-100 | setting, changing or removing `LINEAR_WORKFLOW_PROJECT` changes nothing |
| `EnsureLinearBranch.DeniesExactlyProtectedBranches` | scripts/ensure_linear_branch.py:113-141 | with a team and an unchecked session, the hook denies iff the branch is `main` or `master`, as a PreToolUse deny |
| `EnsureLinearBranch.DenyRepeats` | scripts/ensure_linear_branch.py:131-141 | a deny writes no state, so the next invocation in the session denies again |
| `EnsureLinearBranch.OtherwiseSavesChecked` | scripts/ensure_linear_branch.py:143-155 | every other path past the cache check prints nothing and overwrites the state file with a `checked` record that does not depend on the old contents |
| `EnsureLinearBranch.FailedLookupWarns` | scripts/ensure_linear_branch.py:143-155 | a failed branch lookup (`""`) saves the record carrying the no-issue-id warning |
| `EnsureLinearBranch.IssueBranchRecorded` | scripts/ensure_linear_branch.py:116-129 | on an issue branch the record keeps the branch, and its issue id is `IssueIdOf(branch)`: present, upper-case letters then `-` and digits, and again an issue id |
| `EnsureLinearBranch.SecondRunIsSilent` | scripts/ensure_linear_branch.py:91-155 | after any invocation that did not deny, the next one in the session is silent and writes nothing |
| `EnsureLinearBranch.BranchGate.Load` | scripts/ensure_linear_branch.py:27-35 | loading returns the stored record, or nothing when the file is absent or not JSON |
| `EnsureLinearBranch.BranchGate.Save` | scripts/ensure_linear_branch.py:38-42 | saving overwrites the one file and nothing else |
| `EnsureLinearBranch.BranchGate.Invoke` | scripts/ensure_linear_branch.py:78-155 | the in-place hook prints what `Run` prints and leaves the store as `Run` says |
| `LinearConfig.MissingVars` | scripts/check_linear_env.py:45-52 | the missing list holds exactly the unset or empty keys, TEAM before PROJECT, each at most once; it is empty iff both are set |
| `LinearConfig.MissingVarsOnlySetness` | scripts/check_linear_env.py:47-51 | only whether each key is set matters, not its value |
| `CheckLinearEnv.CheckLinearConfig` | scripts/check_linear_env.py:45-52 | the appended list is the missing list, and `configured` holds iff it is empty |
| `CheckLinearEnv.StatePath` | scripts/check_linear_env.py:22-24 | `<cwd>/.claude/linear-env-warned-<session>.json`; stated by `CheckLinearEnv.StatePathInjective` and `CheckLinearEnv.StateFamiliesDisjoint` |
| `CheckLinearEnv.StatePathInjective` | scripts/check_linear_env.py:22-24 | different sessions of one project never share an env-warned file, as string paths without `pathlib`'s normalisation of `//` and `/./` (see the path-joining line under Left out) |
| `CheckLinearEnv.StateFamiliesDisjoint` | scripts/check_linear_env.py:22-24 | within one project, the env-warned files and the branch-state files never coincide |
| `CheckLinearEnv.Run` | scripts/check_linear_env.py:55-110 | the whole hook: what it prints and the state write it makes; stated by the lemmas from `CheckLinearEnv.MalformedIsEmptyObject` to `CheckLinearEnv.NeverDenies` |
| `CheckLinearEnv.MalformedIsEmptyObject` | scripts/check_linear_env.py:57-63 | unparseable stdin behaves exactly like `{}`: session `unknown`, `cwd` from the process |
| `CheckLinearEnv.ConfiguredIsSilent` | scripts/check_linear_env.py:72-74 | configured: nothing printed and nothing saved |
| `CheckLinearEnv.WarnsWhenMissing` | scripts/check_linear_env.py:74-107 | not configured and not yet warned: one advisory whose message contains `Missing: ` and the joined list, `missingVars` equal to the list, the warning flag set, and `{warned: true, missing}` saved |
| `CheckLinearEnv.WarnedIsSilent` | scripts/check_linear_env.py:65-70 | a session already marked `warned` prints and writes nothing |
| `CheckLinearEnv.WarnsOnce` | scripts/check_linear_env.py:99-107 | after a warning, the next invocation of the session is silent even if the environment changed |
| `CheckLinearEnv.NeverDenies` | scripts/check_linear_env.py:89-110 | the hook never emits a permission decision |
| `CheckLinearEnv.EnvWarnGate.Invoke` | scripts/check_linear_env.py:55-110 | the in-place hook prints what `Run` prints and leaves the store as `Run` says |
| `PreImplementCheck.CheckLinearConfig` | scripts/pre_implement_check.py:20-32 | returns `(true, "")` iff both keys are set, else `(false, "Missing: " + the joined list, TEAM before PROJECT)` |
| `PreImplementCheck.Decide` | scripts/pre_implement_check.py:68-107 | the whole hook; stated by `PreImplementCheck.NotConfiguredDenies`, `PreImplementCheck.ConfiguredDeniesExactlyProtected`, `PreImplementCheck.DenyShape` and `PreImplementCheck.DependsOnlyOnSetness` |
| `PreImplementCheck.NotConfiguredDenies` | scripts/pre_implement_check.py:68-85 | a missing key is denied on every branch, and the reason contains the `Missing: ...` line |
| `PreImplementCheck.ConfiguredDeniesExactlyProtected` | scripts/pre_implement_check.py:87-107 | configured: deny iff the branch is `main` or `master`; every other branch, `""` included, and every issue branch is allowed silently |
| `PreImplementCheck.DenyShape` | scripts/pre_implement_check.py:55-65 | every output is nothing or a PreToolUse deny with a non-empty reason |
| `PreImplementCheck.DependsOnlyOnSetness` | scripts/pre_implement_check.py:68-107 | the decision depends on the environment only through which keys are set |
| `Text.Strip` | scripts/validate_commit_msg.py:35 | the result has no leading or trailing whitespace, uses only characters of the input, is the input when that is already stripped, and is empty iff the input is all whitespace |
| `Text.StripInfix` | scripts/validate_commit_msg.py:35 | `strip()` returns the infix of its input between a leading and a trailing run of whitespace |
| `ValidateCommitMsg.Parse` | scripts/validate_commit_msg.py:20-27 | `PATTERN.match`, reading the header back; stated by `ValidateCommitMsg.ParseSound`, `ValidateCommitMsg.ParseComplete` and `ValidateCommitMsg.PatternIff` |
| `ValidateCommitMsg.ParseSound` | scripts/validate_commit_msg.py:20-27 | what the pattern accepts is a well-formed header spelled out: lower-case type, optional non-empty scope without `)`, optional `!`, `: `, a non-empty one-line description, at most one final newline |
| `ValidateCommitMsg.ParseComplete` | scripts/validate_commit_msg.py:20-27 | every well-formed header, with or without one final newline, is accepted and read back unchanged |
| `ValidateCommitMsg.PatternIff` | scripts/validate_commit_msg.py:20-27 | the pattern accepts a subject iff it is some well-formed header, with or without one final newline |
| `ValidateCommitMsg.HeredocAt` | scripts/validate_commit_msg.py:33 | the heredoc pattern anchored at one position; stated by `ValidateCommitMsg.HeredocAtIff` |
| `ValidateCommitMsg.QuotedAt` | scripts/validate_commit_msg.py:38-45 | a quoted capture is non-empty and contains no quote character of its kind |
| `ValidateCommitMsg.QuotedAtIff` | scripts/validate_commit_msg.py:38-43 | `-m\s+"([^"]+)"` (and its single-quoted twin) at a position captures `c` exactly when `-m`, non-empty whitespace, the quote, `c` and the quote start there, with `c` non-empty and free of that quote |
| `ValidateCommitMsg.HeredocAtIff` | scripts/validate_commit_msg.py:33 | the heredoc pattern at a position captures `c` exactly when `$(cat <<`, an optionally quoted `EOF`, a line break, `c` and `\nEOF` start there, with `c` non-empty and no earlier `\nEOF` inside it (the lazy `.+?`) |
| `ValidateCommitMsg.Search` | scripts/validate_commit_msg.py:33-43 | the search returns the leftmost position where the shape matches, or reports that none does |
| `ValidateCommitMsg.Clean` | scripts/validate_commit_msg.py:35 | the first line, stripped, has no newline, no outer whitespace, and only characters of the capture |
| `ValidateCommitMsg.CleanInfix` | scripts/validate_commit_msg.py:35 | the cleaned capture is its first line, the text before the first newline, with a leading and a trailing run of whitespace cut off |
| `ValidateCommitMsg.ExtractCommitMessage` | scripts/validate_commit_msg.py:30-47 | the heredoc wins, then `-m "..."`, then `-m '...'`; it returns nothing iff none matches; a result has no newline and no outer whitespace, and a double-quoted one has no `"` |
| `ValidateCommitMsg.NoDollarNoHeredoc` | scripts/validate_commit_msg.py:32-35 | a command without `$` has no heredoc match |
| `ValidateCommitMsg.ExtractDoubleQuoted` | scripts/validate_commit_msg.py:33-40 | `git commit -m "<text>"` yields the cleaned first line of the text, unless a heredoc match comes first |
| `ValidateCommitMsg.PlainNoHeredoc` | scripts/validate_commit_msg.py:33-35 | a quoted commit command with no `$` in its text has no heredoc match |
| `ValidateCommitMsg.NoQuoteNoCapture` | scripts/validate_commit_msg.py:37-45 | a command without `"` (or `'`) has no capture of the double-quoted (or single-quoted) shape |
| `ValidateCommitMsg.ExtractSingleQuoted` | scripts/validate_commit_msg.py:42-45 | `git commit -m '<text>'` yields the cleaned first line of the text when neither a heredoc nor `-m "..."` matches first |
| `ValidateCommitMsg.SingleQuotedPlain` | scripts/validate_commit_msg.py:33-45 | in particular it does so whenever the text has no `"` and no `$` |
| `ValidateCommitMsg.ExtractHeredoc` | scripts/validate_commit_msg.py:32-35 | `git commit -m "$(cat <<EOF` + line break + body + `\nEOF` + `\n)"`, each `EOF` of the opener optionally quoted, yields the cleaned first line of the body when no earlier `\nEOF` is inside it |
| `ValidateCommitMsg.HeredocExample` | scripts/validate_commit_msg.py:32-35 | `git commit -m "$(cat <<'EOF'`, `feat: a`, `EOF`, `)"` is read as `feat: a` |
| `ValidateCommitMsg.ExtractRoundTrip` | scripts/validate_commit_msg.py:33-40 | a clean one-line subject in `-m "..."` is extracted unchanged, unless a heredoc match comes first |
| `ValidateCommitMsg.Reason` | scripts/validate_commit_msg.py:114-121 | the first reason that applies to a rejected subject; stated by `ValidateCommitMsg.ReasonsAreNecessary`, `ValidateCommitMsg.VerdictIff` and `ValidateCommitMsg.MissingColonExample` |
| `ValidateCommitMsg.ReasonsAreNecessary` | scripts/validate_commit_msg.py:112-121 | on a stripped one-line subject the pattern implies a lower-case start, a `: `, and a non-blank rest after it, so the first three reasons only fire on rejected subjects |
| `ValidateCommitMsg.VerdictIff` | scripts/validate_commit_msg.py:107-123 | an extracted subject is denied iff it is not a merge and the pattern rejects it; the deny is a PreToolUse deny whose reason embeds the subject and the first applicable reason |
| `ValidateCommitMsg.Decide` | scripts/validate_commit_msg.py:90-126 | the whole hook; stated by `ValidateCommitMsg.DecideThroughVerdict`, `ValidateCommitMsg.FailOpen`, `ValidateCommitMsg.VerdictIff` and the examples below |
| `ValidateCommitMsg.DecideThroughVerdict` | scripts/validate_commit_msg.py:96-109 | the hook decides on a subject only for a command containing `git commit` and `-m` whose extraction is non-empty |
| `ValidateCommitMsg.FailOpen` | scripts/validate_commit_msg.py:90-105 | unparseable input, a command without `git commit` or `-m`, and a missing or empty extraction are allowed silently |
| `ValidateCommitMsg.CommitSubject` | scripts/validate_commit_msg.py:96-105 | for `git commit -m "<text>"` the subject validated is the cleaned first line of the text, unless a heredoc match comes first |
| `ValidateCommitMsg.WellFormedAllowed` | scripts/validate_commit_msg.py:111-126 | a well-formed one-line subject committed with `-m "..."` is allowed silently, unless a heredoc match comes first |
| `ValidateCommitMsg.WellFormedVerdict` | scripts/validate_commit_msg.py:107-126 | any well-formed header spelled out as the subject is allowed silently |
| `ValidateCommitMsg.FeatColonRejected` | scripts/validate_commit_msg.py:20-27 | the pattern rejects `feat:` |
| `ValidateCommitMsg.ScopedExampleAllowed` | scripts/validate_commit_msg.py:20-27 | `feat(video): add decoder` is allowed |
| `ValidateCommitMsg.AnyTypeExampleAllowed` | scripts/validate_commit_msg.py:19-21 | any lower-case word is a type: `weirdtype: something` is allowed |
| `ValidateCommitMsg.MergeExampleAllowed` | scripts/validate_commit_msg.py:107-109 | `Merge branch 'x'` is allowed though it fails the pattern |
| `ValidateCommitMsg.TrailingSpaceStripped` | scripts/validate_commit_msg.py:40 | `feat: ` is cleaned to `feat:` |
| `ValidateCommitMsg.TrailingSpaceCommit` | scripts/validate_commit_msg.py:37-40 | `git commit -m "feat: "` is validated as `feat:` |
| `ValidateCommitMsg.MissingColonExample` | scripts/validate_commit_msg.py:112-123 | `feat:` is denied with the missing-colon-space reason, not the empty-description one |
| `RecordProgress.Run` | scripts/record_progress.py:14-57 | the whole hook: the logs after one invocation; stated by the lemmas from `RecordProgress.InertWithoutPaths` to `RecordProgress.LogsOnlyGrow` |
| `RecordProgress.LStripSlashDrops` | scripts/record_progress.py:35 | the result is a suffix of the input that does not start with `/`, and only `/` characters were dropped |
| `RecordProgress.InertWithoutPaths` | scripts/record_progress.py:15-32 | unparseable input, an empty `cwd` or an empty `file_path` leaves the logs untouched |
| `RecordProgress.Relativise` | scripts/record_progress.py:34-35 | the stored path; stated by `RecordProgress.RelativiseShape`, `RecordProgress.RelativiseRoundTrip` and `RecordProgress.PlainPrefixQuirk` |
| `RecordProgress.RelativiseShape` | scripts/record_progress.py:34-35 | under `cwd`, the stored path is what follows `cwd` and its separating slashes; elsewhere the path is unchanged |
| `RecordProgress.RelativiseRoundTrip` | scripts/record_progress.py:34-35 | a relative name joined onto `cwd` is stored as that name |
| `RecordProgress.PlainPrefixQuirk` | scripts/record_progress.py:34-35 | `cwd` is a string prefix, not a directory: `/repo-old/a.py` under `/repo` is stored as `-old/a.py` |
| `RecordProgress.Skipped` | scripts/record_progress.py:38 | the recursion filter; stated by `RecordProgress.PrefixFilterSkips`, `RecordProgress.ProgressPathSkipped` and `RecordProgress.NoSelfLogging` |
| `RecordProgress.PrefixFilterSkips` | scripts/record_progress.py:37-39 | every stored path beginning with `.claude/progress` is skipped, `.claude/progressive` included |
| `RecordProgress.ProgressPathSkipped` | scripts/record_progress.py:37-42 | any path inside the project's progress directory is stored as `.claude/progress/...` and so skipped |
| `RecordProgress.NoSelfLogging` | scripts/record_progress.py:37-53 | a write into the progress directory, the session's own log included, is never logged |
| `RecordProgress.AppendsOneRecord` | scripts/record_progress.py:45-55 | otherwise exactly one record (time stamp, tool name, stored path) is appended to the session's log, default session `unknown`; earlier records and other logs are unchanged |
| `RecordProgress.LogsOnlyGrow` | scripts/record_progress.py:52-55 | every earlier record of every log survives an invocation |
| `RecordProgress.ProgressLog.Record` | scripts/record_progress.py:14-57 | the in-place append leaves the logs as `Run` says |

## Left out

- The git query: the branch name is a parameter of `Run` and `Decide`. A git run that exits with a non-zero status is the parameter value `""`, and so, in the branch hook only, is a run cut off by its 5-second time-out (ensure_linear_branch.py:53-57).
- A missing git executable is not modelled: `FileNotFoundError` is caught by neither script (ensure_linear_branch.py:56, pre_implement_check.py:45), so the hook fails without output and the branch hook saves no state, failing again on every call.
- pre_implement_check.py:38-43 sets no time-out on the git run, so a hung git leaves that hook hanging; the model has no such case.
- JSON reading and writing: the payload is a `HookInput` value, with `Malformed` for a parse error; the printed objects are `HookOutput` values, and the state records are datatypes, not JSON text.
- JSON values of an unexpected type are not modelled. A non-object payload and a non-object `tool_input` make the scripts raise.
- A non-string `session_id` or `tool_name` is not modelled, and the scripts do not fail on it: `session_id` is formatted into the file names (ensure_linear_branch.py:24, check_linear_env.py:24, record_progress.py:53), and `tool_name` is logged as given (record_progress.py:48).
- A JSON `null` in a string field is modelled as an absent key. The scripts differ in three places:
  - a null `session_id` is formatted as `None`, giving `linear-session-None.json`, `linear-env-warned-None.json` and `None.jsonl` (ensure_linear_branch.py:85, check_linear_env.py:62, record_progress.py:21); the model uses `unknown`;
  - a null `cwd` makes check_linear_env.py raise at `Path(None)` (lines 63 and 24); the model uses the process's directory;
  - a null `command` makes validate_commit_msg.py raise at line 99; the model lets the command through.
- Files and directories: state files are maps from path to a JSON object. A missing file or one that is not valid JSON is an absent key, as is a file holding a falsy non-object value (`null`, `0`, `""`, `[]`). Directory creation and write errors are not modelled.
- Two kinds of state file make the scripts raise, and the model has no value for them. A truthy value that is not an object (`[1]`, `"x"`, `1`) fails at `state.get` (ensure_linear_branch.py:94, check_linear_env.py:68). A file that is not valid UTF-8 raises `UnicodeDecodeError`, which line 34 of both scripts does not catch.
- The clock: the time stamps written as `checked_at`, `warned_at` and `ts` are parameters.
- The process's working directory (used by the environment hook when the payload has no `cwd`) is a parameter.
- Path joining covers only what the hooks do: joining a relative name onto a directory, with no extra `/` after a trailing one. Other normalisation is not modelled: repeated slashes, `.` components, or a session id that is itself an absolute path. Because `pathlib` collapses `//` and `/./`, session ids such as `a//b` and `a/b` share one state file in the scripts, while the model's string paths keep them apart.
- Unicode in the regular expressions: under `re.IGNORECASE`, `[a-z]` also matches a few non-ASCII letters (the long s `ſ`, the Kelvin sign `K`, the dotted capital `İ`, the dotless small `ı`), and `\d` matches non-ASCII digits; the model uses ASCII letters and digits only.
- Exit codes: every hook exits 0; only what it prints and writes is modelled.
- Concurrency: two hook processes racing on one state or log file are not modelled; invocations are sequential, and the last write wins.
- The closed-vocabulary variant of the commit-type check does not occur in these scripts; only the any-lower-case-word type is modelled.
