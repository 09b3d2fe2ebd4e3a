/**
  The hook that runs after Write and Edit: it appends one record per file
  modification to the session's progress log under `.claude/progress`,
  storing the path relative to the project directory and never logging
  writes to the progress logs themselves.
 */
module RecordProgress {
  import opened Wrappers
  import opened Text
  import opened Hooks

  /** `s.lstrip("/")`. */
  function LStripSlash(s: string): (r: string)
    ensures |r| <= |s|
  {
    if s != [] && s[0] == '/' then LStripSlash(s[1..]) else s
  }

  /** `lstrip("/")` drops exactly the leading `/`s: what is left is a suffix that does not start with `/`. */
  lemma {:induction false} LStripSlashDrops(s: string)
    ensures var r := LStripSlash(s);
      && r == s[|s| - |r|..] && (r == [] || r[0] != '/')
      && forall k :: 0 <= k < |s| - |r| ==> s[k] == '/'
    decreases |s|
  {
    if s != [] && s[0] == '/' {
      LStripSlashDrops(s[1..]);
      var r := LStripSlash(s);
      assert s[1..][|s| - 1 - |r|..] == s[|s| - |r|..];
      forall k | 0 <= k < |s| - |r| ensures s[k] == '/' {
        if k > 0 {
          assert s[k] == s[1..][k - 1];
        }
      }
    }
  }

  /** The stored path: with `cwd` as a plain string prefix, the rest without its leading `/`s; otherwise unchanged. */
  function Relativise(filePath: string, cwd: string): string {
    if StartsWith(filePath, cwd) then LStripSlash(filePath[|cwd|..]) else filePath
  }

  /** The recursion filter: a substring test and a prefix test on the stored path. */
  predicate Skipped(path: string) {
    Contains(path, ".claude/progress/") || StartsWith(path, ".claude/progress")
  }

  /** `Path(cwd) / ".claude" / "progress"`. */
  function ProgressDir(cwd: string): string {
    JoinPath(JoinPath(cwd, ".claude"), "progress")
  }

  /** `progress_dir / f"{session_id}.jsonl"`. */
  function LogPath(cwd: string, sessionId: string): string {
    JoinPath(ProgressDir(cwd), sessionId + ".jsonl")
  }

  /** One line of the log: the time stamp, `tool_name` (`None` for JSON null) and the stored path. */
  datatype ProgressRecord = ProgressRecord(ts: string, tool: Option<string>, file: string)

  /** The progress logs: each log file's path mapped to its records, oldest first (absent file: no key). */
  type Logs = map<string, seq<ProgressRecord>>

  /** The log file `main` appends to and the record it appends, or `None` when it exits early. */
  function Entry(input: HookInput, now: string): Option<(string, ProgressRecord)> {
    match input
    case Malformed => None
    case Payload(sid, cwd, tool, toolInput) =>
      var dir := cwd.GetOr("");
      var filePath := toolInput.filePath.GetOr("");
      if dir == "" || filePath == "" then None
      else
        var stored := Relativise(filePath, dir);
        if Skipped(stored) then None
        else Some((LogPath(dir, SessionOf(sid)), ProgressRecord(now, tool, stored)))
  }

  /** The records of one log file, as the file holds them (a missing file holds none). */
  function Records(logs: Logs, path: string): seq<ProgressRecord> {
    if path in logs then logs[path] else []
  }

  /** The logs after one invocation of `main` at time `now`. */
  function Run(input: HookInput, now: string, logs: Logs): Logs {
    match Entry(input, now)
    case None => logs
    case Some((path, record)) => logs[path := Records(logs, path) + [record]]
  }

  /** Unparseable input, an empty or absent `cwd`, or an empty or absent `file_path`: the logs are untouched. */
  lemma InertWithoutPaths(input: HookInput, now: string, logs: Logs)
    requires input.Malformed? || input.cwd.GetOr("") == "" || input.toolInput.filePath.GetOr("") == ""
    ensures Run(input, now, logs) == logs
  {
  }

  /**
    Under `cwd` the stored path is what follows `cwd` once the separating
    slashes are dropped; elsewhere it is the path as given.
   */
  lemma RelativiseShape(filePath: string, cwd: string)
    ensures var r := Relativise(filePath, cwd);
      && (StartsWith(filePath, cwd) ==>
            && |cwd| + |r| <= |filePath| && (r == [] || r[0] != '/')
            && filePath == cwd + filePath[|cwd|..|filePath| - |r|] + r
            && forall k :: |cwd| <= k < |filePath| - |r| ==> filePath[k] == '/')
      && (!StartsWith(filePath, cwd) ==> r == filePath)
  {
    if StartsWith(filePath, cwd) {
      var t := filePath[|cwd|..];
      var r := LStripSlash(t);
      LStripSlashDrops(t);
      var n := |filePath| - |r|;
      assert filePath == filePath[..|cwd|] + filePath[|cwd|..n] + filePath[n..];
      assert filePath[n..] == t[|t| - |r|..];
      forall k | |cwd| <= k < n ensures filePath[k] == '/' {
        assert filePath[k] == t[k - |cwd|];
      }
    }
  }

  /** A path joined onto `cwd` is stored as the relative name it was joined from. */
  lemma RelativiseRoundTrip(cwd: string, name: string)
    requires name == [] || name[0] != '/'
    ensures Relativise(JoinPath(cwd, name), cwd) == name
  {
    var p := JoinPath(cwd, name);
    assert LStripSlash(name) == name;
    if cwd == "" {
      assert p[|cwd|..] == name;
    } else if cwd[|cwd| - 1] == '/' {
      assert p[..|cwd|] == cwd && p[|cwd|..] == name;
    } else {
      assert p[..|cwd|] == cwd && p[|cwd|..] == "/" + name;
      assert ("/" + name)[1..] == name;
      assert LStripSlash("/" + name) == LStripSlash(name);
    }
  }

  /** `cwd` is a plain string prefix, not a directory: a sibling directory sharing the prefix is cut too. */
  lemma PlainPrefixQuirk()
    ensures Relativise("/repo-old/a.py", "/repo") == "-old/a.py"
  {
    var p := "/repo-old/a.py";
    assert p[..5] == "/repo";
    assert p[5..] == "-old/a.py";
  }

  /** Any stored path that begins with `.claude/progress` is skipped, a directory such as `.claude/progressive` included. */
  lemma PrefixFilterSkips(suffix: string)
    ensures Skipped(".claude/progress" + suffix)
    ensures Skipped(".claude/progressive")
  {
    assert (".claude/progress" + suffix)[..16] == ".claude/progress";
    assert ".claude/progressive"[..16] == ".claude/progress";
  }

  /** The separator `JoinPath` puts after a non-empty directory. */
  function Sep(dir: string): string
    requires dir != ""
  {
    if dir[|dir| - 1] == '/' then "" else "/"
  }

  lemma ProgressFileShape(cwd: string, name: string)
    requires cwd != ""
    ensures JoinPath(ProgressDir(cwd), name) == cwd + (Sep(cwd) + (".claude/progress/" + name))
  {
    var c := JoinPath(cwd, ".claude");
    assert c == cwd + Sep(cwd) + ".claude";
    assert c[|c| - 1] == 'e';
    var d := ProgressDir(cwd);
    assert d == c + "/" + "progress";
    assert d[|d| - 1] == 's';
    assert JoinPath(d, name) == d + "/" + name;
    assert c + "/" + "progress" + "/" + name == cwd + (Sep(cwd) + (".claude/progress/" + name));
  }

  /** Every path inside the project's progress directory is stored as `.claude/progress/...`, which is skipped. */
  lemma ProgressPathSkipped(cwd: string, name: string)
    requires cwd != ""
    ensures Relativise(JoinPath(ProgressDir(cwd), name), cwd) == ".claude/progress/" + name
    ensures Skipped(".claude/progress/" + name)
  {
    ProgressFileShape(cwd, name);
    var t := Sep(cwd) + (".claude/progress/" + name);
    var p := cwd + t;
    assert p[..|cwd|] == cwd;
    assert p[|cwd|..] == t;
    SepStripped(cwd, name);
    assert (".claude/progress/" + name)[..16] == ".claude/progress";
  }

  /** Dropping the leading `/`s of the separator and the progress path leaves the progress path. */
  lemma SepStripped(cwd: string, name: string)
    requires cwd != ""
    ensures LStripSlash(Sep(cwd) + (".claude/progress/" + name)) == ".claude/progress/" + name
  {
    var u := ".claude/progress/" + name;
    assert LStripSlash(u) == u by {
      assert u[0] == '.';
    }
    if Sep(cwd) == "/" {
      assert (Sep(cwd) + u)[1..] == u;
    } else {
      assert Sep(cwd) + u == u;
    }
  }

  /** A write into the project's own progress directory (its own logs included) is never logged. */
  lemma NoSelfLogging(sid: Option<string>, cwd: string, tool: Option<string>, name: string, now: string, logs: Logs)
    requires cwd != ""
    ensures var input := Payload(sid, Some(cwd), tool, ToolInput(Some(JoinPath(ProgressDir(cwd), name)), None));
      Run(input, now, logs) == logs
    ensures Skipped(Relativise(LogPath(cwd, SessionOf(sid)), cwd))
  {
    ProgressPathSkipped(cwd, name);
    ProgressPathSkipped(cwd, SessionOf(sid) + ".jsonl");
  }

  /**
    Otherwise exactly one record, holding the time stamp, the tool name and
    the stored path, is appended to the session's log (session `"unknown"` by
    default); its earlier records and every other log are unchanged.
   */
  lemma AppendsOneRecord(input: HookInput, now: string, logs: Logs)
    requires input.Payload? && input.cwd.GetOr("") != "" && input.toolInput.filePath.GetOr("") != ""
    requires !Skipped(Relativise(input.toolInput.filePath.value, input.cwd.value))
    ensures var path := LogPath(input.cwd.value, SessionOf(input.sessionId));
      var after := Run(input, now, logs);
      && path in after && |after[path]| == |Records(logs, path)| + 1
      && after[path][..|Records(logs, path)|] == Records(logs, path)
      && after[path][|Records(logs, path)|]
         == ProgressRecord(now, input.toolName, Relativise(input.toolInput.filePath.value, input.cwd.value))
      && after.Keys == logs.Keys + {path}
      && forall p :: p in logs && p != path ==> after[p] == logs[p]
  {
    var path := LogPath(input.cwd.value, SessionOf(input.sessionId));
    var old_ := Records(logs, path);
    var rec := ProgressRecord(now, input.toolName, Relativise(input.toolInput.filePath.value, input.cwd.value));
    assert (old_ + [rec])[..|old_|] == old_;
  }

  /** Logs only grow: every earlier record of every log survives an invocation. */
  lemma LogsOnlyGrow(input: HookInput, now: string, logs: Logs)
    ensures var after := Run(input, now, logs);
      forall p :: p in logs ==> p in after && |logs[p]| <= |after[p]| && after[p][..|logs[p]|] == logs[p]
  {
    var after := Run(input, now, logs);
    forall p | p in logs ensures p in after && |logs[p]| <= |after[p]| && after[p][..|logs[p]|] == logs[p] {
      match Entry(input, now)
      case None =>
        assert after[p] == logs[p];
      case Some((path, record)) =>
        if p == path {
          assert after[p] == logs[p] + [record];
          assert (logs[p] + [record])[..|logs[p]|] == logs[p];
        } else {
          assert after[p] == logs[p];
        }
    }
  }

  /** The project's progress logs, as the hook appends to them. */
  class ProgressLog {
    var logs: Logs

    constructor (initial: Logs)
      ensures logs == initial
    {
      logs := initial;
    }

    /** One invocation of the hook: append the record (`open(progress_file, "a")`) or leave the logs alone. */
    method Record(input: HookInput, now: string)
      modifies this
      ensures logs == Run(input, now, old(logs))
    {
      if input.Malformed? {
        return;
      }
      var cwd := input.cwd.GetOr("");
      if cwd == "" {
        return;
      }
      var filePath := input.toolInput.filePath.GetOr("");
      if filePath == "" {
        return;
      }
      if StartsWith(filePath, cwd) {
        filePath := LStripSlash(filePath[|cwd|..]);
      }
      if Skipped(filePath) {
        return;
      }
      var record := ProgressRecord(now, input.toolName, filePath);
      var progressFile := LogPath(cwd, SessionOf(input.sessionId));
      var existing := if progressFile in logs then logs[progressFile] else [];
      logs := logs[progressFile := existing + [record]];
    }
  }
}
