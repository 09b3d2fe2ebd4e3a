/**
  Recognition of issue identifiers in branch names: `has_issue_id` (the
  search `[a-z]+-\d+` under `re.IGNORECASE`, shared by the branch hook and
  the pre-implementation hook) and the extraction of the first match,
  upper-cased, that the branch hook stores as `issue_id`.
 */
module IssueId {
  import opened Wrappers
  import opened Text

  /** `b[i]` is a letter, `b[i+1]` a dash and `b[i+2]` a digit: the shortest text the pattern matches. */
  predicate IdAt(b: string, i: nat) {
    i + 2 < |b| && IsAsciiLetter(b[i]) && b[i + 1] == '-' && IsAsciiDigit(b[i + 2])
  }

  /** `has_issue_id(b)`, as a scanner over the branch name. */
  function HasIssueId(b: string): bool {
    |b| >= 3 && ((IsAsciiLetter(b[0]) && b[1] == '-' && IsAsciiDigit(b[2])) || HasIssueId(b[1..]))
  }

  /** A branch name contains an issue id exactly when some letter is followed by a dash and a digit. */
  lemma {:induction false} HasIssueIdIff(b: string)
    ensures HasIssueId(b) <==> exists i: nat :: IdAt(b, i)
  {
    if |b| >= 3 {
      HasIssueIdIff(b[1..]);
      if IsAsciiLetter(b[0]) && b[1] == '-' && IsAsciiDigit(b[2]) {
        assert IdAt(b, 0);
      } else {
        forall i: nat | IdAt(b[1..], i) ensures IdAt(b, i + 1) {
          assert b[1..][i] == b[i + 1] && b[1..][i + 1] == b[i + 2] && b[1..][i + 2] == b[i + 3];
        }
        forall i: nat | IdAt(b, i) ensures i >= 1 && IdAt(b[1..], i - 1) {
          assert b[1..][i - 1] == b[i] && b[1..][i] == b[i + 1] && b[1..][i + 1] == b[i + 2];
        }
      }
    }
  }

  /** A match of `([a-z]+-\d+)`: letters in `[start, dash)`, a dash at `dash`, digits in `(dash, stop)`. */
  datatype Span = Span(start: nat, dash: nat, stop: nat)

  /** `m` is a match of the pattern in `b` whose digit run cannot be extended (the greedy `\d+`). */
  predicate IsMatch(b: string, m: Span) {
    && m.start < m.dash && m.dash + 1 < m.stop <= |b|
    && (forall k :: m.start <= k < m.dash ==> IsAsciiLetter(b[k]))
    && b[m.dash] == '-'
    && (forall k :: m.dash < k < m.stop ==> IsAsciiDigit(b[k]))
    && (m.stop == |b| || !IsAsciiDigit(b[m.stop]))
  }

  /** The match anchored at `s`: the greedy letter run, a dash, the greedy digit run. */
  function MatchAt(b: string, s: nat): (r: Option<Span>)
    requires s <= |b|
    ensures r.Some? ==> r.value.start == s && IsMatch(b, r.value)
  {
    if s < |b| && IsAsciiLetter(b[s]) then
      var d := RunEnd(b, s, Letter);
      if d + 1 < |b| && b[d] == '-' && IsAsciiDigit(b[d + 1]) then
        Some(Span(s, d, RunEnd(b, d + 1, Digit)))
      else None
    else None
  }

  /** `re.search` from position `s`: the leftmost position at which the anchored match succeeds. */
  function SearchFrom(b: string, s: nat): (r: Option<Span>)
    requires s <= |b|
    ensures r.Some? ==> s <= r.value.start <= |b| && MatchAt(b, r.value.start) == r
    ensures r.Some? ==> forall k :: s <= k < r.value.start ==> MatchAt(b, k).None?
    ensures r.None? ==> forall k :: s <= k <= |b| ==> MatchAt(b, k).None?
    decreases |b| - s
  {
    if MatchAt(b, s).Some? then MatchAt(b, s)
    else if s == |b| then None
    else SearchFrom(b, s + 1)
  }

  lemma MatchAtId(b: string, i: nat)
    requires IdAt(b, i)
    ensures MatchAt(b, i).Some?
  {
    assert RunEnd(b, i + 1, Letter) == i + 1;
    assert RunEnd(b, i, Letter) == i + 1;
  }

  lemma MatchAtExtends(b: string, s: nat)
    requires 0 < s <= |b| && IsAsciiLetter(b[s - 1]) && MatchAt(b, s).Some?
    ensures MatchAt(b, s - 1).Some?
  {
    assert RunEnd(b, s - 1, Letter) == RunEnd(b, s, Letter);
  }

  /** `re.search(r"([a-z]+-\d+)", b, re.IGNORECASE)`, as a span of `b`. */
  function FindIssueId(b: string): (r: Option<Span>)
    ensures r.Some? <==> HasIssueId(b)
    ensures r.Some? ==> IsMatch(b, r.value)
    // the match starts where its letter run starts ...
    ensures r.Some? ==> r.value.start == 0 || !IsAsciiLetter(b[r.value.start - 1])
    // ... and it is the leftmost one: no letter-dash-digit triple starts before it
    ensures r.Some? ==> forall i: nat :: IdAt(b, i) ==> r.value.start <= i
  {
    LeftmostSearch(b);
    SearchFrom(b, 0)
  }

  lemma LeftmostSearch(b: string)
    ensures var r := SearchFrom(b, 0);
      && (r.Some? <==> HasIssueId(b))
      && (r.Some? ==> r.value.start == 0 || !IsAsciiLetter(b[r.value.start - 1]))
      && (r.Some? ==> forall i: nat :: IdAt(b, i) ==> r.value.start <= i)
  {
    var r := SearchFrom(b, 0);
    HasIssueIdIff(b);
    if r.Some? {
      var m := r.value;
      assert IdAt(b, m.dash - 1);
      if m.start > 0 && IsAsciiLetter(b[m.start - 1]) {
        MatchAtExtends(b, m.start);
        assert false;
      }
      forall i: nat | IdAt(b, i) ensures m.start <= i {
        MatchAtId(b, i);
      }
    } else {
      forall i: nat | IdAt(b, i) ensures false {
        MatchAtId(b, i);
      }
    }
  }

  /** The `issue_id` the branch hook records: the first match, upper-cased. */
  function IssueIdOf(b: string): Option<string> {
    match FindIssueId(b)
    case Some(m) => Some(Upper(b[m.start..m.stop]))
    case None => None
  }

  /**
    Whenever `has_issue_id` holds, an id is recorded; it is upper case letters, a
    dash and digits, and it satisfies `has_issue_id` in turn.
   */
  lemma IssueIdOfWellFormed(b: string)
    requires HasIssueId(b)
    ensures IssueIdOf(b).Some?
    ensures var id := IssueIdOf(b).value;
      && HasIssueId(id)
      && exists d :: IsMatch(id, Span(0, d, |id|)) && forall k :: 0 <= k < d ==> IsAsciiUpper(id[k])
  {
    var m := FindIssueId(b).value;
    var t := b[m.start..m.stop];
    var id := Upper(t);
    var d := m.dash - m.start;
    assert t[d] == '-';
    forall k | 0 <= k < d ensures IsAsciiUpper(id[k]) {
      assert t[k] == b[m.start + k];
    }
    forall k | d < k < |id| ensures IsAsciiDigit(id[k]) {
      assert t[k] == b[m.start + k];
    }
    assert IsMatch(id, Span(0, d, |id|));
    assert IdAt(id, d - 1);
    HasIssueIdIff(id);
  }

  /** The two protected branch names carry no issue id. */
  lemma ProtectedBranchesHaveNoId()
    ensures !HasIssueId("main") && !HasIssueId("master")
  {
    HasIssueIdIff("main");
    HasIssueIdIff("master");
  }
}
