/**
  The commit-message hook that runs before Bash: for a `git commit -m ...`
  command it extracts the subject line and blocks it unless it has the
  Conventional Commits shape `type[(scope)][!]: description` (any lower-case
  word is accepted as the type), giving the first reason that applies.
 */
module ValidateCommitMsg {
  import opened Wrappers
  import opened Text
  import opened Hooks

  // ---------------------------------------------------------------------------
  // The PATTERN recogniser
  // ---------------------------------------------------------------------------

  /** The parts of a subject line `type[(scope)][!]: description`. */
  datatype Header = Header(kind: string, scope: Option<string>, breaking: bool, description: string)

  /** The parts as `^[a-z]+(\([^)]+\))?!?: .+$` constrains them. */
  predicate WellFormed(h: Header) {
    && h.kind != [] && (forall k :: 0 <= k < |h.kind| ==> IsAsciiLower(h.kind[k]))
    && (h.scope.Some? ==> h.scope.value != [] && ')' !in h.scope.value)
    && h.description != [] && '\n' !in h.description
  }

  function ScopePart(scope: Option<string>): string {
    if scope.Some? then "(" + scope.value + ")" else ""
  }

  function BangPart(breaking: bool): string {
    if breaking then "!" else ""
  }

  /** The subject line a header spells. */
  function Render(h: Header): string {
    h.kind + ScopePart(h.scope) + BangPart(h.breaking) + ": " + h.description
  }

  /** `!?: .+$` from position `i`, the type and scope already read. */
  function Tail(m: string, kind: string, scope: Option<string>, i: nat): Option<Header>
    requires i <= |m|
  {
    var bang := i < |m| && m[i] == '!';
    var j := if bang then i + 1 else i;
    if !OccursAt(m, ": ", j) then None
    else
      var d := m[j + 2..];
      var line := FirstLine(d);
      // `.+` takes the first line; `$` then needs the end, or a final newline
      if line != [] && |d| <= |line| + 1 then Some(Header(kind, scope, bang, line)) else None
  }

  /** `[a-z]+(\([^)]+\))?`: the type, the scope if any, and where the rest begins. */
  function Head(m: string): (r: Option<(string, Option<string>, nat)>)
    ensures r.Some? ==> var (kind, scope, i) := r.value;
      && i <= |m| && m[..i] == kind + ScopePart(scope)
      && kind != [] && (forall k :: 0 <= k < |kind| ==> IsAsciiLower(kind[k]))
      && (scope.Some? ==> scope.value != [] && ')' !in scope.value)
  {
    var e := RunEnd(m, 0, Lower);
    if e == 0 then None
    else if e < |m| && m[e] == '(' then
      var j := RunEnd(m, e + 1, Except(')'));
      ExceptRun(m, e + 1, ')');
      if j == e + 1 || j == |m| then None
      else
        SliceAround(m, e, j);
        Some((m[..e], Some(m[e + 1..j]), (j + 1) as nat))
    else Some((m[..e], None, e))
  }

  lemma SliceAround(m: string, e: nat, j: nat)
    requires e < j < |m|
    ensures m[..j + 1] == m[..e] + ([m[e]] + m[e + 1..j] + [m[j]])
  {
    assert m[..j + 1] == m[..e] + m[e..j + 1];
    assert m[e..j + 1] == [m[e]] + m[e + 1..j] + [m[j]];
  }

  /** `PATTERN.match(m)`, as a deterministic parser (each part of the pattern can match in one way only). */
  function Parse(m: string): Option<Header> {
    match Head(m)
    case None => None
    case Some((kind, scope, i)) => Tail(m, kind, scope, i)
  }

  predicate Matches(m: string) {
    Parse(m).Some?
  }

  lemma TailSound(m: string, kind: string, scope: Option<string>, i: nat)
    requires i <= |m| && Tail(m, kind, scope, i).Some?
    ensures var h := Tail(m, kind, scope, i).value;
      && h.kind == kind && h.scope == scope && h.description != [] && '\n' !in h.description
      && (m[i..] == BangPart(h.breaking) + ": " + h.description
          || m[i..] == BangPart(h.breaking) + ": " + h.description + "\n")
  {
    var h := Tail(m, kind, scope, i).value;
    var j := if h.breaking then i + 1 else i;
    var d := m[j + 2..];
    assert m[i..] == BangPart(h.breaking) + ": " + d by {
      assert m[i..j] == BangPart(h.breaking);
      assert m[j..j + 2] == ": ";
      assert m[i..] == m[i..j] + m[j..j + 2] + m[j + 2..];
    }
    if |d| == |h.description| {
      assert d == h.description;
    } else {
      assert d == h.description + "\n";
    }
  }

  /** `Render` as the head the parser reads first and the tail it reads after. */
  lemma RenderSplit(h: Header)
    ensures Render(h) == (h.kind + ScopePart(h.scope)) + (BangPart(h.breaking) + ": " + h.description)
  {
  }

  lemma RenderWith(h: Header, nl: string)
    ensures Render(h) + nl == h.kind + (ScopePart(h.scope) + (BangPart(h.breaking) + (": " + (h.description + nl))))
    ensures Render(h) + nl == (h.kind + ScopePart(h.scope)) + (BangPart(h.breaking) + (": " + (h.description + nl)))
  {
  }

  /** Whatever the pattern accepts is a well-formed header, spelled out (with at most one final newline). */
  lemma ParseSound(m: string)
    requires Matches(m)
    ensures WellFormed(Parse(m).value)
    ensures m == Render(Parse(m).value) || m == Render(Parse(m).value) + "\n"
  {
    var (kind, scope, i) := Head(m).value;
    assert Parse(m) == Tail(m, kind, scope, i);
    TailSound(m, kind, scope, i);
    var h := Parse(m).value;
    RenderSplit(h);
    HeadThenTail(m, i, h.kind + ScopePart(h.scope), BangPart(h.breaking) + ": " + h.description);
  }

  /** A text split at `i` into a known head and a known tail (with or without a final newline). */
  lemma HeadThenTail(m: string, i: nat, head: string, tail: string)
    requires i <= |m| && m[..i] == head && (m[i..] == tail || m[i..] == tail + "\n")
    ensures m == head + tail || m == (head + tail) + "\n"
  {
    assert m == m[..i] + m[i..];
    if m[i..] != tail {
      assert m == head + (tail + "\n");
    }
  }

  /** Dropping a known prefix of a suffix. */
  lemma DropPrefix(m: string, i: nat, a: string, b: string)
    requires i <= |m| && m[i..] == a + b
    ensures i + |a| <= |m| && m[i + |a|..] == b && m[i..i + |a|] == a
  {
    assert m[i..][|a|..] == b;
    assert m[i..][..|a|] == a;
  }

  lemma TailComplete(m: string, i: nat, h: Header, nl: string)
    requires i <= |m| && h.description != [] && '\n' !in h.description && (nl == "" || nl == "\n")
    requires m[i..] == BangPart(h.breaking) + (": " + (h.description + nl))
    ensures Tail(m, h.kind, h.scope, i) == Some(h)
  {
    DropPrefix(m, i, BangPart(h.breaking), ": " + (h.description + nl));
    var j := i + |BangPart(h.breaking)|;
    assert i < |m| && (m[i] == '!' <==> h.breaking) by {
      assert m[i] == m[i..][0];
    }
    DropPrefix(m, j, ": ", h.description + nl);
    assert OccursAt(m, ": ", j);
    FirstLineOf(h.description, nl);
  }

  lemma ScopeComplete(kind: string, sc: string, rest: string)
    requires sc != [] && ')' !in sc
    ensures var m := kind + ("(" + sc + ")") + rest;
      RunEnd(m, |kind| + 1, Except(')')) == |kind| + 1 + |sc| < |m| && m[|kind| + 1..|kind| + 1 + |sc|] == sc
  {
    var m := kind + ("(" + sc + ")") + rest;
    var n := |kind|;
    var close := n + 1 + |sc|;
    assert m == (kind + "(") + (sc + (")" + rest));
    DropPrefix(m, 0, kind + "(", sc + (")" + rest));
    DropPrefix(m, n + 1, sc, ")" + rest);
    assert m[close] == ')' by {
      assert m[close..][0] == ')';
    }
    forall k | n + 1 <= k < close ensures m[k] != ')' {
      assert m[k] == m[n + 1..close][k - n - 1];
    }
    RunEndIs(m, n + 1, Except(')'), close);
  }

  /** The type is the whole lower-case run at the start. */
  lemma KindRun(kind: string, tail: string)
    requires forall k :: 0 <= k < |kind| ==> IsAsciiLower(kind[k])
    requires tail == [] || !IsAsciiLower(tail[0])
    ensures RunEnd(kind + tail, 0, Lower) == |kind| && (kind + tail)[..|kind|] == kind
  {
    var m := kind + tail;
    assert forall k :: 0 <= k < |kind| ==> m[k] == kind[k];
    assert |kind| < |m| ==> m[|kind|] == tail[0];
    RunEndIs(m, 0, Lower, |kind|);
  }

  lemma HeadComplete(h: Header, rest: string)
    requires WellFormed(h) && (rest == [] || (rest[0] != '(' && !IsAsciiLower(rest[0])))
    ensures Head(h.kind + (ScopePart(h.scope) + rest)) == Some((h.kind, h.scope, |h.kind| + |ScopePart(h.scope)|))
  {
    if h.scope.Some? {
      HeadCompleteScoped(h, rest);
    } else {
      HeadCompletePlain(h, rest);
    }
  }

  lemma HeadCompletePlain(h: Header, rest: string)
    requires WellFormed(h) && h.scope.None? && (rest == [] || (rest[0] != '(' && !IsAsciiLower(rest[0])))
    ensures Head(h.kind + (ScopePart(h.scope) + rest)) == Some((h.kind, h.scope, |h.kind| + |ScopePart(h.scope)|))
  {
    assert ScopePart(h.scope) + rest == rest;
    var m := h.kind + rest;
    KindRun(h.kind, rest);
    assert |h.kind| < |m| ==> m[|h.kind|] == rest[0];
  }

  lemma HeadCompleteScoped(h: Header, rest: string)
    requires WellFormed(h) && h.scope.Some?
    ensures Head(h.kind + (ScopePart(h.scope) + rest)) == Some((h.kind, h.scope, |h.kind| + |ScopePart(h.scope)|))
  {
    var kind, sc := h.kind, h.scope.value;
    assert ScopePart(h.scope) == "(" + sc + ")";
    var tail := ("(" + sc + ")") + rest;
    var m := kind + tail;
    KindRun(kind, tail);
    assert m[|kind|] == '(';
    ScopeComplete(kind, sc, rest);
    assert m == kind + ("(" + sc + ")") + rest;
    HeadScopedIs(m, |kind|, |kind| + 1 + |sc|);
  }

  /** `Head`'s scoped branch, each of its steps given as a fact. */
  lemma HeadScopedIs(m: string, e: nat, j: nat)
    requires 0 < e < |m| && RunEnd(m, 0, Lower) == e && m[e] == '('
    requires RunEnd(m, e + 1, Except(')')) == j && e + 1 < j < |m|
    ensures Head(m) == Some((m[..e], Some(m[e + 1..j]), j + 1))
  {
  }

  /** Every well-formed header, spelled out (with or without one final newline), is accepted and read back. */
  lemma ParseComplete(h: Header, nl: string)
    requires WellFormed(h) && (nl == "" || nl == "\n")
    ensures Parse(Render(h) + nl) == Some(h)
  {
    var m := Render(h) + nl;
    var rest := BangPart(h.breaking) + (": " + (h.description + nl));
    RenderWith(h, nl);
    assert rest[0] == (if h.breaking then '!' else ':');
    HeadComplete(h, rest);
    var i := |h.kind| + |ScopePart(h.scope)|;
    DropPrefix(m, 0, h.kind + ScopePart(h.scope), rest);
    TailComplete(m, i, h, nl);
  }

  /** The pattern accepts exactly the well-formed headers, each with or without one final newline. */
  lemma PatternIff(m: string)
    ensures Matches(m) <==> exists h :: WellFormed(h) && (m == Render(h) || m == Render(h) + "\n")
  {
    if Matches(m) {
      ParseSound(m);
    }
    if h :| WellFormed(h) && (m == Render(h) || m == Render(h) + "\n") {
      if m == Render(h) {
        ParseComplete(h, "");
        assert Render(h) + "" == m;
      } else {
        ParseComplete(h, "\n");
      }
    }
  }

  // ---------------------------------------------------------------------------
  // extract_commit_message
  // ---------------------------------------------------------------------------

  /** The three command shapes the extractor recognises, in the order it tries them. */
  datatype Shape = Heredoc | DoubleQuoted | SingleQuoted

  function SkipQuote(m: string, i: nat): (j: nat)
    requires i <= |m|
    ensures j <= |m|
  {
    if i < |m| && (m[i] == '\'' || m[i] == '"') then i + 1 else i
  }

  /** `\$\(cat <<['"]?EOF['"]?\n(.+?)\nEOF` (DOTALL) anchored at `p`: the lazy capture up to the first `\nEOF`. */
  function HeredocAt(m: string, p: nat): Option<string>
    requires p <= |m|
  {
    if !OccursAt(m, "$(cat <<", p) then None
    else
      var i := SkipQuote(m, p + 8);
      if !OccursAt(m, "EOF", i) then None
      else
        var j := SkipQuote(m, i + 3);
        if !(j < |m| && m[j] == '\n') then None
        else
          match FindFrom(m, "\nEOF", j + 2)
          case Some(k) => Some(m[j + 1..k])
          case None => None
  }

  /** `-m\s+q([^q]+)q` anchored at `p`, for the quote character `q`. */
  function QuotedAt(m: string, p: nat, q: char): (r: Option<string>)
    requires p <= |m|
    ensures r.Some? ==> r.value != [] && q !in r.value
  {
    if !OccursAt(m, "-m", p) then None
    else
      var e := RunEnd(m, p + 2, Space);
      if e == p + 2 || e >= |m| || m[e] != q then None
      else
        var k := RunEnd(m, e + 1, Except(q));
        ExceptRun(m, e + 1, q);
        if k == e + 1 || k == |m| then None else Some(m[e + 1..k])
  }

  function CaptureAt(shape: Shape, m: string, p: nat): Option<string>
    requires p <= |m|
  {
    match shape
    case Heredoc => HeredocAt(m, p)
    case DoubleQuoted => QuotedAt(m, p, '"')
    case SingleQuoted => QuotedAt(m, p, '\'')
  }

  /** `re.search` for one shape: the leftmost position where it matches. */
  function Search(shape: Shape, m: string, p: nat): (r: Option<nat>)
    requires p <= |m|
    ensures r.Some? ==> p <= r.value <= |m| && CaptureAt(shape, m, r.value).Some?
    ensures r.Some? ==> forall k :: p <= k < r.value ==> CaptureAt(shape, m, k).None?
    ensures r.None? ==> forall k :: p <= k <= |m| ==> CaptureAt(shape, m, k).None?
    decreases |m| - p
  {
    if CaptureAt(shape, m, p).Some? then Some(p)
    else if p == |m| then None
    else Search(shape, m, p + 1)
  }

  /** What the first match of one shape captures, if it matches anywhere. */
  function Captured(shape: Shape, m: string): Option<string> {
    match Search(shape, m, 0)
    case Some(p) => CaptureAt(shape, m, p)
    case None => None
  }

  /** `.split("\n")[0].strip()`. */
  function Clean(c: string): (r: string)
    ensures '\n' !in r && IsStripped(r)
    ensures forall ch :: ch in r ==> ch in c
  {
    var line := FirstLine(c);
    assert forall ch :: ch in line ==> ch in c by {
      forall ch | ch in line ensures ch in c {
        var k :| 0 <= k < |line| && line[k] == ch;
        assert c[k] == ch;
      }
    }
    Strip(line)
  }

  /** The cleaned capture is its first line with the outer whitespace cut off. */
  lemma CleanInfix(c: string)
    ensures var line := FirstLine(c);
      && StartsWith(c, line) && '\n' !in line && (|line| < |c| ==> c[|line|] == '\n')
      && exists i, j :: 0 <= i <= j <= |line| && Clean(c) == line[i..j]
           && (forall k :: 0 <= k < i ==> IsSpace(line[k])) && (forall k :: j <= k < |line| ==> IsSpace(line[k]))
  {
    StripInfix(FirstLine(c));
  }

  /** `extract_commit_message`: heredoc first, then `-m "..."`, then `-m '...'`; `None` if none matches. */
  function ExtractCommitMessage(command: string): (r: Option<string>)
    ensures r.Some? ==> '\n' !in r.value && IsStripped(r.value)
    ensures r.None? <==> Captured(Heredoc, command).None? && Captured(DoubleQuoted, command).None?
                         && Captured(SingleQuoted, command).None?
    ensures Captured(Heredoc, command).None? && Captured(DoubleQuoted, command).Some? ==> '"' !in r.value
    ensures Captured(Heredoc, command).None? && Captured(DoubleQuoted, command).None? && r.Some? ==> '\'' !in r.value
  {
    var h := Captured(Heredoc, command);
    var d := Captured(DoubleQuoted, command);
    var s := Captured(SingleQuoted, command);
    if h.Some? then Some(Clean(h.value))
    else if d.Some? then Some(Clean(d.value))
    else if s.Some? then Some(Clean(s.value))
    else None
  }

  /** A search with every earlier position failing finds the first position that matches. */
  lemma SearchIs(shape: Shape, m: string, p: nat)
    requires p <= |m| && CaptureAt(shape, m, p).Some?
    requires forall k :: 0 <= k < p ==> CaptureAt(shape, m, k).None?
    ensures Search(shape, m, 0) == Some(p)
  {
  }

  /** A heredoc match starts with `$`. */
  lemma HeredocNeedsDollar(m: string, k: nat)
    requires k <= |m|
    ensures HeredocAt(m, k).Some? ==> k < |m| && m[k] == '$'
  {
    OccursAtHead(m, "$(cat <<", k);
  }

  /** A command without `$` has no heredoc. */
  lemma NoDollarNoHeredoc(m: string)
    requires '$' !in m
    ensures Captured(Heredoc, m).None?
  {
    forall k | 0 <= k <= |m| ensures HeredocAt(m, k).None? {
      HeredocNeedsDollar(m, k);
    }
  }

  // ---------------------------------------------------------------------------
  // What the scanners capture
  // ---------------------------------------------------------------------------

  /** The text `-m\s+q([^q]+)q` matches: `-m`, the whitespace `w`, then `c` between two `q`s. */
  function QuotedForm(w: string, q: char, c: string): string {
    "-m" + (w + ([q] + (c + [q])))
  }

  /** An optional quote around a heredoc's `EOF`: `['"]?`. */
  predicate OptQuote(o: string) {
    o == "" || o == "'" || o == "\""
  }

  /** No `\nEOF` starts inside the body after its first character, so the lazy capture runs to its end. */
  predicate NoEarlyEof(body: string) {
    forall t :: 1 <= t < |body| ==> !OccursAt(body + "\nEOF", "\nEOF", t)
  }

  /** The text the heredoc pattern matches, with the opening `EOF` quoted by `o1` and `o2`. */
  function HeredocForm(o1: string, o2: string, body: string): string {
    "$(cat <<" + (o1 + ("EOF" + (o2 + ("\n" + (body + "\nEOF")))))
  }

  lemma SliceSplit(m: string, a: nat, b: nat, c: nat)
    requires a <= b <= c <= |m|
    ensures m[a..c] == m[a..b] + m[b..c]
  {
  }

  /** A slice of a known infix of `m` is the same slice of `m`. */
  lemma SubSlice(m: string, p: nat, f: string, x: nat, y: nat)
    requires p + |f| <= |m| && m[p..p + |f|] == f && x <= y <= |f|
    ensures m[p + x..p + y] == f[x..y]
  {
    forall t | 0 <= t < y - x ensures m[p + x..p + y][t] == f[x..y][t] {
      assert m[p + x + t] == m[p..p + |f|][x + t];
    }
  }

  /** Whether `pat` occurs at `base + t` in `m` depends only on the known infix `s` at `base`. */
  lemma OccursShift(m: string, base: nat, s: string, pat: string, t: nat)
    requires base + |s| <= |m| && m[base..base + |s|] == s && t + |pat| <= |s|
    ensures OccursAt(m, pat, base + t) <==> OccursAt(s, pat, t)
  {
    SubSlice(m, base, s, t, t + |pat|);
  }

  /** A prefix of the rest of `m` from `p`, as a slice of `m`. */
  lemma StartsWithAt(m: string, p: nat, f: string)
    requires p <= |m|
    ensures StartsWith(m[p..], f) <==> p + |f| <= |m| && m[p..p + |f|] == f
  {
    if p + |f| <= |m| {
      assert m[p..][..|f|] == m[p..p + |f|];
    }
  }

  /** Splitting a prefix `a + b` of the rest of `m` from `i`. */
  lemma StartsThen(m: string, i: nat, a: string, b: string)
    requires i <= |m| && StartsWith(m[i..], a + b)
    ensures i + |a| <= |m| && m[i..i + |a|] == a && StartsWith(m[i + |a|..], b)
  {
    StartsWithAt(m, i, a + b);
    SliceSplit(m, i, i + |a|, i + |a| + |b|);
    assert (a + b)[..|a|] == a && (a + b)[|a|..] == b;
    StartsWithAt(m, i + |a|, b);
  }

  /** Joining a known infix `a` at `i` with a prefix `b` of what follows it. */
  lemma StartsJoin(m: string, i: nat, a: string, b: string)
    requires i + |a| <= |m| && m[i..i + |a|] == a && StartsWith(m[i + |a|..], b)
    ensures StartsWith(m[i..], a + b)
  {
    StartsWithAt(m, i + |a|, b);
    SliceSplit(m, i, i + |a|, i + |a| + |b|);
    StartsWithAt(m, i, a + b);
  }

  /** A quoted capture is the text between the quote that follows `-m` and whitespace, and the next quote. */
  lemma QuotedAtSound(m: string, p: nat, q: char, c: string)
    requires p <= |m| && QuotedAt(m, p, q) == Some(c)
    ensures exists w :: w != [] && Blank(w) && StartsWith(m[p..], QuotedForm(w, q, c))
  {
    var e := RunEnd(m, p + 2, Space);
    var k := RunEnd(m, e + 1, Except(q));
    QuotedAtSteps(m, p, q);
    var w := m[p + 2..e];
    forall t | 0 <= t < |w| ensures IsSpace(w[t]) {
      assert w[t] == m[p + 2 + t];
    }
    QuotedFormFrom(m, p, e, k, q);
  }

  /** The steps the quoted scanner took to capture something at `p`. */
  lemma QuotedAtSteps(m: string, p: nat, q: char)
    requires p <= |m| && QuotedAt(m, p, q).Some?
    ensures var e := RunEnd(m, p + 2, Space);
      var k := RunEnd(m, e + 1, Except(q));
      && OccursAt(m, "-m", p) && p + 2 < e < |m| && m[e] == q
      && e + 1 < k < |m| && m[k] == q
      && QuotedAt(m, p, q).value == m[e + 1..k]
  {
  }

  /** The pieces the quoted scanner steps over, put back together as a quoted form. */
  lemma QuotedFormFrom(m: string, p: nat, e: nat, k: nat, q: char)
    requires OccursAt(m, "-m", p) && p + 2 <= e < k < |m| && m[e] == q && m[k] == q
    ensures StartsWith(m[p..], QuotedForm(m[p + 2..e], q, m[e + 1..k]))
  {
    var w, c := m[p + 2..e], m[e + 1..k];
    assert m[k..k + 1] == [q] && m[e..e + 1] == [q];
    StartsWithAt(m, k, [q]);
    StartsJoin(m, e + 1, c, [q]);
    StartsJoin(m, e, [q], c + [q]);
    StartsJoin(m, p + 2, w, [q] + (c + [q]));
    StartsJoin(m, p, "-m", w + ([q] + (c + [q])));
  }

  /** Conversely, `-m`, whitespace and a quote-free text between two quotes is captured as that text. */
  lemma QuotedAtComplete(m: string, p: nat, w: string, q: char, c: string)
    requires p <= |m| && w != [] && Blank(w) && !IsSpace(q) && c != [] && q !in c
    requires StartsWith(m[p..], QuotedForm(w, q, c))
    ensures QuotedAt(m, p, q) == Some(c)
  {
    var e := p + 2 + |w|;
    var k := e + 1 + |c|;
    QuotedPieces(m, p, w, q, c);
    forall t | p + 2 <= t < e ensures IsSpace(m[t]) {
      assert m[t] == m[p + 2..e][t - p - 2];
    }
    RunEndIs(m, p + 2, Space, e);
    forall t | e + 1 <= t < k ensures m[t] != q {
      assert m[t] == m[e + 1..k][t - e - 1];
    }
    RunEndIs(m, e + 1, Except(q), k);
    QuotedAtIs(m, p, q, e, k);
  }

  /** A quoted form at `p`, cut into the pieces it is made of. */
  lemma QuotedPieces(m: string, p: nat, w: string, q: char, c: string)
    requires p <= |m| && StartsWith(m[p..], QuotedForm(w, q, c))
    ensures var e := p + 2 + |w|;
      var k := e + 1 + |c|;
      && k < |m| && OccursAt(m, "-m", p) && m[p + 2..e] == w && m[e] == q && m[e + 1..k] == c && m[k] == q
  {
    var e := p + 2 + |w|;
    var k := e + 1 + |c|;
    StartsThen(m, p, "-m", w + ([q] + (c + [q])));
    StartsThen(m, p + 2, w, [q] + (c + [q]));
    StartsThen(m, e, [q], c + [q]);
    StartsThen(m, e + 1, c, [q]);
    StartsWithAt(m, k, [q]);
    assert m[e] == m[e..e + 1][0];
    assert m[k] == m[k..k + 1][0];
  }

  /** The quoted scanner's steps, each as a fact: it captures between the two quotes. */
  lemma QuotedAtIs(m: string, p: nat, q: char, e: nat, k: nat)
    requires OccursAt(m, "-m", p) && RunEnd(m, p + 2, Space) == e && p + 2 < e < |m| && m[e] == q
    requires RunEnd(m, e + 1, Except(q)) == k && e + 1 < k < |m|
    ensures QuotedAt(m, p, q) == Some(m[e + 1..k])
  {
  }

  /** `-m\s+q([^q]+)q` at `p` captures `c` exactly when `-m`, whitespace and `c` between two `q`s start there. */
  lemma QuotedAtIff(m: string, p: nat, q: char, c: string)
    requires p <= |m| && (q == '"' || q == '\'')
    ensures QuotedAt(m, p, q) == Some(c) <==>
      && c != [] && q !in c
      && exists w :: w != [] && Blank(w) && StartsWith(m[p..], QuotedForm(w, q, c))
  {
    if QuotedAt(m, p, q) == Some(c) {
      QuotedAtSound(m, p, q, c);
    }
    if c != [] && q !in c && exists w :: w != [] && Blank(w) && StartsWith(m[p..], QuotedForm(w, q, c)) {
      var w :| w != [] && Blank(w) && StartsWith(m[p..], QuotedForm(w, q, c));
      QuotedAtComplete(m, p, w, q, c);
    }
  }

  /** A heredoc capture is the body between `$(cat <<EOF` (optionally quoted) plus a line break, and the first `\nEOF` after it. */
  lemma HeredocAtSound(m: string, p: nat, c: string)
    requires p <= |m| && HeredocAt(m, p) == Some(c)
    ensures c != [] && NoEarlyEof(c)
    ensures exists o1, o2 :: OptQuote(o1) && OptQuote(o2) && StartsWith(m[p..], HeredocForm(o1, o2, c))
  {
    var a := p + 8;
    var i := SkipQuote(m, a);
    var b := i + 3;
    var j := SkipQuote(m, b);
    var k := FindFrom(m, "\nEOF", j + 2).value;
    HeredocAtSteps(m, p);
    assert c == m[j + 1..k];
    SkipQuoteOpt(m, a);
    SkipQuoteOpt(m, b);
    HeredocBodyFirst(m, j, k);
    HeredocFormFrom(m, p, i, j, k);
  }

  /** The steps the heredoc scanner took to capture something at `p`. */
  lemma HeredocAtSteps(m: string, p: nat)
    requires p <= |m| && HeredocAt(m, p).Some?
    ensures var i := SkipQuote(m, p + 8);
      var j := SkipQuote(m, i + 3);
      && OccursAt(m, "$(cat <<", p) && OccursAt(m, "EOF", i) && j < |m| && m[j] == '\n'
      && FindFrom(m, "\nEOF", j + 2).Some?
      && HeredocAt(m, p).value == m[j + 1..FindFrom(m, "\nEOF", j + 2).value]
  {
  }

  /** A capture that ends at the first `\nEOF` after the line break at `j` holds no earlier one. */
  lemma HeredocBodyFirst(m: string, j: nat, k: nat)
    requires j + 2 <= k && OccursAt(m, "\nEOF", k)
    requires forall t :: j + 2 <= t < k ==> !OccursAt(m, "\nEOF", t)
    ensures m[j + 1..k] != [] && NoEarlyEof(m[j + 1..k])
  {
    var c := m[j + 1..k];
    HeredocSuffix(m, j, k);
    forall t | 1 <= t < |c| ensures !OccursAt(c + "\nEOF", "\nEOF", t) {
      OccursShift(m, j + 1, c + "\nEOF", "\nEOF", t);
    }
  }

  /** The pieces the heredoc scanner steps over, put back together as a heredoc form. */
  lemma HeredocFormFrom(m: string, p: nat, i: nat, j: nat, k: nat)
    requires OccursAt(m, "$(cat <<", p) && p + 8 <= i && OccursAt(m, "EOF", i)
    requires i + 3 <= j < k && OccursAt(m, "\nEOF", k) && m[j] == '\n'
    ensures StartsWith(m[p..], HeredocForm(m[p + 8..i], m[i + 3..j], m[j + 1..k]))
  {
    var o1, o2, c := m[p + 8..i], m[i + 3..j], m[j + 1..k];
    HeredocSuffix(m, j, k);
    assert m[j..j + 1] == "\n";
    StartsJoin(m, j, "\n", c + "\nEOF");
    StartsJoin(m, i + 3, o2, "\n" + (c + "\nEOF"));
    StartsJoin(m, i, "EOF", o2 + ("\n" + (c + "\nEOF")));
    StartsJoin(m, p + 8, o1, "EOF" + (o2 + ("\n" + (c + "\nEOF"))));
    StartsJoin(m, p, "$(cat <<", o1 + ("EOF" + (o2 + ("\n" + (c + "\nEOF")))));
  }

  /** What `['"]?` steps over is an optional quote. */
  lemma SkipQuoteOpt(m: string, i: nat)
    requires i <= |m|
    ensures OptQuote(m[i..SkipQuote(m, i)])
  {
    if SkipQuote(m, i) != i {
      assert m[i..i + 1] == [m[i]];
    }
  }

  /** The capture up to the `\nEOF` at `k`, with that `\nEOF`, sits right after the line break at `j`. */
  lemma HeredocSuffix(m: string, j: nat, k: nat)
    requires j + 1 <= k && OccursAt(m, "\nEOF", k)
    ensures StartsWith(m[j + 1..], m[j + 1..k] + "\nEOF")
    ensures m[j + 1..k + 4] == m[j + 1..k] + "\nEOF"
  {
    SliceSplit(m, j + 1, k, k + 4);
    StartsWithAt(m, j + 1, m[j + 1..k] + "\nEOF");
  }

  /** The facts the heredoc scanner reads off a heredoc form at `p`. */
  lemma HeredocLayout(m: string, p: nat, o1: string, o2: string, body: string)
    requires p <= |m| && OptQuote(o1) && OptQuote(o2) && StartsWith(m[p..], HeredocForm(o1, o2, body))
    ensures var j := p + 11 + |o1| + |o2|;
      && j + 5 + |body| <= |m|
      && OccursAt(m, "$(cat <<", p)
      && SkipQuote(m, p + 8) == p + 8 + |o1|
      && OccursAt(m, "EOF", p + 8 + |o1|)
      && SkipQuote(m, p + 11 + |o1|) == j
      && m[j] == '\n'
      && m[j + 1..j + 5 + |body|] == body + "\nEOF"
  {
    var i := p + 8 + |o1|;
    var j := i + 3 + |o2|;
    HeredocPieces(m, p, o1, o2, body);
    assert m[i] == 'E' by {
      assert m[i..i + 3] == "EOF";
    }
    assert m[j] == '\n' by {
      assert m[j..j + 1] == "\n";
    }
    SkipQuoteOver(m, p + 8, o1);
    SkipQuoteOver(m, i + 3, o2);
  }

  /** A heredoc form at `p`, cut into the pieces it is made of. */
  lemma HeredocPieces(m: string, p: nat, o1: string, o2: string, body: string)
    requires p <= |m| && StartsWith(m[p..], HeredocForm(o1, o2, body))
    ensures var i := p + 8 + |o1|;
      var j := i + 3 + |o2|;
      && j + 5 + |body| <= |m|
      && OccursAt(m, "$(cat <<", p)
      && m[p + 8..i] == o1 && m[i..i + 3] == "EOF" && m[i + 3..j] == o2 && m[j..j + 1] == "\n"
      && m[j + 1..j + 5 + |body|] == body + "\nEOF"
  {
    var a := p + 8;
    var i := a + |o1|;
    var b := i + 3;
    var j := b + |o2|;
    StartsThen(m, p, "$(cat <<", o1 + ("EOF" + (o2 + ("\n" + (body + "\nEOF")))));
    StartsThen(m, a, o1, "EOF" + (o2 + ("\n" + (body + "\nEOF"))));
    StartsThen(m, i, "EOF", o2 + ("\n" + (body + "\nEOF")));
    StartsThen(m, b, o2, "\n" + (body + "\nEOF"));
    StartsThen(m, j, "\n", body + "\nEOF");
    StartsWithAt(m, j + 1, body + "\nEOF");
  }

  /** `['"]?` steps over an optional quote followed by something else. */
  lemma SkipQuoteOver(m: string, a: nat, o: string)
    requires OptQuote(o) && a + |o| < |m| && m[a..a + |o|] == o
    requires m[a + |o|] != '\'' && m[a + |o|] != '"'
    ensures SkipQuote(m, a) == a + |o|
  {
    if o != "" {
      assert m[a] == m[a..a + |o|][0];
    }
  }

  /** Conversely, a heredoc form whose body has no earlier `\nEOF` is captured as that body. */
  lemma HeredocAtComplete(m: string, p: nat, o1: string, o2: string, body: string)
    requires p <= |m| && OptQuote(o1) && OptQuote(o2) && body != [] && NoEarlyEof(body)
    requires StartsWith(m[p..], HeredocForm(o1, o2, body))
    ensures HeredocAt(m, p) == Some(body)
  {
    HeredocLayout(m, p, o1, o2, body);
    var j := p + 11 + |o1| + |o2|;
    HeredocFindsEnd(m, j, body);
    HeredocAtIs(m, p, p + 8 + |o1|, j, j + 1 + |body|);
  }

  /** After the line break at `j`, the first `\nEOF` of a body without an earlier one ends the body. */
  lemma HeredocFindsEnd(m: string, j: nat, body: string)
    requires j + 5 + |body| <= |m| && m[j + 1..j + 5 + |body|] == body + "\nEOF"
    requires body != [] && NoEarlyEof(body)
    ensures FindFrom(m, "\nEOF", j + 2) == Some(j + 1 + |body|)
    ensures m[j + 1..j + 1 + |body|] == body
  {
    var s := body + "\nEOF";
    var k := j + 1 + |body|;
    OccursShift(m, j + 1, s, "\nEOF", |body|);
    assert s[|body|..|body| + 4] == "\nEOF";
    forall t | j + 2 <= t < k ensures !OccursAt(m, "\nEOF", t) {
      OccursShift(m, j + 1, s, "\nEOF", t - j - 1);
    }
    FindFromIs(m, "\nEOF", j + 2, k);
    SubSlice(m, j + 1, s, 0, |body|);
    assert s[0..|body|] == body;
  }

  /** The heredoc scanner's steps, each as a fact: it captures from after the line break up to the `\nEOF` found. */
  lemma HeredocAtIs(m: string, p: nat, i: nat, j: nat, k: nat)
    requires OccursAt(m, "$(cat <<", p) && SkipQuote(m, p + 8) == i && OccursAt(m, "EOF", i)
    requires SkipQuote(m, i + 3) == j && j < |m| && m[j] == '\n' && FindFrom(m, "\nEOF", j + 2) == Some(k)
    ensures HeredocAt(m, p) == Some(m[j + 1..k])
  {
  }

  /** The heredoc pattern at `p` captures `c` exactly when a heredoc form with body `c` starts there. */
  lemma HeredocAtIff(m: string, p: nat, c: string)
    requires p <= |m|
    ensures HeredocAt(m, p) == Some(c) <==>
      && c != [] && NoEarlyEof(c)
      && exists o1, o2 :: OptQuote(o1) && OptQuote(o2) && StartsWith(m[p..], HeredocForm(o1, o2, c))
  {
    if HeredocAt(m, p) == Some(c) {
      HeredocAtSound(m, p, c);
    }
    if c != [] && NoEarlyEof(c) && exists o1, o2 :: OptQuote(o1) && OptQuote(o2) && StartsWith(m[p..], HeredocForm(o1, o2, c)) {
      var o1, o2 :| OptQuote(o1) && OptQuote(o2) && StartsWith(m[p..], HeredocForm(o1, o2, c));
      HeredocAtComplete(m, p, o1, o2, c);
    }
  }

  /** A one-line body has no earlier `\nEOF`. */
  lemma OneLineNoEarlyEof(body: string)
    requires '\n' !in body
    ensures NoEarlyEof(body)
  {
    forall t | 1 <= t < |body| ensures !OccursAt(body + "\nEOF", "\nEOF", t) {
      OccursAtHead(body + "\nEOF", "\nEOF", t);
      assert (body + "\nEOF")[t] == body[t];
    }
  }

  /** A quoted capture needs its quote character somewhere in the command. */
  lemma QuotedNeedsQuote(m: string, p: nat, q: char)
    requires p <= |m|
    ensures QuotedAt(m, p, q).Some? ==> q in m
  {
    if QuotedAt(m, p, q).Some? {
      var e := RunEnd(m, p + 2, Space);
      assert m[e] == q;
    }
  }

  /** A command without the quote character has no capture of that shape. */
  lemma NoQuoteNoCapture(m: string, shape: Shape)
    requires shape != Heredoc
    requires shape == DoubleQuoted ==> '"' !in m
    requires shape == SingleQuoted ==> '\'' !in m
    ensures Captured(shape, m).None?
  {
    var q := if shape == DoubleQuoted then '"' else '\'';
    forall k | 0 <= k <= |m| ensures CaptureAt(shape, m, k).None? {
      QuotedNeedsQuote(m, k, q);
    }
  }

  // ---------------------------------------------------------------------------
  // Commit commands
  // ---------------------------------------------------------------------------

  /** The command `git commit -m <q><text><q>`. */
  function QuotedCommand(q: char, text: string): string {
    "git commit " + QuotedForm(" ", q, text)
  }

  /** The command `git commit -m "$(cat <<EOF` ... `EOF` `)"`, each `EOF` quote optional. */
  function HeredocCommand(o1: string, o2: string, body: string): string {
    "git commit -m \"" + (HeredocForm(o1, o2, body) + "\n)\"")
  }

  /** No `-m` starts inside `git commit `. */
  lemma NoFlagBefore(q: char, text: string)
    ensures forall k :: 0 <= k < 11 ==> !OccursAt(QuotedCommand(q, text), "-m", k)
  {
    var m := QuotedCommand(q, text);
    DropPrefix(m, 0, "git commit ", QuotedForm(" ", q, text));
    assert '-' !in "git commit ";
    forall k | 0 <= k < 11 ensures !OccursAt(m, "-m", k) {
      assert m[k] == m[..11][k];
      OccursAtHead(m, "-m", k);
    }
  }

  /** In `git commit -m <q><text><q>` the first `-m` is at index 11 and captures the text. */
  lemma QuotedCommandCapture(q: char, text: string)
    requires (q == '"' || q == '\'') && text != [] && q !in text
    ensures forall k :: 0 <= k < 11 ==> QuotedAt(QuotedCommand(q, text), k, q).None?
    ensures QuotedAt(QuotedCommand(q, text), 11, q) == Some(text)
  {
    var m := QuotedCommand(q, text);
    var f := QuotedForm(" ", q, text);
    NoFlagBefore(q, text);
    DropPrefix(m, 0, "git commit ", f);
    StartsWithAt(m, 11, f);
    assert Blank(" ");
    QuotedAtComplete(m, 11, " ", q, text);
  }

  /** A quoted commit command without `$` in its text has no heredoc. */
  lemma PlainNoHeredoc(q: char, text: string)
    requires q != '$' && '$' !in text
    ensures Captured(Heredoc, QuotedCommand(q, text)).None?
  {
    assert '$' !in "git commit -m ";
    NoDollarNoHeredoc(QuotedCommand(q, text));
  }

  /** `git commit -m "<text>"` yields the first line of the text, stripped, when no heredoc comes first. */
  lemma ExtractDoubleQuoted(text: string)
    requires text != [] && '"' !in text
    requires Captured(Heredoc, QuotedCommand('"', text)).None?
    ensures ExtractCommitMessage(QuotedCommand('"', text)) == Some(Clean(text))
  {
    QuotedCommandCapture('"', text);
    SearchIs(DoubleQuoted, QuotedCommand('"', text), 11);
  }

  /** `git commit -m '<text>'` yields the first line of the text, stripped, when no earlier shape matches. */
  lemma ExtractSingleQuoted(text: string)
    requires text != [] && '\'' !in text
    requires Captured(Heredoc, QuotedCommand('\'', text)).None?
    requires Captured(DoubleQuoted, QuotedCommand('\'', text)).None?
    ensures ExtractCommitMessage(QuotedCommand('\'', text)) == Some(Clean(text))
  {
    QuotedCommandCapture('\'', text);
    SearchIs(SingleQuoted, QuotedCommand('\'', text), 11);
  }

  /** Without `$` or `"` in the text, the single-quoted form is the one that matches. */
  lemma SingleQuotedPlain(text: string)
    requires text != [] && '\'' !in text && '"' !in text && '$' !in text
    ensures ExtractCommitMessage(QuotedCommand('\'', text)) == Some(Clean(text))
  {
    var m := QuotedCommand('\'', text);
    assert '"' !in m;
    PlainNoHeredoc('\'', text);
    NoQuoteNoCapture(m, DoubleQuoted);
    ExtractSingleQuoted(text);
  }

  /** The heredoc commit form yields the body's first line, stripped. */
  lemma ExtractHeredoc(o1: string, o2: string, body: string)
    requires OptQuote(o1) && OptQuote(o2) && body != [] && NoEarlyEof(body)
    ensures ExtractCommitMessage(HeredocCommand(o1, o2, body)) == Some(Clean(body))
  {
    var m := HeredocCommand(o1, o2, body);
    var f := HeredocForm(o1, o2, body);
    DropPrefix(m, 0, "git commit -m \"", f + "\n)\"");
    assert '$' !in "git commit -m \"";
    forall k | 0 <= k < 15 ensures HeredocAt(m, k).None? {
      HeredocNeedsDollar(m, k);
      assert m[k] == m[..15][k];
    }
    assert m[15..][..|f|] == f;
    HeredocAtComplete(m, 15, o1, o2, body);
    SearchIs(Heredoc, m, 15);
  }

  /** A one-line text without outer whitespace is its own cleaned form. */
  lemma CleanOneLine(x: string)
    requires '\n' !in x && IsStripped(x)
    ensures Clean(x) == x
  {
    FirstLineOf(x, []);
    assert x + [] == x;
  }

  /** `git commit -m "$(cat <<'EOF'` / `feat: a` / `EOF` / `)"` is read as `feat: a`. */
  lemma HeredocExample()
    ensures ExtractCommitMessage(HeredocCommand("'", "'", "feat: a")) == Some("feat: a")
  {
    var body := "feat: a";
    assert '\n' !in body && !IsSpace(body[0]) && !IsSpace(body[|body| - 1]);
    OneLineNoEarlyEof(body);
    CleanOneLine(body);
    ExtractHeredoc("'", "'", body);
  }

  /** A clean subject in `-m "..."` is extracted unchanged. */
  lemma ExtractRoundTrip(msg: string)
    requires msg != [] && '"' !in msg && '\n' !in msg && IsStripped(msg)
    requires Captured(Heredoc, QuotedCommand('"', msg)).None?
    ensures Clean(msg) == msg
    ensures ExtractCommitMessage(QuotedCommand('"', msg)) == Some(msg)
  {
    ExtractDoubleQuoted(msg);
    CleanOneLine(msg);
  }

  // ---------------------------------------------------------------------------
  // The reason ladder and main
  // ---------------------------------------------------------------------------

  /** The reasons a rejected subject is given, in the order they are tried. */
  datatype Issue = NoLowercaseType | MissingColonSpace | EmptyDescription | InvalidFormat

  function IssueText(i: Issue): string {
    match i
    case NoLowercaseType => "Must start with a lowercase type (e.g., feat, fix, docs)"
    case MissingColonSpace => "Missing ': ' (colon followed by space) after type/scope"
    case EmptyDescription => "Empty description after ': '"
    case InvalidFormat => "Invalid format"
  }

  /** The first applicable reason. */
  function Reason(m: string): Issue {
    if m == [] || !IsAsciiLower(m[0]) then NoLowercaseType
    else if !Contains(m, ": ") then MissingColonSpace
    else if Strip(AfterFirst(m, ": ")) == "" then EmptyDescription
    else InvalidFormat
  }

  /**
    On a stripped one-line subject, the first three reasons are necessary
    conditions of the pattern: a subject they fire on is one the pattern rejects.
   */
  lemma ReasonsAreNecessary(m: string)
    requires Matches(m) && '\n' !in m && IsStripped(m)
    ensures m != [] && IsAsciiLower(m[0])
    ensures Contains(m, ": ")
    ensures Strip(AfterFirst(m, ": ")) != ""
  {
    ParseSound(m);
    var h := Parse(m).value;
    var n := |h.kind| + |ScopePart(h.scope)| + |BangPart(h.breaking)|;
    assert m[0] == h.kind[0];
    assert m[n..n + 2] == ": ";
    ContainsAt(m, ": ", n);
    AfterColonNotBlank(m, n);
  }

  /** When the subject ends in a non-space after its first `": "` at `n`, what follows that `": "` still has content after stripping. */
  lemma AfterColonNotBlank(m: string, n: nat)
    requires n + 2 < |m| && OccursAt(m, ": ", n) && !IsSpace(m[|m| - 1])
    ensures Contains(m, ": ") && Strip(AfterFirst(m, ": ")) != ""
  {
    ContainsAt(m, ": ", n);
    var after := AfterFirst(m, ": ");
    assert |after| >= 1 && after[|after| - 1] == m[|m| - 1];
  }

  const FormatHelp: string :=
    "**Conventional Commits format**:\n```\ntype(scope): description\n\n[optional body]\n\n[optional footer(s)]\n```\n\n"
    + "**Examples**:\n- feat: add new feature\n- fix(video): resolve decoder crash\n"
    + "- feat(timeline)!: breaking API change\n- docs: update README\n\n"
    + "**With Linear reference**:\n```\nfeat(video): add WebCodecs decoder\n\nRefs PREFIX-XX\n```\n"

  /** The `permissionDecisionReason` of `block_with_guidance`: it embeds the subject and the reason. */
  function Guidance(message: string, reason: string): string {
    "Invalid commit message format.\n\n**Your message**: " + message + ("\n**Issue**: " + reason + "\n\n" + FormatHelp)
  }

  /** The subject the hook validates, when it gets that far: a commit command whose extracted subject is non-empty. */
  function Subject(input: HookInput): Option<string> {
    match input
    case Malformed => None
    case Payload(_, _, _, toolInput) =>
      var command := toolInput.command.GetOr("");
      if !Contains(command, "git commit") || !Contains(command, "-m") then None
      else match ExtractCommitMessage(command)
        case None => None
        case Some(message) => if message == "" then None else Some(message)
  }

  /** What `main` prints for an extracted, non-empty subject. */
  function Verdict(message: string): HookOutput {
    if StartsWith(message, "Merge ") || Matches(message) then NoOutput
    else BlockWithReason(Guidance(message, IssueText(Reason(message))))
  }

  /** `main`. */
  function Decide(input: HookInput): HookOutput {
    match Subject(input)
    case None => NoOutput
    case Some(message) => Verdict(message)
  }

  /**
    A subject is denied exactly when it is not a merge and the pattern rejects
    it; the deny embeds the subject and the first applicable reason.
   */
  lemma VerdictIff(message: string)
    ensures Verdict(message).Deny? <==> !StartsWith(message, "Merge ") && !Matches(message)
    ensures Verdict(message).NoOutput? || IsPreToolUseDeny(Verdict(message))
    ensures Verdict(message).Deny? ==>
      && Contains(Verdict(message).permissionDecisionReason, message)
      && Contains(Verdict(message).permissionDecisionReason, IssueText(Reason(message)))
  {
    GuidanceEmbeds(message, IssueText(Reason(message)));
  }

  /** The guidance text contains the subject and the reason. */
  lemma GuidanceEmbeds(message: string, reason: string)
    ensures Contains(Guidance(message, reason), message) && Contains(Guidance(message, reason), reason)
  {
    var head := "Invalid commit message format.\n\n**Your message**: ";
    var tail := "\n\n" + FormatHelp;
    var g := Guidance(message, reason);
    assert g == head + message + ("\n**Issue**: " + reason + tail);
    ContainsInfix(head, message, "\n**Issue**: " + reason + tail);
    assert g == (head + message + "\n**Issue**: ") + reason + tail;
    ContainsInfix(head + message + "\n**Issue**: ", reason, tail);
  }

  /** The hook denies only through `Verdict`, and only for a subject it extracted. */
  lemma DecideThroughVerdict(input: HookInput)
    ensures Decide(input) == (if Subject(input).Some? then Verdict(Subject(input).value) else NoOutput)
    ensures Subject(input).Some? ==>
      && Subject(input).value != "" && input.Payload?
      && Contains(input.toolInput.command.GetOr(""), "git commit") && Contains(input.toolInput.command.GetOr(""), "-m")
      && ExtractCommitMessage(input.toolInput.command.GetOr("")) == Subject(input)
  {
  }

  /** Commands that are not commits with `-m`, unparseable input, and subjects that cannot be extracted are let through. */
  lemma FailOpen(input: HookInput)
    requires || input.Malformed?
             || var command := input.toolInput.command.GetOr("");
                || !Contains(command, "git commit") || !Contains(command, "-m")
                || ExtractCommitMessage(command) == None || ExtractCommitMessage(command) == Some("")
    ensures Decide(input) == NoOutput
  {
  }

  /** A Bash payload carrying `command`. */
  function CommitInput(command: string): HookInput {
    Payload(None, None, Some("Bash"), ToolInput(None, Some(command)))
  }

  /** `git commit -m "<text>"` is validated on the cleaned first line of the text. */
  lemma CommitSubject(text: string)
    requires text != [] && '"' !in text
    requires Captured(Heredoc, QuotedCommand('"', text)).None?
    ensures Subject(CommitInput(QuotedCommand('"', text))) == (if Clean(text) == "" then None else Some(Clean(text)))
  {
    var m := QuotedCommand('"', text);
    DropPrefix(m, 0, "git commit ", QuotedForm(" ", '"', text));
    assert m[..10] == "git commit";
    ContainsAt(m, "git commit", 0);
    assert m[11..13] == "-m";
    ContainsAt(m, "-m", 11);
    ExtractDoubleQuoted(text);
  }

  /** A well-formed one-line subject in `-m "..."` passes. */
  lemma WellFormedAllowed(h: Header)
    requires WellFormed(h) && IsStripped(Render(h)) && '"' !in Render(h) && '\n' !in Render(h)
    requires Captured(Heredoc, QuotedCommand('"', Render(h))).None?
    ensures Decide(CommitInput(QuotedCommand('"', Render(h)))) == NoOutput
  {
    var msg := Render(h);
    ParseComplete(h, "");
    assert msg + "" == msg;
    assert Matches(msg);
    ExtractRoundTrip(msg);
    CommitSubject(msg);
    assert msg != [];
    assert Subject(CommitInput(QuotedCommand('"', msg))) == Some(msg);
  }

  /** Whatever the subject's shape, a well-formed header spelled out passes. */
  lemma WellFormedVerdict(h: Header)
    requires WellFormed(h)
    ensures Verdict(Render(h)) == NoOutput
  {
    ParseComplete(h, "");
    assert Render(h) + "" == Render(h);
  }

  /** A subject that spells out a well-formed header passes. */
  lemma SpelledOutVerdict(h: Header, m: string)
    requires WellFormed(h) && Render(h) == m
    ensures Verdict(m) == NoOutput
  {
    WellFormedVerdict(h);
  }

  lemma ScopedHeaderWellFormed()
    ensures WellFormed(Header("feat", Some("video"), false, "add decoder"))
  {
  }

  lemma ScopedHeaderRender()
    ensures Render(Header("feat", Some("video"), false, "add decoder")) == "feat(video): add decoder"
  {
    assert ScopePart(Some("video")) == "(video)";
  }

  /** A scoped subject passes. */
  lemma ScopedExampleAllowed()
    ensures Verdict("feat(video): add decoder") == NoOutput
  {
    ScopedHeaderWellFormed();
    ScopedHeaderRender();
    SpelledOutVerdict(Header("feat", Some("video"), false, "add decoder"), "feat(video): add decoder");
  }

  lemma AnyTypeHeader()
    ensures WellFormed(Header("weirdtype", None, false, "something"))
    ensures Render(Header("weirdtype", None, false, "something")) == "weirdtype: something"
  {
  }

  /** Any lower-case word is accepted as the type. */
  lemma AnyTypeExampleAllowed()
    ensures Verdict("weirdtype: something") == NoOutput
  {
    AnyTypeHeader();
    SpelledOutVerdict(Header("weirdtype", None, false, "something"), "weirdtype: something");
  }

  /** Merge commits pass whatever their shape. */
  lemma MergeExampleAllowed()
    ensures Verdict("Merge branch 'x'") == NoOutput
  {
    assert "Merge branch 'x'"[..6] == "Merge ";
  }

  /** A trailing space after a stripped one-line text is removed by cleaning. */
  lemma CleanDropsTrailingSpace(x: string)
    requires x != [] && '\n' !in x && IsStripped(x)
    ensures Clean(x + " ") == x
  {
    var t := x + " ";
    FirstLineOf(t, []);
    assert t + [] == t;
    assert TrimStart(t) == t by {
      assert t[0] == x[0];
    }
    assert TrimEnd(t) == x by {
      assert t[|t| - 1] == ' ' && t[..|t| - 1] == x;
      assert TrimEnd(x) == x;
    }
  }

  /** `-m "feat: "` is validated as `feat:`: the trailing space is stripped first. */
  lemma TrailingSpaceStripped()
    ensures Clean("feat: ") == "feat:"
  {
    CleanDropsTrailingSpace("feat:");
    assert "feat:" + " " == "feat: ";
  }

  /** So `-m "feat: "` is validated as `feat:`. */
  lemma TrailingSpaceCommit()
    ensures Subject(CommitInput(QuotedCommand('"', "feat: "))) == Some("feat:")
  {
    TrailingSpaceStripped();
    PlainNoHeredoc('"', "feat: ");
    CommitSubject("feat: ");
  }

  /** The pattern rejects `feat:`: the type is followed by `:` alone. */
  lemma FeatColonRejected()
    ensures !Matches("feat:")
  {
    RunEndIs("feat:", 0, Lower, 4);
    assert !OccursAt("feat:", ": ", 4);
  }

  /** `feat:` has no `": "`. */
  lemma FeatColonLacksColonSpace()
    ensures !Contains("feat:", ": ")
  {
    var m := "feat:";
    forall k | 0 <= k ensures !OccursAt(m, ": ", k) {
      OccursAtHead(m, ": ", k);
    }
  }

  /** `feat:` is denied with the second reason, not the empty-description one. */
  lemma MissingColonExample()
    ensures Verdict("feat:") == BlockWithReason(Guidance("feat:", IssueText(MissingColonSpace)))
  {
    FeatColonRejected();
    FeatColonReason();
  }

  lemma FeatColonReason()
    ensures Reason("feat:") == MissingColonSpace
  {
    FeatColonLacksColonSpace();
  }
}
