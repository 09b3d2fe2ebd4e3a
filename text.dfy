/** The standard Option type, used for dictionary lookups and regex searches that may find nothing. */
module Wrappers {
  datatype Option<+T> = None | Some(value: T) {
    function GetOr(default: T): T {
      match this
      case Some(v) => v
      case None => default
    }
  }
}

/**
  String helpers shared by the hooks: the character classes the hooks' regular
  expressions and `str.strip` use, prefix and substring search, first-line
  extraction, stripping, upper-casing and `", ".join(...)`.
 */
module Text {
  import opened Wrappers

  /** Python's `str.isspace`: the characters removed by `str.strip()` and matched by `\s`. */
  predicate IsSpace(c: char) {
    || c == ' '
    || ('\t' <= c <= '\r')
    || ('\U{1C}' <= c <= '\U{1F}')
    || c == '\U{85}' || c == '\U{A0}' || c == '\U{1680}'
    || ('\U{2000}' <= c <= '\U{200A}')
    || c == '\U{2028}' || c == '\U{2029}' || c == '\U{202F}' || c == '\U{205F}' || c == '\U{3000}'
  }

  predicate IsAsciiLower(c: char) { 'a' <= c <= 'z' }
  predicate IsAsciiUpper(c: char) { 'A' <= c <= 'Z' }
  /** `[a-z]` under `re.IGNORECASE`, restricted to ASCII. */
  predicate IsAsciiLetter(c: char) { IsAsciiLower(c) || IsAsciiUpper(c) }
  /** `\d`, restricted to ASCII. */
  predicate IsAsciiDigit(c: char) { '0' <= c <= '9' }

  /** The character classes whose maximal runs the scanners measure. */
  datatype CharClass = Letter | Digit | Lower | Space | Except(excluded: char)

  /** `Except(x)` is the negated class `[^x]`. */
  predicate InClass(c: char, cls: CharClass) {
    match cls
    case Letter => IsAsciiLetter(c)
    case Digit => IsAsciiDigit(c)
    case Lower => IsAsciiLower(c)
    case Space => IsSpace(c)
    case Except(x) => c != x
  }

  /** The end of the maximal run of `cls` characters that starts at `i` (a greedy `cls*`). */
  function RunEnd(s: string, i: nat, cls: CharClass): (e: nat)
    requires i <= |s|
    ensures i <= e <= |s|
    ensures forall k :: i <= k < e ==> InClass(s[k], cls)
    ensures e == |s| || !InClass(s[e], cls)
    decreases |s| - i
  {
    if i < |s| && InClass(s[i], cls) then RunEnd(s, i + 1, cls) else i
  }

  /** No character of a `[^x]` run is `x`. */
  lemma ExceptRun(s: string, i: nat, x: char)
    requires i <= |s|
    ensures x !in s[i..RunEnd(s, i, Except(x))]
  {
    var e := RunEnd(s, i, Except(x));
    forall k | 0 <= k < e - i ensures s[i..e][k] != x {
      assert s[i..e][k] == s[i + k];
    }
  }

  /** A run measured by hand is the one `RunEnd` finds. */
  lemma {:induction false} RunEndIs(s: string, i: nat, cls: CharClass, e: nat)
    requires i <= e <= |s|
    requires forall k :: i <= k < e ==> InClass(s[k], cls)
    requires e == |s| || !InClass(s[e], cls)
    ensures RunEnd(s, i, cls) == e
    decreases e - i
  {
    if i < e {
      RunEndIs(s, i + 1, cls, e);
    }
  }

  predicate StartsWith(s: string, p: string) {
    |p| <= |s| && s[..|p|] == p
  }

  predicate OccursAt(s: string, p: string, i: nat) {
    i + |p| <= |s| && s[i..i + |p|] == p
  }

  /** The leftmost occurrence of `p` in `s` at or after `from`, as `str.find` reports it. */
  function FindFrom(s: string, p: string, from: nat): (r: Option<nat>)
    ensures r.Some? ==> from <= r.value && OccursAt(s, p, r.value)
    ensures r.Some? ==> forall k :: from <= k < r.value ==> !OccursAt(s, p, k)
    ensures r.None? ==> forall k :: from <= k ==> !OccursAt(s, p, k)
    decreases |s| - from
  {
    if from + |p| > |s| then None
    else if OccursAt(s, p, from) then Some(from)
    else FindFrom(s, p, from + 1)
  }

  /** An occurrence with none before it is the one `FindFrom` finds. */
  lemma FindFromIs(s: string, p: string, from: nat, k: nat)
    requires from <= k && OccursAt(s, p, k)
    requires forall j :: from <= j < k ==> !OccursAt(s, p, j)
    ensures FindFrom(s, p, from) == Some(k)
  {
  }

  lemma OccursAtChar(s: string, c: char, i: nat)
    requires i < |s|
    ensures OccursAt(s, [c], i) <==> s[i] == c
  {
    assert s[i..i + 1] == [s[i]];
  }

  lemma OccursAtHead(s: string, p: string, i: nat)
    requires p != []
    ensures OccursAt(s, p, i) ==> i < |s| && s[i] == p[0]
  {
    if OccursAt(s, p, i) {
      assert s[i] == s[i..i + |p|][0];
    }
  }

  /** Python's `p in s`. */
  predicate Contains(s: string, p: string) {
    FindFrom(s, p, 0).Some?
  }

  lemma ContainsAt(s: string, p: string, i: nat)
    requires OccursAt(s, p, i)
    ensures Contains(s, p)
  {
  }

  lemma ContainsInfix(a: string, b: string, c: string)
    ensures Contains(a + b + c, b)
  {
    var s := a + b + c;
    assert s[|a|..|a| + |b|] == b;
    ContainsAt(s, b, |a|);
  }

  /** `s.split(sep, 1)[1]`: what follows the first occurrence of `sep`. */
  function AfterFirst(s: string, sep: string): (r: string)
    requires Contains(s, sep)
    ensures |r| + |sep| <= |s| && r == s[|s| - |r|..]
    ensures OccursAt(s, sep, |s| - |r| - |sep|)
    ensures forall k :: 0 <= k < |s| - |r| - |sep| ==> !OccursAt(s, sep, k)
  {
    var i := FindFrom(s, sep, 0).value;
    s[i + |sep|..]
  }

  /** `s.split("\n")[0]`. */
  function FirstLine(s: string): (r: string)
    ensures '\n' !in r
    ensures StartsWith(s, r)
    ensures |r| < |s| ==> s[|r|] == '\n'
  {
    if s == [] || s[0] == '\n' then [] else [s[0]] + FirstLine(s[1..])
  }

  /** The first line of a newline-free text, followed by nothing or by a line break, is that text. */
  lemma {:induction false} FirstLineOf(x: string, rest: string)
    requires '\n' !in x && (rest == [] || rest[0] == '\n')
    ensures FirstLine(x + rest) == x
  {
    if x != [] {
      assert (x + rest)[0] == x[0];
      assert (x + rest)[1..] == x[1..] + rest;
      FirstLineOf(x[1..], rest);
    } else {
      assert x + rest == rest;
    }
  }

  /** `s.lstrip()`. */
  function TrimStart(s: string): (r: string)
    ensures |r| <= |s| && r == s[|s| - |r|..]
    ensures r == [] || !IsSpace(r[0])
    ensures forall k :: 0 <= k < |s| - |r| ==> IsSpace(s[k])
  {
    if s != [] && IsSpace(s[0]) then TrimStart(s[1..]) else s
  }

  /** `s.rstrip()`. */
  function TrimEnd(s: string): (r: string)
    ensures |r| <= |s| && r == s[..|r|]
    ensures r == [] || !IsSpace(r[|r| - 1])
    ensures forall k :: |r| <= k < |s| ==> IsSpace(s[k])
  {
    if s != [] && IsSpace(s[|s| - 1]) then TrimEnd(s[..|s| - 1]) else s
  }

  /** Every character is whitespace (`\s*`). */
  predicate Blank(w: string) {
    forall k :: 0 <= k < |w| ==> IsSpace(w[k])
  }

  predicate IsStripped(s: string) {
    s == [] || (!IsSpace(s[0]) && !IsSpace(s[|s| - 1]))
  }

  /** `s.strip()`. */
  function Strip(s: string): (r: string)
    ensures IsStripped(r)
    ensures forall c :: c in r ==> c in s
    ensures IsStripped(s) ==> r == s
    ensures r == [] <==> forall k :: 0 <= k < |s| ==> IsSpace(s[k])
  {
    var t := TrimStart(s);
    StripChars(s, t, TrimEnd(t));
    StripBlank(s, t, TrimEnd(t));
    StripEnds(s, t, TrimEnd(t));
    TrimEnd(t)
  }

  /** `s.strip()` is the infix of `s` left once the leading and the trailing whitespace are cut off. */
  lemma StripInfix(s: string)
    ensures exists i, j ::
              && 0 <= i <= j <= |s| && Strip(s) == s[i..j]
              && (forall k :: 0 <= k < i ==> IsSpace(s[k]))
              && (forall k :: j <= k < |s| ==> IsSpace(s[k]))
  {
    var t := TrimStart(s);
    var r := TrimEnd(t);
    var i := |s| - |t|;
    var j := i + |r|;
    assert Strip(s) == r;
    assert r == s[i..j];
    forall k | j <= k < |s| ensures IsSpace(s[k]) {
      assert s[k] == t[k - i];
    }
    assert forall k :: 0 <= k < i ==> IsSpace(s[k]);
  }

  lemma StripEnds(s: string, t: string, r: string)
    requires t == TrimStart(s) && r == TrimEnd(t)
    ensures IsStripped(r)
    ensures IsStripped(s) ==> r == s
  {
    if r != [] {
      assert r[0] == t[0];
    }
    if IsStripped(s) {
      assert t == s;
    }
  }

  lemma StripChars(s: string, t: string, r: string)
    requires t == TrimStart(s) && r == TrimEnd(t)
    ensures forall c :: c in r ==> c in s
  {
    var i := |s| - |t|;
    forall k | 0 <= k < |r| ensures r[k] in s {
      assert r[k] == t[k] == s[i + k];
    }
  }

  lemma StripBlank(s: string, t: string, r: string)
    requires t == TrimStart(s) && r == TrimEnd(t)
    ensures r == [] <==> forall k :: 0 <= k < |s| ==> IsSpace(s[k])
  {
    if r != [] {
      assert s[|s| - |t|] == t[0] == r[0];
    }
  }

  function UpperChar(c: char): (u: char)
    ensures IsAsciiLower(c) ==> IsAsciiUpper(u)
    ensures !IsAsciiLower(c) ==> u == c
  {
    if IsAsciiLower(c) then (c as int - 32) as char else c
  }

  /** `s.upper()` on ASCII text. */
  function Upper(s: string): (r: string)
    ensures |r| == |s|
    ensures forall k :: 0 <= k < |s| ==> r[k] == UpperChar(s[k])
  {
    seq(|s|, k requires 0 <= k < |s| => UpperChar(s[k]))
  }

  /** `sep.join(xs)`. */
  function Join(sep: string, xs: seq<string>): string {
    if |xs| == 0 then ""
    else if |xs| == 1 then xs[0]
    else xs[0] + sep + Join(sep, xs[1..])
  }
}
