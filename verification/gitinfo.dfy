/**
 * The string rules of `get_git_info` (tools/embedsrv.py): the `git describe`
 * line loses a trailing dirty suffix, and the `git rev-parse` line must be a
 * 40-character revision.  Running git is not modelled: the first line of
 * each command's output (already right-stripped) is an input.
 */
module GitInfo {
  import opened Common

  /** The keyword default of `get_git_info`. */
  const DefaultDirtySuffix: string := "-dirty"
  /** The message of the `RuntimeError` raised for a malformed revision. */
  const MalformedHash: string := "malformed git hash from git rev-parse"
  /** The length the revision pattern demands. */
  const RevisionLength: nat := 40

  /** What `get_git_info` returns. */
  datatype GitInfo = GitInfo(describe: string, dirty: bool, hash: string)

  /** The characters Python's `str.isspace` accepts, which `str.lstrip()` removes. */
  predicate IsPyWhitespace(c: char)
  {
    || '\t' <= c <= '\r' || '\U{1c}' <= c <= '\U{1f}' || c == ' '
    || c == '\U{85}' || c == '\U{a0}' || c == '\U{1680}' || '\U{2000}' <= c <= '\U{200a}'
    || c == '\U{2028}' || c == '\U{2029}' || c == '\U{202f}' || c == '\U{205f}' || c == '\U{3000}'
  }

  /** `s.lstrip()`: the longest suffix of `s` that does not start with whitespace. */
  function LStrip(s: string): (r: string)
    ensures |r| <= |s| && r == s[|s| - |r|..]
    ensures forall i :: 0 <= i < |s| - |r| ==> IsPyWhitespace(s[i])
    ensures |r| > 0 ==> !IsPyWhitespace(r[0])
  {
    if |s| > 0 && IsPyWhitespace(s[0]) then LStrip(s[1..]) else s
  }

  /** Python's reading of a slice bound: negative counts from the end, then clamped to `0..len`. */
  function PyIndex(i: int, len: nat): (r: nat)
    ensures r <= len
    ensures 0 <= i <= len ==> r == i
    ensures i < 0 && 0 <= i + len ==> r == i + len
    ensures i + len < 0 ==> r == 0
  {
    if i < 0 then (if i + len < 0 then 0 else i + len)
    else if i > len then len
    else i
  }

  /** `s[start:stop]` with Python semantics. */
  function PySlice<T>(s: seq<T>, start: int, stop: int): seq<T>
  {
    var a, b := PyIndex(start, |s|), PyIndex(stop, |s|);
    if a < b then s[a..b] else []
  }

  /** `s.endswith(suffix)`; every string ends with the empty string. */
  predicate EndsWith(s: string, suffix: string)
  {
    |suffix| <= |s| && s[|s| - |suffix|..] == suffix
  }

  /** The describe string and its dirty flag after the suffix test. */
  datatype Described = Described(describe: string, dirty: bool)

  /**
   * The dirty-suffix rule: when `describe` ends with `suffix` the tree is
   * dirty and `describe[0:-len(suffix)]` is kept.  With an empty suffix the
   * test always succeeds and the slice `[0:-0]` is empty.
   */
  function StripDirty(describe: string, suffix: string): (r: Described)
    ensures |suffix| > 0 && r.dirty ==> r.describe + suffix == describe
    ensures |suffix| > 0 && !r.dirty ==> r.describe == describe && !EndsWith(describe, suffix)
    ensures |suffix| == 0 ==> r.dirty && r.describe == ""
  {
    if EndsWith(describe, suffix) then Described(PySlice(describe, 0, -|suffix|), true)
    else Described(describe, false)
  }

  /** What `git describe --dirty=<suffix>` prints: the suffix is appended for a modified tree. */
  function GitDescribe(name: string, modified: bool, suffix: string): string
  {
    if modified then name + suffix else name
  }

  /**
   * The suffix rule recovers what git reported, provided the suffix is not
   * empty and a clean tree's name does not itself end with the suffix.
   */
  lemma StripDirtyInvertsDescribe(name: string, modified: bool, suffix: string)
    requires |suffix| > 0
    requires !modified ==> !EndsWith(name, suffix)
    ensures StripDirty(GitDescribe(name, modified, suffix), suffix) == Described(name, modified)
  {
    if modified {
      var d := name + suffix;
      assert d[|d| - |suffix|..] == suffix;
      assert PySlice(d, 0, -|suffix|) == d[..|name|];
      assert d[..|name|] == name;
    }
  }

  /** `[a-h\d]` under `re.A`: an ASCII digit or one of the letters `a` to `h`. */
  predicate IsRevisionChar(c: char)
  {
    '0' <= c <= '9' || 'a' <= c <= 'h'
  }

  /** The strings `re.fullmatch(r"^([a-h\d]{40})$", s, re.A)` accepts. */
  predicate MatchesRevisionPattern(s: string)
  {
    |s| == RevisionLength && forall i :: 0 <= i < |s| ==> IsRevisionChar(s[i])
  }

  /**
   * The full match, as a matcher would run it: consume up to forty
   * characters of the class, then demand the end of the string.
   */
  method FullMatchRevision(s: string) returns (ok: bool)
    ensures ok <==> MatchesRevisionPattern(s)
  {
    var i := 0;
    while i < |s| && i < RevisionLength && IsRevisionChar(s[i])
      invariant 0 <= i <= |s| && i <= RevisionLength
      invariant forall j :: 0 <= j < i ==> IsRevisionChar(s[j])
    {
      i := i + 1;
    }
    ok := i == RevisionLength && i == |s|;
  }

  /**
   * `get_git_info(dirty_suffix=suffix)` given the first line of
   * `git describe` and of `git rev-parse`: both are left-stripped, the
   * describe line loses its dirty suffix, and a revision that does not match
   * the pattern raises `RuntimeError`.
   */
  method GetGitInfo(describeLine: string, hashLine: string, suffix: string) returns (r: Result<GitInfo>)
    ensures r.Ok? <==> MatchesRevisionPattern(LStrip(hashLine))
    ensures r.Ok? ==> r.value.hash == LStrip(hashLine)
    ensures r.Ok? ==> Described(r.value.describe, r.value.dirty) == StripDirty(LStrip(describeLine), suffix)
    ensures r.Err? ==> r.message == MalformedHash
  {
    var described := StripDirty(LStrip(describeLine), suffix);
    var hash := LStrip(hashLine);
    var ok := FullMatchRevision(hash);
    if !ok {
      return Err(MalformedHash);
    }
    r := Ok(GitInfo(described.describe, described.dirty, hash));
  }

  /** Every 40-digit lower-case hexadecimal revision passes the check. */
  lemma HexRevisionAccepted(s: string)
    requires |s| == 40
    requires forall i :: 0 <= i < |s| ==> '0' <= s[i] <= '9' || 'a' <= s[i] <= 'f'
    ensures MatchesRevisionPattern(s)
  {
  }

  /** As written, the class also admits `g` and `h`, which are not hexadecimal digits. */
  lemma NonHexRevisionAccepted()
    ensures MatchesRevisionPattern(seq(40, _ => 'g'))
  {
  }

  /** Upper-case hexadecimal and a trailing newline are both rejected. */
  lemma RevisionPatternRejects(s: string)
    requires |s| == 40 && MatchesRevisionPattern(s)
    ensures !MatchesRevisionPattern(s + "\n")
    ensures !MatchesRevisionPattern(s[..39] + "A")
  {
    assert (s[..39] + "A")[39] == 'A';
  }
}
