/**
 * The `GIT_COMMIT` value that `generate_python_script` (tools/embedsrv.py)
 * writes into the generated module: Python's `None` outside a git
 * repository, otherwise the revision as a string literal followed by a
 * comment warning that the tree may have been dirty.
 */
module Render {
  import opened Common
  import GitInfo

  /** The comment that follows the quoted revision. */
  const CautionComment: string := "  # CAUTION: repo possibly dirty"
  /** The absence marker. */
  const NoneLiteral: string := "None"

  /** The right-hand side of the `GIT_COMMIT = ...` line. */
  function GitCommitValue(isGitRepo: bool, hash: string): string
  {
    if !isGitRepo then NoneLiteral
    else "\"" + hash + "\"" + CautionComment
  }

  /** The index of the first `"` in `s`, or `|s|` when there is none. */
  function FindDoubleQuote(s: string): (i: nat)
    ensures i <= |s| && (i < |s| ==> s[i] == '"')
    ensures forall j :: 0 <= j < i ==> s[j] != '"'
  {
    if |s| == 0 then 0
    else if s[0] == '"' then 0
    else 1 + FindDoubleQuote(s[1..])
  }

  /**
   * Reads a `GIT_COMMIT` value back: `Some(None)` for the absence marker,
   * `Some(Some(hash))` for a quoted revision followed by the caution
   * comment, `None` for anything else.
   */
  function ParseGitCommitValue(v: string): Option<Option<string>>
  {
    if v == NoneLiteral then Some(None)
    else if |v| == 0 || v[0] != '"' then None
    else
      var body := v[1..];
      var q := FindDoubleQuote(body);
      if q < |body| && body[q + 1..] == CautionComment then Some(Some(body[..q]))
      else None
  }

  /**
   * The value written is never empty or omitted, and it can be read back:
   * outside a repository it is the absence marker, inside it is exactly the
   * revision (any revision without a double quote).
   */
  lemma ParseGitCommitValueInverse(isGitRepo: bool, hash: string)
    requires '"' !in hash
    ensures |GitCommitValue(isGitRepo, hash)| > 0
    ensures ParseGitCommitValue(GitCommitValue(isGitRepo, hash)) == Some(if isGitRepo then Some(hash) else None)
  {
    if isGitRepo {
      var v := GitCommitValue(isGitRepo, hash);
      assert v[0] == '"';
      assert v != NoneLiteral;
      var body := v[1..];
      assert body == hash + "\"" + CautionComment;
      assert body[|hash|] == '"';
      assert FindDoubleQuote(body) == |hash|;
      assert body[|hash| + 1..] == CautionComment;
      assert body[..|hash|] == hash;
    }
  }

  /** A revision that passed the pattern check is rendered so that it reads back unchanged. */
  lemma ValidRevisionRoundTrip(hash: string)
    requires GitInfo.MatchesRevisionPattern(hash)
    ensures ParseGitCommitValue(GitCommitValue(true, hash)) == Some(Some(hash))
  {
    ParseGitCommitValueInverse(true, hash);
  }
}
