/**
  The file names of compress and decompress (util.h:249, 273-280): compress writes
  filename + ".huf"; decompress cuts its argument at the first ".txt.huf", reads
  base + ".txt.huf" and writes base + "_unc.txt".
 */
module FileNames {
  const HUF_SUFFIX: string := ".txt.huf"
  const UNC_SUFFIX: string := "_unc.txt"

  /** pat occurs in s at index j. */
  predicate MatchAt(s: string, pat: string, j: int)
  {
    0 <= j && j + |pat| <= |s| && s[j..j + |pat|] == pat
  }

  /** std::string::find from index i, with string::npos read back through an int cast, which
      gives -1. */
  function FindFrom(s: string, pat: string, i: nat): (r: int)
    ensures r == -1 || (i <= r && MatchAt(s, pat, r))
    ensures forall j :: i <= j && (r == -1 || j < r) ==> !MatchAt(s, pat, j)
    decreases |s| - i
  {
    if i + |pat| > |s| then -1
    else if s[i..i + |pat|] == pat then i
    else
      assert |pat| > 0;
      FindFrom(s, pat, i + 1)
  }

  /** The name compress writes (util.h:249). */
  function CompressOutput(filename: string): string
  {
    filename + ".huf"
  }

  /** The base name of decompress as written (util.h:273-278): the cut happens only when the
      found index is greater than 0, so a match at index 0 is treated like no match. */
  function BaseNameAsWritten(filename: string): string
  {
    var pos := FindFrom(filename, HUF_SUFFIX, 0);
    if pos > 0 then filename[..pos] else filename
  }

  /** The base name with the cut made whenever ".txt.huf" is found, as the comment at
      util.h:274-275 describes. */
  function BaseName(filename: string): string
  {
    var pos := FindFrom(filename, HUF_SUFFIX, 0);
    if pos >= 0 then filename[..pos] else filename
  }

  /** The name decompress reads (util.h:279). */
  function DecompressInput(base: string): string
  {
    base + HUF_SUFFIX
  }

  /** The name decompress writes (util.h:280). */
  function DecompressOutput(base: string): string
  {
    base + UNC_SUFFIX
  }

  /** As written, a name that starts with ".txt.huf" is not cut, and decompress reads a file
      with the suffix twice: for ".txt", compress writes ".txt.huf", and decompress given
      ".txt.huf" reads ".txt.huf.txt.huf". */
  lemma AsWrittenMissesLeadingSuffix(rest: string)
    ensures BaseNameAsWritten(HUF_SUFFIX + rest) == HUF_SUFFIX + rest
    ensures DecompressInput(BaseNameAsWritten(HUF_SUFFIX + rest)) == HUF_SUFFIX + rest + HUF_SUFFIX
    ensures DecompressInput(BaseNameAsWritten(CompressOutput(".txt"))) != CompressOutput(".txt")
  {
    assert (HUF_SUFFIX + rest)[0..|HUF_SUFFIX|] == HUF_SUFFIX;
    assert CompressOutput(".txt") == HUF_SUFFIX + [];
  }

  /** With the corrected cut, decompress given the file compress wrote for a ".txt" file reads
      that same file and writes the base name + "_unc.txt", provided ".txt.huf" does not occur
      earlier in the name. */
  lemma DecompressOpensCompressed(filename: string)
    requires |filename| >= 4 && filename[|filename| - 4..] == ".txt"
    requires forall j :: 0 <= j < |filename| - 4 ==> !MatchAt(CompressOutput(filename), HUF_SUFFIX, j)
    ensures DecompressInput(BaseName(CompressOutput(filename))) == CompressOutput(filename)
    ensures DecompressOutput(BaseName(CompressOutput(filename)))
      == filename[..|filename| - 4] + UNC_SUFFIX
  {
    var g := CompressOutput(filename);
    var k := |filename| - 4;
    assert g[k..k + |HUF_SUFFIX|] == HUF_SUFFIX;
    assert MatchAt(g, HUF_SUFFIX, k);
    var pos := FindFrom(g, HUF_SUFFIX, 0);
    assert pos == k;
    assert g[..k] == filename[..k];
    assert g[..k] + HUF_SUFFIX == g;
  }
}
