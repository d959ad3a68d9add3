/** Character-level string helpers used by both the resource code and the
    code generator: replacing every occurrence of one character, the
    trailing-slash test, and the conversion of a host path to slash form.
 */
module Strings {

  /** Every occurrence of `from` in `s` replaced by `to` (all occurrences,
      as a replace with an unlimited count does for one-character strings). */
  function ReplaceAll(s: string, from: char, to: char): (r: string)
    ensures |r| == |s|
    ensures forall i | 0 <= i < |s| :: s[i] != from ==> r[i] == s[i]
    ensures forall i | 0 <= i < |s| :: s[i] == from ==> r[i] == to
  {
    seq(|s|, i requires 0 <= i < |s| => if s[i] == from then to else s[i])
  }

  /** After replacing, `from` no longer occurs (unless it is also `to`). */
  lemma ReplaceAllRemoves(s: string, from: char, to: char)
    requires from != to
    ensures from !in ReplaceAll(s, from, to)
  {
  }

  /** Replacing back undoes the replacement when `to` did not occur before. */
  lemma ReplaceAllInverse(s: string, from: char, to: char)
    requires to !in s
    ensures ReplaceAll(ReplaceAll(s, from, to), to, from) == s
  {
  }

  /** Whether `s` ends in a slash (a suffix test for "/"). */
  predicate EndsWithSlash(s: string) {
    |s| > 0 && s[|s| - 1] == '/'
  }

  /** Converts a host path to slash form: every host separator `sep` becomes
      '/'; on a host whose separator is already '/' the path is unchanged. */
  function ToSlash(path: string, sep: char): (r: string)
    ensures |r| == |path|
    ensures sep != '/' ==> sep !in r
    ensures forall i | 0 <= i < |path| :: r[i] == if path[i] == sep then '/' else path[i]
  {
    if sep == '/' then path
    else
      ReplaceAllRemoves(path, sep, '/');
      ReplaceAll(path, sep, '/')
  }

  /** A path that holds no host separator is already in slash form. */
  lemma ToSlashWithoutSeparator(path: string, sep: char)
    requires sep !in path
    ensures ToSlash(path, sep) == path
  {
    assert forall i | 0 <= i < |path| :: ToSlash(path, sep)[i] == path[i];
  }

  /** On a host whose separator is not '/', converting back restores a path
      that contained no '/'. */
  lemma ToSlashInverse(path: string, sep: char)
    requires '/' !in path
    ensures ReplaceAll(ToSlash(path, sep), '/', sep) == path
  {
  }
}
