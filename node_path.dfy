/**
 * Node's POSIX `path.extname` and `path.basename(p, ext)`, for the only
 * arguments the upload path gives them: a client file name from which the
 * multipart parser has already removed any directory part, so one with no '/'.
 */
module NodePath {

  predicate NoSlash(p: string) {
    '/' !in p
  }

  /** The last position of `c` in `s`, or -1. */
  function LastIndexOf(s: string, c: char): (i: int)
    ensures -1 <= i < |s|
    ensures i >= 0 ==> s[i] == c
    ensures forall k :: i < k < |s| ==> s[k] != c
  {
    if s == [] then -1
    else if s[|s| - 1] == c then |s| - 1
    else LastIndexOf(s[..|s| - 1], c)
  }

  /** `path.extname(p)`: from the last '.' to the end, unless there is no dot, the only dot
      that counts opens the name (".bashrc"), or the name is "..". */
  function Extname(p: string): (ext: string)
    requires NoSlash(p)
  {
    var d := LastIndexOf(p, '.');
    if d <= 0 || p == ".." then "" else p[d..]
  }

  /** `path.basename(p, suffix)`: the name with `suffix` cut off its end when it ends with it,
      the empty string when it IS the suffix. */
  function Basename(p: string, suffix: string): (b: string)
    requires NoSlash(p)
  {
    if 0 < |suffix| <= |p| then
      if suffix == p then ""
      else if p[|p| - |suffix|..] == suffix then p[..|p| - |suffix|]
      else p
    else p
  }

  /** A non-empty extension is a suffix starting with the name's last dot, and is never the
      whole name. */
  lemma ExtnameShape(p: string)
    requires NoSlash(p)
    ensures Extname(p) != "" ==>
              && 0 < |Extname(p)| < |p|
              && Extname(p) == p[|p| - |Extname(p)|..]
              && Extname(p)[0] == '.'
              && '.' !in Extname(p)[1..]
  {
    var d := LastIndexOf(p, '.');
    if Extname(p) != "" {
      var tail := Extname(p)[1..];
      assert tail == p[d + 1..];
      forall k | 0 <= k < |tail| ensures tail[k] != '.' {
        assert tail[k] == p[d + 1 + k];
      }
    }
  }

  /** Cutting the extension off and putting it back gives the name again. */
  lemma BasenameExtname(p: string)
    requires NoSlash(p)
    ensures Basename(p, Extname(p)) + Extname(p) == p
  {
    ExtnameShape(p);
  }

  /** The last position of a character is the one after which it no longer occurs. */
  lemma {:induction false} LastIndexOfAt(s: string, c: char, d: nat)
    requires d < |s| && s[d] == c
    requires forall k :: d < k < |s| ==> s[k] != c
    ensures LastIndexOf(s, c) == d
  {
    if d < |s| - 1 {
      LastIndexOfAt(s[..|s| - 1], c, d);
    }
  }

  /** Whatever precedes it, a trailing ".xyz" with no further dot is the extension, provided
      at least two characters precede it. */
  lemma ExtnameOfSuffix(prefix: string, ext: string)
    requires NoSlash(prefix + ext)
    requires |prefix| >= 2 && ext != "" && ext[0] == '.' && '.' !in ext[1..]
    ensures Extname(prefix + ext) == ext
  {
    var p := prefix + ext;
    var d := |prefix|;
    forall k | d < k < |p| ensures p[k] != '.' {
      assert p[k] == ext[1..][k - d - 1];
    }
    LastIndexOfAt(p, '.', d);
    assert p[d..] == ext;
  }
}
