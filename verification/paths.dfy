/**
 * The two Foundation path operations the tool uses on its `--out` value:
 * `NSString.pathExtension` and `NSString.deletingPathExtension`.
 *
 * Foundation is not part of this model; these are concrete definitions of
 * what the tool relies on: the extension is the text after the last `.` of
 * the last path component (the text after the last `/`), compared exactly.
 */
module Paths {

  /** Index of the last occurrence of `c` in `s`, or -1 when `c` does not occur. */
  function LastIndexOf(s: string, c: char): (r: int)
    ensures -1 <= r < |s|
    ensures r >= 0 ==> s[r] == c
    ensures forall k :: r < k < |s| ==> s[k] != c
    decreases |s|
  {
    if |s| == 0 then -1
    else if s[|s| - 1] == c then |s| - 1
    else LastIndexOf(s[..|s| - 1], c)
  }

  /** Index of the dot that starts the extension of the last path component, or -1 when it has none. */
  function ExtensionDot(path: string): (d: int)
    ensures -1 <= d < |path|
    ensures d >= 0 ==> path[d] == '.' && forall k :: d < k < |path| ==> path[k] != '.' && path[k] != '/'
    ensures d < 0 ==> forall k :: LastIndexOf(path, '/') < k < |path| ==> path[k] != '.'
  {
    var slash := LastIndexOf(path, '/');
    var dot := LastIndexOf(path, '.');
    if dot > slash then dot else -1
  }

  /** `(path as NSString).pathExtension`: the text after the extension dot, without the dot. */
  function PathExtension(path: string): (ext: string)
    ensures '.' !in ext && '/' !in ext
    ensures |ext| < |path| || ext == ""
    ensures ExtensionDot(path) >= 0 ==> path[|path| - |ext| - 1] == '.' && path[|path| - |ext|..] == ext
    ensures ExtensionDot(path) < 0 ==> ext == ""
  {
    var d := ExtensionDot(path);
    if d < 0 then "" else path[d + 1..]
  }

  /** `(path as NSString).deletingPathExtension`: the path without its extension dot and extension. */
  function DeletingPathExtension(path: string): (stem: string)
    ensures |stem| <= |path| && stem == path[..|stem|]
    ensures ExtensionDot(path) >= 0 ==> stem + "." + PathExtension(path) == path
    ensures ExtensionDot(path) < 0 ==> stem == path
  {
    var d := ExtensionDot(path);
    if d < 0 then path else path[..d]
  }

  /**
   * A path whose extension is exactly `png` is its stem followed by `.png`,
   * so stripping the extension and appending `.png` again gives the path back.
   */
  lemma StripPngExtension(path: string)
    requires PathExtension(path) == "png"
    ensures DeletingPathExtension(path) + ".png" == path
    ensures |DeletingPathExtension(path)| == |path| - 4
  {
  }
}
