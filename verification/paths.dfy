/**
 The extension derivation the file, Nacos and Consul constructors perform:
 `strings.TrimPrefix(filepath.Ext(name), ".")`, with `/` as the path
 separator.
 */
module Paths {

  /** The index of the last separator among the first `n` characters of
      `path`, or -1 when there is none: the last element starts after it. */
  function SepIndex(path: string, n: nat): (k: int)
    requires n <= |path|
    ensures -1 <= k < n
    ensures k >= 0 ==> path[k] == '/'
    ensures forall j :: k < j < n ==> path[j] != '/'
  {
    if n == 0 then -1
    else if path[n - 1] == '/' then n - 1
    else SepIndex(path, n - 1)
  }

  /** The scan of `filepath.Ext` over the first `n` characters, from the
      end: stop with -1 at a separator or the start, and with the index at a
      dot. */
  function DotIndex(path: string, n: nat): (d: int)
    requires n <= |path|
    ensures -1 <= d < n
    ensures d >= 0 ==> path[d] == '.' && SepIndex(path, n) < d
    ensures d >= 0 ==> forall j :: d < j < n ==> path[j] != '.' && path[j] != '/'
    ensures d == -1 ==> forall j :: SepIndex(path, n) < j < n ==> path[j] != '.'
  {
    if n == 0 || path[n - 1] == '/' then -1
    else if path[n - 1] == '.' then n - 1
    else DotIndex(path, n - 1)
  }

  /** The last element of `path` has no dot. */
  predicate NoDotInLastElement(path: string) {
    forall j :: SepIndex(path, |path|) < j < |path| ==> path[j] != '.'
  }

  /** `filepath.Ext`: the suffix of `path` from the last `.` of its last
      element on, or "" when the last element has no dot. */
  function Ext(path: string): (e: string)
    ensures e == "" <==> NoDotInLastElement(path)
    ensures e != "" ==> |e| <= |path| && e == path[|path| - |e|..] && e[0] == '.'
    ensures e != "" ==> SepIndex(path, |path|) < |path| - |e|
    ensures forall j :: 1 <= j < |e| ==> e[j] != '.' && e[j] != '/'
  {
    var d := DotIndex(path, |path|);
    if d < 0 then "" else path[d..]
  }

  /** `strings.TrimPrefix(s, ".")`. */
  function TrimDot(s: string): (r: string)
    ensures |s| > 0 && s[0] == '.' ==> s == "." + r
    ensures !(|s| > 0 && s[0] == '.') ==> r == s
  {
    if |s| > 0 && s[0] == '.' then s[1..] else s
  }

  /** The extension a resource derives from its file name, data id or key:
      empty exactly when the last element has no dot or ends in a dot;
      otherwise the name is something, a dot, and the extension, which
      holds neither a dot nor a separator. */
  function Extension(path: string): (r: string)
    ensures r == "" <==> NoDotInLastElement(path) || (|path| > 0 && path[|path| - 1] == '.')
    ensures r != "" ==> |r| < |path| && path == path[..|path| - |r| - 1] + "." + r
    ensures forall j :: 0 <= j < |r| ==> r[j] != '.' && r[j] != '/'
  {
    var e := Ext(path);
    if e == "" then ""
    else
      assert path == path[..|path| - |e|] + e;
      TrimDot(e)
  }

  /** A dot in a directory name is no extension, nor is a trailing dot. */
  lemma ExtensionExamples()
    ensures Extension("conf.d/app") == ""
    ensures Extension("app.") == ""
  {
    assert SepIndex("conf.d/app", 10) == 6;
  }
}
