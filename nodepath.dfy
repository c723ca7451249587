/**
 * The pieces of Node's POSIX `path` module and of `String.prototype.toLowerCase`
 * that the upload pipeline depends on: joining a directory and an entry name,
 * `path.basename` and `path.extname` (one argument each), and lower-casing.
 */
module NodePath {
  import opened Outcomes

  /** Lower-cases one character; only the ASCII letters A-Z change. */
  function LowerChar(c: char): (l: char)
    ensures !('A' <= l <= 'Z')
    ensures !('A' <= c <= 'Z') ==> l == c
    ensures 'A' <= c <= 'Z' ==> 'a' <= l <= 'z' && l - 'a' == c - 'A'
  {
    if 'A' <= c <= 'Z' then (c as int + 32) as char else c
  }

  /** `s.toLowerCase()` on the characters that matter here (see LowerChar). */
  function Lower(s: string): string {
    seq(|s|, i requires 0 <= i < |s| => LowerChar(s[i]))
  }

  /** Lower-casing twice is lower-casing once. */
  lemma LowerIdempotent(s: string)
    ensures Lower(Lower(s)) == Lower(s)
  {
    assert forall i :: 0 <= i < |s| ==> LowerChar(Lower(s)[i]) == Lower(s)[i];
  }

  /** Lower-casing never creates or removes a dot or a slash. */
  lemma LowerCharKeepsSeparators(c: char)
    ensures LowerChar(c) == '.' <==> c == '.'
    ensures LowerChar(c) == '/' <==> c == '/'
  {
  }

  /** The position of the last `c` among the first `n` characters of `s`, if there is one. */
  function LastIndexBefore(s: string, c: char, n: nat): (r: Option<nat>)
    requires n <= |s|
    ensures r.None? <==> forall j :: 0 <= j < n ==> s[j] != c
    ensures r.Some? ==> r.value < n && s[r.value] == c && forall j :: r.value < j < n ==> s[j] != c
  {
    if n == 0 then None
    else if s[n - 1] == c then Some(n - 1)
    else LastIndexBefore(s, c, n - 1)
  }

  /** The position of the last `c` in `s`, if there is one (`s.lastIndexOf(c)`). */
  function LastIndexOf(s: string, c: char): Option<nat> {
    LastIndexBefore(s, c, |s|)
  }

  /** A `c` with no `c` after it is the last one. */
  lemma {:induction false} LastIndexOfAt(s: string, c: char, k: nat)
    requires k < |s| && s[k] == c && forall j :: k < j < |s| ==> s[j] != c
    ensures LastIndexOf(s, c) == Some(k)
  {
    var r := LastIndexOf(s, c);
    assert r.Some?;
  }

  /** The length of `p` once its trailing slashes are dropped. */
  function TrimmedLength(p: string, n: nat): (m: nat)
    requires n <= |p|
    ensures m <= n
    ensures m == 0 || p[m - 1] != '/'
    ensures forall i :: m <= i < n ==> p[i] == '/'
  {
    if n > 0 && p[n - 1] == '/' then TrimmedLength(p, n - 1) else n
  }

  /** `p` without its trailing slashes. */
  function TrimTrailingSlashes(p: string): (t: string)
    ensures t <= p
    ensures t == [] || t[|t| - 1] != '/'
    ensures forall i :: |t| <= i < |p| ==> p[i] == '/'
  {
    p[..TrimmedLength(p, |p|)]
  }

  /**
   * `path.join(dir, name)` for a normalised directory `dir` and a plain entry
   * `name` (non-empty, no slash, not "." or ".."): one slash between them.
   */
  function Join(dir: string, name: string): string {
    dir + "/" + name
  }

  /** A name `fs.readdirSync` can return: non-empty, no slash, neither "." nor "..". */
  predicate PlainName(name: string) {
    name != "" && name != "." && name != ".." && '/' !in name
  }

  /** `path.basename(p)`: the last path component once trailing slashes are dropped. */
  function Basename(p: string): (b: string)
    ensures '/' !in b
  {
    var t := TrimTrailingSlashes(p);
    match LastIndexOf(t, '/')
    case None => t
    case Some(i) => t[i + 1..]
  }

  /**
   * `path.extname(p)`: from the last dot of the basename to its end, except that
   * a basename whose only dot is its first character, or that is "..", has none.
   */
  function Extname(p: string): (e: string)
    ensures e == [] || (e[0] == '.' && '.' !in e[1..] && '/' !in e)
    ensures e != [] ==> |e| < |Basename(p)| && Basename(p)[|Basename(p)| - |e|..] == e
  {
    var b := Basename(p);
    match LastIndexOf(b, '.')
    case None => ""
    case Some(k) =>
      if k == 0 || b == ".." then ""
      else
        DotTail(b, k);
        b[k..]
  }

  /** From the last dot of a slash-free name to its end there is no other dot and no slash. */
  lemma DotTail(b: string, k: nat)
    requires k < |b| && b[k] == '.' && '/' !in b
    requires forall j :: k < j < |b| ==> b[j] != '.'
    ensures b[k..][0] == '.' && '.' !in b[k..][1..] && '/' !in b[k..]
  {
    var e := b[k..];
    assert forall j :: 0 <= j < |e| ==> e[j] == b[k + j];
    assert forall j :: 1 <= j < |e| ==> e[1..][j - 1] == e[j];
  }

  /** The basename of `dir/name` is `name`, whatever the directory. */
  lemma BasenameOfJoin(dir: string, name: string)
    requires name != "" && '/' !in name
    ensures Basename(Join(dir, name)) == name
  {
    var p := Join(dir, name);
    assert p[|p| - 1] == name[|name| - 1];
    assert TrimTrailingSlashes(p) == p;
    assert p[|dir|] == '/';
    assert p[|dir| + 1..] == name;
    assert forall j :: |dir| < j < |p| ==> p[j] == name[j - |dir| - 1];
    LastIndexOfAt(p, '/', |dir|);
  }

  /** A name without slashes is its own basename. */
  lemma BasenameOfName(name: string)
    requires name != "" && '/' !in name
    ensures Basename(name) == name
  {
    assert TrimTrailingSlashes(name) == name;
  }

  /** The extension of `dir/name` is that of `name`: directories never contribute. */
  lemma ExtnameOfJoin(dir: string, name: string)
    requires name != "" && '/' !in name
    ensures Extname(Join(dir, name)) == Extname(name)
  {
    BasenameOfJoin(dir, name);
    BasenameOfName(name);
  }
}
