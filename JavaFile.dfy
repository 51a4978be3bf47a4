/**
 * The parts of `java.io.File` the mod manager uses on Unix paths: the normalised path (runs of
 * '/' collapsed, a trailing '/' dropped), `name`, `parent`, `extension` and
 * `nameWithoutExtension`.
 */
module JavaFile {
  import opened Wrappers
  import opened Strings

  /** Runs of '/' collapsed to one. */
  function CollapseSlashes(s: string): (r: string)
    ensures |r| <= |s|
    ensures !HasDoubleSlash(r)
    ensures r != [] ==> s != [] && r[0] == s[0]
    ensures '/' in r ==> '/' in s
  {
    if |s| >= 2 && s[0] == '/' && s[1] == '/' then CollapseSlashes(s[1..])
    else if s == [] then []
    else
      var t := CollapseSlashes(s[1..]);
      NoDoubleCons(s[0], t);
      [s[0]] + t
  }

  /** The path a `File` holds: slashes collapsed, no trailing '/' unless it is the root. */
  function Normalize(p: string): (r: string)
    ensures |r| <= |p|
    ensures !HasDoubleSlash(r)
    ensures |r| > 1 ==> r[|r| - 1] != '/'
  {
    var c := CollapseSlashes(p);
    if |c| > 1 && c[|c| - 1] == '/' then
      NoDoubleDrop(c);
      c[..|c| - 1]
    else c
  }

  lemma NoDoubleDrop(c: string)
    requires !HasDoubleSlash(c) && c != []
    ensures !HasDoubleSlash(c[..|c| - 1])
  {
    var t := c[..|c| - 1];
    forall i | 0 <= i < |t| - 1 ensures !(t[i] == '/' && t[i + 1] == '/') {
      assert t[i] == c[i] && t[i + 1] == c[i + 1];
    }
  }

  /** `File(p).name`: the text after the last '/' of the normalised path. */
  function Name(p: string): (r: string)
    ensures '/' !in r
    ensures |r| <= |p|
  {
    var n := Normalize(p);
    var i := LastIndexOf(n, '/');
    var r := if i < 0 then n else n[i + 1..];
    assert i >= 0 ==> forall k :: 0 <= k < |r| ==> r[k] == n[i + 1 + k];
    r
  }

  /** `File(p).parent`: the normalised path before its last '/', the root for "/x", or null. */
  function Parent(p: string): (r: Option<string>)
    ensures r.Some? ==> |r.value| < |p|
  {
    var n := Normalize(p);
    var i := LastIndexOf(n, '/');
    var prefix := if n != [] && n[0] == '/' then 1 else 0;
    if i < prefix then
      if prefix > 0 && |n| > prefix then Some("/") else None
    else Some(n[..i])
  }

  /** A normalised path with a parent is that parent, a separator when the parent is not the
    * root, and the name. */
  lemma ParentName(p: string)
    requires Parent(p).Some?
    ensures var q := Parent(p).value;
      Normalize(p) == (if q == "/" then q else q + "/") + Name(p)
  {
    var n := Normalize(p);
    var i := LastIndexOf(n, '/');
    if i >= 1 || (i == 0 && n[0] != '/') {
      assert n == n[..i] + "/" + n[i + 1..];
    } else {
      assert n == "/" + n[1..];
    }
  }

  /** A relative name without any '/' has no parent and is its own name. */
  lemma PlainName(p: string)
    requires p != [] && '/' !in p
    ensures Parent(p) == None && Name(p) == p
  {
    NoSlashCollapse(p);
    NoCharLastIndex(p, '/');
  }

  lemma {:induction false} NoSlashCollapse(p: string)
    requires '/' !in p
    ensures CollapseSlashes(p) == p
  {
    if p != [] {
      assert p[0] in p;
      assert forall k :: 0 <= k < |p| - 1 ==> p[1..][k] == p[k + 1];
      NoSlashCollapse(p[1..]);
    }
  }

  /** `File(p).extension`: the name's text after its last '.', or "". */
  function Extension(p: string): string
  {
    SubstringAfterLast(Name(p), '.', "")
  }

  /** `File(p).nameWithoutExtension`: the name's text before its last '.', or the whole name. */
  function NameWithoutExtension(p: string): string
  {
    SubstringBeforeLast(Name(p), '.', Name(p))
  }
}
