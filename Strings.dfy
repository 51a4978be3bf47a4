/**
 * The Kotlin string operations the mod manager relies on, over `seq<char>`: prefix, suffix and
 * substring tests, `indexOf`, `substringAfterLast`/`substringBeforeLast`, `trimEnd`/`trimStart`,
 * `split`/`joinToString` on one character, ASCII lower-casing and the single left-to-right
 * `replace("//", "/")` pass.
 */
module Strings {

  /** `s.startsWith(p)`. */
  predicate StartsWith(s: string, p: string)
  {
    |p| <= |s| && s[..|p|] == p
  }

  /** `s.endsWith(p)`. */
  predicate EndsWith(s: string, p: string)
  {
    |p| <= |s| && s[|s| - |p|..] == p
  }

  /** `sub` occurs in `s` at index `i`. */
  predicate OccursAt(s: string, sub: string, i: nat)
  {
    i + |sub| <= |s| && s[i..i + |sub|] == sub
  }

  /** `s.contains(sub)`. */
  predicate Contains(s: string, sub: string)
  {
    exists i: nat | i <= |s| :: OccursAt(s, sub, i)
  }

  /** The first index at or after `from` where `sub` occurs, or -1. */
  function IndexFrom(s: string, sub: string, from: nat): (r: int)
    decreases |s| - from
    ensures r == -1 || from <= r
    ensures r >= 0 ==> OccursAt(s, sub, r)
    ensures forall j: nat :: from <= j && (r == -1 || j < r) ==> !OccursAt(s, sub, j)
  {
    if from + |sub| > |s| then -1
    else if s[from..from + |sub|] == sub then from
    else IndexFrom(s, sub, from + 1)
  }

  /** `s.indexOf(sub)`: the first occurrence of `sub`, or -1 when there is none. */
  function IndexOf(s: string, sub: string): (r: int)
    ensures r == -1 <==> !Contains(s, sub)
    ensures r >= 0 ==> OccursAt(s, sub, r) && forall j: nat :: j < r ==> !OccursAt(s, sub, j)
  {
    IndexFrom(s, sub, 0)
  }

  /** ASCII `lowercase()` of one character; every other character is unchanged. */
  function LowerChar(c: char): char
  {
    if 'A' <= c <= 'Z' then (c as int + 32) as char else c
  }

  /** `s.lowercase()`, ASCII letters only. */
  function Lower(s: string): (r: string)
    ensures |r| == |s|
    ensures forall i :: 0 <= i < |s| ==> r[i] == LowerChar(s[i])
  {
    seq(|s|, i requires 0 <= i < |s| => LowerChar(s[i]))
  }

  /** `a.equals(b, ignoreCase = true)`. */
  predicate EqualsIgnoreCase(a: string, b: string)
  {
    Lower(a) == Lower(b)
  }

  /** `s.indexOf(sub, ignoreCase = true)`. */
  function IndexOfIgnoreCase(s: string, sub: string): (r: int)
    ensures r == -1 <==> !Contains(Lower(s), Lower(sub))
    ensures r >= 0 ==> r + |sub| <= |s| && Lower(s)[r..r + |sub|] == Lower(sub)
  {
    IndexOf(Lower(s), Lower(sub))
  }

  /** `s.lastIndexOf(c)`: the last index holding `c`, or -1. */
  function LastIndexOf(s: string, c: char): (r: int)
    ensures -1 <= r < |s|
    ensures r >= 0 ==> s[r] == c
    ensures forall j :: r < j < |s| ==> s[j] != c
  {
    if s == [] then -1
    else if s[|s| - 1] == c then |s| - 1
    else LastIndexOf(s[..|s| - 1], c)
  }

  /** `s.substringAfterLast(c, missing)`. */
  function SubstringAfterLast(s: string, c: char, missing: string): string
  {
    var i := LastIndexOf(s, c);
    if i < 0 then missing else s[i + 1..]
  }

  /** `s.substringBeforeLast(c, missing)`. */
  function SubstringBeforeLast(s: string, c: char, missing: string): string
  {
    var i := LastIndexOf(s, c);
    if i < 0 then missing else s[..i]
  }

  /** Splitting at the last `c` takes `s` apart into the text before it, `c` and a `c`-free rest. */
  lemma LastSplit(s: string, c: char)
    requires LastIndexOf(s, c) >= 0
    ensures s == SubstringBeforeLast(s, c, s) + [c] + SubstringAfterLast(s, c, s)
    ensures c !in SubstringAfterLast(s, c, s)
  {
    var i := LastIndexOf(s, c);
    var before, after := s[..i], s[i + 1..];
    assert SubstringBeforeLast(s, c, s) == before && SubstringAfterLast(s, c, s) == after;
    assert s == before + [c] + after;
    forall k | 0 <= k < |after| ensures after[k] != c {
      assert after[k] == s[i + 1 + k];
    }
  }

  /** `s.trimEnd(c)`: `s` without its trailing run of `c`. */
  function TrimEnd(s: string, c: char): (r: string)
    ensures StartsWith(s, r)
    ensures r == [] || r[|r| - 1] != c
    ensures forall j :: |r| <= j < |s| ==> s[j] == c
  {
    if s == [] || s[|s| - 1] != c then s else TrimEnd(s[..|s| - 1], c)
  }

  /** `s.trimStart(c)`: `s` without its leading run of `c`. */
  function TrimStart(s: string, c: char): (r: string)
    ensures EndsWith(s, r)
    ensures r == [] || r[0] != c
    ensures forall j :: 0 <= j < |s| - |r| ==> s[j] == c
  {
    if s == [] || s[0] != c then s else TrimStart(s[1..], c)
  }

  /** `s.replace("//", "/")`: one left-to-right pass over non-overlapping occurrences. */
  function CollapseOnce(s: string): (r: string)
    ensures |r| <= |s|
  {
    if |s| >= 2 && s[0] == '/' && s[1] == '/' then "/" + CollapseOnce(s[2..])
    else if s == [] then []
    else [s[0]] + CollapseOnce(s[1..])
  }

  /** `s` holds two adjacent slashes. */
  predicate HasDoubleSlash(s: string)
  {
    exists i :: 0 <= i < |s| - 1 && s[i] == '/' && s[i + 1] == '/'
  }

  /** A string without "//" passes through the replacement unchanged. */
  lemma {:induction false} CollapseOnceNoDouble(s: string)
    requires !HasDoubleSlash(s)
    ensures CollapseOnce(s) == s
  {
    if |s| >= 2 && s[0] == '/' && s[1] == '/' {
      assert false;
    } else if s != [] {
      var t := s[1..];
      assert !HasDoubleSlash(t) by {
        forall i | 0 <= i < |t| - 1 ensures !(t[i] == '/' && t[i + 1] == '/') {
          assert t[i] == s[i + 1] && t[i + 1] == s[i + 2];
        }
      }
      CollapseOnceNoDouble(t);
    }
  }

  /** After the pass, "//" is left only where the input had three slashes in a row. */
  lemma {:induction false} CollapseOnceLeavesTriples(s: string)
    requires !HasTripleSlash(s)
    ensures !HasDoubleSlash(CollapseOnce(s))
    decreases |s|
  {
    if |s| >= 2 && s[0] == '/' && s[1] == '/' {
      var t := s[2..];
      NoTripleTail(s, 2);
      CollapseOnceLeavesTriples(t);
      var r := CollapseOnce(t);
      if r != [] && r[0] == '/' {
        CollapseOnceHead(t);
        assert false;
      }
      NoDoubleCons('/', r);
    } else if s != [] {
      var t := s[1..];
      NoTripleTail(s, 1);
      CollapseOnceLeavesTriples(t);
      var r := CollapseOnce(t);
      if s[0] == '/' && r != [] && r[0] == '/' {
        CollapseOnceHead(t);
        assert false;
      }
      NoDoubleCons(s[0], r);
    }
  }

  /** `s` holds three adjacent slashes. */
  predicate HasTripleSlash(s: string)
  {
    exists i :: 0 <= i < |s| - 2 && s[i] == '/' && s[i + 1] == '/' && s[i + 2] == '/'
  }

  lemma NoTripleTail(s: string, k: nat)
    requires k <= |s| && !HasTripleSlash(s)
    ensures !HasTripleSlash(s[k..])
  {
    var t := s[k..];
    forall i | 0 <= i < |t| - 2 ensures !(t[i] == '/' && t[i + 1] == '/' && t[i + 2] == '/') {
      assert t[i] == s[i + k] && t[i + 1] == s[i + k + 1] && t[i + 2] == s[i + k + 2];
    }
  }

  /** The pass starts with a slash only when its input does. */
  lemma CollapseOnceHead(s: string)
    requires CollapseOnce(s) != [] && CollapseOnce(s)[0] == '/'
    ensures s != [] && s[0] == '/'
  {
  }

  lemma NoDoubleCons(c: char, r: string)
    requires !HasDoubleSlash(r)
    requires c == '/' ==> r == [] || r[0] != '/'
    ensures !HasDoubleSlash([c] + r)
  {
    var t := [c] + r;
    forall i | 0 <= i < |t| - 1 ensures !(t[i] == '/' && t[i + 1] == '/') {
      if i > 0 {
        assert t[i] == r[i - 1] && t[i + 1] == r[i];
      }
    }
  }

  /** The pass is a single one: a run of three slashes still leaves "//" behind. */
  lemma CollapseOnceTripleSlash()
    ensures CollapseOnce("a///b") == "a//b"
  {
    assert CollapseOnce("b") == "b";
    assert CollapseOnce("/b") == "/b";
    assert CollapseOnce("///b") == "//b";
  }

  /** `s.split(c)`: the pieces between occurrences of `c`, empty pieces kept. */
  function Split(s: string, c: char): (r: seq<string>)
    ensures |r| >= 1
    ensures forall k :: 0 <= k < |r| ==> c !in r[k]
    decreases |s|
  {
    var i := LastIndexOf(s, c);
    if i < 0 then [s] else Split(s[..i], c) + [s[i + 1..]]
  }

  /** `parts.joinToString(c)`. */
  function Join(parts: seq<string>, c: char): string
  {
    if parts == [] then []
    else if |parts| == 1 then parts[0]
    else Join(parts[..|parts| - 1], c) + [c] + parts[|parts| - 1]
  }

  /** Splitting and joining on the same character gives the string back. */
  lemma {:induction false} JoinSplit(s: string, c: char)
    ensures Join(Split(s, c), c) == s
    decreases |s|
  {
    var i := LastIndexOf(s, c);
    if i >= 0 {
      var front := Split(s[..i], c);
      JoinSplit(s[..i], c);
      assert Split(s, c)[..|Split(s, c)| - 1] == front;
      assert s == s[..i] + [c] + s[i + 1..];
    }
  }

  /** Joining pieces free of `c` and splitting again gives the pieces back. */
  lemma {:induction false} SplitJoin(parts: seq<string>, c: char)
    requires |parts| >= 1
    requires forall k :: 0 <= k < |parts| ==> c !in parts[k]
    ensures Split(Join(parts, c), c) == parts
  {
    if |parts| == 1 {
      NoCharLastIndex(parts[0], c);
    } else {
      var front, last := parts[..|parts| - 1], parts[|parts| - 1];
      var j := Join(front, c);
      var s := j + [c] + last;
      assert Join(parts, c) == s;
      LastIndexAfter(j, c, last);
      assert s[..|j|] == j && s[|j| + 1..] == last;
      SplitJoin(front, c);
      assert parts == front + [last];
    }
  }

  lemma NoCharLastIndex(s: string, c: char)
    requires c !in s
    ensures LastIndexOf(s, c) == -1
  {
  }

  lemma {:induction false} LastIndexAfter(j: string, c: char, last: string)
    requires c !in last
    ensures LastIndexOf(j + [c] + last, c) == |j|
    decreases |last|
  {
    var s := j + [c] + last;
    if last != [] {
      assert s[|s| - 1] == last[|last| - 1];
      assert last[|last| - 1] in last;
      var front := last[..|last| - 1];
      assert s[..|s| - 1] == j + [c] + front;
      assert forall k :: 0 <= k < |front| ==> front[k] == last[k];
      LastIndexAfter(j, c, front);
    }
  }
}
