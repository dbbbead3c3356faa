/**
 String and path helpers shared by the scripts: `str.endswith`, `str.replace("\\", "/")`,
 `os.path.join` on Windows and the root part of `os.path.splitext`.
 */
module Paths {

  /** The Windows path separator used by `os.path.join` and `os.path.relpath`. */
  const Sep: char := '\\'

  predicate StartsWith(s: string, prefix: string)
  {
    |prefix| <= |s| && forall k :: 0 <= k < |prefix| ==> s[k] == prefix[k]
  }

  /** `s.endswith(suffix)` */
  predicate EndsWith(s: string, suffix: string)
  {
    |suffix| <= |s| && forall i :: |s| - |suffix| <= i < |s| ==> s[i] == suffix[i - (|s| - |suffix|)]
  }

  lemma EndsWithConcat(a: string, b: string)
    ensures EndsWith(a + b, b)
  {
    forall i | |a| <= i < |a + b| ensures (a + b)[i] == b[i - |a|] {
    }
  }

  lemma EndsWithTrans(s: string, t: string, u: string)
    requires EndsWith(s, t) && EndsWith(t, u)
    ensures EndsWith(s, u)
  {
    forall i | |s| - |u| <= i < |s| ensures s[i] == u[i - (|s| - |u|)] {
      assert s[i] == t[i - (|s| - |t|)];
    }
  }

  /** `s.replace("\\", "/")`: every backslash becomes a slash, every other character stays. */
  function ReplaceBackslash(s: string): (r: string)
    ensures |r| == |s|
    ensures forall i {:trigger r[i]} :: 0 <= i < |s| ==> r[i] == (if s[i] == '\\' then '/' else s[i])
  {
    if s == [] then []
    else (if s[0] == '\\' then "/" else [s[0]]) + ReplaceBackslash(s[1..])
  }

  lemma ReplaceBackslashRemovesAll(s: string)
    ensures '\\' !in ReplaceBackslash(s)
  {
    var r := ReplaceBackslash(s);
    forall i | 0 <= i < |r| ensures r[i] != '\\' {
    }
  }

  /** A string without a backslash is left as it is. */
  lemma ReplaceBackslashIdentity(s: string)
    requires '\\' !in s
    ensures ReplaceBackslash(s) == s
  {
  }

  /** Replacing characters one by one distributes over concatenation. */
  lemma ReplaceBackslashConcat(a: string, b: string)
    ensures ReplaceBackslash(a + b) == ReplaceBackslash(a) + ReplaceBackslash(b)
  {
    var l, r := ReplaceBackslash(a + b), ReplaceBackslash(a) + ReplaceBackslash(b);
    forall i | 0 <= i < |l| ensures l[i] == r[i] {
      if i < |a| {
        assert (a + b)[i] == a[i];
      } else {
        assert (a + b)[i] == b[i - |a|];
      }
    }
  }

  /**
   `os.path.join(a, b)` on Windows for a relative `b` without a drive: a separator is
   inserted unless `a` is empty or already ends in one.
   */
  function Join(a: string, b: string): (r: string)
    ensures r == a + b || r == a + [Sep] + b
  {
    if a == [] || a[|a| - 1] == Sep || a[|a| - 1] == '/' then a + b else a + [Sep] + b
  }

  /** The joined path starts with the directory and ends with the file name. */
  lemma JoinEnds(a: string, b: string)
    ensures StartsWith(Join(a, b), a) && EndsWith(Join(a, b), b)
  {
    var r := Join(a, b);
    if r == a + b {
      EndsWithConcat(a, b);
    } else {
      EndsWithConcat(a + [Sep], b);
      assert r == (a + [Sep]) + b;
    }
    forall k | 0 <= k < |a| ensures r[k] == a[k] {
    }
  }

  /** Appending to a joined path is appending to its file name. */
  lemma JoinAppend(a: string, b: string, c: string)
    ensures Join(a, b) + c == Join(a, b + c)
  {
    if a == [] || a[|a| - 1] == Sep || a[|a| - 1] == '/' {
      assert (a + b) + c == a + (b + c);
    } else {
      assert (a + [Sep] + b) + c == a + [Sep] + (b + c);
    }
  }

  /** The first index of `c` in `s`, or `|s|` when there is none (`s.find(c)` with -1 read as `|s|`). */
  function IndexOf(s: string, c: char): (i: nat)
    ensures i <= |s|
    ensures i < |s| ==> s[i] == c
    ensures forall j :: 0 <= j < i ==> s[j] != c
  {
    if s == [] then 0
    else if s[0] == c then 0
    else 1 + IndexOf(s[1..], c)
  }

  /** `s.rfind(c)`: the last index of `c` in `s`, or -1. */
  function LastIndexOf(s: string, c: char): (r: int)
    ensures -1 <= r < |s|
    ensures r >= 0 ==> s[r] == c
    ensures forall i :: r < i < |s| ==> s[i] != c
  {
    if s == [] then -1
    else if s[|s| - 1] == c then |s| - 1
    else LastIndexOf(s[..|s| - 1], c)
  }

  /**
   `os.path.splitext(p)[0]` with `/` as the separator (the separator of blob names): the final
   extension is removed when the last `.` lies in the last path component and some character
   other than `.` comes before it in that component; otherwise `p` is returned whole.
   */
  function SplitExtRoot(p: string): (root: string)
    ensures |root| <= |p| && root == p[..|root|]
    ensures |root| < |p| ==> p[|root|] == '.'
    ensures forall i :: |root| < i < |p| ==> p[i] != '.' && p[i] != '/'
  {
    var sepIndex := LastIndexOf(p, '/');
    var dotIndex := LastIndexOf(p, '.');
    if dotIndex > sepIndex && exists i :: sepIndex < i < dotIndex && p[i] != '.' then p[..dotIndex]
    else p
  }

  /** The last path component of `p` has a character other than `.` before position `end`. */
  predicate HasStem(p: string, end: int)
  {
    exists i :: LastIndexOf(p, '/') < i < end && 0 <= i < |p| && p[i] != '.'
  }

  /** For a name ending in `.jsonl` with a stem, splitext strips exactly that suffix. */
  lemma SplitExtRootJsonl(p: string)
    requires EndsWith(p, ".jsonl")
    requires HasStem(p, |p| - 6)
    ensures SplitExtRoot(p) == p[..|p| - 6]
  {
    var n := |p|;
    assert p[n - 6..] == ".jsonl";
    assert p[n - 6] == '.' && p[n - 5] == 'j' && p[n - 4] == 's' && p[n - 3] == 'o' && p[n - 2] == 'n' && p[n - 1] == 'l';
    var dotIndex := LastIndexOf(p, '.');
    assert dotIndex == n - 6;
  }

  /** A name made only of dots before `.jsonl` (here `.jsonl` itself) keeps its extension. */
  lemma SplitExtRootDotOnly()
    ensures SplitExtRoot(".jsonl") == ".jsonl"
  {
    var p := ".jsonl";
    assert p[0] == '.' && p[1] == 'j' && p[2] == 's' && p[3] == 'o' && p[4] == 'n' && p[5] == 'l';
    assert LastIndexOf(p, '/') == -1;
    assert LastIndexOf(p, '.') == 0;
  }
}
