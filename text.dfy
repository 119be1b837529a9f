/**
 * The handful of Python string and list operations the logger and the map
 * viewer rely on, written out over `seq<char>` with the semantics CPython gives
 * them: substring test (`pat in s`), `str.replace(pat, "")`, string ordering
 * (`a < b`), `str.strip()`, `str.split('.')` / `'.'.join(...)`, `str.endswith`
 * and `os.path.basename` (POSIX flavour).
 */
module Text {

  /** Python's `pat in s`: `pat` occurs somewhere in `s`. */
  predicate Contains(s: string, pat: string)
    decreases |s|
  {
    (|pat| <= |s| && s[..|pat|] == pat) || (s != [] && Contains(s[1..], pat))
  }

  /** Every character of a pattern that occurs in `s` is itself in `s`. */
  lemma {:induction false} ContainsNeedsChar(s: string, pat: string, k: nat)
    requires Contains(s, pat)
    requires k < |pat|
    ensures pat[k] in s
    decreases |s|
  {
    if |pat| <= |s| && s[..|pat|] == pat {
      assert s[k] == pat[k];
    } else {
      ContainsNeedsChar(s[1..], pat, k);
      var i :| 0 <= i < |s[1..]| && s[1..][i] == pat[k];
      assert s[i + 1] == pat[k];
    }
  }

  /** A string that starts with `pat` contains it. */
  lemma PrefixContains(s: string, pat: string)
    requires pat <= s
    ensures Contains(s, pat)
  {
    assert s[..|pat|] == pat;
  }

  /** Python's `s.endswith(x)`. */
  predicate EndsWith(s: string, x: string)
  {
    |x| <= |s| && s[|s| - |x|..] == x
  }

  /**
   * Python's `s.replace(pat, "")`: scanning from the left, every
   * non-overlapping occurrence of `pat` is removed.
   */
  function RemoveAll(s: string, pat: string): (r: string)
    requires pat != []
    ensures |r| <= |s|
    decreases |s|
  {
    if |s| < |pat| then s
    else if s[..|pat|] == pat then RemoveAll(s[|pat|..], pat)
    else [s[0]] + RemoveAll(s[1..], pat)
  }

  /** A string in which the pattern's first character never occurs is left as it is. */
  lemma {:induction false} RemoveAllAbsent(s: string, pat: string)
    requires pat != []
    requires pat[0] !in s
    ensures RemoveAll(s, pat) == s
    decreases |s|
  {
    if |s| >= |pat| {
      assert s[0] != pat[0];
      RemoveAllSkip(s, pat);
      RemoveAllAbsent(s[1..], pat);
      assert [s[0]] + s[1..] == s;
    }
  }

  /** A string that does not contain the pattern is left as it is. */
  lemma {:induction false} RemoveAllNotContained(s: string, pat: string)
    requires pat != []
    requires !Contains(s, pat)
    ensures RemoveAll(s, pat) == s
    decreases |s|
  {
    if |s| >= |pat| {
      assert s[..|pat|] != pat;
      assert !Contains(s[1..], pat);
      RemoveAllNotContained(s[1..], pat);
      assert [s[0]] + s[1..] == s;
    }
  }

  /** Removal distributes over a front part that cannot start a match. */
  lemma {:induction false} RemoveAllFront(a: string, b: string, pat: string)
    requires pat != []
    requires pat[0] !in a
    ensures RemoveAll(a + b, pat) == a + RemoveAll(b, pat)
    decreases |a|
  {
    if a != [] {
      var s := a + b;
      if |s| < |pat| {
        RemoveAllShort(b, pat);
        RemoveAllShort(s, pat);
      } else {
        assert s[0] == a[0];
        RemoveAllSkip(s, pat);
        assert s[1..] == a[1..] + b;
        RemoveAllFront(a[1..], b, pat);
        assert [a[0]] + a[1..] == a;
      }
    } else {
      assert a + b == b;
    }
  }

  /** A string that does not start with the pattern's first character keeps that character. */
  lemma RemoveAllSkip(s: string, pat: string)
    requires pat != [] && |s| >= |pat|
    requires s[0] != pat[0]
    ensures RemoveAll(s, pat) == [s[0]] + RemoveAll(s[1..], pat)
  {
    assert s[..|pat|][0] != pat[0];
  }

  /** A string shorter than the pattern is left as it is. */
  lemma RemoveAllShort(s: string, pat: string)
    requires pat != []
    requires |s| < |pat|
    ensures RemoveAll(s, pat) == s
  {
  }

  /** Removing a pattern that the string starts with drops that occurrence. */
  lemma RemoveAllLeading(pat: string, t: string)
    requires pat != []
    ensures RemoveAll(pat + t, pat) == RemoveAll(t, pat)
  {
    assert (pat + t)[..|pat|] == pat;
    assert (pat + t)[|pat|..] == t;
  }

  /** Python's `a < b` on strings: lexicographic by code point, a proper prefix first. */
  predicate LexLess(a: string, b: string)
    decreases |a|
  {
    if a == [] then b != []
    else if b == [] then false
    else if a[0] == b[0] then LexLess(a[1..], b[1..])
    else a[0] < b[0]
  }

  /** The characters `str.isspace()` accepts. */
  predicate IsSpace(c: char)
  {
    var n := c as int;
    n == 32 || 9 <= n <= 13 || 28 <= n <= 31 || n == 0x85 || n == 0xA0 || n == 0x1680
    || 0x2000 <= n <= 0x200A || n == 0x2028 || n == 0x2029 || n == 0x202F || n == 0x205F || n == 0x3000
  }

  function TrimLeft(s: string): (r: string)
    ensures r == [] || !IsSpace(r[0])
    ensures |r| <= |s|
    decreases |s|
  {
    if s != [] && IsSpace(s[0]) then TrimLeft(s[1..]) else s
  }

  function TrimRight(s: string): (r: string)
    ensures r == [] || !IsSpace(r[|r| - 1])
    ensures r <= s
    decreases |s|
  {
    if s != [] && IsSpace(s[|s| - 1]) then TrimRight(s[..|s| - 1]) else s
  }

  /** Python's `s.strip()`: `s` without the whitespace at either end. */
  function Strip(s: string): (r: string)
    ensures r == [] || (!IsSpace(r[0]) && !IsSpace(r[|r| - 1]))
    ensures |r| <= |s|
  {
    TrimRight(TrimLeft(s))
  }

  /**
   * `lstrip` removes exactly the leading whitespace: its result is a suffix of
   * `s` that does not start with whitespace, and all it dropped is whitespace.
   */
  lemma {:induction false} TrimLeftDrops(s: string)
    ensures |TrimLeft(s)| <= |s| && TrimLeft(s) == s[|s| - |TrimLeft(s)|..]
    ensures TrimLeft(s) == [] || !IsSpace(TrimLeft(s)[0])
    ensures forall k :: 0 <= k < |s| - |TrimLeft(s)| ==> IsSpace(s[k])
    decreases |s|
  {
    if s != [] && IsSpace(s[0]) {
      TrimLeftDrops(s[1..]);
      assert s[1..][|s| - 1 - |TrimLeft(s)|..] == s[|s| - |TrimLeft(s)|..];
      forall k | 1 <= k < |s| - |TrimLeft(s)|
        ensures IsSpace(s[k])
      {
        assert s[k] == s[1..][k - 1];
      }
    }
  }

  /**
   * `rstrip` removes exactly the trailing whitespace: its result is a prefix
   * of `s` that does not end in whitespace, and all it dropped is whitespace.
   */
  lemma {:induction false} TrimRightDrops(s: string)
    ensures TrimRight(s) <= s
    ensures TrimRight(s) == [] || !IsSpace(TrimRight(s)[|TrimRight(s)| - 1])
    ensures forall k :: |TrimRight(s)| <= k < |s| ==> IsSpace(s[k])
    decreases |s|
  {
    if s != [] && IsSpace(s[|s| - 1]) {
      TrimRightDrops(s[..|s| - 1]);
    }
  }

  /**
   * `strip` keeps the middle of `s`: a slice of `s` with no whitespace at
   * either end and only whitespace before and after it.
   */
  lemma StripSlice(s: string)
    ensures Strip(s) == [] || (!IsSpace(Strip(s)[0]) && !IsSpace(Strip(s)[|Strip(s)| - 1]))
    ensures exists i, j ::
      (&& 0 <= i <= j <= |s| && Strip(s) == s[i..j]
       && (forall k :: 0 <= k < i ==> IsSpace(s[k]))
       && (forall k :: j <= k < |s| ==> IsSpace(s[k])))
  {
    var t := TrimLeft(s);
    var u := TrimRight(t);
    TrimLeftDrops(s);
    TrimRightDrops(t);
    var i := |s| - |t|;
    var j := i + |u|;
    SliceOfSuffix(s, t, u, i);
    assert Strip(s) == u;
    forall k | j <= k < |s|
      ensures IsSpace(s[k])
    {
      assert s[k] == t[k - i];
    }
  }

  /** A prefix of a suffix of `s` is a slice of `s`. */
  lemma SliceOfSuffix(s: string, t: string, u: string, i: nat)
    requires i <= |s| && t == s[i..] && u <= t
    ensures s[i..i + |u|] == u
  {
  }

  /** A string without whitespace at either end is its own strip. */
  lemma StripUntrimmed(s: string)
    requires s == [] || (!IsSpace(s[0]) && !IsSpace(s[|s| - 1]))
    ensures Strip(s) == s
  {
  }

  /** Python's `s.split(sep)` for a one-character separator. */
  function SplitOn(s: string, sep: char): (parts: seq<string>)
    ensures |parts| >= 1
    ensures forall i :: 0 <= i < |parts| ==> sep !in parts[i]
  {
    if s == [] then [[]]
    else
      var rest := SplitOn(s[1..], sep);
      if s[0] == sep then [[]] + rest
      else [[s[0]] + rest[0]] + rest[1..]
  }

  /** Python's `sep.join(parts)` for a one-character separator. */
  function JoinWith(parts: seq<string>, sep: char): string
    requires |parts| >= 1
  {
    if |parts| == 1 then parts[0] else parts[0] + [sep] + JoinWith(parts[1..], sep)
  }

  /** Joining what a split produced gives back the original string. */
  lemma {:induction false} JoinSplit(s: string, sep: char)
    ensures JoinWith(SplitOn(s, sep), sep) == s
  {
    if s != [] {
      var rest := SplitOn(s[1..], sep);
      JoinSplit(s[1..], sep);
      if s[0] == sep {
        assert ([[]] + rest)[1..] == rest;
      } else {
        var parts := [[s[0]] + rest[0]] + rest[1..];
        if |rest| == 1 {
          assert JoinWith(parts, sep) == [s[0]] + rest[0];
        } else {
          assert parts[1..] == rest[1..];
          assert JoinWith(rest, sep) == rest[0] + [sep] + JoinWith(rest[1..], sep);
        }
      }
    }
  }

  /** Splitting a join of separator-free parts gives the parts back. */
  lemma {:induction false} SplitJoin(parts: seq<string>, sep: char)
    requires |parts| >= 1
    requires forall i :: 0 <= i < |parts| ==> sep !in parts[i]
    ensures SplitOn(JoinWith(parts, sep), sep) == parts
    decreases |parts|, |parts[0]|
  {
    var s := JoinWith(parts, sep);
    if parts[0] == [] {
      if |parts| > 1 {
        assert s == [sep] + JoinWith(parts[1..], sep);
        assert s[1..] == JoinWith(parts[1..], sep);
        SplitJoin(parts[1..], sep);
        assert [[]] + parts[1..] == parts;
      }
    } else {
      var c := parts[0][0];
      var parts' := [parts[0][1..]] + parts[1..];
      assert parts'[1..] == parts[1..];
      assert forall i :: 0 <= i < |parts'| ==> sep !in parts'[i] by {
        assert forall x :: x in parts[0][1..] ==> x in parts[0];
      }
      if |parts| == 1 {
        assert s == [c] + JoinWith(parts', sep);
      } else {
        assert s == [c] + (parts[0][1..] + [sep] + JoinWith(parts[1..], sep));
      }
      assert s[1..] == JoinWith(parts', sep);
      SplitJoin(parts', sep);
      assert c != sep;
      assert [c] + parts'[0] == parts[0];
      assert [[c] + parts'[0]] + parts'[1..] == parts;
    }
  }

  /** Joining the first `k` parts gives a prefix of joining them all. */
  lemma {:induction false} JoinPrefix(parts: seq<string>, sep: char, k: nat)
    requires 1 <= k <= |parts|
    ensures JoinWith(parts[..k], sep) <= JoinWith(parts, sep)
  {
    if k < |parts| {
      if k == 1 {
        assert JoinWith(parts[..k], sep) == parts[0];
      } else {
        JoinPrefix(parts[1..], sep, k - 1);
        assert parts[..k][1..] == parts[1..][..k - 1];
      }
    } else {
      assert parts[..k] == parts;
    }
  }

  /** `os.path.basename` (POSIX): what follows the last `/`. */
  function Basename(p: string): (r: string)
    ensures '/' !in r
    ensures EndsWith(p, r)
  {
    if p == [] || p[|p| - 1] == '/' then []
    else
      var r := Basename(p[..|p| - 1]);
      assert p[..|p| - 1][|p| - 1 - |r|..] == p[|p| - 1 - |r|..|p| - 1];
      r + [p[|p| - 1]]
  }

  /** The basename of a path ending in `/name` is `name`, when `name` has no `/`. */
  lemma {:induction false} BasenameOfJoin(dir: string, name: string)
    requires '/' !in name
    ensures Basename(dir + "/" + name) == name
    decreases |name|
  {
    if name == [] {
      BasenameSnoc(dir, '/');
    } else {
      var front, c := name[..|name| - 1], name[|name| - 1];
      assert c in name;
      BasenameOfJoin(dir, front);
      BasenameSnoc(dir + "/" + front, c);
      assert dir + "/" + front + [c] == dir + "/" + name;
      assert front + [c] == name;
    }
  }

  /**
   * The basename is everything after the last `/`: when it is shorter than
   * the path, the character just before it is a `/`.
   */
  lemma {:induction false} BasenameAfterLastSlash(p: string)
    ensures '/' !in Basename(p) && EndsWith(p, Basename(p))
    ensures |Basename(p)| < |p| ==> p[|p| - |Basename(p)| - 1] == '/'
    decreases |p|
  {
    if p != [] && p[|p| - 1] != '/' {
      var q := p[..|p| - 1];
      BasenameAfterLastSlash(q);
      assert Basename(p) == Basename(q) + [p[|p| - 1]];
      if |Basename(p)| < |p| {
        assert p[|p| - |Basename(p)| - 1] == q[|q| - |Basename(q)| - 1];
      }
    }
  }

  /** The basename grows with every character appended after the last `/`, and restarts after a `/`. */
  lemma BasenameSnoc(p: string, c: char)
    ensures Basename(p + [c]) == if c == '/' then [] else Basename(p) + [c]
  {
    var q := p + [c];
    assert q[|q| - 1] == c;
    assert q[..|q| - 1] == p;
  }

  /** `a` is `b` with some elements left out, the rest in their original order. */
  predicate Sublist<T(==)>(a: seq<T>, b: seq<T>)
    decreases |b|
  {
    if b == [] then a == []
    else (a != [] && a[|a| - 1] == b[|b| - 1] && Sublist(a[..|a| - 1], b[..|b| - 1]))
         || Sublist(a, b[..|b| - 1])
  }

  /** Every element of a sublist is an element of the list it came from. */
  lemma {:induction false} SublistMembers<T>(a: seq<T>, b: seq<T>, x: T)
    requires Sublist(a, b)
    requires x in a
    ensures x in b
    decreases |b|
  {
    if b != [] {
      if a != [] && a[|a| - 1] == b[|b| - 1] && Sublist(a[..|a| - 1], b[..|b| - 1]) {
        if x != a[|a| - 1] {
          assert a == a[..|a| - 1] + [a[|a| - 1]];
          SublistMembers(a[..|a| - 1], b[..|b| - 1], x);
        }
      } else {
        SublistMembers(a, b[..|b| - 1], x);
      }
      assert b == b[..|b| - 1] + [b[|b| - 1]];
    }
  }

  /** A sublist of a sublist is a sublist. */
  lemma {:induction false} SublistTrans<T>(a: seq<T>, b: seq<T>, c: seq<T>)
    requires Sublist(a, b) && Sublist(b, c)
    ensures Sublist(a, c)
    decreases |c|
  {
    if c != [] {
      var c' := c[..|c| - 1];
      if b != [] && b[|b| - 1] == c[|c| - 1] && Sublist(b[..|b| - 1], c') {
        var b' := b[..|b| - 1];
        if a != [] && a[|a| - 1] == b[|b| - 1] && Sublist(a[..|a| - 1], b') {
          SublistTrans(a[..|a| - 1], b', c');
        } else {
          SublistTrans(a, b', c');
        }
      } else {
        SublistTrans(a, b, c');
      }
    }
  }
}
