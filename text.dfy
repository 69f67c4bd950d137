/**
 * The handful of Python `str` operations the crawler relies on, over Dafny
 * strings: prefix tests, `replace`, `strip`, and an ASCII `lower`.
 */
module Text {

  /** Growing the front part of a split by one element. */
  lemma AppendSnoc<T>(a: seq<T>, b: seq<T>)
    requires b != []
    ensures (a + b[..|b| - 1]) + [b[|b| - 1]] == a + b
    ensures b[..|b| - 1] + [b[|b| - 1]] == b
  {
  }

  /** A prefix one longer is the prefix with the next element appended. */
  lemma TakeSnoc<T>(s: seq<T>, i: int)
    requires 0 <= i < |s|
    ensures s[..i + 1] == s[..i] + [s[i]]
  {
  }

  predicate StartsWith(s: string, prefix: string)
  {
    |prefix| <= |s| && s[..|prefix|] == prefix
  }

  /** `p` occurs in `s` at offset `i`. */
  predicate OccursAt(s: string, p: string, i: int)
  {
    0 <= i && i + |p| <= |s| && s[i..i + |p|] == p
  }

  /** Python's `p in s` for strings. */
  ghost predicate Contains(s: string, p: string)
  {
    exists i :: OccursAt(s, p, i)
  }

  /**
   * Python's `s.replace(pat, rep)`: scan left to right, replace each
   * leftmost occurrence of `pat` and resume after it, so occurrences never
   * overlap.
   */
  function Replace(s: string, pat: string, rep: string): (r: string)
    requires |pat| > 0
    ensures |rep| <= |pat| ==> |r| <= |s|
    decreases |s|
  {
    if |s| < |pat| then s
    else if s[..|pat|] == pat then rep + Replace(s[|pat|..], pat, rep)
    else [s[0]] + Replace(s[1..], pat, rep)
  }

  /** Replacing introduces no character beyond those of the replacement. */
  lemma {:induction false} ReplaceChars(s: string, pat: string, rep: string)
    requires |pat| > 0
    ensures forall c :: c in Replace(s, pat, rep) ==> c in s || c in rep
    decreases |s|
  {
    if |s| < |pat| {
    } else if s[..|pat|] == pat {
      ReplaceChars(s[|pat|..], pat, rep);
      forall c | c in s[|pat|..] ensures c in s { }
    } else {
      ReplaceChars(s[1..], pat, rep);
      forall c | c in s[1..] ensures c in s { }
    }
  }

  lemma NoSharedChar(a: string, b: string, i: int, j: int)
    requires forall c :: c in a ==> c !in b
    requires 0 <= i < |a| && 0 <= j < |b|
    ensures a[i] != b[j]
  {
    assert a[i] in a;
  }

  lemma PrefixFromHead(s: string, p: string)
    requires |s| > 0 && |p| > 0 && s[0] == p[0]
    requires StartsWith(s[1..], p[1..])
    ensures StartsWith(s, p)
  {
    calc {
      s[..|p|];
      [s[0]] + s[1..][..|p| - 1];
      [p[0]] + p[1..];
      p;
    }
  }

  lemma OccursShift(r: string, a: string, t: string, p: string, i: int)
    requires r == a + t && OccursAt(r, p, i) && i >= |a|
    ensures OccursAt(t, p, i - |a|)
  {
    assert r[i..i + |p|] == t[i - |a|..i - |a| + |p|];
  }

  /** A prefix made of characters foreign to `rep` was in the input already. */
  lemma {:induction false} ReplaceKeepsForeignPrefix(u: string, pat: string, rep: string, q: string)
    requires |pat| > 0 && |rep| > 0
    requires forall c :: c in q ==> c !in rep
    requires StartsWith(Replace(u, pat, rep), q)
    ensures StartsWith(u, q)
    decreases |u|
  {
    if |u| < |pat| || q == [] {
    } else if u[..|pat|] == pat {
      NoSharedChar(q, rep, 0, 0);
      assert false;
    } else {
      var t := Replace(u[1..], pat, rep);
      assert Replace(u, pat, rep) == [u[0]] + t;
      assert q[0] == u[0];
      assert StartsWith(t, q[1..]) by {
        assert t[..|q| - 1] == Replace(u, pat, rep)[1..|q|];
      }
      ReplaceKeepsForeignPrefix(u[1..], pat, rep, q[1..]);
      PrefixFromHead(u, q);
    }
  }

  /**
   * When the replacement shares no character with the pattern, no
   * occurrence of the pattern survives the replacement.
   */
  lemma {:induction false} ReplaceRemovesPattern(s: string, pat: string, rep: string)
    requires |pat| > 0 && |rep| > 0
    requires forall c :: c in rep ==> c !in pat
    ensures !Contains(Replace(s, pat, rep), pat)
    decreases |s|
  {
    var r := Replace(s, pat, rep);
    if |s| < |pat| {
    } else if s[..|pat|] == pat {
      var t := Replace(s[|pat|..], pat, rep);
      assert r == rep + t;
      ReplaceRemovesPattern(s[|pat|..], pat, rep);
      forall i | OccursAt(r, pat, i) ensures false {
        if i < |rep| {
          NoSharedChar(rep, pat, i, 0);
          assert false;
        } else {
          OccursShift(r, rep, t, pat, i);
          assert false;
        }
      }
    } else {
      var t := Replace(s[1..], pat, rep);
      assert r == [s[0]] + t;
      ReplaceRemovesPattern(s[1..], pat, rep);
      forall i | OccursAt(r, pat, i) ensures false {
        if i == 0 {
          assert pat[0] == r[0] == s[0];
          assert StartsWith(t, pat[1..]) by {
            assert t[..|pat| - 1] == r[1..|pat|];
          }
          ReplaceKeepsForeignPrefix(s[1..], pat, rep, pat[1..]);
          PrefixFromHead(s, pat);
          assert false;
        } else {
          OccursShift(r, [s[0]], t, pat, i);
          assert false;
        }
      }
    }
  }

  /** Replacing a one-character pattern removes that character outright. */
  lemma {:induction false} ReplaceRemovesChar(s: string, c: char, rep: string)
    requires c !in rep
    ensures c !in Replace(s, [c], rep)
    decreases |s|
  {
    if |s| >= 1 {
      ReplaceRemovesChar(s[1..], c, rep);
      if s[..1] == [c] {
        assert Replace(s, [c], rep) == rep + Replace(s[1..], [c], rep);
      } else {
        assert Replace(s, [c], rep) == [s[0]] + Replace(s[1..], [c], rep);
      }
    }
  }

  /** A pattern holding a character the input lacks leaves the input unchanged. */
  lemma {:induction false} ReplaceAbsent(s: string, pat: string, rep: string, c: char)
    requires |pat| > 0 && c in pat && c !in s
    ensures Replace(s, pat, rep) == s
    decreases |s|
  {
    if |s| >= |pat| {
      ReplaceAbsent(s[1..], pat, rep, c);
      assert s == [s[0]] + s[1..];
    }
  }

  /** Python's `s.lstrip(chars)`: drops the longest prefix made of characters of `cs`. */
  function StripLeft(s: string, cs: set<char>): (r: string)
    ensures |r| <= |s|
    ensures r == [] || r[0] !in cs
    decreases |s|
  {
    if |s| > 0 && s[0] in cs then StripLeft(s[1..], cs) else s
  }

  /** Python's `s.rstrip(chars)`: drops the longest suffix made of characters of `cs`. */
  function StripRight(s: string, cs: set<char>): (r: string)
    ensures |r| <= |s|
    ensures r == [] || r[|r| - 1] !in cs
    decreases |s|
  {
    if |s| > 0 && s[|s| - 1] in cs then StripRight(s[..|s| - 1], cs) else s
  }

  /** `lstrip` keeps a suffix and drops only characters of `cs`. */
  lemma {:induction false} StripLeftShape(s: string, cs: set<char>)
    ensures StripLeft(s, cs) == s[|s| - |StripLeft(s, cs)|..]
    ensures forall i :: 0 <= i < |s| - |StripLeft(s, cs)| ==> s[i] in cs
    decreases |s|
  {
    if |s| > 0 && s[0] in cs {
      StripLeftShape(s[1..], cs);
      forall i | 0 <= i < |s| - |StripLeft(s, cs)| ensures s[i] in cs {
        if i > 0 {
          assert s[i] == s[1..][i - 1];
        }
      }
    }
  }

  /** `rstrip` keeps a prefix and drops only characters of `cs`. */
  lemma {:induction false} StripRightShape(s: string, cs: set<char>)
    ensures StripRight(s, cs) == s[..|StripRight(s, cs)|]
    ensures forall i :: |StripRight(s, cs)| <= i < |s| ==> s[i] in cs
    decreases |s|
  {
    if |s| > 0 && s[|s| - 1] in cs {
      StripRightShape(s[..|s| - 1], cs);
      forall i | |StripRight(s, cs)| <= i < |s| ensures s[i] in cs {
        if i < |s| - 1 {
          assert s[i] == s[..|s| - 1][i];
        }
      }
    }
  }

  /** Python's `s.strip(chars)`: `rstrip` after `lstrip`. */
  function Strip(s: string, cs: set<char>): (r: string)
    ensures |r| <= |s|
  {
    StripRight(StripLeft(s, cs), cs)
  }

  /** Neither end of the stripped string is in `cs`. */
  lemma StripEndsOutside(s: string, cs: set<char>)
    ensures var r := Strip(s, cs); r == [] || (r[0] !in cs && r[|r| - 1] !in cs)
  {
    StripRightShape(StripLeft(s, cs), cs);
  }

  /** A string whose ends are outside `cs` is left as it is. */
  lemma StripKeepsClean(s: string, cs: set<char>)
    requires s == [] || (s[0] !in cs && s[|s| - 1] !in cs)
    ensures Strip(s, cs) == s
  {
  }

  /** The stripped string is an infix of the original. */
  lemma StripInfix(s: string, cs: set<char>)
    ensures Contains(s, Strip(s, cs))
  {
    var l := StripLeft(s, cs);
    StripLeftShape(s, cs);
    StripRightShape(l, cs);
    assert OccursAt(s, Strip(s, cs), |s| - |l|);
  }

  /** Stripping keeps every character it does not remove from the ends. */
  lemma StripChars(s: string, cs: set<char>)
    ensures forall c :: c in Strip(s, cs) ==> c in s
  {
    var r := Strip(s, cs);
    StripInfix(s, cs);
    var k :| OccursAt(s, r, k);
    forall c | c in r ensures c in s {
      var j :| 0 <= j < |r| && r[j] == c;
      assert s[k + j] == c;
    }
  }

  /** Stripping cannot create an occurrence of a pattern. */
  lemma StripKeepsOut(s: string, cs: set<char>, p: string)
    requires !Contains(s, p)
    ensures !Contains(Strip(s, cs), p)
  {
    var r := Strip(s, cs);
    StripInfix(s, cs);
    var k :| OccursAt(s, r, k);
    forall i | OccursAt(r, p, i) ensures false {
      OccursWithin(s, r, p, k, i);
    }
  }

  /** An occurrence inside an occurrence is an occurrence in the outer string. */
  lemma OccursWithin(s: string, r: string, p: string, k: int, i: int)
    requires OccursAt(s, r, k) && OccursAt(r, p, i)
    ensures OccursAt(s, p, k + i)
  {
    forall j | 0 <= j < |p| ensures s[k + i + j] == p[j] {
      assert p[j] == r[i..i + |p|][j] == r[i + j];
      assert r[i + j] == s[k..k + |r|][i + j];
    }
  }

  /** The characters Python's `str.isspace` accepts, which bare `strip()` removes. */
  const Whitespace: set<char> := {
    '\t', '\n', '\U{0B}', '\U{0C}', '\r', '\U{1C}', '\U{1D}', '\U{1E}', '\U{1F}', ' ',
    '\U{85}', '\U{A0}', '\U{1680}', '\U{2000}', '\U{2001}', '\U{2002}', '\U{2003}',
    '\U{2004}', '\U{2005}', '\U{2006}', '\U{2007}', '\U{2008}', '\U{2009}', '\U{200A}',
    '\U{2028}', '\U{2029}', '\U{202F}', '\U{205F}', '\U{3000}'
  }

  predicate IsAsciiUpper(c: char)
  {
    'A' <= c <= 'Z'
  }

  /** An ASCII capital becomes its lower-case letter, 32 code points on; anything else is kept. */
  function LowerChar(c: char): (r: char)
    ensures !IsAsciiUpper(r)
    ensures IsAsciiUpper(c) ==> r as int == c as int + 32 && 'a' <= r <= 'z'
    ensures !IsAsciiUpper(c) ==> r == c
  {
    if IsAsciiUpper(c) then (c as int - 'A' as int + 'a' as int) as char else c
  }

  /** `str.lower()` restricted to ASCII letters. */
  function Lower(s: string): (r: string)
    ensures |r| == |s|
    ensures forall i :: 0 <= i < |s| ==>
              (IsAsciiUpper(s[i]) ==> r[i] as int == s[i] as int + 32) && (!IsAsciiUpper(s[i]) ==> r[i] == s[i])
    ensures forall i :: 0 <= i < |r| ==> !IsAsciiUpper(r[i])
    ensures (forall c :: c in s ==> !IsAsciiUpper(c)) ==> r == s
  {
    seq(|s|, i requires 0 <= i < |s| => LowerChar(s[i]))
  }
}
