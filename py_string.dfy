/**
 * The Python `str` operations the scripts rely on: `c in s`, `find`,
 * `rfind`, substring `in`, `replace` and `strip`.
 */
module PyString {

  /** `str.find(c)`: the first index of c, or -1. */
  function Find(s: string, c: char): (i: int)
    ensures -1 <= i < |s|
    ensures i == -1 <==> c !in s
    ensures 0 <= i ==> s[i] == c && c !in s[..i]
  {
    if s == [] then -1
    else if s[0] == c then 0
    else
      var j := Find(s[1..], c);
      if j == -1 then -1
      else
        assert s[..j + 1] == [s[0]] + s[1..][..j];
        j + 1
  }

  /** `str.rfind(c)`: the last index of c, or -1. */
  function RFind(s: string, c: char): (i: int)
    ensures -1 <= i < |s|
    ensures i == -1 <==> c !in s
    ensures 0 <= i ==> s[i] == c && c !in s[i + 1..]
  {
    if s == [] then -1
    else if s[|s| - 1] == c then |s| - 1
    else
      var j := RFind(s[..|s| - 1], c);
      assert s == s[..|s| - 1] + [s[|s| - 1]];
      assert j >= 0 ==> s[j + 1..] == s[..|s| - 1][j + 1..] + [s[|s| - 1]];
      j
  }

  predicate OccursAt(s: string, pat: string, i: nat) {
    i + |pat| <= |s| && s[i..i + |pat|] == pat
  }

  /** Two strings occurring one right after the other form an occurrence of their concatenation. */
  lemma OccursConcat(s: string, x: string, y: string, i: nat)
    requires OccursAt(s, x, i) && OccursAt(s, y, i + |x|)
    ensures OccursAt(s, x + y, i)
  {
    assert s[i..i + |x + y|] == s[i..i + |x|] + s[i + |x|..i + |x| + |y|];
  }

  /** Text, a character and more text occurring one after another form one occurrence. */
  lemma OccursAround(s: string, x: string, c: char, y: string, i: nat)
    requires OccursAt(s, x, i) && i + |x| < |s| && s[i + |x|] == c && OccursAt(s, y, i + |x| + 1)
    ensures OccursAt(s, x + [c] + y, i)
  {
    var j := i + |x|;
    assert s[i..j + 1 + |y|] == s[i..j] + [s[j]] + s[j + 1..j + 1 + |y|];
  }

  /** `pat in s` for strings: pat occurs somewhere in s. */
  function Contains(s: string, pat: string): (b: bool)
    ensures b <==> exists i: nat :: OccursAt(s, pat, i)
    decreases |s|
  {
    if |s| < |pat| then false
    else if s[..|pat|] == pat then
      assert OccursAt(s, pat, 0);
      true
    else
      var b := Contains(s[1..], pat);
      assert forall i: nat :: OccursAt(s[1..], pat, i) <==> OccursAt(s, pat, i + 1) by {
        forall i: nat ensures OccursAt(s[1..], pat, i) <==> OccursAt(s, pat, i + 1) {
          if i + |pat| <= |s[1..]| { assert s[1..][i..i + |pat|] == s[i + 1..i + 1 + |pat|]; }
        }
      }
      assert b <== exists i: nat :: OccursAt(s, pat, i) by {
        if i: nat :| OccursAt(s, pat, i) {
          assert i != 0;
          assert OccursAt(s[1..], pat, i - 1);
        }
      }
      b
  }

  /** `s.replace(pat, rep)`: every occurrence of pat, scanned left to right without overlap, becomes rep. */
  function Replace(s: string, pat: string, rep: string): string
    requires pat != []
    decreases |s|
  {
    if |s| < |pat| then s
    else if s[..|pat|] == pat then rep + Replace(s[|pat|..], pat, rep)
    else [s[0]] + Replace(s[1..], pat, rep)
  }

  /** Text in which the pattern cannot start is left alone, and what follows it is replaced as usual. */
  lemma {:induction false} ReplaceAfterLiteral(a: string, x: string, pat: string, rep: string)
    requires pat != [] && pat[0] !in a
    ensures Replace(a + x, pat, rep) == a + Replace(x, pat, rep)
    decreases |a|
  {
    if a != [] {
      var s := a + x;
      assert s[1..] == a[1..] + x;
      ReplaceAfterLiteral(a[1..], x, pat, rep);
      if |s| >= |pat| {
        assert s[..|pat|][0] == a[0];
        assert Replace(s, pat, rep) == [a[0]] + Replace(s[1..], pat, rep);
        assert [a[0]] + (a[1..] + Replace(x, pat, rep)) == a + Replace(x, pat, rep);
      } else {
        assert Replace(x, pat, rep) == x;
      }
    } else {
      assert a + x == x;
    }
  }

  /** An occurrence of the pattern at the front is replaced, and the scan resumes after it. */
  lemma ReplaceAtFront(x: string, pat: string, rep: string)
    requires pat != []
    ensures Replace(pat + x, pat, rep) == rep + Replace(x, pat, rep)
  {
    var s := pat + x;
    assert s[..|pat|] == pat && s[|pat|..] == x;
  }

  /** A word that does not begin with the pattern, and in which the pattern cannot start later, is left alone. */
  lemma ReplacePassesWord(w: string, x: string, pat: string, rep: string)
    requires pat != [] && |w| >= |pat| && w[..|pat|] != pat && pat[0] !in w[1..]
    ensures Replace(w + x, pat, rep) == w + Replace(x, pat, rep)
  {
    var s := w + x;
    assert s[..|pat|] == w[..|pat|];
    assert Replace(s, pat, rep) == [w[0]] + Replace(s[1..], pat, rep);
    assert s[1..] == w[1..] + x;
    ReplaceAfterLiteral(w[1..], x, pat, rep);
    Regroup(w, Replace(x, pat, rep));
  }

  lemma Regroup(w: string, t: string)
    requires w != []
    ensures [w[0]] + (w[1..] + t) == w + t
  {
    assert w == [w[0]] + w[1..];
  }

  /**
   * A character that does not occur in the pattern splits the text: no
   * occurrence can span it, so the two sides are replaced separately.
   */
  lemma {:induction false} ReplaceAroundBarrier(f: string, q: char, y: string, pat: string, rep: string)
    requires pat != [] && q !in pat
    ensures Replace(f + [q] + y, pat, rep) == Replace(f, pat, rep) + [q] + Replace(y, pat, rep)
    decreases |f|
  {
    var s := f + [q] + y;
    if f == [] {
      assert s == [q] + y;
      ReplaceAfterLiteral([q], y, pat, rep);
    } else if |s| < |pat| {
      assert Replace(f, pat, rep) == f && Replace(y, pat, rep) == y;
    } else if s[..|pat|] == pat {
      BarrierAfterMatch(f, q, y, pat);
      ReplaceAroundBarrier(f[|pat|..], q, y, pat, rep);
      BarrierMatchStep(f, q, y, pat, rep);
    } else {
      ReplaceAroundBarrier(f[1..], q, y, pat, rep);
      BarrierPassStep(f, q, y, pat, rep);
    }
  }

  /** An occurrence at the front of f + [q] + y lies wholly in f. */
  lemma BarrierAfterMatch(f: string, q: char, y: string, pat: string)
    requires pat != [] && q !in pat
    requires |f + [q] + y| >= |pat| && (f + [q] + y)[..|pat|] == pat
    ensures |pat| <= |f| && f[..|pat|] == pat
  {
    var s := f + [q] + y;
    if |f| < |pat| {
      BarrierInPattern(f, q, y, pat);
    }
    assert f[..|pat|] == s[..|pat|];
  }

  lemma BarrierInPattern(f: string, q: char, y: string, pat: string)
    requires |f| < |pat| <= |f + [q] + y| && (f + [q] + y)[..|pat|] == pat
    ensures q in pat
  {
    var s := f + [q] + y;
    assert s[|f|] == q;
    assert pat[|f|] == s[..|pat|][|f|];
  }

  lemma BarrierMatchStep(f: string, q: char, y: string, pat: string, rep: string)
    requires pat != [] && |pat| <= |f| && f[..|pat|] == pat
    requires Replace(f[|pat|..] + [q] + y, pat, rep) == Replace(f[|pat|..], pat, rep) + [q] + Replace(y, pat, rep)
    ensures Replace(f + [q] + y, pat, rep) == Replace(f, pat, rep) + [q] + Replace(y, pat, rep)
  {
    var s := f + [q] + y;
    assert s[..|pat|] == pat;
    assert s[|pat|..] == f[|pat|..] + [q] + y;
  }

  lemma BarrierPassStep(f: string, q: char, y: string, pat: string, rep: string)
    requires pat != [] && f != []
    requires |f + [q] + y| >= |pat| && (f + [q] + y)[..|pat|] != pat
    requires Replace(f[1..] + [q] + y, pat, rep) == Replace(f[1..], pat, rep) + [q] + Replace(y, pat, rep)
    ensures Replace(f + [q] + y, pat, rep) == Replace(f, pat, rep) + [q] + Replace(y, pat, rep)
  {
    var s := f + [q] + y;
    assert s[1..] == f[1..] + [q] + y && s[0] == f[0];
    ReplaceHead(s, pat, rep);
    if |f| >= |pat| {
      assert f[..|pat|] == s[..|pat|];
    }
    ReplaceHead(f, pat, rep);
    ConsShift(f[0], Replace(f[1..], pat, rep), [q], Replace(y, pat, rep), Replace(s, pat, rep), Replace(f, pat, rep));
  }

  /** Regrouping after a common first character. */
  lemma ConsShift<T>(c: T, h: seq<T>, m: seq<T>, t: seq<T>, a: seq<T>, b: seq<T>)
    requires a == [c] + (h + m + t) && b == [c] + h
    ensures a == b + m + t
  {
  }

  /** Where no occurrence starts at the front, the first character is kept and the scan moves on. */
  lemma ReplaceHead(f: string, pat: string, rep: string)
    requires pat != [] && f != [] && (|f| < |pat| || f[..|pat|] != pat)
    ensures Replace(f, pat, rep) == [f[0]] + Replace(f[1..], pat, rep)
  {
    if |f| < |pat| {
      assert Replace(f[1..], pat, rep) == f[1..];
      assert f == [f[0]] + f[1..];
    }
  }

  /** Text in which the pattern cannot start is returned unchanged. */
  lemma ReplaceLiteral(a: string, pat: string, rep: string)
    requires pat != [] && pat[0] !in a
    ensures Replace(a, pat, rep) == a
  {
    ReplaceAfterLiteral(a, [], pat, rep);
    assert a + [] == a;
  }

  /** The characters Python's `str.isspace` accepts. */
  predicate IsSpace(c: char) {
    '\t' <= c <= '\r' || '\U{1c}' <= c <= ' ' || c == '\U{85}' || c == '\U{a0}' || c == '\U{1680}'
    || '\U{2000}' <= c <= '\U{200a}' || c == '\U{2028}' || c == '\U{2029}' || c == '\U{202f}'
    || c == '\U{205f}' || c == '\U{3000}'
  }

  /** Every character of s from lo up to hi is whitespace. */
  predicate SpacesIn(s: string, lo: nat, hi: nat)
    requires lo <= hi <= |s|
  {
    forall k | lo <= k < hi :: IsSpace(s[k])
  }

  /** The number of whitespace characters from i on: what `lstrip` drops at i. */
  function LeadingSpaces(s: string, i: nat): (n: nat)
    requires i <= |s|
    ensures i + n <= |s| && SpacesIn(s, i, i + n)
    ensures i + n == |s| || !IsSpace(s[i + n])
    decreases |s| - i
  {
    if i < |s| && IsSpace(s[i]) then 1 + LeadingSpaces(s, i + 1) else 0
  }

  /** The number of whitespace characters just before j: what `rstrip` drops of s[..j]. */
  function TrailingSpaces(s: string, j: nat): (n: nat)
    requires j <= |s|
    ensures n <= j && SpacesIn(s, j - n, j)
    ensures n == j || !IsSpace(s[j - n - 1])
  {
    if j > 0 && IsSpace(s[j - 1]) then 1 + TrailingSpaces(s, j - 1) else 0
  }

  /** `s.strip()`: the text between the leading and the trailing whitespace. */
  function Strip(s: string): (r: string)
    ensures exists i: nat, j: nat :: i <= j <= |s| && r == s[i..j] && SpacesIn(s, 0, i) && SpacesIn(s, j, |s|)
    ensures r == [] || (!IsSpace(r[0]) && !IsSpace(r[|r| - 1]))
  {
    var i := LeadingSpaces(s, 0);
    var j := |s| - TrailingSpaces(s, |s|);
    if i == |s| then
      assert SpacesIn(s, i, |s|);
      s[i..i]
    else
      assert !IsSpace(s[i]);
      assert i < j;
      s[i..j]
  }

  /** Text with no whitespace at either end is its own strip. */
  lemma StripUnpadded(s: string)
    requires s != [] && !IsSpace(s[0]) && !IsSpace(s[|s| - 1])
    ensures Strip(s) == s
  {
    assert s[0..|s|] == s;
  }
}
