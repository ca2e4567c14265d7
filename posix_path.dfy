/**
 * The `os.path` functions the output-name code uses, with POSIX semantics
 * (`posixpath`): `basename`, `dirname`, `splitext` and two-argument `join`.
 */
module PosixPath {
  import opened PyString

  const Sep := '/'
  const ExtSep := '.'

  predicate AllSlashes(s: string) {
    forall i | 0 <= i < |s| :: s[i] == Sep
  }

  predicate AllDots(s: string) {
    forall i | 0 <= i < |s| :: s[i] == ExtSep
  }

  /** `s.rstrip('/')`. */
  function TrimSlashes(s: string): (r: string)
    ensures |r| <= |s| && r == s[..|r|] && AllSlashes(s[|r|..])
    ensures r == [] || r[|r| - 1] != Sep
  {
    if s != [] && s[|s| - 1] == Sep then
      var r := TrimSlashes(s[..|s| - 1]);
      assert s[|r|..] == s[..|s| - 1][|r|..] + [Sep];
      r
    else s
  }

  /** `basename(p)`: what follows the last separator. */
  function Basename(p: string): (r: string)
    ensures Sep !in r
    ensures |r| <= |p| && r == p[|p| - |r|..]
    ensures |r| == |p| || p[|p| - |r| - 1] == Sep
  {
    p[RFind(p, Sep) + 1..]
  }

  /**
   * `dirname(p)`: everything up to the last separator, with trailing
   * separators dropped unless the head is made of separators only.
   */
  function Dirname(p: string): (r: string)
    ensures r == [] || AllSlashes(r) || r[|r| - 1] != Sep
  {
    var head := p[..RFind(p, Sep) + 1];
    if head != [] && !AllSlashes(head) then TrimSlashes(head) else head
  }

  /**
   * `splitext(p)`: the extension is the text from the last dot on, provided
   * that dot lies after the last separator and is not one of the leading
   * dots of the final component; otherwise the extension is empty.
   */
  function SplitExt(p: string): (r: (string, string))
    ensures r.0 + r.1 == p
    ensures r.1 == [] || (r.1[0] == ExtSep && ExtSep !in r.1[1..] && Sep !in r.1)
  {
    var sepIndex := RFind(p, Sep);
    var dotIndex := RFind(p, ExtSep);
    if dotIndex > sepIndex && !AllDots(p[sepIndex + 1..dotIndex]) then
      assert p[..dotIndex] + p[dotIndex..] == p;
      assert p[dotIndex + 1..] == p[dotIndex..][1..];
      (p[..dotIndex], p[dotIndex..])
    else
      assert p + [] == p;
      (p, [])
  }

  /** `join(a, b)`: an absolute b replaces a; otherwise b follows a, with one separator unless a is empty or ends in one. */
  function Join(a: string, b: string): (r: string)
    ensures |b| <= |r| && r[|r| - |b|..] == b
    ensures b != [] && b[0] == Sep ==> r == b
    ensures b == [] || b[0] != Sep ==>
      |a| <= |r| - |b| <= |a| + 1 && r[..|a|] == a && AllSlashes(r[|a|..|r| - |b|])
      && (|r| - |b| == |a| <==> a == [] || a[|a| - 1] == Sep)
    ensures b == [] || b[0] != Sep ==> a == [] || r[|r| - |b| - 1] == Sep
  {
    if b != [] && b[0] == Sep then b
    else if a == [] || a[|a| - 1] == Sep then a + b
    else a + [Sep] + b
  }

  /** What `dirname` can return: empty, separators only, or text not ending in a separator. */
  predicate DirShape(d: string) {
    d == [] || AllSlashes(d) || d[|d| - 1] != Sep
  }

  /** An occurrence of c with no c after it is the last one. */
  lemma RFindUnique(s: string, c: char, i: nat)
    requires i < |s| && s[i] == c && c !in s[i + 1..]
    ensures RFind(s, c) == i
  {
  }

  /** The last occurrence of c in x + y lies in y when y has one. */
  lemma {:induction false} RFindAppendIn(x: string, y: string, c: char)
    requires c in y
    ensures RFind(x + y, c) == |x| + RFind(y, c)
    decreases |y|
  {
    var s := x + y;
    var y' := y[..|y| - 1];
    assert s[|s| - 1] == y[|y| - 1];
    if y[|y| - 1] != c {
      assert s[..|s| - 1] == x + y';
      assert c in y' by {
        var k :| 0 <= k < |y| && y[k] == c;
        assert y'[k] == c;
      }
      RFindAppendIn(x, y', c);
    }
  }

  /** The last occurrence of c in x + y lies in x when y has none. */
  lemma RFindAppendOut(x: string, y: string, c: char)
    requires c !in y
    ensures RFind(x + y, c) == RFind(x, c)
  {
    var i := RFind(x, c);
    if i >= 0 {
      assert (x + y)[i + 1..] == x[i + 1..] + y;
      RFindUnique(x + y, c, i);
    } else {
      assert c !in x + y;
    }
  }

  /** Joining a directory with a separator-free name: the name is the basename. */
  lemma BasenameJoin(d: string, name: string)
    requires Sep !in name
    ensures Basename(Join(d, name)) == name
  {
    var r := Join(d, name);
    if d == [] {
      assert r == name;
    } else {
      var prefix := if d[|d| - 1] == Sep then d else d + [Sep];
      assert r == prefix + name;
      assert Sep in prefix[|prefix| - 1..];
      RFindAppendOut(prefix, name, Sep);
      assert RFind(prefix, Sep) == |prefix| - 1;
      assert r[|prefix|..] == name;
    }
  }

  /** Joining a directory `dirname` could return with a separator-free name: `dirname` gives the directory back. */
  lemma DirnameJoin(d: string, name: string)
    requires DirShape(d) && Sep !in name
    ensures Dirname(Join(d, name)) == d
  {
    var r := Join(d, name);
    if d == [] {
      assert r == name;
      assert RFind(r, Sep) == -1;
      assert r[..0] == [];
    } else if d[|d| - 1] == Sep {
      assert r == d + name;
      RFindAppendOut(d, name, Sep);
      assert RFind(d, Sep) == |d| - 1;
      assert r[..|d|] == d;
    } else {
      var prefix := d + [Sep];
      assert r == prefix + name;
      RFindAppendOut(prefix, name, Sep);
      assert RFind(prefix, Sep) == |d|;
      var head := r[..|d| + 1];
      assert head == prefix;
      assert !AllSlashes(head) by { assert head[|d| - 1] != Sep; }
      TrimSlashesOnce(d);
    }
  }

  /** Dropping the trailing separators of text plus one separator gives the text back when it does not end in one. */
  lemma TrimSlashesOnce(d: string)
    requires d != [] && d[|d| - 1] != Sep
    ensures TrimSlashes(d + [Sep]) == d
  {
    assert (d + [Sep])[..|d|] == d;
  }

  /** Text made of three separator-free parts has no separator. */
  lemma NoSepConcat(a: string, b: string, c: string)
    requires Sep !in a && Sep !in b && Sep !in c
    ensures Sep !in a + b + c
  {
  }

  /**
   * Inserting text without dots or separators just before the extension
   * keeps the extension and lengthens the stem.
   */
  lemma SplitExtInsert(b: string, t: string)
    requires Sep !in b && Sep !in t && ExtSep !in t
    requires t != []
    ensures var (stem, ext) := SplitExt(b);
      SplitExt(stem + t + ext) == (stem + t, ext)
  {
    var (stem, ext) := SplitExt(b);
    assert Sep !in stem by {
      assert forall k | 0 <= k < |stem| :: stem[k] == b[k];
    }
    NoSepConcat(stem, t, ext);
    if ext != [] {
      SplitExtInsertWithExt(stem, t, ext);
    } else {
      assert stem == b;
      SplitExtInsertNoExt(b, t);
    }
  }

  /**
   * A name whose last dot has some character other than a dot before it:
   * the extension is that dot and what follows it.
   */
  lemma SplitExtFindsExt(x: string, e: string)
    requires Sep !in x && Sep !in e && ExtSep !in e
    requires !AllDots(x)
    ensures SplitExt(x + [ExtSep] + e) == (x, [ExtSep] + e)
  {
    var q := x + [ExtSep] + e;
    NoSepConcat(x, [ExtSep], e);
    assert q[|x| + 1..] == e;
    RFindUnique(q, ExtSep, |x|);
    assert q[0..|x|] == x;
    assert q[..|x|] == x && q[|x|..] == [ExtSep] + e;
  }

  /**
   * A name whose last dot has only dots before it, such as `.cshrc` or
   * `..rc`, has no extension.
   */
  lemma SplitExtLeadingDots(x: string, e: string)
    requires Sep !in x && Sep !in e && ExtSep !in e
    requires AllDots(x)
    ensures SplitExt(x + [ExtSep] + e) == (x + [ExtSep] + e, [])
  {
    var q := x + [ExtSep] + e;
    NoSepConcat(x, [ExtSep], e);
    assert q[|x| + 1..] == e;
    RFindUnique(q, ExtSep, |x|);
    assert q[0..|x|] == x;
  }

  lemma SplitExtInsertWithExt(stem: string, t: string, ext: string)
    requires Sep !in stem + t + ext && ExtSep !in t && t != []
    requires ext != [] && ext[0] == ExtSep && ExtSep !in ext[1..]
    ensures SplitExt(stem + t + ext) == (stem + t, ext)
  {
    var q := stem + t + ext;
    var d := |stem| + |t|;
    assert RFind(q, Sep) == -1;
    assert q == (stem + t) + ext;
    RFindUnique(ext, ExtSep, 0);
    RFindAppendIn(stem + t, ext, ExtSep);
    assert RFind(q, ExtSep) == d;
    assert q[0..d][|stem|] == t[0];
    assert q[..d] == stem + t && q[d..] == ext;
  }

  lemma SplitExtInsertNoExt(b: string, t: string)
    requires Sep !in b + t && ExtSep !in t
    requires SplitExt(b).1 == []
    ensures SplitExt(b + t) == (b + t, [])
  {
    var q := b + t;
    assert RFind(q, Sep) == -1;
    assert RFind(b, Sep) == -1 by {
      assert forall k | 0 <= k < |b| :: b[k] == q[k];
    }
    RFindAppendOut(b, t, ExtSep);
    var dot := RFind(b, ExtSep);
    if dot >= 0 {
      assert q[0..dot] == b[0..dot];
    }
  }
}
