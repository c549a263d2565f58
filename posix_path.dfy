/**
 The three POSIX `os.path` operations that output naming and extension
 routing rely on: `split`, `splitext` and a two-argument `join`. Only the
 POSIX flavour is modelled: the separator is '/', the extension separator
 is '.', and there is no alternative separator or drive letter.
 */
module PosixPath {

  const Sep: char := '/'
  const ExtSep: char := '.'

  /** `s.rfind(c)`: the index of the last occurrence of `c` in `s`, or -1. */
  function RFind(s: string, c: char): (r: int)
    ensures -1 <= r < |s|
    ensures r >= 0 ==> s[r] == c
    ensures forall k :: r < k < |s| ==> s[k] != c
  {
    if s == [] then -1
    else if s[|s| - 1] == c then |s| - 1
    else RFind(s[..|s| - 1], c)
  }

  /** The two conditions in RFind's postcondition determine its result. */
  lemma RFindUnique(s: string, c: char, r: int)
    requires -1 <= r < |s|
    requires r >= 0 ==> s[r] == c
    requires forall k :: r < k < |s| ==> s[k] != c
    ensures RFind(s, c) == r
  {
  }

  /** Searching a suffix of `s` finds the same occurrence, shifted, if it lies in the suffix. */
  lemma RFindSuffix(s: string, c: char, i: nat)
    requires i <= |s|
    ensures RFind(s[i..], c) == if RFind(s, c) >= i then RFind(s, c) - i else -1
  {
    var r := if RFind(s, c) >= i then RFind(s, c) - i else -1;
    assert forall k :: r < k < |s[i..]| ==> s[i..][k] == s[i + k];
    RFindUnique(s[i..], c, r);
  }

  /** Searching `a + b` where `b` has no `c` finds the last `c` of `a`. */
  lemma RFindAppend(a: string, b: string, c: char)
    requires c !in b
    ensures RFind(a + b, c) == RFind(a, c)
  {
    var r := RFind(a, c);
    forall k | r < k < |a + b|
      ensures (a + b)[k] != c
    {
      if k >= |a| {
        assert (a + b)[k] == b[k - |a|];
      }
    }
    RFindUnique(a + b, c, r);
  }

  predicate AllSep(s: string)
  {
    forall k :: 0 <= k < |s| ==> s[k] == Sep
  }

  /** `s.rstrip('/')`. */
  function RStripSep(s: string): (r: string)
    ensures r <= s
    ensures r == [] || r[|r| - 1] != Sep
    ensures AllSep(s[|r|..])
  {
    if s != [] && s[|s| - 1] == Sep then RStripSep(s[..|s| - 1]) else s
  }

  /**
   `os.path.split(p)`: everything up to and including the last '/' is the
   head, the rest the tail; trailing slashes are removed from the head unless
   the head consists of slashes only.
   */
  function Split(p: string): (string, string)
  {
    var i := RFind(p, Sep) + 1;
    var head := p[..i];
    var tail := p[i..];
    if head != [] && !AllSep(head) then (RStripSep(head), tail) else (head, tail)
  }

  /** A string that `Split` can return as a head: empty, all slashes, or not ending in a slash. */
  predicate IsHead(h: string)
  {
    h == [] || AllSep(h) || h[|h| - 1] != Sep
  }

  predicate HasNonDot(p: string, lo: int, hi: int)
    requires 0 <= lo && hi <= |p|
  {
    exists k :: lo <= k < hi && p[k] != ExtSep
  }

  /**
   `os.path.splitext(p)`: the extension is the text from the last '.' on,
   provided that '.' comes after the last '/' and the name before it is not
   made of dots only (so ".bashrc" and "..x" have no extension).
   */
  function SplitExt(p: string): (r: (string, string))
    ensures r.0 + r.1 == p
  {
    var sepIndex := RFind(p, Sep);
    var dotIndex := RFind(p, ExtSep);
    if dotIndex > sepIndex && HasNonDot(p, sepIndex + 1, dotIndex)
    then (p[..dotIndex], p[dotIndex..])
    else (p, [])
  }

  /** `os.path.join(a, b)` for two components. */
  function Join(a: string, b: string): string
  {
    if |b| > 0 && b[0] == Sep then b
    else if a == [] || a[|a| - 1] == Sep then a + b
    else a + [Sep] + b
  }

  /**
   What `Split` returns: the tail is the text after the last '/', and it has
   no '/'; the head is the text up to and including that '/', cut back by
   its trailing slashes (only slashes are cut), unless it is all slashes,
   in which case it is kept whole. So the head is empty, all slashes, or
   does not end in a slash.
   */
  lemma SplitShape(p: string)
    ensures IsHead(Split(p).0)
    ensures Sep !in Split(p).1
    ensures Split(p).1 == p[RFind(p, Sep) + 1..]
    ensures Split(p).0 <= p[..RFind(p, Sep) + 1]
    ensures AllSep(p[|Split(p).0|..RFind(p, Sep) + 1])
    ensures AllSep(Split(p).0) ==> Split(p).0 == p[..RFind(p, Sep) + 1]
  {
    SplitHead(p);
    SplitTail(p);
    SplitHeadText(p);
  }

  /** The head is the text before the tail with its trailing slashes removed,
      unless that text is all slashes. */
  lemma SplitHeadText(p: string)
    ensures Split(p).0 <= p[..RFind(p, Sep) + 1]
    ensures AllSep(p[|Split(p).0|..RFind(p, Sep) + 1])
    ensures AllSep(Split(p).0) ==> Split(p).0 == p[..RFind(p, Sep) + 1]
  {
    var i := RFind(p, Sep) + 1;
    var head := p[..i];
    if head != [] && !AllSep(head) {
      var r := RStripSep(head);
      assert Split(p).0 == r;
      assert p[|r|..i] == head[|r|..];
      assert head[0..] == head;
      assert r != [] && !AllSep(r);
    } else {
      assert Split(p).0 == head;
      assert p[|head|..i] == [];
    }
  }

  lemma SplitHead(p: string)
    ensures IsHead(Split(p).0)
  {
    var head := p[..RFind(p, Sep) + 1];
    if head != [] && !AllSep(head) {
      var r := RStripSep(head);
      assert Split(p).0 == r;
      assert r == [] || r[|r| - 1] != Sep;
    } else {
      assert Split(p).0 == head;
    }
  }

  lemma SplitTail(p: string)
    ensures Split(p).1 == p[RFind(p, Sep) + 1..]
    ensures Sep !in Split(p).1
  {
    var i := RFind(p, Sep) + 1;
    var tail := p[i..];
    assert Split(p).1 == tail;
    forall k | 0 <= k < |tail|
      ensures tail[k] != Sep
    {
      assert tail[k] == p[i + k];
    }
  }

  /** Slashes between a directory and a name are dropped from the head, however many there are. */
  lemma SplitCollapsesSlashes(d: string, s: string, n: string)
    requires d != [] && d[|d| - 1] != Sep
    requires s != [] && AllSep(s)
    requires Sep !in n
    ensures Split(d + s + n) == (d, n)
  {
    var q := d + s;
    var p := q + n;
    RFindUnique(q, Sep, |q| - 1);
    RFindAppend(q, n, Sep);
    assert p[..|q|] == q && p[|q|..] == n;
    SplitShape(p);
    var h := Split(p).0;
    assert forall k :: |h| <= k < |q| ==> q[k] == Sep by {
      forall k | |h| <= k < |q| ensures q[k] == Sep {
        assert q[|h|..][k - |h|] == q[k];
      }
    }
    assert forall k :: |d| <= k < |q| ==> q[k] == Sep;
    assert q[|d| - 1] != Sep;
    assert |h| >= |d|;
    assert h[|d| - 1] != Sep;
    assert h[|h| - 1] != Sep;
    assert |h| == |d|;
    assert h == d;
  }

  /** Joining a name without '/' puts exactly one '/' between a directory and the
      name, unless the directory is empty or already ends in '/'. */
  lemma JoinName(a: string, b: string)
    requires Sep !in b
    ensures Join(a, b) == (if a == [] || a[|a| - 1] == Sep then a else a + [Sep]) + b
  {
    if |b| > 0 {
      assert b[0] in b;
    }
  }

  /**
   `splitext` cuts `p` in two: the root followed by the extension gives `p`
   back, and a non-empty extension is one '.' followed by text with neither
   '.' nor '/'. The extension is non-empty exactly when the last component
   holds a '.' with a non-dot before it: leading dots belong to the root.
   */
  lemma SplitExtShape(p: string)
    ensures SplitExt(p).0 + SplitExt(p).1 == p
    ensures var ext := SplitExt(p).1;
      ext == [] || (ext[0] == ExtSep && ExtSep !in ext[1..] && Sep !in ext)
    ensures var (root, ext) := SplitExt(p);
      ext != [] ==> RFind(p, Sep) < |root| && HasNonDot(p, RFind(p, Sep) + 1, |root|)
    ensures forall d :: RFind(p, Sep) < d < |p| && p[d] == ExtSep && HasNonDot(p, RFind(p, Sep) + 1, d) ==>
      SplitExt(p).1 != []
  {
    hide *;
    ExtensionChars(p);
    ExtensionRoot(p);
    forall d | RFind(p, Sep) < d < |p| && p[d] == ExtSep && HasNonDot(p, RFind(p, Sep) + 1, d)
      ensures SplitExt(p).1 != []
    {
      ExtensionFound(p, d);
    }
  }

  /** A non-empty extension is a '.' followed by neither '.' nor '/'. */
  lemma ExtensionChars(p: string)
    ensures var ext := SplitExt(p).1;
      ext == [] || (ext[0] == ExtSep && ExtSep !in ext[1..] && Sep !in ext)
  {
    var ext := SplitExt(p).1;
    if ext != [] {
      var d := RFind(p, ExtSep);
      assert ext == p[d..];
      forall k | 0 <= k < |ext[1..]|
        ensures ext[1..][k] != ExtSep
      {
        assert ext[1..][k] == p[d + 1 + k];
      }
      forall k | 0 <= k < |ext|
        ensures ext[k] != Sep
      {
        assert ext[k] == p[d + k];
      }
    }
  }

  /**
   Appending a '.'-led extension with neither another '.' nor a '/' to a name
   that holds a non-dot and no '/' makes `splitext` return exactly that
   extension, whatever precedes the name.
   */
  lemma SplitExtAppend(h: string, stem: string, ext: string)
    requires Sep !in stem && HasNonDot(stem, 0, |stem|)
    requires |ext| >= 1 && ext[0] == ExtSep && ExtSep !in ext[1..] && Sep !in ext
    ensures SplitExt(h + stem + ext) == (h + stem, ext)
  {
    var p := h + stem + ext;
    var d := |h| + |stem|;
    assert p == h + (stem + ext);
    NoSepConcat(stem, ext);
    RFindAppend(h, stem + ext, Sep);
    forall k | d < k < |p|
      ensures p[k] != ExtSep && p[k] != Sep
    {
      assert p[k] == ext[k - d];
      assert ext[k - d] == ext[1..][k - d - 1];
    }
    var j :| 0 <= j < |stem| && stem[j] != ExtSep;
    assert p[|h| + j] == stem[j];
    assert HasNonDot(p, RFind(p, Sep) + 1, d);
    SplitExtAt(p, d);
    assert p[..d] == h + stem;
  }

  lemma NoSepConcat(a: string, b: string)
    requires Sep !in a && Sep !in b
    ensures Sep !in a + b
  {
    forall k | 0 <= k < |a + b| ensures (a + b)[k] != Sep {
      if k >= |a| {
        assert (a + b)[k] == b[k - |a|];
      }
    }
  }

  /** A non-empty extension starts after the last '/' and has a non-dot before it
      in the same component. */
  lemma ExtensionRoot(p: string)
    ensures var (root, ext) := SplitExt(p);
      ext != [] ==> RFind(p, Sep) < |root| && HasNonDot(p, RFind(p, Sep) + 1, |root|)
  {
    if SplitExt(p).1 != [] {
      assert |SplitExt(p).0| == RFind(p, ExtSep);
    }
  }

  /** A '.' after the last '/' with a non-dot before it in the same component
      means an extension is found. */
  lemma ExtensionFound(p: string, d: int)
    requires RFind(p, Sep) < d < |p| && p[d] == ExtSep
    requires HasNonDot(p, RFind(p, Sep) + 1, d)
    ensures SplitExt(p).1 != []
  {
    var sepIndex, dotIndex := RFind(p, Sep), RFind(p, ExtSep);
    assert d <= dotIndex;
    var k :| sepIndex + 1 <= k < d && p[k] != ExtSep;
    assert HasNonDot(p, sepIndex + 1, dotIndex);
  }

  /** A '.' followed by neither '.' nor '/', with a non-dot between it and the last '/',
      starts the extension. */
  lemma SplitExtAt(p: string, d: nat)
    requires d < |p| && p[d] == ExtSep
    requires forall k :: d < k < |p| ==> p[k] != ExtSep && p[k] != Sep
    requires HasNonDot(p, RFind(p, Sep) + 1, d)
    ensures SplitExt(p) == (p[..d], p[d..])
  {
    RFindUnique(p, ExtSep, d);
  }

  /** The extension of a whole path is the extension of its last component:
      a '.' in a directory name never starts an extension. */
  lemma ExtensionOfName(p: string)
    ensures SplitExt(p).1 == SplitExt(Split(p).1).1
  {
    var sepIndex := RFind(p, Sep);
    var i := sepIndex + 1;
    var tail := p[i..];
    SplitTail(p);
    assert Split(p).1 == tail;
    RFindSuffix(p, Sep, i);
    RFindSuffix(p, ExtSep, i);
    var dotIndex := RFind(p, ExtSep);
    var d := if dotIndex >= i then dotIndex - i else -1;
    assert RFind(tail, Sep) == -1;
    assert RFind(tail, ExtSep) == d;
    if dotIndex > sepIndex {
      HasNonDotShift(p, i, dotIndex);
      assert tail[d..] == p[dotIndex..];
    }
  }

  /** Looking for a non-dot in a suffix of `p` is looking in `p`, shifted. */
  lemma HasNonDotShift(p: string, i: nat, hi: nat)
    requires i <= hi <= |p|
    ensures HasNonDot(p[i..], 0, hi - i) == HasNonDot(p, i, hi)
  {
    if HasNonDot(p, i, hi) {
      var k :| i <= k < hi && p[k] != ExtSep;
      assert p[i..][k - i] == p[k];
    }
    if HasNonDot(p[i..], 0, hi - i) {
      var k :| 0 <= k < hi - i && p[i..][k] != ExtSep;
      assert p[i + k] == p[i..][k];
    }
  }

  /** Splitting a joined path gives the two parts back, when the first part has the
      shape of a head and the second part is a single name. */
  lemma SplitJoin(h: string, b: string)
    requires IsHead(h)
    requires Sep !in b
    ensures Split(Join(h, b)) == (h, b)
  {
    if h == [] {
      assert Join(h, b) == b;
      SplitName(b);
    } else if h[|h| - 1] == Sep {
      assert Join(h, b) == h + b;
      SplitUnderSlashes(h, b);
    } else {
      assert Join(h, b) == h + [Sep] + b;
      SplitUnderDirectory(h, b);
    }
  }

  /** A bare name splits into an empty head and itself. */
  lemma SplitName(b: string)
    requires Sep !in b
    ensures Split(b) == ([], b)
  {
    RFindUnique(b, Sep, -1);
    assert b[..0] == [];
  }

  /** A name under a head of slashes only keeps that head whole. */
  lemma SplitUnderSlashes(h: string, b: string)
    requires h != [] && AllSep(h)
    requires Sep !in b
    ensures Split(h + b) == (h, b)
  {
    var p := h + b;
    RFindAppend(h, b, Sep);
    assert RFind(h, Sep) == |h| - 1;
    assert p[..|h|] == h && p[|h|..] == b;
  }

  /** A name under a directory not ending in '/' splits off at the one '/' between them. */
  lemma SplitUnderDirectory(h: string, b: string)
    requires h != [] && h[|h| - 1] != Sep
    requires Sep !in b
    ensures Split(h + [Sep] + b) == (h, b)
  {
    var p := h + [Sep] + b;
    assert p == (h + [Sep]) + b;
    RFindAppend(h + [Sep], b, Sep);
    RFindUnique(h + [Sep], Sep, |h|);
    var head := p[..|h| + 1];
    assert head == h + [Sep];
    assert !AllSep(head) by {
      assert head[|h| - 1] != Sep;
    }
    assert head[..|head| - 1] == h;
    assert RStripSep(head) == RStripSep(h);
    assert RStripSep(h) == h;
    assert p[|h| + 1..] == b;
  }
}
