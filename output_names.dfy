/**
 Output file names: `_construct_path` and the indexed suffixes `_NN.csv`
 used when one input yields several tables.
 */
module OutputNames {
  import opened PosixPath
  import Decimal

  /**
   `_construct_path(p, ext)`: split `p` into directory and name, drop the
   name's last extension and join the directory with the stripped name
   followed by `ext`.
   */
  function ConstructPath(p: string, ext: string): string
  {
    var (head, tail) := Split(p);
    var (stem, _) := SplitExt(tail);
    Join(head, stem + ext)
  }

  /** The last component of `p` without its extension. */
  function Stem(p: string): string
  {
    SplitExt(Split(p).1).0
  }

  /**
   The derived path lies in the same directory as `p` (splitting it gives the
   same head), and its name is `p`'s name with only the last extension removed,
   followed by `ext`. Without an extension the name is kept whole.
   */
  lemma ConstructPathParts(p: string, ext: string)
    requires Sep !in ext
    ensures Split(ConstructPath(p, ext)) == (Split(p).0, Stem(p) + ext)
    ensures Split(p).1 == Stem(p) + SplitExt(Split(p).1).1
    ensures SplitExt(Split(p).1).1 == [] ==> Split(ConstructPath(p, ext)).1 == Split(p).1 + ext
  {
    var (head, tail) := Split(p);
    SplitShape(p);
    SplitExtShape(tail);
    var stem := SplitExt(tail).0;
    StemNoSep(p);
    assert Sep !in stem + ext;
    SplitJoin(head, stem + ext);
  }

  /** The stem is a piece of the last component, so it has no '/'. */
  lemma StemNoSep(p: string)
    ensures Stem(p) <= Split(p).1
    ensures Sep !in Stem(p)
  {
    var tail := Split(p).1;
    SplitTail(p);
    SplitExtShape(tail);
    var stem := Stem(p);
    assert stem <= tail;
    forall k | 0 <= k < |stem| ensures stem[k] != Sep {
      assert stem[k] == tail[k];
    }
  }

  /**
   The derived path as text: `p` up to and including its last '/', then the
   stem and `ext`. This holds unless that '/' is one of several slashes in a
   row after a directory name: `split` then drops the extra ones, so that
   `a//b.mpt` becomes `a/b.csv`.
   */
  lemma ConstructPathKeepsPrefix(p: string, ext: string)
    requires Sep !in ext
    requires RFind(p, Sep) + 1 < 2 || p[RFind(p, Sep) - 1] != Sep || AllSep(p[..RFind(p, Sep) + 1])
    ensures ConstructPath(p, ext) == p[..RFind(p, Sep) + 1] + Stem(p) + ext
  {
    hide Split;
    hide SplitExt;
    hide Join;
    hide ConstructPath;
    hide RStripSep;
    hide HasNonDot;
    var i := RFind(p, Sep) + 1;
    var head := Split(p).0;
    SplitShape(p);
    StemNoSep(p);
    ConstructPathFrom(p, ext, head, Split(p).1, Stem(p));
    JoinName(head, Stem(p) + ext);
    if i == 0 {
      assert head == [];
    } else {
      var q := p[..i];
      assert q[|q| - 1] == Sep;
      assert |q| < 2 || q[|q| - 2] != Sep || AllSep(q) by {
        if |q| >= 2 {
          assert q[|q| - 2] == p[RFind(p, Sep) - 1];
        }
      }
      HeadOfSepEnded(q, head);
    }
  }

  /**
   `q` ends in '/', and `head` is `q` with some trailing slashes removed,
   kept whole when all slashes, and not ending in '/' otherwise. Unless `q`
   ends in two slashes after a non-slash, joining a name under `head` puts
   back exactly `q`.
   */
  lemma HeadOfSepEnded(q: string, head: string)
    requires q != [] && q[|q| - 1] == Sep
    requires |q| < 2 || q[|q| - 2] != Sep || AllSep(q)
    requires IsHead(head) && head <= q && AllSep(q[|head|..])
    requires AllSep(head) ==> head == q
    ensures (if head == [] || head[|head| - 1] == Sep then head else head + [Sep]) == q
  {
    if !AllSep(head) {
      assert forall k :: |head| <= k < |q| ==> q[k] == Sep by {
        forall k | |head| <= k < |q| ensures q[k] == Sep {
          assert q[|head|..][k - |head|] == q[k];
        }
      }
      assert forall k :: 0 <= k < |head| ==> head[k] == q[k];
      assert |head| == |q| - 1;
      assert head + [Sep] == q;
    }
  }

  /**
   Slashes in a row between a directory and the file name collapse into one:
   `d + s + n` gives the same path as `d + "/" + n` would.
   */
  lemma ConstructPathCollapsesSlashes(d: string, s: string, n: string, ext: string)
    requires d != [] && d[|d| - 1] != Sep
    requires s != [] && AllSep(s)
    requires Sep !in n && Sep !in ext
    ensures ConstructPath(d + s + n, ext) == d + [Sep] + SplitExt(n).0 + ext
  {
    hide ConstructPath;
    hide Split;
    hide Join;
    SplitCollapsesSlashes(d, s, n);
    var stem := SplitExt(n).0;
    assert stem <= n;
    forall k | 0 <= k < |stem| ensures stem[k] != Sep {
      assert stem[k] == n[k];
    }
    ConstructPathFrom(d + s + n, ext, d, n, stem);
    JoinName(d, stem + ext);
  }

  /** `a//b.mpt` becomes `a/b.csv`. */
  lemma ConstructPathDoubledSlash()
    ensures ConstructPath("a//b.mpt", ".csv") == "a/b.csv"
  {
    hide ConstructPath;
    hide Split;
    hide SplitExt;
    hide Join;
    assert AllSep("//");
    ConstructPathCollapsesSlashes("a", "//", "b.mpt", ".csv");
    assert "b"[0] != ExtSep;
    SplitExtAppend([], "b", ".mpt");
    assert [] + "b" + ".mpt" == "b.mpt" && [] + "b" == "b";
    assert "a" + "//" + "b.mpt" == "a//b.mpt";
  }



  /**
   A file `stem + oldExt` in directory `h` becomes `stem + ext` in the same
   directory: exactly the last extension is replaced, and a '.' earlier in
   the name (or in `h`) is kept.
   */
  lemma ConstructPathReplacesExtension(h: string, stem: string, oldExt: string, ext: string)
    requires IsHead(h)
    requires Sep !in stem && HasNonDot(stem, 0, |stem|)
    requires |oldExt| >= 1 && oldExt[0] == ExtSep && ExtSep !in oldExt[1..] && Sep !in oldExt
    ensures ConstructPath(Join(h, stem + oldExt), ext) == Join(h, stem + ext)
  {
    hide *;
    var name := stem + oldExt;
    NoSepConcat(stem, oldExt);
    SplitJoin(h, name);
    SplitExtAppend([], stem, oldExt);
    assert [] + stem + oldExt == name && [] + stem == stem;
    ConstructPathFrom(Join(h, name), ext, h, name, stem);
  }

  /** `_construct_path` joins the head `split` gives with the root `splitext` gives of the tail. */
  lemma ConstructPathFrom(p: string, ext: string, head: string, tail: string, stem: string)
    requires Split(p) == (head, tail)
    requires SplitExt(tail).0 == stem
    ensures ConstructPath(p, ext) == Join(head, stem + ext)
  {
    hide Split;
    hide SplitExt;
    hide Join;
  }

  /** Two different suffixes never give the same derived path. */
  lemma ConstructPathInjective(p: string, ext1: string, ext2: string)
    requires Sep !in ext1 && Sep !in ext2
    requires ConstructPath(p, ext1) == ConstructPath(p, ext2)
    ensures ext1 == ext2
  {
    ConstructPathParts(p, ext1);
    ConstructPathParts(p, ext2);
    var s := Stem(p);
    assert s + ext1 == s + ext2;
    assert ext1 == (s + ext1)[|s|..];
  }

  /** `f'_{i:02d}' + ext`, the suffix of the i-th of several output files. */
  function IndexedSuffix(i: nat, ext: string): string
  {
    "_" + Decimal.Pad2(i) + ext
  }

  /** The indexed suffixes of distinct indices differ, and contain no '/' when `ext` does not. */
  lemma IndexedSuffixInjective(i: nat, j: nat, ext: string)
    requires IndexedSuffix(i, ext) == IndexedSuffix(j, ext)
    ensures i == j
  {
    Decimal.Pad2Spec(i);
    Decimal.Pad2Spec(j);
    var a, b := IndexedSuffix(i, ext), IndexedSuffix(j, ext);
    assert Decimal.Pad2(i) == a[1..|a| - |ext|];
    assert Decimal.Pad2(j) == b[1..|b| - |ext|];
    Decimal.Pad2Injective(i, j);
  }

  lemma IndexedSuffixNoSep(i: nat, ext: string)
    requires Sep !in ext
    ensures Sep !in IndexedSuffix(i, ext)
  {
    Decimal.Pad2Spec(i);
    var s := IndexedSuffix(i, ext);
    var d := Decimal.Pad2(i);
    forall k | 0 <= k < |s| ensures s[k] != Sep {
      if 1 <= k < 1 + |d| {
        assert s[k] == d[k - 1];
      } else if k >= 1 + |d| {
        assert s[k] == ext[k - 1 - |d|];
      }
    }
  }

  /** Distinct indices name distinct files derived from the same path. */
  lemma IndexedPathsDistinct(p: string, i: nat, j: nat, ext: string)
    requires Sep !in ext
    requires i != j
    ensures ConstructPath(p, IndexedSuffix(i, ext)) != ConstructPath(p, IndexedSuffix(j, ext))
  {
    IndexedSuffixNoSep(i, ext);
    IndexedSuffixNoSep(j, ext);
    if ConstructPath(p, IndexedSuffix(i, ext)) == ConstructPath(p, IndexedSuffix(j, ext)) {
      ConstructPathInjective(p, IndexedSuffix(i, ext), IndexedSuffix(j, ext));
      IndexedSuffixInjective(i, j, ext);
    }
  }
}
