/** The three POSIX path operations the batch modes use to name their
    output files: `os.path.basename`, `os.path.splitext` and
    `os.path.join`, with '/' as the only separator. The facts about each
    are lemmas of their own, so that only the proofs that need them pay
    for them. */
module Paths {

  /** The index of the last occurrence of `c` in `s`, or -1 (Python's `rfind`). */
  function LastIndexOf(s: string, c: char): (r: int)
    ensures -1 <= r < |s|
  {
    if s == [] then -1
    else if s[|s| - 1] == c then |s| - 1
    else LastIndexOf(s[..|s| - 1], c)
  }

  /** LastIndexOf finds an occurrence and none comes after it. */
  lemma {:induction false} LastIndexOfSpec(s: string, c: char)
    ensures LastIndexOf(s, c) >= 0 ==> s[LastIndexOf(s, c)] == c
    ensures forall j :: LastIndexOf(s, c) < j < |s| ==> s[j] != c
  {
    if s != [] && s[|s| - 1] != c {
      LastIndexOfSpec(s[..|s| - 1], c);
    }
  }

  /** os.path.basename: everything after the last '/'. */
  function Basename(p: string): string
  {
    p[LastIndexOf(p, '/') + 1..]
  }

  /** The base name is a suffix of the path, holds no '/', and is preceded
      by a '/' unless it is the whole path. */
  lemma BasenameSpec(p: string)
    ensures '/' !in Basename(p)
    ensures |Basename(p)| <= |p| && Basename(p) == p[|p| - |Basename(p)|..]
    ensures |Basename(p)| < |p| ==> p[|p| - |Basename(p)| - 1] == '/'
  {
    var i := LastIndexOf(p, '/');
    var b := p[i + 1..];
    assert Basename(p) == b;
    NothingAfterLast(p, '/', b);
    if i >= 0 {
      LastIndexOfSpec(p, '/');
      assert p[|p| - |b| - 1] == p[i];
    }
  }

  /** What follows the last occurrence of `c` holds no `c`. */
  lemma NothingAfterLast(s: string, c: char, b: string)
    requires b == s[LastIndexOf(s, c) + 1..]
    ensures c !in b
  {
    var i := LastIndexOf(s, c);
    LastIndexOfSpec(s, c);
    forall k | 0 <= k < |b| ensures b[k] != c {
      assert b[k] == s[i + 1 + k];
    }
  }

  /** Appending text without `c` does not move the last occurrence of `c`. */
  lemma {:induction false} LastIndexOfAppend(x: string, y: string, c: char)
    requires c !in y
    ensures LastIndexOf(x + y, c) == LastIndexOf(x, c)
  {
    if y == [] {
      assert x + y == x;
    } else {
      var y' := y[..|y| - 1];
      assert (x + y)[..|x + y| - 1] == x + y';
      assert (x + y)[|x + y| - 1] == y[|y| - 1];
      assert c !in y' by {
        forall k | 0 <= k < |y'| ensures y'[k] != c {
          assert y'[k] == y[k];
        }
      }
      LastIndexOfAppend(x, y', c);
    }
  }

  predicate AllDots(s: string) { forall i :: 0 <= i < |s| ==> s[i] == '.' }

  /** os.path.splitext: split off the last extension. The last '.' after the
      last '/' starts the extension, unless every character from the last
      '/' up to that '.' is itself a '.', as in ".zip" or "..zip". */
  function SplitExt(p: string): (string, string)
  {
    var sep := LastIndexOf(p, '/');
    var dot := LastIndexOf(p, '.');
    if dot > sep && !AllDots(p[sep + 1..dot]) then (p[..dot], p[dot..]) else (p, [])
  }

  /** The root and the extension make up the path again; the extension is
      empty or one '.' followed by neither '.' nor '/'. */
  lemma SplitExtSpec(p: string)
    ensures SplitExt(p).0 + SplitExt(p).1 == p
    ensures SplitExt(p).1 == [] ||
      (SplitExt(p).1[0] == '.' && '.' !in SplitExt(p).1[1..] && '/' !in SplitExt(p).1)
  {
    var sep := LastIndexOf(p, '/');
    var dot := LastIndexOf(p, '.');
    if dot > sep && !AllDots(p[sep + 1..dot]) {
      var ext := p[dot..];
      assert p[..dot] + ext == p;
      assert ext[0] == '.' by {
        LastIndexOfSpec(p, '.');
      }
      assert '.' !in ext[1..] by {
        NothingAfterLast(p, '.', ext[1..]);
      }
      assert '/' !in ext by {
        var tail := p[sep + 1..];
        NothingAfterLast(p, '/', tail);
        forall k | 0 <= k < |ext| ensures ext[k] != '/' {
          assert ext[k] == tail[dot - sep - 1 + k];
        }
      }
    }
  }

  /** A name split at its last extension: a stem that is not all dots and
      holds no '/', followed by one '.' and a tail free of '.' and '/', is
      split back into exactly that stem and extension. */
  lemma SplitExtOfExtension(stem: string, ext: string)
    requires '/' !in stem && !AllDots(stem)
    requires |ext| > 0 && ext[0] == '.' && '.' !in ext[1..] && '/' !in ext
    ensures SplitExt(stem + ext) == (stem, ext)
  {
    var p := stem + ext;
    assert LastIndexOf(p, '/') == -1 by {
      LastIndexOfAppend(stem, ext, '/');
      LastIndexOfAppend([], stem, '/');
      assert [] + stem == stem;
    }
    assert LastIndexOf(p, '.') == |stem| by {
      var q := stem + [ext[0]];
      assert q + ext[1..] == p;
      LastIndexOfAppend(q, ext[1..], '.');
      assert q[|q| - 1] == '.';
    }
    assert p[0..|stem|] == stem;
    assert p[..|stem|] == stem;
    assert p[|stem|..] == ext;
  }

  /** A name without any '.' has no extension. */
  lemma SplitExtWithoutDot(p: string)
    requires '.' !in p
    ensures SplitExt(p) == (p, [])
  {
    LastIndexOfAppend([], p, '.');
    assert [] + p == p;
  }

  /** os.path.join of two components. */
  function Join(a: string, b: string): string
  {
    if |b| > 0 && b[0] == '/' then b
    else if a == [] || a[|a| - 1] == '/' then a + b
    else a + "/" + b
  }

  /** The stem os.path.splitext leaves of a file's base name. */
  function Stem(p: string): string
  {
    SplitExt(Basename(p)).0
  }

  /** A name without '/' joined under a folder is the base name of the result,
      so the folder part and the name part can be told apart again. */
  lemma BasenameOfJoin(a: string, b: string)
    requires '/' !in b
    ensures Basename(Join(a, b)) == b
  {
    assert |b| > 0 ==> b[0] in b;
    var m := if a == [] || a[|a| - 1] == '/' then "" else "/";
    var x := a + m;
    assert Join(a, b) == x + b;
    LastIndexOfAppend(x, b, '/');
    // the join point is right after the last '/' of the folder part, or the start
    assert x == [] || x[|x| - 1] == '/';
    assert LastIndexOf(x, '/') == |x| - 1;
    assert (x + b)[|x|..] == b;
  }

  /** The stem of "<dir>/<stem><ext>" is the stem: the folder and the last
      extension are both removed. */
  lemma StemOfPath(dir: string, stem: string, ext: string)
    requires '/' !in stem && !AllDots(stem)
    requires |ext| > 0 && ext[0] == '.' && '.' !in ext[1..] && '/' !in ext
    ensures Stem(dir + "/" + stem + ext) == stem
  {
    var name := stem + ext;
    assert '/' !in name by {
      forall k | 0 <= k < |name| ensures name[k] != '/' {
        if k < |stem| { assert name[k] == stem[k]; } else { assert name[k] == ext[k - |stem|]; }
      }
    }
    var x := dir + "/";
    assert dir + "/" + stem + ext == x + name;
    LastIndexOfAppend(x, name, '/');
    assert LastIndexOf(x, '/') == |x| - 1;
    assert (x + name)[|x|..] == name;
    SplitExtOfExtension(stem, ext);
  }

  /** Splitting the stem off a base name keeps a prefix of it, without any '/'. */
  lemma StemIsPrefixOfBasename(p: string)
    ensures |Stem(p)| <= |Basename(p)| && Stem(p) == Basename(p)[..|Stem(p)|]
    ensures '/' !in Stem(p)
  {
    var b := Basename(p);
    BasenameSpec(p);
    SplitExtSpec(b);
    var r := SplitExt(b);
    assert b == r.0 + r.1;
    assert b[..|r.0|] == r.0;
    forall j | 0 <= j < |r.0| ensures r.0[j] != '/' {
      assert r.0[j] == b[j];
    }
  }

  /** "chapter.01.zip" keeps "chapter.01"; a hidden name ".zip" has no extension. */
  lemma SplitExtExamples()
    ensures SplitExt("chapter.01.zip") == ("chapter.01", ".zip")
    ensures SplitExt(".zip") == (".zip", "")
    ensures SplitExt("plain") == ("plain", "")
  {
    var p := "chapter.01.zip";
    LastIndexOfSpec(p, '/');
    LastIndexOfSpec(p, '.');
    assert LastIndexOf(p, '/') == -1;
    assert p[10] == '.' && p[11] == 'z' && p[12] == 'i' && p[13] == 'p';
    assert LastIndexOf(p, '.') == 10;
    assert p[0..10][0] == 'c';
    assert p[..10] == "chapter.01" && p[10..] == ".zip";
    var q := ".zip";
    LastIndexOfSpec(q, '/');
    LastIndexOfSpec(q, '.');
    assert q[0] == '.' && q[1] == 'z' && q[2] == 'i' && q[3] == 'p';
    assert LastIndexOf(q, '/') == -1;
    assert LastIndexOf(q, '.') == 0;
    var n := "plain";
    LastIndexOfSpec(n, '.');
    assert n[0] == 'p' && n[1] == 'l' && n[2] == 'a' && n[3] == 'i' && n[4] == 'n';
    assert LastIndexOf(n, '.') == -1;
  }
}
