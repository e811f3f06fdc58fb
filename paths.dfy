/**
 * Path and file-name arithmetic the converter relies on: the case-insensitive
 * extension test used when loading, POSIX `os.path.basename`, `os.path.join`
 * and `os.path.splitext`, and the name of the produced PDF.
 */
module PathNames {

  /** ASCII lower-casing of one character (`str.lower` restricted to A-Z). */
  function LowerAscii(c: char): (r: char) {
    if 'A' <= c <= 'Z' then (c as int + 32) as char else c
  }

  function Lower(s: string): (r: string)
    ensures |r| == |s|
    ensures forall i :: 0 <= i < |s| ==> r[i] == LowerAscii(s[i])
  {
    seq(|s|, i requires 0 <= i < |s| => LowerAscii(s[i]))
  }

  predicate EndsWith(s: string, suffix: string) {
    |suffix| <= |s| && s[|s| - |suffix|..] == suffix
  }

  /**
   * `s` ends in `suffix` once `s` is lower-cased, compared from the last
   * character backwards.
   */
  predicate EndsWithLowered(s: string, suffix: string)
    decreases |suffix|
  {
    |suffix| <= |s| &&
    (suffix == [] ||
     (LowerAscii(s[|s| - 1]) == suffix[|suffix| - 1] && EndsWithLowered(s[..|s| - 1], suffix[..|suffix| - 1])))
  }

  /** The loader's filter: the lower-cased name ends in .png, .jpg or .jpeg. */
  predicate IsImageName(name: string)
    ensures IsImageName(name) ==> |name| >= 4 && name[|name| - 1] in "gG"
  {
    EndsWithLowered(name, ".png") || EndsWithLowered(name, ".jpg") || EndsWithLowered(name, ".jpeg")
  }

  lemma {:induction false} EndsWithLoweredMeansLowerEndsWith(s: string, suffix: string)
    ensures EndsWithLowered(s, suffix) <==> EndsWith(Lower(s), suffix)
    decreases |suffix|
  {
    if |suffix| <= |s| && suffix != [] {
      var s', t' := s[..|s| - 1], suffix[..|suffix| - 1];
      EndsWithLoweredMeansLowerEndsWith(s', t');
      var l, l' := Lower(s), Lower(s');
      assert l' == l[..|l| - 1];
      var n := |s| - |suffix|;
      assert l[n..] == l'[n..] + [l[|l| - 1]];
      assert suffix == t' + [suffix[|suffix| - 1]];
      if EndsWith(l, suffix) {
        assert l[n..][|suffix| - 1] == suffix[|suffix| - 1];
        assert l'[n..] == l[n..][..|suffix| - 1];
      }
    }
  }

  /** The filter is exactly the source's `f.lower().endswith((".png", ".jpg", ".jpeg"))`. */
  lemma IsImageNameAsWritten(name: string)
    ensures IsImageName(name) <==>
      EndsWith(Lower(name), ".png") || EndsWith(Lower(name), ".jpg") || EndsWith(Lower(name), ".jpeg")
  {
    EndsWithLoweredMeansLowerEndsWith(name, ".png");
    EndsWithLoweredMeansLowerEndsWith(name, ".jpg");
    EndsWithLoweredMeansLowerEndsWith(name, ".jpeg");
  }

  /** The filter ignores case: a name and its lower-cased form are judged alike. */
  lemma ImageNameIgnoresCase(name: string)
    ensures IsImageName(Lower(name)) == IsImageName(name)
  {
    assert Lower(Lower(name)) == Lower(name);
    IsImageNameAsWritten(name);
    IsImageNameAsWritten(Lower(name));
  }

  /** Index of the last occurrence of `c` in `s`, or -1 (Python `str.rfind`). */
  function LastIndexOf(s: string, c: char): (k: int)
    ensures -1 <= k < |s|
    ensures k >= 0 ==> s[k] == c
    ensures forall j :: k < j < |s| ==> s[j] != c
  {
    if s == [] then -1
    else if s[|s| - 1] == c then |s| - 1
    else LastIndexOf(s[..|s| - 1], c)
  }

  /** `os.path.basename`: everything after the last '/'. */
  function Basename(p: string): (r: string) {
    if p == [] || p[|p| - 1] == '/' then []
    else Basename(p[..|p| - 1]) + [p[|p| - 1]]
  }

  /** The basename is the longest suffix of the path without a '/'. */
  lemma {:induction false} BasenameIsLastComponent(p: string)
    ensures '/' !in Basename(p)
    ensures |Basename(p)| <= |p| && p[|p| - |Basename(p)|..] == Basename(p)
    ensures |Basename(p)| < |p| ==> p[|p| - |Basename(p)| - 1] == '/'
  {
    if p != [] && p[|p| - 1] != '/' {
      var init, c := p[..|p| - 1], p[|p| - 1];
      BasenameIsLastComponent(init);
      var b := Basename(init);
      var r := b + [c];
      assert Basename(p) == r;
      var n := |init| - |b|;
      assert forall j :: 0 <= j < |r| ==> r[j] == p[n + j] by {
        assert forall j :: 0 <= j < |b| ==> b[j] == init[n + j];
      }
      assert p[|p| - |r|..] == r;
      assert forall j :: 0 <= j < |r| ==> r[j] != '/' by {
        assert forall j :: 0 <= j < |b| ==> b[j] != '/';
      }
      if |r| < |p| {
        assert p[|p| - |r| - 1] == init[n - 1];
      }
    }
  }

  /** A basename is a single path component. */
  lemma BasenameHasNoSeparator(p: string)
    ensures '/' !in Basename(p)
  {
    BasenameIsLastComponent(p);
  }

  /** The basename is what follows the last '/', as Python's `p[p.rfind('/') + 1:]`. */
  lemma {:induction false} BasenameAfterLastSeparator(p: string)
    ensures Basename(p) == p[LastIndexOf(p, '/') + 1..]
  {
    if p == [] {
    } else if p[|p| - 1] == '/' {
      assert LastIndexOf(p, '/') == |p| - 1;
    } else {
      var init, c := p[..|p| - 1], p[|p| - 1];
      BasenameAfterLastSeparator(init);
      var k := LastIndexOf(init, '/');
      assert LastIndexOf(p, '/') == k;
      assert Basename(p) == Basename(init) + [c];
      assert p == init + [c];
      assert p[k + 1..] == init[k + 1..] + [c];
    }
  }

  /** The basename of `x + f` is `f` when `x` is empty or ends in '/' and `f` has no '/'. */
  lemma {:induction false} BasenameAfterSeparator(x: string, f: string)
    requires x == [] || x[|x| - 1] == '/'
    requires '/' !in f
    ensures Basename(x + f) == f
  {
    if f == [] {
      assert x + f == x;
    } else {
      var init := f[..|f| - 1];
      assert '/' !in init by {
        assert forall j :: 0 <= j < |init| ==> init[j] == f[j];
      }
      assert f[|f| - 1] in f;
      BasenameAfterSeparator(x, init);
      assert (x + f)[..|x + f| - 1] == x + init;
      assert f == init + [f[|f| - 1]];
    }
  }

  /** `os.path.join(a, b)` for two components. */
  function Join(a: string, b: string): (r: string) {
    if |b| > 0 && b[0] == '/' then b
    else if a == [] || a[|a| - 1] == '/' then a + b
    else a + "/" + b
  }

  /** A joined path ends with the entry and, unless the entry is absolute, starts with the directory. */
  lemma JoinKeepsParts(a: string, b: string)
    ensures EndsWith(Join(a, b), b)
    ensures !(|b| > 0 && b[0] == '/') ==> a <= Join(a, b)
  {
    var r := Join(a, b);
    assert r[|r| - |b|..] == b;
  }

  /** Joining a directory and an entry name, then taking the basename, gives the entry name back. */
  lemma BasenameOfJoin(dir: string, f: string)
    requires '/' !in f
    ensures Basename(Join(dir, f)) == f
  {
    assert !(|f| > 0 && f[0] == '/') by {
      if |f| > 0 { assert f[0] in f; }
    }
    if dir == [] || dir[|dir| - 1] == '/' {
      BasenameAfterSeparator(dir, f);
    } else {
      assert Join(dir, f) == (dir + "/") + f;
      BasenameAfterSeparator(dir + "/", f);
    }
  }

  /**
   * `os.path.splitext` on POSIX: the extension starts at the last '.' of the
   * last path component, unless only dots precede it in that component.
   */
  function Splitext(p: string): (r: (string, string))
    ensures r.0 + r.1 == p
    ensures r.1 == [] || (r.1[0] == '.' && '.' !in r.1[1..] && '/' !in r.1)
  {
    var sep := LastIndexOf(p, '/');
    var dot := LastIndexOf(p, '.');
    if dot > sep && exists k :: sep < k < dot && p[k] != '.' then
      assert p[dot..][1..] == p[dot + 1..];
      (p[..dot], p[dot..])
    else
      (p, [])
  }

  /** The root of a name: what `splitext` leaves once the extension is removed. */
  function Root(p: string): (r: string) {
    Splitext(p).0
  }

  /**
   * `splitext` takes an extension exactly when the last component has a '.'
   * preceded, within that component, by some character other than '.'.
   */
  lemma SplitextTakesExtension(p: string, i: int, k: int)
    requires LastIndexOf(p, '/') < i < k < |p|
    requires p[i] != '.' && p[k] == '.'
    ensures Splitext(p).1 != []
    ensures |Splitext(p).1| <= |p| - k
  {
    var dot := LastIndexOf(p, '.');
    assert k <= dot;
  }

  /** A name whose last '.' is preceded only by dots, such as ".bashrc", has no extension. */
  lemma SplitextLeadingDots(p: string)
    requires '/' !in p
    requires forall k :: 0 <= k < LastIndexOf(p, '.') ==> p[k] == '.'
    ensures Splitext(p) == (p, [])
  {
  }

  /** Derived output file name: the source name without its extension, plus ".pdf". */
  function OutputName(sourceName: string): (r: string)
    ensures EndsWith(r, ".pdf")
    ensures r[..|r| - 4] == Root(sourceName)
    ensures Root(sourceName) <= sourceName
  {
    var root := Root(sourceName);
    var r := root + ".pdf";
    assert r[|r| - 4..] == ".pdf";
    r
  }

  /**
   * For a plain file name that is not all dots, the output name splits back
   * into the source's root and the extension ".pdf".
   */
  lemma {:induction false} OutputNameSplitsBack(sourceName: string)
    requires '/' !in sourceName
    requires exists k :: 0 <= k < |sourceName| && sourceName[k] != '.'
    ensures Splitext(OutputName(sourceName)) == (Root(sourceName), ".pdf")
  {
    var root := Root(sourceName);
    var out := OutputName(sourceName);
    assert out == root + ".pdf";
    var i :| 0 <= i < |root| && root[i] != '.' by {
      var k :| 0 <= k < |sourceName| && sourceName[k] != '.';
      var sp := Splitext(sourceName);
      if sp.1 == [] {
        assert root == sourceName;
      } else {
        var sep := LastIndexOf(sourceName, '/');
        var dot := LastIndexOf(sourceName, '.');
        assert dot > sep && exists j :: sep < j < dot && sourceName[j] != '.';
        var j :| sep < j < dot && sourceName[j] != '.';
        assert root == sourceName[..dot];
        assert root[j] != '.';
      }
    }
    assert '/' !in out by {
      assert forall j :: 0 <= j < |root| ==> root[j] == sourceName[j];
    }
    assert LastIndexOf(out, '/') == -1;
    var dot := LastIndexOf(out, '.');
    assert out[|root|] == '.';
    assert dot == |root|;
    assert out[i] != '.';
  }

  /** "a.tar.zip" loses only its last extension. */
  lemma OutputNameOfArchive()
    ensures OutputName("a.tar.zip") == "a.tar.pdf"
  {
    var p := "a.tar.zip";
    assert LastIndexOf(p, '/') == -1 by {
      assert forall j :: 0 <= j < |p| ==> p[j] != '/';
    }
    assert LastIndexOf(p, '.') == 5 by {
      assert p[5] == '.' && p[6] != '.' && p[7] != '.' && p[8] != '.';
    }
    assert p[0] != '.';
    assert p[..5] == "a.tar";
  }

  /** A name with a leading dot and no other dot keeps its whole name. */
  lemma OutputNameOfHidden()
    ensures OutputName(".hidden") == ".hidden.pdf"
  {
    var p := ".hidden";
    assert LastIndexOf(p, '/') == -1 by {
      assert forall j :: 0 <= j < |p| ==> p[j] != '/';
    }
    assert LastIndexOf(p, '.') == 0 by {
      assert p[0] == '.';
      assert forall j :: 0 < j < |p| ==> p[j] != '.';
    }
  }
}
