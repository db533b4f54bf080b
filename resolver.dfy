/**
 * Choosing a free name for an uploaded file: `get_uniq_fpath` of `hfs/core.py`
 * (probes `<root>-<n><ext>`) and `get_proper_file_path` of `nano-http-server.py`
 * (probes `<root>_<n><ext>` and joins the result onto the directory).
 */
module Resolver {
  import opened Text
  import opened PosixPath
  import opened FileModel

  /** A family of candidate paths `<root><sep><n><ext>`; when `joined`, each candidate
      is further passed through `os.path.join(dir, ...)`. */
  datatype Prober = Prober(joined: bool, dir: string, root: string, sep: char, ext: string)

  /** The bare probe `'{}{}{}{}'.format(root, sep, n, ext)`. */
  function Probe(pr: Prober, n: nat): string
  {
    pr.root + [pr.sep] + NatToString(n) + pr.ext
  }

  /** The n-th candidate path. */
  function Candidate(pr: Prober, n: nat): string
  {
    if pr.joined then Join(pr.dir, Probe(pr, n)) else Probe(pr, n)
  }

  lemma ProbeInjective(pr: Prober, n: nat, m: nat)
    requires Probe(pr, n) == Probe(pr, m)
    ensures n == m
  {
    var a, b := NatToString(n), NatToString(m);
    var lo := |pr.root| + 1;
    assert |a| == |b|;
    assert Probe(pr, n)[lo..lo + |a|] == a;
    assert Probe(pr, m)[lo..lo + |b|] == b;
    NatToStringInjective(n, m);
  }

  /** Distinct probing numbers give distinct candidates. */
  lemma CandidateInjective(pr: Prober, n: nat, m: nat)
    requires Candidate(pr, n) == Candidate(pr, m)
    ensures n == m
  {
    var p, q := Probe(pr, n), Probe(pr, m);
    if pr.joined {
      assert p[0] == q[0] by {
        if pr.root == "" {
          assert p[0] == pr.sep && q[0] == pr.sep;
        } else {
          assert p[0] == pr.root[0] && q[0] == pr.root[0];
        }
      }
      if "/" <= p {
        assert "/" <= q;
      } else {
        assert !("/" <= q);
        var d := pr.dir;
        if d == "" || d[|d| - 1] == '/' {
          assert Join(d, p)[|d|..] == p && Join(d, q)[|d|..] == q;
        } else {
          assert Join(d, p)[|d| + 1..] == p && Join(d, q)[|d| + 1..] == q;
        }
      }
    }
    ProbeInjective(pr, n, m);
  }

  /** The candidates numbered 1..n. */
  function Probed(pr: Prober, n: nat): set<string>
  {
    set j | 1 <= j <= n :: Candidate(pr, j)
  }

  lemma {:induction false} ProbedSize(pr: Prober, n: nat)
    ensures |Probed(pr, n)| == n
  {
    if n > 0 {
      ProbedSize(pr, n - 1);
      assert Probed(pr, n) == Probed(pr, n - 1) + {Candidate(pr, n)};
      if Candidate(pr, n) in Probed(pr, n - 1) {
        var j :| 1 <= j <= n - 1 && Candidate(pr, j) == Candidate(pr, n);
        CandidateInjective(pr, j, n);
      }
    }
  }

  /** Pigeonhole: a filesystem with `|fs|` entries cannot hold more than `|fs|`
      distinct candidates, so the probing loop ends. */
  lemma ProbesBound(fs: FileSystem, pr: Prober, n: nat)
    requires forall j :: 1 <= j <= n ==> Candidate(pr, j) in fs
    ensures n <= |fs|
  {
    ProbedSize(pr, n);
    assert Probed(pr, n) <= fs.Keys;
    assert |Probed(pr, n)| <= |fs.Keys| by {
      SubsetSize(Probed(pr, n), fs.Keys);
    }
  }

  lemma {:induction false} SubsetSize(a: set<string>, b: set<string>)
    requires a <= b
    ensures |a| <= |b|
    decreases |b|
  {
    if a != {} {
      var x :| x in a;
      SubsetSize(a - {x}, b - {x});
    }
  }

  /** The least probing number, from `n` on, whose candidate is free. */
  function FirstFree(fs: FileSystem, pr: Prober, n: nat): (m: nat)
    requires n >= 1
    requires forall j :: 1 <= j < n ==> Candidate(pr, j) in fs
    ensures n <= m <= |fs| + 1
    ensures Candidate(pr, m) !in fs
    ensures forall j :: 1 <= j < m ==> Candidate(pr, j) in fs
    decreases |fs| + 1 - n
  {
    ProbesBound(fs, pr, n - 1);
    if Candidate(pr, n) !in fs then n
    else
      ProbesBound(fs, pr, n);
      FirstFree(fs, pr, n + 1)
  }

  /** `get_uniq_fpath(filepath)`: the path itself when it is free, otherwise
      `<root>-<n><ext>` for the least free n >= 1. */
  function UniqFpath(fs: FileSystem, filepath: string): (r: string)
    ensures r != ""
  {
    var fpath := MakeItem(filepath).fpath;
    if fpath !in fs then fpath
    else
      var pr := Prober(false, "", SplitExt(fpath).0, '-', SplitExt(fpath).1);
      Candidate(pr, FirstFree(fs, pr, 1))
  }

  /** The probing loop of `get_uniq_fpath`. */
  method GetUniqFpath(fs: FileSystem, filepath: string) returns (r: string)
    ensures r == UniqFpath(fs, filepath)
  {
    var fitem := MakeItem(filepath);
    if !Exists(fs, fitem) {
      return fitem.fpath;
    }
    var probingNumber := 1;
    var (root, ext) := SplitExt(fitem.fpath);
    var pr := Prober(false, "", root, '-', ext);
    fitem := MakeItem(root + "-" + NatToString(probingNumber) + ext);
    while Exists(fs, fitem)
      invariant probingNumber >= 1
      invariant fitem.fpath == Candidate(pr, probingNumber)
      invariant forall j :: 1 <= j < probingNumber ==> Candidate(pr, j) in fs
      decreases |fs| + 1 - probingNumber
    {
      ProbesBound(fs, pr, probingNumber);
      probingNumber := probingNumber + 1;
      fitem := MakeItem(root + "-" + NatToString(probingNumber) + ext);
    }
    r := fitem.fpath;
  }

  /** A character that is neither `.` nor `/`, so probing text never changes where
      `splitext` and `dirname` cut. */
  predicate Plain(s: string)
  {
    forall k :: 0 <= k < |s| ==> s[k] != '.' && s[k] != '/'
  }

  lemma DigitsArePlain(n: nat)
    ensures Plain(NatToString(n))
  {
    var s := NatToString(n);
    assert forall k :: 0 <= k < |s| ==> IsDigit(s[k]);
  }

  /** Appending text free of `c` leaves the last `c` where it was. */
  lemma RFindAppend(a: string, b: string, c: char)
    requires c !in b
    ensures RFind(a + b, c) == RFind(a, c)
  {
    var i := RFind(a, c);
    forall k | i < k < |a + b| ensures (a + b)[k] != c {
      if k >= |a| {
        assert (a + b)[k] == b[k - |a|];
      }
    }
    if i >= 0 {
      assert (a + b)[i] == a[i];
    }
    RFindUnique(a + b, c, i);
  }

  /** `dirname` only looks at the text up to the last `/`. */
  lemma DirnameSameHead(p: string, q: string)
    requires RFind(q, '/') == RFind(p, '/')
    requires q[..RFind(p, '/') + 1] == p[..RFind(p, '/') + 1]
    ensures Dirname(q) == Dirname(p)
  {
  }

  lemma ProbeKeepsPartsNoExt(p: string, mid: string)
    requires '.' !in mid && '/' !in mid
    requires SplitExt(p).1 == ""
    ensures SplitExt(p + mid) == (p + mid, "") && Dirname(p + mid) == Dirname(p)
  {
    var q := p + mid;
    var sp, dp := RFind(p, '/'), RFind(p, '.');
    RFindAppend(p, mid, '/');
    RFindAppend(p, mid, '.');
    assert q[..sp + 1] == p[..sp + 1];
    if dp > sp {
      assert q[sp + 1..dp] == p[sp + 1..dp];
    }
    DirnameSameHead(p, q);
  }

  /** A `c` followed by text free of `c` is the last one. */
  lemma {:induction false} RFindLastAt(a: string, c: char, b: string)
    requires c !in b
    ensures RFind(a + [c] + b, c) == |a|
  {
    var s := a + [c] + b;
    if b != [] {
      assert s[|s| - 1] == b[|b| - 1] != c;
      assert s[..|s| - 1] == a + [c] + b[..|b| - 1];
      RFindLastAt(a, c, b[..|b| - 1]);
    }
  }

  lemma ProbeKeepsPartsExt(root: string, mid: string, ext: string)
    requires '.' !in mid && '/' !in mid
    requires ext != "" && ext[0] == '.' && '/' !in ext && '.' !in ext[1..]
    requires HasNonDot(Basename(root))
    ensures SplitExt(root + mid + ext) == (root + mid, ext)
    ensures Dirname(root + mid + ext) == Dirname(root + ext)
  {
    ProbeSplitExt(root, mid, ext);
    ProbeDirname(root, mid, ext);
  }

  /** Inserting a dot-free, slash-free text before the extension keeps it. */
  lemma ProbeSplitExt(root: string, mid: string, ext: string)
    requires '.' !in mid && '/' !in mid
    requires ext != "" && ext[0] == '.' && '/' !in ext && '.' !in ext[1..]
    requires HasNonDot(Basename(root))
    ensures SplitExt(root + mid + ext) == (root + mid, ext)
  {
    var q := root + mid + ext;
    var s := RFind(root, '/');
    assert '/' !in mid + ext;
    RFindAppend(root, mid + ext, '/');
    assert q == root + (mid + ext);
    assert q == (root + mid) + ['.'] + ext[1..];
    RFindLastAt(root + mid, '.', ext[1..]);
    var dq := |root| + |mid|;
    assert q[s + 1..dq] == root[s + 1..] + mid;
    assert HasNonDot(q[s + 1..dq]) by {
      var name := Basename(root);
      var k :| 0 <= k < |name| && name[k] != '.';
      assert q[s + 1..dq][k] == name[k];
    }
    assert q[..dq] == root + mid && q[dq..] == ext;
  }

  /** Inserting a slash-free text before the extension keeps the directory. */
  lemma ProbeDirname(root: string, mid: string, ext: string)
    requires '/' !in mid && '/' !in ext
    ensures Dirname(root + mid + ext) == Dirname(root + ext)
  {
    var q := root + mid + ext;
    var s := RFind(root, '/');
    assert '/' !in mid + ext;
    RFindAppend(root, mid + ext, '/');
    RFindAppend(root, ext, '/');
    assert q == root + (mid + ext);
    assert q[..s + 1] == root[..s + 1] == (root + ext)[..s + 1];
    DirnameSameHead(root + ext, q);
  }

  /** The probe of `p` keeps the extension `splitext(p)` found, and the directory. */
  lemma ProbeKeepsParts(p: string, sep: char, digits: string)
    requires sep != '.' && sep != '/' && Plain(digits)
    ensures var (root, ext) := SplitExt(p);
      var q := root + [sep] + digits + ext;
      SplitExt(q) == (root + [sep] + digits, ext) && Dirname(q) == Dirname(p)
  {
    var (root, ext) := SplitExt(p);
    SplitExtParts(p);
    var mid := [sep] + digits;
    assert '.' !in mid && '/' !in mid by {
      assert forall k :: 1 <= k < |mid| ==> mid[k] == digits[k - 1];
    }
    assert root + [sep] + digits + ext == root + mid + ext;
    assert root + [sep] + digits == root + mid;
    if ext == "" {
      assert root == p;
      ProbeKeepsPartsNoExt(p, mid);
      assert root + mid + ext == p + mid;
    } else {
      ProbeKeepsPartsExt(root, mid, ext);
    }
  }

  /** What `get_uniq_fpath` returns: a free path; the path itself when it was free;
      otherwise the least free `<root>-<n><ext>`, which keeps the extension and the
      directory of the requested path. */
  lemma UniqFpathMeaning(fs: FileSystem, filepath: string)
    ensures var fpath := MakeItem(filepath).fpath;
      var r := UniqFpath(fs, filepath);
      && r !in fs
      && (fpath !in fs ==> r == fpath)
      && (fpath in fs ==>
            exists n: nat :: n >= 1
              && r == SplitExt(fpath).0 + "-" + NatToString(n) + SplitExt(fpath).1
              && (forall j: nat :: 1 <= j < n ==> SplitExt(fpath).0 + "-" + NatToString(j) + SplitExt(fpath).1 in fs))
      && SplitExt(r).1 == SplitExt(fpath).1
      && Dirname(r) == Dirname(fpath)
  {
    var fpath := MakeItem(filepath).fpath;
    if fpath in fs {
      var pr := Prober(false, "", SplitExt(fpath).0, '-', SplitExt(fpath).1);
      var n := FirstFree(fs, pr, 1);
      DigitsArePlain(n);
      ProbeKeepsParts(fpath, '-', NatToString(n));
      assert UniqFpath(fs, filepath) == Probe(pr, n);
      assert Probe(pr, n) == SplitExt(fpath).0 + "-" + NatToString(n) + SplitExt(fpath).1;
      forall j: nat | 1 <= j < n
        ensures SplitExt(fpath).0 + "-" + NatToString(j) + SplitExt(fpath).1 in fs
      {
        assert Candidate(pr, j) == SplitExt(fpath).0 + "-" + NatToString(j) + SplitExt(fpath).1;
      }
    }
  }

  /** `get_proper_file_path(path)` as written: each probe `<filename>_<n><ext>` is
      joined onto `dirname(path)`, although `filename` already holds that directory. */
  function ProperFilePathAsWritten(fs: FileSystem, path: string): string
  {
    if path !in fs then path
    else
      var pr := Prober(true, Dirname(path), SplitExt(path).0, '_', SplitExt(path).1);
      Candidate(pr, FirstFree(fs, pr, 1))
  }

  /** The probing loop of `get_proper_file_path`. */
  method GetProperFilePath(fs: FileSystem, path: string) returns (ret: string)
    ensures ret == ProperFilePathAsWritten(fs, path)
  {
    if path !in fs {
      return path;
    }
    var dirname := Dirname(path);
    var (filename, fileext) := SplitExt(path);
    var pr := Prober(true, dirname, filename, '_', fileext);
    var postfixNumber := 1;
    ret := Join(dirname, filename + "_" + NatToString(postfixNumber) + fileext);
    while ret in fs
      invariant postfixNumber >= 1
      invariant ret == Candidate(pr, postfixNumber)
      invariant forall j :: 1 <= j < postfixNumber ==> Candidate(pr, j) in fs
      decreases |fs| + 1 - postfixNumber
    {
      ProbesBound(fs, pr, postfixNumber);
      postfixNumber := postfixNumber + 1;
      ret := Join(dirname, filename + "_" + NatToString(postfixNumber) + fileext);
    }
  }

  /** `get_proper_file_path` as evidently intended: the probe itself, a sibling of
      the requested path. */
  function ProperFilePath(fs: FileSystem, path: string): string
  {
    if path !in fs then path
    else
      var pr := Prober(false, "", SplitExt(path).0, '_', SplitExt(path).1);
      Candidate(pr, FirstFree(fs, pr, 1))
  }

  /** The intended result is free, is the path itself when that was free, and
      otherwise keeps the extension and the directory of the path. */
  lemma ProperFilePathMeaning(fs: FileSystem, path: string)
    ensures var r := ProperFilePath(fs, path);
      && r !in fs
      && (path !in fs ==> r == path)
      && SplitExt(r).1 == SplitExt(path).1
      && Dirname(r) == Dirname(path)
  {
    if path in fs {
      var pr := Prober(false, "", SplitExt(path).0, '_', SplitExt(path).1);
      var n := FirstFree(fs, pr, 1);
      DigitsArePlain(n);
      ProbeKeepsParts(path, '_', NatToString(n));
    }
  }

  /** Two probers with the same candidates find the same least free number. */
  lemma FirstFreeSameCandidates(fs: FileSystem, a: Prober, b: Prober)
    requires forall n: nat :: Candidate(a, n) == Candidate(b, n)
    ensures FirstFree(fs, a, 1) == FirstFree(fs, b, 1)
  {
    var m, m' := FirstFree(fs, a, 1), FirstFree(fs, b, 1);
    assert Candidate(a, m) == Candidate(b, m);
    assert Candidate(a, m') == Candidate(b, m');
  }

  /** For an absolute path, which is what the server passes, the code as written
      returns the intended path. */
  lemma ProperFilePathAbsolute(fs: FileSystem, path: string)
    requires "/" <= path
    ensures ProperFilePathAsWritten(fs, path) == ProperFilePath(fs, path)
  {
    if path in fs {
      SplitExtParts(path);
      var (filename, ext) := SplitExt(path);
      var a := Prober(true, Dirname(path), filename, '_', ext);
      var b := Prober(false, "", filename, '_', ext);
      assert filename != "" && filename[0] == '/' by {
        if ext != "" {
          assert path == filename + ext;
          assert ext[0] == '.';
          assert filename != "";
          assert filename[0] == path[0];
        }
      }
      forall n: nat ensures Candidate(a, n) == Candidate(b, n) {
        assert Probe(a, n)[0] == '/';
      }
      FirstFreeSameCandidates(fs, a, b);
    }
  }

  /** The parts `get_proper_file_path` takes from `up/a.txt`. */
  lemma RelativeParts()
    ensures SplitExt("up/a.txt") == ("up/a", ".txt")
    ensures Dirname("up/a.txt") == "up"
  {
    var p := "up/a.txt";
    assert RFind(p, '/') == 2 by {
      RFindUnique(p, '/', 2);
    }
    assert RFind(p, '.') == 4 by {
      RFindUnique(p, '.', 4);
    }
    assert p[3..4] == "a" && "a"[0] != '.';
    assert p[..4] == "up/a" && p[4..] == ".txt";
    assert p[..3] == "up/" && "up/"[0] != '/';
    assert "up" + ['/'] == "up/";
    RStripOne("up", '/');
  }

  /** The first probes for `up/a.txt`, as written and as intended. */
  lemma RelativeFirstProbes()
    ensures Candidate(Prober(true, "up", "up/a", '_', ".txt"), 1) == "up/up/a_1.txt"
    ensures Candidate(Prober(false, "", "up/a", '_', ".txt"), 1) == "up/a_1.txt"
  {
    assert NatToString(1) == "1";
    var probe := Probe(Prober(true, "up", "up/a", '_', ".txt"), 1);
    assert probe == "up/a_1.txt";
    assert probe[0] != '/' && "up"[1] != '/';
    assert "up" + "/" + probe == "up/up/a_1.txt";
  }

  /** A relative path lands in a doubled directory: with `up/a.txt` taken,
      `up/up/a_1.txt` is returned instead of `up/a_1.txt`. */
  lemma ProperFilePathRelativeDoubles()
    ensures ProperFilePathAsWritten(map["up/a.txt" := File], "up/a.txt") == "up/up/a_1.txt"
    ensures ProperFilePath(map["up/a.txt" := File], "up/a.txt") == "up/a_1.txt"
  {
    var fs := map["up/a.txt" := File];
    RelativeParts();
    RelativeFirstProbes();
    var a := Prober(true, "up", "up/a", '_', ".txt");
    var b := Prober(false, "", "up/a", '_', ".txt");
    assert FirstFree(fs, a, 1) == 1;
    assert FirstFree(fs, b, 1) == 1;
  }
}
