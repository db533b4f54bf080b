/**
 * The parts of Python's `posixpath` that the server uses: `basename`,
 * `dirname`, `splitext` and two-argument `join`, on paths spelled as strings.
 */
module PosixPath {
  import opened Text

  /** `os.path.basename(p)`: everything after the last `/`. */
  function Basename(p: string): (name: string)
    ensures '/' !in name
    ensures |name| <= |p| && p[|p| - |name|..] == name
  {
    var i := RFind(p, '/') + 1;
    assert forall k :: 0 <= k < |p[i..]| ==> p[i..][k] == p[i + k];
    p[i..]
  }

  /** Every character of `s` is `c`. */
  predicate AllChar(s: string, c: char)
  {
    forall k :: 0 <= k < |s| ==> s[k] == c
  }

  /** `s.rstrip(c)` for one character. */
  function RStripChar(s: string, c: char): (r: string)
    ensures r <= s
    ensures r == [] || r[|r| - 1] != c
    ensures AllChar(s[|r|..], c)
  {
    if |s| == 0 || s[|s| - 1] != c then s else RStripChar(s[..|s| - 1], c)
  }

  /** `os.path.dirname(p)`: the head up to the last `/`, with its trailing slashes
      removed unless the head consists of slashes only. */
  function Dirname(p: string): string
  {
    var head := p[..RFind(p, '/') + 1];
    if head != "" && !AllChar(head, '/') then RStripChar(head, '/') else head
  }

  /** `os.path.join(a, b)`: an absolute `b` replaces `a`; otherwise a `/` is inserted
      unless `a` is empty or already ends with one. */
  function Join(a: string, b: string): (r: string)
    ensures "/" <= b ==> r == b
    ensures !("/" <= b) && a != "" && a[|a| - 1] != '/' ==> r == a + "/" + b
    ensures !("/" <= b) && (a == "" || a[|a| - 1] == '/') ==> r == a + b
  {
    if "/" <= b then b
    else if a == "" || a[|a| - 1] == '/' then a + b
    else a + "/" + b
  }

  /** Some character of `s` is not a dot. */
  predicate HasNonDot(s: string)
  {
    exists k :: 0 <= k < |s| && s[k] != '.'
  }

  /** `os.path.splitext(p)`: split at the last `.` of the final component, unless
      that component has only dots before it (so `.bashrc` has no extension). */
  function SplitExt(p: string): (string, string)
  {
    var sep := RFind(p, '/');
    var dot := RFind(p, '.');
    if dot > sep && HasNonDot(p[sep + 1..dot]) then (p[..dot], p[dot..]) else (p, "")
  }

  /** `splitext` loses nothing, and an extension is a dot followed by neither `/`
      nor another dot, found after a non-dot character of the final component. */
  lemma SplitExtParts(p: string)
    ensures SplitExt(p).0 + SplitExt(p).1 == p
    ensures var ext := SplitExt(p).1;
      ext == "" || (ext[0] == '.' && '/' !in ext && '.' !in ext[1..])
    ensures var (root, ext) := SplitExt(p);
      ext != "" ==> HasNonDot(Basename(root))
  {
    var sep := RFind(p, '/');
    var dot := RFind(p, '.');
    if dot > sep && HasNonDot(p[sep + 1..dot]) {
      var root, ext := p[..dot], p[dot..];
      assert root + ext == p;
      forall k | 0 <= k < |ext| ensures ext[k] != '/' && (k > 0 ==> ext[k] != '.') {
        assert ext[k] == p[dot + k];
      }
      assert RFind(root, '/') == sep by {
        forall k | sep < k < |root| ensures root[k] != '/' {
          assert root[k] == p[k];
        }
        if sep >= 0 {
          assert root[sep] == p[sep];
        } else {
          RFindUnique(root, '/', -1);
        }
        RFindUnique(root, '/', sep);
      }
      assert Basename(root) == p[sep + 1..dot];
    }
  }

  /** The characterisation of `RFind` by its contract determines it. */
  lemma RFindUnique(s: string, c: char, j: int)
    requires -1 <= j < |s|
    requires 0 <= j ==> s[j] == c
    requires forall k :: j < k < |s| ==> s[k] != c
    requires j == -1 ==> forall k :: 0 <= k < |s| ==> s[k] != c
    ensures RFind(s, c) == j
  {
    var i := RFind(s, c);
  }

  /** A name made of a leading dot and no other dot (a hidden file such as `.env`)
      has no extension. */
  lemma LeadingDotIsNotExtension(dir: string, name: string)
    requires name != "" && name[0] == '.'
    requires '/' !in name && '.' !in name[1..]
    ensures SplitExt(Join(dir, name)) == (Join(dir, name), "")
  {
    var p := Join(dir, name);
    var sep := RFind(p, '/');
    var dot := RFind(p, '.');
    var start := |p| - |name|;
    assert p[start..] == name;
    forall k | start <= k < |p| ensures p[k] != '/' && (k > start ==> p[k] != '.') {
      assert p[k] == name[k - start];
    }
    if start > 0 {
      assert p[start - 1] == '/';
    }
    RFindUnique(p, '/', start - 1);
    if dot > sep {
      assert dot == start;
      assert p[sep + 1..dot] == [];
    }
  }

  /** `basename` and `dirname` undo `join` of a directory and a plain name. */
  lemma JoinParts(dir: string, name: string)
    requires name != "" && '/' !in name
    ensures Basename(Join(dir, name)) == name
    ensures dir == "" ==> Dirname(Join(dir, name)) == ""
    ensures dir != "" && dir[|dir| - 1] != '/' ==> Dirname(Join(dir, name)) == dir
  {
    assert !("/" <= name) by {
      assert name[0] != '/';
    }
    if dir == "" {
      assert Join(dir, name) == name;
      RFindUnique(name, '/', -1);
    } else if dir[|dir| - 1] != '/' {
      JoinInserted(dir, name);
    } else {
      LastSlash(dir, name);
    }
  }

  /** Joining onto a directory without a trailing slash inserts the one slash that
      `dirname` then strips. */
  lemma JoinInserted(dir: string, name: string)
    requires dir != "" && dir[|dir| - 1] != '/'
    requires name != "" && '/' !in name
    ensures Basename(dir + "/" + name) == name
    ensures Dirname(dir + "/" + name) == dir
  {
    var head := dir + "/";
    LastSlash(head, name);
    assert !AllChar(head, '/') by {
      assert head[|dir| - 1] == dir[|dir| - 1];
    }
    RStripOne(dir, '/');
  }

  /** A head ending in a slash followed by a plain name splits back at that slash. */
  lemma LastSlash(head: string, name: string)
    requires head != "" && head[|head| - 1] == '/' && '/' !in name
    ensures RFind(head + name, '/') == |head| - 1
    ensures Basename(head + name) == name
    ensures (head + name)[..|head|] == head
  {
    var p := head + name;
    assert p[|head| - 1] == '/';
    forall k | |head| <= k < |p| ensures p[k] != '/' {
      assert p[k] == name[k - |head|];
    }
    RFindUnique(p, '/', |head| - 1);
    assert p[|head|..] == name;
  }

  lemma RStripOne(s: string, c: char)
    requires s != "" && s[|s| - 1] != c
    ensures RStripChar(s + [c], c) == s
  {
    assert (s + [c])[..|s|] == s;
  }
}
