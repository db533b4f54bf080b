/**
 * Directory listing and breadcrumbs of `hfs/core.py`: `get_flist` with the
 * `flist_filters` table, and `get_ancestors_dlist` with `DirectoryItem`.
 */
module Listing {
  import opened Text
  import opened PosixPath
  import opened FileModel

  /** The keys of `flist_filters`; any other token selects the identity, which keeps
      every item because a `FileItem` is always truthy. */
  datatype Filter = HiddenOnly | ShownOnly | FilesOnly | DirsOnly | KeepAll

  /** `flist_filters.get(token, lambda x: x)`. */
  function FilterOf(token: string): Filter
  {
    if token == "hidden" then HiddenOnly
    else if token == "shown" then ShownOnly
    else if token == "file" then FilesOnly
    else if token == "dir" then DirsOnly
    else KeepAll
  }

  predicate Keeps(fs: FileSystem, flt: Filter, f: FileItem)
  {
    match flt
    case HiddenOnly => Hidden(f)
    case ShownOnly => !Hidden(f)
    case FilesOnly => !IsDir(fs, f)
    case DirsOnly => IsDir(fs, f)
    case KeepAll => true
  }

  /** The item passes the filter of every token. */
  predicate PassesAll(fs: FileSystem, tokens: seq<string>, f: FileItem)
  {
    forall k :: 0 <= k < |tokens| ==> Keeps(fs, FilterOf(tokens[k]), f)
  }

  /** The conditions `get_flist` filters by: existence, one filter, every filter of a
      token list, or two conditions at once. */
  datatype Criterion = Existing | By(flt: Filter) | AllOf(tokens: seq<string>) | Both(first: Criterion, second: Criterion)

  predicate Holds(fs: FileSystem, c: Criterion, f: FileItem)
  {
    match c
    case Existing => Exists(fs, f)
    case By(flt) => Keeps(fs, flt, f)
    case AllOf(tokens) => PassesAll(fs, tokens, f)
    case Both(a, b) => Holds(fs, a, f) && Holds(fs, b, f)
  }

  /** Python's `filter`, kept as a sequence: the elements that satisfy `p`, in
      order. */
  function Filtered<T>(s: seq<T>, p: T -> bool): (r: seq<T>)
    ensures |r| <= |s|
  {
    if s == [] then []
    else (if p(s[0]) then [s[0]] else []) + Filtered(s[1..], p)
  }

  lemma {:induction false} FilteredMembers<T>(s: seq<T>, p: T -> bool)
    ensures forall x :: x in Filtered(s, p) <==> x in s && p(x)
  {
    if s != [] {
      FilteredMembers(s[1..], p);
      assert s == [s[0]] + s[1..];
    }
  }

  lemma {:induction false} FilteredFilter<T>(s: seq<T>, p: T -> bool, q: T -> bool, both: T -> bool)
    requires forall x :: both(x) == (p(x) && q(x))
    ensures Filtered(Filtered(s, p), q) == Filtered(s, both)
  {
    if s != [] {
      FilteredFilter(s[1..], p, q, both);
      var sp := Filtered(s, p);
      if p(s[0]) {
        assert sp == [s[0]] + Filtered(s[1..], p);
        assert sp != [] && sp[0] == s[0] && sp[1..] == Filtered(s[1..], p);
      } else {
        assert sp == Filtered(s[1..], p);
      }
    }
  }

  lemma {:induction false} FilteredSame<T>(s: seq<T>, p: T -> bool, q: T -> bool)
    requires forall x :: p(x) == q(x)
    ensures Filtered(s, p) == Filtered(s, q)
  {
    if s != [] {
      FilteredSame(s[1..], p, q);
    }
  }

  lemma {:induction false} FilteredAppend<T>(s: seq<T>, t: seq<T>, p: T -> bool)
    ensures Filtered(s + t, p) == Filtered(s, p) + Filtered(t, p)
  {
    if s != [] {
      FilteredAppend(s[1..], t, p);
      assert (s + t)[0] == s[0] && (s + t)[1..] == s[1..] + t;
    } else {
      assert s + t == t;
    }
  }

  lemma {:induction false} FilteredAll<T>(s: seq<T>, p: T -> bool)
    requires forall x :: x in s ==> p(x)
    ensures Filtered(s, p) == s
  {
    if s != [] {
      FilteredAll(s[1..], p);
    }
  }

  lemma {:induction false} FilteredNone<T>(s: seq<T>, p: T -> bool)
    requires forall x :: x in s ==> !p(x)
    ensures Filtered(s, p) == []
  {
    if s != [] {
      FilteredNone(s[1..], p);
    }
  }

  /** A condition and its negation split a sequence into two parts that hold every
      element exactly once. */
  lemma {:induction false} FilteredSplit<T>(s: seq<T>, p: T -> bool, q: T -> bool)
    requires forall x :: q(x) == !p(x)
    ensures multiset(Filtered(s, p)) + multiset(Filtered(s, q)) == multiset(s)
  {
    if s != [] {
      var x, rest := s[0], s[1..];
      var a, b := Filtered(rest, p), Filtered(rest, q);
      FilteredSplit(rest, p, q);
      assert Filtered(s, p) == (if p(x) then [x] else []) + a;
      assert Filtered(s, q) == (if p(x) then [] else [x]) + b;
      SplitOne(x, p(x), a, b);
      assert s == [x] + rest;
    }
  }

  /** An element sent to one of two parts adds itself once to their union. */
  lemma SplitOne<T>(x: T, first: bool, a: seq<T>, b: seq<T>)
    ensures multiset((if first then [x] else []) + a) + multiset((if first then [] else [x]) + b)
      == multiset{x} + multiset(a) + multiset(b)
  {
  }

  /** The criterion as a condition on items. */
  function Test(fs: FileSystem, c: Criterion): FileItem -> bool
  {
    x => Holds(fs, c, x)
  }

  /** `filter` by a criterion. */
  function Select(fs: FileSystem, s: seq<FileItem>, c: Criterion): (r: seq<FileItem>)
    ensures |r| <= |s|
  {
    Filtered(s, Test(fs, c))
  }

  /** The selection holds exactly the elements that satisfy the criterion. */
  lemma SelectMembers(fs: FileSystem, s: seq<FileItem>, c: Criterion)
    ensures forall x :: x in Select(fs, s, c) <==> x in s && Holds(fs, c, x)
  {
    FilteredMembers(s, Test(fs, c));
  }

  /** Filtering twice is filtering once by both criteria. */
  lemma SelectSelect(fs: FileSystem, s: seq<FileItem>, a: Criterion, b: Criterion)
    ensures Select(fs, Select(fs, s, a), b) == Select(fs, s, Both(a, b))
  {
    FilteredFilter(s, Test(fs, a), Test(fs, b), Test(fs, Both(a, b)));
  }

  /** Filtering by equivalent criteria gives the same sequence. */
  lemma SelectSame(fs: FileSystem, s: seq<FileItem>, a: Criterion, b: Criterion)
    requires forall x :: Holds(fs, a, x) == Holds(fs, b, x)
    ensures Select(fs, s, a) == Select(fs, s, b)
  {
    FilteredSame(s, Test(fs, a), Test(fs, b));
  }

  lemma SelectAppend(fs: FileSystem, s: seq<FileItem>, t: seq<FileItem>, c: Criterion)
    ensures Select(fs, s + t, c) == Select(fs, s, c) + Select(fs, t, c)
  {
    FilteredAppend(s, t, Test(fs, c));
  }

  lemma SelectAll(fs: FileSystem, s: seq<FileItem>, c: Criterion)
    requires forall x :: x in s ==> Holds(fs, c, x)
    ensures Select(fs, s, c) == s
  {
    FilteredAll(s, Test(fs, c));
  }

  lemma SelectNone(fs: FileSystem, s: seq<FileItem>, c: Criterion)
    requires forall x :: x in s ==> !Holds(fs, c, x)
    ensures Select(fs, s, c) == []
  {
    FilteredNone(s, Test(fs, c));
  }

  /** Directories and files split a sequence into two parts that hold every
      element exactly once. */
  lemma SelectSplit(fs: FileSystem, s: seq<FileItem>)
    ensures multiset(Select(fs, s, By(DirsOnly))) + multiset(Select(fs, s, By(FilesOnly))) == multiset(s)
  {
    FilteredSplit(s, Test(fs, By(DirsOnly)), Test(fs, By(FilesOnly)));
  }

  /** The filters are combined by AND: only the SET of tokens matters, not their order
      or repetition. */
  lemma PassesAllBySet(fs: FileSystem, tokens: seq<string>, tokens': seq<string>, f: FileItem)
    requires forall t :: t in tokens <==> t in tokens'
    ensures PassesAll(fs, tokens, f) == PassesAll(fs, tokens', f)
  {
    if PassesAll(fs, tokens, f) {
      forall k | 0 <= k < |tokens'| ensures Keeps(fs, FilterOf(tokens'[k]), f) {
        assert tokens'[k] in tokens;
        var j :| 0 <= j < |tokens| && tokens[j] == tokens'[k];
      }
    }
    if PassesAll(fs, tokens', f) {
      forall k | 0 <= k < |tokens| ensures Keeps(fs, FilterOf(tokens[k]), f) {
        assert tokens[k] in tokens';
        var j :| 0 <= j < |tokens'| && tokens'[j] == tokens[k];
      }
    }
  }

  /** Adding one token adds the condition of its filter. */
  lemma PassesAllSnoc(fs: FileSystem, tokens: seq<string>, t: string, f: FileItem)
    ensures PassesAll(fs, tokens + [t], f) == (PassesAll(fs, tokens, f) && Keeps(fs, FilterOf(t), f))
  {
    if PassesAll(fs, tokens, f) && Keeps(fs, FilterOf(t), f) {
      forall k | 0 <= k < |tokens| + 1 ensures Keeps(fs, FilterOf((tokens + [t])[k]), f) {
        if k < |tokens| {
          assert (tokens + [t])[k] == tokens[k];
        }
      }
    }
    if PassesAll(fs, tokens + [t], f) {
      assert (tokens + [t])[|tokens|] == t;
      forall k | 0 <= k < |tokens| ensures Keeps(fs, FilterOf(tokens[k]), f) {
        assert (tokens + [t])[k] == tokens[k];
      }
    }
  }

  /** A token that names no filter keeps every item. */
  lemma UnknownTokenKeepsAll(fs: FileSystem, tokens: seq<string>, unknown: string, f: FileItem)
    requires unknown !in ["hidden", "shown", "file", "dir"]
    ensures PassesAll(fs, tokens + [unknown], f) == PassesAll(fs, tokens, f)
  {
    PassesAllSnoc(fs, tokens, unknown, f);
  }

  /** `map(lambda x: FileItem(join(filepath, x)), os.listdir(filepath))`; the
      directory enumeration is passed in, in the filesystem's own order. */
  function Candidates(filepath: string, names: seq<string>): (items: seq<FileItem>)
    ensures |items| == |names|
    ensures forall k :: 0 <= k < |names| ==> items[k] == MakeItem(Join(filepath, names[k]))
  {
    seq(|names|, k requires 0 <= k < |names| => MakeItem(Join(filepath, names[k])))
  }

  /** The existing entries that pass every filter, in enumeration order. */
  function Kept(fs: FileSystem, filepath: string, names: seq<string>, filters: seq<string>): seq<FileItem>
  {
    Select(fs, Candidates(filepath, names), Both(Existing, AllOf(filters)))
  }

  /** `sorted(items, key=lambda x: x.isdir, reverse=True)`. */
  function SortDirsFirst(fs: FileSystem, items: seq<FileItem>): seq<FileItem>
  {
    Select(fs, items, By(DirsOnly)) + Select(fs, items, By(FilesOnly))
  }

  /** `SortDirsFirst` is a stable sort on the directory flag, descending: a permutation
      of its input with every directory before every file, and each group in input order. */
  lemma SortDirsFirstIsStableSort(fs: FileSystem, items: seq<FileItem>)
    ensures var r := SortDirsFirst(fs, items);
      && multiset(r) == multiset(items)
      && (forall i, j :: 0 <= i < j < |r| && IsDir(fs, r[j]) ==> IsDir(fs, r[i]))
      && Select(fs, r, By(DirsOnly)) == Select(fs, items, By(DirsOnly))
      && Select(fs, r, By(FilesOnly)) == Select(fs, items, By(FilesOnly))
  {
    SelectSplit(fs, items);
    SortDirsFirstOrdered(fs, items);
    SortDirsFirstStable(fs, items);
  }

  /** In the sorted sequence no file comes before a directory. */
  lemma SortDirsFirstOrdered(fs: FileSystem, items: seq<FileItem>)
    ensures var r := SortDirsFirst(fs, items);
      forall i, j :: 0 <= i < j < |r| && IsDir(fs, r[j]) ==> IsDir(fs, r[i])
  {
    var dirs := Select(fs, items, By(DirsOnly));
    var files := Select(fs, items, By(FilesOnly));
    var r := dirs + files;
    SelectMembers(fs, items, By(DirsOnly));
    SelectMembers(fs, items, By(FilesOnly));
    forall k | 0 <= k < |r|
      ensures k < |dirs| ==> IsDir(fs, r[k])
      ensures k >= |dirs| ==> !IsDir(fs, r[k])
    {
      if k < |dirs| {
        assert r[k] == dirs[k] && dirs[k] in dirs;
      } else {
        assert r[k] == files[k - |dirs|] && files[k - |dirs|] in files;
      }
    }
  }

  /** Sorting keeps the directories, and the files, in input order. */
  lemma SortDirsFirstStable(fs: FileSystem, items: seq<FileItem>)
    ensures var r := SortDirsFirst(fs, items);
      && Select(fs, r, By(DirsOnly)) == Select(fs, items, By(DirsOnly))
      && Select(fs, r, By(FilesOnly)) == Select(fs, items, By(FilesOnly))
  {
    var dirs := Select(fs, items, By(DirsOnly));
    var files := Select(fs, items, By(FilesOnly));
    SelectMembers(fs, items, By(DirsOnly));
    SelectMembers(fs, items, By(FilesOnly));
    SelectAppend(fs, dirs, files, By(DirsOnly));
    SelectAll(fs, dirs, By(DirsOnly));
    SelectNone(fs, files, By(DirsOnly));
    SelectAppend(fs, dirs, files, By(FilesOnly));
    SelectNone(fs, dirs, By(FilesOnly));
    SelectAll(fs, files, By(FilesOnly));
  }

  /** Applying one more filter token to what the earlier tokens kept keeps what
      all of them pass. */
  lemma FilterStep(fs: FileSystem, existing: seq<FileItem>, filters: seq<string>, i: nat)
    requires i < |filters|
    ensures Select(fs, Select(fs, existing, AllOf(filters[..i])), By(FilterOf(filters[i])))
      == Select(fs, existing, AllOf(filters[..i + 1]))
  {
    var flt := FilterOf(filters[i]);
    SelectSelect(fs, existing, AllOf(filters[..i]), By(flt));
    forall x ensures Holds(fs, Both(AllOf(filters[..i]), By(flt)), x) == Holds(fs, AllOf(filters[..i + 1]), x) {
      assert filters[..i + 1] == filters[..i] + [filters[i]];
      PassesAllSnoc(fs, filters[..i], filters[i], x);
    }
    SelectSame(fs, existing, Both(AllOf(filters[..i]), By(flt)), AllOf(filters[..i + 1]));
  }

  /** `get_flist(filepath, filters)`: drop listed names that do not exist, apply the
      filter of every token in turn, then put directories first. */
  method GetFlist(fs: FileSystem, filepath: string, names: seq<string>, filters: seq<string>)
    returns (flist: seq<FileItem>)
    ensures flist == SortDirsFirst(fs, Kept(fs, filepath, names, filters))
  {
    var candidates := Candidates(filepath, names);
    var existing := Select(fs, candidates, Existing);
    var raw := existing;
    SelectAll(fs, existing, AllOf([]));
    for i := 0 to |filters|
      invariant raw == Select(fs, existing, AllOf(filters[..i]))
    {
      FilterStep(fs, existing, filters, i);
      raw := Select(fs, raw, By(FilterOf(filters[i])));
    }
    assert filters[..|filters|] == filters;
    SelectSelect(fs, candidates, Existing, AllOf(filters));
    flist := SortDirsFirst(fs, raw);
  }

  lemma CandidateMembers(filepath: string, names: seq<string>, f: FileItem)
    ensures f in Candidates(filepath, names)
      <==> exists k :: 0 <= k < |names| && f == MakeItem(Join(filepath, names[k]))
  {
    var c := Candidates(filepath, names);
    if f in c {
      var k :| 0 <= k < |c| && c[k] == f;
    }
    if exists k :: 0 <= k < |names| && f == MakeItem(Join(filepath, names[k])) {
      var k :| 0 <= k < |names| && f == MakeItem(Join(filepath, names[k]));
      assert c[k] == f;
    }
  }

  lemma SortMembers(fs: FileSystem, items: seq<FileItem>, f: FileItem)
    ensures f in SortDirsFirst(fs, items) <==> f in items
  {
    var r := SortDirsFirst(fs, items);
    SortDirsFirstIsStableSort(fs, items);
    assert f in r <==> f in multiset(r);
    assert f in items <==> f in multiset(items);
  }

  /** What a listing holds: exactly the listed children that exist and pass every
      filter, directories first. */
  lemma ListingMembers(fs: FileSystem, filepath: string, names: seq<string>, filters: seq<string>, f: FileItem)
    ensures f in SortDirsFirst(fs, Kept(fs, filepath, names, filters))
      <==> (exists k :: 0 <= k < |names| && f == MakeItem(Join(filepath, names[k])))
           && Exists(fs, f) && PassesAll(fs, filters, f)
  {
    var c := Candidates(filepath, names);
    var crit := Both(Existing, AllOf(filters));
    SortMembers(fs, Select(fs, c, crit), f);
    SelectMembers(fs, c, crit);
    CandidateMembers(filepath, names, f);
    assert Holds(fs, crit, f) == (Exists(fs, f) && PassesAll(fs, filters, f));
  }

  /** The entry `name` of the current directory, as `get_flist(".")` builds it. */
  function Child(name: string): FileItem
  {
    MakeItem(Join(".", name))
  }

  /** Names like those of the documentation's example: a hidden directory, a shown
      file and a hidden file, distinct and free of `/`. */
  predicate ExampleNames(git: string, readme: string, env: string)
  {
    && git != "" && readme != "" && env != ""
    && '/' !in git && '/' !in readme && '/' !in env
    && git[0] == '.' && readme[0] != '.' && env[0] == '.'
    && git != readme && git != env && readme != env
  }

  /** The example directory: `git` is a directory, `readme` and `env` are files. */
  function ExampleFs(git: string, readme: string, env: string): FileSystem
  {
    map[Child(git).fpath := Dir, Child(readme).fpath := File, Child(env).fpath := File]
  }

  /** The entries of the current directory are `./` followed by their names. */
  lemma JoinDot(name: string)
    requires name != "" && name[0] != '/'
    ensures Join(".", name) == "./" + name
  {
    assert !("/" <= name);
  }

  /** The three entries are distinct paths, and their names are what was listed. */
  lemma ExampleChildren(git: string, readme: string, env: string)
    requires ExampleNames(git, readme, env)
    ensures Name(Child(git)) == git && Name(Child(readme)) == readme && Name(Child(env)) == env
    ensures Child(git).fpath != Child(readme).fpath && Child(git).fpath != Child(env).fpath
    ensures Child(readme).fpath != Child(env).fpath
  {
    ChildParts(".", git);
    ChildParts(".", readme);
    ChildParts(".", env);
  }

  /** Which entries the tokens `hidden` and `dir` keep: the hidden directory only. */
  lemma ExampleHolds(git: string, readme: string, env: string)
    requires ExampleNames(git, readme, env)
    ensures var fs, crit := ExampleFs(git, readme, env), Both(Existing, AllOf(["hidden", "dir"]));
      Holds(fs, crit, Child(git)) && !Holds(fs, crit, Child(readme)) && !Holds(fs, crit, Child(env))
  {
    var fs := ExampleFs(git, readme, env);
    ExampleChildren(git, readme, env);
    HiddenChild(git);
    HiddenChild(readme);
    Lookup3(Child(git).fpath, Child(readme).fpath, Child(env).fpath);
    HiddenAndDir(fs, Child(git));
    HiddenAndDir(fs, Child(readme));
    HiddenAndDir(fs, Child(env));
  }

  /** The kinds recorded for three distinct paths. */
  lemma Lookup3(g: string, r: string, e: string)
    requires g != r && g != e && r != e
    ensures var fs: FileSystem := map[g := Dir, r := File, e := File];
      g in fs && fs[g] == Dir && e in fs && fs[e] == File
  {
  }

  /** The tokens `hidden` and `dir` keep the hidden directories. */
  lemma HiddenAndDir(fs: FileSystem, f: FileItem)
    ensures Holds(fs, Both(Existing, AllOf(["hidden", "dir"])), f) <==> Hidden(f) && IsDir(fs, f)
  {
    var tokens := ["hidden", "dir"];
    assert FilterOf(tokens[0]) == HiddenOnly && FilterOf(tokens[1]) == DirsOnly;
  }

  /** An entry of the current directory is hidden exactly when its name starts
      with a dot. */
  lemma HiddenChild(name: string)
    requires name != "" && '/' !in name
    ensures Hidden(Child(name)) <==> name[0] == '.'
  {
    ChildParts(".", name);
    var n := Name(Child(name));
    assert n == name;
    assert ("." <= n) <==> n[0] == '.';
  }

  lemma ExampleKept(git: string, readme: string, env: string)
    requires ExampleNames(git, readme, env)
    ensures Kept(ExampleFs(git, readme, env), ".", [git, readme, env], ["hidden", "dir"]) == [Child(git)]
  {
    var g, r, e := Child(git), Child(readme), Child(env);
    var c := Candidates(".", [git, readme, env]);
    assert c == [g, r, e] by {
      assert c[0] == g && c[1] == r && c[2] == e;
    }
    ExampleHolds(git, readme, env);
    var fs, crit := ExampleFs(git, readme, env), Both(Existing, AllOf(["hidden", "dir"]));
    assert [g, r, e][1..] == [r, e];
    assert [r, e][1..] == [e];
    assert Select(fs, [e], crit) == [];
    assert Select(fs, [r, e], crit) == [];
  }

  /** In such a directory the filters `hidden` and `dir` together keep only the
      hidden directory. */
  lemma HiddenDirKeepsOnlyGit(git: string, readme: string, env: string)
    requires ExampleNames(git, readme, env)
    ensures var fs := ExampleFs(git, readme, env);
      SortDirsFirst(fs, Kept(fs, ".", [git, readme, env], ["hidden", "dir"])) == [Child(git)]
  {
    ExampleKept(git, readme, env);
    ExampleHolds(git, readme, env);
    var fs, g := ExampleFs(git, readme, env), Child(git);
    assert [g][1..] == [];
    assert IsDir(fs, g);
  }

  /** The documentation's example: with `.git/`, `readme.txt` and `.env` listed in
      `.`, the filters `hidden` and `dir` keep only `./.git`. */
  lemma HiddenDirExample()
    ensures var fs := ExampleFs(".git", "readme.txt", ".env");
      SortDirsFirst(fs, Kept(fs, ".", [".git", "readme.txt", ".env"], ["hidden", "dir"])) == [Child(".git")]
    ensures Child(".git").fpath == "./" + ".git"
  {
    assert ExampleNames(".git", "readme.txt", ".env") by {
      assert ".git"[0] == '.' && "readme.txt"[0] != '.' && ".env"[0] == '.';
      assert ".git"[1] != ".env"[1];
    }
    HiddenDirKeepsOnlyGit(".git", "readme.txt", ".env");
    JoinDot(".git");
  }

  /** A breadcrumb: one ancestor directory of the listed one. */
  datatype DirectoryItem = DirectoryItem(dname: string, dpath: string)

  /** `DirectoryItem.__add__`: the child breadcrumb named `dname`. */
  function AddSegment(d: DirectoryItem, dname: string): DirectoryItem
  {
    DirectoryItem(dname, d.dpath + "/" + dname)
  }

  /** The segments `get_ancestors_dlist` folds over; `.` counts as the empty path. */
  function Segments(filepath: string): seq<string>
  {
    Split(if filepath == "." then "" else filepath, '/')
  }

  lemma {:induction false} JoinWithSnoc(xs: seq<string>, y: string, c: char)
    requires |xs| >= 1
    ensures JoinWith(xs + [y], c) == JoinWith(xs, c) + [c] + y
  {
    if |xs| > 1 {
      JoinWithSnoc(xs[1..], y, c);
      assert (xs + [y])[1..] == xs[1..] + [y];
    }
  }

  /** The breadcrumbs of a listed path, as a value. */
  function Breadcrumbs(filepath: string): seq<DirectoryItem>
  {
    var segs := Segments(filepath);
    seq(|segs|, k requires 0 <= k < |segs| => DirectoryItem(segs[k], "/" + JoinWith(segs[..k + 1], '/')))
  }

  /** The path of the last breadcrumb is `/` followed by the listed path. */
  lemma BreadcrumbsLast(filepath: string)
    ensures |Breadcrumbs(filepath)| >= 1
    ensures Breadcrumbs(filepath)[|Breadcrumbs(filepath)| - 1].dpath == "/" + (if filepath == "." then "" else filepath)
  {
    var path := if filepath == "." then "" else filepath;
    var segs := Segments(filepath);
    assert segs[..|segs|] == segs;
    JoinSplit(path, '/');
  }

  /** The breadcrumb after the one for segments `0..i-1` (or after the empty start)
      is the one for segments `0..i`. */
  lemma NextBreadcrumb(segs: seq<string>, i: nat, prev: DirectoryItem)
    requires i < |segs|
    requires i == 0 ==> prev.dpath == ""
    requires i > 0 ==> prev.dpath == "/" + JoinWith(segs[..i], '/')
    ensures AddSegment(prev, segs[i]) == DirectoryItem(segs[i], "/" + JoinWith(segs[..i + 1], '/'))
  {
    if i > 0 {
      assert segs[..i + 1] == segs[..i] + [segs[i]];
      JoinWithSnoc(segs[..i], segs[i], '/');
    } else {
      assert segs[..1] == [segs[0]];
    }
  }

  /** `get_ancestors_dlist(filepath)`: one breadcrumb per `/`-separated segment; the
      k-th is named after segment k and its path is `/` followed by segments 0..k
      joined by `/`, so the last path is `/` + the listed path. */
  method GetAncestorsDlist(filepath: string) returns (ancestors: seq<DirectoryItem>)
    ensures ancestors == Breadcrumbs(filepath)
    ensures ancestors[|ancestors| - 1].dpath == "/" + (if filepath == "." then "" else filepath)
  {
    var path := if filepath == "." then "" else filepath;
    var segs := Split(path, '/');
    ghost var crumbs := Breadcrumbs(filepath);
    assert |crumbs| == |segs|;
    ancestors := [];
    var temp := DirectoryItem("", "");
    for i := 0 to |segs|
      invariant ancestors == crumbs[..i]
      invariant i == 0 ==> temp.dpath == ""
      invariant i > 0 ==> temp.dpath == "/" + JoinWith(segs[..i], '/')
    {
      NextBreadcrumb(segs, i, temp);
      temp := AddSegment(temp, segs[i]);
      assert crumbs[i] == temp;
      assert crumbs[..i + 1] == crumbs[..i] + [crumbs[i]];
      ancestors := ancestors + [temp];
    }
    assert crumbs[..|segs|] == crumbs;
    BreadcrumbsLast(filepath);
  }

  /** The root listing `.` has the single breadcrumb with an empty name and path `/`. */
  lemma RootSegments()
    ensures Breadcrumbs(".") == [DirectoryItem("", "/")]
  {
    var segs := Segments(".");
    assert segs == [""];
    assert segs[..1] == [""];
    assert JoinWith([""], '/') == "";
    assert Breadcrumbs(".")[0] == DirectoryItem("", "/");
  }
}
