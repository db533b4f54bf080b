/**
 * The request dispatcher `serve` of `hfs/core.py`: the access check, then GET
 * (listing or file), POST (uploads into a directory) and DELETE (guarded by the
 * deletion level and the upload pool), over the process-wide upload pool and the
 * filesystem.
 */
module Server {
  import opened Results
  import opened Text
  import opened PosixPath
  import opened Acl
  import opened FileModel
  import opened Listing
  import opened Resolver

  /** The methods the route accepts; the framework answers any other itself. */
  datatype Method = Get | Post | Delete

  /** One request: `uploads` holds the raw file names of the `upload` parts and
      `listing` what `os.listdir` returns for the directory that gets listed. */
  datatype Request = Request(
    verb: Method,
    urlpath: string,
    remoteAddr: string,
    query: string,
    uploads: seq<string>,
    listing: seq<string>)

  datatype Response =
    | Forbidden                     // 403 Permission denied
    | InternalError                 // an ACL rule raised while matching
    | NotFound(path: string)        // 404 File "<path>" does not exist
    | NotAllowed                    // 405 Deletion not permitted
    | Redirect(location: string)
    | DirPage(ancestors: seq<DirectoryItem>, curdir: string, flist: seq<FileItem>, pipe: bool)
    | SendFile(path: string)

  /** What a request may change: the upload pool and the filesystem. */
  datatype State = State(pool: set<string>, fs: FileSystem)

  /** `serve_dir(filepath)`: the filters are the query split at `?`, and the token
      `pipe` asks for the plain-text rendering. */
  function ServeDirPage(fs: FileSystem, filepath: string, query: string, names: seq<string>): Response
  {
    var filters := Split(query, '?');
    DirPage(Breadcrumbs(filepath), filepath, SortDirsFirst(fs, Kept(fs, filepath, names, filters)), "pipe" in filters)
  }

  /** One upload saved under its free name and recorded in the pool. */
  function SaveOne(st: State, urlpath: string, name: string): State
  {
    var fpath := UniqFpath(st.fs, Join(urlpath, name));
    State(st.pool + {fpath}, st.fs[fpath := File])
  }

  /** The uploads saved one after the other. */
  function SaveAll(st: State, urlpath: string, names: seq<string>): State
    decreases |names|
  {
    if names == [] then st
    else SaveOne(SaveAll(st, urlpath, names[..|names| - 1]), urlpath, names[|names| - 1])
  }

  /** The path each upload was saved at. */
  function SavedPaths(st: State, urlpath: string, names: seq<string>): seq<string>
    decreases |names|
  {
    if names == [] then []
    else
      var before := SaveAll(st, urlpath, names[..|names| - 1]);
      SavedPaths(st, urlpath, names[..|names| - 1]) + [UniqFpath(before.fs, Join(urlpath, names[|names| - 1]))]
  }

  /** `rmtree(target)`: the directory and everything below it. */
  function RemoveTree(fs: FileSystem, target: string): FileSystem
  {
    map k | k in fs && k != target && !(target + "/" <= k) :: fs[k]
  }

  /** The response to a request and the state after it. */
  function Step(acl: seq<ACLRule>, level: nat, st: State, req: Request): (Response, State)
  {
    var target := MakeItem(req.urlpath);
    match Verdict(acl, req.remoteAddr)
    case Err(_) => (InternalError, st)
    case Ok(denied) =>
      if denied then (Forbidden, st)
      else match req.verb
        case Get =>
          if IsDir(st.fs, target) then (ServeDirPage(st.fs, req.urlpath, req.query, req.listing), st)
          else if req.urlpath in st.fs then (SendFile(req.urlpath), st)
          else (NotFound(req.urlpath), st)
        case Post =>
          var st' := if IsDir(st.fs, target) then SaveAll(st, req.urlpath, req.uploads) else st;
          (Redirect("/" + req.urlpath), st')
        case Delete =>
          if !Deletable(level, st.pool, target) then (NotAllowed, st)
          else if !Exists(st.fs, target) then (NotFound(target.fpath), st)
          else
            var fs' := if IsDir(st.fs, target) then RemoveTree(st.fs, target.fpath)
                       else st.fs - {target.fpath};
            (ServeDirPage(fs', Parent(target).fpath, req.query, req.listing), State(st.pool, fs'))
  }

  /** Saving uploads adds one fresh file per upload, each at a distinct path that did
      not exist before, records exactly those paths in the pool, and leaves every
      existing entry as it was. */
  lemma SaveAllMeaning(st: State, urlpath: string, names: seq<string>)
    ensures var r := SaveAll(st, urlpath, names);
      var ps := SavedPaths(st, urlpath, names);
      && |ps| == |names|
      && (forall i, j :: 0 <= i < j < |ps| ==> ps[i] != ps[j])
      && (forall i :: 0 <= i < |ps| ==> ps[i] !in st.fs && ps[i] != "")
      && r.fs.Keys == st.fs.Keys + (set p | p in ps)
      && (forall p :: p in st.fs ==> r.fs[p] == st.fs[p])
      && (forall p :: p in ps ==> r.fs[p] == File)
      && r.pool == st.pool + (set p | p in ps)
  {
    SaveAllGrows(st, urlpath, names);
    SaveAllDistinct(st, urlpath, names);
    SaveAllValues(st, urlpath, names);
  }

  /** The upload lands on a path absent from the filesystem it is saved into. */
  lemma SaveOneFresh(fs: FileSystem, urlpath: string, name: string)
    ensures UniqFpath(fs, Join(urlpath, name)) !in fs
  {
    UniqFpathMeaning(fs, Join(urlpath, name));
  }

  /** Saving uploads adds exactly the saved paths to the filesystem and the pool,
      one path per upload, none of which existed. */
  lemma {:induction false} SaveAllGrows(st: State, urlpath: string, names: seq<string>)
    ensures |SavedPaths(st, urlpath, names)| == |names|
    ensures forall i :: 0 <= i < |SavedPaths(st, urlpath, names)| ==>
      SavedPaths(st, urlpath, names)[i] !in st.fs && SavedPaths(st, urlpath, names)[i] != ""
    ensures SaveAll(st, urlpath, names).fs.Keys == st.fs.Keys + (set p | p in SavedPaths(st, urlpath, names))
    ensures SaveAll(st, urlpath, names).pool == st.pool + (set p | p in SavedPaths(st, urlpath, names))
    decreases |names|
  {
    if names != [] {
      var init := names[..|names| - 1];
      SaveAllGrows(st, urlpath, init);
      var before := SaveAll(st, urlpath, init);
      var prev := SavedPaths(st, urlpath, init);
      var fpath := UniqFpath(before.fs, Join(urlpath, names[|names| - 1]));
      SaveOneFresh(before.fs, urlpath, names[|names| - 1]);
      var ps := prev + [fpath];
      assert SavedPaths(st, urlpath, names) == ps;
      assert (set p | p in ps) == (set p | p in prev) + {fpath};
      forall i | 0 <= i < |ps| ensures ps[i] !in st.fs && ps[i] != "" {
        if i == |prev| {
          assert fpath !in st.fs by {
            assert st.fs.Keys <= before.fs.Keys;
          }
        } else {
          assert ps[i] == prev[i];
        }
      }
    }
  }

  /** No two uploads are saved at the same path. */
  lemma {:induction false} SaveAllDistinct(st: State, urlpath: string, names: seq<string>)
    ensures var ps := SavedPaths(st, urlpath, names);
      forall i, j :: 0 <= i < j < |ps| ==> ps[i] != ps[j]
    decreases |names|
  {
    if names != [] {
      var init := names[..|names| - 1];
      SaveAllDistinct(st, urlpath, init);
      SaveAllGrows(st, urlpath, init);
      var before := SaveAll(st, urlpath, init);
      var prev := SavedPaths(st, urlpath, init);
      var fpath := UniqFpath(before.fs, Join(urlpath, names[|names| - 1]));
      SaveOneFresh(before.fs, urlpath, names[|names| - 1]);
      assert SavedPaths(st, urlpath, names) == prev + [fpath];
      assert forall i :: 0 <= i < |prev| ==> prev[i] in before.fs;
    }
  }

  /** Existing entries keep their values and every saved path holds a file. */
  lemma {:induction false} SaveAllValues(st: State, urlpath: string, names: seq<string>)
    ensures forall p :: p in st.fs ==> p in SaveAll(st, urlpath, names).fs && SaveAll(st, urlpath, names).fs[p] == st.fs[p]
    ensures forall p :: p in SavedPaths(st, urlpath, names) ==>
      p in SaveAll(st, urlpath, names).fs && SaveAll(st, urlpath, names).fs[p] == File
    decreases |names|
  {
    if names != [] {
      var init := names[..|names| - 1];
      SaveAllValues(st, urlpath, init);
      var before := SaveAll(st, urlpath, init);
      var prev := SavedPaths(st, urlpath, init);
      var fpath := UniqFpath(before.fs, Join(urlpath, names[|names| - 1]));
      SaveOneFresh(before.fs, urlpath, names[|names| - 1]);
      assert SavedPaths(st, urlpath, names) == prev + [fpath];
      var r := SaveAll(st, urlpath, names);
      assert r.fs == before.fs[fpath := File];
      forall p | p in prev + [fpath] ensures p in r.fs && r.fs[p] == File {
        if p != fpath {
          assert p in prev;
          assert p in before.fs && before.fs[p] == File;
        }
      }
    }
  }

  /** The pool only grows, whatever the request. */
  lemma PoolGrows(acl: seq<ACLRule>, level: nat, st: State, req: Request)
    ensures st.pool <= Step(acl, level, st, req).1.pool
  {
    if req.verb == Post {
      SaveAllMeaning(st, req.urlpath, req.uploads);
    }
  }

  /** The order of decisions: a failing access check answers first and changes
      nothing; GET lists a directory, sends an existing file, or answers 404; POST
      always redirects to the same path, having saved the uploads when the path is a
      directory; DELETE answers 405 when the target is not deletable before looking
      at whether it exists, then 404, and otherwise removes the target (a directory
      with everything below it) and nothing else. */
  lemma DecisionOrder(acl: seq<ACLRule>, level: nat, st: State, req: Request)
    ensures var (resp, st') := Step(acl, level, st, req);
      var target := MakeItem(req.urlpath);
      && (Verdict(acl, req.remoteAddr).Err? ==> resp == InternalError && st' == st)
      && (Verdict(acl, req.remoteAddr) == Ok(true) ==> resp == Forbidden && st' == st)
      && (Verdict(acl, req.remoteAddr) == Ok(false) ==>
            && (req.verb == Get ==>
                  && st' == st
                  && (IsDir(st.fs, target) <==> resp.DirPage?)
                  && (resp.SendFile? <==> !IsDir(st.fs, target) && req.urlpath in st.fs)
                  && (resp.NotFound? <==> !IsDir(st.fs, target) && req.urlpath !in st.fs))
            && (req.verb == Post ==>
                  && resp == Redirect("/" + req.urlpath)
                  && (IsDir(st.fs, target) ==> st' == SaveAll(st, req.urlpath, req.uploads))
                  && (!IsDir(st.fs, target) ==> st' == st))
            && (req.verb == Delete ==>
                  && (resp == NotAllowed <==> !Deletable(level, st.pool, target))
                  && (resp == NotFound(target.fpath) <==> Deletable(level, st.pool, target) && !Exists(st.fs, target))
                  && (resp.DirPage? <==> Deletable(level, st.pool, target) && Exists(st.fs, target))
                  && st'.pool == st.pool
                  && (resp.DirPage? ==> target.fpath !in st'.fs && resp.curdir == Parent(target).fpath)
                  && (resp.DirPage? && !IsDir(st.fs, target) ==> st'.fs == st.fs - {target.fpath})
                  && (resp.DirPage? && IsDir(st.fs, target) ==>
                        && (forall k :: k in st'.fs <==> k in st.fs && k != target.fpath && !(target.fpath + "/" <= k))
                        && (forall k :: k in st'.fs ==> st'.fs[k] == st.fs[k]))
                  && (!resp.DirPage? ==> st' == st)))
  {
  }

  /** At level 1 only uploaded paths can be deleted: any other DELETE is refused
      with 405, even for a path that does not exist. */
  lemma NotUploadedNotDeletable(acl: seq<ACLRule>, st: State, req: Request)
    requires Verdict(acl, req.remoteAddr) == Ok(false)
    requires req.verb == Delete && MakeItem(req.urlpath).fpath !in st.pool
    ensures Step(acl, 1, st, req) == (NotAllowed, st)
  {
  }

  /** Upload, delete, delete again: uploading one file into a directory at deletion
      level 1 or 2 creates a fresh file recorded in the pool; a DELETE of that path
      removes it, leaving the filesystem as it was before the upload, and lists the
      directory it was in; a second DELETE answers 404. */
  lemma UploadDeleteRoundTrip(acl: seq<ACLRule>, level: nat, st: State, client: string,
                              dir: string, name: string, query: string, names: seq<string>)
    requires Verdict(acl, client) == Ok(false)
    requires 1 <= level && IsDir(st.fs, MakeItem(dir))
    ensures var (resp1, st1) := Step(acl, level, st, Request(Post, dir, client, "", [name], []));
      var p := SavedPaths(st, dir, [name])[0];
      var del := Request(Delete, p, client, query, [], names);
      var (resp2, st2) := Step(acl, level, st1, del);
      && resp1 == Redirect("/" + dir)
      && p !in st.fs && p in st1.pool && p in st1.fs && st1.fs[p] == File
      && st2 == State(st1.pool, st.fs)
      && resp2 == ServeDirPage(st.fs, Parent(MakeItem(p)).fpath, query, names)
      && Step(acl, level, st2, del) == (NotFound(p), st2)
  {
    var st1 := SaveAll(st, dir, [name]);
    SaveAllMeaning(st, dir, [name]);
    var ps := SavedPaths(st, dir, [name]);
    var p := ps[0];
    assert p in ps;
    assert MakeItem(p).fpath == p;
    assert st1.fs - {p} == st.fs;
  }

  /** The server: its access list and deletion level are fixed at start-up; the
      upload pool and the filesystem change with the requests it serves. */
  class FileServer {
    const acl: seq<ACLRule>
    const deletionLevel: nat
    var uploadPool: set<string>
    var fs: FileSystem

    constructor(acl: seq<ACLRule>, deletionLevel: nat, fs: FileSystem)
      requires deletionLevel <= 2
      ensures this.acl == acl && this.deletionLevel == deletionLevel
      ensures uploadPool == {} && this.fs == fs
    {
      this.acl := acl;
      this.deletionLevel := deletionLevel;
      uploadPool := {};
      this.fs := fs;
    }

    /** `serve_dir` over the current filesystem. */
    method ServeDir(filepath: string, query: string, names: seq<string>) returns (resp: Response)
      ensures resp == ServeDirPage(fs, filepath, query, names)
    {
      var filters := Split(query, '?');
      var ancestors := GetAncestorsDlist(filepath);
      var flist := GetFlist(fs, filepath, names, filters);
      resp := DirPage(ancestors, filepath, flist, "pipe" in filters);
    }

    /** `serve(urlpath)`. */
    method Serve(req: Request) returns (resp: Response)
      modifies this
      ensures (resp, State(uploadPool, fs)) == Step(acl, deletionLevel, old(State(uploadPool, fs)), req)
    {
      var target := MakeItem(req.urlpath);
      var denied := IsClientDenied(acl, req.remoteAddr);
      if denied.Err? {
        return InternalError;
      }
      if denied.value {
        return Forbidden;
      }
      match req.verb {
        case Get =>
          if IsDir(fs, target) {
            resp := ServeDir(req.urlpath, req.query, req.listing);
          } else if req.urlpath in fs {
            resp := SendFile(req.urlpath);
          } else {
            resp := NotFound(req.urlpath);
          }
        case Post =>
          if IsDir(fs, target) {
            for i := 0 to |req.uploads|
              invariant State(uploadPool, fs)
                == SaveAll(old(State(uploadPool, fs)), req.urlpath, req.uploads[..i])
            {
              assert req.uploads[..i + 1][..i] == req.uploads[..i];
              var fpath := GetUniqFpath(fs, Join(req.urlpath, req.uploads[i]));
              fs := fs[fpath := File];
              uploadPool := uploadPool + {fpath};
            }
            assert req.uploads[..|req.uploads|] == req.uploads;
          }
          resp := Redirect("/" + req.urlpath);
        case Delete =>
          if !Deletable(deletionLevel, uploadPool, target) {
            resp := NotAllowed;
          } else if !Exists(fs, target) {
            resp := NotFound(target.fpath);
          } else {
            if IsDir(fs, target) {
              fs := RemoveTree(fs, target.fpath);
            } else {
              fs := fs - {target.fpath};
            }
            resp := ServeDir(Parent(target).fpath, req.query, req.listing);
          }
      }
    }
  }
}
