# hfs — a Dafny model of the file server's core

This project models the core of **hfs**, a tiny HTTP file server, and proves properties of the model. It covers:

- **The access-control list** (`hfs/core.py`).
  - Rule strings such as `127.0.0.1`, `d10.0.0.1/24` or `localhost/255.255.255.0` are parsed into rules.
  - A client address is checked against the rules in list order, and the first match wins.
- **The file model.**
  - A `FileItem` has a name, a display text, hidden and directory flags, a parent, and a deletable flag that depends on the deletion level and the upload pool.
  - The directory listing `get_flist` applies the filters `hidden`, `shown`, `file` and `dir`, then puts directories first.
  - The breadcrumbs come from `get_ancestors_dlist`.
- **The request dispatcher `serve`.**
  - The access check comes first.
  - GET lists a directory or sends a file.
  - POST saves uploads under free names and records them in the upload pool.
  - DELETE is guarded by the deletion level.
  - `get_uniq_fpath` chooses the free name.
- **The upload handler of `nano-http-server.py`.**
  - `deal_post_data` reads a `multipart/form-data` body line by line against a `Content-Length` budget.
  - `get_proper_file_path` chooses a free name for the file it writes.
- **The client-side upload queue of `hfs/static/main.js`.**
  - `add_metadata` keeps queued file names unique.
  - `on_file_selected` queues a selection.
  - `upload_file` walks the queue by index.

The filesystem is a finite map from a path, spelled as the server spells it, to `File` or `Dir`. The directory enumeration of `os.listdir`, the client address, the query string and the upload part names are inputs to the operations.

The loops of the source are methods with loop invariants. Each method is proved equal to a specification function, and the properties the source promises are lemmas about those functions. The classes are:

- Server.FileServer: the module-level `upload_pool` and the filesystem, which `serve` updates.
- UploadQueue.Queue: the page-wide `metadata` array and the rows of the pending-files table.

Files:

| file | module | contents |
|---|---|---|
| `results.dfy` | `Results` | `Option` and `Result` |
| `text.dfy` | `Text` | `str.split`/`join`, `rfind`, `rstrip`, `strip` whitespace, `$` anchoring, decimal digits |
| `posix_path.dfy` | `PosixPath` | `basename`, `dirname`, `join`, `splitext` with POSIX semantics |
| `bits.dfy` | `Bits` | `<<`, `^`, `\|` on unbounded naturals |
| `acl.dfy` | `Acl` | `ACLRule`, `match`, `is_client_denied` |
| `file_item.dfy` | `FileModel` | `FileItem` and the filesystem |
| `listing.dfy` | `Listing` | `flist_filters`, `get_flist`, `DirectoryItem`, `get_ancestors_dlist` |
| `resolver.dfy` | `Resolver` | `get_uniq_fpath`, `get_proper_file_path` |
| `server.dfy` | `Server` | `serve`, `serve_dir`, the upload pool |
| `multipart.dfy` | `Multipart` | `deal_post_data` |
| `upload_queue.dfy` | `UploadQueue` | `add_metadata`, `add_progress_bar`, `on_file_selected`, `upload_file` |

## Model

| member | source | states |
|---|---|---|
| Acl.ParseInvalidIff | hfs/core.py:110-113 | a rule string gives an invalid rule, carrying only the string, exactly when no reading of it matches the rule pattern |
| Acl.ParseSpelled | hfs/core.py:110-139 | a string of the rule pattern parses to the field values the constructor assigns for its unique reading |
| Acl.DecomposeAssemble | hfs/core.py:110 | a string of the rule pattern has exactly one reading into deny marker, address and mask (the groups are unambiguous) |
| Acl.DenyFlag | hfs/core.py:116 | in a valid rule, `deny` is set exactly by a leading lower-case `d` |
| Acl.UpperCaseDenyIsInvalid | hfs/core.py:110-116 | a rule starting with `D` is invalid, although the code also tests for `D` |
| Acl.ParseLocalhost | hfs/core.py:117-129 | `localhost` parses to address 0x7f000001 with mask 0 |
| Acl.UnmaskedRule | hfs/core.py:117-129 | a dotted-quad rule without a mask clause has the quad's value as address and mask 0 |
| Acl.DottedMaskIsAddress | hfs/core.py:131-137 | a dotted mask is built from the address groups, so the mask equals the address |
| Acl.LocalhostDottedMaskRaises | hfs/core.py:117-137 | `localhost` followed by a dotted mask makes the constructor raise (`int(None)`) |
| Acl.IntendedDottedMask | hfs/core.py:131-139 | with the mask read from its own groups, a dotted mask is the value of the mask text, also after `localhost` |
| Acl.IntendedAgreesWithoutDottedMask | hfs/core.py:110-139 | the parse as written and the intended parse agree on every string without a dotted mask |
| Acl.MatchMeaning | hfs/core.py:147-157 | a client that is not a dotted quad matches no rule; an invalid rule raises for a dotted-quad client; a valid rule matches exactly the client whose value is `addr ^ mask` |
| Acl.UnmaskedMatchesOwnAddress | hfs/core.py:147-157 | a rule without a mask clause matches exactly the client equal to its address |
| Acl.MaskIsAddressMatchesOnlyZero | hfs/core.py:131-157 | a rule whose mask equals its address matches only clients whose four numbers are all zero |
| Acl.QuadValueInjective | hfs/core.py:119-123 | with octets below 256, `a << 24 \| b << 16 \| c << 8 \| d` determines the four octets |
| Acl.QuadValueSum | hfs/core.py:119-123 | with octets below 256, the bitwise combination equals the base-256 value |
| Acl.VerdictFirstMatch | hfs/core.py:164-169 | the first rule whose match does not answer False decides (its deny flag, or the error it raises); when no rule matches, the client is allowed |
| Acl.VerdictPrefixDecides | hfs/core.py:164-169 | rules after a deciding rule are never consulted |
| Acl.IsClientDenied | hfs/core.py:164-169 | the loop over the rules returns the first-match verdict |
| Acl.OrderDecides | hfs/core.py:164-169 | the same address as a deny rule and as an allow rule is denied or allowed by whichever is listed first |
| FileModel.MakeItem | hfs/core.py:38-39 | an item's path is never empty; the empty path becomes `.` |
| FileModel.TextMeaning | hfs/core.py:41-47 | the display text ends with `/` exactly for a directory, and is otherwise the name |
| FileModel.RootItem | hfs/core.py:38-63 | the empty path and `.` are the same item, whose name `.` makes it hidden |
| FileModel.ChildParts | hfs/core.py:76-78 | the item of a name listed in a directory has that name, and its parent is the directory |
| FileModel.DeletableMeaning | hfs/core.py:80-88 | nothing is deletable at level 0, exactly the uploaded paths at level 1, everything at level 2; a larger pool never removes deletability |
| PosixPath.SplitExtParts | hfs/core.py:324 | `splitext` loses nothing, and an extension is one dot followed by neither `/` nor another dot, after a non-dot character of the last component |
| PosixPath.LeadingDotIsNotExtension | hfs/core.py:324 | a hidden name such as `.env` has no extension |
| PosixPath.JoinParts | hfs/core.py:286 | `basename` and `dirname` undo `join` of a directory and a plain name |
| Listing.Candidates | hfs/core.py:285-288 | the k-th candidate is the item of the directory joined with the k-th listed name |
| Listing.SelectMembers | hfs/core.py:283-295 | a filtered sequence holds exactly the elements satisfying the condition |
| Listing.SelectSelect | hfs/core.py:291-295 | filtering twice equals filtering once by both conditions |
| Listing.PassesAllSnoc | hfs/core.py:291-295 | each further token adds its filter's condition |
| Listing.PassesAllBySet | hfs/core.py:291-295 | the filters combine by AND, so only the set of tokens matters, not their order or repetition |
| Listing.UnknownTokenKeepsAll | hfs/core.py:293 | a token that names no filter keeps every item |
| Listing.SortDirsFirstOrdered | hfs/core.py:297-301 | after sorting, no file comes before a directory |
| Listing.SortDirsFirstStable | hfs/core.py:297-301 | sorting keeps the directories, and the files, each in enumeration order |
| Listing.SortDirsFirstIsStableSort | hfs/core.py:297-301 | the ordering by directory flag, descending, is a permutation with every directory before every file, each group in enumeration order (a stable sort) |
| Listing.GetFlist | hfs/core.py:282-301 | the loop applying one filter per token yields the existing candidates that pass every filter, directories first |
| Listing.ListingMembers | hfs/core.py:282-301 | an item is in the listing exactly when it is a listed child of the directory, exists, and passes every filter |
| Listing.HiddenDirKeepsOnlyGit | hfs/core.py:23-28 | in any directory holding one hidden directory, one shown file and one hidden file, the tokens `hidden` and `dir` keep exactly the hidden directory |
| Listing.HiddenDirExample | hfs/core.py:23-28 | with `.git/`, `readme.txt` and `.env` listed, the tokens `hidden` and `dir` keep exactly `.git` |
| Listing.GetAncestorsDlist | hfs/core.py:304-315 | one breadcrumb per `/`-separated segment; the k-th is named after segment k, with path `/` followed by segments 0..k; the last path is `/` followed by the listed path |
| Listing.RootSegments | hfs/core.py:304-315 | the listing of `.` has a single breadcrumb, with an empty name and path `/` |
| Resolver.CandidateInjective | hfs/core.py:325-328 | distinct probing numbers give distinct candidate paths |
| Resolver.ProbesBound | hfs/core.py:326-328 | at most as many candidates as filesystem entries can be taken, so probing ends |
| Resolver.FirstFree | hfs/core.py:323-328 | the least free probing number is at most the number of entries plus one, its candidate is free, and every smaller candidate is taken |
| Resolver.GetUniqFpath | hfs/core.py:318-330 | the probing loop returns the specified free path |
| Resolver.UniqFpathMeaning | hfs/core.py:318-330 | the result is free; it is the path itself when that was free, otherwise the least free `<root>-<n><ext>`; the extension and the directory are kept |
| Resolver.GetProperFilePath | nano-http-server.py:123-133 | the probing loop returns the least free candidate `join(dirname, <filename>_<n><ext>)`, or the path itself when that was free |
| Resolver.ProperFilePathMeaning | nano-http-server.py:123-133 | the intended resolver returns a free path, the path itself when that was free, and keeps the extension and the directory |
| Resolver.ProperFilePathAbsolute | nano-http-server.py:90-92 | for an absolute path, the resolver as written and as intended agree |
| Resolver.ProperFilePathRelativeDoubles | nano-http-server.py:125-132 | for a relative path, the resolver as written doubles the directory: with `up/a.txt` taken, it returns `up/up/a_1.txt` instead of `up/a_1.txt` |
| Server.SaveAllMeaning | hfs/core.py:192-202 | saving uploads adds one fresh file per upload, at distinct paths that did not exist, records exactly those paths in the pool, and changes no existing entry |
| Server.PoolGrows | hfs/core.py:182-221 | no request removes a path from the upload pool |
| Server.DecisionOrder | hfs/core.py:182-221 | the access check answers first and changes nothing; GET lists a directory, sends an existing file or answers 404, changing nothing; POST always redirects to the same path, and into a directory saves every upload as `SaveAll` does, otherwise changes nothing; DELETE answers 405 for a non-deletable target before it checks existence, then 404, and otherwise removes the target (a directory with everything below it) and nothing else, keeping every other entry's value |
| Server.NotUploadedNotDeletable | hfs/core.py:206-208 | at level 1, deleting a path outside the upload pool is refused with 405, whether or not it exists |
| Server.UploadDeleteRoundTrip | hfs/core.py:192-221 | an upload creates a fresh pooled file; deleting it restores the filesystem and lists its directory; deleting it again answers 404 |
| Server.FileServer.ServeDir | hfs/core.py:265-274 | the directory page holds the breadcrumbs, the filtered listing for the query's `?`-separated tokens, and the `pipe` flag |
| Server.FileServer.Serve | hfs/core.py:182-221 | the response and the new pool and filesystem are those of the request step on the old state |
| Server.FileServer.constructor | hfs/core.py:351-366 | the server starts with the given rules, deletion level and filesystem, and an empty pool |
| Multipart.BoundaryOfMeaning | nano-http-server.py:67-69 | the content type is accepted exactly when it spells `multipart/form-data;`, spaces, `boundary=` and a boundary without line feeds (one final line feed allowed), and that boundary is returned |
| Multipart.SkipSpacesMeaning | nano-http-server.py:76 | the ` *` of the pattern passes over spaces only and stops at the first other character |
| Multipart.LastMarkedMeaning | nano-http-server.py:76 | the greedy `.*` settles on the last position where the fields `name="file"; *filename="` start: none starts later, and nothing is found only when they start nowhere |
| Multipart.FilenameOfMeaning | nano-http-server.py:75-78 | the disposition line is accepted exactly when it starts with `Content-Disposition:`, holds no line feed, ends with a quote and holds the fields; the filename lies between the last such fields and the final quote |
| Multipart.StandardDisposition | nano-http-server.py:75-78 | a browser's line `...; name="file"; filename="a.txt"` yields `a.txt` |
| Text.RStripSpace | nano-http-server.py:76 | `rstrip` removes exactly the trailing whitespace: the result is a prefix not ending in whitespace, and only whitespace was removed |
| Multipart.HeaderEnd | nano-http-server.py:83-87 | the part headers end at the first line that is blank once stripped |
| Multipart.SkipHeaders | nano-http-server.py:83-88 | the header loop stops at the first blank line and charges the budget for every line read |
| Multipart.Drain | nano-http-server.py:98-102 | draining stops at the first position where the budget is used up, or never when the input ends first |
| Multipart.ReceiveFile | nano-http-server.py:83-121 | once the headers name a file, the rest of the handler gives the copy outcome for the resolver's free name of the absolute path, or the drain outcome when the file cannot be created |
| Multipart.DrainRest | nano-http-server.py:97-103 | when the file cannot be created, the input is drained and `Cannot create file` is returned, or the loop spins at the end of input |
| Multipart.BodyMeaning | nano-http-server.py:106-118 | the copy loop stops at the first line holding the boundary while budget remained, or where the budget runs out; it spins only when the input ends with budget left and a non-empty boundary |
| Multipart.CopyBody | nano-http-server.py:104-121 | the loop holding back one line writes every line before the boundary line, the last without its line end, or removes the file when the budget runs out |
| Multipart.TrimEolCrLf | nano-http-server.py:112-113 | the last content line loses exactly its `\r\n` |
| Multipart.DealPostData | nano-http-server.py:62-121 | the handler returns the specified outcome: each early failure with its message and the lines consumed, then the drain or copy outcome |
| Multipart.UploadRoundTrip | nano-http-server.py:62-121 | a well-formed upload with the exact content length saves the content lines, without the last line end, under the resolver's free name, and uses up the budget exactly |
| Multipart.TruncatedUploadHangs | nano-http-server.py:97-121 | an upload shorter than its `Content-Length` makes both loops spin for ever, where loops stopping at the end of input report the missing data |
| Multipart.BodyToEofAgrees | nano-http-server.py:97-121 | the loops that stop at the end of input always end, where the loops as written end whenever those end before the input does |
| UploadQueue.Queue.AddMetadata | hfs/static/main.js:42-53 | returns false and leaves the queue unchanged when the name is queued; otherwise appends exactly one entry, without a form, and returns true; unique names are preserved |
| UploadQueue.Queue.AddProgressBar | hfs/static/main.js:56-88 | appends the row of the entry's file and attaches no form |
| UploadQueue.Queue.OnFileSelected | hfs/static/main.js:91-100 | the queue becomes the selection queued file by file, with one row per accepted file, in order |
| UploadQueue.AcceptExtends | hfs/static/main.js:91-100 | queuing a selection keeps earlier entries, appends only selected files without forms, and keeps names unique |
| UploadQueue.AcceptNames | hfs/static/main.js:91-100 | after queuing, a name is queued exactly when it was queued before or some selected file has it |
| UploadQueue.AcceptFirstWins | hfs/static/main.js:91-100 | of selected files sharing a new name, the first is the one queued |
| UploadQueue.UploadStepOf | hfs/static/main.js:103-113 | an index past the end does nothing; otherwise the entry's file is sent with the entry's form |
| UploadQueue.Queue.UploadFile | hfs/static/main.js:103-113 | `upload_file` does what `UploadStepOf` specifies on the current queue |
| UploadQueue.AfterLoadOf | hfs/static/main.js:130-137 | a completed upload reloads the page exactly when it was the last entry, and otherwise starts the next index |
| UploadQueue.Queue.ShowUploadCompleteMessage | hfs/static/main.js:130-137 | the load handler decides on the queue length at completion time |
| UploadQueue.ChainMeaning | hfs/static/main.js:103-137 | starting at an index, the chain of uploads sends every later entry once, in order, then reloads; past the end it does nothing |
| UploadQueue.UploadThrowsAsWritten | hfs/static/main.js:83-87 | as written, no entry gets a form, so `upload_file` throws for every queued index |
| UploadQueue.UploadSendsWithForms | hfs/static/main.js:65 | with the form of the commented-out line attached, each queued file is sent by POST to the current directory |

## Left out

- I/O, the HTTP transport and rendering are left out: routing, templates, error pages, `serve_file` (mimetype guessing, `static_file`), the `/static` route, `list_directory` and the logging of `nano-http-server.py`. GET of an existing file is the response `SendFile(path)`; 403, 404 and 405 are response values.
- `FileItem.mtime` and `FileItem.size` are left out: they are filesystem stats, and the filesystem holds no metadata.
- The filesystem is keyed by the path as spelled. `./a` and `a` are different keys, and no path is normalised.
- `os.listdir` is an input to the listing operations, in the order the filesystem gives. Its errors (a missing or unreadable directory) are not modelled.
- `rmtree` and `os.remove` are the removal of keys from the map. The `OSError` that `suppress` swallows is not modelled.
- `f.save(fpath)` always succeeds in the model. Bottle's own filename sanitising of `raw_filename` is not modelled: the raw name is used.
- `main()` argument parsing is left out: the rules list and the deletion level are constructor inputs, and the deletion level is limited to the values 0, 1 and 2 the options give. `show_my_ip.py` is left out (network-interface enumeration).
- Acl.ParseRule: the rule pattern's `\d` is limited to ASCII digits; Python also accepts other Unicode decimal digits.
- Multipart.DealPostData: bytes are identified with characters, and the UTF-8 decoding of the disposition line is not modelled. An invalid UTF-8 line would raise.
- Text.RStripSpace: `str.rstrip` also strips non-ASCII whitespace (such as U+0085 and U+00A0); only the ASCII whitespace and U+001C–U+001F are modelled.
- `int(self.headers['Content-Length'])` is an integer input; a non-numeric header would raise, and that is not modelled.
- Multipart.DealPostData: the request's URL path is an input. `os.getcwd()` is an input required to be absolute, as the operating system returns it. Whether `open` succeeds is the boolean `canOpen`. The file's content is the `written` string of the outcome.
- Multipart.PostData: the endless loops at the end of input are the outcome `Hangs`. The reads they would repeat are not enumerated.
- The DOM, QRCode, XHR progress, failure and abort handlers of `hfs/static/main.js` are left out, as is `static/main.js`. `upload_file` is modelled up to the point where it sends or throws. A completed upload is the `ShowUploadCompleteMessage` call.
- UploadQueue.Queue.UploadFile: the XHR is not modelled; the step value names what is sent.
- Concurrency is left out: each request is served alone, and the race between the existence check and file creation in both resolvers is not modelled.

## Findings

| source | as written | input that shows it | evidently intended | confidence | as-written member | corrected member |
|---|---|---|---|---|---|---|
| nano-http-server.py:125-132 | each probe `<filename>_<n><ext>` is joined onto `dirname(path)`, but `filename` from `splitext(path)` already holds the directory | the relative path `up/a.txt`, taken, gives `up/up/a_1.txt` | `up/a_1.txt`, a sibling of the requested path; the server only passes absolute paths, for which both agree | not executed | Resolver.ProperFilePathRelativeDoubles | Resolver.ProperFilePathMeaning |
| hfs/core.py:131-137 | a dotted mask is built from the groups of the address match, not of the mask match | `10.0.0.1/255.255.255.0` gets mask `10.0.0.1`, so the rule matches only `0.0.0.0`; `localhost/255.255.255.0` raises `TypeError` | the mask is the value of the mask text | not executed | Acl.DottedMaskIsAddress | Acl.IntendedDottedMask |
| nano-http-server.py:97-121 | at the end of input `readline()` returns an empty line, which neither lowers the budget nor holds the boundary, so both loops spin for ever | `Content-Length: 1000` with a body of 4 lines: `--b`, the disposition line, a blank line, `data` | the missing data ends the loop with `Unexpected ends of data` (or `Cannot create file`) | not executed | Multipart.TruncatedUploadHangs | Multipart.BodyToEofAgrees |
| hfs/static/main.js:83-110 | `add_progress_bar` has the assignment of `metadata_obj.form` commented out, yet `upload_file` reads `metadata_obj.form.attr(...)` | selecting any file, then pressing upload: `upload_file(0)` throws a `TypeError` | each queued file is posted to the current directory with the form of line 65 | not executed | UploadQueue.UploadThrowsAsWritten | UploadQueue.UploadSendsWithForms |
