/**
 * `deal_post_data` of `nano-http-server.py`: a line-oriented reader of a
 * `multipart/form-data` upload holding one file.
 *
 * The request body is the sequence of lines `readline()` returns, each with its
 * line terminator; reading past the last line gives the empty line, as
 * `readline()` does at end of input. Bytes are identified with characters. The
 * `Content-Length` budget is decremented by the length of each line consumed.
 */
module Multipart {
  import opened Results
  import opened Text
  import opened PosixPath
  import opened FileModel
  import opened Resolver

  /** What `deal_post_data` returns, with the bytes left in the uploaded file, the
      filesystem afterwards, how many lines were read and the budget left; or
      `Hangs` when its loop spins for ever on an exhausted input. */
  datatype Outcome =
    | Returned(success: bool, reason: string, written: string, fs: FileSystem, consumed: nat, remaining: int)
    | Hangs

  /** The line the i-th `readline()` returns. */
  function ReadAt(lines: seq<string>, i: nat): string
  {
    if i < |lines| then lines[i] else ""
  }

  /** The total length of the lines read at positions `i..j`. */
  function LenSum(lines: seq<string>, i: nat, j: nat): nat
    decreases j
  {
    if j <= i then 0 else LenSum(lines, i, j - 1) + |ReadAt(lines, j - 1)|
  }

  /** The lines read at positions `i..j`, concatenated. */
  function ConcatRange(lines: seq<string>, i: nat, j: nat): string
    decreases j
  {
    if j <= i then "" else ConcatRange(lines, i, j - 1) + ReadAt(lines, j - 1)
  }

  /** The number of leading spaces: the ` *` of a pattern. */
  function LeadingSpaces(s: string): (n: nat)
    ensures n <= |s|
    ensures forall k :: 0 <= k < n ==> s[k] == ' '
    ensures n == |s| || s[n] != ' '
  {
    if |s| > 0 && s[0] == ' ' then 1 + LeadingSpaces(s[1..]) else 0
  }

  function Spaces(n: nat): (s: string)
    ensures |s| == n && forall k :: 0 <= k < n ==> s[k] == ' '
  {
    if n == 0 then "" else Spaces(n - 1) + " "
  }

  const FormData: string := "multipart/form-data;"
  const BoundaryField: string := "boundary="

  /** The text after `lead`, a run of spaces and `field` at the start of `s`: the
      `lead *field(.*)` of a pattern, before its anchor is applied. */
  function AfterField(s: string, lead: string, field: string): Option<string>
  {
    if !(lead <= s) then None
    else
      var rest := s[|lead|..];
      var afterSpaces := rest[LeadingSpaces(rest)..];
      if !(field <= afterSpaces) then None else Some(afterSpaces[|field|..])
  }

  /** The match of `^multipart/form-data; *boundary=(.*)$` against the content type:
      the group, which holds no line feed, or nothing when the pattern fails. */
  function BoundaryOf(contentType: string): Option<string>
  {
    match AfterField(contentType, FormData, BoundaryField)
    case None => None
    case Some(tail) =>
      var group := AnchorBody(tail);
      if '\n' in group then None else Some(group)
  }

  /** The content types the pattern accepts, spelled out. */
  predicate SpellsBoundary(contentType: string, n: nat, boundary: string)
  {
    var head := FormData + Spaces(n) + BoundaryField + boundary;
    '\n' !in boundary && (contentType == head || contentType == head + "\n")
  }

  /** The text after the field is found exactly where the string is the lead, some
      spaces, the field and that text. */
  lemma AfterFieldSome(s: string, lead: string, field: string)
    requires AfterField(s, lead, field).Some?
    ensures s == lead + Spaces(LeadingSpaces(s[|lead|..])) + field + AfterField(s, lead, field).value
  {
    var rest := s[|lead|..];
    var n := LeadingSpaces(rest);
    var afterSpaces := rest[n..];
    var tail := afterSpaces[|field|..];
    PrefixRest(lead, s);
    assert rest[..n] == Spaces(n);
    PrefixRest(rest[..n], rest);
    PrefixRest(field, afterSpaces);
    Regroup(lead, Spaces(n), field, tail);
  }

  lemma AfterFieldOf(n: nat, lead: string, field: string, tail: string)
    requires field != [] && field[0] != ' '
    ensures AfterField(lead + Spaces(n) + field + tail, lead, field) == Some(tail)
  {
    var s := lead + Spaces(n) + field + tail;
    var rest := field + tail;
    Regroup(lead, Spaces(n), field, tail);
    assert lead <= s && s[|lead|..] == Spaces(n) + rest;
    assert rest[0] == field[0];
    LeadingSpacesOf(n, rest);
    assert (Spaces(n) + rest)[n..] == rest;
    assert field <= rest && rest[|field|..] == tail;
  }

  /** The content-type check accepts exactly `multipart/form-data;`, any number of
      spaces, `boundary=` and a boundary free of line feeds (one final line feed is
      allowed by `$`), and returns that boundary. */
  lemma BoundaryOfMeaning(contentType: string, boundary: string)
    ensures BoundaryOf(contentType) == Some(boundary) <==> exists n: nat :: SpellsBoundary(contentType, n, boundary)
  {
    if BoundaryOf(contentType) == Some(boundary) {
      BoundaryOfSpelled(contentType, boundary);
    }
    if exists n: nat :: SpellsBoundary(contentType, n, boundary) {
      var n: nat :| SpellsBoundary(contentType, n, boundary);
      SpelledBoundary(contentType, n, boundary);
    }
  }

  lemma BoundaryOfSpelled(contentType: string, boundary: string)
    requires BoundaryOf(contentType) == Some(boundary)
    ensures SpellsBoundary(contentType, LeadingSpaces(contentType[|FormData|..]), boundary)
  {
    var n := LeadingSpaces(contentType[|FormData|..]);
    var tail := AfterField(contentType, FormData, BoundaryField).value;
    AfterFieldSome(contentType, FormData, BoundaryField);
    if |tail| > 0 && tail[|tail| - 1] == '\n' {
      assert tail == boundary + "\n";
      Assoc(FormData + Spaces(n) + BoundaryField, boundary, "\n");
    } else {
      assert tail == boundary;
    }
  }

  lemma SpelledBoundary(contentType: string, n: nat, boundary: string)
    requires SpellsBoundary(contentType, n, boundary)
    ensures BoundaryOf(contentType) == Some(boundary)
  {
    var head := FormData + Spaces(n) + BoundaryField + boundary;
    var tail := if contentType == head then boundary else boundary + "\n";
    if contentType != head {
      Assoc(FormData + Spaces(n) + BoundaryField, boundary, "\n");
    }
    assert contentType == FormData + Spaces(n) + BoundaryField + tail;
    assert BoundaryField[0] == 'b';
    AfterFieldOf(n, FormData, BoundaryField, tail);
    AnchorFeedFree(boundary);
  }

  /** A boundary without line feeds is its own group, with or without a final
      line feed after it. */
  lemma AnchorFeedFree(boundary: string)
    requires '\n' !in boundary
    ensures AnchorBody(boundary) == boundary && AnchorBody(boundary + "\n") == boundary
  {
    assert (boundary + "\n")[..|boundary|] == boundary;
    if boundary != [] {
      assert boundary[|boundary| - 1] in boundary;
    }
  }

  lemma Regroup(a: string, b: string, c: string, d: string)
    ensures a + b + c + d == a + (b + (c + d))
  {
  }

  lemma Assoc(a: string, b: string, c: string)
    ensures a + b + c == a + (b + c)
  {
  }

  /** A string is its prefix followed by the rest. */
  lemma PrefixRest(p: string, s: string)
    requires p <= s
    ensures s == p + s[|p|..]
  {
  }

  /** `n` spaces before a text that does not start with one. */
  lemma LeadingSpacesOf(n: nat, t: string)
    requires t != [] && t[0] != ' '
    ensures LeadingSpaces(Spaces(n) + t) == n
  {
    var s := Spaces(n) + t;
    assert s[n] == t[0];
  }

  const DispositionPrefix: string := "Content-Disposition:"
  const NameField: string := "name=\"file\";"
  const FilenameField: string := "filename=\""

  /** The first index at or after `i` that does not hold a space: the ` *` of a
      pattern. */
  function SkipSpaces(s: string, i: nat): (t: nat)
    requires i <= |s|
    ensures i <= t <= |s|
    decreases |s| - i
  {
    if i < |s| && s[i] == ' ' then SkipSpaces(s, i + 1) else i
  }

  /** `SkipSpaces` passes over spaces only and stops at the first other character. */
  lemma {:induction false} SkipSpacesMeaning(s: string, i: nat)
    requires i <= |s|
    ensures forall k :: i <= k < SkipSpaces(s, i) ==> s[k] == ' '
    ensures SkipSpaces(s, i) == |s| || s[SkipSpaces(s, i)] != ' '
    decreases |s| - i
  {
    if i < |s| && s[i] == ' ' {
      SkipSpacesMeaning(s, i + 1);
    }
  }

  /** When `name="file"; *filename="` occurs at `j`, the index just after it. */
  function FieldEnd(s: string, j: nat): (r: Option<nat>)
    ensures r.Some? ==> j + |NameField| + |FilenameField| <= r.value <= |s|
  {
    if !OccursAt(s, NameField, j) then None
    else
      var t := SkipSpaces(s, j + |NameField|);
      if OccursAt(s, FilenameField, t) then Some(t + |FilenameField|) else None
  }

  /** The fields start at `j`, after the prefix, and leave room for the closing
      quote. */
  predicate FieldsAt(s: string, j: nat)
  {
    |DispositionPrefix| <= j && FieldEnd(s, j).Some? && FieldEnd(s, j).value < |s|
  }

  /** Where the fields start, position by position. */
  function FieldStarts(s: string): (b: seq<bool>)
    ensures |b| == |s| && forall j :: 0 <= j < |s| ==> b[j] == FieldsAt(s, j)
  {
    seq(|s|, j requires 0 <= j < |s| => FieldsAt(s, j))
  }

  /** The last position below `hi` that is marked: the greedy `.*` before a group
      picks the last place the rest of the pattern matches. */
  function LastMarked(b: seq<bool>, hi: nat): (r: Option<nat>)
    requires hi <= |b|
    ensures r.Some? ==> r.value < hi && b[r.value]
    decreases hi
  {
    if hi == 0 then None
    else if b[hi - 1] then Some(hi - 1)
    else LastMarked(b, hi - 1)
  }

  /** No marked position lies between what `LastMarked` finds and `hi`, and none
      at all below `hi` when it finds nothing. */
  lemma {:induction false} LastMarkedMeaning(b: seq<bool>, hi: nat)
    requires hi <= |b|
    ensures LastMarked(b, hi).Some? ==> forall j :: LastMarked(b, hi).value < j < hi ==> !b[j]
    ensures LastMarked(b, hi).None? ==> forall j :: 0 <= j < hi ==> !b[j]
    decreases hi
  {
    if hi > 0 && !b[hi - 1] {
      LastMarkedMeaning(b, hi - 1);
    }
  }

  /** A marked position with none marked after it below `hi` is what `LastMarked`
      finds. */
  lemma {:induction false} LastMarkedAt(b: seq<bool>, j: nat, hi: nat)
    requires j < hi <= |b| && b[j]
    requires forall j' :: j < j' < hi ==> !b[j']
    ensures LastMarked(b, hi) == Some(j)
    decreases hi
  {
    if j < hi - 1 {
      assert !b[hi - 1];
      LastMarkedAt(b, j, hi - 1);
    }
  }

  /** The match of `^Content-Disposition:.*name="file"; *filename="(.*)"$` against
      a line whose trailing whitespace was stripped: the filename group. */
  function FilenameOf(s: string): Option<string>
  {
    if !(DispositionPrefix <= s) || '\n' in s || |s| == 0 || s[|s| - 1] != '"' then None
    else match LastMarked(FieldStarts(s), |s|)
      case None => None
      case Some(j) => Some(s[FieldEnd(s, j).value..|s| - 1])
  }

  /** The disposition line is accepted exactly when it starts with the prefix, holds
      no line feed, ends with a quote and holds the fields somewhere after the
      prefix; the filename is what lies between the LAST such fields and the final
      quote. */
  lemma FilenameOfMeaning(s: string)
    ensures FilenameOf(s).Some? <==>
      && DispositionPrefix <= s && '\n' !in s && |s| > 0 && s[|s| - 1] == '"'
      && exists j :: 0 <= j < |s| && FieldsAt(s, j)
    ensures FilenameOf(s).Some? ==>
      exists j :: && 0 <= j < |s| && FieldsAt(s, j)
                  && FilenameOf(s).value == s[FieldEnd(s, j).value..|s| - 1]
                  && forall j' :: j < j' < |s| ==> !FieldsAt(s, j')
  {
    var b := FieldStarts(s);
    LastMarkedMeaning(b, |s|);
    if exists j :: 0 <= j < |s| && FieldsAt(s, j) {
      var j :| 0 <= j < |s| && FieldsAt(s, j);
      assert b[j];
    }
    if FilenameOf(s).Some? {
      var j := LastMarked(b, |s|).value;
      assert FieldsAt(s, j);
      forall j' | j < j' < |s| ensures !FieldsAt(s, j') {
        assert !b[j'];
      }
    }
  }

  /** A browser's disposition line for `form-data` with the field `file`. */
  const StandardLine: string := "Content-Disposition: form-data; " + NameField + " " + FilenameField + "a.txt\""

  lemma StandardFields()
    ensures FieldEnd(StandardLine, 32) == Some(55)
  {
    var s := StandardLine;
    assert s[32..44] == NameField;
    assert s[44] == ' ' && s[45] != ' ';
    assert SkipSpaces(s, 45) == 45;
    assert s[45..55] == FilenameField;
  }

  lemma StandardFieldsLast()
    ensures forall j :: 32 < j < |StandardLine| ==> !FieldsAt(StandardLine, j)
  {
    var s := StandardLine;
    var tail := s[44..];
    assert tail == " " + FilenameField + "a.txt\"";
    assert ';' !in tail;
    forall j | 32 < j < |s| ensures !FieldsAt(s, j) {
      if j + 12 <= |s| {
        assert s[j + 11] == tail[j + 11 - 44] != ';';
        assert s[j..j + 12][11] != NameField[11];
      }
    }
  }

  lemma StandardShape()
    ensures DispositionPrefix <= StandardLine && StandardLine[|StandardLine| - 1] == '"'
    ensures StandardLine[55..|StandardLine| - 1] == "a.txt"
  {
  }

  lemma StandardNoFeed()
    ensures '\n' !in StandardLine
  {
    var head := "Content-Disposition: form-data; ";
    var tail := " " + FilenameField + "a.txt\"";
    assert StandardLine == head + NameField + tail;
    assert '\n' !in head && '\n' !in NameField && '\n' !in tail;
  }

  /** The filename of a browser's disposition line is the quoted name. */
  lemma StandardDisposition()
    ensures FilenameOf(StandardLine) == Some("a.txt")
  {
    var s := StandardLine;
    StandardFields();
    StandardFieldsLast();
    var b := FieldStarts(s);
    forall j' | 32 < j' < |s| ensures !b[j'] {
    }
    LastMarkedAt(b, 32, |s|);
    StandardShape();
    StandardNoFeed();
  }

  /** The first position at or after `i` whose line is blank once stripped; the end
      of the input always is. */
  function HeaderEnd(lines: seq<string>, i: nat): (h: nat)
    ensures i <= h && Blank(ReadAt(lines, h))
    ensures forall t :: i <= t < h ==> !Blank(ReadAt(lines, t))
    decreases |lines| - i
  {
    if Blank(ReadAt(lines, i)) then i else HeaderEnd(lines, i + 1)
  }

  /** Where draining the input stops: the first position from `p` on at which the
      budget is used up, or nothing when the input ends first, after which
      `readline()` keeps returning the empty line and the budget never falls. */
  function Drain(lines: seq<string>, budget: int, p: nat): (r: Option<nat>)
    ensures r.Some? ==> p <= r.value && budget - LenSum(lines, 0, r.value) <= 0
    ensures r.Some? ==> forall t :: p <= t < r.value ==> budget - LenSum(lines, 0, t) > 0
    ensures r.None? ==> |lines| <= p || budget - LenSum(lines, 0, |lines|) > 0
    decreases |lines| - p
  {
    if budget - LenSum(lines, 0, p) <= 0 then Some(p)
    else if p >= |lines| then None
    else Drain(lines, budget, p + 1)
  }

  datatype BodyEnd = Found(at: nat) | Exhausted(at: nat) | Spins

  /** Where the body loop stops, reading from position `p` on: at the first line
      holding the boundary, read while budget remained; or where the budget runs
      out first; or never, once the input has ended with budget left and a
      boundary the empty line does not hold. */
  function Body(lines: seq<string>, budget: int, boundary: string, p: nat): BodyEnd
    decreases |lines| - p
  {
    if budget - LenSum(lines, 0, p) <= 0 then Exhausted(p)
    else if p >= |lines| then
      if boundary == "" then Found(p) else Spins
    else if Contains(lines[p], boundary) then Found(p)
    else Body(lines, budget, boundary, p + 1)
  }

  /** The body loop stops at the first line holding the boundary, read while
      budget remained, or where the budget runs out first; it spins only when the
      input ends with budget left and a boundary that is not empty. */
  lemma BodyMeaning(lines: seq<string>, budget: int, boundary: string, p: nat)
    ensures var r := Body(lines, budget, boundary, p);
      && (r.Found? ==> p <= r.at && Contains(ReadAt(lines, r.at), boundary)
                       && budget - LenSum(lines, 0, r.at) > 0)
      && (r.Exhausted? ==> p <= r.at && budget - LenSum(lines, 0, r.at) <= 0)
      && (r.Found? || r.Exhausted? ==>
            forall t :: p <= t < r.at ==> !Contains(ReadAt(lines, t), boundary)
                                          && budget - LenSum(lines, 0, t) > 0)
      && (r.Spins? ==> boundary != "" && budget - LenSum(lines, 0, Max(p, |lines|)) > 0)
  {
    BodyStops(lines, budget, boundary, p);
    BodyBefore(lines, budget, boundary, p);
  }

  /** Where the body loop stops, and why. */
  lemma {:induction false} BodyStops(lines: seq<string>, budget: int, boundary: string, p: nat)
    ensures var r := Body(lines, budget, boundary, p);
      && (r.Found? ==> p <= r.at && Contains(ReadAt(lines, r.at), boundary)
                       && budget - LenSum(lines, 0, r.at) > 0)
      && (r.Exhausted? ==> p <= r.at && budget - LenSum(lines, 0, r.at) <= 0)
      && (r.Spins? ==> boundary != "" && budget - LenSum(lines, 0, Max(p, |lines|)) > 0)
    decreases |lines| - p
  {
    if budget - LenSum(lines, 0, p) <= 0 {
    } else if p >= |lines| {
      if boundary == "" {
        assert OccursAt(ReadAt(lines, p), boundary, 0);
      }
    } else if !Contains(lines[p], boundary) {
      BodyStops(lines, budget, boundary, p + 1);
    }
  }

  /** Every line the body loop passes over lacks the boundary and was read while
      budget remained. */
  lemma {:induction false} BodyBefore(lines: seq<string>, budget: int, boundary: string, p: nat)
    ensures var r := Body(lines, budget, boundary, p);
      r.Found? || r.Exhausted? ==>
        forall t :: p <= t < r.at ==> !Contains(ReadAt(lines, t), boundary)
                                      && budget - LenSum(lines, 0, t) > 0
    decreases |lines| - p
  {
    if budget - LenSum(lines, 0, p) > 0 && p < |lines| && !Contains(lines[p], boundary) {
      BodyBefore(lines, budget, boundary, p + 1);
    }
  }

  function Max(a: nat, b: nat): nat
  {
    if a < b then b else a
  }

  /** `preline[:-1]`, then one trailing `\r` removed. */
  function TrimEol(s: string): string
  {
    var t := if |s| > 0 then s[..|s| - 1] else s;
    if |t| > 0 && t[|t| - 1] == '\r' then t[..|t| - 1] else t
  }

  /** A content line ending with CR LF loses exactly that pair. */
  lemma TrimEolCrLf(content: string)
    ensures TrimEol(content + "\r\n") == content
  {
    assert (content + "\r\n")[..|content| + 1] == content + "\r";
    assert (content + "\r")[..|content|] == content;
  }

  /** The outcome once the file cannot be created, the headers having ended at
      `h`: the input is drained until the budget is used up. */
  function DrainOutcome(lines: seq<string>, contentLength: int, h: nat, fs: FileSystem): (out: Outcome)
    ensures out.Returned? ==> !out.success && out.fs == fs && out.remaining <= 0
  {
    match Drain(lines, contentLength, h + 2)
    case None => Hangs
    case Some(e) => Returned(false, "Cannot create file", "", fs, e, contentLength - LenSum(lines, 0, e))
  }

  /** The outcome of copying the body into `target`, the headers having ended at
      `h`: every line before the one holding the boundary, the last of them
      without its line end. */
  function BodyOutcome(lines: seq<string>, contentLength: int, boundary: string, h: nat,
                       fs: FileSystem, target: string): (out: Outcome)
    ensures out.Returned? && out.success ==> out.fs == fs[target := File] && out.consumed >= h + 3
    ensures out.Returned? && !out.success ==> out.fs == fs && out.remaining <= 0 && out.written == ""
  {
    BodyMeaning(lines, contentLength, boundary, h + 2);
    match Body(lines, contentLength, boundary, h + 2)
    case Spins => Hangs
    case Exhausted(e) =>
      Returned(false, "Unexpected ends of data", "", fs, e, contentLength - LenSum(lines, 0, e))
    case Found(f) =>
      Returned(true, "File upload success", ConcatRange(lines, h + 1, f - 1) + TrimEol(ReadAt(lines, f - 1)),
               fs[target := File], f + 1, contentLength - LenSum(lines, 0, f + 1))
  }

  /** The upload request as a whole: the outcome of `deal_post_data` on a
      content length, a content type and the body lines, with the file saved under
      the free name the resolver chooses for `cwd + urlPath + filename`; `canOpen`
      says whether the server may create that file. */
  function PostData(contentLength: int, contentType: string, lines: seq<string>, cwd: string,
                    urlPath: string, fs: FileSystem, canOpen: bool): Outcome
  {
    match BoundaryOf(contentType)
    case None => Returned(false, "Boundary not found", "", fs, 0, contentLength)
    case Some(boundary) =>
      if !Contains(ReadAt(lines, 0), boundary) then
        Returned(false, "Content not begin with boundary", "", fs, 1, contentLength)
      else match FilenameOf(RStripSpace(ReadAt(lines, 1)))
        case None => Returned(false, "File name not found", "", fs, 2, contentLength - |ReadAt(lines, 0)|)
        case Some(filename) =>
          if filename == "" then
            Returned(false, "Empty file name", "", fs, 2, contentLength - |ReadAt(lines, 0)|)
          else
            var h := HeaderEnd(lines, 2);
            if !canOpen then DrainOutcome(lines, contentLength, h, fs)
            else BodyOutcome(lines, contentLength, boundary, h, fs, ProperFilePath(fs, cwd + urlPath + filename))
  }

  lemma LenSumStep(lines: seq<string>, j: nat)
    ensures LenSum(lines, 0, j + 1) == LenSum(lines, 0, j) + |ReadAt(lines, j)|
  {
  }

  lemma ConcatRangeStep(lines: seq<string>, i: nat, j: nat)
    requires i <= j
    ensures ConcatRange(lines, i, j + 1) == ConcatRange(lines, i, j) + ReadAt(lines, j)
  {
  }

  /** The outcome once the body loop finds the boundary in the line at `f`. */
  lemma BodyOutcomeFound(lines: seq<string>, contentLength: int, boundary: string, h: nat,
                         fs: FileSystem, target: string, f: nat)
    requires h + 2 <= f && Body(lines, contentLength, boundary, h + 2) == Found(f)
    ensures BodyOutcome(lines, contentLength, boundary, h, fs, target) ==
      Returned(true, "File upload success", ConcatRange(lines, h + 1, f - 1) + TrimEol(ReadAt(lines, f - 1)),
               fs[target := File], f + 1, contentLength - LenSum(lines, 0, f + 1))
  {
  }

  /** The loop over the part headers: reads from position 2 up to and including the
      first blank line, which ends at `h`, and charges the budget for them. */
  method SkipHeaders(lines: seq<string>, contentLength: int, budget0: int) returns (h: nat, budget: int)
    requires budget0 == contentLength - LenSum(lines, 0, 2)
    ensures h == HeaderEnd(lines, 2)
    ensures budget == contentLength - LenSum(lines, 0, h + 1)
  {
    budget := budget0;
    var pos := 2;
    var rawLine := ReadAt(lines, pos);
    pos := pos + 1;
    while !Blank(rawLine)
      invariant 3 <= pos && rawLine == ReadAt(lines, pos - 1)
      invariant HeaderEnd(lines, pos - 1) == HeaderEnd(lines, 2)
      invariant budget == contentLength - LenSum(lines, 0, pos - 1)
      decreases |lines| - pos
    {
      LenSumStep(lines, pos - 1);
      budget := budget - |rawLine|;
      rawLine := ReadAt(lines, pos);
      pos := pos + 1;
    }
    LenSumStep(lines, pos - 1);
    budget := budget - |rawLine|;
    h := pos - 1;
  }

  /** The branch taken when the file cannot be opened: reads one line, then more
      while budget remains. */
  method DrainRest(lines: seq<string>, contentLength: int, h: nat, budget0: int, fs: FileSystem)
    returns (out: Outcome)
    requires budget0 == contentLength - LenSum(lines, 0, h + 1)
    ensures out == DrainOutcome(lines, contentLength, h, fs)
  {
    var budget := budget0;
    var pos := h + 1;
    var rawLine := ReadAt(lines, pos);
    LenSumStep(lines, pos);
    pos := pos + 1;
    budget := budget - |rawLine|;
    while budget > 0
      invariant h + 2 <= pos
      invariant budget == contentLength - LenSum(lines, 0, pos)
      invariant Drain(lines, contentLength, pos) == Drain(lines, contentLength, h + 2)
      decreases |lines| - pos
    {
      if pos >= |lines| {
        // readline() now returns the empty line for ever and the budget stays positive
        return Hangs;
      }
      rawLine := ReadAt(lines, pos);
      LenSumStep(lines, pos);
      pos := pos + 1;
      budget := budget - |rawLine|;
    }
    return Returned(false, "Cannot create file", "", fs, pos, budget);
  }

  /** A line read with budget left and without the boundary is written once the
      next line is read, and the body loop goes on to that next line. */
  lemma CopyStep(lines: seq<string>, contentLength: int, boundary: string, h: nat, pos: nat)
    requires h + 2 <= pos && pos < |lines| && contentLength - LenSum(lines, 0, pos) > 0
    requires !Contains(lines[pos], boundary)
    ensures Body(lines, contentLength, boundary, pos) == Body(lines, contentLength, boundary, pos + 1)
    ensures ConcatRange(lines, h + 1, pos) == ConcatRange(lines, h + 1, pos - 1) + ReadAt(lines, pos - 1)
  {
    ConcatRangeStep(lines, h + 1, pos - 1);
  }

  /** The copy loop: holds back one line, `preline`, and writes it only once the
      next line shows whether it was the last line of the file. */
  method CopyBody(lines: seq<string>, contentLength: int, boundary: string, h: nat, budget0: int,
                  fs: FileSystem, target: string) returns (out: Outcome)
    requires budget0 == contentLength - LenSum(lines, 0, h + 1)
    ensures out == BodyOutcome(lines, contentLength, boundary, h, fs, target)
  {
    var budget := budget0;
    var files := fs[target := File];
    var pos := h + 1;
    var preline := ReadAt(lines, pos);
    LenSumStep(lines, pos);
    pos := pos + 1;
    budget := budget - |preline|;
    var written := "";
    while budget > 0
      invariant h + 2 <= pos
      invariant preline == ReadAt(lines, pos - 1)
      invariant budget == contentLength - LenSum(lines, 0, pos)
      invariant written == ConcatRange(lines, h + 1, pos - 1)
      invariant Body(lines, contentLength, boundary, pos) == Body(lines, contentLength, boundary, h + 2)
      decreases |lines| - pos
    {
      if pos >= |lines| && boundary != "" {
        // readline() now returns the empty line, which never holds the boundary
        assert Body(lines, contentLength, boundary, pos) == Spins;
        return Hangs;
      }
      var rawLine := ReadAt(lines, pos);
      if pos >= |lines| {
        // the empty boundary is in the empty line
        assert OccursAt(rawLine, boundary, 0);
      }
      LenSumStep(lines, pos);
      if Contains(rawLine, boundary) {
        assert Body(lines, contentLength, boundary, pos) == Found(pos);
        BodyOutcomeFound(lines, contentLength, boundary, h, fs, target, pos);
        preline := TrimEol(preline);
        written := written + preline;
        return Returned(true, "File upload success", written, files, pos + 1, budget - |rawLine|);
      }
      CopyStep(lines, contentLength, boundary, h, pos);
      pos := pos + 1;
      budget := budget - |rawLine|;
      written := written + preline;
      preline := rawLine;
    }
    // os.remove() takes back the file that open() created, so the filesystem is as before
    assert Body(lines, contentLength, boundary, pos) == Exhausted(pos);
    return Returned(false, "Unexpected ends of data", "", fs, pos, budget);
  }

  /** `deal_post_data`, reading the body line by line. `cwd` is what `os.getcwd()`
      returns, an absolute path. */
  method DealPostData(contentLength: int, contentType: string, lines: seq<string>, cwd: string,
                      urlPath: string, fs: FileSystem, canOpen: bool) returns (out: Outcome)
    requires "/" <= cwd
    ensures out == PostData(contentLength, contentType, lines, cwd, urlPath, fs, canOpen)
  {
    var budget := contentLength;
    var m := BoundaryOf(contentType);
    if m.None? {
      return Returned(false, "Boundary not found", "", fs, 0, budget);
    }
    var boundary := m.value;
    var rawLine := ReadAt(lines, 0);
    if !Contains(rawLine, boundary) {
      return Returned(false, "Content not begin with boundary", "", fs, 1, budget);
    }
    budget := budget - |rawLine|;

    rawLine := ReadAt(lines, 1);
    var name := FilenameOf(RStripSpace(rawLine));
    if name.None? {
      return Returned(false, "File name not found", "", fs, 2, budget);
    }
    var filename := name.value;
    if filename == "" {
      return Returned(false, "Empty file name", "", fs, 2, budget);
    }
    budget := budget - |rawLine|;
    LenSumStep(lines, 0);
    LenSumStep(lines, 1);
    out := ReceiveFile(lines, contentLength, budget, boundary, fs, cwd + urlPath + filename, canOpen);
  }

  /** The rest of `deal_post_data` once the headers name a file to be written at
      the absolute `path`: skip the remaining headers, pick a free path, then copy
      the body, or drain the input when the file cannot be created. */
  method ReceiveFile(lines: seq<string>, contentLength: int, budget0: int, boundary: string,
                     fs: FileSystem, path: string, canOpen: bool) returns (out: Outcome)
    requires "/" <= path && budget0 == contentLength - LenSum(lines, 0, 2)
    ensures out == if canOpen then BodyOutcome(lines, contentLength, boundary, HeaderEnd(lines, 2), fs, ProperFilePath(fs, path))
      else DrainOutcome(lines, contentLength, HeaderEnd(lines, 2), fs)
  {
    var h, budget := SkipHeaders(lines, contentLength, budget0);
    var target := GetProperFilePath(fs, path);
    ProperFilePathAbsolute(fs, path);
    if !canOpen {
      out := DrainRest(lines, contentLength, h, budget, fs);
    } else {
      out := CopyBody(lines, contentLength, boundary, h, budget, fs, target);
    }
  }

  /** The lines of a sequence, concatenated. */
  function Concat(ls: seq<string>): string
  {
    if ls == [] then "" else Concat(ls[..|ls| - 1]) + ls[|ls| - 1]
  }

  lemma {:induction false} ConcatRangeSlice(lines: seq<string>, i: nat, k: nat)
    requires i + k <= |lines|
    ensures ConcatRange(lines, i, i + k) == Concat(lines[i..i + k])
  {
    if k > 0 {
      ConcatRangeSlice(lines, i, k - 1);
      assert lines[i..i + k][..k - 1] == lines[i..i + k - 1];
    }
  }

  lemma {:induction false} LenSumMono(lines: seq<string>, t: nat, u: nat)
    requires t <= u
    ensures LenSum(lines, 0, t) <= LenSum(lines, 0, u)
    decreases u
  {
    if t < u {
      LenSumMono(lines, t, u - 1);
    }
  }

  /** The body loop finds the first line holding the boundary when the budget
      still covers every line before it. */
  lemma {:induction false} BodyFinds(lines: seq<string>, budget: int, boundary: string, p: nat, f: nat)
    requires p <= f < |lines| && Contains(lines[f], boundary)
    requires forall t :: p <= t < f ==> !Contains(lines[t], boundary)
    requires LenSum(lines, 0, f) < budget
    ensures Body(lines, budget, boundary, p) == Found(f)
    decreases f - p
  {
    LenSumMono(lines, p, f);
    if p < f {
      BodyFinds(lines, budget, boundary, p + 1, f);
    }
  }

  /** A line of `\r\n` alone ends the part headers. */
  lemma CrLfBlank()
    ensures Blank("\r\n")
  {
  }

  /** The lines of a well-formed upload of one file. */
  function UploadLines(opening: string, disposition: string, content: seq<string>, last: string,
                       closing: string): seq<string>
  {
    [opening, disposition, "\r\n"] + content + [last + "\r\n", closing]
  }

  /** The copy loop over a well-formed upload stops at the closing line. */
  lemma UploadBody(opening: string, disposition: string, content: seq<string>, last: string,
                   closing: string, boundary: string, fs: FileSystem, target: string)
    requires Contains(closing, boundary) && closing != ""
    requires forall i :: 0 <= i < |content| ==> !Contains(content[i], boundary)
    requires !Contains(last + "\r\n", boundary)
    ensures var lines := UploadLines(opening, disposition, content, last, closing);
      BodyOutcome(lines, LenSum(lines, 0, |lines|), boundary, 2, fs, target)
      == Returned(true, "File upload success", Concat(content) + last, fs[target := File], |lines|, 0)
  {
    var lines := UploadLines(opening, disposition, content, last, closing);
    var cl := LenSum(lines, 0, |lines|);
    var f := |lines| - 1;
    assert lines[f] == closing && lines[f - 1] == last + "\r\n";
    forall t | 4 <= t < f ensures !Contains(lines[t], boundary) {
      if t < f - 1 {
        assert lines[t] == content[t - 3];
      }
    }
    LenSumStep(lines, f);
    BodyFinds(lines, cl, boundary, 4, f);
    ConcatRangeSlice(lines, 3, |content|);
    assert lines[3..3 + |content|] == content;
    TrimEolCrLf(last);
  }

  /** A well-formed upload round-trips: for the opening boundary line, a
      disposition line naming a file, a blank line, the content lines and a closing
      line holding the boundary, with the exact content length, the file is saved
      under the name the resolver picks and holds the content lines with the last
      line end removed, and the budget is used up exactly. */
  lemma UploadRoundTrip(contentType: string, boundary: string, opening: string, disposition: string,
                        name: string, content: seq<string>, last: string, closing: string,
                        cwd: string, urlPath: string, fs: FileSystem)
    requires BoundaryOf(contentType) == Some(boundary)
    requires Contains(opening, boundary) && Contains(closing, boundary) && closing != ""
    requires FilenameOf(RStripSpace(disposition)) == Some(name) && name != ""
    requires forall i :: 0 <= i < |content| ==> !Contains(content[i], boundary)
    requires !Contains(last + "\r\n", boundary)
    ensures var lines := UploadLines(opening, disposition, content, last, closing);
      PostData(LenSum(lines, 0, |lines|), contentType, lines, cwd, urlPath, fs, true)
      == Returned(true, "File upload success", Concat(content) + last,
                  fs[ProperFilePath(fs, cwd + urlPath + name) := File], |lines|, 0)
  {
    var lines := UploadLines(opening, disposition, content, last, closing);
    CrLfBlank();
    assert ReadAt(lines, 0) == opening && ReadAt(lines, 1) == disposition;
    assert HeaderEnd(lines, 2) == 2 by {
      assert ReadAt(lines, 2) == "\r\n";
    }
    UploadBody(opening, disposition, content, last, closing, boundary, fs,
               ProperFilePath(fs, cwd + urlPath + name));
  }

  /** The copy loop with the end of input taken as the end of the data: it stops at
      the first line holding the boundary or where the budget runs out, and at the
      latest where the input ends. */
  function BodyToEof(lines: seq<string>, budget: int, boundary: string, p: nat): (r: BodyEnd)
    ensures !r.Spins?
    decreases |lines| - p
  {
    if budget - LenSum(lines, 0, p) <= 0 || p >= |lines| then Exhausted(p)
    else if Contains(lines[p], boundary) then Found(p)
    else BodyToEof(lines, budget, boundary, p + 1)
  }

  /** The drain loop with the end of input taken as the end of the data. */
  function DrainToEof(lines: seq<string>, budget: int, p: nat): (e: nat)
    ensures p <= e
    decreases |lines| - p
  {
    if budget - LenSum(lines, 0, p) <= 0 || p >= |lines| then p
    else DrainToEof(lines, budget, p + 1)
  }

  /** The loops that stop at the end of input always end; they end where the loops
      as written do whenever those end before the input does, and where the input
      ends when those spin. */
  lemma {:induction false} BodyToEofAgrees(lines: seq<string>, budget: int, boundary: string, p: nat)
    ensures var r := Body(lines, budget, boundary, p);
      && (r.Exhausted? || (r.Found? && r.at < |lines|) ==> BodyToEof(lines, budget, boundary, p) == r)
      && (r.Spins? ==> BodyToEof(lines, budget, boundary, p) == Exhausted(Max(p, |lines|)))
    ensures Drain(lines, budget, p).Some? ==> DrainToEof(lines, budget, p) == Drain(lines, budget, p).value
    ensures Drain(lines, budget, p).None? ==> DrainToEof(lines, budget, p) == Max(p, |lines|)
    decreases |lines| - p
  {
    if budget - LenSum(lines, 0, p) > 0 && p < |lines| {
      BodyToEofAgrees(lines, budget, boundary, p + 1);
    }
  }

  /** A truncated upload: the content length promises more than the client sends. */
  const TruncatedType: string := FormData + BoundaryField + "b"
  const TruncatedLines: seq<string> := ["--b\r\n", StandardLine + "\r\n", "\r\n", "data\r\n"]

  /** As written, `deal_post_data` never returns on a truncated upload: past the
      last line `readline()` gives the empty line, which neither holds the boundary
      nor lowers the budget, while the loops that stop at the end of input report
      the missing data. */
  lemma TruncatedUploadHangs(cwd: string, urlPath: string, fs: FileSystem)
    ensures PostData(1000, TruncatedType, TruncatedLines, cwd, urlPath, fs, true) == Hangs
    ensures PostData(1000, TruncatedType, TruncatedLines, cwd, urlPath, fs, false) == Hangs
    ensures BodyToEof(TruncatedLines, 1000, "b", 4) == Exhausted(4)
    ensures DrainToEof(TruncatedLines, 1000, 4) == 4
  {
    TruncatedHeaders();
    TruncatedShort();
    PastEndSpins(TruncatedLines, 1000, "b", 4);
    HeadersThenSpin(1000, TruncatedType, TruncatedLines, cwd, urlPath, fs, "b", "a.txt", 2);
  }

  /** The headers of the truncated upload: boundary `b`, file name `a.txt`, and the
      blank line right after the disposition. */
  lemma TruncatedHeaders()
    ensures BoundaryOf(TruncatedType) == Some("b")
    ensures Contains(ReadAt(TruncatedLines, 0), "b")
    ensures FilenameOf(RStripSpace(ReadAt(TruncatedLines, 1))) == Some("a.txt")
    ensures HeaderEnd(TruncatedLines, 2) == 2
  {
    var lines := TruncatedLines;
    assert TruncatedType == FormData + Spaces(0) + BoundaryField + "b";
    SpelledBoundary(TruncatedType, 0, "b");
    assert OccursAt(lines[0], "b", 2);
    RStripCrLf(StandardLine);
    StandardDisposition();
    CrLfBlank();
    assert ReadAt(lines, 2) == "\r\n";
  }

  /** The truncated upload sends fewer than 1000 characters. */
  lemma TruncatedShort()
    ensures |TruncatedLines| == 4 && LenSum(TruncatedLines, 0, 4) < 1000
  {
    var lines := TruncatedLines;
    assert |lines[0]| + |lines[1]| + |lines[2]| + |lines[3]| < 1000;
  }

  /** Past the end of input with budget left, the body loop spins and the drain
      loop never stops, while their end-of-input variants stop at once. */
  lemma PastEndSpins(lines: seq<string>, budget: int, boundary: string, p: nat)
    requires p == |lines| && LenSum(lines, 0, p) < budget && boundary != ""
    ensures Body(lines, budget, boundary, p) == Spins && Drain(lines, budget, p) == None
    ensures BodyToEof(lines, budget, boundary, p) == Exhausted(p) && DrainToEof(lines, budget, p) == p
  {
  }

  /** An upload whose headers parse, with a file name, and whose body loops then
      spin, never returns, whether or not the file can be created. */
  lemma HeadersThenSpin(contentLength: int, contentType: string, lines: seq<string>, cwd: string,
                        urlPath: string, fs: FileSystem, boundary: string, filename: string, h: nat)
    requires BoundaryOf(contentType) == Some(boundary) && Contains(ReadAt(lines, 0), boundary)
    requires FilenameOf(RStripSpace(ReadAt(lines, 1))) == Some(filename) && filename != ""
    requires HeaderEnd(lines, 2) == h
    requires Body(lines, contentLength, boundary, h + 2) == Spins && Drain(lines, contentLength, h + 2) == None
    ensures PostData(contentLength, contentType, lines, cwd, urlPath, fs, true) == Hangs
    ensures PostData(contentLength, contentType, lines, cwd, urlPath, fs, false) == Hangs
  {
  }
}
