/**
 * The client-side upload queue of `hfs/static/main.js`: the page-wide `metadata`
 * array of selected files, `add_metadata` that keeps their names unique,
 * `on_file_selected` that queues a selection, and the chain of uploads that
 * `upload_file` walks by index.
 *
 * A selected file is its name and size. The table row `add_progress_bar` appends
 * to `#pending-files` is recorded as the file it shows. The form, progress bar and
 * request of an entry are reduced to the form's method and action, the only parts
 * `upload_file` reads before it sends.
 */
module UploadQueue {
  import opened Results

  datatype SelectedFile = SelectedFile(name: string, size: nat)

  /** The method and action of an upload form. */
  datatype Form = Form(verb: string, action: string)

  /** An entry of `metadata`: the file, and the form when one has been attached. */
  datatype Entry = Entry(file: SelectedFile, form: Option<Form>)

  /** What `upload_file(index)` does: nothing, send the file with the entry's form,
      or throw a `TypeError` because the entry has no form. */
  datatype UploadStep = Idle | Send(file: SelectedFile, form: Form) | Throws

  /** What the load handler of the upload of entry `index` does next. */
  datatype AfterLoad = Reload | UploadNext(index: nat)

  /** Some entry holds a file of this name. */
  predicate HasName(m: seq<Entry>, name: string)
  {
    exists i :: 0 <= i < |m| && m[i].file.name == name
  }

  /** No two entries hold files of the same name. */
  predicate UniqueNames(m: seq<Entry>)
  {
    forall i, j :: 0 <= i < j < |m| ==> m[i].file.name != m[j].file.name
  }

  /** The files of a run of entries, in order. */
  function FilesOf(m: seq<Entry>): (r: seq<SelectedFile>)
    ensures |r| == |m| && forall i :: 0 <= i < |m| ==> r[i] == m[i].file
  {
    seq(|m|, i requires 0 <= i < |m| => m[i].file)
  }

  /** `metadata` after `add_metadata` was called on each selected file in turn:
      a file is queued, without a form, unless its name is already queued. */
  function Accept(m: seq<Entry>, files: seq<SelectedFile>): seq<Entry>
  {
    if files == [] then m
    else
      var before := Accept(m, files[..|files| - 1]);
      var file := files[|files| - 1];
      if HasName(before, file.name) then before else before + [Entry(file, None)]
  }

  /** Queuing a selection keeps the earlier entries, appends only files of the
      selection, without forms, and keeps the names unique. */
  lemma {:induction false} AcceptExtends(m: seq<Entry>, files: seq<SelectedFile>)
    requires UniqueNames(m)
    ensures var r := Accept(m, files);
      && m <= r && UniqueNames(r)
      && forall k :: |m| <= k < |r| ==> r[k].form == None && r[k].file in files
  {
    if files != [] {
      AcceptExtends(m, files[..|files| - 1]);
    }
  }

  /** After queuing a selection, a name is queued exactly when it was queued before
      or is the name of a selected file. */
  lemma {:induction false} AcceptNames(m: seq<Entry>, files: seq<SelectedFile>, name: string)
    ensures HasName(Accept(m, files), name) <==>
      HasName(m, name) || exists i :: 0 <= i < |files| && files[i].name == name
  {
    if files != [] {
      var init := files[..|files| - 1];
      AcceptNames(m, init, name);
      var before := Accept(m, init);
      if HasName(Accept(m, files), name) && !HasName(m, name) && !HasName(before, name) {
        var k :| 0 <= k < |Accept(m, files)| && Accept(m, files)[k].file.name == name;
        assert k == |before|;
        assert files[|files| - 1].name == name;
      }
      if exists i :: 0 <= i < |files| && files[i].name == name {
        var i :| 0 <= i < |files| && files[i].name == name;
        if i < |init| {
          assert init[i].name == name;
          AcceptKeeps(before, files[|files| - 1]);
        } else if !HasName(before, name) {
          assert Accept(m, files)[|before|].file.name == name;
        }
      }
      AcceptKeeps(before, files[|files| - 1]);
    }
  }

  /** One more call of `add_metadata` never loses a name. */
  lemma AcceptKeeps(before: seq<Entry>, file: SelectedFile)
    ensures var after := if HasName(before, file.name) then before else before + [Entry(file, None)];
      forall name :: HasName(before, name) ==> HasName(after, name)
  {
    var after := if HasName(before, file.name) then before else before + [Entry(file, None)];
    forall name | HasName(before, name) ensures HasName(after, name) {
      var k :| 0 <= k < |before| && before[k].file.name == name;
      assert after[k] == before[k];
    }
  }

  /** Of several selected files sharing a name not queued before, the first is the
      one queued. */
  lemma {:induction false} AcceptFirstWins(m: seq<Entry>, files: seq<SelectedFile>, i: nat)
    requires UniqueNames(m)
    requires i < |files| && !HasName(m, files[i].name)
    requires forall i' :: 0 <= i' < i ==> files[i'].name != files[i].name
    ensures exists k :: |m| <= k < |Accept(m, files)| && Accept(m, files)[k].file == files[i]
  {
    var init := files[..|files| - 1];
    var before := Accept(m, init);
    AcceptExtends(m, init);
    if i < |init| {
      AcceptFirstWins(m, init, i);
      var k :| |m| <= k < |before| && before[k].file == init[i];
      assert Accept(m, files)[k] == before[k];
    } else {
      assert !HasName(before, files[i].name) by {
        AcceptNames(m, init, files[i].name);
      }
      assert Accept(m, files)[|before|].file == files[i];
    }
  }

  /** `upload_file(index)`, given the queue when it runs. */
  function UploadStepOf(m: seq<Entry>, index: nat): (step: UploadStep)
    ensures index >= |m| <==> step == Idle
    ensures step.Send? ==> step.file == m[index].file && m[index].form == Some(step.form)
  {
    if index >= |m| then Idle
    else match m[index].form
      case None => Throws
      case Some(form) => Send(m[index].file, form)
  }

  /** The load handler of the upload of entry `index`, given the queue length when
      the load completes. */
  function AfterLoadOf(len: nat, index: nat): (next: AfterLoad)
    ensures next == Reload <==> index + 1 == len
    ensures next.UploadNext? ==> next.index == index + 1
  {
    if index == len - 1 then Reload else UploadNext(index + 1)
  }

  /** The entries sent, in order, when `upload_file(index)` starts a chain over a
      queue of `len` entries that all have forms and every upload loads; and
      whether the chain ends by reloading the page. */
  function Chain(len: nat, index: nat): (r: (seq<nat>, bool))
    decreases len - index
  {
    if index >= len then ([], false)
    else match AfterLoadOf(len, index)
      case Reload => ([index], true)
      case UploadNext(next) => var rest := Chain(len, next); ([index] + rest.0, rest.1)
  }

  /** The chain started at `index` sends every later entry exactly once, in order,
      and reloads the page after the last one; it does nothing when `index` is past
      the end. */
  lemma {:induction false} ChainMeaning(len: nat, index: nat)
    ensures var r := Chain(len, index);
      && |r.0| == (if index < len then len - index else 0)
      && (forall k :: 0 <= k < |r.0| ==> r.0[k] == index + k)
      && (r.1 <==> index < len)
    decreases len - index
  {
    if index < len && index + 1 != len {
      ChainMeaning(len, index + 1);
    }
  }

  /** As written, no entry ever gets a form: `add_progress_bar` has the lines that
      would attach it commented out, so after any selection `upload_file` on a
      queued index throws when it reads the form's method. */
  lemma UploadThrowsAsWritten(files: seq<SelectedFile>, index: nat)
    requires index < |Accept([], files)|
    ensures UploadStepOf(Accept([], files), index) == Throws
  {
    AcceptExtends([], files);
  }

  /** The form `add_progress_bar` would attach: a POST to the current directory. */
  function FormFor(curdir: string): Form
  {
    Form("POST", "/" + curdir)
  }

  /** The queue with the form attached to every entry. */
  function WithForms(m: seq<Entry>, curdir: string): (r: seq<Entry>)
    ensures |r| == |m|
    ensures forall i :: 0 <= i < |m| ==> r[i] == Entry(m[i].file, Some(FormFor(curdir)))
  {
    seq(|m|, i requires 0 <= i < |m| => Entry(m[i].file, Some(FormFor(curdir))))
  }

  /** With the form attached, `upload_file` sends each queued file, once, to the
      current directory, and does nothing past the end. */
  lemma UploadSendsWithForms(m: seq<Entry>, curdir: string, index: nat)
    ensures index < |m| ==>
      UploadStepOf(WithForms(m, curdir), index) == Send(m[index].file, Form("POST", "/" + curdir))
    ensures index >= |m| ==> UploadStepOf(WithForms(m, curdir), index) == Idle
  {
  }

  /** The page's upload state: the `metadata` array and the rows of the pending-files
      table. */
  class Queue {
    var metadata: seq<Entry>
    var rows: seq<SelectedFile>

    /** The names in `metadata` are pairwise distinct and every row shows a queued
        file, in queue order. */
    predicate Valid()
      reads this
    {
      UniqueNames(metadata) && rows == FilesOf(metadata)
    }

    constructor()
      ensures metadata == [] && rows == [] && Valid()
    {
      metadata := [];
      rows := [];
    }

    /** `add_metadata(file)`: scans the queue for the name; appends the file and
        answers true only when it is not there. */
    method AddMetadata(file: SelectedFile) returns (added: bool)
      modifies this
      ensures added <==> !HasName(old(metadata), file.name)
      ensures metadata == if added then old(metadata) + [Entry(file, None)] else old(metadata)
      ensures rows == old(rows)
      ensures old(UniqueNames(metadata)) ==> UniqueNames(metadata)
    {
      for i := 0 to |metadata|
        invariant forall k :: 0 <= k < i ==> metadata[k].file.name != file.name
      {
        if file.name == metadata[i].file.name {
          return false;
        }
      }
      metadata := metadata + [Entry(file, None)];
      return true;
    }

    /** `add_progress_bar`: appends the row of an entry's file. */
    method AddProgressBar(entry: Entry)
      modifies this
      ensures rows == old(rows) + [entry.file]
      ensures metadata == old(metadata)
    {
      rows := rows + [entry.file];
    }

    /** `on_file_selected`: queues the selected files in order and adds a row for
        each file accepted. */
    method OnFileSelected(files: seq<SelectedFile>)
      requires Valid()
      modifies this
      ensures metadata == Accept(old(metadata), files)
      ensures Valid()
    {
      ghost var m0 := metadata;
      for i := 0 to |files|
        invariant metadata == Accept(m0, files[..i])
        invariant Valid()
      {
        assert files[..i + 1][..i] == files[..i];
        var added := AddMetadata(files[i]);
        if !added {
          continue;
        }
        AddProgressBar(metadata[|metadata| - 1]);
      }
      assert files[..|files|] == files;
    }

    /** `upload_file(index)`: nothing past the end of the queue; otherwise the send
        of the entry's file with its form, which throws when it has none. */
    method UploadFile(index: nat) returns (step: UploadStep)
      ensures step == UploadStepOf(metadata, index)
    {
      if index >= |metadata| {
        return Idle;
      }
      var entry := metadata[index];
      if entry.form.None? {
        return Throws;
      }
      return Send(entry.file, entry.form.value);
    }

    /** The load handler of the upload of entry `index`, run when it completes. */
    method ShowUploadCompleteMessage(index: nat) returns (next: AfterLoad)
      ensures next == AfterLoadOf(|metadata|, index)
    {
      if index == |metadata| - 1 {
        return Reload;
      }
      return UploadNext(index + 1);
    }
  }
}
