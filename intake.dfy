/**
 * `handleUploadedFiles` (server.js:56-70): every uploaded file is moved into
 * the workspace under its original name; a move that fails is logged and
 * dropped while the rest of the batch goes on.
 */
module Intake {
  import opened Outcomes
  import opened Files

  /** Names for which `path.join(workspace, name)` is the workspace itself or its parent. */
  predicate NamesDirectory(name: string) {
    name == "" || name == "." || name == ".."
  }

  /**
   * Whether `fs.move(file.path, path.join(workspace, name))` succeeds. fs-extra,
   * called without `{ overwrite: true }`, refuses a destination that exists
   * (a file moved in earlier, or a directory); `faulted` stands for every other
   * failure of the filesystem (the temporary file is gone, a permission error).
   */
  predicate MoveSucceeds(files: map<string, Content>, name: string, faulted: bool) {
    !faulted && !NamesDirectory(name) && name !in files
  }

  /**
   * One move of line 61, with its failure caught as on lines 63-65: a move
   * adds at most its own name, with the upload's bytes, and never changes an
   * entry already there.
   */
  function MoveOne(files: map<string, Content>, u: UploadedFile, faulted: bool): (r: map<string, Content>)
    ensures r.Keys == files.Keys + (if MoveSucceeds(files, u.originalName, faulted) then {u.originalName} else {})
    ensures forall n :: n in files ==> r[n] == files[n]
    ensures u.originalName in r && u.originalName !in files ==> r[u.originalName] == u.content
  {
    if MoveSucceeds(files, u.originalName, faulted) then files[u.originalName := u.content] else files
  }

  /**
   * The workspace once every move of the batch has settled, the moves taken in
   * batch order; `faults` holds the positions whose move the filesystem fails.
   */
  function IntakeAll(files: map<string, Content>, uploads: seq<UploadedFile>, faults: set<nat>): (r: map<string, Content>)
    ensures forall n :: n in files ==> n in r && r[n] == files[n]
    ensures forall n :: n in r && n !in files ==>
      exists i :: 0 <= i < |uploads| && i !in faults && uploads[i].originalName == n && r[n] == uploads[i].content
    decreases |uploads|
  {
    if |uploads| == 0 then files
    else
      var k := |uploads| - 1;
      var before := IntakeAll(files, uploads[..k], faults);
      assert forall i :: 0 <= i < k ==> uploads[..k][i] == uploads[i];
      MoveOne(before, uploads[k], k in faults)
  }

  /** One more upload at the end of the batch is one more move. */
  lemma IntakeStep(files: map<string, Content>, uploads: seq<UploadedFile>, u: UploadedFile, faults: set<nat>)
    ensures IntakeAll(files, uploads + [u], faults) == MoveOne(IntakeAll(files, uploads, faults), u, |uploads| in faults)
  {
    assert (uploads + [u])[..|uploads|] == uploads;
  }

  /** The first position of the batch that uploads `name` and whose move is not faulted. */
  function FirstMove(uploads: seq<UploadedFile>, faults: set<nat>, name: string): (r: Option<nat>)
    ensures r.Some? ==> r.value < |uploads| && uploads[r.value].originalName == name && r.value !in faults
    ensures forall j :: 0 <= j < |uploads| && uploads[j].originalName == name && j !in faults ==>
      r.Some? && r.value <= j
    decreases |uploads|
  {
    if |uploads| == 0 then None
    else
      var k := |uploads| - 1;
      var r := FirstMove(uploads[..k], faults, name);
      assert forall j :: 0 <= j < k ==> uploads[..k][j] == uploads[j];
      if r.Some? then r
      else if uploads[k].originalName == name && k !in faults then Some(k)
      else None
  }

  /**
   * What intake leaves under each name: a file already there stays as it was;
   * otherwise the name holds the bytes of the first upload of that name whose
   * move was not faulted (later uploads of the name find the destination taken
   * and are dropped); a name with no such upload, or one that names a
   * directory, stays absent.
   */
  lemma {:induction false} IntakeResult(files: map<string, Content>, uploads: seq<UploadedFile>, faults: set<nat>, name: string)
    ensures name in files ==>
      name in IntakeAll(files, uploads, faults) && IntakeAll(files, uploads, faults)[name] == files[name]
    ensures name !in files && !NamesDirectory(name) && FirstMove(uploads, faults, name).Some? ==>
      && name in IntakeAll(files, uploads, faults)
      && IntakeAll(files, uploads, faults)[name] == uploads[FirstMove(uploads, faults, name).value].content
    ensures name !in files && (NamesDirectory(name) || FirstMove(uploads, faults, name).None?) ==>
      name !in IntakeAll(files, uploads, faults)
    decreases |uploads|
  {
    if |uploads| > 0 {
      var k := |uploads| - 1;
      var before := IntakeAll(files, uploads[..k], faults);
      IntakeResult(files, uploads[..k], faults, name);
      assert IntakeAll(files, uploads, faults) == MoveOne(before, uploads[k], k in faults);
      var first := FirstMove(uploads[..k], faults, name);
      assert first.Some? ==> FirstMove(uploads, faults, name) == first;
    }
  }

  /**
   * The names in the workspace after intake are those it had before and the
   * original names of the uploads whose move was not faulted, less any name
   * that denotes a directory.
   */
  lemma IntakeNames(files: map<string, Content>, uploads: seq<UploadedFile>, faults: set<nat>, name: string)
    ensures name in IntakeAll(files, uploads, faults) <==>
      || name in files
      || (!NamesDirectory(name) && exists j :: 0 <= j < |uploads| && j !in faults && uploads[j].originalName == name)
  {
    IntakeResult(files, uploads, faults, name);
  }

  /**
   * Two uploads with the same name, the earlier being the first of that name
   * and not faulted: the earlier bytes end up in the workspace, and the later
   * upload is dropped even when its own move raised no fault.
   */
  lemma DuplicateDropped(uploads: seq<UploadedFile>, faults: set<nat>, i: nat, j: nat)
    requires i < j < |uploads| && uploads[i].originalName == uploads[j].originalName
    requires i !in faults && !NamesDirectory(uploads[i].originalName)
    requires forall f :: 0 <= f < i ==> uploads[f].originalName != uploads[i].originalName
    ensures uploads[i].originalName in IntakeAll(map[], uploads, faults)
    ensures IntakeAll(map[], uploads, faults)[uploads[i].originalName] == uploads[i].content
  {
    IntakeResult(map[], uploads, faults, uploads[i].originalName);
  }

  /**
   * A batch whose names are all different: every upload whose move is not
   * faulted and whose name is not a directory ends up in the workspace with
   * its own bytes.
   */
  lemma DistinctBatchMovesAll(uploads: seq<UploadedFile>, faults: set<nat>)
    requires forall i, j :: 0 <= i < j < |uploads| ==> uploads[i].originalName != uploads[j].originalName
    ensures forall i :: 0 <= i < |uploads| && i !in faults && !NamesDirectory(uploads[i].originalName) ==>
      && uploads[i].originalName in IntakeAll(map[], uploads, faults)
      && IntakeAll(map[], uploads, faults)[uploads[i].originalName] == uploads[i].content
  {
    forall i | 0 <= i < |uploads| && i !in faults && !NamesDirectory(uploads[i].originalName)
      ensures && uploads[i].originalName in IntakeAll(map[], uploads, faults)
              && IntakeAll(map[], uploads, faults)[uploads[i].originalName] == uploads[i].content
    {
      IntakeResult(map[], uploads, faults, uploads[i].originalName);
    }
  }

  /** A move that fails changes nothing. */
  lemma FailedMoveKeepsWorkspace(files: map<string, Content>, u: UploadedFile, faulted: bool)
    requires faulted || NamesDirectory(u.originalName) || u.originalName in files
    ensures MoveOne(files, u, faulted) == files
  {
  }
}
