/**
 * `zipWebPFiles` (server.js:91-128): the entries handed to the archiver and
 * how the archiver's events settle the promise the stage returns.
 */
module Archive {
  import opened Files
  import opened NodePath
  import opened Naming
  import opened Seqs

  /** The zip file's name inside the workspace, and the download name of server.js:34. */
  const ZipName: string := "webp_images.zip"

  /** The zip file sits directly in the workspace, as an entry `readdirSync` could list. */
  lemma ZipNameIsPlain()
    ensures PlainName(ZipName)
  {
  }

  /** `archiver('zip', { zlib: { level: 5 } })` (server.js:94). */
  const CompressionLevel: nat := 5

  /**
   * The loop of lines 118-124 for a path filter `keep` and an entry-naming
   * rule `nameOf`: one entry per kept path, in list order.
   */
  function Collect(keep: string -> bool, nameOf: string -> string, list: seq<string>): (entries: seq<Entry>)
    ensures |entries| == |Filter(keep, list)|
    ensures forall j :: 0 <= j < |entries| ==>
      entries[j] == Entry(Filter(keep, list)[j], nameOf(Filter(keep, list)[j]))
    decreases |list|
  {
    if |list| == 0 then []
    else
      var k := |list| - 1;
      var p := list[k];
      FilterAppend(keep, list[..k], [p]);
      assert list == list[..k] + [p];
      Collect(keep, nameOf, list[..k]) + (if keep(p) then [Entry(p, nameOf(p))] else [])
  }

  /** An entry is collected exactly when its path is listed and kept, named by `nameOf` of that path. */
  lemma CollectMembers(keep: string -> bool, nameOf: string -> string, list: seq<string>, e: Entry)
    ensures e in Collect(keep, nameOf, list) <==> e.source in list && keep(e.source) && e.name == nameOf(e.source)
  {
    var w := Filter(keep, list);
    FilterMembers(keep, list, e.source);
    if e.source in w {
      var j :| 0 <= j < |w| && w[j] == e.source;
      assert Collect(keep, nameOf, list)[j] == Entry(e.source, nameOf(e.source));
    }
  }

  /**
   * The entries of lines 118-124: each listed path whose extension is `.webp`
   * in any case, named by its basename, in list order.
   */
  function ArchiveEntries(list: seq<string>): (entries: seq<Entry>)
    ensures |entries| == |Filter(IsWebPEntry, list)|
    ensures forall j :: 0 <= j < |entries| ==>
      entries[j] == Entry(Filter(IsWebPEntry, list)[j], Basename(Filter(IsWebPEntry, list)[j]))
  {
    Collect(IsWebPEntry, Basename, list)
  }

  /** One more listed path appends at most its own entry. */
  lemma ArchiveEntriesStep(list: seq<string>, p: string)
    ensures ArchiveEntries(list + [p]) == ArchiveEntries(list) + (if IsWebPEntry(p) then [Entry(p, Basename(p))] else [])
  {
    assert (list + [p])[..|list|] == list;
  }

  /**
   * An entry is archived exactly when its path is in the list with a `.webp`
   * extension, and it is then named by that path's basename, which has no
   * directory part.
   */
  lemma ArchiveEntryMembers(list: seq<string>, e: Entry)
    ensures e in ArchiveEntries(list) <==> e.source in list && IsWebPEntry(e.source) && e.name == Basename(e.source)
    ensures e in ArchiveEntries(list) ==> '/' !in e.name
  {
    CollectMembers(IsWebPEntry, Basename, list, e);
  }

  /** What the archiver reports: a `warning` or an `error` event, with its error code. */
  datatype ArchiveEvent = Warning(code: string) | Error(code: string)

  /** Lines 102-114: a missing-file warning is only logged; every other event rejects. */
  predicate IsFatal(event: ArchiveEvent): (b: bool)
    ensures b <==> event != Warning("ENOENT")
  {
    match event
    case Warning(code) => code != "ENOENT"
    case Error(_) => true
  }

  /** The state of the promise of line 96. */
  datatype Settlement = Resolved | Rejected(cause: ArchiveEvent) | Pending

  /**
   * How the promise settles given the events the archiver emits before the
   * output stream closes: the first fatal one rejects it; otherwise the close
   * event (line 97) resolves it, and without one it never settles.
   */
  function Settle(events: seq<ArchiveEvent>, closed: bool): (r: Settlement)
    ensures r.Resolved? <==> closed && forall i :: 0 <= i < |events| ==> !IsFatal(events[i])
    ensures r.Pending? <==> !closed && forall i :: 0 <= i < |events| ==> !IsFatal(events[i])
    ensures r.Rejected? ==>
      exists j :: 0 <= j < |events| && events[j] == r.cause && IsFatal(r.cause) &&
        forall i :: 0 <= i < j ==> !IsFatal(events[i])
    decreases |events|
  {
    if |events| == 0 then (if closed then Resolved else Pending)
    else if IsFatal(events[0]) then Rejected(events[0])
    else
      var r := Settle(events[1..], closed);
      assert forall i :: 1 <= i < |events| ==> events[i] == events[1..][i - 1];
      r
  }

  /** Missing-file warnings alone never reject: the stage resolves once the stream closes. */
  lemma MissingFileWarningsAreHarmless(events: seq<ArchiveEvent>)
    requires forall i :: 0 <= i < |events| ==> events[i] == Warning("ENOENT")
    ensures Settle(events, true) == Resolved
  {
  }
}
