/**
 * The upload route of server.js (lines 13-54) and the workspace it works in:
 * the workspace directory is an object whose files the three stages change in
 * turn.
 */
module Server {
  import opened Outcomes
  import opened Files
  import opened NodePath
  import opened Naming
  import opened Seqs
  import opened Intake
  import opened Conversion
  import opened Archive

  /** The body of the 500 response of server.js:50-52. */
  const ErrorMessage: string := "An error occurred during image upload, conversion, and zip"

  /** What the route sends back. `NoResponse` is a request left hanging. */
  datatype Response =
    | Download(path: string, filename: string)
    | ServerError(status: nat, message: string)
    | NoResponse

  /** Every name in the workspace is one `fs.readdirSync` could list. */
  ghost predicate PlainNames(files: map<string, Content>) {
    forall k :: k in files ==> PlainName(k)
  }

  /** The per-request directory `uploads/<timestamp>` and the files in it, by name. */
  class Workspace {
    const dir: string
    var files: map<string, Content>

    ghost predicate Valid()
      reads this
    {
      PlainNames(files)
    }

    /** `fs.ensureDir(uniqueFolderPath)` (server.js:22) on a fresh path: an empty directory. */
    constructor (dir: string)
      ensures this.dir == dir && files == map[] && Valid()
    {
      this.dir := dir;
      files := map[];
    }

    /**
     * `handleUploadedFiles` (server.js:56-70): moves every upload in under its
     * original name; `faults` holds the positions whose move the filesystem
     * fails. The moves run one after another here.
     */
    method HandleUploadedFiles(uploads: seq<UploadedFile>, faults: set<nat>)
      requires Valid()
      requires forall i :: 0 <= i < |uploads| ==> '/' !in uploads[i].originalName
      modifies this
      ensures Valid()
      ensures files == IntakeAll(old(files), uploads, faults)
    {
      var i := 0;
      while i < |uploads|
        invariant 0 <= i <= |uploads|
        invariant Valid()
        invariant files == IntakeAll(old(files), uploads[..i], faults)
      {
        var file := uploads[i];
        PrefixStep(uploads, i);
        IntakeStep(old(files), uploads[..i], file, faults);
        if i !in faults && !NamesDirectory(file.originalName) && file.originalName !in files {
          files := files[file.originalName := file.content];
        }
        i := i + 1;
      }
      assert uploads[..|uploads|] == uploads;
    }

    /** `fs.readdirSync(uploadPath)`: every name once, in an order the filesystem chooses. */
    method ReadDirSync() returns (entries: seq<string>)
      ensures Enumerates(entries, files.Keys)
    {
      entries := [];
      var rest := files.Keys;
      while rest != {}
        invariant rest <= files.Keys
        invariant NoDuplicates(entries)
        invariant forall i :: 0 <= i < |entries| ==> entries[i] in files && entries[i] !in rest
        invariant forall x :: x in files.Keys ==> x in rest || x in entries
        decreases rest
      {
        var x :| x in rest;
        entries := entries + [x];
        rest := rest - {x};
      }
    }

    /**
     * `convertImagesToWebP` (server.js:72-89): over a snapshot of the directory,
     * encodes every selected entry into its `.webp` sibling and returns the
     * siblings' paths, or the entry sharp (`encode`) failed on.
     */
    method ConvertImagesToWebP(encode: Content -> Option<Content>)
      returns (result: Result<seq<string>, string>, ghost snapshot: seq<string>)
      requires Valid()
      modifies this
      ensures Valid()
      ensures Enumerates(snapshot, old(files).Keys)
      ensures files == ConvertAll(dir, old(files), snapshot, encode).files
      ensures result.Ok? <==> ConvertAll(dir, old(files), snapshot, encode).Converting?
      ensures result.Ok? ==> result.value == ConvertAll(dir, old(files), snapshot, encode).outputs
      ensures result.Err? ==> result.error == ConvertAll(dir, old(files), snapshot, encode).failedOn
    {
      var entries := ReadDirSync();
      snapshot := entries;
      LoopRulesSiblingsAreFresh(dir);
      var webpImages: seq<string> := [];
      var i := 0;
      while i < |entries|
        invariant 0 <= i <= |entries|
        invariant Valid()
        invariant ConvertAll(dir, old(files), entries[..i], encode) == Converting(files, webpImages)
      {
        var file := entries[i];
        var filePath := Join(dir, file);
        if IsConvertible(file) {
          var outputPath := WebPPath(filePath);
          var encoded := encode(files[file]);
          if encoded.None? {
            ConvertAllStops(dir, old(files), entries, encode, i);
            result := Err(file);
            return;
          }
          PrefixStep(entries, i);
          ConvertAllStep(dir, old(files), entries[..i], encode, file);
          WebPPathOfJoin(dir, file);
          ConvertedNamePlain(file);
          files := files[WebPPath(file) := encoded.value];
          webpImages := webpImages + [outputPath];
        } else {
          PrefixStep(entries, i);
          ConvertAllStep(dir, old(files), entries[..i], encode, file);
        }
        i := i + 1;
      }
      assert entries[..|entries|] == entries;
      result := Ok(webpImages);
    }

    /**
     * `zipWebPFiles` (server.js:91-128): writes `webp_images.zip` into the
     * workspace with one entry per listed `.webp` path, named by its basename;
     * `events` are what the archiver reports before the output stream closes
     * and `closed` whether it does.
     */
    method ZipWebPFiles(webpImages: seq<string>, events: seq<ArchiveEvent>, closed: bool)
      returns (settled: Settlement, zipFilePath: string)
      requires Valid()
      modifies this
      ensures Valid()
      ensures zipFilePath == Join(dir, ZipName)
      ensures settled == Settle(events, closed)
      ensures files == old(files)[ZipName := ZipFile(ArchiveEntries(webpImages), CompressionLevel, settled.Resolved?)]
    {
      zipFilePath := Join(dir, ZipName);
      var archive: seq<Entry> := [];
      var i := 0;
      while i < |webpImages|
        invariant 0 <= i <= |webpImages|
        invariant archive == ArchiveEntries(webpImages[..i])
        invariant files == old(files)
      {
        var webpImage := webpImages[i];
        PrefixStep(webpImages, i);
        ArchiveEntriesStep(webpImages[..i], webpImage);
        var fileExt := Extname(webpImage);
        if Lower(fileExt) == TargetExtension {
          var fileName := Basename(webpImage);
          archive := archive + [Entry(webpImage, fileName)];
        }
        i := i + 1;
      }
      assert webpImages[..|webpImages|] == webpImages;
      settled := Settle(events, closed);
      ZipNameIsPlain();
      files := files[ZipName := ZipFile(archive, CompressionLevel, settled.Resolved?)];
    }
  }

  /**
   * The route of server.js:13-54 for one request, in the workspace `dir`:
   * `dirCreated` says whether `fs.ensureDir` succeeded. Any rejected stage
   * gives the 500 response; a complete archive gives the download.
   */
  method HandleUpload(dir: string, dirCreated: bool, uploads: seq<UploadedFile>, faults: set<nat>,
                      encode: Content -> Option<Content>, events: seq<ArchiveEvent>, closed: bool)
    returns (response: Response, ghost snapshot: seq<string>, ghost finalFiles: map<string, Content>)
    requires forall i :: 0 <= i < |uploads| ==> '/' !in uploads[i].originalName
    ensures !dirCreated ==> response == ServerError(500, ErrorMessage)
    ensures dirCreated ==> Enumerates(snapshot, IntakeAll(map[], uploads, faults).Keys)
    ensures dirCreated ==>
      var st := ConvertAll(dir, IntakeAll(map[], uploads, faults), snapshot, encode);
      && (response.Download? <==> st.Converting? && Settle(events, closed).Resolved?)
      && (response.NoResponse? <==> st.Converting? && Settle(events, closed).Pending?)
      && (response.Download? ==> response == Download(Join(dir, ZipName), ZipName))
      && (response.Download? ==>
            ZipName in finalFiles && finalFiles[ZipName] == ZipFile(ArchiveEntries(st.outputs), CompressionLevel, true))
      && (st.Converting? ==>
            finalFiles == st.files[ZipName := ZipFile(ArchiveEntries(st.outputs), CompressionLevel, Settle(events, closed).Resolved?)])
      && (st.Aborted? ==> finalFiles == st.files)
    ensures response.ServerError? ==> response == ServerError(500, ErrorMessage)
  {
    snapshot, finalFiles := [], map[];
    if !dirCreated {
      response := ServerError(500, ErrorMessage);
      return;
    }
    var ws := new Workspace(dir);
    ws.HandleUploadedFiles(uploads, faults);
    var converted;
    converted, snapshot := ws.ConvertImagesToWebP(encode);
    if converted.Err? {
      response := ServerError(500, ErrorMessage);
      finalFiles := ws.files;
      return;
    }
    var settled, zipFilePath := ws.ZipWebPFiles(converted.value, events, closed);
    finalFiles := ws.files;
    match settled
    case Resolved => response := Download(zipFilePath, ZipName);
    case Rejected(_) => response := ServerError(500, ErrorMessage);
    case Pending => response := NoResponse;
  }

  /** Intake into an empty workspace leaves only names `readdirSync` can list. */
  lemma IntakePlainNames(uploads: seq<UploadedFile>, faults: set<nat>)
    requires forall i :: 0 <= i < |uploads| ==> '/' !in uploads[i].originalName
    ensures PlainNames(IntakeAll(map[], uploads, faults))
  {
    forall k | k in IntakeAll(map[], uploads, faults)
      ensures PlainName(k)
    {
      IntakeNames(map[], uploads, faults, k);
    }
  }

  /**
   * A completed conversion returns, in some order, the path of the `.webp`
   * sibling of every image in the workspace, and no other path.
   */
  lemma ConversionOutputs(dir: string, w: map<string, Content>, s: seq<string>,
                          encode: Content -> Option<Content>)
    requires Enumerates(s, w.Keys)
    requires ConvertAll(dir, w, s, encode).Converting?
    ensures forall p :: p in ConvertAll(dir, w, s, encode).outputs <==>
      exists n :: n in w && IsConvertible(n) && p == Join(dir, WebPPath(n))
  {
    var r := LoopRules(dir);
    RunOutputs(r, w, s, encode);
    var outs := ConvertAll(dir, w, s, encode).outputs;
    var sel := Selected(r, s);
    forall n
      ensures n in sel <==> n in s && IsConvertible(n)
    {
      FilterMembers(IsConvertible, s, n);
    }
    assert forall j :: 0 <= j < |sel| ==> outs[j] == WebPPath(Join(dir, sel[j]));
    PushedPaths(dir, w, s, sel, outs);
  }

  /** The paths pushed for the selected entries of an enumeration of `w`, as a set. */
  lemma PushedPaths(dir: string, w: map<string, Content>, s: seq<string>, sel: seq<string>, outs: seq<string>)
    requires Enumerates(s, w.Keys)
    requires forall n :: n in sel <==> n in s && IsConvertible(n)
    requires |outs| == |sel| && forall j :: 0 <= j < |sel| ==> outs[j] == WebPPath(Join(dir, sel[j]))
    ensures forall p :: p in outs <==> exists n :: n in w && IsConvertible(n) && p == Join(dir, WebPPath(n))
  {
    forall p
      ensures p in outs <==> exists n :: n in w && IsConvertible(n) && p == Join(dir, WebPPath(n))
    {
      if p in outs {
        var j :| 0 <= j < |outs| && outs[j] == p;
        PushedPath(dir, w, s, sel, outs, j);
      }
      if exists n :: n in w && IsConvertible(n) && p == Join(dir, WebPPath(n)) {
        var n :| n in w && IsConvertible(n) && p == Join(dir, WebPPath(n));
        SourcePushed(dir, w, s, sel, outs, n);
      }
    }
  }

  /** Each pushed path is the sibling path of a selected workspace entry. */
  lemma PushedPath(dir: string, w: map<string, Content>, s: seq<string>, sel: seq<string>, outs: seq<string>, j: nat)
    requires forall i :: 0 <= i < |s| ==> s[i] in w
    requires forall n :: n in sel <==> n in s && IsConvertible(n)
    requires j < |outs| == |sel| && outs[j] == WebPPath(Join(dir, sel[j]))
    ensures sel[j] in w && IsConvertible(sel[j]) && outs[j] == Join(dir, WebPPath(sel[j]))
  {
    assert sel[j] in sel;
    WebPPathOfJoin(dir, sel[j]);
  }

  /** Each selected workspace entry has its sibling path pushed. */
  lemma SourcePushed(dir: string, w: map<string, Content>, s: seq<string>, sel: seq<string>, outs: seq<string>, n: string)
    requires forall x :: x in w ==> x in s
    requires forall n :: n in sel <==> n in s && IsConvertible(n)
    requires |outs| == |sel| && forall j :: 0 <= j < |sel| ==> outs[j] == WebPPath(Join(dir, sel[j]))
    requires n in w && IsConvertible(n)
    ensures Join(dir, WebPPath(n)) in outs
  {
    assert n in sel;
    var j :| 0 <= j < |sel| && sel[j] == n;
    WebPPathOfJoin(dir, n);
    assert outs[j] == Join(dir, WebPPath(n));
  }

  /**
   * When every image in the workspace encodes, the conversion completes and
   * the archive holds exactly one entry per image whose stem is not empty:
   * its `.webp` sibling, under the sibling's own name.
   */
  lemma ArchiveOfConversion(dir: string, w: map<string, Content>, s: seq<string>,
                            encode: Content -> Option<Content>)
    requires PlainNames(w)
    requires Enumerates(s, w.Keys)
    requires forall n :: n in w && IsConvertible(n) ==> encode(w[n]).Some?
    ensures ConvertAll(dir, w, s, encode).Converting?
    ensures forall e :: e in ArchiveEntries(ConvertAll(dir, w, s, encode).outputs) <==>
      exists n :: n in w && IsConvertible(n) && Stem(n) != "" && e == Entry(Join(dir, WebPPath(n)), WebPPath(n))
    ensures |ArchiveEntries(ConvertAll(dir, w, s, encode).outputs)| == |Filter(ArchivedName, s)|
  {
    LoopRulesSiblingsAreFresh(dir);
    RunCompletes(LoopRules(dir), w, s, encode);
    ConversionOutputs(dir, w, s, encode);
    ArchiveOfSiblings(dir, w, ConvertAll(dir, w, s, encode).outputs);
    RunOutputs(LoopRules(dir), w, s, encode);
    ArchivedCount(dir, w, s, Selected(LoopRules(dir), s), ConvertAll(dir, w, s, encode).outputs);
  }

  /** A name the archive ends up with a sibling of: a `.jpg`, `.jpeg` or `.png` name with a non-empty stem. */
  predicate ArchivedName(n: string) {
    IsConvertible(n) && Stem(n) != ""
  }

  /** The name has a non-empty stem. */
  predicate HasStem(n: string) {
    Stem(n) != ""
  }

  /**
   * The sibling paths pushed for the selected entries of a listing hold one
   * archive entry per listed image with a non-empty stem.
   */
  lemma ArchivedCount(dir: string, w: map<string, Content>, s: seq<string>, sel: seq<string>, outs: seq<string>)
    requires PlainNames(w)
    requires forall i :: 0 <= i < |s| ==> s[i] in w
    requires sel == Filter(IsConvertible, s)
    requires |outs| == |sel| && forall j :: 0 <= j < |sel| ==> outs[j] == WebPPath(Join(dir, sel[j]))
    ensures |ArchiveEntries(outs)| == |Filter(ArchivedName, s)|
  {
    forall j | 0 <= j < |sel|
      ensures IsWebPEntry(outs[j]) == HasStem(sel[j])
    {
      assert sel[j] in sel;
      FilterMembers(IsConvertible, s, sel[j]);
      WebPPathOfJoin(dir, sel[j]);
      ArchivedIffStem(dir, sel[j]);
    }
    FilterCountMapped(HasStem, IsWebPEntry, sel, outs);
    FilterOfFilter(IsConvertible, HasStem, ArchivedName, s);
  }

  /** The archive entries of a list of exactly the sibling paths of the images in `w`. */
  lemma ArchiveOfSiblings(dir: string, w: map<string, Content>, outs: seq<string>)
    requires PlainNames(w)
    requires forall p :: p in outs <==> exists n :: n in w && IsConvertible(n) && p == Join(dir, WebPPath(n))
    ensures forall e :: e in ArchiveEntries(outs) <==>
      exists n :: n in w && IsConvertible(n) && Stem(n) != "" && e == Entry(Join(dir, WebPPath(n)), WebPPath(n))
  {
    forall e
      ensures e in ArchiveEntries(outs) <==>
        exists n :: n in w && IsConvertible(n) && Stem(n) != "" && e == Entry(Join(dir, WebPPath(n)), WebPPath(n))
    {
      ArchiveEntryMembers(outs, e);
      if e in ArchiveEntries(outs) {
        var n :| n in w && IsConvertible(n) && e.source == Join(dir, WebPPath(n));
        ArchivedIffStem(dir, n);
      }
      if exists n :: n in w && IsConvertible(n) && Stem(n) != "" && e == Entry(Join(dir, WebPPath(n)), WebPPath(n)) {
        var n :| n in w && IsConvertible(n) && Stem(n) != "" && e == Entry(Join(dir, WebPPath(n)), WebPPath(n));
        ArchivedIffStem(dir, n);
      }
    }
  }

  /**
   * Upload `j` of the batch was moved in under a `.jpg`, `.jpeg` or `.png`
   * name with a non-empty stem, and `e` is the archive entry of its sibling.
   */
  predicate ArchivedUpload(dir: string, uploads: seq<UploadedFile>, faults: set<nat>, j: int, e: Entry) {
    && 0 <= j < |uploads| && j !in faults && !NamesDirectory(uploads[j].originalName)
    && IsConvertible(uploads[j].originalName) && Stem(uploads[j].originalName) != ""
    && e == Entry(Join(dir, WebPPath(uploads[j].originalName)), WebPPath(uploads[j].originalName))
  }

  /**
   * The whole pipeline on one batch, when every image it keeps encodes: the
   * archive offered for download holds one entry per upload that was moved in
   * (not faulted, not named like a directory) with a `.jpg`, `.jpeg` or `.png`
   * name whose stem is not empty, named by that name with `.webp` in place of
   * its extension, and nothing else.
   */
  lemma ArchiveOfBatch(dir: string, uploads: seq<UploadedFile>, faults: set<nat>, s: seq<string>,
                       encode: Content -> Option<Content>)
    requires forall i :: 0 <= i < |uploads| ==> '/' !in uploads[i].originalName
    requires Enumerates(s, IntakeAll(map[], uploads, faults).Keys)
    requires forall n :: n in IntakeAll(map[], uploads, faults) && IsConvertible(n) ==>
      encode(IntakeAll(map[], uploads, faults)[n]).Some?
    ensures ConvertAll(dir, IntakeAll(map[], uploads, faults), s, encode).Converting?
    ensures forall e :: e in ArchiveEntries(ConvertAll(dir, IntakeAll(map[], uploads, faults), s, encode).outputs) <==>
      exists j :: ArchivedUpload(dir, uploads, faults, j, e)
    ensures |ArchiveEntries(ConvertAll(dir, IntakeAll(map[], uploads, faults), s, encode).outputs)| ==
      |Filter(ArchivedName, s)|
  {
    var w := IntakeAll(map[], uploads, faults);
    IntakePlainNames(uploads, faults);
    ArchiveOfConversion(dir, w, s, encode);
    BatchEntries(dir, uploads, faults, ArchiveEntries(ConvertAll(dir, w, s, encode).outputs));
  }

  /** Entries given by the images intake keeps are entries given by uploads of the batch. */
  lemma BatchEntries(dir: string, uploads: seq<UploadedFile>, faults: set<nat>, entries: seq<Entry>)
    requires forall e :: e in entries <==>
      exists n :: n in IntakeAll(map[], uploads, faults) && IsConvertible(n) && Stem(n) != "" &&
        e == Entry(Join(dir, WebPPath(n)), WebPPath(n))
    ensures forall e :: e in entries <==> exists j :: ArchivedUpload(dir, uploads, faults, j, e)
  {
    var w := IntakeAll(map[], uploads, faults);
    forall e
      ensures e in entries <==> exists j :: ArchivedUpload(dir, uploads, faults, j, e)
    {
      if e in entries {
        var n :| n in w && IsConvertible(n) && Stem(n) != "" && e == Entry(Join(dir, WebPPath(n)), WebPPath(n));
        IntakeNames(map[], uploads, faults, n);
        var j :| 0 <= j < |uploads| && j !in faults && uploads[j].originalName == n;
        assert ArchivedUpload(dir, uploads, faults, j, e);
      }
      if exists j :: ArchivedUpload(dir, uploads, faults, j, e) {
        var j :| ArchivedUpload(dir, uploads, faults, j, e);
        IntakeNames(map[], uploads, faults, uploads[j].originalName);
      }
    }
  }

  /**
   * An empty batch is not an error: the workspace stays empty, the snapshot
   * and the conversion list are empty and the archive has no entries.
   */
  lemma EmptyBatch(dir: string, faults: set<nat>, s: seq<string>, encode: Content -> Option<Content>)
    requires Enumerates(s, IntakeAll(map[], [], faults).Keys)
    ensures IntakeAll(map[], [], faults) == map[]
    ensures s == []
    ensures ConvertAll(dir, map[], s, encode) == Converting(map[], [])
    ensures ArchiveEntries(ConvertAll(dir, map[], s, encode).outputs) == []
  {
    EnumeratesNothing(s, IntakeAll(map[], [], faults).Keys);
  }

  /** One image in the workspace that sharp cannot encode aborts the conversion. */
  lemma ConversionFailureAborts(dir: string, w: map<string, Content>, s: seq<string>,
                                encode: Content -> Option<Content>, n: string)
    requires Enumerates(s, w.Keys)
    requires n in w && IsConvertible(n) && encode(w[n]).None?
    ensures ConvertAll(dir, w, s, encode).Aborted?
    ensures var f := ConvertAll(dir, w, s, encode).failedOn; f in w && IsConvertible(f) && encode(w[f]).None?
  {
    LoopRulesSiblingsAreFresh(dir);
    RunAborts(LoopRules(dir), w, s, encode);
    assert n in s;
  }

  /** `a.png` is selected and becomes `a.webp` (lines 79-80). */
  lemma ExamplePng()
    ensures IsConvertible("a.png") && Stem("a.png") == "a" && WebPPath("a.png") == "a.webp"
  {
    assert Lower("png") == "png" by {
      assert forall i :: 0 <= i < 3 ==> Lower("png")[i] == "png"[i];
    }
    StemAndSourceExtension("a", "png");
    assert "a" + "." + "png" == "a.png";
  }

  /** `b.JPG` is selected, whatever the case of its extension, and becomes `b.webp`. */
  lemma ExampleJpg()
    ensures IsConvertible("b.JPG") && Stem("b.JPG") == "b" && WebPPath("b.JPG") == "b.webp"
  {
    assert Lower("JPG") == "jpg" by {
      assert forall i :: 0 <= i < 3 ==> Lower("JPG")[i] == "jpg"[i];
    }
    StemAndSourceExtension("b", "JPG");
    assert "b" + "." + "JPG" == "b.JPG";
  }

  /** `notes.txt` is not selected. */
  lemma ExampleNote()
    ensures !IsConvertible("notes.txt")
  {
    assert "notes.txt"[5..] == ".txt" && "notes.txt"[4..] == "s.txt";
    assert Lower(".txt")[1] == 't' && Lower("s.txt")[1] == '.';
  }

  /** The example batch: two images and a text file, with their contents. */
  function ExampleBatch(a: Content, b: Content, note: Content): seq<UploadedFile> {
    [UploadedFile("t1", "a.png", a), UploadedFile("t2", "b.JPG", b), UploadedFile("t3", "notes.txt", note)]
  }

  /** Intake of the example batch moves all three files in, each under its own name with its own bytes, and nothing else. */
  lemma ExampleIntake(a: Content, b: Content, note: Content)
    ensures var w := IntakeAll(map[], ExampleBatch(a, b, note), {});
      && "a.png" in w && w["a.png"] == a
      && "b.JPG" in w && w["b.JPG"] == b
      && "notes.txt" in w && w["notes.txt"] == note
      && forall n :: n in w ==> n == "a.png" || n == "b.JPG" || n == "notes.txt"
  {
    var uploads := ExampleBatch(a, b, note);
    assert uploads[0].originalName == "a.png" && uploads[1].originalName == "b.JPG";
    assert uploads[2].originalName == "notes.txt";
    assert "a.png" != "b.JPG" && "a.png" != "notes.txt" && "b.JPG" != "notes.txt";
    assert !NamesDirectory("a.png") && !NamesDirectory("b.JPG") && !NamesDirectory("notes.txt");
    DistinctBatchMovesAll(uploads, {});
    assert uploads[0].content == a && uploads[1].content == b && uploads[2].content == note;
    var w := IntakeAll(map[], uploads, {});
    forall n | n in w
      ensures n == "a.png" || n == "b.JPG" || n == "notes.txt"
    {
      var i :| 0 <= i < |uploads| && i !in {} && uploads[i].originalName == n && w[n] == uploads[i].content;
      assert i == 0 || i == 1 || i == 2;
    }
  }

  /** The names of the example batch have no directory part. */
  lemma ExampleBatchNames(a: Content, b: Content, note: Content)
    ensures forall i :: 0 <= i < |ExampleBatch(a, b, note)| ==> '/' !in ExampleBatch(a, b, note)[i].originalName
  {
    assert forall i :: 0 <= i < 5 ==> "a.png"[i] != '/' && "b.JPG"[i] != '/';
    assert forall i :: 0 <= i < 9 ==> "notes.txt"[i] != '/';
  }

  /** When sharp accepts both images, it accepts every image intake leaves in the example workspace. */
  lemma ExampleImagesEncode(a: Content, b: Content, note: Content, encode: Content -> Option<Content>)
    requires encode(a).Some? && encode(b).Some?
    ensures var w := IntakeAll(map[], ExampleBatch(a, b, note), {});
      forall n :: n in w && IsConvertible(n) ==> encode(w[n]).Some?
  {
    ExampleIntake(a, b, note);
    ExampleNote();
  }

  /** The example batch, with the archive entries it yields when sharp accepts both images. */
  lemma TwoImagesAndANote(dir: string, a: Content, b: Content, note: Content, s: seq<string>,
                          encode: Content -> Option<Content>)
    requires Enumerates(s, IntakeAll(map[], ExampleBatch(a, b, note), {}).Keys)
    requires encode(a).Some? && encode(b).Some?
    ensures ConvertAll(dir, IntakeAll(map[], ExampleBatch(a, b, note), {}), s, encode).Converting?
    ensures forall e :: e in ArchiveEntries(ConvertAll(dir, IntakeAll(map[], ExampleBatch(a, b, note), {}), s, encode).outputs) <==>
      e == Entry(Join(dir, "a.webp"), "a.webp") || e == Entry(Join(dir, "b.webp"), "b.webp")
    ensures |ArchiveEntries(ConvertAll(dir, IntakeAll(map[], ExampleBatch(a, b, note), {}), s, encode).outputs)| == 2
  {
    var uploads := ExampleBatch(a, b, note);
    var w := IntakeAll(map[], uploads, {});
    ExampleBatchNames(a, b, note);
    ExampleImagesEncode(a, b, note, encode);
    ArchiveOfBatch(dir, uploads, {}, s, encode);
    ExampleEntries(dir, uploads, ArchiveEntries(ConvertAll(dir, w, s, encode).outputs));
    ExampleArchivedCount(a, b, note, s);
  }

  /** Of any listing of the example workspace, exactly the two images are archived. */
  lemma ExampleArchivedCount(a: Content, b: Content, note: Content, s: seq<string>)
    requires Enumerates(s, IntakeAll(map[], ExampleBatch(a, b, note), {}).Keys)
    ensures |Filter(ArchivedName, s)| == 2
  {
    var w := IntakeAll(map[], ExampleBatch(a, b, note), {});
    ExampleIntake(a, b, note);
    ExamplePng();
    ExampleJpg();
    ExampleNote();
    assert "a.png" != "b.JPG";
    TwoArchived(s, w.Keys, "a.png", "b.JPG");
  }

  /** A listing of a workspace whose only archived names are `x` and `y` archives two entries. */
  lemma TwoArchived(s: seq<string>, keys: set<string>, x: string, y: string)
    requires Enumerates(s, keys)
    requires x in keys && y in keys && x != y && ArchivedName(x) && ArchivedName(y)
    requires forall n :: n in keys && ArchivedName(n) ==> n == x || n == y
    ensures |Filter(ArchivedName, s)| == 2
  {
    FilterCountTwo(ArchivedName, s, keys, x, y);
  }

  /** Which uploads of the example batch give an archive entry. */
  lemma ExampleEntries(dir: string, uploads: seq<UploadedFile>, entries: seq<Entry>)
    requires |uploads| == 3
    requires uploads[0].originalName == "a.png" && uploads[1].originalName == "b.JPG"
    requires uploads[2].originalName == "notes.txt"
    requires forall e :: e in entries <==> exists j :: ArchivedUpload(dir, uploads, {}, j, e)
    ensures forall e :: e in entries <==>
      e == Entry(Join(dir, "a.webp"), "a.webp") || e == Entry(Join(dir, "b.webp"), "b.webp")
  {
    ExamplePng();
    ExampleJpg();
    ExampleNote();
    forall e | e in entries
      ensures e == Entry(Join(dir, "a.webp"), "a.webp") || e == Entry(Join(dir, "b.webp"), "b.webp")
    {
      var j :| ArchivedUpload(dir, uploads, {}, j, e);
      assert j != 2;
      if j == 0 {
        assert e == Entry(Join(dir, WebPPath("a.png")), WebPPath("a.png"));
      } else {
        assert j == 1;
        assert e == Entry(Join(dir, WebPPath("b.JPG")), WebPPath("b.JPG"));
      }
    }
    assert ArchivedUpload(dir, uploads, {}, 0, Entry(Join(dir, "a.webp"), "a.webp"));
    assert ArchivedUpload(dir, uploads, {}, 1, Entry(Join(dir, "b.webp"), "b.webp"));
  }
}
