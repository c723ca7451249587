# images-to-webp upload pipeline, modelled in Dafny

The server takes a batch of uploads on `POST /upload`. It works in a fresh
directory (the *workspace*) in three stages:

1. **Intake** (`handleUploadedFiles`) moves every upload into the workspace
   under its original name.
2. **Conversion** (`convertImagesToWebP`) takes a snapshot of the workspace.
   It re-encodes every `.jpg`, `.jpeg` or `.png` entry (in any case) with
   sharp into a sibling whose final extension is replaced by `.webp`. It
   returns the siblings' paths in snapshot order.
3. **Archive** (`zipWebPFiles`) writes `webp_images.zip`. The zip gets one
   entry per returned path whose extension is `.webp`, named by the path's
   basename. The archiver's events decide whether this stage succeeds.

The route answers with the zip as a download, or with a 500 error when any
stage fails.

The model keeps the workspace as a map from entry name to opaque content
(`Files.Content`). The full path of an entry is `NodePath.Join(dir, name)`.
Modules:

- `NodePath`: the exact `path.basename` and `path.extname` semantics the
  pipeline relies on.
- `Naming`: the selection regex of line 79, the replacement of line 80 and
  the archive filter of lines 119-121.
- `Intake`: the moves, as a fold over the batch.
- `Conversion`: the conversion loop, as a fold over the snapshot. `Run` is
  generic over the selection and renaming rules, and `ConvertAll` is `Run`
  with the rules of server.js (`LoopRules`).
- `Archive`: the entry list, and how the archiver's events settle the stage.
- `Server`: the class `Workspace`, whose methods are the three stages
  written as loops and proved against the functions above. It also holds
  the route `HandleUpload` and end-to-end lemmas.

Parameters stand in for things the code cannot see:

- `encode` is sharp: `None` is a failed conversion.
- `faults` is the set of batch positions whose filesystem move fails.
- `events` and `closed` are what archiver and the output stream report.
- `ReadDirSync` returns the workspace's names in an order the model leaves
  open.

Two behaviours of the code are easy to misread:

- **Duplicate names.** One might expect a later upload of a name to
  overwrite an earlier one. The code calls fs-extra's `move` without the
  `overwrite` option. That call refuses a destination that already exists,
  and the per-file `catch` swallows the refusal. The model runs the moves in
  batch order, so there the *first* successful move of a name wins and later
  ones are dropped (`Intake.DuplicateDropped`). That outcome comes from the
  modelled order. In the running code the moves are concurrent
  (`Promise.all`, server.js:68). Two moves of one name can both pass the
  existence check before either renames, and then the last rename wins. So
  any of the uploads of a name may end up in the workspace.
- **A file named `.png`.** One might expect every converted path to be
  archived. For a name whose stem is empty, such as `.png`, the sibling is
  `.webp`. `path.extname` gives `""` for that sibling, so it is converted but
  not archived (`Naming.ArchivedIffStem`).

## Model

| member | source | states |
|---|---|---|
| NodePath.LowerChar | server.js:79 | the ASCII case folding of the `/i` flag and of `toLowerCase`: the result is never an upper-case ASCII letter, an upper-case letter becomes its lower-case partner, and every other character is kept |
| NodePath.Lower | server.js:120 | `toLowerCase()`, character by character through `LowerChar`; it keeps the length |
| NodePath.LowerIdempotent | server.js:120 | lower-casing an already lower-cased string changes nothing |
| NodePath.Join | server.js:58 | `path.join(dir, name)` for a plain entry name: the directory, one slash, the name; its meaning to `basename` and `extname` is stated by the two `OfJoin` lemmas |
| NodePath.Basename | server.js:121 | `path.basename`: the result never contains a directory separator |
| NodePath.Extname | server.js:119 | `path.extname`: empty, or a dot followed by no further dot or slash |
| NodePath.BasenameOfJoin | server.js:121 | the basename of `dir/name` is `name` for any single-component name |
| NodePath.ExtnameOfJoin | server.js:119 | the extension of `dir/name` is that of `name`: the directory never contributes |
| Naming.IsConvertible | server.js:79 | the regex test; a selected name has a final extension, and that extension, lower-cased, is jpg, jpeg or png |
| Naming.FinalExtensionStart | server.js:80 | where `/\.[^.]+$/` matches: the last dot, if at least one character follows it; no match exactly when there is no dot or the last dot ends the name |
| Naming.ReplaceFinalExtension | server.js:80 | `replace(/\.[^.]+$/, r)`: the stem followed by `r`, or the string unchanged when the regex does not match |
| Naming.Stem | server.js:80 | the part the replacement keeps: a prefix of the name, the whole name iff nothing matches, otherwise everything before a dot followed by at least one character and no other dot |
| Naming.WebPPath | server.js:80 | a path with a final extension becomes its stem plus `.webp`, whose final extension starts right after the stem; any other path is kept |
| Naming.WebPPathIdempotent | server.js:80 | applying the replacement of line 80 a second time changes nothing |
| Naming.IsWebPEntry | server.js:119-120 | the archive filter; a path it keeps never has a basename that line 79 would select |
| Naming.ConvertibleIffSourceExtension | server.js:79 | a name is selected iff it has a final extension and that extension, lower-cased, is jpg, jpeg or png |
| Naming.ConvertedName | server.js:79-80 | a selected name is stem + "." + source extension, and its converted name is that stem + ".webp" |
| Naming.StemAndSourceExtension | server.js:79-80 | conversely, any stem, a dot and jpg, jpeg or png in any case form a selected name with that stem, which becomes the stem plus `.webp` |
| Naming.WebPPathOfJoin | server.js:77-80 | replacing the extension of the full path changes only the last component: the directory is kept |
| Naming.FinalExtensionOfJoin | server.js:80 | the final extension of `dir/name` is found where it is in `name`, shifted past the directory |
| Naming.TargetFinalExtension | server.js:80 | in `stem + ".webp"` the last dot, and the final extension, start right after the stem |
| Naming.OutputNotConvertible | server.js:79-80 | a name ending in `.webp` is never selected, so no sibling is converted again |
| Naming.TargetExtname | server.js:119 | to `path.extname`, `stem + ".webp"` has extension `.webp` unless the stem is empty, and then none |
| Naming.WebPEntryIffStem | server.js:119-120 | the archive filter keeps `stem + ".webp"` iff the stem is non-empty |
| Naming.ConvertedNamePlain | server.js:79-80 | the sibling of a selected plain entry name is again a plain entry name and is not selected |
| Naming.ArchivedIffStem | server.js:80-121 | the sibling path of a selected name passes the archive filter iff its stem is non-empty, and its entry name is the sibling's own name |
| Intake.MoveSucceeds | server.js:60-65 | the move of one upload succeeds iff it is not faulted, its name does not denote a directory and the destination is not already present (fs-extra's `move` without `overwrite`) |
| Intake.MoveOne | server.js:60-65 | one move adds at most its own name, with the upload's bytes, and never changes an entry already present |
| Intake.IntakeAll | server.js:57-68 | intake keeps every existing entry, and each new entry holds the bytes of some unfaulted upload of that name |
| Intake.FirstMove | server.js:57-66 | the least batch position that uploads a given name and whose move is not faulted |
| Intake.IntakeResult | server.js:57-68 | after intake, an entry already present is unchanged; a new name holds the content of its first successful upload; every other name is absent |
| Intake.IntakeNames | server.js:57-68 | a name is present after intake iff it was present before, or some unfaulted upload carries it and it does not denote a directory |
| Intake.DuplicateDropped | server.js:58-65 | of two uploads with one name, the earlier successful one keeps its content and the later is dropped |
| Intake.DistinctBatchMovesAll | server.js:57-68 | in a batch of distinct names, every unfaulted upload not named like a directory is in the workspace with its own bytes |
| Intake.FailedMoveKeepsWorkspace | server.js:63-65 | a failed move (fault, directory name or existing destination) leaves the workspace unchanged |
| Conversion.EncodeFails | server.js:81 | sharp rejects the entry: it has no content to read, or `encode` returns no output for its content |
| Conversion.ConvertEntry | server.js:77-83 | one turn: a stopped loop stays stopped; it stops iff the entry is selected and sharp fails; it keeps every entry, writes at most the sibling and pushes at most one path |
| Conversion.Run | server.js:76-85 | the loop never removes an entry, pushes at most one path per snapshot entry, and stops only on a selected snapshot entry |
| Conversion.ConvertAll | server.js:72-89 | the stage keeps every entry, and a rejected stage names a `.jpg`, `.jpeg` or `.png` entry of the snapshot |
| Conversion.LoopRulesSiblingsAreFresh | server.js:79-80 | no selected name is the sibling of any selected name, so no conversion overwrites a later source |
| Conversion.RunKeepsFiles | server.js:76-85 | conversion keeps every existing entry, adds only siblings, leaves non-sibling entries and every selected source untouched |
| Conversion.RunCompletes | server.js:76-85 | when sharp accepts every selected entry, the stage completes |
| Conversion.RunOutputs | server.js:73-85 | a completed stage returns exactly one sibling path per selected snapshot entry, in snapshot order |
| Conversion.RunFiles | server.js:76-85 | after a completed stage the workspace holds its old names plus the siblings, and each sibling holds sharp's output for the last entry that produced it |
| Conversion.RunAborts | server.js:79-81 | the stage is rejected iff sharp fails on some selected entry, and it stops at the first such entry |
| Conversion.AbortedStays | server.js:76-85 | after the failing entry, the rest of the snapshot changes nothing |
| Conversion.ConvertAllStep | server.js:77-83 | one more snapshot entry: unselected it changes nothing; selected it either stops the stage on sharp's failure or writes the sibling and pushes its path |
| Conversion.ConvertAllStops | server.js:79-81 | a sharp failure on entry `i` is where the whole stage stops, with the workspace as it was before that entry |
| Conversion.LastSource | server.js:76-83 | a selected snapshot entry whose sibling is a given name, present for every sibling name |
| Conversion.LastSourceIsLast | server.js:76-83 | the entry `LastSource` picks is at a position after which no selected snapshot entry has that sibling, so its write is the one that stays |
| Archive.ArchiveEntries | server.js:118-124 | the entries are the listed paths with extension `.webp` in any case, in list order, each named by its basename |
| Archive.Collect | server.js:118-124 | the loop for any path filter and naming rule: one entry per kept path, in list order, named by the rule |
| Archive.CollectMembers | server.js:118-124 | an entry is collected iff its path is listed and kept, under the name the rule gives that path |
| Archive.ArchiveEntriesStep | server.js:118-124 | one more listed path appends at most its own entry |
| Archive.ArchiveEntryMembers | server.js:118-124 | an entry is archived iff its source is listed with a `.webp` extension and its name is that source's basename; entry names are flat |
| Archive.IsFatal | server.js:102-114 | an event rejects the stage iff it is anything but an `ENOENT` warning |
| Archive.Settle | server.js:96-114 | resolved iff the stream closes with no fatal event; pending iff it never closes and no event is fatal; otherwise rejected by the first fatal event |
| Archive.MissingFileWarningsAreHarmless | server.js:102-105 | `ENOENT` warnings alone never reject the stage |
| Server.Workspace.constructor | server.js:20-22 | a fresh workspace is empty |
| Server.Workspace.HandleUploadedFiles | server.js:56-70 | the workspace after the loop of moves is `IntakeAll` of the one before, and entry names stay plain |
| Server.Workspace.ReadDirSync | server.js:73 | the snapshot lists every entry name exactly once |
| Server.Workspace.ConvertImagesToWebP | server.js:72-89 | the loop's workspace, list and error are those of `ConvertAll` on its snapshot, and entry names stay plain |
| Server.Workspace.ZipWebPFiles | server.js:91-128 | the zip path is `dir/webp_images.zip`; the zip holds `ArchiveEntries` of the list at level 5; the outcome is `Settle` of the events |
| Server.HandleUpload | server.js:13-54 | a failed directory creation or conversion gives the 500 error; otherwise the download iff the archive resolves, and no response iff it never settles; the final workspace is the converted one plus the zip of the converted list, or the converted one alone after a failed conversion |
| Server.IntakePlainNames | server.js:58 | intake into an empty workspace leaves only single-component, non-directory names |
| Server.ConversionOutputs | server.js:72-89 | a completed conversion lists exactly the sibling paths of the workspace's selected entries |
| Server.ArchiveOfConversion | server.js:72-124 | when sharp accepts every image, the conversion completes; an entry is archived iff it is the sibling, under the sibling's name, of a selected entry with a non-empty stem; and the archive has as many entries as the snapshot has selected names with a non-empty stem |
| Server.ArchivedCount | server.js:76-124 | the sibling paths pushed for the selected names of a listing pass the archive filter exactly as often as the listing holds selected names with a non-empty stem |
| Server.ArchiveOfBatch | server.js:13-31 | end to end: the archive entries are exactly the siblings of the unfaulted uploads that have a non-directory, selected name with a non-empty stem, and there are as many entries as the workspace holds such names |
| Server.EmptyBatch | server.js:57-118 | an empty batch gives an empty workspace, an empty conversion list and an empty archive, with no error |
| Server.ConversionFailureAborts | server.js:79-81 | one selected entry that sharp rejects aborts the conversion, on an entry that sharp rejects |
| Server.ExamplePng | server.js:79-80 | `a.png` is selected and becomes `a.webp` |
| Server.ExampleJpg | server.js:79-80 | `b.JPG` is selected despite the upper case and becomes `b.webp` |
| Server.ExampleNote | server.js:79 | `notes.txt` is not selected |
| Server.ExampleIntake | server.js:57-68 | intake of `a.png`, `b.JPG`, `notes.txt` leaves exactly those three names, each with the bytes of its own upload |
| Server.ExampleImagesEncode | server.js:79-81 | when sharp accepts the bytes of both images, it accepts every selected entry of the example workspace: `notes.txt` is never given to it |
| Server.ExampleEntries | server.js:118-124 | in the example batch, only the two images give archive entries |
| Server.TwoImagesAndANote | server.js:13-31 | the batch `a.png`, `b.JPG`, `notes.txt` yields exactly the entries `a.webp` and `b.webp`, two entries in all |
| Server.ExampleArchivedCount | server.js:57-80 | whatever order the example workspace is listed in, exactly two of its names are archived |
| Server.TwoArchived | server.js:119-124 | a listing of a workspace whose only archived names are two distinct names gives two archive entries |

## Left out

- Express routing, CORS, multer's multipart parsing and `app.listen`
  (server.js:1-13, 131-133). They are HTTP plumbing. The uploads arrive as a
  sequence whose names contain no `/`, as multer delivers them. A request
  with no multipart body, where `req.files` is undefined, is not modelled.
- The `Date.now()` folder name (server.js:20). It depends on the clock.
  `HandleUpload` takes the directory as a parameter, and `dirCreated` says
  whether `fs.ensureDir` succeeded.
- `Server.HandleUpload`: assumes the folder is new and empty, because the
  model starts every request from an empty workspace. Two requests in the
  same millisecond share one `uploads/<timestamp>` folder, since
  `fs.ensureDir` succeeds on an existing folder. Their interference, and a
  cleanup timer of one removing the other's files, are not modelled.
- `NodePath.Join`: `dir` stands for the normalised `uploads/<timestamp>`
  path, which is non-empty and has no trailing slash. For such a `dir` and
  a plain entry name, `path.join` is the directory, one slash and the name.
  `path.join`'s normalisation of `.`, `..` and repeated slashes is not
  modelled.
- The sharp transform (server.js:81). Its numerics are not visible; it is
  the parameter `encode`.
- archiver, zlib and the write stream (server.js:92-99, 116, 126). These are
  streaming I/O. The zip is its entry list, its compression level and
  whether it completed. The events are a parameter.
- Archiver's skipping of an entry whose file is missing. That is the cause
  of an `ENOENT` warning. Such entries still appear in the modelled zip.
- The `res.download` callback and the 10-second `setTimeout` cleanup
  (server.js:34-47). These are a timer and response I/O.
- The console logging throughout. It is output only.
- Intake concurrency. `Promise.all` (server.js:68) runs the moves
  concurrently, and the model runs them in batch order. When several
  uploads share a name, the one that wins is the first in that order. With
  real timing it could be any of them.
- Lower-casing is ASCII only. For both case-insensitive tests this is exact:
  the `/i` regex without the `u` flag folds only ASCII letters here, and no
  non-ASCII character lower-cases to the letters of `.webp`.
- `Server.Workspace.ReadDirSync`: does not fix the listing order, because
  the order `fs.readdirSync` returns depends on the filesystem.
