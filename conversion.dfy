/**
 * `convertImagesToWebP` (server.js:72-89): over a snapshot of the directory,
 * every entry whose name ends in .jpg, .jpeg or .png (any case) is encoded by
 * sharp into a `.webp` sibling, and the sibling's path is pushed onto the
 * returned list. The first sharp failure rejects the whole stage.
 *
 * The loop is defined over the three naming rules it uses (`Rules`), so that
 * its properties are proved once from the one fact about those rules they
 * need; `LoopRules(dir)` holds the rules of the source.
 */
module Conversion {
  import opened Outcomes
  import opened Files
  import opened NodePath
  import opened Naming
  import opened Seqs

  /**
   * The naming rules of the loop: which entries it converts (line 79), the
   * name of the sibling it writes and the path it pushes (line 80).
   */
  datatype Rules = Rules(select: string -> bool, sibling: string -> string, pushed: string -> string)

  /** The rules of server.js:77-80 for the workspace `dir`. */
  function LoopRules(dir: string): Rules {
    Rules(IsConvertible, WebPPath, name => WebPPath(Join(dir, name)))
  }

  /** No sibling is ever one of the entries the loop converts. */
  ghost predicate SiblingsAreFresh(r: Rules) {
    forall y {:trigger r.sibling(y)} :: r.select(y) ==> !r.select(r.sibling(y))
  }

  /**
   * Where the loop of lines 76-85 stands: still converting, with the workspace
   * and the paths pushed so far, or stopped by the entry sharp failed on.
   */
  datatype Stage =
    | Converting(files: map<string, Content>, outputs: seq<string>)
    | Aborted(files: map<string, Content>, failedOn: string)

  /**
   * Whether `sharp(filePath).toFormat('webp').toFile(outputPath)` fails for
   * `name`: the file is missing or `encode`, which stands for sharp, rejects
   * its bytes.
   */
  predicate EncodeFails(files: map<string, Content>, encode: Content -> Option<Content>, name: string) {
    name !in files || encode(files[name]).None?
  }

  /**
   * One turn of the loop of lines 76-85 on the entry `name`: once stopped the
   * loop stays stopped; otherwise it stops exactly when `name` is selected and
   * sharp fails on it. A turn keeps every entry, writes at most the sibling of
   * `name` and pushes at most one path.
   */
  function ConvertEntry(r: Rules, encode: Content -> Option<Content>, st: Stage, name: string): (next: Stage)
    ensures st.Aborted? ==> next == st
    ensures next.Aborted? <==> st.Aborted? || (r.select(name) && EncodeFails(st.files, encode, name))
    ensures st.files.Keys <= next.files.Keys <= st.files.Keys + {r.sibling(name)}
    ensures forall n :: n in st.files && n != r.sibling(name) ==> next.files[n] == st.files[n]
    ensures st.Converting? && next.Converting? ==>
      st.outputs <= next.outputs && |next.outputs| <= |st.outputs| + 1
  {
    match st
    case Aborted(_, _) => st
    case Converting(f, outs) =>
      if !r.select(name) then st
      else if EncodeFails(f, encode, name) then Aborted(f, name)
      else Converting(f[r.sibling(name) := encode(f[name]).value], outs + [r.pushed(name)])
  }

  /**
   * The loop over the whole snapshot, starting from an empty list. It never
   * removes an entry, pushes at most one path per snapshot entry, and when it
   * stops, it stops on a selected entry of the snapshot.
   */
  function Run(r: Rules, files: map<string, Content>, snapshot: seq<string>,
               encode: Content -> Option<Content>): (st: Stage)
    ensures files.Keys <= st.files.Keys
    ensures st.Converting? ==> |st.outputs| <= |snapshot|
    ensures st.Aborted? ==> st.failedOn in snapshot && r.select(st.failedOn)
    decreases |snapshot|
  {
    if |snapshot| == 0 then Converting(files, [])
    else
      var k := |snapshot| - 1;
      var before := Run(r, files, snapshot[..k], encode);
      assert forall x :: x in snapshot[..k] ==> x in snapshot;
      ConvertEntry(r, encode, before, snapshot[k])
  }

  /**
   * `convertImagesToWebP` on the workspace `dir` holding `files`: the sources
   * stay, and a rejected stage names a `.jpg`, `.jpeg` or `.png` entry of the
   * snapshot.
   */
  function ConvertAll(dir: string, files: map<string, Content>, snapshot: seq<string>,
                      encode: Content -> Option<Content>): (st: Stage)
    ensures files.Keys <= st.files.Keys
    ensures st.Converting? ==> |st.outputs| <= |snapshot|
    ensures st.Aborted? ==> st.failedOn in snapshot && IsConvertible(st.failedOn)
  {
    Run(LoopRules(dir), files, snapshot, encode)
  }

  /** One more turn of the loop of server.js, stated with its own naming rules. */
  lemma ConvertAllStep(dir: string, files: map<string, Content>, s: seq<string>,
                       encode: Content -> Option<Content>, x: string)
    requires ConvertAll(dir, files, s, encode).Converting?
    ensures var st := ConvertAll(dir, files, s, encode);
      ConvertAll(dir, files, s + [x], encode) ==
        if !IsConvertible(x) then st
        else if EncodeFails(st.files, encode, x) then Aborted(st.files, x)
        else Converting(st.files[WebPPath(x) := encode(st.files[x]).value], st.outputs + [WebPPath(Join(dir, x))])
  {
    assert (s + [x])[..|s|] == s;
  }

  /** A sharp failure at entry `i` of the snapshot is where the whole stage stops. */
  lemma ConvertAllStops(dir: string, files: map<string, Content>, s: seq<string>,
                        encode: Content -> Option<Content>, i: nat)
    requires i < |s| && ConvertAll(dir, files, s[..i], encode).Converting?
    requires IsConvertible(s[i]) && EncodeFails(ConvertAll(dir, files, s[..i], encode).files, encode, s[i])
    ensures ConvertAll(dir, files, s, encode) == Aborted(ConvertAll(dir, files, s[..i], encode).files, s[i])
  {
    assert s[..i + 1] == s[..i] + [s[i]];
    ConvertAllStep(dir, files, s[..i], encode, s[i]);
    AbortedStays(LoopRules(dir), files, s, encode, i + 1);
  }

  /** The entries of the snapshot the loop converts, in snapshot order. */
  function Selected(r: Rules, snapshot: seq<string>): seq<string> {
    Filter(r.select, snapshot)
  }

  /** The names of the siblings the snapshot gives rise to. */
  ghost function OutputNames(r: Rules, snapshot: seq<string>): set<string> {
    set x | x in snapshot && r.select(x) :: r.sibling(x)
  }

  /** The last converted entry of the snapshot whose sibling is called `out`. */
  function LastSource(r: Rules, snapshot: seq<string>, out: string): (src: Option<string>)
    ensures src.Some? ==> src.value in snapshot && r.select(src.value) && r.sibling(src.value) == out
    ensures out in OutputNames(r, snapshot) ==> src.Some?
    decreases |snapshot|
  {
    if |snapshot| == 0 then None
    else
      var k := |snapshot| - 1;
      assert snapshot == snapshot[..k] + [snapshot[k]];
      if r.select(snapshot[k]) && r.sibling(snapshot[k]) == out then Some(snapshot[k])
      else LastSource(r, snapshot[..k], out)
  }

  /** The names of line 79 and line 80 never meet: a `.webp` sibling is never converted. */
  lemma LoopRulesSiblingsAreFresh(dir: string)
    ensures SiblingsAreFresh(LoopRules(dir))
  {
    forall y | IsConvertible(y)
      ensures !IsConvertible(WebPPath(y))
    {
      ConvertedName(y);
      OutputNotConvertible(Stem(y));
    }
  }

  /** Adding one entry to the snapshot adds at most its own sibling name. */
  lemma OutputNamesStep(r: Rules, s: seq<string>, x: string)
    ensures OutputNames(r, s + [x]) == OutputNames(r, s) + (if r.select(x) then {r.sibling(x)} else {})
  {
    assert forall y :: y in s + [x] <==> y in s || y == x;
  }

  /**
   * The stage only adds siblings: every file it found is still there,
   * unchanged unless a sibling's name coincides with it; the converted sources
   * themselves are never touched. This holds whether or not sharp fails.
   */
  lemma {:induction false} RunKeepsFiles(r: Rules, files: map<string, Content>, snapshot: seq<string>,
                                         encode: Content -> Option<Content>)
    requires SiblingsAreFresh(r)
    ensures files.Keys <= Run(r, files, snapshot, encode).files.Keys
    ensures Run(r, files, snapshot, encode).files.Keys <= files.Keys + OutputNames(r, snapshot)
    ensures forall n :: n in files && n !in OutputNames(r, snapshot) ==>
      Run(r, files, snapshot, encode).files[n] == files[n]
    ensures forall n :: r.select(n) ==>
      (n in Run(r, files, snapshot, encode).files <==> n in files)
    ensures forall n :: n in files && r.select(n) ==>
      Run(r, files, snapshot, encode).files[n] == files[n]
    decreases |snapshot|
  {
    if |snapshot| > 0 {
      var k := |snapshot| - 1;
      var s' := snapshot[..k];
      assert snapshot == s' + [snapshot[k]];
      RunKeepsFiles(r, files, s', encode);
      OutputNamesStep(r, s', snapshot[k]);
    }
  }

  /** When sharp accepts every converted entry, the stage is not rejected. */
  lemma {:induction false} RunCompletes(r: Rules, files: map<string, Content>, snapshot: seq<string>,
                                        encode: Content -> Option<Content>)
    requires SiblingsAreFresh(r)
    requires forall x :: x in snapshot && r.select(x) ==> !EncodeFails(files, encode, x)
    ensures Run(r, files, snapshot, encode).Converting?
    decreases |snapshot|
  {
    if |snapshot| > 0 {
      var k := |snapshot| - 1;
      var s' := snapshot[..k];
      assert forall y :: y in s' ==> y in snapshot;
      RunCompletes(r, files, s', encode);
      RunKeepsFiles(r, files, s', encode);
    }
  }

  /**
   * When the stage completes, its list holds one pushed path per converted
   * entry, in snapshot order; entries the loop does not convert add nothing.
   */
  lemma {:induction false} RunOutputs(r: Rules, files: map<string, Content>, snapshot: seq<string>,
                                      encode: Content -> Option<Content>)
    requires Run(r, files, snapshot, encode).Converting?
    ensures |Run(r, files, snapshot, encode).outputs| == |Selected(r, snapshot)|
    ensures forall j :: 0 <= j < |Selected(r, snapshot)| ==>
      Run(r, files, snapshot, encode).outputs[j] == r.pushed(Selected(r, snapshot)[j])
    decreases |snapshot|
  {
    if |snapshot| > 0 {
      var k := |snapshot| - 1;
      var s' := snapshot[..k];
      var x := snapshot[k];
      assert snapshot == s' + [x];
      RunOutputs(r, files, s', encode);
      FilterAppend(r.select, s', [x]);
    }
  }

  /** No converted entry of `snapshot` after position `k` has a sibling called `out`. */
  predicate NoLaterSource(r: Rules, snapshot: seq<string>, out: string, k: nat) {
    forall i :: k < i < |snapshot| ==> !(r.select(snapshot[i]) && r.sibling(snapshot[i]) == out)
  }

  /** The source `LastSource` picks comes after every other converted entry with the same sibling. */
  lemma {:induction false} LastSourceIsLast(r: Rules, snapshot: seq<string>, out: string)
    requires LastSource(r, snapshot, out).Some?
    ensures exists k :: 0 <= k < |snapshot| && snapshot[k] == LastSource(r, snapshot, out).value && NoLaterSource(r, snapshot, out, k)
    decreases |snapshot|
  {
    var k := |snapshot| - 1;
    if r.select(snapshot[k]) && r.sibling(snapshot[k]) == out {
      assert NoLaterSource(r, snapshot, out, k);
    } else {
      var before := snapshot[..k];
      LastSourceIsLast(r, before, out);
      var j :| 0 <= j < |before| && before[j] == LastSource(r, before, out).value && NoLaterSource(r, before, out, j);
      forall i | j < i < |snapshot|
        ensures !(r.select(snapshot[i]) && r.sibling(snapshot[i]) == out)
      {
        if i < k {
          assert snapshot[i] == before[i];
        }
      }
      assert snapshot[j] == LastSource(r, snapshot, out).value;
    }
  }

  /**
   * When the stage completes, the workspace holds exactly the names it had plus
   * the siblings, and each sibling holds what sharp made of the last converted
   * entry that produced it.
   */
  lemma {:induction false} RunFiles(r: Rules, files: map<string, Content>, snapshot: seq<string>,
                                    encode: Content -> Option<Content>)
    requires SiblingsAreFresh(r)
    requires Run(r, files, snapshot, encode).Converting?
    ensures Run(r, files, snapshot, encode).files.Keys == files.Keys + OutputNames(r, snapshot)
    ensures forall out :: out in OutputNames(r, snapshot) ==>
      && LastSource(r, snapshot, out).Some? && LastSource(r, snapshot, out).value in files
      && encode(files[LastSource(r, snapshot, out).value]).Some?
      && Run(r, files, snapshot, encode).files[out] == encode(files[LastSource(r, snapshot, out).value]).value
    decreases |snapshot|
  {
    if |snapshot| > 0 {
      var k := |snapshot| - 1;
      var s' := snapshot[..k];
      var x := snapshot[k];
      assert snapshot == s' + [x];
      var st := Run(r, files, s', encode);
      assert st.Converting?;
      RunFiles(r, files, s', encode);
      RunKeepsFiles(r, files, s', encode);
      OutputNamesStep(r, s', x);
      if r.select(x) {
        var f := Run(r, files, snapshot, encode).files;
        assert f == st.files[r.sibling(x) := encode(st.files[x]).value];
        assert x in files && st.files[x] == files[x];
        forall out | out in OutputNames(r, snapshot)
          ensures && LastSource(r, snapshot, out).Some? && LastSource(r, snapshot, out).value in files
                  && encode(files[LastSource(r, snapshot, out).value]).Some?
                  && f[out] == encode(files[LastSource(r, snapshot, out).value]).value
        {
          if out != r.sibling(x) {
            assert LastSource(r, snapshot, out) == LastSource(r, s', out);
          }
        }
      }
    }
  }

  /**
   * The stage is rejected exactly when sharp fails on some converted entry,
   * and then it stops at the first such entry of the snapshot.
   */
  lemma {:induction false} RunAborts(r: Rules, files: map<string, Content>, snapshot: seq<string>,
                                     encode: Content -> Option<Content>)
    requires SiblingsAreFresh(r)
    ensures Run(r, files, snapshot, encode).Aborted? <==>
      exists x :: x in snapshot && r.select(x) && EncodeFails(files, encode, x)
    ensures Run(r, files, snapshot, encode).Aborted? ==>
      exists j :: && 0 <= j < |snapshot|
                  && snapshot[j] == Run(r, files, snapshot, encode).failedOn
                  && r.select(snapshot[j]) && EncodeFails(files, encode, snapshot[j])
                  && forall i :: 0 <= i < j && r.select(snapshot[i]) ==> !EncodeFails(files, encode, snapshot[i])
    decreases |snapshot|
  {
    if |snapshot| > 0 {
      var k := |snapshot| - 1;
      var s' := snapshot[..k];
      var x := snapshot[k];
      assert snapshot == s' + [x];
      RunAborts(r, files, s', encode);
      RunKeepsFiles(r, files, s', encode);
      var st := Run(r, files, s', encode);
      if st.Aborted? {
        var j :| && 0 <= j < |s'| && s'[j] == st.failedOn
                 && r.select(s'[j]) && EncodeFails(files, encode, s'[j])
                 && forall i :: 0 <= i < j && r.select(s'[i]) ==> !EncodeFails(files, encode, s'[i]);
        assert snapshot[j] == s'[j];
      } else if r.select(x) {
        forall i | 0 <= i < k && r.select(snapshot[i])
          ensures !EncodeFails(files, encode, snapshot[i])
        {
          assert snapshot[i] in s';
        }
      }
    }
  }

  /** Once the loop has stopped, the entries after the failing one change nothing. */
  lemma {:induction false} AbortedStays(r: Rules, files: map<string, Content>, snapshot: seq<string>,
                                        encode: Content -> Option<Content>, k: nat)
    requires k <= |snapshot| && Run(r, files, snapshot[..k], encode).Aborted?
    ensures Run(r, files, snapshot, encode) == Run(r, files, snapshot[..k], encode)
    decreases |snapshot|
  {
    if k < |snapshot| {
      var n := |snapshot| - 1;
      assert snapshot[..n][..k] == snapshot[..k];
      AbortedStays(r, files, snapshot[..n], encode, k);
    } else {
      assert snapshot[..k] == snapshot;
    }
  }
}
