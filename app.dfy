/**
 * The analysis run of app.py (lines 43-79): the output directory is removed
 * and created afresh; with no scene detected only a warning is shown;
 * otherwise every scene is sampled at its first and last frame and each frame
 * read is saved under a name carrying the labels 开始帧 (start frame) and
 * 结束帧 (end frame).
 */
module App {
  import opened Wrappers
  import opened Keyframes
  import opened Workspace

  /** The labels of app.py:72. */
  const StartEndFrame := Labels("开始帧", "结束帧")

  /** What the run reports once the directory is ready: the no-scene warning of app.py:59, or completion. */
  datatype Outcome = NoScenesWarning | Completed

  /**
   * One pass of the sample loop, app.py:73-79: seeks and reads `sample`, and
   * saves the frame when the read succeeds. `name` is the file naming of
   * line 77 (`NameOf(StartEndFrame)` in a run).
   */
  method SaveSample<F>(dir: Directory<F>, sample: Sample, decode: int -> Option<F>, name: Sample -> string)
    requires dir.Valid() && dir.present
    modifies dir
    ensures dir.Valid() && dir.present
    ensures dir.files == Stored(old(dir.files), Captures([sample], decode), name)
  {
    ReadOne(dir.files, sample, decode, name);
    var read := decode(sample.frame);
    if read.Some? {
      dir.Write(name(sample), read.value);
    }
  }

  /**
   * The body of the scene loop, app.py:66-79: seeks and reads the two samples
   * of scene `i` and saves each frame read under the name `name` gives its
   * sample (line 77, with the two labels of the loop's list, line 72).
   */
  method SaveScene<F>(dir: Directory<F>, i: nat, scene: Scene, decode: int -> Option<F>, name: Sample -> string)
      returns (seeks: seq<int>)
    requires dir.Valid() && dir.present
    modifies dir
    ensures dir.Valid() && dir.present
    ensures seeks == Frames(PlanScene(i, scene))
    ensures dir.files == Stored(old(dir.files), Captures(PlanScene(i, scene), decode), name)
  {
    var plan := PlanScene(i, scene);
    ghost var base := dir.files;
    seeks := [];
    for j := 0 to |plan|
      invariant dir.Valid() && dir.present
      invariant seeks == Frames(plan[..j])
      invariant dir.files == Stored(base, Captures(plan[..j], decode), name)
    {
      ReadStep(base, plan, j, decode, name);
      seeks := seeks + [plan[j].frame];
      SaveSample(dir, plan[j], decode, name);
    }
    assert plan[..|plan|] == plan;
  }

  /**
   * app.py:45-79. `seeks` lists the frame indices the decoder is asked for,
   * in order; `decode` answers a seek-and-read at a frame index. Whatever the
   * directory held before, afterwards it holds exactly the frames this run read.
   */
  method RunAnalysis<F>(dir: Directory<F>, scenes: seq<Scene>, decode: int -> Option<F>)
      returns (seeks: seq<int>, outcome: Outcome)
    requires dir.Valid()
    modifies dir
    ensures dir.Valid() && dir.present
    ensures outcome == NoScenesWarning <==> scenes == []
    ensures scenes == [] ==> seeks == [] && dir.files == map[]
    ensures seeks == Frames(AllSamples(scenes))
    ensures dir.files == Saved(map[], Captures(AllSamples(scenes), decode), StartEndFrame)
  {
    dir.Recreate();
    seeks := [];
    if scenes == [] {
      outcome := NoScenesWarning;
      return;
    }
    for i := 0 to |scenes|
      invariant dir.Valid() && dir.present
      invariant seeks == Frames(AllSamples(scenes[..i]))
      invariant dir.files == Saved(map[], Captures(AllSamples(scenes[..i]), decode), StartEndFrame)
    {
      ghost var done := AllSamples(scenes[..i]);
      ghost var plan := PlanScene(i, scenes[i]);
      var sceneSeeks := SaveScene(dir, i, scenes[i], decode, NameOf(StartEndFrame));
      AllSamplesStep(scenes, i);
      FramesAppend(done, plan);
      CapturesAppend(done, plan, decode);
      StoredAppend(map[], Captures(done, decode), Captures(plan, decode), NameOf(StartEndFrame));
      seeks := seeks + sceneSeeks;
    }
    assert scenes[..|scenes|] == scenes;
    outcome := Completed;
  }

  /**
   * The directory after a run holds one file per successful read and no
   * other: each under its sample's name, pairwise different, holding that
   * read's frame; twice the number of scenes less the failed reads, so two
   * per scene when no read fails.
   */
  lemma RunFiles<F>(scenes: seq<Scene>, decode: int -> Option<F>)
    ensures var caps := Captures(AllSamples(scenes), decode);
            var files := Saved(map[], caps, StartEndFrame);
            && |files| == |caps| == 2 * |scenes| - FailedReads(AllSamples(scenes), decode)
            && (FailedReads(AllSamples(scenes), decode) == 0 ==> |files| == 2 * |scenes|)
            && (forall name :: name in files <==>
                  exists k :: 0 <= k < |caps| && name == SampleName(StartEndFrame, caps[k].sample))
            && forall k :: 0 <= k < |caps| ==>
                 var name := SampleName(StartEndFrame, caps[k].sample);
                 name in files && files[name] == caps[k].frame
  {
    RunArtifacts(scenes, decode, StartEndFrame);
    SavedOnePerCapture(Captures(AllSamples(scenes), decode), StartEndFrame);
  }
}
