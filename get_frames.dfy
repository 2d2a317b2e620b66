/**
 * `extract_and_combine` of get_frames.py: samples every scene at its first
 * and last frame, saves each frame read into the output directory (created
 * when missing, never emptied), collects a captioned thumbnail per frame read
 * and, when at least one was read, lays the thumbnails out as a contact sheet.
 */
module GetFrames {
  import opened Wrappers
  import Naming
  import opened Keyframes
  import opened Storyboard
  import opened Workspace

  /** The labels of get_frames.py:22. */
  const StartEnd := Labels("start", "end")

  /** The caption drawn on a thumbnail: `Shot <n> <label>`, `n` the 1-based scene number (get_frames.py:33). */
  function Caption(scene: nat, tag: string): string {
    "Shot " + Naming.Decimal(scene + 1) + " " + tag
  }

  /** The thumbnail of a capture: its frame with the scene number and the label written on it. */
  function ThumbnailOf<F>(labels: Labels): Capture<F> -> Tile<F> {
    (c: Capture<F>) => Thumbnail(c.frame, Caption(c.sample.scene, labels.For(c.sample.pos)))
  }

  /** The thumbnail collected for each capture, in capture order. */
  function Thumbnails<F>(caps: seq<Capture<F>>, labels: Labels): seq<Tile<F>> {
    Map(ThumbnailOf(labels), caps)
  }

  /** The thumbnails a run collects: one per successful read. */
  function Collected<F>(scenes: seq<Scene>, decode: int -> Option<F>): seq<Tile<F>> {
    Thumbnails(Captures(AllSamples(scenes), decode), StartEnd)
  }

  /**
   * A run collects one thumbnail per successful read, at most two per scene
   * and exactly two per scene when no read fails; thumbnail `k` shows the
   * `k`-th successful read, and these follow the scenes in order, the start
   * sample of a scene before its end sample. Every successful read is among
   * the captures, so each has its thumbnail.
   */
  lemma CollectedTiles<F>(scenes: seq<Scene>, decode: int -> Option<F>)
    ensures var caps := Captures(AllSamples(scenes), decode);
            var tiles := Collected(scenes, decode);
            && |tiles| == 2 * |scenes| - FailedReads(AllSamples(scenes), decode) <= 2 * |scenes|
            && CapturesInRunOrder(caps)
            && (forall j :: 0 <= j < |AllSamples(scenes)| && decode(AllSamples(scenes)[j].frame).Some? ==>
                  Capture(AllSamples(scenes)[j], decode(AllSamples(scenes)[j].frame).value) in caps)
            && forall k :: 0 <= k < |tiles| ==>
                 tiles[k] == Thumbnail(caps[k].frame, Caption(caps[k].sample.scene, StartEnd.For(caps[k].sample.pos)))
  {
    var samples := AllSamples(scenes);
    ReadsAccounted(samples, decode);
    AllSamplesInRunOrder(scenes);
    CapturesKeepOrder(samples, decode);
    MapAt(ThumbnailOf(StartEnd), Captures(samples, decode));
    forall j | 0 <= j < |samples| && decode(samples[j].frame).Some?
      ensures Capture(samples[j], decode(samples[j].frame).value) in Captures(samples, decode)
    {
      CapturesComplete(samples, decode, j);
    }
  }

  /**
   * The saved files of a run, when the directory was empty or missing: one
   * per successful read, each holding its frame, under pairwise different names.
   */
  lemma SavedFiles<F>(scenes: seq<Scene>, decode: int -> Option<F>)
    ensures var caps := Captures(AllSamples(scenes), decode);
            var files := Saved(map[], caps, StartEnd);
            && |files| == |caps| == 2 * |scenes| - FailedReads(AllSamples(scenes), decode)
            && forall k :: 0 <= k < |caps| ==>
                 var name := SampleName(StartEnd, caps[k].sample);
                 name in files && files[name] == caps[k].frame
  {
    RunArtifacts(scenes, decode, StartEnd);
    SavedOnePerCapture(Captures(AllSamples(scenes), decode), StartEnd);
  }

  /** Files already in the directory stay there; those whose names the run does not write keep their contents. */
  lemma EarlierFilesKept<F>(files: map<string, F>, scenes: seq<Scene>, decode: int -> Option<F>)
    ensures var caps := Captures(AllSamples(scenes), decode);
            var after := Saved(files, caps, StartEnd);
            && files.Keys <= after.Keys
            && forall name :: name in files && name !in WrittenNames(FileWrites(caps, StartEnd)) ==>
                 after[name] == files[name]
  {
    WritesKeys(files, FileWrites(Captures(AllSamples(scenes), decode), StartEnd));
  }

  /**
   * One pass of the sample loop, get_frames.py:23-35: seeks and reads
   * `sample`; when the read succeeds, saves the frame under the name `name`
   * gives the sample (line 27) and returns its thumbnail `thumbnail` (lines
   * 30-35), otherwise returns no thumbnail. In a run these are
   * `NameOf(StartEnd)` and `ThumbnailOf(StartEnd)`.
   */
  method ReadSample<F>(dir: Directory<F>, sample: Sample, decode: int -> Option<F>,
                       name: Sample -> string, thumbnail: Capture<F> -> Tile<F>)
      returns (tile: seq<Tile<F>>)
    requires dir.Valid() && dir.present
    modifies dir
    ensures dir.Valid() && dir.present
    ensures dir.files == Stored(old(dir.files), Captures([sample], decode), name)
    ensures tile == Map(thumbnail, Captures([sample], decode))
  {
    ReadOne(dir.files, sample, decode, name);
    var read := decode(sample.frame);
    if read.Some? {
      var c := Capture(sample, read.value);
      dir.Write(name(sample), read.value);
      MapStep(thumbnail, [], c);
      assert [] + [c] == [c];
      tile := [thumbnail(c)];
    } else {
      tile := [];
    }
  }

  /**
   * The body of the scene loop, get_frames.py:19-35: seeks and reads the two
   * samples of scene `i`; each read that succeeds is saved under the name
   * `name` gives its sample and turned into its thumbnail `thumbnail`, both
   * carrying the labels of the loop's list, line 22.
   */
  method ReadScene<F>(dir: Directory<F>, i: nat, scene: Scene, decode: int -> Option<F>,
                      name: Sample -> string, thumbnail: Capture<F> -> Tile<F>)
      returns (seeks: seq<int>, tiles: seq<Tile<F>>)
    requires dir.Valid() && dir.present
    modifies dir
    ensures dir.Valid() && dir.present
    ensures seeks == Frames(PlanScene(i, scene))
    ensures dir.files == Stored(old(dir.files), Captures(PlanScene(i, scene), decode), name)
    ensures tiles == Map(thumbnail, Captures(PlanScene(i, scene), decode))
  {
    var plan := PlanScene(i, scene);
    ghost var base := dir.files;
    seeks, tiles := [], [];
    for j := 0 to |plan|
      invariant dir.Valid() && dir.present
      invariant seeks == Frames(plan[..j])
      invariant dir.files == Stored(base, Captures(plan[..j], decode), name)
      invariant tiles == Map(thumbnail, Captures(plan[..j], decode))
    {
      ReadStep(base, plan, j, decode, name);
      MapAppend(thumbnail, Captures(plan[..j], decode), Captures([plan[j]], decode));
      seeks := seeks + [plan[j].frame];
      var tile := ReadSample(dir, plan[j], decode, name, thumbnail);
      tiles := tiles + tile;
    }
    assert plan[..|plan|] == plan;
  }

  /**
   * get_frames.py:6-58. `seeks` lists the frame indices the decoder is asked
   * for, in order; `decode` answers a seek-and-read at a frame index. The
   * storyboard is `None` when no frame was read (no final_storyboard.jpg).
   */
  method ExtractAndCombine<F>(dir: Directory<F>, scenes: seq<Scene>, decode: int -> Option<F>)
      returns (seeks: seq<int>, storyboard: Option<seq<seq<Tile<F>>>>)
    requires dir.Valid()
    modifies dir
    ensures dir.Valid() && dir.present
    ensures seeks == Frames(AllSamples(scenes))
    ensures dir.files == Saved(old(dir.files), Captures(AllSamples(scenes), decode), StartEnd)
    ensures storyboard == if Collected(scenes, decode) == [] then None else Some(Layout(Collected(scenes, decode)))
  {
    dir.EnsureExists();
    ghost var base := dir.files;
    var collected: seq<Tile<F>> := [];
    seeks := [];
    for i := 0 to |scenes|
      invariant dir.Valid() && dir.present
      invariant seeks == Frames(AllSamples(scenes[..i]))
      invariant dir.files == Saved(base, Captures(AllSamples(scenes[..i]), decode), StartEnd)
      invariant collected == Thumbnails(Captures(AllSamples(scenes[..i]), decode), StartEnd)
    {
      ghost var done := AllSamples(scenes[..i]);
      ghost var plan := PlanScene(i, scenes[i]);
      var sceneSeeks, tiles := ReadScene(dir, i, scenes[i], decode, NameOf(StartEnd), ThumbnailOf(StartEnd));
      AllSamplesStep(scenes, i);
      FramesAppend(done, plan);
      CapturesAppend(done, plan, decode);
      StoredAppend(base, Captures(done, decode), Captures(plan, decode), NameOf(StartEnd));
      MapAppend(ThumbnailOf(StartEnd), Captures(done, decode), Captures(plan, decode));
      seeks := seeks + sceneSeeks;
      collected := collected + tiles;
    }
    assert scenes[..|scenes|] == scenes;
    if collected != [] {
      var grid := Compose(collected);
      storyboard := Some(grid);
    } else {
      storyboard := None;
    }
  }
}
