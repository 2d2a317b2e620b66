/**
 * The keyframe pipeline shared by get_frames.py and app.py: each detected
 * scene [start, end) is sampled at `start` and at `end - 1`; every sample is
 * sought and read from the decoder; a sample whose read fails is skipped;
 * every successful read is saved under a name built from its scene number
 * and its label.
 *
 * The specification functions here describe a whole run: `AllSamples` is the
 * plan, `Captures` the successful reads, `Saved` the directory after writing.
 */
module Keyframes {
  import opened Wrappers
  import Naming

  /** A scene as the detector reports it: frames `start` to `end`, `end` exclusive. */
  datatype Scene = Scene(start: nat, end: nat)

  /** Which of the two samples of a scene. */
  datatype Position = First | Last

  /** The label texts of the first and the last sample of a scene. */
  datatype Labels = Labels(first: string, last: string) {
    function For(p: Position): string {
      if p == First then first else last
    }

    predicate Distinct() {
      first != last
    }
  }

  /** One planned read: scene `scene` (0-based), its sample `pos`, at decoder index `frame`. */
  datatype Sample = Sample(scene: nat, pos: Position, frame: int)

  /** A successful read of a sample. */
  datatype Capture<F> = Capture(sample: Sample, frame: F)

  /** Where a sample stands in a run: two per scene, the first before the last. */
  function Rank(s: Sample): nat {
    2 * s.scene + (if s.pos == First then 0 else 1)
  }

  /**
   * The two samples of scene `i`: its first frame, then the frame before its
   * exclusive end. Both stay inside the scene whenever the scene is not empty.
   */
  function PlanScene(i: nat, s: Scene): (plan: seq<Sample>)
    ensures |plan| == 2
    ensures forall k :: 0 <= k < 2 ==> plan[k].scene == i && Rank(plan[k]) == 2 * i + k
    ensures plan[0].frame == s.start && plan[1].frame == s.end - 1
    ensures s.start < s.end ==> forall k :: 0 <= k < 2 ==> s.start <= plan[k].frame < s.end
  {
    [Sample(i, First, s.start), Sample(i, Last, s.end - 1)]
  }

  /** The samples of a run, scene after scene. */
  function AllSamples(scenes: seq<Scene>): (samples: seq<Sample>)
    ensures |samples| == 2 * |scenes|
  {
    if scenes == [] then []
    else
      var n := |scenes| - 1;
      AllSamples(scenes[..n]) + PlanScene(n, scenes[n])
  }

  /** Samples `2 * i` and `2 * i + 1` of a run are the two samples of scene `i`. */
  lemma {:induction false} AllSamplesAt(scenes: seq<Scene>)
    ensures forall i :: 0 <= i < |scenes| ==>
              AllSamples(scenes)[2 * i] == PlanScene(i, scenes[i])[0] &&
              AllSamples(scenes)[2 * i + 1] == PlanScene(i, scenes[i])[1]
  {
    if scenes != [] {
      var n := |scenes| - 1;
      AllSamplesAt(scenes[..n]);
      assert forall i :: 0 <= i < n ==> scenes[..n][i] == scenes[i];
    }
  }

  /** The frame indices of `samples`, in order. */
  function Frames(samples: seq<Sample>): (frames: seq<int>)
    ensures |frames| == |samples|
    ensures forall k :: 0 <= k < |samples| ==> frames[k] == samples[k].frame
  {
    if samples == [] then [] else Frames(samples[..|samples| - 1]) + [samples[|samples| - 1].frame]
  }

  /**
   * The decoder is asked, scene after scene, for the first frame of the scene
   * and then for the frame before its end.
   */
  lemma PlannedFrames(scenes: seq<Scene>)
    ensures |Frames(AllSamples(scenes))| == 2 * |scenes|
    ensures forall i :: 0 <= i < |scenes| ==>
              Frames(AllSamples(scenes))[2 * i] == scenes[i].start &&
              Frames(AllSamples(scenes))[2 * i + 1] == scenes[i].end - 1
  {
    AllSamplesAt(scenes);
  }

  /** No sample of `samples` comes earlier in the run than one before it. */
  predicate InRunOrder(samples: seq<Sample>) {
    forall j, k :: 0 <= j < k < |samples| ==> Rank(samples[j]) < Rank(samples[k])
  }

  lemma AllSamplesInRunOrder(scenes: seq<Scene>)
    ensures InRunOrder(AllSamples(scenes))
  {
    var samples := AllSamples(scenes);
    AllSamplesAt(scenes);
    forall j | 0 <= j < |samples|
      ensures Rank(samples[j]) == j
    {
      var i := j / 2;
      assert j == 2 * i || j == 2 * i + 1;
      assert PlanScene(i, scenes[i])[0] == samples[2 * i];
    }
  }

  /**
   * The successful reads of `samples`, in order: a sample whose read yields a
   * frame contributes one capture, a failed read contributes nothing.
   */
  function Captures<F>(samples: seq<Sample>, decode: int -> Option<F>): (caps: seq<Capture<F>>)
    ensures |caps| <= |samples|
  {
    if samples == [] then []
    else
      var n := |samples| - 1;
      var s := samples[n];
      Captures(samples[..n], decode) + (if decode(s.frame).Some? then [Capture(s, decode(s.frame).value)] else [])
  }

  /** `s` is one of `samples`. */
  predicate Planned(samples: seq<Sample>, s: Sample) {
    exists j :: 0 <= j < |samples| && samples[j] == s
  }

  /** Every capture is of a planned sample, and holds exactly what the decoder returned for it. */
  lemma {:induction false} CapturesSound<F>(samples: seq<Sample>, decode: int -> Option<F>)
    ensures forall k :: 0 <= k < |Captures(samples, decode)| ==>
              Planned(samples, Captures(samples, decode)[k].sample) &&
              decode(Captures(samples, decode)[k].sample.frame) == Some(Captures(samples, decode)[k].frame)
  {
    if samples != [] {
      var n := |samples| - 1;
      var prefix := samples[..n];
      CapturesSound(prefix, decode);
      var before := Captures(prefix, decode);
      var caps := Captures(samples, decode);
      var s := samples[n];
      assert caps == before + (if decode(s.frame).Some? then [Capture(s, decode(s.frame).value)] else []);
      forall k | 0 <= k < |caps|
        ensures Planned(samples, caps[k].sample) && decode(caps[k].sample.frame) == Some(caps[k].frame)
      {
        if k < |before| {
          assert caps[k] == before[k];
          var j :| 0 <= j < n && prefix[j] == before[k].sample;
          assert samples[j] == prefix[j];
        } else {
          assert caps[k] == Capture(s, decode(s.frame).value);
          assert samples[n] == s;
        }
      }
    }
  }

  /** Every sample whose read succeeds is captured, with the frame the decoder returned for it. */
  lemma {:induction false} CapturesComplete<F>(samples: seq<Sample>, decode: int -> Option<F>, j: nat)
    requires j < |samples| && decode(samples[j].frame).Some?
    ensures Capture(samples[j], decode(samples[j].frame).value) in Captures(samples, decode)
  {
    var n := |samples| - 1;
    var prefix := samples[..n];
    var before := Captures(prefix, decode);
    var s := samples[n];
    assert Captures(samples, decode) ==
           before + (if decode(s.frame).Some? then [Capture(s, decode(s.frame).value)] else []);
    if j < n {
      assert prefix[j] == samples[j];
      CapturesComplete(prefix, decode, j);
    }
  }

  /** The number of samples whose read fails. */
  function FailedReads<F>(samples: seq<Sample>, decode: int -> Option<F>): nat {
    if samples == [] then 0
    else
      var n := |samples| - 1;
      FailedReads(samples[..n], decode) + (if decode(samples[n].frame).None? then 1 else 0)
  }

  /** Every sample is read successfully or counted as failed, never both. */
  lemma {:induction false} ReadsAccounted<F>(samples: seq<Sample>, decode: int -> Option<F>)
    ensures |Captures(samples, decode)| + FailedReads(samples, decode) == |samples|
  {
    if samples != [] {
      ReadsAccounted(samples[..|samples| - 1], decode);
    }
  }

  /** With no failed read, every planned sample is captured, in plan order. */
  lemma {:induction false} NoFailuresCaptureAll<F>(samples: seq<Sample>, decode: int -> Option<F>)
    requires FailedReads(samples, decode) == 0
    ensures |Captures(samples, decode)| == |samples|
    ensures forall k :: 0 <= k < |samples| ==> Captures(samples, decode)[k].sample == samples[k]
  {
    if samples != [] {
      var n := |samples| - 1;
      var prefix := samples[..n];
      NoFailuresCaptureAll(prefix, decode);
      assert forall k :: 0 <= k < n ==> prefix[k] == samples[k];
    }
  }

  predicate CapturesInRunOrder<F>(caps: seq<Capture<F>>) {
    forall j, k :: 0 <= j < k < |caps| ==> Rank(caps[j].sample) < Rank(caps[k].sample)
  }

  /** Skipping failed reads keeps the survivors in run order. */
  lemma {:induction false} CapturesKeepOrder<F>(samples: seq<Sample>, decode: int -> Option<F>)
    requires InRunOrder(samples)
    ensures CapturesInRunOrder(Captures(samples, decode))
  {
    if samples != [] {
      var n := |samples| - 1;
      var prefix := samples[..n];
      CapturesKeepOrder(prefix, decode);
      var before := Captures(prefix, decode);
      CapturesSound(prefix, decode);
      forall k | 0 <= k < |before|
        ensures Rank(before[k].sample) < Rank(samples[n])
      {
        var j :| 0 <= j < n && prefix[j] == before[k].sample;
        assert prefix[j] == samples[j];
      }
    }
  }

  /** The file name of a sample. */
  function SampleName(labels: Labels, s: Sample): string {
    Naming.FileName(s.scene, labels.For(s.pos))
  }

  /** Samples at different places of a run get different file names when the two labels differ. */
  lemma SampleNamesDiffer(labels: Labels, s: Sample, t: Sample)
    requires labels.Distinct() && Rank(s) != Rank(t)
    ensures SampleName(labels, s) != SampleName(labels, t)
  {
    if SampleName(labels, s) == SampleName(labels, t) {
      Naming.FileNameInjective(s.scene, labels.For(s.pos), t.scene, labels.For(t.pos));
    }
  }

  /** The directory `files` after writing each `(name, content)` of `ws` in turn; a later write to a name replaces an earlier one. */
  function Writes<K(==), V>(files: map<K, V>, ws: seq<(K, V)>): map<K, V> {
    if ws == [] then files
    else
      var n := |ws| - 1;
      Writes(files, ws[..n])[ws[n].0 := ws[n].1]
  }

  /** The names written by `ws`. */
  function WrittenNames<K(==), V>(ws: seq<(K, V)>): set<K> {
    if ws == [] then {} else WrittenNames(ws[..|ws| - 1]) + {ws[|ws| - 1].0}
  }

  /** A name is written exactly when some write uses it. */
  lemma {:induction false} WrittenNamesAt<K, V>(ws: seq<(K, V)>)
    ensures forall name :: name in WrittenNames(ws) <==> exists k :: 0 <= k < |ws| && ws[k].0 == name
  {
    if ws != [] {
      var n := |ws| - 1;
      WrittenNamesAt(ws[..n]);
      assert forall k :: 0 <= k < n ==> ws[..n][k] == ws[k];
    }
  }

  /** Writing adds exactly the written names to what the directory already held, and leaves the other files alone. */
  lemma {:induction false} WritesKeys<K, V>(files: map<K, V>, ws: seq<(K, V)>)
    ensures Writes(files, ws).Keys == files.Keys + WrittenNames(ws)
    ensures forall name :: name in files && name !in WrittenNames(ws) ==> Writes(files, ws)[name] == files[name]
  {
    if ws != [] {
      WritesKeys(files, ws[..|ws| - 1]);
    }
  }

  /** A name that no write uses is not among the written names. */
  lemma {:induction false} UnusedNameNotWritten<K, V>(ws: seq<(K, V)>, name: K)
    requires forall k :: 0 <= k < |ws| ==> ws[k].0 != name
    ensures name !in WrittenNames(ws)
  {
    if ws != [] {
      var n := |ws| - 1;
      assert forall k :: 0 <= k < n ==> ws[..n][k] == ws[k];
      UnusedNameNotWritten(ws[..n], name);
    }
  }

  predicate NamesDistinct<K(==), V>(ws: seq<(K, V)>) {
    forall j, k :: 0 <= j < k < |ws| ==> ws[j].0 != ws[k].0
  }

  /** Writes under pairwise different names that are new to the directory add one file each. */
  lemma {:induction false} WritesCount<K, V>(files: map<K, V>, ws: seq<(K, V)>)
    requires NamesDistinct(ws) && WrittenNames(ws) !! files.Keys
    ensures |Writes(files, ws)| == |files| + |ws|
  {
    if ws != [] {
      var n := |ws| - 1;
      var prefix := ws[..n];
      assert forall k :: 0 <= k < n ==> prefix[k] == ws[k];
      WritesCount(files, prefix);
      WritesKeys(files, prefix);
      UnusedNameNotWritten(prefix, ws[n].0);
    }
  }

  /** After writes under pairwise different names, each file holds what was written under its name. */
  lemma {:induction false} WritesContents<K, V>(files: map<K, V>, ws: seq<(K, V)>)
    requires NamesDistinct(ws)
    ensures forall k :: 0 <= k < |ws| ==> ws[k].0 in Writes(files, ws) && Writes(files, ws)[ws[k].0] == ws[k].1
  {
    if ws != [] {
      var n := |ws| - 1;
      var prefix := ws[..n];
      assert forall k :: 0 <= k < n ==> prefix[k] == ws[k];
      WritesContents(files, prefix);
    }
  }

  /** `f` applied to each element of `s`, in order. */
  function Map<A, B>(f: A -> B, s: seq<A>): (r: seq<B>)
    ensures |r| == |s|
  {
    if s == [] then [] else Map(f, s[..|s| - 1]) + [f(s[|s| - 1])]
  }

  lemma {:induction false} MapAt<A, B>(f: A -> B, s: seq<A>)
    ensures forall k :: 0 <= k < |s| ==> Map(f, s)[k] == f(s[k])
  {
    if s != [] {
      var n := |s| - 1;
      MapAt(f, s[..n]);
    }
  }

  lemma MapStep<A, B>(f: A -> B, s: seq<A>, x: A)
    ensures Map(f, s + [x]) == Map(f, s) + [f(x)]
  {
    assert (s + [x])[..|s|] == s;
  }

  lemma {:induction false} MapAppend<A, B>(f: A -> B, a: seq<A>, b: seq<A>)
    ensures Map(f, a + b) == Map(f, a) + Map(f, b)
  {
    if b == [] {
      assert a + b == a;
    } else {
      var n := |b| - 1;
      assert (a + b)[..|a| + n] == a + b[..n];
      MapAppend(f, a, b[..n]);
    }
  }

  /** The naming of the samples under `labels`, as a function. */
  function NameOf(labels: Labels): Sample -> string {
    (s: Sample) => SampleName(labels, s)
  }

  /** The write of one capture: its frame under the name `name` gives its sample. */
  function WriteOf<F>(name: Sample -> string): Capture<F> -> (string, F) {
    (c: Capture<F>) => (name(c.sample), c.frame)
  }

  /** The directory `files` after writing every capture under the name `name` gives its sample. */
  function Stored<F>(files: map<string, F>, caps: seq<Capture<F>>, name: Sample -> string): map<string, F> {
    Writes(files, Map(WriteOf(name), caps))
  }

  /** What a run writes: each capture's frame under its sample's name, in capture order. */
  function FileWrites<F>(caps: seq<Capture<F>>, labels: Labels): seq<(string, F)> {
    Map(WriteOf(NameOf(labels)), caps)
  }

  /** The directory `files` after saving every capture under its sample's file name. */
  function Saved<F>(files: map<string, F>, caps: seq<Capture<F>>, labels: Labels): map<string, F> {
    Stored(files, caps, NameOf(labels))
  }

  /** Captures in run order are written under pairwise different names when the two labels differ. */
  lemma CaptureNamesDistinct<F>(caps: seq<Capture<F>>, labels: Labels)
    requires labels.Distinct() && CapturesInRunOrder(caps)
    ensures NamesDistinct(FileWrites(caps, labels))
  {
    var ws := FileWrites(caps, labels);
    MapAt(WriteOf(NameOf(labels)), caps);
    forall j, k | 0 <= j < k < |ws|
      ensures ws[j].0 != ws[k].0
    {
      SampleNamesDiffer(labels, caps[j].sample, caps[k].sample);
    }
  }

  /** After saving, the directory holds what it held before and the file of every capture, and nothing else. */
  lemma SavedNames<F>(files: map<string, F>, caps: seq<Capture<F>>, labels: Labels)
    ensures forall name :: name in Saved(files, caps, labels) <==>
              name in files || exists k :: 0 <= k < |caps| && name == SampleName(labels, caps[k].sample)
  {
    var ws := FileWrites(caps, labels);
    MapAt(WriteOf(NameOf(labels)), caps);
    WritesKeys(files, ws);
    WrittenNamesAt(ws);
  }

  /**
   * Captures in run order, written into an empty directory under labels that
   * differ: one file per capture, holding that capture's frame, and no other file.
   */
  lemma SavedOnePerCapture<F>(caps: seq<Capture<F>>, labels: Labels)
    requires labels.Distinct() && CapturesInRunOrder(caps)
    ensures var files := Saved(map[], caps, labels);
            && files.Keys == WrittenNames(FileWrites(caps, labels))
            && (forall name :: name in files <==>
                  exists k :: 0 <= k < |caps| && name == SampleName(labels, caps[k].sample))
            && |files| == |caps|
            && forall k :: 0 <= k < |caps| ==>
                 var name := SampleName(labels, caps[k].sample);
                 name in files && files[name] == caps[k].frame
  {
    var ws := FileWrites(caps, labels);
    MapAt(WriteOf(NameOf(labels)), caps);
    CaptureNamesDistinct(caps, labels);
    WritesKeys(map[], ws);
    WritesCount(map[], ws);
    WritesContents(map[], ws);
    SavedNames(map[], caps, labels);
    forall k | 0 <= k < |caps|
      ensures SampleName(labels, caps[k].sample) == ws[k].0
    {
    }
  }

  /**
   * A whole run into an empty directory: one file per successful read, so
   * twice the number of scenes less the failed reads, and the files follow
   * the plan's order of scenes and samples.
   */
  lemma RunArtifacts<F>(scenes: seq<Scene>, decode: int -> Option<F>, labels: Labels)
    requires labels.Distinct()
    ensures var caps := Captures(AllSamples(scenes), decode);
            && CapturesInRunOrder(caps)
            && |Saved(map[], caps, labels)| == |caps| == 2 * |scenes| - FailedReads(AllSamples(scenes), decode)
  {
    var samples := AllSamples(scenes);
    var caps := Captures(samples, decode);
    AllSamplesInRunOrder(scenes);
    CapturesKeepOrder(samples, decode);
    ReadsAccounted(samples, decode);
    SavedOnePerCapture(caps, labels);
  }

  /** Planning one more scene appends its two samples. */
  lemma AllSamplesStep(scenes: seq<Scene>, i: nat)
    requires i < |scenes|
    ensures AllSamples(scenes[..i + 1]) == AllSamples(scenes[..i]) + PlanScene(i, scenes[i])
  {
    assert scenes[..i + 1][..i] == scenes[..i];
  }

  lemma FramesStep(samples: seq<Sample>, s: Sample)
    ensures Frames(samples + [s]) == Frames(samples) + [s.frame]
  {
    assert (samples + [s])[..|samples|] == samples;
  }

  /** Reading one more sample adds a capture exactly when the read succeeds. */
  lemma CapturesStep<F>(samples: seq<Sample>, s: Sample, decode: int -> Option<F>)
    ensures Captures(samples + [s], decode) ==
            Captures(samples, decode) + (if decode(s.frame).Some? then [Capture(s, decode(s.frame).value)] else [])
  {
    assert (samples + [s])[..|samples|] == samples;
  }

  /**
   * Reading one sample: a successful read gives one capture, saved under the
   * sample's name; a failed read gives nothing and saves nothing.
   */
  lemma ReadOne<F>(files: map<string, F>, s: Sample, decode: int -> Option<F>, name: Sample -> string)
    ensures var read := decode(s.frame);
            && Captures([s], decode) == (if read.Some? then [Capture(s, read.value)] else [])
            && Stored(files, Captures([s], decode), name) ==
               if read.Some? then files[name(s) := read.value] else files
  {
    CapturesStep([], s, decode);
    assert [] + [s] == [s];
    if decode(s.frame).Some? {
      var c := Capture(s, decode(s.frame).value);
      StoredStep(files, [], c, name);
      assert [] + [c] == [c];
    }
  }

  /** Reading the samples up to `j` and then sample `j` is reading the samples up to `j + 1`. */
  lemma ReadStep<F>(files: map<string, F>, samples: seq<Sample>, j: nat, decode: int -> Option<F>, name: Sample -> string)
    requires j < |samples|
    ensures Frames(samples[..j + 1]) == Frames(samples[..j]) + [samples[j].frame]
    ensures Captures(samples[..j + 1], decode) == Captures(samples[..j], decode) + Captures([samples[j]], decode)
    ensures Stored(files, Captures(samples[..j + 1], decode), name) ==
            Stored(Stored(files, Captures(samples[..j], decode), name), Captures([samples[j]], decode), name)
  {
    var s := samples[j];
    assert samples[..j + 1] == samples[..j] + [s];
    FramesStep(samples[..j], s);
    CapturesAppend(samples[..j], [s], decode);
    StoredAppend(files, Captures(samples[..j], decode), Captures([s], decode), name);
  }

  /** Storing one more capture writes its frame under its sample's name. */
  lemma StoredStep<F>(files: map<string, F>, caps: seq<Capture<F>>, c: Capture<F>, name: Sample -> string)
    ensures Stored(files, caps + [c], name) == Stored(files, caps, name)[name(c.sample) := c.frame]
  {
    assert (caps + [c])[..|caps|] == caps;
    var ws := Map(WriteOf(name), caps);
    var w := (name(c.sample), c.frame);
    assert Map(WriteOf(name), caps + [c]) == ws + [w];
    assert (ws + [w])[..|ws|] == ws;
  }

  lemma FramesAppend(a: seq<Sample>, b: seq<Sample>)
    ensures Frames(a + b) == Frames(a) + Frames(b)
  {
    assert forall k :: 0 <= k < |a| + |b| ==> (a + b)[k].frame == (Frames(a) + Frames(b))[k];
  }

  /** Reading two runs of samples one after the other captures what each captures, in that order. */
  lemma {:induction false} CapturesAppend<F>(a: seq<Sample>, b: seq<Sample>, decode: int -> Option<F>)
    ensures Captures(a + b, decode) == Captures(a, decode) + Captures(b, decode)
  {
    if b == [] {
      assert a + b == a;
    } else {
      var n := |b| - 1;
      assert (a + b)[..|a| + n] == a + b[..n];
      CapturesAppend(a, b[..n], decode);
    }
  }

  /** Writing `w1` and then `w2` is writing `w1 + w2`. */
  lemma {:induction false} WritesAppend<K, V>(files: map<K, V>, w1: seq<(K, V)>, w2: seq<(K, V)>)
    ensures Writes(files, w1 + w2) == Writes(Writes(files, w1), w2)
  {
    if w2 == [] {
      assert w1 + w2 == w1;
    } else {
      var n := |w2| - 1;
      assert (w1 + w2)[..|w1| + n] == w1 + w2[..n];
      WritesAppend(files, w1, w2[..n]);
    }
  }

  /** Storing two runs of captures one after the other is storing them together. */
  lemma StoredAppend<F>(files: map<string, F>, c1: seq<Capture<F>>, c2: seq<Capture<F>>, name: Sample -> string)
    ensures Stored(files, c1 + c2, name) == Stored(Stored(files, c1, name), c2, name)
  {
    MapAppend(WriteOf(name), c1, c2);
    WritesAppend(files, Map(WriteOf(name), c1), Map(WriteOf(name), c2));
  }
}
