# Shot keyframes and storyboard — a Dafny model

This project models the keyframe pipeline of a small video tool. The tool has two entry points:

- `extract_and_combine` in get_frames.py, a script;
- the analysis run in app.py, a Streamlit page.

Both take the scene list reported by a shot-boundary detector and sample every scene twice: at its first frame `start`, then at `end - 1`, the frame before its exclusive end. Each sample is sought and read from the video decoder. A failed read is skipped. Each frame that is read is saved in an output directory as `shot_<NNN>_<label>.jpg`. `NNN` is the 1-based scene number padded with zeros to three digits. The labels are `start`/`end` in get_frames.py and `开始帧`/`结束帧` ("start frame"/"end frame") in app.py.

The two entry points differ in three ways:

- get_frames.py creates the directory only when it is missing, so files from earlier runs stay.
- get_frames.py also collects a captioned thumbnail per frame read. When there is at least one thumbnail, it lays them out four to a row as a contact sheet, padding the last row with blank tiles.
- app.py removes and recreates the directory before the run. When the detector finds no scene, it only shows a warning.

Modules:

- `Wrappers`: `Option`.
- `Naming`:
  - the decimal numeral of a number (`str(n)`) and its `{n:03d}` padding;
  - the file name;
  - `ParseFileName`, which reads a name back. The round-trip lemma proves that names are injective.
- `Keyframes`: the scene planner, and the specification of a run as functions:
  - `AllSamples`, the samples planned;
  - `Frames`, the indices sought;
  - `Captures`, the successful reads;
  - `Saved`, the directory after the writes, as a `map` from file name to frame.
- `Workspace`: the output directory as a class. It has a `present` flag and a `files` map, changed by `EnsureExists` (`os.makedirs` if missing), `Recreate` (`shutil.rmtree` + `os.makedirs`) and `Write` (`cv2.imwrite`).
- `Storyboard`: the row count, the padding `while` loop and the row-cutting `for` loop of the contact sheet. Tiles are opaque values. A row is a sequence of tiles (`np.hstack`) and the grid is a sequence of rows (`np.vstack`).
- `GetFrames` and `App`: the two entry points as methods with nested loops. The inner loop over a scene's two samples is a method of its own (`ReadScene`, `SaveScene`), and so is one pass of it (`ReadSample`, `SaveSample`). These take the file naming and the thumbnail as function parameters. The runs pass `NameOf(labels)`, which gives `shot_<NNN>_<label>.jpg`, and `ThumbnailOf(labels)`. `Stored` is the directory after writes under any naming, and `Saved` is `Stored` under the file names.

The decoder is a parameter `decode: int -> Option<F>`. It answers a seek to a frame index followed by a read, with `None` when the read fails. Frames are values of a type parameter `F`. Both entry points also return `seeks`: the frame indices requested from the decoder, in order.

## Model

| member | source | states |
|---|---|---|
| Naming.DecimalNumeral | get_frames.py:33 | `str(n)`: a non-empty string of digits whose value is `n`, with no leading zero unless `n` is 0, and at most three digits below 1000 |
| Naming.PadLeftNumeral | get_frames.py:27 | padding a numeral with zeros in front keeps its value and reaches the width exactly. A numeral already that wide is left as it is, so nothing is truncated |
| Naming.Pad3Numeral | get_frames.py:27 | `{n:03d}`: digits whose value is `n`; at least three of them, exactly three below 1000; never truncated, and no extra leading zero beyond width 3 |
| Naming.FileNameShape | get_frames.py:27 | a file name is `shot_`, then at least three digits whose value is the 1-based scene number (exactly three below scene 1000), then `_`, the label and `.jpg` |
| Naming.FileNameRoundTrip | get_frames.py:27 | parsing the name of (scene, label) gives back exactly (scene, label) |
| Naming.FileNameInjective | app.py:77 | two (scene, label) pairs share a file name only if they are equal |
| Keyframes.PlanScene | get_frames.py:19-22 | a scene gives exactly two samples, `start` and then `end - 1`, both tagged with the scene. When the scene is not empty, both lie in `[start, end)` |
| Keyframes.AllSamplesAt | app.py:65-72 | samples `2i` and `2i+1` of a run are the start and end samples of scene `i` |
| Keyframes.PlannedFrames | get_frames.py:18-23 | the decoder is asked for `2N` indices: for scene `i`, its `start` at position `2i` and `end - 1` at position `2i+1` |
| Keyframes.AllSamplesInRunOrder | get_frames.py:18-22 | the planned samples follow the scenes in order, the start sample of a scene before its end sample |
| Keyframes.Captures | get_frames.py:23-25 | never more captures than samples |
| Keyframes.CapturesSound | get_frames.py:22-25 | every capture is of a planned sample, and its frame is exactly what the read at that sample's index returned |
| Keyframes.CapturesComplete | get_frames.py:22-25 | every sample whose read succeeds is captured, with exactly the frame the read returned |
| Keyframes.ReadsAccounted | get_frames.py:24-25 | every sample is either captured or counted as a failed read, never both |
| Keyframes.NoFailuresCaptureAll | app.py:73-75 | with no failed read, every sample is captured, in plan order |
| Keyframes.CapturesKeepOrder | get_frames.py:18-25 | skipping failed reads keeps the remaining captures in run order |
| Keyframes.SampleNamesDiffer | get_frames.py:22-27 | when the two labels differ, samples at different places of a run get different file names |
| Keyframes.WritesKeys | get_frames.py:28 | writing files adds exactly the written names to the directory; every other file keeps its contents |
| Keyframes.WritesContents | get_frames.py:28 | after writes under pairwise different names, each name holds what was written under it |
| Keyframes.ReadOne | get_frames.py:23-28 | reading one sample gives one capture, saved under the sample's name, exactly when the read succeeds. A failed read captures and saves nothing |
| Keyframes.ReadStep | app.py:72-79 | reading the samples before `j` and then sample `j` seeks, captures and saves the same as reading the samples up to `j` together |
| Keyframes.StoredAppend | get_frames.py:18-28 | saving two runs of captures one after the other gives the same directory as saving them together |
| Keyframes.SavedNames | app.py:77-79 | after saving, the directory holds exactly its earlier files plus the file of each capture |
| Keyframes.CaptureNamesDistinct | app.py:77-78 | captures in run order are saved under pairwise different names when the labels differ |
| Keyframes.SavedOnePerCapture | get_frames.py:27-28 | in an empty directory: one file per capture holding that capture's frame, and no other file |
| Keyframes.RunArtifacts | get_frames.py:18-28 | a run into an empty directory leaves `2N - failed reads` files; the captures follow the plan's order |
| Storyboard.RowCount | get_frames.py:43-44 | `(n + 3) // 4` is enough rows for `n` tiles, and one row fewer is not |
| Storyboard.RowCountUnique | get_frames.py:44 | only one row count meets both bounds, so the row count is the ceiling of `n / 4` |
| Storyboard.Padded | get_frames.py:46-48 | padding gives exactly `rows * 4` tiles. Every tile keeps its position, and fewer than 4 blanks are added, only at the end |
| Storyboard.Chunks | get_frames.py:51-53 | row `r` is the slice `[4r, 4r + 4)`, and the rows cover the padded list |
| Storyboard.ChunksConcat | get_frames.py:51-54 | the rows, put back one after the other, give the padded list |
| Storyboard.LayoutShape | get_frames.py:43-54 | the grid has `ceil(n / 4)` rows of 4 tiles, and read row after row it gives the padded tiles |
| Storyboard.LayoutCell | get_frames.py:43-54 | tile `k` sits in row `k / 4`, column `k % 4` |
| Storyboard.FiveTiles | get_frames.py:43-54 | five tiles give two rows; the second holds the fifth tile and three blanks |
| Storyboard.Compose | get_frames.py:43-53 | the `while` padding loop and the row `for` loop build exactly the layout of the tiles |
| Workspace.Directory.EnsureExists | get_frames.py:7-8 | the directory exists afterwards and keeps every file it held |
| Workspace.Directory.Recreate | app.py:45-47 | the directory exists afterwards and is empty, whether or not it existed before |
| Workspace.Directory.Write | get_frames.py:28 | a write stores the frame under its name and replaces any file of that name. Nothing else changes |
| GetFrames.CollectedTiles | get_frames.py:22-35 | one thumbnail per successful read, so at most `2N`. Thumbnail `k` shows capture `k`'s frame captioned `Shot <scene+1> <label>`, and the thumbnails follow scene and sample order. Every successful read of a planned sample is among the captures, so it has its thumbnail |
| GetFrames.SavedFiles | get_frames.py:18-28 | from an empty or missing directory: one file per successful read, each holding its frame under a different name |
| GetFrames.EarlierFilesKept | get_frames.py:7-8 | files already in the directory stay; those whose names the run does not write keep their contents |
| GetFrames.ReadSample | get_frames.py:23-35 | one sample: a successful read saves the frame under the sample's name and yields one thumbnail. A failed read changes nothing and yields none |
| GetFrames.ReadScene | get_frames.py:19-35 | for one scene: seeks `start` then `end - 1`, saves each frame read under its name and collects its thumbnail, in that order |
| GetFrames.ExtractAndCombine | get_frames.py:6-57 | seeks every planned index in order. The directory exists afterwards and holds its earlier files updated with every frame read. The storyboard is absent when nothing was read, otherwise it is the layout of the collected thumbnails |
| App.SaveSample | app.py:73-79 | one sample: a successful read saves the frame under the sample's name; a failed read changes nothing |
| App.SaveScene | app.py:66-79 | for one scene: seeks `start` then `end - 1` and saves each frame read under its name, in that order |
| App.RunAnalysis | app.py:45-79 | the directory is recreated empty. A warning is returned exactly when the scene list is empty, and then nothing is sought or written. Otherwise every planned index is sought in order and the directory ends holding only the frames this run read |
| App.RunFiles | app.py:65-79 | after a run the directory holds one file per successful read: `2N - failed reads` files, `2N` when no read fails. Each holds its frame under its own name, and no other file is present |

## Left out

- The Streamlit page is not modelled: configuration, styling, uploader, buttons, the scene headings, the two display columns, the `st.image` captions, the progress bar, the balloons and the info box. It is presentation only.
- Scene detection (app.py:56, get_frames.py:11) is an external library; its scene list is an input.
- Empty scenes are not excluded. As in the code, a scene with `start == end` has its second sample at `end - 1 = start - 1`, a frame before the scene (frame `-1` when `end` is 0).
- The decoder (`cv2.VideoCapture`, `set`, `read`, `release`) is the `decode` oracle.
- Image operations are not modelled:
  - `resize` and `putText` become a `Thumbnail` value carrying the frame and its caption;
  - `np.zeros_like` becomes a `Blank` tile;
  - pixel data and `hstack`/`vstack` are not modelled.
- Saved files hold the frame value itself; JPEG encoding is not modelled.
- `final_storyboard.jpg` is written to the working directory, not the output directory. It is modelled as the returned `storyboard` grid, `None` when nothing was collected.
- Workspace.Directory.Write: writing into a missing directory leaves it unchanged. `cv2.imwrite` fails there, but no run reaches that case.
- The temporary video file (app.py:39-40), the zip archive and the download button (app.py:94-101) are file-system plumbing.
- Console output of get_frames.py is not modelled.
- The catch-all exception handler (app.py:102-103) is not modelled. The decoder and the file system never raise in this model.
- The `__main__` driver of get_frames.py (lines 60-66) is not modelled.
- Each scene is sampled twice (first frame, last frame), as both files do. Sampling more frames per scene, such as two extra frames inside the scene, is not modelled, since neither file does it.
- Only app.py empties the output directory before a run. get_frames.py never empties it, so files of earlier runs stay. The model follows the code, and `GetFrames.EarlierFilesKept` states what survives.
