# PodcastReviewer core, modelled in Dafny

PodcastReviewer is an Android app for reviewing a podcast recording. It plays an MP3 file. While
the user holds the mark button it pauses playback and records a short spoken note. It keeps a
one-line label file for the last mark. On request it packs every note into a zip archive in the
Downloads directory. A file picker lists the MP3 files of a directory.

This project models the sequential logic under those event handlers:

- A directory is a finite map from file names to bytes.
- The media player is an integer millisecond position and a "started" flag.
- The recorder is a "prepared" flag, a "recording" flag and the name of its output file.

Modules:

- `Basics`: bytes and `Option`.
- `Text`: decimal rendering of integers as `Int32.ToString()` writes them, with its inverse; ASCII text as UTF-8 bytes.
- `Paths`: `Path.GetExtension`, `Path.GetFileNameWithoutExtension` and `Path.ChangeExtension` on a bare file name.
- `Probe`: the shape shared by the two "probe until unused" loops, and why they stop.
- `Annotation`: the clip name chosen on mark-down and the label line.
- `Export`: the archive name, the 4096-byte copy loop, the archive entries and extracting them.
- `Activity`: class `MainActivity`, the transport and mark state machine, saving and clearing results.
- `FileList`: class `FileListFragment`, the refresh of the list and the hand-off of the chosen file.

Behaviour the contracts make visible:

- `label.txt` is rewritten on every mark-down, so it only ever holds the last mark's line. `new StreamWriter(path)` truncates the file.
- The clip probes are `<p>.mp3`, `<p>_0.mp3`, `<p>_1.mp3`, and so on. The archive probes are `<base>.zip`, `<base>_1.zip`, and so on, so their first suffix is 1.
- The archive probes go through `ChangeExtension`. When the base name contains a '.', every probe is the same name. If that name already exists, the loop never ends. `SaveResults` therefore requires that the base has no '.' or that its first probe is free, and `Export.DottedBaseNeverFree` proves the other case.
- `Play` does not start the position timer. After a mark (down stops the timer, up calls `Play`) the player runs with the timer stopped, as `MainActivity.MarkGesture` states.
- When listing fails before any listing has succeeded, the error path reads `_directory.FullName` while `_directory` is still null. The model reports this as `NullDirectoryFault`.

## Model

| member | source | states |
|---|---|---|
| `Annotation.ChooseClipName` | src/PodcastReviewer/App/MainActivity.cs:94-101 | the clip name is not an existing file, is the first free probe among `<p>.mp3`, `<p>_0.mp3`, `<p>_1.mp3`, ..., and is found within as many probes as there are files |
| `Annotation.ClipCandidatesDistinct` | src/PodcastReviewer/App/MainActivity.cs:95-100 | different probes name different files, which is why the loop ends |
| `Annotation.ClipCandidateNotLabel` | src/PodcastReviewer/App/MainActivity.cs:94-105 | no clip probe is named `label.txt`, so the empty clip never overwrites the label file |
| `Annotation.FirstFreeClipUnique` | src/PodcastReviewer/App/MainActivity.cs:94-101 | the chosen clip is determined by the position and the files present |
| `Annotation.RepeatedMarkAdvances` | src/PodcastReviewer/App/MainActivity.cs:94-101 | a second mark at the same position, with the first clip present, takes a later probe |
| `Annotation.TwoMarksAtOnePosition` | src/PodcastReviewer/App/MainActivity.cs:95-100 | with no clips for the position yet, two marks there create `<p>.mp3` and then `<p>_0.mp3` |
| `Annotation.SecondsF6RoundTrip` | src/PodcastReviewer/App/MainActivity.cs:103-107 | the `F6` text of `ms / 1000.0` reads back as exactly `ms` thousandths of a second |
| `Annotation.LabelLineIsOneLine` | src/PodcastReviewer/App/MainActivity.cs:105-108 | the label line is ASCII with no line break, so `label.txt` holds exactly one line |
| `Annotation.LabelFileContents` | src/PodcastReviewer/App/MainActivity.cs:105-108 | the file holds the UTF-8 bytes of the line plus one line break |
| `Annotation.LabelFileReadsBack` | src/PodcastReviewer/App/MainActivity.cs:105-108 | the bytes of `label.txt`, read back as text, are the label line and one line break |
| `Annotation.LabelLineExample` | src/PodcastReviewer/App/MainActivity.cs:107 | a mark at 12345 ms writes `12.345000\t12.345000\tNote` |
| `Text.NatToString` | src/PodcastReviewer/App/MainActivity.cs:95 | an integer is rendered as decimal digits with no leading zero |
| `Text.ParseNatToString` | src/PodcastReviewer/App/MainActivity.cs:100 | reading the rendered digits back gives the number |
| `Probe.TriedCount` | src/PodcastReviewer/App/MainActivity.cs:98-101 | with pairwise distinct probes, the first k probes are k different names and the next probe is not among them |
| `Export.ChooseArchiveName` | src/PodcastReviewer/App/MainActivity.cs:229-237 | under its termination condition, the archive name is not an existing file, is the first free probe, and is found within as many probes as there are files |
| `Export.ArchiveCandidateOfUndotted` | src/PodcastReviewer/App/MainActivity.cs:231-236 | for a base without '.', the probes are `<base>.zip`, `<base>_1.zip`, `<base>_2.zip`, ... |
| `Export.ArchiveCandidatesDistinct` | src/PodcastReviewer/App/MainActivity.cs:231-236 | for a base without '.', different probes name different archives |
| `Export.DottedBaseCollapses` | src/PodcastReviewer/App/MainActivity.cs:231-236 | for a base with '.', every probe equals the first one |
| `Export.DottedBaseNeverFree` | src/PodcastReviewer/App/MainActivity.cs:233-237 | for a base with '.' whose first probe exists, no probe is ever free, so the loop does not end |
| `Export.Read` | src/PodcastReviewer/App/MainActivity.cs:256 | a read fills the buffer with the next 1 to 4096 bytes of the file, or returns 0 exactly at the end |
| `Export.CopyStream` | src/PodcastReviewer/App/MainActivity.cs:250-259 | the chunks written to the entry concatenate to the whole file, whatever sizes the reads return |
| `Export.ZipFiles` | src/PodcastReviewer/App/MainActivity.cs:243-262 | the archive gets one entry per listed file, built by the copy loop |
| `Export.EntriesAt` | src/PodcastReviewer/App/MainActivity.cs:245-262 | entry i is named by listed file i and holds that file's bytes, in listing order |
| `Export.ArchiveRestoresDirectory` | src/PodcastReviewer/App/MainActivity.cs:243-262 | when the listing names every file, extracting the archive gives back the directory |
| `Paths.Mp3ExtensionIffSuffix` | src/PodcastReviewer/App/FileListFragment.cs:56 | a name's extension is ".mp3" exactly when the name ends in ".mp3" |
| `Paths.UpperCaseMp3Rejected` | src/PodcastReviewer/App/FileListFragment.cs:56 | ".MP3" is not ".mp3": the comparison is ordinal and case-sensitive |
| `Paths.ChangeExtensionRoundTrip` | src/PodcastReviewer/App/MainActivity.cs:231 | `ChangeExtension` gives a name with the new extension and the same stem |
| `Paths.ChangeExtensionDropsTail` | src/PodcastReviewer/App/MainActivity.cs:236 | once a name has a '.', `ChangeExtension` cuts off anything without '.' appended to it |
| `Activity.ResumePosition` | src/PodcastReviewer/App/MainActivity.cs:123-127 | playback resumes at most 500 ms before the mark, never after it and never below 0 |
| `Activity.SeekBarConversions` | src/PodcastReviewer/App/MainActivity.cs:134-137 | seeking to progress p reads back p; shown progress is the position rounded down to a second; positions and the bar maximum agree |
| `Activity.MainActivity.constructor` | src/PodcastReviewer/App/MainActivity.cs:34-85 | the start state: buttons disabled, timer stopped, recorder unprepared, name `Unknown.mp3` |
| `Activity.MainActivity.Play` | src/PodcastReviewer/App/MainActivity.cs:139-145 | the player runs, play is disabled, pause is enabled, the timer is untouched |
| `Activity.MainActivity.Pause` | src/PodcastReviewer/App/MainActivity.cs:154-162 | the player pauses, play is enabled, pause is disabled, the timer stops |
| `Activity.MainActivity.Start` | src/PodcastReviewer/App/MainActivity.cs:164-172 | like `Play`, and the timer runs |
| `Activity.MainActivity.Complete` | src/PodcastReviewer/App/MainActivity.cs:147-152 | the position returns to 0, then the `Pause` state |
| `Activity.MainActivity.ProgressChanged` | src/PodcastReviewer/App/MainActivity.cs:134-137 | dragging to progress p seeks to p * 1000 ms |
| `Activity.MainActivity.UpdatePosition` | src/PodcastReviewer/App/MainActivity.cs:174-185 | the seek bar shows the whole seconds played |
| `Activity.MainActivity.MarkButtonTouch` | src/PodcastReviewer/App/MainActivity.cs:87-132 | down: paused with both buttons off, a fresh first-free clip, `label.txt` rewritten to hold exactly the mark's line, the recorder prepared at most once and recording; up: recording stops, the position is the resume position, the `Play` state |
| `Activity.MainActivity.MarkGesture` | src/PodcastReviewer/App/MainActivity.cs:87-131 | a press and release leaves the player running at the resume position with the timer stopped; the clip is the first free probe, so it is a new file and never `label.txt`; `label.txt` holds exactly the mark's line |
| `Activity.MainActivity.SaveResults` | src/PodcastReviewer/App/MainActivity.cs:227-263 | given the complete listing of the results directory, each file once: the archive goes to a fresh first-free name in Downloads, nothing existing is overwritten, and it holds one entry per file, so extracting it gives back the results directory |
| `Activity.MainActivity.TwoMarksAtStart` | src/PodcastReviewer/App/MainActivity.cs:89-118 | two marks at position 0 in an empty results directory record `0.mp3` and then `0_0.mp3`; the `label.txt` written by the first mark does not disturb the second |
| `Activity.UnknownArchives` | src/PodcastReviewer/App/MainActivity.cs:229-237 | before a file is picked, the first two archives are `Unknown.zip` and `Unknown_1.zip` |
| `Activity.MainActivity.SaveTwice` | src/PodcastReviewer/App/MainActivity.cs:227-263 | two saves before a file is picked write `Unknown.zip` and then `Unknown_1.zip` |
| `Activity.MainActivity.ClearResults` | src/PodcastReviewer/App/MainActivity.cs:204-215 | after "Yes", the results directory is empty |
| `FileList.ListedIff` | src/PodcastReviewer/App/FileListFragment.cs:55-56 | an entry is kept iff it is visible, is a file and its name ends in ".mp3" |
| `FileList.VisibleMp3sCounts` | src/PodcastReviewer/App/FileListFragment.cs:55-59 | every kept entry passes the filter; a passing entry is kept exactly as often as it is enumerated |
| `FileList.VisibleMp3sInOrder` | src/PodcastReviewer/App/FileListFragment.cs:55-59 | kept entries appear in enumeration order |
| `FileList.FileListFragment.constructor` | src/PodcastReviewer/App/FileListFragment.cs:23-28 | the adapter starts empty and `_directory` starts null |
| `FileList.FileListFragment.RefreshFilesList` | src/PodcastReviewer/App/FileListFragment.cs:48-77 | on success: `_directory` is the requested directory and the adapter holds exactly the filtered list; on failure: both unchanged, with a null-reference fault if no refresh has succeeded yet |
| `FileList.FileListFragment.OnListItemClick` | src/PodcastReviewer/App/FileListFragment.cs:30-40 | choosing item i returns Ok with item i's full name and finishes the picker |

## Left out

- The Android lifecycle and UI: `OnCreate` beyond the start state, permission requests, `OnPause`, `OnStop`, menu inflation, dialogs, toasts, logging and `ListView` redrawing.
- `OnActivityResult` (loading the picked file into the player) and `FilePickerActivity`, which only sets a layout. The model's `fileName` starts as `Unknown.mp3` and nothing sets it.
- Playback advancing the position: the player's position changes only by seeks. Decoding, wake locks and media load errors are not modelled.
- `MediaPlayer` and `MediaRecorder` call-order errors. On Android a recorder must be configured and prepared again after `Stop`, so a second mark would fail at `SetOutputFile`; the model keeps the recorder as two flags and a file name. The recorded audio is not modelled: the clip appears as an empty file when recording starts.
- The timer thread, `RunOnUiThread` and the time text. `UpdatePosition` only sets the seek bar. Android also reports programmatic seek-bar changes to `ProgressChanged`; that re-entry is not modelled.
- Culture: `F6` writes the current culture's decimal separator; the model writes '.'.
- Integer width: positions, progress and `progress * 1000` are unbounded integers, so 32-bit overflow is not modelled.
- I/O failures: a failed save leaves a partial archive and a failed delete is reported; neither is modelled. Zip compression and the zip format are not modelled: an archive is its list of entries.
- Directory paths and `Path.Combine`: only file names are modelled. With an empty base name the source's `Path.Combine(path, "")` is the Downloads path itself, and the archive lands next to that directory; this is not modelled. `File.Exists` ignores subdirectories; a directory here holds files only.
- The order of `Directory.GetFiles` and `GetFileSystemInfos` comes from the file system: it is a parameter of `SaveResults`, `ClearResults` and `RefreshFilesList`.
- `FileListAdapter`, `IsVisible` and `IsFile` are not part of this model. The adapter is taken to show exactly the list it last received, in order; `IsVisible` and `IsFile` are booleans of each entry.
