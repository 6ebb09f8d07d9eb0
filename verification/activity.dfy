/** The main activity: transport buttons, the position timer, the player, the recorder
    and the two directories the activity writes. The player is its millisecond position
    and whether it is started; the recorder is whether it is prepared and recording and
    which file it records to; a directory is a map from file names to bytes. */
module Activity {
  import opened Basics
  import opened Paths
  import opened Text
  import Annotation
  import Export

  /** The touch events the mark button distinguishes. */
  datatype TouchAction = Down | Up | Other

  /** A file of the public downloads directory: any file, or an archive written by
      `SaveResults`. */
  datatype DownloadsFile = Plain(data: seq<byte>) | Archive(entries: seq<Export.ZipEntry>)

  /** The name `_fileName` holds before a file is picked. */
  const UnknownFileName := "Unknown.mp3"

  /** Where playback resumes after a mark: half a second before it, but not before 0. */
  function ResumePosition(mark: nat): (r: nat)
    ensures r <= mark && mark - r <= 500
    ensures r == 0 || mark - r == 500
  {
    if mark - 500 < 0 then 0 else mark - 500
  }

  /** The seek bar counts whole seconds: progress `p` is `p * 1000` ms. */
  function ProgressToMs(progress: nat): nat {
    progress * 1000
  }

  /** The progress shown for a position: its whole seconds. */
  function ProgressOf(ms: nat): nat {
    ms / 1000
  }

  /** The seek bar's maximum for a file of `duration` ms. */
  function SeekBarMax(duration: nat): nat {
    duration / 1000
  }

  /** Seeking to progress `p` reads back `p`; the shown progress is the position rounded
      down to a second; every position of the file fits the bar and every progress of
      the bar is a position of the file. */
  lemma SeekBarConversions(progress: nat, ms: nat, duration: nat)
    ensures ProgressOf(ProgressToMs(progress)) == progress
    ensures ProgressToMs(ProgressOf(ms)) <= ms < ProgressToMs(ProgressOf(ms)) + 1000
    ensures ms <= duration ==> ProgressOf(ms) <= SeekBarMax(duration)
    ensures progress <= SeekBarMax(duration) ==> ProgressToMs(progress) <= duration
  {
  }

  /** Before a file is picked, archives are named after "Unknown", which has no '.'. */
  lemma UnknownBase()
    ensures FileNameWithoutExtension(UnknownFileName) == "Unknown" && '.' !in "Unknown"
  {
    var i := LastIndexOf(UnknownFileName, '.');
    assert UnknownFileName[7] == '.' && UnknownFileName[8..] == "mp3";
    assert i == 7;
    assert UnknownFileName[..7] == "Unknown";
  }

  /** The first two archives saved under "Unknown" are `Unknown.zip` and `Unknown_1.zip`. */
  lemma UnknownArchives(taken: set<string>, k: nat)
    requires taken == {} || taken == {"Unknown.zip"}
    requires Export.FirstFreeArchive("Unknown", taken, k)
    ensures Export.ArchiveCandidate("Unknown", k) == if taken == {} then "Unknown.zip" else "Unknown_1.zip"
  {
    Export.ArchiveCandidateOfUndotted("Unknown", 0);
    Export.ArchiveCandidateOfUndotted("Unknown", 1);
    assert NatToString(1) == "1";
    assert "Unknown" + ".zip" == "Unknown.zip";
    assert "Unknown" + "_" + "1" + ".zip" == "Unknown_1.zip";
    if taken == {} {
      assert k == 0;
    } else {
      assert k != 0;
    }
  }

  class MainActivity {
    var playEnabled: bool                       // _playButton.Enabled
    var pauseEnabled: bool                      // _pauseButton.Enabled
    var timerRunning: bool                      // _timer started
    var recorderPrepared: bool                  // _recorderPrepeared
    ghost var prepareCalls: nat                 // how often _recorder.Prepare() ran
    var position: nat                           // _player.CurrentPosition, in ms
    var playing: bool                           // _player started and not paused
    var recording: bool                         // _recorder started and not stopped
    var recorderOutput: string                  // last _recorder.SetOutputFile name
    var seekProgress: nat                       // _seekBar.Progress
    var fileName: string                        // file-name part of _fileName
    var results: map<string, seq<byte>>         // the personal folder: clips and label.txt
    var downloads: map<string, DownloadsFile>   // the public downloads directory

    /** The recorder is prepared once, and only a prepared recorder records. */
    ghost predicate Valid()
      reads this
    {
      && prepareCalls <= 1
      && (recorderPrepared <==> prepareCalls == 1)
      && (recording ==> recorderPrepared)
    }

    /** The state `OnCreate` leaves: buttons disabled, timer stopped, nothing prepared. */
    constructor (results: map<string, seq<byte>>, downloads: map<string, DownloadsFile>)
      ensures Valid()
      ensures !playEnabled && !pauseEnabled && !timerRunning
      ensures !recorderPrepared && prepareCalls == 0 && !recording
      ensures position == 0 && !playing && seekProgress == 0
      ensures fileName == UnknownFileName
      ensures this.results == results && this.downloads == downloads
    {
      playEnabled, pauseEnabled, timerRunning := false, false, false;
      recorderPrepared, prepareCalls, recording := false, 0, false;
      position, playing, seekProgress := 0, false, 0;
      recorderOutput := "";
      fileName := UnknownFileName;
      this.results, this.downloads := results, downloads;
    }

    /** The play button: start the player; play off, pause on; the timer is left as is. */
    method Play()
      requires Valid()
      modifies this`playing, this`playEnabled, this`pauseEnabled
      ensures Valid()
      ensures playing && !playEnabled && pauseEnabled
    {
      playing := true;
      playEnabled := false;
      pauseEnabled := true;
    }

    /** The pause button: pause the player; play on, pause off; timer stopped. */
    method Pause()
      requires Valid()
      modifies this`playing, this`playEnabled, this`pauseEnabled, this`timerRunning
      ensures Valid()
      ensures !playing && playEnabled && !pauseEnabled && !timerRunning
    {
      playing := false;
      playEnabled := true;
      pauseEnabled := false;
      timerRunning := false;
    }

    /** Starting a freshly opened file: like `Play`, and the timer runs. */
    method Start()
      requires Valid()
      modifies this`playing, this`playEnabled, this`pauseEnabled, this`timerRunning
      ensures Valid()
      ensures playing && !playEnabled && pauseEnabled && timerRunning
    {
      playing := true;
      playEnabled := false;
      pauseEnabled := true;
      timerRunning := true;
    }

    /** End of media: back to the start, then `Pause`. */
    method Complete()
      requires Valid()
      modifies this`position, this`playing, this`playEnabled, this`pauseEnabled, this`timerRunning
      ensures Valid()
      ensures position == 0
      ensures !playing && playEnabled && !pauseEnabled && !timerRunning
    {
      position := 0;
      Pause();
    }

    /** Dragging the seek bar to `progress` seeks to that many seconds. */
    method ProgressChanged(progress: nat)
      modifies this`position
      ensures position == ProgressToMs(progress)
    {
      position := progress * 1000;
    }

    /** A timer tick as far as the seek bar goes: it shows the whole seconds played. */
    method UpdatePosition()
      modifies this`seekProgress
      ensures seekProgress == ProgressOf(position)
    {
      seekProgress := position / 1000;
    }

    /** The mark button. Down: pause, choose a fresh clip name, rewrite `label.txt` with
        the mark's line, prepare the recorder if it never was, start recording. Up: stop
        recording, seek half a second back, play. */
    method MarkButtonTouch(action: TouchAction)
      requires Valid()
      modifies this`playing, this`playEnabled, this`pauseEnabled, this`timerRunning
      modifies this`recorderPrepared, this`prepareCalls, this`recording, this`recorderOutput
      modifies this`results, this`position
      ensures Valid()
      ensures action == Down ==>
        && !playing && !playEnabled && !pauseEnabled && !timerRunning
        && position == old(position)
        && recording && recorderPrepared
        && prepareCalls == (if old(recorderPrepared) then old(prepareCalls) else old(prepareCalls) + 1)
        && recorderOutput !in old(results)
        && (exists k :: Annotation.FirstFreeClip(old(position), old(results).Keys, k)
                     && recorderOutput == Annotation.ClipCandidate(old(position), k))
        && results == old(results)[Annotation.LabelFileName := Annotation.LabelFileContents(old(position))]
                                  [recorderOutput := []]
        && results[Annotation.LabelFileName] == Annotation.LabelFileContents(old(position))
      ensures action == Up ==>
        && !recording
        && position == ResumePosition(old(position))
        && playing && !playEnabled && pauseEnabled
        && timerRunning == old(timerRunning)
        && recorderPrepared == old(recorderPrepared) && prepareCalls == old(prepareCalls)
        && recorderOutput == old(recorderOutput) && results == old(results)
      ensures action == Other ==> unchanged(this)
    {
      if action == Down {
        Pause();
        playEnabled := false;
        var clip, probes := Annotation.ChooseClipName(position, results.Keys);
        Annotation.ClipCandidateNotLabel(position, probes);
        results := results[Annotation.LabelFileName := Annotation.LabelFileContents(position)];
        recorderOutput := clip;
        if !recorderPrepared {
          prepareCalls := prepareCalls + 1;
          recorderPrepared := true;
        }
        recording := true;
        results := results[clip := []];
      } else if action == Up {
        recording := false;
        var bitEarlier := position - 500;
        if bitEarlier < 0 {
          bitEarlier := 0;
        }
        position := bitEarlier;
        Play();
      }
    }

    /** A press and release of the mark button: one clip and one label line are written
        and playback resumes half a second before the mark. */
    method MarkGesture()
      requires Valid()
      modifies this`playing, this`playEnabled, this`pauseEnabled, this`timerRunning
      modifies this`recorderPrepared, this`prepareCalls, this`recording, this`recorderOutput
      modifies this`results, this`position
      ensures Valid() && recorderPrepared && prepareCalls == 1
      ensures playing && !recording && !playEnabled && pauseEnabled && !timerRunning
      ensures position == ResumePosition(old(position))
      ensures recorderOutput !in old(results)
      ensures exists k :: Annotation.FirstFreeClip(old(position), old(results).Keys, k)
                       && recorderOutput == Annotation.ClipCandidate(old(position), k)
      ensures results == old(results)[Annotation.LabelFileName := Annotation.LabelFileContents(old(position))]
                                     [recorderOutput := []]
      ensures results[Annotation.LabelFileName] == Annotation.LabelFileContents(old(position))
    {
      MarkButtonTouch(Down);
      MarkButtonTouch(Up);
    }

    /** Save results: a fresh archive name in downloads, then one entry per file of the
        results directory, in listing order. `files` is what `Directory.GetFiles` lists:
        every file of the directory, each once. */
    method SaveResults(files: seq<string>) returns (output: string)
      requires forall n :: n in results <==> n in files
      requires forall i, j :: 0 <= i < j < |files| ==> files[i] != files[j]
      requires Export.ArchiveNameTerminates(FileNameWithoutExtension(fileName), downloads.Keys)
      modifies this`downloads
      ensures output !in old(downloads)
      ensures exists k :: Export.FirstFreeArchive(FileNameWithoutExtension(fileName), old(downloads).Keys, k)
                       && output == Export.ArchiveCandidate(FileNameWithoutExtension(fileName), k)
      ensures downloads == old(downloads)[output := Archive(Export.Entries(files, results))]
      ensures Export.Unzip(downloads[output].entries) == results
    {
      var base := FileNameWithoutExtension(fileName);
      var index;
      output, index := Export.ChooseArchiveName(base, downloads.Keys);
      ghost var taken := downloads.Keys;
      downloads := downloads[output := Archive([])];
      var entries := Export.ZipFiles(files, results);
      downloads := downloads[output := Archive(entries)];
      assert taken == old(downloads).Keys;
      assert Export.FirstFreeArchive(FileNameWithoutExtension(fileName), old(downloads).Keys, index);
      Export.ArchiveRestoresDirectory(files, results);
    }

    /** Two marks at the start of a file with an empty results directory record
        `0.mp3` and then `0_0.mp3`: the `label.txt` the first mark wrote does not change
        the probes of the second. */
    method TwoMarksAtStart()
      requires Valid() && position == 0 && results == map[]
      modifies this`playing, this`playEnabled, this`pauseEnabled, this`timerRunning
      modifies this`recorderPrepared, this`prepareCalls, this`recording, this`recorderOutput
      modifies this`results, this`position
      ensures Valid() && recording
      ensures results.Keys == {"0.mp3", "0_0.mp3", Annotation.LabelFileName}
    {
      MarkButtonTouch(Down);
      assert recorderOutput == "0.mp3" by {
        Annotation.TwoMarksAtOnePosition(0, {}, 0, 1);
      }
      MarkButtonTouch(Up);
      MarkButtonTouch(Down);
      assert recorderOutput == "0_0.mp3" by {
        var k :| Annotation.FirstFreeClip(0, {"0.mp3", Annotation.LabelFileName}, k)
                && recorderOutput == Annotation.ClipCandidate(0, k);
        Annotation.ZeroClips(k);
      }
    }

    /** Saving twice before any file is picked writes `Unknown.zip` and then
        `Unknown_1.zip`. */
    method SaveTwice(files: seq<string>) returns (first: string, second: string)
      requires fileName == UnknownFileName && downloads == map[]
      requires forall n :: n in results <==> n in files
      requires forall i, j :: 0 <= i < j < |files| ==> files[i] != files[j]
      modifies this`downloads
      ensures first == "Unknown.zip" && second == "Unknown_1.zip"
      ensures downloads.Keys == {first, second}
    {
      UnknownBase();
      first := SaveResults(files);
      ghost var k1 :| Export.FirstFreeArchive("Unknown", {}, k1) && first == Export.ArchiveCandidate("Unknown", k1);
      UnknownArchives({}, k1);
      assert downloads.Keys == {"Unknown.zip"};
      second := SaveResults(files);
      ghost var k2 :| Export.FirstFreeArchive("Unknown", {"Unknown.zip"}, k2)
                      && second == Export.ArchiveCandidate("Unknown", k2);
      UnknownArchives({"Unknown.zip"}, k2);
    }

    /** The "Yes" answer to "Clear all current results?": every listed file is deleted.
        `files` is what `Directory.GetFiles` lists: every file of the directory. */
    method ClearResults(files: seq<string>)
      requires forall n :: n in results <==> n in files
      modifies this`results
      ensures results == map[]
    {
      for i := 0 to |files|
        invariant forall n :: n in results <==> n in old(results) && n !in files[..i]
      {
        results := results - {files[i]};
      }
      assert files[..|files|] == files;
      assert results.Keys == {};
    }
  }
}
