/** `main` of scripts/transcribe.py: choose the audio files (the changed-files
    list when it exists, a scan of `voice-record` otherwise), transcribe each
    in turn and count the successes. Loading the Whisper model and the
    progress messages are not part of this model. */
module TranscribeMain {
  import opened Optional
  import opened Paths
  import opened Discovery
  import opened Transcripts

  /** What `main` sees of the world. */
  datatype Env = Env(
    changedFilesTxt: Option<string>,   // text of `changed_files.txt`; `None` when it does not exist
    voiceRecordWalk: Option<seq<Path>>, // the recursive walk of `voice-record`; `None` when it does not exist
    existing: set<Path>,               // the paths `Path.exists()` holds for
    whisper: Whisper,
    writable: set<Path>)               // the transcript paths `open(..., 'w')` succeeds on

  /** How `main` ends. */
  datatype Outcome =
    | NoAudioFound          // no list, and the scan found nothing
    | NothingToTranscribe   // the list exists but has no entries
    | Transcribed(audioFiles: seq<Path>, successCount: nat)

  /** How many of `files` satisfy `ok`. */
  function Count(files: seq<Path>, ok: Path -> bool): nat {
    if files == [] then 0
    else Count(files[..|files| - 1], ok) + (if ok(files[|files| - 1]) then 1 else 0)
  }

  /** `out` of each of `files` that satisfies `ok`, in order. */
  function Collect<T>(files: seq<Path>, ok: Path -> bool, out: Path -> T): seq<T> {
    if files == [] then []
    else
      var last := files[|files| - 1];
      Collect(files[..|files| - 1], ok, out) + (if ok(last) then [out(last)] else [])
  }

  /** The count never exceeds the number of files and is the number of
      values collected. */
  lemma {:induction false} CountBound<T>(files: seq<Path>, ok: Path -> bool, out: Path -> T)
    ensures Count(files, ok) <= |files|
    ensures Count(files, ok) == |Collect(files, ok, out)|
  {
    if files != [] {
      CountBound(files[..|files| - 1], ok, out);
    }
  }

  /** Every file counts exactly when every file satisfies `ok`. */
  lemma {:induction false} CountAll(files: seq<Path>, ok: Path -> bool)
    ensures Count(files, ok) == |files| <==> forall k :: 0 <= k < |files| ==> ok(files[k])
  {
    if files != [] {
      var init := files[..|files| - 1];
      CountAll(init, ok);
      CountBound<Path>(init, ok, p => p);
      assert forall k :: 0 <= k < |init| ==> init[k] == files[k];
    }
  }

  /** Every value collected is `out` of a file that satisfies `ok`. */
  lemma {:induction false} CollectBelongs<T>(files: seq<Path>, ok: Path -> bool, out: Path -> T, j: nat)
    requires j < |Collect(files, ok, out)|
    ensures exists k :: 0 <= k < |files| && ok(files[k]) && Collect(files, ok, out)[j] == out(files[k])
  {
    var init := files[..|files| - 1];
    var w := Collect(init, ok, out);
    if j < |w| {
      CollectBelongs(init, ok, out, j);
      var k :| 0 <= k < |init| && ok(init[k]) && w[j] == out(init[k]);
      assert init[k] == files[k];
    } else {
      assert Collect(files, ok, out)[j] == out(files[|files| - 1]);
    }
  }

  /** One more file of `files` taken into account. */
  lemma CountStep<T>(files: seq<Path>, ok: Path -> bool, out: Path -> T, i: nat)
    requires i < |files|
    ensures Count(files[..i + 1], ok) == Count(files[..i], ok) + (if ok(files[i]) then 1 else 0)
    ensures Collect(files[..i + 1], ok, out)
         == Collect(files[..i], ok, out) + (if ok(files[i]) then [out(files[i])] else [])
  {
    assert files[..i + 1][..i] == files[..i];
  }

  /** `transcribe_audio_file` returns `True` on `audio`. */
  function Succeeds(whisper: Whisper, writable: set<Path>): Path -> bool {
    audio => Transcribes(whisper, writable, audio)
  }

  /** The transcript path and text written for `audio` when it succeeds
      (anything at all otherwise). */
  function TranscriptFile(whisper: Whisper, writable: set<Path>): Path -> (Path, string) {
    audio =>
      if Transcribes(whisper, writable, audio)
      then (TranscriptPath(audio).value, Artifact(Name(audio), whisper(audio, WhisperLanguage).value))
      else (audio, "")
  }

  /** How many of `files` are transcribed successfully. */
  function Successes(whisper: Whisper, writable: set<Path>, files: seq<Path>): nat {
    Count(files, Succeeds(whisper, writable))
  }

  /** The transcripts written for `files`, in order: path and text. */
  function Writes(whisper: Whisper, writable: set<Path>, files: seq<Path>): seq<(Path, string)> {
    Collect(files, Succeeds(whisper, writable), TranscriptFile(whisper, writable))
  }

  /** The success count never exceeds the number of files, is the number of
      transcripts written, and equals the number of files exactly when every
      file is transcribed. */
  lemma SuccessesBound(whisper: Whisper, writable: set<Path>, files: seq<Path>)
    ensures Successes(whisper, writable, files) <= |files|
    ensures Successes(whisper, writable, files) == |Writes(whisper, writable, files)|
    ensures Successes(whisper, writable, files) == |files|
        <==> forall k :: 0 <= k < |files| ==> Transcribes(whisper, writable, files[k])
  {
    CountBound(files, Succeeds(whisper, writable), TranscriptFile(whisper, writable));
    CountAll(files, Succeeds(whisper, writable));
  }

  /** Every transcript written is the transcript of one of the files that
      succeeded, at that file's transcript path. */
  lemma WritesBelong(whisper: Whisper, writable: set<Path>, files: seq<Path>, j: nat)
    requires j < |Writes(whisper, writable, files)|
    ensures exists k :: 0 <= k < |files| && Transcribes(whisper, writable, files[k])
              && Writes(whisper, writable, files)[j]
                 == (TranscriptPath(files[k]).value,
                     Artifact(Name(files[k]), whisper(files[k], WhisperLanguage).value))
  {
    CollectBelongs(files, Succeeds(whisper, writable), TranscriptFile(whisper, writable), j);
  }

  /** The files `main` transcribes once it gets that far: the listed paths
      that exist, or the scan of `voice-record`. */
  function Selected(env: Env): seq<Path> {
    if env.changedFilesTxt.Some? then ExistingPaths(ChangedFiles(env.changedFilesTxt.value), env.existing)
    else if env.voiceRecordWalk.Some? then ScanAll(env.voiceRecordWalk.value, AudioExtensions)
    else []
  }

  /** `main()`: returns how it ended and the transcripts it wrote, in order. */
  method Run(env: Env) returns (outcome: Outcome, writes: seq<(Path, string)>)
    ensures outcome == NoAudioFound
        <==> env.changedFilesTxt.None? && Selected(env) == []
    ensures outcome == NothingToTranscribe
        <==> env.changedFilesTxt.Some? && ChangedFiles(env.changedFilesTxt.value) == []
    ensures outcome.Transcribed? ==> outcome.audioFiles == Selected(env)
    ensures outcome.Transcribed? ==> outcome.successCount == Successes(env.whisper, env.writable, outcome.audioFiles)
    ensures writes == if outcome.Transcribed? then Writes(env.whisper, env.writable, Selected(env)) else []
  {
    var audioFiles: seq<Path>;
    if env.changedFilesTxt.None? {
      audioFiles := ScanVoiceRecord(env.voiceRecordWalk);
      if audioFiles == [] {
        return NoAudioFound, [];
      }
    } else {
      var changedFiles := ChangedFiles(env.changedFilesTxt.value);
      if changedFiles == [] {
        return NothingToTranscribe, [];
      }
      audioFiles := ExistingPaths(changedFiles, env.existing);
    }
    var successCount := 0;
    writes := [];
    for i := 0 to |audioFiles|
      invariant successCount == Successes(env.whisper, env.writable, audioFiles[..i])
      invariant writes == Writes(env.whisper, env.writable, audioFiles[..i])
    {
      var ok, file := TranscribeAudioFile(env.whisper, env.writable, audioFiles[i]);
      CountStep(audioFiles, Succeeds(env.whisper, env.writable), TranscriptFile(env.whisper, env.writable), i);
      assert ok == Succeeds(env.whisper, env.writable)(audioFiles[i]);
      assert ok ==> file.value == TranscriptFile(env.whisper, env.writable)(audioFiles[i]);
      if ok {
        successCount := successCount + 1;
        writes := writes + [file.value];
      }
    }
    assert audioFiles[..|audioFiles|] == audioFiles;
    return Transcribed(audioFiles, successCount), writes;
  }
}
