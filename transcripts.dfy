/** `transcribe_audio_file` of scripts/transcribe.py: one audio file is
    transcribed by Whisper and the result written next to it as a `.txt`
    transcript with a fixed layout. Whisper and the file system are not part
    of this model: Whisper is a function from the audio path and language to
    a result (`None` when it raises), and the files that can be opened for
    writing are a given set. */
module Transcripts {
  import opened Text
  import opened Optional
  import opened Paths
  import opened Timestamps

  /** One timed span of recognised speech, as Whisper reports it. */
  datatype Segment = Segment(start: real, end: real, text: string)

  /** The parts of Whisper's result the script reads: the full text and the
      segments, in Whisper's order. */
  datatype Transcription = Transcription(text: string, segments: seq<Segment>)

  /** Whisper, as the script sees it: audio path and language code to a
      result, or `None` when the call raises. */
  type Whisper = (Path, string) -> Option<Transcription>

  /** The language code the script always passes to Whisper. */
  const WhisperLanguage: string := "zh"

  /** The transcript's language line: it names Cantonese/Chinese whatever
      Whisper heard. */
  const LanguageLine: string := "Language: Cantonese/Chinese"

  /** The separator line: sixty `=` characters. */
  const Separator: string := Repeat('=', 60)

  /** `[start -> end] text`, with the segment's text stripped. */
  function SegmentLine(seg: Segment): string {
    "[" + FormatTimestamp(seg.start) + " -> " + FormatTimestamp(seg.end) + "] " + Strip(seg.text)
  }

  /** One line per segment, in order, each made by `line`. */
  function LinesOf(segs: seq<Segment>, line: Segment -> string): (lines: seq<string>)
    ensures |lines| == |segs| && forall i :: 0 <= i < |segs| ==> lines[i] == line(segs[i])
  {
    seq(|segs|, i requires 0 <= i < |segs| => line(segs[i]))
  }

  /** The segment lines of the transcript, in Whisper's order. */
  function SegmentLines(segs: seq<Segment>): seq<string> {
    LinesOf(segs, SegmentLine)
  }

  /** The nine lines before the segments: header, separator, blank, the
      stripped full text, blank, separator, the segments heading, blank. */
  function HeaderLines(name: string, t: Transcription): seq<string> {
    ["Transcript of: " + name, LanguageLine, Separator, "",
     Strip(t.text), "", Separator, "Detailed segments:", ""]
  }

  /** The lines of the transcript of the audio file called `name`. */
  function ArtifactLines(name: string, t: Transcription): seq<string> {
    HeaderLines(name, t) + SegmentLines(t.segments)
  }

  /** The text of that transcript: each line followed by a newline. */
  function Artifact(name: string, t: Transcription): string {
    Terminated(ArtifactLines(name, t))
  }

  /** One more line of `lines` written. */
  lemma TerminatedStep(lines: seq<string>, k: nat)
    requires k < |lines|
    ensures Terminated(lines[..k + 1]) == Terminated(lines[..k]) + lines[k] + "\n"
  {
    assert lines[..k + 1] == lines[..k] + [lines[k]];
    TerminatedSnoc(lines[..k], lines[k]);
  }

  /** The nine header lines, each newline-terminated, are the pieces the
      script writes before the segments, in that order (with the blank lines
      folded into the preceding write). */
  lemma {:induction false} HeaderTerminated(title: string, language: string, sep: string,
                                            text: string, heading: string)
    ensures Terminated([title, language, sep, "", text, "", sep, heading, ""])
         == title + "\n" + language + "\n" + sep + "\n\n" + text + "\n\n" + sep + "\n" + heading + "\n\n"
  {
    var h0: seq<string> := [];
    var h1, w1 := h0 + [title], title + "\n";
    assert Terminated(h1) == w1 by {
      assert h0 + [""] == [""];
      TerminatedSnoc(h0, title);
    }
    var h2, w2 := h1 + [language], w1 + language + "\n";
    assert Terminated(h2) == w2 by { TerminatedSnoc(h1, language); }
    var h4, w4 := h2 + [sep] + [""], w2 + sep + "\n\n";
    assert Terminated(h4) == w4 by { TerminatedBlank(h2, sep); }
    var h6, w6 := h4 + [text] + [""], w4 + text + "\n\n";
    assert Terminated(h6) == w6 by { TerminatedBlank(h4, text); }
    var h7, w7 := h6 + [sep], w6 + sep + "\n";
    assert Terminated(h7) == w7 by { TerminatedSnoc(h6, sep); }
    var h9, w9 := h7 + [heading] + [""], w7 + heading + "\n\n";
    assert Terminated(h9) == w9 by { TerminatedBlank(h7, heading); }
    assert h9 == [title, language, sep, "", text, "", sep, heading, ""];
  }

  /** Writing a line and then an empty line. */
  lemma TerminatedBlank(lines: seq<string>, line: string)
    ensures Terminated(lines + [line] + [""]) == Terminated(lines) + line + "\n\n"
  {
    TerminatedSnoc(lines, line);
    TerminatedSnoc(lines + [line], "");
    var x := Terminated(lines) + line;
    assert x + "\n" + "" + "\n" == x + "\n\n";
  }

  /** The header writes, as the script makes them, are the header lines,
      each newline-terminated. */
  lemma HeaderWritten(name: string, text: string)
    ensures "" + "Transcript of: " + name + "\n" + LanguageLine + "\n"
            + Separator + "\n\n" + text + "\n\n" + Separator + "\n" + "Detailed segments:\n\n"
         == Terminated(["Transcript of: " + name, LanguageLine, Separator, "",
                        text, "", Separator, "Detailed segments:", ""])
  {
    var title, language := "Transcript of: " + name, LanguageLine;
    HeaderTerminated(title, language, Separator, text, "Detailed segments:");
    var x := title + "\n";
    assert "" + "Transcript of: " + name + "\n" == x;
    var y := x + language + "\n" + Separator + "\n\n" + text + "\n\n" + Separator + "\n";
    AppendAssoc(y, "Detailed segments:", "\n\n");
    assert "Detailed segments:\n\n" == "Detailed segments:" + "\n\n";
  }

  /** Appending two pieces one after the other appends both at once. */
  lemma AppendAssoc(x: string, a: string, b: string)
    ensures x + (a + b) == x + a + b
  {
  }

  /** The lines of the first `i + 1` segments: those of the first `i`, then
      the line of segment `i`. */
  lemma LinesOfSnoc(segs: seq<Segment>, line: Segment -> string, i: nat)
    requires i < |segs|
    ensures LinesOf(segs[..i + 1], line) == LinesOf(segs[..i], line) + [line(segs[i])]
  {
    var a, b := LinesOf(segs[..i + 1], line), LinesOf(segs[..i], line) + [line(segs[i])];
    assert |a| == |b|;
    forall k | 0 <= k < |a| ensures a[k] == b[k] {
      assert segs[..i + 1][k] == segs[k];
    }
  }

  /** One more line after the header and some lines. */
  lemma TerminatedAfter(h: seq<string>, lines: seq<string>, line: string)
    ensures Terminated(h + (lines + [line])) == Terminated(h + lines) + line + "\n"
  {
    assert h + (lines + [line]) == (h + lines) + [line];
    TerminatedSnoc(h + lines, line);
  }

  /** Writing the line of segment `i` after those of the segments before it. */
  lemma WrittenSegment(h: seq<string>, segs: seq<Segment>, line: Segment -> string, i: nat)
    requires i < |segs|
    ensures Terminated(h + LinesOf(segs[..i + 1], line))
         == Terminated(h + LinesOf(segs[..i], line)) + line(segs[i]) + "\n"
  {
    LinesOfSnoc(segs, line, i);
    TerminatedAfter(h, LinesOf(segs[..i], line), line(segs[i]));
  }

  /** The `with open(transcript_path, 'w')` block: the header writes, then one
      write per segment in Whisper's order. What it writes is exactly the
      transcript's lines, each newline-terminated. */
  method WriteTranscript(name: string, t: Transcription) returns (written: string)
    ensures written == Artifact(name, t)
  {
    written := "";
    written := written + "Transcript of: " + name + "\n";
    written := written + LanguageLine + "\n";
    written := written + Separator + "\n\n";
    written := written + Strip(t.text);
    written := written + "\n\n";
    written := written + Separator + "\n";
    written := written + "Detailed segments:\n\n";
    ghost var h := HeaderLines(name, t);
    HeaderWritten(name, Strip(t.text));
    assert written == Terminated(h);
    var segs := t.segments;
    assert SegmentLines(segs[..0]) == [];
    assert h + SegmentLines(segs[..0]) == h;
    for i := 0 to |segs|
      invariant written == Terminated(h + SegmentLines(segs[..i]))
    {
      var startTime := FormatTimestamp(segs[i].start);
      var endTime := FormatTimestamp(segs[i].end);
      var text := Strip(segs[i].text);
      var line := "[" + startTime + " -> " + endTime + "] " + text;
      assert line == SegmentLine(segs[i]);
      WrittenSegment(h, segs, SegmentLine, i);
      written := written + line + "\n";
    }
    assert segs[..|segs|] == segs;
  }

  /** `audio_path.with_suffix('.txt')`: `None` stands for the `ValueError`
      of a path without a name. */
  function TranscriptPath(audio: Path): Option<Path> {
    WithSuffix(audio, ".txt")
  }

  /** The transcript sits next to the audio file: same directory, same
      stem, suffix `.txt` in place of the audio extension. */
  lemma TranscriptPathBeside(audio: Path)
    requires Valid(audio) && Name(audio) != ""
    ensures TranscriptPath(audio).Some?
    ensures var p := TranscriptPath(audio).value;
            Valid(p) && Parent(p) == Parent(audio)
            && Suffix(Name(p)) == ".txt" && Stem(Name(p)) == Stem(Name(audio))
  {
    WithSuffixReplaces(audio, ".txt");
  }

  /** `transcribe_audio_file` returns `True` exactly when Whisper returned a
      result, the transcript path exists and the file could be written. */
  predicate Transcribes(whisper: Whisper, writable: set<Path>, audio: Path) {
    whisper(audio, WhisperLanguage).Some? && TranscriptPath(audio).Some?
    && TranscriptPath(audio).value in writable
  }

  /** `transcribe_audio_file(audio_path, model)`: returns whether it
      succeeded and the file it wrote, if any. Every exception inside the
      `try` (Whisper, `with_suffix`, `open`) makes it return `False` and
      nothing more; no failure record is written. */
  method TranscribeAudioFile(whisper: Whisper, writable: set<Path>, audio: Path)
    returns (ok: bool, file: Option<(Path, string)>)
    ensures ok == Transcribes(whisper, writable, audio)
    ensures ok ==> file == Some((TranscriptPath(audio).value,
                                 Artifact(Name(audio), whisper(audio, WhisperLanguage).value)))
    ensures !ok ==> file == None
  {
    var result := whisper(audio, WhisperLanguage);
    if result.None? {
      return false, None;
    }
    var transcriptPath := TranscriptPath(audio);
    if transcriptPath.None? || transcriptPath.value !in writable {
      return false, None;
    }
    var written := WriteTranscript(Name(audio), result.value);
    return true, Some((transcriptPath.value, written));
  }

  /** A segment whose stripped text holds no newline prints as one line. */
  lemma SegmentLineSingle(seg: Segment)
    requires '\n' !in Strip(seg.text)
    ensures '\n' !in SegmentLine(seg)
  {
    TimestampOneLine(seg.start);
    TimestampOneLine(seg.end);
    SegmentLineOf(FormatTimestamp(seg.start), FormatTimestamp(seg.end), Strip(seg.text));
  }

  /** A segment line from its printed pieces. */
  lemma SegmentLineIs(seg: Segment, a: string, b: string, t: string)
    requires FormatTimestamp(seg.start) == a && FormatTimestamp(seg.end) == b && Strip(seg.text) == t
    ensures SegmentLine(seg) == "[" + a + " -> " + b + "] " + t
  {
  }

  /** The fixed characters of a segment line are not newlines. */
  lemma SegmentLineOf(a: string, b: string, t: string)
    requires '\n' !in a && '\n' !in b && '\n' !in t
    ensures '\n' !in "[" + a + " -> " + b + "] " + t
  {
  }

  /** No line of the transcript holds a newline of its own when neither the
      file name nor any stripped text does. */
  lemma ArtifactLinesSingle(name: string, t: Transcription)
    requires '\n' !in name && '\n' !in Strip(t.text)
    requires forall i :: 0 <= i < |t.segments| ==> '\n' !in Strip(t.segments[i].text)
    ensures forall k :: 0 <= k < |ArtifactLines(name, t)| ==> '\n' !in ArtifactLines(name, t)[k]
  {
    var h, segLines := HeaderLines(name, t), SegmentLines(t.segments);
    HeaderLinesSingle(name, Strip(t.text));
    forall i | 0 <= i < |segLines| ensures '\n' !in segLines[i] {
      SegmentLineSingle(t.segments[i]);
    }
    forall k | 0 <= k < |h + segLines| ensures '\n' !in (h + segLines)[k] {
      if k < |h| {
        assert (h + segLines)[k] == h[k];
      } else {
        assert (h + segLines)[k] == segLines[k - |h|];
      }
    }
  }

  /** No header line holds a newline when neither the file name nor the
      stripped text does. */
  lemma HeaderLinesSingle(name: string, text: string)
    requires '\n' !in name && '\n' !in text
    ensures var h := ["Transcript of: " + name, LanguageLine, Separator, "",
                      text, "", Separator, "Detailed segments:", ""];
            forall k :: 0 <= k < |h| ==> '\n' !in h[k]
  {
    assert '\n' !in Separator;
    assert '\n' !in "Transcript of: ";
    assert '\n' !in LanguageLine;
    assert '\n' !in "Detailed segments:";
  }

  /** Reading the file back line by line: when no written piece holds a
      newline of its own, splitting the text at newlines gives back the
      transcript's lines (see `ArtifactLinesShape`) and the empty piece
      after the final newline. */
  lemma ArtifactLayout(name: string, t: Transcription)
    requires '\n' !in name && '\n' !in Strip(t.text)
    requires forall i :: 0 <= i < |t.segments| ==> '\n' !in Strip(t.segments[i].text)
    ensures Split(Artifact(name, t), '\n') == ArtifactLines(name, t) + [""]
  {
    ArtifactLinesSingle(name, t);
    TerminatedLines(ArtifactLines(name, t));
  }

  /** The transcript's lines: the nine header lines (both separators, the
      stripped full text between blank lines, the segments heading), then
      exactly one `[start -> end] text` line per segment in Whisper's order. */
  lemma ArtifactLinesShape(name: string, t: Transcription)
    ensures var lines := ArtifactLines(name, t);
            && |lines| == 9 + |t.segments|
            && lines[..9] == ["Transcript of: " + name, LanguageLine, Separator, "",
                              Strip(t.text), "", Separator, "Detailed segments:", ""]
            && (forall i :: 0 <= i < |t.segments| ==> lines[9 + i] == SegmentLine(t.segments[i]))
  {
    var h, segLines := HeaderLines(name, t), SegmentLines(t.segments);
    assert (h + segLines)[..9] == h;
    forall i | 0 <= i < |t.segments| ensures (h + segLines)[9 + i] == SegmentLine(t.segments[i]) {
      assert (h + segLines)[9 + i] == segLines[i];
    }
  }


  /** Two audio files in one directory that differ only in their extension
      (`talk.mp3`, `talk.wav`) share one transcript path, so the one
      transcribed later overwrites the other's transcript. */
  lemma SharedTranscriptPath(a: Path, b: Path)
    requires Parent(a) == Parent(b) && a.parts != [] && b.parts != []
    requires Stem(Name(a)) == Stem(Name(b))
    ensures TranscriptPath(a) == TranscriptPath(b)
  {
  }

  /** Under a minute, a timestamp is `00:00:` and the whole seconds. */
  lemma FormatUnderAMinute(x: real)
    requires 0.0 <= x < 60.0
    ensures FormatTimestamp(x) == "00:00:" + PadTwo(x.Floor)
  {
    var c := ClockOf(x);
    assert c.hours == 0 && c.minutes == 0;
    assert PadTwo(0) == "00" by { assert Digits(0) == "0"; }
  }

  /** `format_timestamp` of 0, 1.5 and 3 seconds. */
  lemma TimestampExamples()
    ensures FormatTimestamp(0.0) == "00:00:00"
    ensures FormatTimestamp(1.5) == "00:00:01"
    ensures FormatTimestamp(3.0) == "00:00:03"
  {
    FormatUnderAMinute(0.0);
    FormatUnderAMinute(1.5);
    FormatUnderAMinute(3.0);
    assert (1.5).Floor == 1;
    assert PadTwo(0) == "00" by { assert Digits(0) == "0"; }
    assert PadTwo(1) == "01" by { assert Digits(1) == "1"; }
    assert PadTwo(3) == "03" by { assert Digits(3) == "3"; }
  }

  /** `" b ".strip()` is `"b"`. */
  lemma StripExample()
    ensures Strip(" b ") == "b"
  {
    StripExact(" ", "b", " ");
    assert " " + "b" + " " == " b ";
  }

  /** The segment `(1.5, 3.0, " b ")` prints as `[00:00:01 -> 00:00:03] b`:
      seconds truncated, text stripped. */
  lemma SegmentLineExample()
    ensures SegmentLine(Segment(1.5, 3.0, " b ")) == "[00:00:01 -> 00:00:03] b"
  {
    TimestampExamples();
    StripExample();
    SegmentLineIs(Segment(1.5, 3.0, " b "), "00:00:01", "00:00:03", "b");
    ExampleLineText();
  }

  /** The pieces of the example line, put together. */
  lemma ExampleLineText()
    ensures "[" + "00:00:01" + " -> " + "00:00:03" + "] " + "b" == "[00:00:01 -> 00:00:03] b"
  {
    assert "[" + "00:00:01" == "[00:00:01";
    assert "[00:00:01" + " -> " == "[00:00:01 -> ";
    assert "[00:00:01 -> " + "00:00:03" == "[00:00:01 -> 00:00:03";
    assert "[00:00:01 -> 00:00:03" + "] " == "[00:00:01 -> 00:00:03] ";
    assert "[00:00:01 -> 00:00:03] " + "b" == "[00:00:01 -> 00:00:03] b";
  }
}
