/** Which audio files a run works on, as scripts/transcribe.py and
    scripts/prepare_colab_execution.py find them: the `changed_files.txt`
    list read line by line, or, when that list is absent, a recursive scan of
    `voice-record` for five audio extensions. The file system is not part of
    this model: a file's text is given as a string, existence as a set of
    paths, and the recursive walk of `voice-record` as the sequence of paths
    it yields. */
module Discovery {
  import opened Text
  import opened Optional
  import opened Paths

  /** Reading a file in text mode: `\r\n` and a lone `\r` both become `\n`. */
  function TranslateNewlines(s: string): (r: string)
    ensures '\r' !in r
    decreases |s|
  {
    if s == [] then []
    else if s[0] == '\r' then
      "\n" + TranslateNewlines(if |s| > 1 && s[1] == '\n' then s[2..] else s[1..])
    else [s[0]] + TranslateNewlines(s[1..])
  }

  /** Text without carriage returns reads back unchanged. */
  lemma {:induction false} TranslateNewlinesPlain(s: string)
    requires '\r' !in s
    ensures TranslateNewlines(s) == s
    decreases |s|
  {
    if s != [] {
      TranslateNewlinesPlain(s[1..]);
      assert s == [s[0]] + s[1..];
    }
  }

  /** The line endings text mode recognises. */
  predicate LineEnding(eol: string) {
    eol == "\n" || eol == "\r\n" || eol == "\r"
  }

  /** `s` written with `eol` in place of each `\n`. */
  function WithLineEnding(s: string, eol: string): (r: string)
    ensures '\n' !in eol ==> '\n' !in r
    decreases |s|
  {
    if s == [] then [] else (if s[0] == '\n' then eol else [s[0]]) + WithLineEnding(s[1..], eol)
  }

  /** Whichever line ending a file uses, `\n`, `\r\n` or a lone `\r`, text
      mode reads it as `\n`: text without carriage returns, written with
      any one of them, reads back as itself. */
  lemma {:induction false} TranslateNewlinesEndings(s: string, eol: string)
    requires '\r' !in s && LineEnding(eol)
    ensures TranslateNewlines(WithLineEnding(s, eol)) == s
    decreases |s|
  {
    if s != [] {
      var rest := WithLineEnding(s[1..], eol);
      var w := WithLineEnding(s, eol);
      TranslateNewlinesEndings(s[1..], eol);
      if s[0] == '\n' {
        assert w == eol + rest;
        if eol == "\n" {
          assert w[0] == '\n' && w[1..] == rest;
        } else if eol == "\r\n" {
          assert w[0] == '\r' && w[1] == '\n' && w[2..] == rest;
        } else {
          assert w[0] == '\r' && w[1..] == rest;
          assert |w| > 1 ==> w[1] == rest[0] && rest[0] != '\n';
        }
      } else {
        assert w[0] == s[0] && w[1..] == rest;
      }
      assert s == [s[0]] + s[1..];
    }
  }

  /** `[line.strip() for line in lines if line.strip()]`. */
  function StrippedNonBlank(lines: seq<string>): (r: seq<string>)
    ensures |r| <= |lines|
    ensures forall k :: 0 <= k < |r| ==> r[k] != "" && Trimmed(r[k])
  {
    if lines == [] then []
    else
      var s := Strip(lines[|lines| - 1]);
      StrippedNonBlank(lines[..|lines| - 1]) + (if s != "" then [s] else [])
  }

  /** An entry is kept exactly when some line strips to it and it is not
      blank. */
  lemma StrippedNonBlankMembers(lines: seq<string>, x: string)
    ensures x in StrippedNonBlank(lines) <==> x != "" && exists k :: 0 <= k < |lines| && Strip(lines[k]) == x
  {
    if x in StrippedNonBlank(lines) {
      StrippedNonBlankFrom(lines, x);
    }
    if x != "" && exists k :: 0 <= k < |lines| && Strip(lines[k]) == x {
      var k :| 0 <= k < |lines| && Strip(lines[k]) == x;
      StrippedNonBlankHas(lines, k);
    }
  }

  /** Every entry kept is a line, stripped. */
  lemma {:induction false} StrippedNonBlankFrom(lines: seq<string>, x: string)
    requires x in StrippedNonBlank(lines)
    ensures exists k :: 0 <= k < |lines| && Strip(lines[k]) == x
  {
    var n := |lines| - 1;
    var init := lines[..n];
    if x in StrippedNonBlank(init) {
      StrippedNonBlankFrom(init, x);
      var k :| 0 <= k < n && Strip(init[k]) == x;
      assert Strip(lines[k]) == x;
    } else {
      assert Strip(lines[n]) == x;
    }
  }

  /** Every line that does not strip to nothing is kept. */
  lemma {:induction false} StrippedNonBlankHas(lines: seq<string>, k: nat)
    requires k < |lines| && Strip(lines[k]) != ""
    ensures Strip(lines[k]) in StrippedNonBlank(lines)
  {
    var n := |lines| - 1;
    var init, x := lines[..n], Strip(lines[k]);
    var last := Strip(lines[n]);
    var tail := if last != "" then [last] else [];
    assert StrippedNonBlank(lines) == StrippedNonBlank(init) + tail;
    if k < n {
      assert x in StrippedNonBlank(init) by {
        assert init[k] == lines[k];
        StrippedNonBlankHas(init, k);
      }
      assert x in StrippedNonBlank(init) + tail;
    } else {
      assert tail == [x];
      assert x in StrippedNonBlank(init) + tail;
    }
  }

  /** The comprehension works line by line: the entries of two runs of lines
      are those of the first followed by those of the second. */
  lemma {:induction false} StrippedNonBlankAppend(a: seq<string>, b: seq<string>)
    ensures StrippedNonBlank(a + b) == StrippedNonBlank(a) + StrippedNonBlank(b)
    decreases |b|
  {
    if b == [] {
      assert a + b == a;
    } else {
      var n := |b| - 1;
      assert (a + b)[..|a + b| - 1] == a + b[..n];
      assert (a + b)[|a + b| - 1] == b[n];
      StrippedNonBlankAppend(a, b[..n]);
    }
  }

  /** Lines that are already stripped and non-blank are all kept, in order. */
  lemma {:induction false} StrippedNonBlankKeeps(lines: seq<string>)
    requires forall k :: 0 <= k < |lines| ==> lines[k] != "" && Trimmed(lines[k])
    ensures StrippedNonBlank(lines) == lines
  {
    if lines != [] {
      var n := |lines| - 1;
      var init := lines[..n];
      assert StrippedNonBlank(lines) == StrippedNonBlank(init) + [lines[n]] by {
        StripTrimmed(lines[n]);
      }
      assert StrippedNonBlank(init) == init by {
        assert forall k :: 0 <= k < n ==> init[k] == lines[k];
        StrippedNonBlankKeeps(init);
      }
      assert lines == init + [lines[n]];
    }
  }

  /** `changed_files = [line.strip() for line in f if line.strip()]` on the
      text of `changed_files.txt`. */
  function ChangedFiles(text: string): (r: seq<string>)
    ensures forall k :: 0 <= k < |r| ==> r[k] != "" && Trimmed(r[k]) && '\n' !in r[k]
  {
    var lines := Split(TranslateNewlines(text), '\n');
    var r := StrippedNonBlank(lines);
    forall k | 0 <= k < |r| ensures '\n' !in r[k] {
      StrippedNonBlankMembers(lines, r[k]);
      var j :| 0 <= j < |lines| && Strip(lines[j]) == r[k];
      StripInfix(lines[j]);
    }
    r
  }

  /** No character of the pieces and not the separator: not in the join. */
  lemma {:induction false} JoinAvoids(parts: seq<string>, sep: char, c: char)
    requires c != sep && forall k :: 0 <= k < |parts| ==> c !in parts[k]
    ensures c !in Join(parts, sep)
  {
    if |parts| > 1 {
      JoinAvoids(parts[1..], sep, c);
    }
  }

  /** The list written one entry per line (as `git diff --name-only` writes
      it) reads back as exactly those entries, in order. */
  lemma ChangedFilesReadsBack(entries: seq<string>)
    requires forall k :: 0 <= k < |entries| ==> entries[k] != "" && Trimmed(entries[k])
    requires forall k :: 0 <= k < |entries| ==> '\n' !in entries[k] && '\r' !in entries[k]
    ensures ChangedFiles(Terminated(entries)) == entries
  {
    JoinAvoids(entries + [""], '\n', '\r');
    TranslateNewlinesPlain(Terminated(entries));
    TerminatedLines(entries);
    StrippedNonBlankKeeps(entries);
    assert (entries + [""])[..|entries|] == entries;
    assert Strip("") == "";
  }

  /** The list reads the same whether `changed_files.txt` ends its lines
      with `\n`, `\r\n` or `\r`. */
  lemma ChangedFilesAnyEnding(text: string, eol: string)
    requires '\r' !in text && LineEnding(eol)
    ensures ChangedFiles(WithLineEnding(text, eol)) == ChangedFiles(text)
  {
    TranslateNewlinesEndings(text, eol);
    TranslateNewlinesPlain(text);
  }

  /** `changed_files` as scripts/prepare_colab_execution.py reads it: empty
      when `changed_files.txt` does not exist. */
  function ChangedFilesOf(file: Option<string>): (r: seq<string>)
    ensures file.None? ==> r == []
    ensures file.Some? ==> r == ChangedFiles(file.value)
  {
    if file.Some? then ChangedFiles(file.value) else []
  }

  /** `[Path(f) for f in changed_files if Path(f).exists()]`. */
  function ExistingPaths(files: seq<string>, existing: set<Path>): (r: seq<Path>)
    ensures |r| <= |files|
    ensures forall k :: 0 <= k < |r| ==> r[k] in existing
    ensures forall k :: 0 <= k < |files| && Parse(files[k]) in existing ==> Parse(files[k]) in r
  {
    if files == [] then []
    else
      var p := Parse(files[0]);
      var rest := ExistingPaths(files[1..], existing);
      assert forall k :: 1 <= k < |files| ==> files[k] == files[1..][k - 1];
      (if p in existing then [p] else []) + rest
  }

  /** Nothing is added: every kept path is one of the listed files. */
  lemma {:induction false} ExistingPathsListed(files: seq<string>, existing: set<Path>, k: nat)
    requires k < |ExistingPaths(files, existing)|
    ensures exists j :: 0 <= j < |files| && ExistingPaths(files, existing)[k] == Parse(files[j])
  {
    var p := Parse(files[0]);
    var rest := ExistingPaths(files[1..], existing);
    var head := if p in existing then [p] else [];
    var r := ExistingPaths(files, existing);
    assert r == head + rest;
    if k < |head| {
      assert r[k] == Parse(files[0]);
    } else {
      var i := k - |head|;
      assert r[k] == rest[i];
      var j :| 0 <= j < |files[1..]| && rest[i] == Parse(files[1..][j]) by {
        ExistingPathsListed(files[1..], existing, i);
      }
      assert r[k] == Parse(files[j + 1]);
    }
  }

  /** The filter works file by file, so it keeps the listed order: the paths
      kept from two runs of files are those of the first, then those of the
      second. */
  lemma {:induction false} ExistingPathsAppend(a: seq<string>, b: seq<string>, existing: set<Path>)
    ensures ExistingPaths(a + b, existing) == ExistingPaths(a, existing) + ExistingPaths(b, existing)
  {
    if a == [] {
      assert a + b == b;
    } else {
      assert (a + b)[0] == a[0];
      assert (a + b)[1..] == a[1..] + b;
      ExistingPathsAppend(a[1..], b, existing);
      var head := if Parse(a[0]) in existing then [Parse(a[0])] else [];
      assert head + (ExistingPaths(a[1..], existing) + ExistingPaths(b, existing))
          == (head + ExistingPaths(a[1..], existing)) + ExistingPaths(b, existing);
    }
  }

  /** A single file is kept exactly when it exists. */
  lemma ExistingPathsSingle(f: string, existing: set<Path>)
    ensures ExistingPaths([f], existing) == if Parse(f) in existing then [Parse(f)] else []
  {
    assert [f][1..] == [];
  }

  /** None of the listed files exists exactly when the filtered list is empty. */
  lemma ExistingPathsEmpty(files: seq<string>, existing: set<Path>)
    ensures ExistingPaths(files, existing) == [] <==> forall k :: 0 <= k < |files| ==> Parse(files[k]) !in existing
  {
    var r := ExistingPaths(files, existing);
    if r != [] {
      assert r[0] in existing;
    }
  }

  /** The extensions `main` scans for, in scan order. */
  const AudioExtensions: seq<string> := [".mp3", ".wav", ".m4a", ".flac", ".ogg"]

  /** `dir.rglob(f'*{ext}')` over the walk of `dir`: the entries whose name
      ends with `ext` (the pattern `*` matches any name, dotted ones
      included), in walk order. */
  function RGlob(walk: seq<Path>, ext: string): (r: seq<Path>)
    ensures |r| <= |walk|
    ensures forall k :: 0 <= k < |r| ==> EndsWith(Name(r[k]), ext)
  {
    if walk == [] then []
    else (if EndsWith(Name(walk[0]), ext) then [walk[0]] else []) + RGlob(walk[1..], ext)
  }

  /** Each path appears in the glob as often as in the walk when its name
      ends with the extension, and not at all otherwise. */
  lemma {:induction false} RGlobCount(walk: seq<Path>, ext: string, p: Path)
    ensures multiset(RGlob(walk, ext))[p] == if EndsWith(Name(p), ext) then multiset(walk)[p] else 0
  {
    if walk != [] {
      RGlobCount(walk[1..], ext, p);
      assert walk == [walk[0]] + walk[1..];
    }
  }

  /** `for ext in exts: audio_files.extend(dir.rglob(f'*{ext}'))`, starting
      from an empty list. */
  function ScanAll(walk: seq<Path>, exts: seq<string>): seq<Path> {
    if exts == [] then []
    else ScanAll(walk, exts[..|exts| - 1]) + RGlob(walk, exts[|exts| - 1])
  }

  /** The name ends with one of the extensions. */
  predicate HasExtension(name: string, exts: seq<string>) {
    exists e :: e in exts && EndsWith(name, e)
  }

  /** No name can end with two different extensions of the list: they are
      non-empty and end in different characters. */
  predicate DistinctEndings(exts: seq<string>) {
    (forall i :: 0 <= i < |exts| ==> exts[i] != "")
    && forall i, j :: 0 <= i < j < |exts| ==> exts[i][|exts[i]| - 1] != exts[j][|exts[j]| - 1]
  }

  /** A name ends with at most one extension of such a list. */
  lemma EndsWithOne(name: string, exts: seq<string>, i: nat)
    requires DistinctEndings(exts) && i < |exts| && EndsWith(name, exts[i])
    ensures forall j :: 0 <= j < |exts| && j != i ==> !EndsWith(name, exts[j])
  {
    forall j | 0 <= j < |exts| && j != i
      ensures !EndsWith(name, exts[j])
    {
      if EndsWith(name, exts[j]) {
        assert false;
      }
    }
  }

  /** One more extension at the end of the list. */
  lemma HasExtensionSnoc(name: string, exts: seq<string>)
    requires exts != []
    ensures HasExtension(name, exts)
        <==> HasExtension(name, exts[..|exts| - 1]) || EndsWith(name, exts[|exts| - 1])
  {
    var init := exts[..|exts| - 1];
    assert exts == init + [exts[|exts| - 1]];
    if HasExtension(name, exts) && !EndsWith(name, exts[|exts| - 1]) {
      var e :| e in exts && EndsWith(name, e);
      assert e in init;
    }
  }

  /** With extensions that end differently, the scan lists each file of the
      walk with one of them exactly as often as the walk does, and no other
      file: nothing is scanned twice. */
  lemma {:induction false} ScanAllCount(walk: seq<Path>, exts: seq<string>, p: Path)
    requires DistinctEndings(exts)
    ensures multiset(ScanAll(walk, exts))[p]
         == if HasExtension(Name(p), exts) then multiset(walk)[p] else 0
  {
    if exts != [] {
      var n := |exts| - 1;
      var init, last := exts[..n], exts[n];
      assert DistinctEndings(init) by {
        assert forall i :: 0 <= i < n ==> init[i] == exts[i];
      }
      ScanAllCount(walk, init, p);
      RGlobCount(walk, last, p);
      HasExtensionSnoc(Name(p), exts);
      if EndsWith(Name(p), last) {
        EndsWithOne(Name(p), exts, n);
      }
    }
  }

  /** The audio extensions end in `3`, `v`, `a`, `c` and `g`. */
  lemma AudioExtensionsDistinct()
    ensures DistinctEndings(AudioExtensions)
  {
  }

  /** `if voice_record_dir.exists(): for ext in audio_extensions:
      audio_files.extend(voice_record_dir.rglob(f'*{ext}'))`; `walk` is `None`
      when `voice-record` does not exist. */
  method ScanVoiceRecord(walk: Option<seq<Path>>) returns (audioFiles: seq<Path>)
    ensures audioFiles == if walk.Some? then ScanAll(walk.value, AudioExtensions) else []
  {
    audioFiles := [];
    if walk.Some? {
      for j := 0 to |AudioExtensions|
        invariant audioFiles == ScanAll(walk.value, AudioExtensions[..j])
      {
        assert AudioExtensions[..j + 1][..j] == AudioExtensions[..j];
        audioFiles := audioFiles + RGlob(walk.value, AudioExtensions[j]);
      }
      assert AudioExtensions[..|AudioExtensions|] == AudioExtensions;
    }
  }

  /** The scan finds each audio file of the walk exactly as often as the walk
      yields it, and nothing else. */
  lemma ScanCount(walk: seq<Path>, p: Path)
    ensures multiset(ScanAll(walk, AudioExtensions))[p]
         == if HasExtension(Name(p), AudioExtensions) then multiset(walk)[p] else 0
  {
    AudioExtensionsDistinct();
    ScanAllCount(walk, AudioExtensions, p);
  }
}
