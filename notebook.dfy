/** scripts/prepare_colab_execution.py: build the automated copy of the
    transcription notebook. Markdown cells are kept, the interactive upload
    cell becomes a cell that loads the changed files from the repository,
    the download cell becomes a notice that transcripts will be committed,
    other code cells are kept, and cells of any other type are dropped.
    Reading and writing the `.ipynb` files, and the random cell ids nbformat
    assigns, are not part of this model. */
module Notebook {
  import opened Optional
  import opened Text
  import opened PyRepr
  import opened Discovery

  /** An nbformat v4 cell: its type (`markdown`, `code`, `raw`, ...), its
      source text, its metadata and, for code cells, outputs and execution
      count. */
  datatype Cell = Cell(cellType: string, source: string, metadata: map<string, string>,
                       outputs: seq<string>, executionCount: Option<int>)

  /** The notebook as read from `transcribe_cantonese.ipynb`. */
  datatype SourceNotebook = SourceNotebook(metadata: map<string, string>, cells: seq<Cell>)

  /** A notebook being built: `nbformat.v4.new_notebook()`, whose metadata is
      assigned and whose cell list grows by `append`. */
  class NotebookNode {
    var metadata: map<string, string>
    var cells: seq<Cell>

    /** `nbformat.v4.new_notebook()`: no metadata, no cells. */
    constructor ()
      ensures metadata == map[] && cells == []
    {
      metadata := map[];
      cells := [];
    }

    /** `nb.cells.append(cell)`. */
    method AppendCell(cell: Cell)
      modifies this
      ensures cells == old(cells) + [cell]
      ensures metadata == old(metadata)
    {
      cells := cells + [cell];
    }
  }

  /** `nbformat.v4.new_code_cell()`: an empty code cell with no metadata,
      no outputs and no execution count. */
  const NewCodeCell: Cell := Cell("code", "", map[], [], None)

  /** The loader cell's source up to the list of files, ending with the
      assignment `audio_files = `. */
  const LoaderHead: string :=
    "# Automatically load files from repository\nimport os\n\nuploaded = {}\naudio_files = "

  /** The loader cell's source after the list of files. */
  const LoaderTail: string :=
    "\n\n"
    + "print(f\"Loading {len(audio_files)} file(s) from repository:\")\n"
    + "for filepath in audio_files:\n"
    + "    if os.path.exists(filepath):\n"
    + "        filename = os.path.basename(filepath)\n"
    + "        # Copy to current directory for processing\n"
    + "        import shutil\n"
    + "        shutil.copy(filepath, filename)\n"
    + "        uploaded[filename] = True\n"
    + "        print(f\"  - {filename}\")\n"

  /** The source of the cell that replaces the upload cell: the template with
      the changed files written in as a Python list. */
  function LoaderSource(changedFiles: seq<string>, printable: char -> bool): string {
    LoaderHead + ListRepr(changedFiles, printable) + LoaderTail
  }

  /** The source of the cell that replaces the download cell. */
  const NoticeSource: string :=
    "# Transcripts will be committed to git\n"
    + "print(\"\U{2713} Transcripts generated successfully!\")\n"
    + "print(\"Files will be committed back to the repository.\")\n"

  /** The marker of the interactive upload cell. */
  const UploadMarker: string := "files.upload()"

  /** The marker of the download cell. */
  const DownloadMarker: string := "files.download"

  /** What the loop appends for one cell, given the loader's source: the cell
      itself, a new cell, or nothing. */
  function Rewritten(cell: Cell, loader: string): (r: Option<Cell>)
    ensures r.Some? <==> Kept(cell)
    ensures r.Some? ==> Kept(r.value)
    ensures r.Some? && r.value.cellType == "markdown" <==> cell.cellType == "markdown"
    ensures r.Some? && r.value.cellType == "markdown" ==> r.value == cell
    ensures r.Some? && r.value != cell ==>
              r.value == NewCodeCell.(source := r.value.source)
              && (r.value.source == loader || r.value.source == NoticeSource)
    ensures cell.cellType == "code" && Contains(cell.source, UploadMarker) ==>
              r == Some(NewCodeCell.(source := loader))
    ensures cell.cellType == "code" && !Contains(cell.source, UploadMarker) && Contains(cell.source, DownloadMarker) ==>
              r == Some(NewCodeCell.(source := NoticeSource))
    ensures cell.cellType == "code" && !Contains(cell.source, UploadMarker) && !Contains(cell.source, DownloadMarker) ==>
              r == Some(cell)
  {
    if cell.cellType == "markdown" then Some(cell)
    else if cell.cellType == "code" then
      if Contains(cell.source, UploadMarker) then Some(NewCodeCell.(source := loader))
      else if Contains(cell.source, DownloadMarker) then Some(NewCodeCell.(source := NoticeSource))
      else Some(cell)
    else None
  }

  /** The cells of the automated notebook for `cells`, in order. */
  function RewriteCells(cells: seq<Cell>, loader: string): seq<Cell> {
    if cells == [] then []
    else
      var last := Rewritten(cells[|cells| - 1], loader);
      RewriteCells(cells[..|cells| - 1], loader) + (if last.Some? then [last.value] else [])
  }

  /** `prepare_notebook()` up to writing the file: the automated notebook,
      with the metadata copied and the cells rewritten. `changedFilesTxt` is
      the text of `changed_files.txt`, `None` when it does not exist. */
  method PrepareNotebook(nb: SourceNotebook, changedFilesTxt: Option<string>, printable: char -> bool)
    returns (automated: NotebookNode)
    ensures fresh(automated)
    ensures automated.metadata == nb.metadata
    ensures automated.cells == RewriteCells(nb.cells, LoaderSource(ChangedFilesOf(changedFilesTxt), printable))
  {
    automated := new NotebookNode();
    automated.metadata := nb.metadata;
    var changedFiles: seq<string> := [];
    if changedFilesTxt.Some? {
      changedFiles := ChangedFiles(changedFilesTxt.value);
    }
    ghost var loader := LoaderSource(changedFiles, printable);
    for i := 0 to |nb.cells|
      invariant automated.metadata == nb.metadata
      invariant automated.cells == RewriteCells(nb.cells[..i], loader)
    {
      var cell := nb.cells[i];
      assert nb.cells[..i + 1][..i] == nb.cells[..i];
      if cell.cellType == "markdown" {
        automated.AppendCell(cell);
      } else if cell.cellType == "code" {
        if Contains(cell.source, UploadMarker) {
          var newCell := NewCodeCell;
          newCell := newCell.(source := LoaderSource(changedFiles, printable));
          automated.AppendCell(newCell);
        } else if Contains(cell.source, DownloadMarker) {
          var newCell := NewCodeCell;
          newCell := newCell.(source := NoticeSource);
          automated.AppendCell(newCell);
        } else {
          automated.AppendCell(cell);
        }
      }
    }
    assert nb.cells[..|nb.cells|] == nb.cells;
  }

  /** The cells are rewritten one at a time: the automated cells of two runs
      of cells are those of the first followed by those of the second. */
  lemma {:induction false} RewriteCellsAppend(a: seq<Cell>, b: seq<Cell>, loader: string)
    ensures RewriteCells(a + b, loader) == RewriteCells(a, loader) + RewriteCells(b, loader)
    decreases |b|
  {
    if b == [] {
      assert a + b == a;
    } else {
      var n := |b| - 1;
      assert (a + b)[..|a + b| - 1] == a + b[..n];
      RewriteCellsAppend(a, b[..n], loader);
    }
  }

  /** Keeps the cells whose type is `t`, in order. */
  function OfType(cells: seq<Cell>, t: string): (r: seq<Cell>)
    ensures forall k :: 0 <= k < |r| ==> r[k].cellType == t
  {
    if cells == [] then []
    else OfType(cells[..|cells| - 1], t) + (if cells[|cells| - 1].cellType == t then [cells[|cells| - 1]] else [])
  }

  /** The cell types the notebook keeps. */
  predicate Kept(cell: Cell) {
    cell.cellType == "markdown" || cell.cellType == "code"
  }

  /** The positions of the markdown and code cells, in increasing order. */
  function KeptIndices(cells: seq<Cell>): (r: seq<nat>)
    ensures forall j :: 0 <= j < |r| ==> r[j] < |cells| && Kept(cells[r[j]])
    ensures forall j, l :: 0 <= j < l < |r| ==> r[j] < r[l]
    ensures forall k :: 0 <= k < |cells| && Kept(cells[k]) ==> k in r
  {
    if cells == [] then []
    else
      var n := |cells| - 1;
      var init := KeptIndices(cells[..n]);
      assert forall j :: 0 <= j < |init| ==> cells[..n][init[j]] == cells[init[j]];
      assert forall k :: 0 <= k < n ==> cells[..n][k] == cells[k];
      init + (if Kept(cells[n]) then [n] else [])
  }

  /** The automated notebook has one cell per markdown or code cell of the
      original, in the original order: the `j`th is what the `j`th such
      cell becomes, and is markdown or code. */
  lemma {:induction false} RewriteCellsOrder(cells: seq<Cell>, loader: string)
    ensures var out, idx := RewriteCells(cells, loader), KeptIndices(cells);
            && |out| == |idx|
            && forall j :: 0 <= j < |out| ==>
                 Rewritten(cells[idx[j]], loader) == Some(out[j]) && Kept(out[j])
  {
    if cells != [] {
      var n := |cells| - 1;
      var init := cells[..n];
      RewriteCellsOrder(init, loader);
      var idx := KeptIndices(init);
      assert forall j :: 0 <= j < |idx| ==> init[idx[j]] == cells[idx[j]];
    }
  }

  /** The markdown cells of the automated notebook are the original's
      markdown cells, unchanged and in order. */
  lemma {:induction false} RewriteCellsMarkdown(cells: seq<Cell>, loader: string)
    ensures OfType(RewriteCells(cells, loader), "markdown") == OfType(cells, "markdown")
  {
    if cells != [] {
      var n := |cells| - 1;
      var init := cells[..n];
      RewriteCellsMarkdown(init, loader);
      var r := Rewritten(cells[n], loader);
      var extra := if r.Some? then [r.value] else [];
      OfTypeAppend(RewriteCells(init, loader), extra, "markdown");
    }
  }

  /** Keeping the cells of one type works piece by piece. */
  lemma {:induction false} OfTypeAppend(a: seq<Cell>, b: seq<Cell>, t: string)
    ensures OfType(a + b, t) == OfType(a, t) + OfType(b, t)
    decreases |b|
  {
    if b == [] {
      assert a + b == a;
    } else {
      var n := |b| - 1;
      assert (a + b)[..|a + b| - 1] == a + b[..n];
      OfTypeAppend(a, b[..n], t);
    }
  }

  /** A list display written between two pieces of text reads back as the
      list, leaving the second piece. */
  lemma EmbeddedListReads(head: string, xs: seq<string>, printable: char -> bool, tail: string)
    ensures var src := head + ListRepr(xs, printable) + tail;
            src[..|head|] == head && ReadList(src[|head|..]) == Some((xs, tail))
  {
    var src := head + ListRepr(xs, printable) + tail;
    assert src[|head|..] == ListRepr(xs, printable) + tail;
    ListReprReads(xs, printable, tail);
  }

  /** The template around the list: the head ends with the assignment to
      `audio_files` on a line of its own, and the tail starts a new line. */
  lemma LoaderTemplate()
    ensures EndsWith(LoaderHead, "\naudio_files = ")
    ensures LoaderTail[0] == '\n'
  {
    var a, b := "# Automatically load files from repository\nimport os\n\nuploaded = {}", "\naudio_files = ";
    assert LoaderHead == a + b;
    assert (a + b)[|a|..] == b;
    assert LoaderTail == "\n\n" + LoaderTail[2..];
  }

  /** The loader cell assigns to `audio_files`, on a line of its own, a list
      display that reads back as exactly the changed files, followed by the
      rest of the template. */
  lemma LoaderReadsBack(changedFiles: seq<string>, printable: char -> bool)
    ensures var src := LoaderSource(changedFiles, printable);
            && src[..|LoaderHead|] == LoaderHead
            && EndsWith(LoaderHead, "\naudio_files = ")
            && ReadList(src[|LoaderHead|..]) == Some((changedFiles, LoaderTail))
            && '\n' !in ListRepr(changedFiles, printable)
            && LoaderTail[0] == '\n'
  {
    EmbeddedListReads(LoaderHead, changedFiles, printable, LoaderTail);
    ListReprOneLine(changedFiles, printable);
    LoaderTemplate();
  }
}
