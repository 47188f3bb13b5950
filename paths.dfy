/** The part of `pathlib.PurePosixPath` the scripts rely on: building a path
    from a string, `.name`, `.suffix`, `.with_suffix()`, `.parent`, the `/`
    operator and `.relative_to()`. */
module Paths {
  import opened Text
  import opened Optional

  /** A path as pathlib holds it after normalisation: its anchor (`""` for a
      relative path, `"/"` or `"//"` for an absolute one) and its components,
      none empty and none `"."`. */
  datatype Path = Path(anchor: string, parts: seq<string>)

  predicate ValidPart(p: string) {
    p != "" && p != "." && '/' !in p
  }

  predicate Valid(p: Path) {
    (p.anchor == "" || p.anchor == "/" || p.anchor == "//")
    && forall k :: 0 <= k < |p.parts| ==> ValidPart(p.parts[k])
  }

  /** The root of a POSIX path string: exactly two leading slashes are kept
      as they are, one or more than two stand for the root `/`. */
  function AnchorOf(s: string): string {
    if |s| >= 2 && s[0] == '/' && s[1] == '/' && (|s| == 2 || s[2] != '/') then "//"
    else if |s| >= 1 && s[0] == '/' then "/"
    else ""
  }

  /** The pieces between slashes that become components: empty pieces (from
      repeated or surrounding slashes) and `"."` are dropped, order is kept. */
  function KeptParts(pieces: seq<string>): (r: seq<string>)
    ensures |r| <= |pieces|
  {
    if pieces == [] then []
    else (if pieces[0] == "" || pieces[0] == "." then [] else [pieces[0]]) + KeptParts(pieces[1..])
  }

  lemma {:induction false} KeptPartsValid(pieces: seq<string>)
    requires forall k :: 0 <= k < |pieces| ==> '/' !in pieces[k]
    ensures forall k :: 0 <= k < |KeptParts(pieces)| ==> ValidPart(KeptParts(pieces)[k])
  {
    if pieces != [] {
      KeptPartsValid(pieces[1..]);
    }
  }

  lemma {:induction false} KeptPartsOfValid(pieces: seq<string>)
    requires forall k :: 0 <= k < |pieces| ==> ValidPart(pieces[k])
    ensures KeptParts(pieces) == pieces
  {
    if pieces != [] {
      KeptPartsOfValid(pieces[1..]);
    }
  }

  /** `Path(s)`. */
  function Parse(s: string): (p: Path)
    ensures Valid(p)
  {
    KeptPartsValid(Split(s, '/'));
    Path(AnchorOf(s), KeptParts(Split(s, '/')))
  }

  /** `str(p)`: the anchor, then the components joined by slashes; `"."` for
      the empty relative path. */
  function Render(p: Path): string {
    if p.anchor == "" && p.parts == [] then "." else p.anchor + Join(p.parts, '/')
  }

  /** Building a path from its own string form gives the same path back. */
  lemma ParseRender(p: Path)
    requires Valid(p)
    ensures Parse(Render(p)) == p
  {
    if p.parts == [] {
      ParseRenderAnchorOnly(p.anchor);
    } else {
      ParseRenderWithParts(p);
    }
  }

  lemma ParseRenderAnchorOnly(anchor: string)
    requires anchor == "" || anchor == "/" || anchor == "//"
    ensures Parse(Render(Path(anchor, []))) == Path(anchor, [])
  {
    var s := Render(Path(anchor, []));
    assert Split("", '/') == [""];
    if anchor == "" {
      assert s == ".";
      assert Split(s, '/') == ["."];
    } else if anchor == "/" {
      assert s == "/";
      assert IndexOf(s, '/') == 0;
      assert Split(s, '/') == [""] + Split("", '/');
      assert KeptParts(["", ""]) == [] + KeptParts([""]);
    } else {
      assert s == "//";
      assert IndexOf(s, '/') == 0;
      assert s[1..] == "/";
      assert Split(s, '/') == [""] + Split("/", '/');
      assert IndexOf("/", '/') == 0;
      assert Split("/", '/') == [""] + Split("", '/');
      assert Split(s, '/') == ["", "", ""];
      assert KeptParts(["", "", ""]) == [] + KeptParts(["", ""]);
      assert KeptParts(["", ""]) == [] + KeptParts([""]);
    }
  }

  /** The pieces a path's string form splits into at its slashes. */
  function Pieces(p: Path): seq<string> {
    (if p.anchor == "" then [] else if p.anchor == "/" then [""] else ["", ""]) + p.parts
  }

  lemma JoinFirst(parts: seq<string>, sep: char)
    requires |parts| >= 1 && |parts[0]| >= 1
    ensures |Join(parts, sep)| >= 1 && Join(parts, sep)[0] == parts[0][0]
  {
  }

  /** A leading empty piece joins as a leading slash. */
  lemma JoinLeadingEmpty(parts: seq<string>)
    requires |parts| >= 1
    ensures Join([""] + parts, '/') == "/" + Join(parts, '/')
  {
    assert ([""] + parts)[1..] == parts;
  }

  lemma RenderPieces(p: Path)
    requires Valid(p) && p.parts != []
    ensures Render(p) == Join(Pieces(p), '/')
  {
    if p.anchor == "/" {
      JoinLeadingEmpty(p.parts);
    } else if p.anchor == "//" {
      JoinLeadingEmpty(p.parts);
      JoinLeadingEmpty([""] + p.parts);
      assert [""] + ([""] + p.parts) == ["", ""] + p.parts;
      assert "//" + Join(p.parts, '/') == "/" + ("/" + Join(p.parts, '/'));
    } else {
      assert Pieces(p) == p.parts;
    }
  }

  lemma KeptPieces(p: Path)
    requires Valid(p)
    ensures KeptParts(Pieces(p)) == p.parts
  {
    var pieces := Pieces(p);
    KeptPartsOfValid(p.parts);
    if p.anchor == "/" {
      assert KeptParts(pieces) == [] + KeptParts(p.parts);
    } else if p.anchor == "//" {
      assert pieces[1..] == [""] + p.parts;
      assert KeptParts(pieces) == [] + KeptParts([""] + p.parts);
      assert KeptParts([""] + p.parts) == [] + KeptParts(p.parts);
    } else {
      assert pieces == p.parts;
    }
  }

  lemma AnchorOfRender(p: Path)
    requires Valid(p) && p.parts != []
    ensures AnchorOf(Render(p)) == p.anchor
  {
    var s := Render(p);
    var body := Join(p.parts, '/');
    JoinFirst(p.parts, '/');
    assert body[0] != '/';
    assert s == p.anchor + body;
    if p.anchor == "" {
      assert s[0] == body[0];
    } else if p.anchor == "/" {
      assert s[0] == '/' && s[1] == body[0];
    } else {
      assert s[0] == '/' && s[1] == '/' && s[2] == body[0];
    }
  }

  lemma ParseRenderWithParts(p: Path)
    requires Valid(p) && p.parts != []
    ensures Parse(Render(p)) == p
  {
    var pieces := Pieces(p);
    RenderPieces(p);
    assert forall k :: 0 <= k < |pieces| ==> '/' !in pieces[k];
    SplitJoin(pieces, '/');
    KeptPieces(p);
    AnchorOfRender(p);
  }

  /** `.name`: the final component, or `""` when there is none. */
  function Name(p: Path): string {
    if p.parts == [] then "" else p.parts[|p.parts| - 1]
  }

  /** `.parent`: the path less its final component; a path without
      components is its own parent. */
  function Parent(p: Path): Path {
    if p.parts == [] then p else Path(p.anchor, p.parts[..|p.parts| - 1])
  }

  /** `.suffix` of a name: from its last dot on, provided that dot neither
      starts nor ends the name; otherwise empty. */
  function Suffix(name: string): (x: string)
    ensures x == [] || (2 <= |x| < |name| && x[0] == '.' && EndsWith(name, x)
                        && forall k :: 1 <= k < |x| ==> x[k] != '.')
  {
    var i := RFind(name, '.');
    if 0 < i < |name| - 1 then name[i..] else []
  }

  /** `.stem` of a name: the name less its suffix. */
  function Stem(name: string): (r: string)
    ensures name != "" ==> r != ""
  {
    name[..|name| - |Suffix(name)|]
  }

  /** The suffixes `.with_suffix` accepts: no slash, and either empty or a
      dot followed by at least one character. */
  predicate ValidSuffix(x: string) {
    '/' !in x && (x == [] || (x[0] == '.' && x != "."))
  }

  /** `.with_suffix(x)`: the final component's suffix replaced by `x` (added
      when it had none). `None` stands for the `ValueError` raised for an
      invalid suffix or a path without a name. */
  function WithSuffix(p: Path, x: string): (r: Option<Path>)
    ensures r.Some? <==> ValidSuffix(x) && Name(p) != ""
    ensures r.Some? ==> r.value.anchor == p.anchor && |r.value.parts| == |p.parts|
  {
    if !ValidSuffix(x) || Name(p) == "" then None
    else Some(Path(p.anchor, p.parts[..|p.parts| - 1] + [Stem(Name(p)) + x]))
  }

  /** An extension such as `.txt` or `.pdf`: a dot, then one or more
      characters none of which is a dot or a slash. */
  predicate SimpleSuffix(x: string) {
    |x| >= 2 && x[0] == '.' && forall k :: 1 <= k < |x| ==> x[k] != '.' && x[k] != '/'
  }

  /** Appending an extension to a non-empty stem gives a name whose suffix
      is that extension and whose stem is that stem. */
  lemma SuffixOfAppended(stem: string, x: string)
    requires stem != "" && SimpleSuffix(x)
    ensures Suffix(stem + x) == x && Stem(stem + x) == stem
  {
    var n := stem + x;
    assert n[|stem|] == '.';
    assert forall k :: |stem| < k < |n| ==> n[k] == x[k - |stem|];
    assert RFind(n, '.') == |stem|;
    assert n[|stem|..] == x;
  }

  /** A component of a path contains no slash, nor does its stem, nor the
      stem with an extension appended. */
  lemma StemPartValid(name: string, x: string)
    requires ValidPart(name) && SimpleSuffix(x)
    ensures ValidPart(Stem(name) + x)
  {
    var stem := Stem(name);
    assert stem == name[..|stem|];
    assert '/' !in stem;
    var n := stem + x;
    assert forall k :: 0 <= k < |n| ==> n[k] == (if k < |stem| then stem[k] else x[k - |stem|]);
    assert n != ".";
  }

  /** `.with_suffix(x)` with an extension replaces exactly the final
      extension: the new name has suffix `x` and the old stem, the parent is
      unchanged, and the result is a well-formed path. */
  lemma WithSuffixReplaces(p: Path, x: string)
    requires Valid(p) && Name(p) != "" && SimpleSuffix(x)
    ensures WithSuffix(p, x).Some?
    ensures var q := WithSuffix(p, x).value;
            Valid(q) && Suffix(Name(q)) == x && Stem(Name(q)) == Stem(Name(p)) && Parent(q) == Parent(p)
  {
    var name := Name(p);
    var q := WithSuffix(p, x).value;
    var n := Stem(name) + x;
    assert q.parts == p.parts[..|p.parts| - 1] + [n];
    assert Name(q) == n;
    SuffixOfAppended(Stem(name), x);
    StemPartValid(name, x);
    assert q.parts[..|q.parts| - 1] == p.parts[..|p.parts| - 1];
  }

  /** `d / r`: the components of `r` appended to `d`; an absolute `r`
      replaces `d`. */
  function JoinPath(d: Path, r: Path): Path {
    if r.anchor != "" then r else Path(d.anchor, d.parts + r.parts)
  }

  /** `p.relative_to(d)`: the components of `p` past `d`, when `d` is `p` or
      one of its ancestors; `None` stands for the `ValueError` raised
      otherwise. Joining the result back onto `d` gives `p`. */
  function RelativeTo(p: Path, d: Path): (r: Option<Path>)
    ensures r.Some? <==> p.anchor == d.anchor && |d.parts| <= |p.parts| && p.parts[..|d.parts|] == d.parts
    ensures r.Some? ==> r.value.anchor == "" && JoinPath(d, r.value) == p
  {
    if p.anchor == d.anchor && |d.parts| <= |p.parts| && p.parts[..|d.parts|] == d.parts then
      assert d.parts + p.parts[|d.parts|..] == p.parts;
      Some(Path("", p.parts[|d.parts|..]))
    else None
  }

  /** A relative path joined onto a directory is relative to that directory
      again, and `relative_to` recovers it. */
  lemma RelativeToJoin(d: Path, r: Path)
    requires r.anchor == ""
    ensures RelativeTo(JoinPath(d, r), d) == Some(r)
  {
    assert (d.parts + r.parts)[..|d.parts|] == d.parts;
    assert (d.parts + r.parts)[|d.parts|..] == r.parts;
  }
}
