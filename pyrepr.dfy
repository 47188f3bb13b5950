/** `repr()` of a Python string and of a list of strings, as an f-string
    prints a list (`f"{changed_files}"`), and a reader for what it prints, so
    that the list written into generated code can be shown to read back as
    the same list. Which characters above U+007F count as printable comes
    from the Unicode database, which is not part of this model: it is the
    parameter `printable`. */
module PyRepr {
  import opened Optional
  import opened Text

  /** A lower-case hexadecimal digit. */
  function HexDigit(d: nat): (c: char)
    requires d < 16
  {
    if d < 10 then ('0' as int + d) as char else ('a' as int + d - 10) as char
  }

  /** The value of a hexadecimal digit of either case. */
  function HexValue(c: char): Option<nat> {
    if '0' <= c <= '9' then Some(c as int - '0' as int)
    else if 'a' <= c <= 'f' then Some(c as int - 'a' as int + 10)
    else if 'A' <= c <= 'F' then Some(c as int - 'A' as int + 10)
    else None
  }

  function Pow16(width: nat): (r: nat)
    ensures r >= 1
  {
    if width == 0 then 1 else 16 * Pow16(width - 1)
  }

  /** `n` as exactly `width` lower-case hexadecimal digits. */
  function Hex(n: nat, width: nat): (s: string)
    ensures |s| == width
  {
    if width == 0 then [] else Hex(n / 16, width - 1) + [HexDigit(n % 16)]
  }

  /** A run of hexadecimal digits read as a number. */
  function ParseHex(s: string): Option<nat> {
    if s == [] then Some(0)
    else
      var init := ParseHex(s[..|s| - 1]);
      var last := HexValue(s[|s| - 1]);
      if init.Some? && last.Some? then Some(16 * init.value + last.value) else None
  }

  /** The digits `Hex` prints read back as the number, for a number that fits. */
  lemma {:induction false} ParseHexOf(n: nat, width: nat)
    requires n < Pow16(width)
    ensures ParseHex(Hex(n, width)) == Some(n)
  {
    if width > 0 {
      var s := Hex(n, width);
      assert s[..|s| - 1] == Hex(n / 16, width - 1);
      ParseHexOf(n / 16, width - 1);
      var d := n % 16;
      assert HexValue(HexDigit(d)) == Some(d);
    }
  }

  /** The escape `repr` writes for one character of a string quoted with
      `quote`: backslash and the quote escaped with a backslash, tab, newline
      and carriage return as `\t`, `\n`, `\r`, other control characters and
      DEL as `\xhh`, printable characters as themselves, and any other
      character as `\xhh`, `\uhhhh` or `\Uhhhhhhhh` by its size. */
  function Escape(c: char, quote: char, printable: char -> bool): (e: string)
    ensures |e| >= 1 && (e[0] == '\\' || e == [c])
  {
    var n := c as int;
    if c == quote || c == '\\' then ['\\', c]
    else if c == '\t' then "\\t"
    else if c == '\n' then "\\n"
    else if c == '\r' then "\\r"
    else if n < 0x20 || n == 0x7F then "\\x" + Hex(n, 2)
    else if n < 0x7F || printable(c) then [c]
    else if n <= 0xFF then "\\x" + Hex(n, 2)
    else if n <= 0xFFFF then "\\u" + Hex(n, 4)
    else "\\U" + Hex(n, 8)
  }

  /** The quote `repr` picks: `"` when the string holds `'` but no `"`,
      otherwise `'`. */
  function QuoteFor(s: string): (q: char)
    ensures q == '\'' || q == '"'
    ensures q == '"' <==> '\'' in s && '"' !in s
  {
    if '\'' in s && '"' !in s then '"' else '\''
  }

  /** The escaped characters of `s`, without the quotes. */
  function Escaped(s: string, quote: char, printable: char -> bool): string {
    if s == [] then [] else Escape(s[0], quote, printable) + Escaped(s[1..], quote, printable)
  }

  /** `repr(s)`. */
  function StrRepr(s: string, printable: char -> bool): (r: string)
    ensures |r| >= 2 && r[0] == r[|r| - 1] == QuoteFor(s)
  {
    var q := QuoteFor(s);
    [q] + Escaped(s, q, printable) + [q]
  }

  /** The items of a list display, separated by `, `. */
  function Items(xs: seq<string>, printable: char -> bool): string {
    if xs == [] then []
    else if |xs| == 1 then StrRepr(xs[0], printable)
    else StrRepr(xs[0], printable) + ", " + Items(xs[1..], printable)
  }

  /** `str(xs)` for a list of strings: `[` then the items' `repr`s separated
      by `, `, then `]`. */
  function ListRepr(xs: seq<string>, printable: char -> bool): (r: string)
    ensures |r| >= 2 && r[0] == '[' && r[|r| - 1] == ']'
  {
    "[" + Items(xs, printable) + "]"
  }

  /** The character whose code point is `n`, when there is one. */
  function CodePoint(n: nat): Option<char> {
    if n < 0xD800 || (0xE000 <= n < 0x110000) then Some(n as char) else None
  }

  /** Reads one character of a string literal quoted with `quote`, either
      plain or escaped; `None` at the closing quote, at the end of the text
      and at an escape this reader does not know. */
  function ReadChar(s: string, quote: char): (r: Option<(char, string)>)
    ensures r.Some? ==> |r.value.1| < |s|
  {
    if s == [] || s[0] == quote then None
    else if s[0] != '\\' then Some((s[0], s[1..]))
    else if |s| < 2 then None
    else
      var e := s[1];
      if e == '\\' || e == '\'' || e == '"' then Some((e, s[2..]))
      else if e == 't' then Some(('\t', s[2..]))
      else if e == 'n' then Some(('\n', s[2..]))
      else if e == 'r' then Some(('\r', s[2..]))
      else
        var width := if e == 'x' then 2 else if e == 'u' then 4 else if e == 'U' then 8 else 0;
        if width == 0 || |s| < 2 + width then None
        else
          var v := ParseHex(s[2..2 + width]);
          if v.None? || CodePoint(v.value).None? then None
          else Some((CodePoint(v.value).value, s[2 + width..]))
  }

  /** Reads the characters of a string literal up to and including its
      closing quote; gives the characters and the text after the quote. */
  function ReadBody(s: string, quote: char): Option<(string, string)>
    decreases |s|
  {
    if s != [] && s[0] == quote then Some(([], s[1..]))
    else
      var c := ReadChar(s, quote);
      if c.None? then None
      else
        var more := ReadBody(c.value.1, quote);
        if more.None? then None else Some(([c.value.0] + more.value.0, more.value.1))
  }

  /** Reads one string literal, quoted with `'` or `"`, at the start of `s`. */
  function ReadStr(s: string): Option<(string, string)> {
    if s != [] && (s[0] == '\'' || s[0] == '"') then ReadBody(s[1..], s[0]) else None
  }

  /** Reads the items of a list display up to and including its `]`; gives
      the items and the text after the `]`. */
  function ReadItems(s: string): Option<(seq<string>, string)>
    decreases |s|
  {
    var x := ReadStr(s);
    if x.None? then None
    else
      var rest := x.value.1;
      if rest != [] && rest[0] == ']' then Some(([x.value.0], rest[1..]))
      else if |rest| >= 2 && rest[..2] == ", " && |rest| < |s| then
        var more := ReadItems(rest[2..]);
        if more.None? then None else Some(([x.value.0] + more.value.0, more.value.1))
      else None
  }

  /** Reads a list display of string literals, such as `['a', "b's"]`, at
      the start of `s`; gives the list and the text after it. */
  function ReadList(s: string): Option<(seq<string>, string)> {
    if |s| >= 2 && s[..2] == "[]" then Some(([], s[2..]))
    else if s != [] && s[0] == '[' then ReadItems(s[1..])
    else None
  }

  /** The escape of each character reads back as that character. */
  lemma EscapeReads(c: char, quote: char, printable: char -> bool, rest: string)
    requires quote == '\'' || quote == '"'
    ensures ReadChar(Escape(c, quote, printable) + rest, quote) == Some((c, rest))
  {
    var n := c as int;
    var e := Escape(c, quote, printable);
    var s := e + rest;
    if c == quote || c == '\\' || c == '\t' || c == '\n' || c == '\r' {
      assert s[2..] == rest;
    } else if n < 0x20 || n == 0x7F || (!(n < 0x7F || printable(c)) && n <= 0xFF) {
      HexEscapeReads(n, 2, 'x', rest);
    } else if n < 0x7F || printable(c) {
      assert s[1..] == rest;
    } else if n <= 0xFFFF {
      HexEscapeReads(n, 4, 'u', rest);
    } else {
      HexEscapeReads(n, 8, 'U', rest);
    }
  }

  /** A `\x`, `\u` or `\U` escape of a code point reads back as it. */
  lemma HexEscapeReads(n: nat, width: nat, letter: char, rest: string)
    requires (letter == 'x' && width == 2) || (letter == 'u' && width == 4) || (letter == 'U' && width == 8)
    requires n < Pow16(width) && CodePoint(n).Some?
    ensures forall quote :: quote == '\'' || quote == '"' ==>
              ReadChar(['\\', letter] + Hex(n, width) + rest, quote) == Some((CodePoint(n).value, rest))
  {
    var s := ['\\', letter] + Hex(n, width) + rest;
    assert s[2..2 + width] == Hex(n, width);
    assert s[2 + width..] == rest;
    ParseHexOf(n, width);
  }

  /** The escaped characters followed by the closing quote read back as the
      string. */
  lemma {:induction false} EscapedReads(x: string, quote: char, printable: char -> bool, rest: string)
    requires quote == '\'' || quote == '"'
    ensures ReadBody(Escaped(x, quote, printable) + [quote] + rest, quote) == Some((x, rest))
  {
    var s := Escaped(x, quote, printable) + [quote] + rest;
    if x == [] {
      assert s == [quote] + rest;
    } else {
      var tail := Escaped(x[1..], quote, printable) + [quote] + rest;
      assert s == Escape(x[0], quote, printable) + tail;
      EscapeReads(x[0], quote, printable, tail);
      EscapedReads(x[1..], quote, printable, rest);
      assert [x[0]] + x[1..] == x;
    }
  }

  /** `repr(x)` reads back as `x`, leaving what follows it. */
  lemma StrReprReads(x: string, printable: char -> bool, rest: string)
    ensures ReadStr(StrRepr(x, printable) + rest) == Some((x, rest))
  {
    var q := QuoteFor(x);
    var s := StrRepr(x, printable) + rest;
    assert s[1..] == Escaped(x, q, printable) + [q] + rest;
    EscapedReads(x, q, printable, rest);
  }

  /** An item followed by `, ` and more items reads as that item, then the
      rest. */
  lemma ReadItemsCons(x: string, printable: char -> bool, tail: string)
    ensures var more := ReadItems(tail);
            ReadItems(StrRepr(x, printable) + (", " + tail))
            == if more.None? then None else Some(([x] + more.value.0, more.value.1))
  {
    var rest := ", " + tail;
    StrReprReads(x, printable, rest);
    assert rest[0] == ',';
    assert rest[..2] == ", " && rest[2..] == tail;
  }

  /** The items of a non-empty list followed by `]` read back as the list,
      leaving what follows the `]`. */
  lemma {:induction false} ItemsReads(xs: seq<string>, printable: char -> bool, after: string)
    requires xs != []
    ensures ReadItems(Items(xs, printable) + "]" + after) == Some((xs, after))
    decreases |xs|
  {
    if |xs| == 1 {
      assert Items(xs, printable) + "]" + after == StrRepr(xs[0], printable) + ("]" + after);
      ReadItemsLast(xs[0], printable, after);
      assert [xs[0]] == xs;
    } else {
      var tail := Items(xs[1..], printable) + "]" + after;
      ItemsSplit(xs, printable, after);
      ReadItemsCons(xs[0], printable, tail);
      ItemsReads(xs[1..], printable, after);
      assert [xs[0]] + xs[1..] == xs;
    }
  }

  /** The last item, followed by `]`, reads as a one-item list. */
  lemma ReadItemsLast(x: string, printable: char -> bool, after: string)
    ensures ReadItems(StrRepr(x, printable) + ("]" + after)) == Some(([x], after))
  {
    StrReprReads(x, printable, "]" + after);
    assert ("]" + after)[0] == ']' && ("]" + after)[1..] == after;
  }

  /** The first item of a longer list, its `, `, and the others. */
  lemma ItemsSplit(xs: seq<string>, printable: char -> bool, after: string)
    requires |xs| >= 2
    ensures Items(xs, printable) + "]" + after
         == StrRepr(xs[0], printable) + (", " + (Items(xs[1..], printable) + "]" + after))
  {
    var a, i := StrRepr(xs[0], printable), Items(xs[1..], printable);
    assert Items(xs, printable) == a + ", " + i;
    Regroup(a, ", ", i, "]", after);
  }

  /** Four pieces regrouped after the first. */
  lemma Regroup4(a: string, b: string, c: string, d: string)
    ensures a + b + c + d == a + (b + c + d)
  {
  }

  /** Concatenation regrouped to the right. */
  lemma Regroup(a: string, b: string, i: string, c: string, d: string)
    ensures a + b + i + c + d == a + (b + (i + c + d))
  {
  }

  /** `str(xs)` read back as a list display is `xs`, and the reader stops
      right after it: a list of strings written into generated code
      evaluates to the same list. */
  lemma ListReprReads(xs: seq<string>, printable: char -> bool, after: string)
    ensures ReadList(ListRepr(xs, printable) + after) == Some((xs, after))
  {
    if xs == [] {
      EmptyListRepr(printable);
      PrefixSplit("[]", after);
    } else {
      var s := ListRepr(xs, printable) + after;
      ListReprSplit(xs, printable, after);
      ItemsReads(xs, printable, after);
      assert s[1] != ']' by {
        ItemsFirst(xs, printable);
      }
    }
  }

  /** `str([])` is `[]`. */
  lemma EmptyListRepr(printable: char -> bool)
    ensures ListRepr([], printable) == "[]"
  {
    assert Items([], printable) == [];
  }

  /** A list display followed by more text: the `[`, then the items, the
      `]` and the text. */
  lemma ListReprSplit(xs: seq<string>, printable: char -> bool, after: string)
    ensures var s, body := ListRepr(xs, printable) + after, Items(xs, printable) + "]" + after;
            s == "[" + body && s[0] == '[' && s[1..] == body
  {
    var items := Items(xs, printable);
    Regroup4("[", items, "]", after);
    PrefixSplit("[", items + "]" + after);
  }


  /** A non-empty list's items start with the first item's opening quote. */
  lemma ItemsFirst(xs: seq<string>, printable: char -> bool)
    requires xs != []
    ensures Items(xs, printable) != [] && Items(xs, printable)[0] == QuoteFor(xs[0])
  {
    var r := StrRepr(xs[0], printable);
    if |xs| > 1 {
      assert Items(xs, printable)[0] == (r + ", ")[0] == r[0];
    }
  }


  /** A `repr` never holds a raw newline: a newline in the string is written
      as `\n`. */
  lemma {:induction false} EscapedOneLine(x: string, quote: char, printable: char -> bool)
    requires quote == '\'' || quote == '"'
    ensures '\n' !in Escaped(x, quote, printable)
  {
    if x != [] {
      EscapedOneLine(x[1..], quote, printable);
      var c := x[0];
      var e := Escape(c, quote, printable);
      assert '\n' !in e by {
        var n := c as int;
        if n < 0x20 || n == 0x7F || (!(n < 0x7F || printable(c)) && n <= 0xFF) {
          if !(c == quote || c == '\\' || c == '\t' || c == '\n' || c == '\r') {
            HexOneLine(n, 2);
          }
        } else if !(n < 0x7F || printable(c)) {
          HexOneLine(n, 4);
          HexOneLine(n, 8);
        }
      }
    }
  }

  /** Hexadecimal digits are not newlines. */
  lemma {:induction false} HexOneLine(n: nat, width: nat)
    ensures '\n' !in Hex(n, width)
  {
    if width > 0 {
      HexOneLine(n / 16, width - 1);
    }
  }

  /** `str(xs)` fits on one line. */
  lemma ListReprOneLine(xs: seq<string>, printable: char -> bool)
    ensures '\n' !in ListRepr(xs, printable)
  {
    ItemsOneLine(xs, printable);
  }

  lemma {:induction false} ItemsOneLine(xs: seq<string>, printable: char -> bool)
    ensures '\n' !in Items(xs, printable)
  {
    if xs != [] {
      EscapedOneLine(xs[0], QuoteFor(xs[0]), printable);
      ItemsOneLine(xs[1..], printable);
    }
  }
}
