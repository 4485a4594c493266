/**
 * The markdown outline of one file: a fixed header, then one line per
 * symbol in pre-order, indented two spaces per level of nesting.
 */
module Markdown {
  import opened Wrappers
  import opened Symbols

  const Header: string := "# OUTLINE\n\n"

  // ----- pieces of a line -----

  /** Two spaces per level. */
  function Indent(depth: nat): (s: string)
    ensures |s| == 2 * depth
    ensures forall i :: 0 <= i < |s| ==> s[i] == ' '
  {
    if depth == 0 then "" else "  " + Indent(depth - 1)
  }

  function Digit(d: nat): (c: char)
    requires d < 10
    ensures '0' <= c <= '9'
  {
    ('0' as int + d) as char
  }

  /** A natural number in decimal, without leading zeros. */
  function DecimalString(n: nat): (s: string)
    ensures |s| > 0 && forall i :: 0 <= i < |s| ==> '0' <= s[i] <= '9'
    ensures |s| > 1 ==> s[0] != '0'
  {
    if n < 10 then [Digit(n)] else DecimalString(n / 10) + [Digit(n % 10)]
  }

  /** Reads a string of decimal digits back as a number. */
  function DecimalValue(s: string): nat
    requires forall i :: 0 <= i < |s| ==> '0' <= s[i] <= '9'
  {
    if |s| == 0 then 0
    else 10 * DecimalValue(s[..|s| - 1]) + (s[|s| - 1] as int - '0' as int)
  }

  /** Printing a line number and reading it back gives the number. */
  lemma {:induction false} DecimalRoundTrip(n: nat)
    ensures DecimalValue(DecimalString(n)) == n
  {
    var s := DecimalString(n);
    if n >= 10 {
      DecimalRoundTrip(n / 10);
      assert s[..|s| - 1] == DecimalString(n / 10);
    }
  }

  /** The pieces of a formatted line, written one after another. */
  function Concat(pieces: seq<string>): string
  {
    if |pieces| == 0 then "" else pieces[0] + Concat(pieces[1..])
  }

  /** The line of one symbol: indent, kind, name in backticks and its one-based start line. */
  function SymbolLine(sym: Symbol, depth: nat): string
  {
    Concat([Indent(depth), "- [", KindName(sym.kind), "] `", sym.name, "` (line ",
      DecimalString(sym.range.start.line), ")\n"])
  }

  /**
   * A symbol's line opens with two spaces per level and a list marker,
   * and closes with a line break.
   */
  lemma SymbolLineLayout(sym: Symbol, depth: nat)
    ensures var line := SymbolLine(sym, depth);
      && |line| > 2 * depth + 1
      && (forall i :: 0 <= i < 2 * depth ==> line[i] == ' ')
      && line[2 * depth] == '-'
      && line[|line| - 1] == '\n'
  {
    var pieces := [Indent(depth), "- [", KindName(sym.kind), "] `", sym.name, "` (line ",
      DecimalString(sym.range.start.line), ")\n"];
    var line := SymbolLine(sym, depth);
    assert line == Indent(depth) + Concat(pieces[1..]);
    assert pieces[1..][1..] == pieces[2..];
    assert Concat(pieces[1..]) == "- [" + Concat(pieces[2..]);
    ConcatAppend(pieces[..7], pieces[7..]);
    assert pieces[..7] + pieces[7..] == pieces;
    assert Concat(pieces[7..]) == ")\n" by {
      assert pieces[7..][1..] == [];
    }
    assert line[2 * depth] == "- ["[0];
  }

  // ----- the outline -----

  /** A symbol's line followed by its children's lines one level deeper. */
  function SymbolText(sym: Symbol, depth: nat): string
    decreases sym, 1
  {
    SymbolLine(sym, depth) + Outline(sym.children, depth + 1)
  }

  function Outline(forest: seq<Symbol>, depth: nat): string
    decreases forest, 0
  {
    if |forest| == 0 then "" else SymbolText(forest[0], depth) + Outline(forest[1..], depth)
  }

  /** The whole document `render_single` produces. */
  function Rendered(m: FileMap): (s: string)
    ensures Header <= s
    ensures |m.symbols| == 0 ==> s == Header
  {
    Header + Outline(m.symbols, 0)
  }

  lemma {:induction false} OutlineAppend(forest: seq<Symbol>, sym: Symbol, depth: nat)
    ensures Outline(forest + [sym], depth) == Outline(forest, depth) + SymbolText(sym, depth)
    decreases |forest|
  {
    if |forest| == 0 {
      assert [] + [sym] == [sym];
      assert [sym][1..] == [];
    } else {
      assert (forest + [sym])[0] == forest[0];
      assert (forest + [sym])[1..] == forest[1..] + [sym];
      OutlineAppend(forest[1..], sym, depth);
    }
  }

  // ----- the outline is the pre-order list of (symbol, depth) -----

  /** Every symbol paired with its depth, parents before children, siblings in order. */
  function PreorderDepths(forest: seq<Symbol>, depth: nat): seq<(Symbol, nat)>
    decreases forest
  {
    if |forest| == 0 then []
    else
      var below := PreorderDepths(forest[0].children, depth + 1);
      [(forest[0], depth)] + below + PreorderDepths(forest[1..], depth)
  }

  function JoinLines(entries: seq<(Symbol, nat)>): string
  {
    if |entries| == 0 then "" else SymbolLine(entries[0].0, entries[0].1) + JoinLines(entries[1..])
  }

  lemma {:induction false} JoinLinesConcat(a: seq<(Symbol, nat)>, b: seq<(Symbol, nat)>)
    ensures JoinLines(a + b) == JoinLines(a) + JoinLines(b)
    decreases |a|
  {
    if |a| == 0 {
      assert a + b == b;
    } else {
      assert (a + b)[0] == a[0] && (a + b)[1..] == a[1..] + b;
      JoinLinesConcat(a[1..], b);
    }
  }

  /**
   * The outline is one line per symbol, in pre-order, each at its depth:
   * roots at the given depth and children one deeper than their parent.
   */
  lemma {:induction false} OutlineIsPreorder(forest: seq<Symbol>, depth: nat)
    ensures Outline(forest, depth) == JoinLines(PreorderDepths(forest, depth))
    decreases forest
  {
    if |forest| > 0 {
      var head := [(forest[0], depth)];
      var kids := PreorderDepths(forest[0].children, depth + 1);
      var rest := PreorderDepths(forest[1..], depth);
      OutlineIsPreorder(forest[0].children, depth + 1);
      OutlineIsPreorder(forest[1..], depth);
      JoinLinesConcat(head + kids, rest);
      JoinLinesConcat(head, kids);
      assert JoinLines(head) == SymbolLine(forest[0], depth) by {
        assert head[1..] == [];
      }
    }
  }

  /** There is one entry per symbol of the forest. */
  lemma {:induction false} PreorderDepthsCount(forest: seq<Symbol>, depth: nat)
    ensures |PreorderDepths(forest, depth)| == Count(forest)
    decreases forest
  {
    if |forest| > 0 {
      PreorderDepthsCount(forest[0].children, depth + 1);
      PreorderDepthsCount(forest[1..], depth);
    }
  }

  // ----- one line per symbol -----

  /** The number of line breaks in a string. */
  function Newlines(s: string): nat
  {
    if |s| == 0 then 0 else (if s[0] == '\n' then 1 else 0) + Newlines(s[1..])
  }

  lemma {:induction false} NewlinesAppend(a: string, b: string)
    ensures Newlines(a + b) == Newlines(a) + Newlines(b)
    decreases |a|
  {
    if |a| == 0 {
      assert a + b == b;
    } else {
      assert (a + b)[0] == a[0] && (a + b)[1..] == a[1..] + b;
      NewlinesAppend(a[1..], b);
    }
  }

  lemma {:induction false} NoNewlines(s: string)
    requires '\n' !in s
    ensures Newlines(s) == 0
    decreases |s|
  {
    if |s| > 0 {
      assert s[0] in s && forall c :: c in s[1..] ==> c in s;
      NoNewlines(s[1..]);
    }
  }

  /** Pieces without line breaks, except perhaps the last, contribute only the last one's. */
  lemma {:induction false} ConcatNewlines(pieces: seq<string>)
    requires |pieces| > 0
    requires forall i :: 0 <= i < |pieces| - 1 ==> '\n' !in pieces[i]
    ensures Newlines(Concat(pieces)) == Newlines(pieces[|pieces| - 1])
    decreases |pieces|
  {
    if |pieces| == 1 {
      assert Concat(pieces) == pieces[0] + Concat([]);
      assert pieces[0] + "" == pieces[0];
    } else {
      NoNewlines(pieces[0]);
      NewlinesAppend(pieces[0], Concat(pieces[1..]));
      ConcatNewlines(pieces[1..]);
    }
  }

  /** No symbol name in the forest contains a line break. */
  predicate SingleLineNames(forest: seq<Symbol>)
    decreases forest
  {
    forall i :: 0 <= i < |forest| ==>
      '\n' !in forest[i].name && SingleLineNames(forest[i].children)
  }

  /** A symbol's line ends in the only line break it holds. */
  lemma SymbolLineHasOneNewline(sym: Symbol, depth: nat)
    requires '\n' !in sym.name
    ensures Newlines(SymbolLine(sym, depth)) == 1
  {
    var pieces := [Indent(depth), "- [", KindName(sym.kind), "] `", sym.name, "` (line ",
      DecimalString(sym.range.start.line), ")\n"];
    KindNameAlphabet(sym.kind);
    assert '\n' !in pieces[0] && '\n' !in pieces[2] && '\n' !in pieces[6];
    ConcatNewlines(pieces);
    assert Newlines(")\n") == 1;
  }

  /** When no name contains a line break, the outline has exactly one line per symbol. */
  lemma {:induction false} OutlineLineCount(forest: seq<Symbol>, depth: nat)
    requires SingleLineNames(forest)
    ensures Newlines(Outline(forest, depth)) == Count(forest)
    decreases forest
  {
    if |forest| > 0 {
      var sym := forest[0];
      assert SingleLineNames(forest[1..]) by {
        assert forall i :: 0 <= i < |forest[1..]| ==> forest[1..][i] == forest[i + 1];
      }
      SymbolLineHasOneNewline(sym, depth);
      OutlineLineCount(sym.children, depth + 1);
      OutlineLineCount(forest[1..], depth);
      NewlinesAppend(SymbolLine(sym, depth), Outline(sym.children, depth + 1));
      NewlinesAppend(SymbolText(sym, depth), Outline(forest[1..], depth));
    }
  }

  /** The document is the header followed by exactly one line per symbol. */
  lemma RenderedLineCount(m: FileMap)
    requires SingleLineNames(m.symbols)
    ensures Newlines(Rendered(m)) == 2 + Count(m.symbols)
  {
    OutlineLineCount(m.symbols, 0);
    NewlinesAppend(Header, Outline(m.symbols, 0));
    assert Newlines(Header) == 2;
  }

  lemma {:induction false} ConcatAppend(a: seq<string>, b: seq<string>)
    ensures Concat(a + b) == Concat(a) + Concat(b)
    decreases |a|
  {
    if |a| == 0 {
      assert a + b == b;
    } else {
      assert (a + b)[0] == a[0] && (a + b)[1..] == a[1..] + b;
      ConcatAppend(a[1..], b);
    }
  }

  lemma ExampleLineFront()
    ensures Concat(["", "- [", "function", "] `"]) == "- [function] `"
  {
  }

  lemma ExampleLineBack()
    ensures Concat(["test", "` (line ", "1", ")\n"]) == "test` (line 1)\n"
  {
  }

  lemma ExampleLinePieces()
    ensures Concat(["", "- [", "function", "] `", "test", "` (line ", "1", ")\n"])
      == "- [function] `test` (line 1)\n"
  {
    var front := ["", "- [", "function", "] `"];
    var back := ["test", "` (line ", "1", ")\n"];
    assert front + back == ["", "- [", "function", "] `", "test", "` (line ", "1", ")\n"];
    ConcatAppend(front, back);
    ExampleLineFront();
    ExampleLineBack();
  }

  /** A function `test` on line 1, at the top level, is the line the output tests look for. */
  lemma SymbolLineExample()
    ensures SymbolLine(Symbol("test", Function, None, Range(Position(1, 0), Position(1, 10)), []), 0)
      == "- [function] `test` (line 1)\n"
  {
    assert DecimalString(1) == "1";
    assert Indent(0) == "";
    ExampleLinePieces();
  }

  /** A file with a single function `test` on line 1. */
  lemma RenderedExample(path: string, language: string)
    ensures Rendered(FileMap(path, language,
      [Symbol("test", Function, None, Range(Position(1, 0), Position(1, 10)), [])]))
      == Header + "- [function] `test` (line 1)\n"
  {
    var sym := Symbol("test", Function, None, Range(Position(1, 0), Position(1, 10)), []);
    assert Outline([sym], 0) == SymbolLine(sym, 0) by {
      assert [sym][1..] == [];
      assert Outline([], 1) == "";
    }
    SymbolLineExample();
  }

  // ----- render_single and render_symbol -----

  /** Appends a symbol's line, then its children's lines one level deeper. */
  method RenderSymbol(out: string, sym: Symbol, depth: nat) returns (out': string)
    ensures out' == out + SymbolText(sym, depth)
    decreases sym
  {
    out' := out + SymbolLine(sym, depth);
    ghost var afterLine := out';
    for i := 0 to |sym.children|
      invariant out' == afterLine + Outline(sym.children[..i], depth + 1)
    {
      assert sym.children[..i + 1] == sym.children[..i] + [sym.children[i]];
      OutlineAppend(sym.children[..i], sym.children[i], depth + 1);
      out' := RenderSymbol(out', sym.children[i], depth + 1);
    }
    assert sym.children[..|sym.children|] == sym.children;
  }

  /** The header, then every root symbol at depth 0. */
  method RenderSingle(m: FileMap) returns (out: string)
    ensures out == Rendered(m)
  {
    out := Header;
    for i := 0 to |m.symbols|
      invariant out == Header + Outline(m.symbols[..i], 0)
    {
      assert m.symbols[..i + 1] == m.symbols[..i] + [m.symbols[i]];
      OutlineAppend(m.symbols[..i], m.symbols[i], 0);
      out := RenderSymbol(out, m.symbols[i], 0);
    }
    assert m.symbols[..|m.symbols|] == m.symbols;
  }
}
