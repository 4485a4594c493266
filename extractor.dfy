/**
 * The extractor: reads the captures of each query match into a flat symbol,
 * keeps the first symbol per (name, start line), sorts by start byte and
 * nests the result.  Parsing and the query engine are outside the model:
 * a file's matches arrive as a sequence of captures.
 */
module Extractor {
  import opened Wrappers
  import opened Symbols
  import opened Detector
  import opened NestedTree

  // ----- kinds from capture names -----

  /** `w` occurs in `s` as a contiguous substring. */
  predicate Contains(s: string, w: string)
  {
    exists i :: 0 <= i <= |s| - |w| && OccursAt(s, w, i)
  }

  predicate OccursAt(s: string, w: string, i: int)
  {
    0 <= i <= |s| - |w| && s[i..i + |w|] == w
  }

  lemma ContainsInfix(p: string, w: string, q: string)
    ensures Contains(p + w + q, w)
  {
    var s := p + w + q;
    assert OccursAt(s, w, |p|);
  }

  lemma ContainsLonger(s: string, w: string, x: string)
    requires Contains(s, w + x)
    ensures Contains(s, w)
  {
    var wx := w + x;
    var i :| 0 <= i <= |s| - |wx| && OccursAt(s, wx, i);
    assert s[i..i + |wx|] == wx;
    assert s[i..i + |w|] == s[i..i + |wx|][..|w|] == wx[..|w|] == w;
    assert OccursAt(s, w, i);
  }

  lemma MissingCharNotContained(s: string, w: string, c: char)
    requires c in w && c !in s
    ensures !Contains(s, w)
  {
  }

  /** The kind a capture name stands for: the first keyword it contains decides. */
  function ParseKind(capName: string): SymbolKind
  {
    if Contains(capName, "enum_member") then EnumMember
    else if Contains(capName, "enum") then Enum
    else if Contains(capName, "class") then Class
    else if Contains(capName, "method") then Method
    else if Contains(capName, "function") then Function
    else if Contains(capName, "interface") then Interface
    else if Contains(capName, "field") then Field
    else if Contains(capName, "property") then Property
    else if Contains(capName, "variable") then Variable
    else if Contains(capName, "constant") then Constant
    else if Contains(capName, "module") then Module
    else if Contains(capName, "namespace") then Namespace
    else if Contains(capName, "type") then Type
    else Function
  }

  /** The keyword table, in the order the keywords are tried. */
  const KindRules: seq<(string, SymbolKind)> := [
    ("enum_member", EnumMember), ("enum", Enum), ("class", Class),
    ("method", Method), ("function", Function), ("interface", Interface),
    ("field", Field), ("property", Property), ("variable", Variable),
    ("constant", Constant), ("module", Module), ("namespace", Namespace),
    ("type", Type)]

  /** Reference reading of a keyword table: the first rule whose keyword occurs wins. */
  function FirstRule(capName: string, rules: seq<(string, SymbolKind)>): SymbolKind
  {
    if |rules| == 0 then Function
    else if Contains(capName, rules[0].0) then rules[0].1
    else FirstRule(capName, rules[1..])
  }

  /** Reading a table from rule `k` on: rule `k` decides if its keyword occurs. */
  lemma FirstRuleStep(capName: string, rules: seq<(string, SymbolKind)>, k: nat)
    requires k < |rules|
    ensures FirstRule(capName, rules[k..])
      == if Contains(capName, rules[k].0) then rules[k].1 else FirstRule(capName, rules[k + 1..])
  {
    assert rules[k..][1..] == rules[k + 1..];
  }

  /** Past the first six keywords, the chain is the rest of the table. */
  lemma LateRulesAgree(capName: string)
    requires !Contains(capName, "enum_member") && !Contains(capName, "enum")
    requires !Contains(capName, "class") && !Contains(capName, "method")
    requires !Contains(capName, "function") && !Contains(capName, "interface")
    ensures ParseKind(capName) == FirstRule(capName, KindRules[6..])
  {
    FirstRuleStep(capName, KindRules, 6);
    FirstRuleStep(capName, KindRules, 7);
    FirstRuleStep(capName, KindRules, 8);
    FirstRuleStep(capName, KindRules, 9);
    FirstRuleStep(capName, KindRules, 10);
    FirstRuleStep(capName, KindRules, 11);
    FirstRuleStep(capName, KindRules, 12);
    assert |KindRules[13..]| == 0;
  }

  /** The chain of tests in `ParseKind` is the keyword table read in order. */
  lemma ParseKindIsFirstRule(capName: string)
    ensures ParseKind(capName) == FirstRule(capName, KindRules)
  {
    FirstRuleStep(capName, KindRules, 0);
    FirstRuleStep(capName, KindRules, 1);
    FirstRuleStep(capName, KindRules, 2);
    FirstRuleStep(capName, KindRules, 3);
    FirstRuleStep(capName, KindRules, 4);
    FirstRuleStep(capName, KindRules, 5);
    assert KindRules[0..] == KindRules;
    if !Contains(capName, "enum_member") && !Contains(capName, "enum")
      && !Contains(capName, "class") && !Contains(capName, "method")
      && !Contains(capName, "function") && !Contains(capName, "interface")
    {
      LateRulesAgree(capName);
    }
  }

  /** The kind is the first matching rule's, or `Function` when no rule matches. */
  lemma {:induction false} FirstRuleDecides(capName: string, rules: seq<(string, SymbolKind)>)
    ensures (exists i :: 0 <= i < |rules| && Contains(capName, rules[i].0)) ==>
      exists i :: 0 <= i < |rules| && Contains(capName, rules[i].0)
        && FirstRule(capName, rules) == rules[i].1
        && forall j :: 0 <= j < i ==> !Contains(capName, rules[j].0)
    ensures (forall i :: 0 <= i < |rules| ==> !Contains(capName, rules[i].0)) ==>
      FirstRule(capName, rules) == Function
  {
    if |rules| > 0 {
      FirstRuleDecides(capName, rules[1..]);
      if !Contains(capName, rules[0].0) {
        if exists i :: 0 <= i < |rules| && Contains(capName, rules[i].0) {
          var i :| 0 <= i < |rules| && Contains(capName, rules[i].0);
          assert Contains(capName, rules[1..][i - 1].0);
          var k :| 0 <= k < |rules[1..]| && Contains(capName, rules[1..][k].0)
            && FirstRule(capName, rules[1..]) == rules[1..][k].1
            && forall j :: 0 <= j < k ==> !Contains(capName, rules[1..][j].0);
          assert forall j :: 0 < j <= k ==> rules[j] == rules[1..][j - 1];
        }
        forall i | 0 <= i < |rules[1..]|
          ensures rules[1..][i] == rules[i + 1]
        {
        }
      }
    }
  }

  /** The kind always comes from the table or is the default. */
  lemma {:induction false} FirstRuleInTable(capName: string, rules: seq<(string, SymbolKind)>)
    ensures FirstRule(capName, rules) == Function
      || exists i :: 0 <= i < |rules| && FirstRule(capName, rules) == rules[i].1
  {
    if |rules| > 0 && !Contains(capName, rules[0].0) {
      FirstRuleInTable(capName, rules[1..]);
      if FirstRule(capName, rules) != Function {
        var i :| 0 <= i < |rules[1..]| && FirstRule(capName, rules[1..]) == rules[1..][i].1;
        assert rules[1..][i] == rules[i + 1];
      }
    }
  }

  /** No capture name yields `Constructor`: that kind has no keyword. */
  lemma ParseKindNeverConstructor(capName: string)
    ensures ParseKind(capName) != Constructor
  {
    ParseKindIsFirstRule(capName);
    FirstRuleInTable(capName, KindRules);
  }

  /** `enum_member` contains `enum`, so its rule must come first to ever apply. */
  lemma EnumMemberHidesEnum(capName: string)
    requires Contains(capName, "enum_member")
    ensures Contains(capName, "enum") && ParseKind(capName) == EnumMember
  {
    assert "enum_member" == "enum" + "_member";
    ContainsLonger(capName, "enum", "_member");
  }

  /** A capture name holding both `class` and `method` (and no `enum`) is a class. */
  lemma ClassBeforeMethod(capName: string)
    requires Contains(capName, "class") && Contains(capName, "method")
    requires !Contains(capName, "enum")
    ensures ParseKind(capName) == Class
  {
    if Contains(capName, "enum_member") {
      EnumMemberHidesEnum(capName);
    }
  }

  /** A capture name with no keyword at all is a function. */
  lemma ParseKindDefault(capName: string)
    requires forall i :: 0 <= i < |KindRules| ==> !Contains(capName, KindRules[i].0)
    ensures ParseKind(capName) == Function
  {
    ParseKindIsFirstRule(capName);
    FirstRuleDecides(capName, KindRules);
  }

  lemma ParseKindExamples()
    ensures ParseKind("definition.enum_member") == EnumMember
    ensures ParseKind("definition.class.method") == Class
  {
    assert "definition.enum_member" == "definition." + "enum_member" + "";
    ContainsInfix("definition.", "enum_member", "");
    var cm := "definition.class.method";
    assert cm == "definition." + "class" + ".method";
    ContainsInfix("definition.", "class", ".method");
    assert cm == "definition.class." + "method" + "";
    ContainsInfix("definition.class.", "method", "");
    assert 'u' !in cm;
    MissingCharNotContained(cm, "enum", 'u');
    ClassBeforeMethod(cm);
  }

  // ----- reading one match -----

  /** One capture of a query match: its name in the query, its text and its node's span. */
  datatype Capture = Capture(
    capName: string,
    text: string,
    startByte: nat,
    endByte: nat,
    startRow: nat,
    startColumn: nat,
    endRow: nat,
    endColumn: nat)

  type Match = seq<Capture>

  /** Captures whose name starts with an underscore only help the query match. */
  predicate IsAuxiliary(c: Capture)
  {
    |c.capName| > 0 && c.capName[0] == '_'
  }

  predicate IsNameCapture(c: Capture)
  {
    !IsAuxiliary(c) && c.capName == "name"
  }

  /** Any other capture gives the symbol's kind and span. */
  predicate IsSpanCapture(c: Capture)
  {
    !IsAuxiliary(c) && c.capName != "name"
  }

  /** A node's range: rows become one-based lines, columns stay zero-based. */
  function RangeOf(c: Capture): (r: Range)
    ensures r.start.line == c.startRow + 1 && r.end.line == c.endRow + 1
    ensures r.start.column == c.startColumn && r.end.column == c.endColumn
  {
    Range(Position(c.startRow + 1, c.startColumn), Position(c.endRow + 1, c.endColumn))
  }

  /** What the loop over a match's captures has gathered so far. */
  datatype Reading = Reading(
    name: string,
    kind: SymbolKind,
    startByte: nat,
    endByte: nat,
    range: Option<Range>)

  const Unread := Reading("", Function, 0, 0, None)

  function ReadCapture(r: Reading, c: Capture): Reading
  {
    if IsAuxiliary(c) then r
    else if c.capName == "name" then r.(name := c.text)
    else r.(kind := ParseKind(c.capName), startByte := c.startByte,
            endByte := c.endByte, range := Some(RangeOf(c)))
  }

  /** The captures of a match read in order, each overwriting what it sets. */
  function ReadCaptures(m: Match): Reading
  {
    if |m| == 0 then Unread else ReadCapture(ReadCaptures(m[..|m| - 1]), Last(m))
  }

  /** Capture `i` is a name capture and no name capture follows it. */
  predicate LastNameAt(m: Match, i: int)
  {
    0 <= i < |m| && IsNameCapture(m[i]) && forall j :: i < j < |m| ==> !IsNameCapture(m[j])
  }

  /** Capture `i` is a span capture and no span capture follows it. */
  predicate LastSpanAt(m: Match, i: int)
  {
    0 <= i < |m| && IsSpanCapture(m[i]) && forall j :: i < j < |m| ==> !IsSpanCapture(m[j])
  }

  /** Only a name capture sets the name, and it sets it to its text. */
  lemma ReadCaptureName(r: Reading, c: Capture)
    ensures ReadCapture(r, c).name == if IsNameCapture(c) then c.text else r.name
  {
  }

  /** Without a name capture the name stays empty. */
  lemma {:induction false} ReadNoName(m: Match)
    requires forall j :: 0 <= j < |m| ==> !IsNameCapture(m[j])
    ensures ReadCaptures(m).name == ""
  {
    if |m| > 0 {
      var front := m[..|m| - 1];
      assert forall j :: 0 <= j < |front| ==> front[j] == m[j];
      ReadNoName(front);
      ReadCaptureName(ReadCaptures(front), Last(m));
    }
  }

  /** The name is the text of the last name capture. */
  lemma {:induction false} ReadNameLastWins(m: Match, i: int)
    requires LastNameAt(m, i)
    ensures ReadCaptures(m).name == m[i].text
  {
    var front := m[..|m| - 1];
    ReadCaptureName(ReadCaptures(front), Last(m));
    if i < |m| - 1 {
      assert forall j :: 0 <= j < |front| ==> front[j] == m[j];
      assert LastNameAt(front, i);
      ReadNameLastWins(front, i);
    }
  }

  /** Reading a capture that is not a span capture leaves kind, bytes and range alone. */
  lemma ReadNonSpan(r: Reading, c: Capture)
    requires !IsSpanCapture(c)
    ensures var r' := ReadCapture(r, c);
      r'.range == r.range && r'.kind == r.kind
      && r'.startByte == r.startByte && r'.endByte == r.endByte
  {
  }

  /** The part of a reading that span captures set. */
  function SpanOf(r: Reading): (SymbolKind, nat, nat, Option<Range>)
  {
    (r.kind, r.startByte, r.endByte, r.range)
  }

  function SpanFrom(c: Capture): (SymbolKind, nat, nat, Option<Range>)
  {
    (ParseKind(c.capName), c.startByte, c.endByte, Some(RangeOf(c)))
  }

  lemma ReadSpanStep(r: Reading, c: Capture)
    ensures SpanOf(ReadCapture(r, c)) == if IsSpanCapture(c) then SpanFrom(c) else SpanOf(r)
  {
  }

  /** Without any span capture, kind, bytes and range keep their initial values. */
  lemma {:induction false} ReadNoSpan(m: Match)
    requires forall j :: 0 <= j < |m| ==> !IsSpanCapture(m[j])
    ensures SpanOf(ReadCaptures(m)) == (Function, 0, 0, None)
  {
    if |m| > 0 {
      var front := m[..|m| - 1];
      assert forall j :: 0 <= j < |front| ==> front[j] == m[j];
      ReadNoSpan(front);
      ReadSpanStep(ReadCaptures(front), Last(m));
    }
  }

  /** Kind, bytes and range come from the last span capture. */
  lemma {:induction false} ReadSpanLastWins(m: Match, i: nat)
    requires LastSpanAt(m, i)
    ensures SpanOf(ReadCaptures(m)) == SpanFrom(m[i])
  {
    var front := m[..|m| - 1];
    ReadSpanStep(ReadCaptures(front), Last(m));
    if i < |m| - 1 {
      assert LastSpanAt(front, i);
      ReadSpanLastWins(front, i);
    }
  }

  /** The flat symbol a match yields: none without a non-empty name and a span. */
  function Candidate(m: Match): (r: Option<FlatSymbol>)
    ensures r.Some? <==> ReadCaptures(m).name != "" && ReadCaptures(m).range.Some?
    ensures r.Some? ==> r.value.name != ""
  {
    var rd := ReadCaptures(m);
    if rd.name != "" && rd.range.Some? then
      Some(FlatSymbol(rd.name, rd.kind, rd.startByte, rd.endByte, rd.range.value))
    else None
  }

  /** A match that has no span capture yields no symbol, whatever its name. */
  lemma NoSpanNoSymbol(m: Match)
    requires forall j :: 0 <= j < |m| ==> !IsSpanCapture(m[j])
    ensures Candidate(m).None?
  {
    ReadNoSpan(m);
  }

  /** A match without a name capture yields no symbol either. */
  lemma NoNameNoSymbol(m: Match)
    requires forall j :: 0 <= j < |m| ==> !IsNameCapture(m[j])
    ensures Candidate(m).None?
  {
    ReadNoName(m);
  }

  // ----- keeping the first symbol per (name, start line) -----

  function Key(f: FlatSymbol): (string, nat)
  {
    (f.name, f.range.start.line)
  }

  function Keys(fs: seq<FlatSymbol>): set<(string, nat)>
  {
    set i | 0 <= i < |fs| :: Key(fs[i])
  }

  lemma KeysAppend(fs: seq<FlatSymbol>, f: FlatSymbol)
    ensures Keys(fs + [f]) == Keys(fs) + {Key(f)}
  {
    var g := fs + [f];
    assert Key(g[|fs|]) in Keys(g);
    assert forall i :: 0 <= i < |fs| ==> g[i] == fs[i];
  }

  /** The symbols of the matches, in match order, before duplicates are dropped. */
  function Candidates(ms: seq<Match>): seq<FlatSymbol>
  {
    if |ms| == 0 then []
    else
      var c := Candidate(Last(ms));
      Candidates(ms[..|ms| - 1]) + if c.Some? then [c.value] else []
  }

  /** Drops every symbol whose key an earlier symbol already has. */
  function Dedup(cs: seq<FlatSymbol>): seq<FlatSymbol>
  {
    if |cs| == 0 then []
    else
      var d := Dedup(cs[..|cs| - 1]);
      if Key(Last(cs)) in Keys(d) then d else d + [Last(cs)]
  }

  /** What survives has pairwise distinct keys, and every key survives. */
  lemma {:induction false} DedupKeys(cs: seq<FlatSymbol>)
    ensures var d := Dedup(cs);
      && Keys(d) == Keys(cs)
      && forall i, j :: 0 <= i < j < |d| ==> Key(d[i]) != Key(d[j])
  {
    if |cs| > 0 {
      var front := cs[..|cs| - 1];
      var d := Dedup(front);
      DedupKeys(front);
      KeysAppend(front, Last(cs));
      assert front + [Last(cs)] == cs;
      if Key(Last(cs)) !in Keys(d) {
        KeysAppend(d, Last(cs));
        var d' := d + [Last(cs)];
        forall i, j | 0 <= i < j < |d'|
          ensures Key(d'[i]) != Key(d'[j])
        {
          if j == |d| {
            assert Key(d[i]) in Keys(d);
          }
        }
      }
    }
  }

  /** Each surviving symbol is the first symbol with its key. */
  lemma {:induction false} DedupFirstWins(cs: seq<FlatSymbol>)
    ensures var d := Dedup(cs);
      forall k :: 0 <= k < |d| ==>
        exists i :: 0 <= i < |cs| && cs[i] == d[k]
          && forall h :: 0 <= h < i ==> Key(cs[h]) != Key(cs[i])
  {
    if |cs| > 0 {
      var front := cs[..|cs| - 1];
      var d := Dedup(front);
      DedupFirstWins(front);
      DedupKeys(front);
      forall k | 0 <= k < |Dedup(cs)|
        ensures exists i :: (0 <= i < |cs| && cs[i] == Dedup(cs)[k]
          && forall h :: 0 <= h < i ==> Key(cs[h]) != Key(cs[i]))
      {
        if k < |d| {
          var i :| 0 <= i < |front| && front[i] == d[k]
            && forall h :: 0 <= h < i ==> Key(front[h]) != Key(front[i]);
          assert cs[i] == front[i];
          assert forall h :: 0 <= h < i ==> cs[h] == front[h];
        } else {
          var i := |cs| - 1;
          assert Dedup(cs)[k] == cs[i];
          forall h | 0 <= h < i
            ensures Key(cs[h]) != Key(cs[i])
          {
            assert cs[h] == front[h];
            assert Key(front[h]) in Keys(front);
          }
        }
      }
    }
  }

  /**
   * Survivors stay in discovery order: what survives of a prefix of the
   * candidates is a prefix of what survives of all of them.
   */
  lemma {:induction false} DedupPrefix(cs: seq<FlatSymbol>, n: nat)
    requires n <= |cs|
    ensures Dedup(cs[..n]) <= Dedup(cs)
  {
    if n < |cs| {
      var front := cs[..|cs| - 1];
      DedupPrefix(front, n);
      assert front[..n] == cs[..n];
    } else {
      assert cs[..n] == cs;
    }
  }

  lemma DedupStep(cs: seq<FlatSymbol>, f: FlatSymbol)
    ensures Dedup(cs + [f])
      == if Key(f) in Keys(Dedup(cs)) then Dedup(cs) else Dedup(cs) + [f]
  {
    assert (cs + [f])[..|cs|] == cs;
  }

  lemma CandidatesStep(ms: seq<Match>, i: nat)
    requires i < |ms|
    ensures Candidates(ms[..i + 1])
      == Candidates(ms[..i]) + if Candidate(ms[i]).Some? then [Candidate(ms[i]).value] else []
  {
    assert ms[..i + 1][..i] == ms[..i];
  }

  /**
   * Reads every match and keeps its symbol unless an earlier one had the same
   * (name, start line).
   */
  method CollectFlatSymbols(ms: seq<Match>) returns (flat: seq<FlatSymbol>)
    ensures flat == Dedup(Candidates(ms))
  {
    flat := [];
    var seen: set<(string, nat)> := {};
    for i := 0 to |ms|
      invariant flat == Dedup(Candidates(ms[..i]))
      invariant seen == Keys(flat)
    {
      var m := ms[i];
      var name := "";
      var kind := Function;
      var startByte := 0;
      var endByte := 0;
      var range: Option<Range> := None;
      for j := 0 to |m|
        invariant Reading(name, kind, startByte, endByte, range) == ReadCaptures(m[..j])
      {
        var cap := m[j];
        assert m[..j + 1][..j] == m[..j];
        if |cap.capName| > 0 && cap.capName[0] == '_' {
          continue;
        }
        if cap.capName == "name" {
          name := cap.text;
        } else {
          kind := ParseKind(cap.capName);
          startByte := cap.startByte;
          endByte := cap.endByte;
          range := Some(RangeOf(cap));
        }
      }
      assert m[..|m|] == m;
      assert ReadCaptures(m) == Reading(name, kind, startByte, endByte, range);
      CandidatesStep(ms, i);
      ghost var cs := Candidates(ms[..i]);
      if Candidate(m).None? {
        assert cs + [] == cs;
      }
      if name != "" {
        if range.Some? {
          var r := range.value;
          var key := (name, r.start.line);
          var f := FlatSymbol(name, kind, startByte, endByte, r);
          assert Candidate(m) == Some(f);
          DedupStep(cs, f);
          if key !in seen {
            seen := seen + {key};
            KeysAppend(flat, f);
            flat := flat + [f];
          }
        }
      }
    }
    assert ms[..|ms|] == ms;
  }

  // ----- sorting by start byte -----

  /** Inserts `f` after every symbol starting at or before it. */
  function InsertByStart(s: seq<FlatSymbol>, f: FlatSymbol): (r: seq<FlatSymbol>)
    ensures multiset(r) == multiset(s) + multiset{f}
  {
    if |s| == 0 then [f]
    else if Last(s).startByte <= f.startByte then s + [f]
    else
      var front := s[..|s| - 1];
      assert s == front + [Last(s)];
      InsertByStart(front, f) + [Last(s)]
  }

  /**
   * The stable sort by start byte the library performs, written as an
   * insertion sort: symbols with equal start bytes keep their order.
   */
  function SortByStart(fs: seq<FlatSymbol>): (r: seq<FlatSymbol>)
    ensures multiset(r) == multiset(fs)
  {
    if |fs| == 0 then []
    else
      var front := fs[..|fs| - 1];
      assert fs == front + [Last(fs)];
      InsertByStart(SortByStart(front), Last(fs))
  }

  /** Everything inserted in front of the last symbol starts no later than it. */
  lemma InsertedBeforeLast(s: seq<FlatSymbol>, f: FlatSymbol)
    requires SortedByStart(s) && |s| > 0 && Last(s).startByte > f.startByte
    ensures forall x :: x in InsertByStart(s[..|s| - 1], f) ==> x.startByte <= Last(s).startByte
  {
    var front := s[..|s| - 1];
    var r := InsertByStart(front, f);
    forall x | x in r
      ensures x.startByte <= Last(s).startByte
    {
      assert x in multiset(r);
      if x != f {
        assert x in multiset(front);
        var k :| 0 <= k < |front| && front[k] == x;
        assert s[k] == x;
      }
    }
  }

  lemma {:induction false} InsertByStartSorted(s: seq<FlatSymbol>, f: FlatSymbol)
    requires SortedByStart(s)
    ensures SortedByStart(InsertByStart(s, f))
    decreases |s|
  {
    if |s| > 0 && Last(s).startByte > f.startByte {
      var front := s[..|s| - 1];
      var r := InsertByStart(front, f);
      InsertByStartSorted(front, f);
      InsertedBeforeLast(s, f);
      var r' := r + [Last(s)];
      assert InsertByStart(s, f) == r';
      forall i, j | 0 <= i < j < |r'|
        ensures r'[i].startByte <= r'[j].startByte
      {
        if j == |r| {
          assert r'[i] in r;
        } else {
          assert r'[i] == r[i] && r'[j] == r[j];
        }
      }
    }
  }

  /** The result is sorted by start byte and a permutation of the input. */
  lemma {:induction false} SortByStartSorted(fs: seq<FlatSymbol>)
    ensures SortedByStart(SortByStart(fs))
    ensures multiset(SortByStart(fs)) == multiset(fs)
  {
    if |fs| > 0 {
      SortByStartSorted(fs[..|fs| - 1]);
      InsertByStartSorted(SortByStart(fs[..|fs| - 1]), Last(fs));
    }
  }

  /** The symbols of `fs` that start at byte `b`, in order. */
  function StartingAt(fs: seq<FlatSymbol>, b: nat): seq<FlatSymbol>
  {
    if |fs| == 0 then []
    else StartingAt(fs[..|fs| - 1], b) + if Last(fs).startByte == b then [Last(fs)] else []
  }

  lemma StartingAtAppend(fs: seq<FlatSymbol>, f: FlatSymbol, b: nat)
    ensures StartingAt(fs + [f], b) == StartingAt(fs, b) + if f.startByte == b then [f] else []
  {
    assert (fs + [f])[..|fs|] == fs;
  }

  lemma {:induction false} InsertByStartStable(s: seq<FlatSymbol>, f: FlatSymbol, b: nat)
    ensures StartingAt(InsertByStart(s, f), b)
      == StartingAt(s, b) + if f.startByte == b then [f] else []
    decreases |s|
  {
    if |s| == 0 {
      StartingAtAppend([], f, b);
    } else if Last(s).startByte <= f.startByte {
      StartingAtAppend(s, f, b);
    } else {
      var front := s[..|s| - 1];
      var r := InsertByStart(front, f);
      assert InsertByStart(s, f) == r + [Last(s)];
      assert front + [Last(s)] == s;
      var atF: seq<FlatSymbol> := if f.startByte == b then [f] else [];
      var atLast: seq<FlatSymbol> := if Last(s).startByte == b then [Last(s)] else [];
      InsertByStartStable(front, f, b);
      StartingAtAppend(r, Last(s), b);
      StartingAtAppend(front, Last(s), b);
      assert atF == [] || atLast == [];
      assert StartingAt(r, b) + atLast == StartingAt(front, b) + atLast + atF;
    }
  }

  /** Symbols with the same start byte keep their input order. */
  lemma {:induction false} SortByStartStable(fs: seq<FlatSymbol>, b: nat)
    ensures StartingAt(SortByStart(fs), b) == StartingAt(fs, b)
  {
    if |fs| > 0 {
      var front := fs[..|fs| - 1];
      SortByStartStable(front, b);
      InsertByStartStable(SortByStart(front), Last(fs), b);
    }
  }

  // ----- the whole extraction -----

  /** The forest a file's matches give: collect, sort by start byte, nest. */
  method ExtractSymbols(ms: seq<Match>) returns (symbols: seq<Symbol>)
    ensures symbols == ToSymbols(Nest(SortByStart(Dedup(Candidates(ms)))))
  {
    var flat := CollectFlatSymbols(ms);
    var sorted := SortByStart(flat);
    symbols := BuildNestedTree(sorted);
  }

  /** The forest holds exactly one symbol per distinct (name, start line) of the matches. */
  lemma ExtractedCount(ms: seq<Match>)
    ensures Count(ToSymbols(Nest(SortByStart(Dedup(Candidates(ms)))))) == |Keys(Candidates(ms))|
  {
    var d := Dedup(Candidates(ms));
    var sorted := SortByStart(d);
    BuiltCount(sorted);
    assert |sorted| == |multiset(sorted)| == |multiset(d)| == |d|;
    DedupKeys(Candidates(ms));
    DistinctKeysCount(d);
  }

  /**
   * Pre-order of the forest is the start-byte order, children start inside
   * their parents and siblings, roots included, do not overlap.
   */
  lemma ExtractedShape(ms: seq<Match>)
    ensures var sorted := SortByStart(Dedup(Candidates(ms)));
      && SortedByStart(sorted)
      && Flatten(Nest(sorted)) == sorted
      && AllWellNested(Nest(sorted))
      && SiblingsOrdered(Nest(sorted))
  {
    var sorted := SortByStart(Dedup(Candidates(ms)));
    SortByStartSorted(Dedup(Candidates(ms)));
    NestPreorder(sorted);
    NestWellNested(sorted);
  }

  lemma {:induction false} DistinctKeysCount(fs: seq<FlatSymbol>)
    requires forall i, j :: 0 <= i < j < |fs| ==> Key(fs[i]) != Key(fs[j])
    ensures |Keys(fs)| == |fs|
  {
    if |fs| > 0 {
      var front := fs[..|fs| - 1];
      DistinctKeysCount(front);
      KeysAppend(front, Last(fs));
      assert front + [Last(fs)] == fs;
    }
  }

  /**
   * A file's map: its path text, its language's identifier and the forest;
   * a failure to read or parse the file comes back as the error.
   */
  method Extract(pathText: string, lang: Language, parsed: Result<seq<Match>, string>)
    returns (r: Result<FileMap, string>)
    ensures parsed.Err? ==> r == Err(parsed.error)
    ensures parsed.Ok? ==>
      && r.Ok?
      && r.value.path == pathText
      && r.value.language == LanguageId(lang)
      && r.value.symbols == ToSymbols(Nest(SortByStart(Dedup(Candidates(parsed.value)))))
  {
    if parsed.Err? {
      return Err(parsed.error);
    }
    var symbols := ExtractSymbols(parsed.value);
    r := Ok(FileMap(pathText, LanguageId(lang), symbols));
  }
}
