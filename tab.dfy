/** load_tab: a lexicon file of `headword<TAB>definition` lines, read from a
    sequence of lines supplied by the caller. */
module TabLexicon {
  import opened Text
  import opened Lexica

  /** What one line contributes: nothing when blank, otherwise one entry. */
  datatype TabLine = Blank | Line(entry: Entry)

  /** One line: strip it; skip it when nothing is left; otherwise split at
      the first tab, and use "??" as the definition when there is no tab. */
  function ParseTabLine(line: string): TabLine {
    var l := Strip(line);
    if l == [] then Blank
    else
      var parts := SplitOnce(l, '\t');
      if |parts| > 1 then Line(Entry(parts[0], parts[1])) else Line(Entry(parts[0], "??"))
  }

  /** What a line means: it is blank exactly when it is all whitespace;
      otherwise its stripped text is `headword<TAB>definition` split at the
      first tab, or, with no tab, the headword alone with the placeholder
      definition. Because the line is stripped first, a headword is never
      empty, and neither is a definition that follows a tab. */
  lemma ParseTabLineMeaning(line: string)
    ensures ParseTabLine(line).Blank? <==> AllWs(line)
    ensures ParseTabLine(line).Line? ==>
      var l, e := Strip(line), ParseTabLine(line).entry;
      && e.headword != [] && e.definition != [] && '\t' !in e.headword
      && ('\t' in l ==> l == e.headword + ['\t'] + e.definition)
      && ('\t' !in l ==> e.headword == l && e.definition == "??")
  {
    var l := Strip(line);
    StripSpec(line);
    if l != [] {
      SplitOnceSpec(l, '\t');
      if '\t' in l {
        var parts := SplitOnce(l, '\t');
        assert parts[0] != [] by { assert l[0] == (parts[0] + ['\t'] + parts[1])[0]; }
        assert parts[1] != [] by { assert l[|l| - 1] == (parts[0] + ['\t'] + parts[1])[|l| - 1]; }
      }
    }
  }

  /** The parsed line p defines headword k. */
  predicate DefinesHeadword(p: TabLine, k: string) {
    p.Line? && p.entry.headword == k
  }

  /** The line defines headword k. */
  predicate Defines(line: string, k: string) {
    DefinesHeadword(ParseTabLine(line), k)
  }

  /** Writing one parsed line into the table: out[parts[0]] = definition. */
  function Apply(out: Table, p: TabLine): Table {
    match p
    case Blank => out
    case Line(e) => out[e.headword := e.definition]
  }

  /** The table after writing the parsed lines in order. */
  function ApplyAll(ps: seq<TabLine>): Table {
    if ps == [] then map[] else Apply(ApplyAll(ps[..|ps| - 1]), ps[|ps| - 1])
  }

  function ParseAll(lines: seq<string>): seq<TabLine> {
    seq(|lines|, i requires 0 <= i < |lines| => ParseTabLine(lines[i]))
  }

  /** The table load_tab builds from the lines of a file. */
  function TabTable(lines: seq<string>): Table {
    ApplyAll(ParseAll(lines))
  }

  /** load_tab over the lines of the file. */
  method LoadTab(lines: seq<string>) returns (out: Table)
    ensures out == TabTable(lines)
  {
    ghost var ps := ParseAll(lines);
    out := map[];
    for n := 0 to |lines|
      invariant out == ApplyAll(ps[..n])
    {
      assert ps[..n + 1][..n] == ps[..n];
      assert ApplyAll(ps[..n + 1]) == Apply(out, ps[n]);
      assert ps[n] == ParseTabLine(lines[n]);
      var l := Strip(lines[n]);
      if l != [] {
        var parts := SplitOnce(l, '\t');
        if |parts| > 1 {
          assert ps[n] == Line(Entry(parts[0], parts[1]));
          out := out[parts[0] := parts[1]];
        } else {
          assert ps[n] == Line(Entry(parts[0], "??"));
          out := out[parts[0] := "??"];
        }
      }
    }
    assert ps[..|lines|] == ps;
  }

  lemma {:induction false} ApplyAllKeys(ps: seq<TabLine>, k: string)
    ensures k in ApplyAll(ps) <==> exists i :: 0 <= i < |ps| && DefinesHeadword(ps[i], k)
  {
    if ps != [] {
      var init := ps[..|ps| - 1];
      ApplyAllKeys(init, k);
      if exists i :: 0 <= i < |init| && DefinesHeadword(init[i], k) {
        var i :| 0 <= i < |init| && DefinesHeadword(init[i], k);
        assert ps[i] == init[i];
      }
      if exists i :: 0 <= i < |ps| && DefinesHeadword(ps[i], k) {
        var i :| 0 <= i < |ps| && DefinesHeadword(ps[i], k);
        if i < |init| { assert init[i] == ps[i]; }
      }
    }
  }

  /** The headwords of the table are exactly the headwords of the non-blank
      lines. */
  lemma TabKeys(lines: seq<string>, k: string)
    ensures k in TabTable(lines) <==> exists i :: 0 <= i < |lines| && Defines(lines[i], k)
  {
    var ps := ParseAll(lines);
    ApplyAllKeys(ps, k);
    if exists i :: 0 <= i < |ps| && DefinesHeadword(ps[i], k) {
      var i :| 0 <= i < |ps| && DefinesHeadword(ps[i], k);
      assert Defines(lines[i], k);
    }
    if exists i :: 0 <= i < |lines| && Defines(lines[i], k) {
      var i :| 0 <= i < |lines| && Defines(lines[i], k);
      assert DefinesHeadword(ps[i], k);
    }
  }

  lemma {:induction false} ApplyAllLastWins(ps: seq<TabLine>, i: nat)
    requires i < |ps| && ps[i].Line?
    requires forall j :: i < j < |ps| ==> !DefinesHeadword(ps[j], ps[i].entry.headword)
    ensures ps[i].entry.headword in ApplyAll(ps) && ApplyAll(ps)[ps[i].entry.headword] == ps[i].entry.definition
  {
    var init := ps[..|ps| - 1];
    if i < |ps| - 1 {
      assert init[i] == ps[i];
      forall j | i < j < |init| ensures !DefinesHeadword(init[j], init[i].entry.headword) {
        assert init[j] == ps[j];
      }
      ApplyAllLastWins(init, i);
      assert !DefinesHeadword(ps[|ps| - 1], ps[i].entry.headword);
    }
  }

  /** The definition of a headword comes from the last line that defines it. */
  lemma TabLastWins(lines: seq<string>, i: nat)
    requires i < |lines| && ParseTabLine(lines[i]).Line?
    requires forall j :: i < j < |lines| ==> !Defines(lines[j], ParseTabLine(lines[i]).entry.headword)
    ensures var e := ParseTabLine(lines[i]).entry;
      e.headword in TabTable(lines) && TabTable(lines)[e.headword] == e.definition
  {
    var ps := ParseAll(lines);
    forall j | i < j < |ps| ensures !DefinesHeadword(ps[j], ps[i].entry.headword) {
      assert !Defines(lines[j], ParseTabLine(lines[i]).entry.headword);
    }
    ApplyAllLastWins(ps, i);
  }

  lemma {:induction false} ApplyAllSkipsBlank(before: seq<TabLine>, after: seq<TabLine>)
    ensures ApplyAll(before + [Blank] + after) == ApplyAll(before + after)
  {
    if after == [] {
      assert (before + [Blank])[..|before|] == before;
      assert before + [Blank] + after == before + [Blank];
      assert before + after == before;
    } else {
      var a := after[..|after| - 1];
      ApplyAllSkipsBlank(before, a);
      assert (before + [Blank] + after)[..|before + [Blank] + after| - 1] == before + [Blank] + a;
      assert (before + after)[..|before + after| - 1] == before + a;
    }
  }

  lemma ParseAllConcat(a: seq<string>, b: seq<string>)
    ensures ParseAll(a + b) == ParseAll(a) + ParseAll(b)
  {
    var l, r := ParseAll(a + b), ParseAll(a) + ParseAll(b);
    forall i | 0 <= i < |a + b| ensures l[i] == r[i] {
      if i < |a| { assert (a + b)[i] == a[i]; } else { assert (a + b)[i] == b[i - |a|]; }
    }
  }

  /** A blank line anywhere in the file changes nothing. */
  lemma TabBlankLineInert(before: seq<string>, blank: string, after: seq<string>)
    requires AllWs(blank)
    ensures TabTable(before + [blank] + after) == TabTable(before + after)
  {
    StripSpec(blank);
    assert ParseTabLine(blank) == Blank;
    ParseAllConcat(before, [blank]);
    ParseAllConcat(before + [blank], after);
    ParseAllConcat(before, after);
    assert ParseAll([blank]) == [Blank];
    ApplyAllSkipsBlank(ParseAll(before), ParseAll(after));
  }

  /** A headword followed only by a tab: the tab is stripped with the rest
      of the trailing whitespace, so the definition is the placeholder. */
  lemma TrailingTabGivesPlaceholder(h: string)
    requires h != [] && !IsWs(h[0]) && !IsWs(h[|h| - 1]) && '\t' !in h
    ensures ParseTabLine(h + ['\t']) == Line(Entry(h, "??"))
  {
    StripAround(h + ['\t'], [], h, ['\t']);
    SplitOnceSpec(h, '\t');
  }

  /** A line `h<TAB>d` whose ends are not whitespace defines h as d. */
  lemma TabbedLineDefines(h: string, d: string)
    requires h != [] && !IsWs(h[0]) && '\t' !in h
    requires d != [] && !IsWs(d[|d| - 1])
    ensures ParseTabLine(h + ['\t'] + d) == Line(Entry(h, d))
  {
    var l := h + ['\t'] + d;
    assert l[0] == h[0] && l[|l| - 1] == d[|d| - 1];
    StripAround(l, [], l, []);
    assert Strip(l) == l;
    assert l[..|h|] == h;
    IndexOfIs(l, '\t', |h|);
    assert SplitOnce(l, '\t') == [h, d];
  }
}
