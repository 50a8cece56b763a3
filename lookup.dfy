/** Looking a headword up: get_from_dict on one table, and the finder
    functions load_dicts and load_dicts_simple return, which search an
    ordered list of (table, lexicon) pairs and report the first hit. The
    tables are supplied by the caller in place of the loaders. */
module Lookup {
  import opened Text
  import opened Lexica
  import opened Results
  import TabLexicon

  /** The label a hit is tagged with: the display name of its lexicon, or
      the lexicon id itself when names are not mapped. */
  datatype Label = Name(name: string) | Id(lexicon: Lexicon)

  function LabelOf(t: Lexicon, mapNames: bool): Label {
    if mapNames then Name(DisplayName(t)) else Id(t)
  }

  /** What a finder hands back: a (definition, label) pair, or the default
      the finder was built with. */
  datatype Answer<D> = Found(definition: string, source: Label) | Default(fallback: D)

  /** get_from_dict: Just the entry when x is a headword of d, otherwise a
      Nothing carrying None (modelled as the unit value). */
  function GetFromDict(d: Table, x: string): (r: Option<string, ()>)
    ensures r.Just? <==> x in d
    ensures r.Just? ==> r.value == d[x]
    ensures r.Nothing? ==> r == Nothing(())
  {
    if x in d then Just(d[x]) else Nothing(())
  }

  /** The position of the first table that holds x, or the number of tables
      when none does. */
  function FirstHolding(dicts: seq<(Table, Lexicon)>, x: string): (i: nat)
    ensures i <= |dicts|
    ensures forall j :: 0 <= j < i ==> x !in dicts[j].0
    ensures i < |dicts| ==> x in dicts[i].0
  {
    if dicts == [] then 0
    else if x in dicts[0].0 then 0
    else FirstHolding(dicts[1..], x) + 1
  }

  /** What a search of the tables in order finds for x. */
  function Search<D>(dicts: seq<(Table, Lexicon)>, x: string, mapNames: bool, default: D): Answer<D> {
    var i := FirstHolding(dicts, x);
    if i < |dicts| then Found(dicts[i].0[x], LabelOf(dicts[i].1, mapNames)) else Default(default)
  }

  /** The finder of load_dicts: Right of the (definition, label) pair from
      the first table holding x, or Left of the default. */
  method Find<D(==)>(dicts: seq<(Table, Lexicon)>, x: string, mapNames: bool, default: D)
    returns (r: Either<Answer<D>>)
    ensures r.Right? <==> exists j :: 0 <= j < |dicts| && x in dicts[j].0
    ensures r.value == Search(dicts, x, mapNames, default)
  {
    for i := 0 to |dicts|
      invariant forall j :: 0 <= j < i ==> x !in dicts[j].0
    {
      var (dict, t) := dicts[i];
      if x in dict {
        FirstHoldingIs(dicts, x, i);
        if mapNames {
          return Right(Found(dict[x], Name(DisplayName(t))));
        } else {
          return Right(Found(dict[x], Id(t)));
        }
      }
    }
    return Left(Default(default));
  }

  /** The finder of load_dicts_simple: the same search, with the pair or
      the default handed back unwrapped. */
  method FindSimple<D>(dicts: seq<(Table, Lexicon)>, x: string, mapNames: bool, default: D)
    returns (r: Answer<D>)
    ensures r == Search(dicts, x, mapNames, default)
  {
    for i := 0 to |dicts|
      invariant forall j :: 0 <= j < i ==> x !in dicts[j].0
    {
      var (dict, t) := dicts[i];
      if x in dict {
        FirstHoldingIs(dicts, x, i);
        if mapNames {
          return Found(dict[x], Name(DisplayName(t)));
        } else {
          return Found(dict[x], Id(t));
        }
      }
    }
    return Default(default);
  }

  /** The first table holding x is the one with none before it. */
  lemma FirstHoldingIs(dicts: seq<(Table, Lexicon)>, x: string, i: nat)
    requires i < |dicts| && x in dicts[i].0
    requires forall j :: 0 <= j < i ==> x !in dicts[j].0
    ensures FirstHolding(dicts, x) == i
  {
  }

  /** A search finds x in the first table that holds it, tagged with that
      table's label. */
  lemma SearchFirstWins<D>(dicts: seq<(Table, Lexicon)>, x: string, mapNames: bool, default: D, i: nat)
    requires i < |dicts| && x in dicts[i].0
    requires forall j :: 0 <= j < i ==> x !in dicts[j].0
    ensures Search(dicts, x, mapNames, default) == Found(dicts[i].0[x], LabelOf(dicts[i].1, mapNames))
  {
    FirstHoldingIs(dicts, x, i);
  }

  /** A search falls back to the default exactly when no table holds x. */
  lemma SearchMiss<D>(dicts: seq<(Table, Lexicon)>, x: string, mapNames: bool, default: D)
    ensures Search(dicts, x, mapNames, default) == Default(default)
      <==> forall j :: 0 <= j < |dicts| ==> x !in dicts[j].0
  {
  }

  /** Searching a list made of two parts: a hit in the first part decides
      the answer and the second part is never consulted; a miss in the
      first part leaves the answer to the second. */
  lemma {:induction false} SearchAppend<D>(a: seq<(Table, Lexicon)>, b: seq<(Table, Lexicon)>, x: string, mapNames: bool, default: D)
    ensures Search(a, x, mapNames, default).Found? ==>
      Search(a + b, x, mapNames, default) == Search(a, x, mapNames, default)
    ensures Search(a, x, mapNames, default).Default? ==>
      Search(a + b, x, mapNames, default) == Search(b, x, mapNames, default)
  {
    var i := FirstHolding(a, x);
    if i < |a| {
      assert (a + b)[i] == a[i];
      forall j | 0 <= j < i ensures x !in (a + b)[j].0 {
        assert (a + b)[j] == a[j];
      }
      FirstHoldingIs(a + b, x, i);
    } else {
      var k := FirstHolding(b, x);
      if k < |b| {
        assert (a + b)[|a| + k] == b[k];
        forall j | 0 <= j < |a| + k ensures x !in (a + b)[j].0 {
          if j < |a| { assert (a + b)[j] == a[j]; } else { assert (a + b)[j] == b[j - |a|]; }
        }
        FirstHoldingIs(a + b, x, |a| + k);
      } else {
        forall j | 0 <= j < |a + b| ensures x !in (a + b)[j].0 {
          if j < |a| { assert (a + b)[j] == a[j]; } else { assert (a + b)[j] == b[j - |a|]; }
        }
      }
    }
  }

  /** A search over a single table agrees with get_from_dict on that table. */
  lemma SearchOneTable<D>(d: Table, t: Lexicon, x: string, mapNames: bool, default: D)
    ensures var r, g := Search([(d, t)], x, mapNames, default), GetFromDict(d, x);
      && (r.Found? <==> g.Just?)
      && (r.Found? ==> r.definition == g.value && r.source == LabelOf(t, mapNames))
  {
  }

  /** Mapped labels tell the lexica apart, just as raw ids do. */
  lemma LabelOfInjective(s: Lexicon, t: Lexicon, mapNames: bool)
    ensures LabelOf(s, mapNames) == LabelOf(t, mapNames) ==> s == t
  {
    DisplayNameInjective(s, t);
  }

  /** Searching Autenreith and then LSJ for a word only LSJ has gives the
      LSJ definition, labelled "LSJ" when names are mapped and with the id
      otherwise. */
  lemma HomericLookup<D>(aut: Table, lsj: Table, x: string, default: D)
    requires x !in aut && x in lsj
    ensures Search([(aut, Autenreith), (lsj, Lsj)], x, true, default) == Found(lsj[x], Name("LSJ"))
    ensures Search([(aut, Autenreith), (lsj, Lsj)], x, false, default) == Found(lsj[x], Id(Lsj))
  {
    SearchFirstWins([(aut, Autenreith), (lsj, Lsj)], x, true, default, 1);
    SearchFirstWins([(aut, Autenreith), (lsj, Lsj)], x, false, default, 1);
  }

  /** A tab-separated file (the Rouse format) whose line i reads
      `h<TAB>d`, with no later line for h: probing the loaded table for h
      gives Just d. */
  lemma TabFileProbe(lines: seq<string>, i: nat, h: string, d: string)
    requires i < |lines| && lines[i] == h + ['\t'] + d
    requires h != [] && !IsWs(h[0]) && '\t' !in h
    requires d != [] && !IsWs(d[|d| - 1])
    requires forall j :: i < j < |lines| ==> !TabLexicon.Defines(lines[j], h)
    ensures GetFromDict(TabLexicon.TabTable(lines), h) == Just(d)
  {
    TabLexicon.TabbedLineDefines(h, d);
    TabLexicon.TabLastWins(lines, i);
  }
}
