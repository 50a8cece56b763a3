/** load_alpheos: a lexicon file of `headword|definition` lines with `@`
    markup, read from a sequence of lines supplied by the caller.

    The loader as written stores a repeated headword k with definition v
    under k + "1" when k + v is already a headword, and otherwise spins for
    ever in its counter loop (the loop tests k + v, which the loop body never
    changes). The Renumbered policy is the evidently intended loop: count i
    up from 1 until k + str(i) is free, and store the definition there. */
module PipeLexicon {
  import opened Text
  import opened Lexica

  /** What one line contributes. */
  datatype PipeLine =
    | Blank            // nothing left after removing `@` and stripping
    | NoPipe           // no `|`: the two-name unpack fails
    | Split(entry: Entry)

  /** One line: remove every `@`, strip, skip when nothing is left, and
      split at the first `|`. */
  function ParsePipeLine(line: string): PipeLine {
    var l := Strip(RemoveAll(line, '@'));
    if l == [] then Blank
    else
      var parts := SplitOnce(l, '|');
      if |parts| != 2 then NoPipe else Split(Entry(parts[0], parts[1]))
  }

  /** What a line means: blank when only whitespace and `@` remain; a line
      with anything else but no `|` anywhere is malformed; otherwise the
      cleaned line is `headword|definition` split at its first `|`, and
      neither part keeps an `@`. */
  lemma ParsePipeLineMeaning(line: string)
    ensures ParsePipeLine(line).Blank? <==> AllWs(RemoveAll(line, '@'))
    ensures ParsePipeLine(line).NoPipe? <==> !AllWs(RemoveAll(line, '@')) && '|' !in line
    ensures ParsePipeLine(line).Split? ==>
      var e := ParsePipeLine(line).entry;
      && '@' !in e.headword && '@' !in e.definition && '|' !in e.headword
      && Strip(RemoveAll(line, '@')) == e.headword + ['|'] + e.definition
  {
    var r := RemoveAll(line, '@');
    var l := Strip(r);
    StripSpec(r);
    RemoveAllKeeps(line, '@', '|');
    RemoveAllKeeps(line, '@', '@');
    StripKeeps(r, '|');
    StripKeeps(r, '@');
    SplitOnceSpec(l, '|');
    if l != [] && '|' in l {
      var parts := SplitOnce(l, '|');
      assert '@' !in parts[0] + ['|'] + parts[1];
    }
  }

  /** A cleaned line `k|v` with no `|` in k is read as headword k and
      definition v. */
  lemma EntryLineSplits(line: string, k: string, v: string)
    requires Strip(RemoveAll(line, '@')) == k + ['|'] + v && '|' !in k
    ensures ParsePipeLine(line) == Split(Entry(k, v))
  {
    var l := k + ['|'] + v;
    assert l[..|k|] == k;
    IndexOfIs(l, '|', |k|);
    assert l[|k| + 1..] == v;
  }

  /** A line with no `@` and no whitespace at its ends is its own cleaned
      text. */
  lemma PlainLine(h: string, d: string)
    requires h != [] && !IsWs(h[0]) && '@' !in h
    requires d != [] && !IsWs(d[|d| - 1]) && '@' !in d
    ensures Strip(RemoveAll(h + ['|'] + d, '@')) == h + ['|'] + d
  {
    var l := h + ['|'] + d;
    assert '@' !in l;
    RemoveAllSpec(l, '@');
    assert l[0] == h[0] && l[|l| - 1] == d[|d| - 1];
    StripAround(l, [], l, []);
  }

  /** How a repeated headword is stored. */
  datatype Collision = AsWritten | Renumbered

  /** The outcome of loading a file: the table, or the index of the line at
      which loading stops, either with an error (no `|`) or in a loop that
      never ends. */
  datatype Load = Ok(table: Table) | BadLine(line: nat) | Diverges(line: nat)

  /** The smallest n >= i with k + str(n) not yet a headword, given that
      k + str(j) is one for every j from 1 below i. */
  function FreeSuffix(out: Table, k: string, i: nat): nat
    requires 1 <= i
    requires forall j :: 1 <= j < i ==> k + Decimal(j) in out
    decreases |out| + 1 - i
  {
    SuffixedKeysBound(out, k, i);
    if k + Decimal(i) in out then
      SuffixedKeysBound(out, k, i + 1);
      FreeSuffix(out, k, i + 1)
    else
      i
  }

  /** FreeSuffix finds a free suffixed key, and every suffix it passes on
      the way is taken. */
  lemma {:induction false} FreeSuffixSpec(out: Table, k: string, i: nat)
    requires 1 <= i
    requires forall j :: 1 <= j < i ==> k + Decimal(j) in out
    ensures var n := FreeSuffix(out, k, i);
      && i <= n && k + Decimal(n) !in out
      && forall j :: 1 <= j < n ==> k + Decimal(j) in out
    decreases |out| + 1 - i
  {
    SuffixedKeysBound(out, k, i);
    if k + Decimal(i) in out {
      SuffixedKeysBound(out, k, i + 1);
      FreeSuffixSpec(out, k, i + 1);
    }
  }

  /** The suffixed keys k + str(1), ..., k + str(i - 1) are pairwise
      different, so a table holding them all has at least i - 1 keys. */
  lemma SuffixedKeysBound(out: Table, k: string, i: nat)
    requires 1 <= i
    requires forall j :: 1 <= j < i ==> k + Decimal(j) in out
    ensures i <= |out| + 1
  {
    var s := SuffixedKeys(k, i);
    SuffixedKeysSize(k, i);
    assert s <= out.Keys;
    SubsetSize(s, out.Keys);
  }

  function SuffixedKeys(k: string, i: nat): set<string> {
    set j | 1 <= j < i :: k + Decimal(j)
  }

  lemma {:induction false} SuffixedKeysSize(k: string, i: nat)
    requires 1 <= i
    ensures |SuffixedKeys(k, i)| == i - 1
  {
    if i == 1 {
      assert SuffixedKeys(k, i) == {};
    } else {
      SuffixedKeysSize(k, i - 1);
      var s0, x := SuffixedKeys(k, i - 1), k + Decimal(i - 1);
      assert SuffixedKeys(k, i) == s0 + {x};
      assert x !in s0 by {
        if x in s0 {
          var j :| 1 <= j < i - 1 && k + Decimal(j) == x;
          SuffixedInjective(k, j, i - 1);
        }
      }
    }
  }

  lemma {:induction false} SubsetSize<X>(a: set<X>, b: set<X>)
    requires a <= b
    ensures |a| <= |b|
  {
    if a != {} {
      var x :| x in a;
      SubsetSize(a - {x}, b - {x});
    }
  }

  /** One parsed line applied to the table built so far (line index n). */
  function Step(policy: Collision, out: Table, p: PipeLine, n: nat): Load {
    match p
    case Blank => Ok(out)
    case NoPipe => BadLine(n)
    case Split(Entry(k, v)) =>
      if k !in out then Ok(out[k := v])
      else if policy == Renumbered then Ok(out[k + Decimal(FreeSuffix(out, k, 1)) := v])
      else if k + v in out then Ok(out[k + Decimal(1) := v])
      else Diverges(n)
  }

  /** The parsed lines applied in order; the first failing line ends it. */
  function Run(policy: Collision, ps: seq<PipeLine>): Load {
    if ps == [] then Ok(map[])
    else
      match Run(policy, ps[..|ps| - 1])
      case Ok(out) => Step(policy, out, ps[|ps| - 1], |ps| - 1)
      case failed => failed
  }

  function ParseAll(lines: seq<string>): seq<PipeLine> {
    seq(|lines|, i requires 0 <= i < |lines| => ParsePipeLine(lines[i]))
  }

  /** The outcome load_alpheos has on the lines of a file. */
  function AlpheosTable(lines: seq<string>): Load {
    Run(AsWritten, ParseAll(lines))
  }

  /** The outcome of the loader with the evident intent of its counter loop. */
  function RenumberedTable(lines: seq<string>): Load {
    Run(Renumbered, ParseAll(lines))
  }

  /** Once loading has stopped at a line, later lines change nothing. */
  lemma {:induction false} RunStopped(policy: Collision, ps: seq<PipeLine>, n: nat)
    requires n <= |ps| && !Run(policy, ps[..n]).Ok?
    ensures Run(policy, ps) == Run(policy, ps[..n])
  {
    if n < |ps| {
      assert ps[..|ps| - 1][..n] == ps[..n];
      RunStopped(policy, ps[..|ps| - 1], n);
    } else {
      assert ps[..n] == ps;
    }
  }

  /** load_alpheos over the lines of the file. */
  method LoadAlpheos(lines: seq<string>) returns (r: Load)
    ensures r == AlpheosTable(lines)
  {
    ghost var ps := ParseAll(lines);
    var out: Table := map[];
    for n := 0 to |lines|
      invariant Run(AsWritten, ps[..n]) == Ok(out)
    {
      assert ps[..n + 1][..n] == ps[..n];
      var step := AddLine(out, lines[n], n);
      assert Run(AsWritten, ps[..n + 1]) == step;
      if !step.Ok? {
        RunStopped(AsWritten, ps, n + 1);
        return step;
      }
      out := step.table;
    }
    assert ps[..|lines|] == ps;
    r := Ok(out);
  }

  /** The body of load_alpheos's `for line` loop: line n applied to out. */
  method AddLine(out: Table, line: string, n: nat) returns (r: Load)
    ensures r == Step(AsWritten, out, ParsePipeLine(line), n)
  {
    var l := Strip(RemoveAll(line, '@'));
    if l == [] {
      return Ok(out);
    }
    var parts := SplitOnce(l, '|');
    if |parts| != 2 {
      return BadLine(n);
    }
    var k, v := parts[0], parts[1];
    if k !in out {
      return Ok(out[k := v]);
    }
    var i := 1;
    // `while k + v not in out: i += 1` never changes what it tests: it is
    // skipped, or it never ends.
    if k + v !in out {
      return Diverges(n);
    }
    return Ok(out[k + Decimal(i) := v]);
  }

  /** The loader with the counter loop as evidently intended: a repeated
      headword is stored under the first free k + str(i), i = 1, 2, ... */
  method LoadAlpheosRenumbered(lines: seq<string>) returns (r: Load)
    ensures r == RenumberedTable(lines)
  {
    ghost var ps := ParseAll(lines);
    var out: Table := map[];
    for n := 0 to |lines|
      invariant Run(Renumbered, ps[..n]) == Ok(out)
    {
      assert ps[..n + 1][..n] == ps[..n];
      var step := AddLineRenumbered(out, lines[n], n);
      assert Run(Renumbered, ps[..n + 1]) == step;
      if !step.Ok? {
        RunStopped(Renumbered, ps, n + 1);
        return step;
      }
      out := step.table;
    }
    assert ps[..|lines|] == ps;
    r := Ok(out);
  }

  /** The loop body with the counter loop as evidently intended. */
  method AddLineRenumbered(out: Table, line: string, n: nat) returns (r: Load)
    ensures r == Step(Renumbered, out, ParsePipeLine(line), n)
  {
    var l := Strip(RemoveAll(line, '@'));
    if l == [] {
      return Ok(out);
    }
    var parts := SplitOnce(l, '|');
    if |parts| != 2 {
      return BadLine(n);
    }
    var k, v := parts[0], parts[1];
    if k !in out {
      return Ok(out[k := v]);
    }
    var i := CountUpToFreeSuffix(out, k);
    return Ok(out[k + Decimal(i) := v]);
  }

  /** The counter loop as evidently intended: i counts up from 1 while
      k + str(i) is taken. It ends because the keys it passes are all
      different and all in the finite table. */
  method CountUpToFreeSuffix(out: Table, k: string) returns (i: nat)
    ensures i == FreeSuffix(out, k, 1)
  {
    i := 1;
    while k + Decimal(i) in out
      invariant 1 <= i
      invariant forall j :: 1 <= j < i ==> k + Decimal(j) in out
      invariant FreeSuffix(out, k, i) == FreeSuffix(out, k, 1)
      decreases |out| + 1 - i
    {
      SuffixedKeysBound(out, k, i + 1);
      i := i + 1;
    }
  }

  // ---------------------------------------------------------------------
  // The loader line by line

  lemma ParseAllSnoc(lines: seq<string>, line: string)
    ensures ParseAll(lines + [line]) == ParseAll(lines) + [ParsePipeLine(line)]
  {
    var l, r := ParseAll(lines + [line]), ParseAll(lines) + [ParsePipeLine(line)];
    forall i | 0 <= i < |l| ensures l[i] == r[i] {
      if i < |lines| { assert (lines + [line])[i] == lines[i]; }
    }
  }

  lemma ParseAllPrefix(lines: seq<string>, more: seq<string>)
    ensures ParseAll(lines + more)[..|lines|] == ParseAll(lines)
  {
    var l, r := ParseAll(lines + more)[..|lines|], ParseAll(lines);
    forall i | 0 <= i < |lines| ensures l[i] == r[i] {
      assert (lines + more)[i] == lines[i];
    }
  }

  /** Loading one more line applies that line to the table the earlier
      lines built, or keeps the earlier failure. */
  lemma RunSnoc(policy: Collision, lines: seq<string>, line: string)
    ensures var before := Run(policy, ParseAll(lines));
      Run(policy, ParseAll(lines + [line])) ==
        if before.Ok? then Step(policy, before.table, ParsePipeLine(line), |lines|) else before
  {
    ParseAllSnoc(lines, line);
    var ps := ParseAll(lines) + [ParsePipeLine(line)];
    assert ps[..|ps| - 1] == ParseAll(lines);
  }

  /** After an error or a loop that never ends, no later line is read. */
  lemma AlpheosStops(lines: seq<string>, more: seq<string>)
    requires !AlpheosTable(lines).Ok?
    ensures AlpheosTable(lines + more) == AlpheosTable(lines)
  {
    ParseAllPrefix(lines, more);
    RunStopped(AsWritten, ParseAll(lines + more), |lines|);
  }

  /** A line that is only whitespace and `@` adds nothing. */
  lemma AlpheosBlankLine(lines: seq<string>, line: string)
    requires AlpheosTable(lines).Ok? && AllWs(RemoveAll(line, '@'))
    ensures AlpheosTable(lines + [line]) == AlpheosTable(lines)
  {
    RunSnoc(AsWritten, lines, line);
    ParsePipeLineMeaning(line);
  }

  /** A line with text but no `|` stops the load with an error at that line. */
  lemma AlpheosLineWithoutPipe(lines: seq<string>, line: string)
    requires AlpheosTable(lines).Ok?
    requires !AllWs(RemoveAll(line, '@')) && '|' !in line
    ensures AlpheosTable(lines + [line]) == BadLine(|lines|)
  {
    RunSnoc(AsWritten, lines, line);
    ParsePipeLineMeaning(line);
  }

  /** A line `k|v` (after removing `@` and stripping, split at its first
      `|`): a new headword k is stored as v. A repeated headword k with
      k + v already a headword only writes v under k + "1", and the entry of
      k stays as it was. A repeated headword k with k + v not a headword
      sends the counter loop round for ever. */
  lemma AlpheosEntryLine(lines: seq<string>, line: string, k: string, v: string)
    requires AlpheosTable(lines).Ok?
    requires Strip(RemoveAll(line, '@')) == k + ['|'] + v && '|' !in k
    ensures var m, r := AlpheosTable(lines).table, AlpheosTable(lines + [line]);
      && (k !in m ==> r == Ok(m[k := v]))
      && (k in m && k + v in m ==> r == Ok(m[k + "1" := v]) && r.table[k] == m[k])
      && (k in m && k + v !in m ==> r == Diverges(|lines|))
  {
    RunSnoc(AsWritten, lines, line);
    EntryLineSplits(line, k, v);
    assert Decimal(1) == "1";
    assert |k + "1"| != |k|;
  }

  /** Every headword and every definition of a loaded table is free of `@`. */
  lemma {:induction false} RunNoMarkup(policy: Collision, ps: seq<PipeLine>)
    requires forall i :: 0 <= i < |ps| && ps[i].Split? ==>
      '@' !in ps[i].entry.headword && '@' !in ps[i].entry.definition
    requires Run(policy, ps).Ok?
    ensures forall key :: key in Run(policy, ps).table ==>
      '@' !in key && '@' !in Run(policy, ps).table[key]
  {
    if ps != [] {
      var init := ps[..|ps| - 1];
      assert forall i :: 0 <= i < |init| ==> init[i] == ps[i];
      RunNoMarkup(policy, init);
      var out := Run(policy, init).table;
      var p := ps[|ps| - 1];
      if p.Split? && p.entry.headword in out {
        var k := p.entry.headword;
        var n := if policy == Renumbered then FreeSuffix(out, k, 1) else 1;
        DecimalDigits(n);
        forall j | 0 <= j < |k + Decimal(n)| ensures (k + Decimal(n))[j] != '@' {
          if j >= |k| { assert (k + Decimal(n))[j] == Decimal(n)[j - |k|]; }
        }
      }
    }
  }

  /** The markup sign `@` never reaches the loaded table. */
  lemma AlpheosNoMarkup(lines: seq<string>)
    requires AlpheosTable(lines).Ok?
    ensures forall key :: key in AlpheosTable(lines).table ==>
      '@' !in key && '@' !in AlpheosTable(lines).table[key]
  {
    var ps := ParseAll(lines);
    forall i | 0 <= i < |ps| && ps[i].Split?
      ensures '@' !in ps[i].entry.headword && '@' !in ps[i].entry.definition
    {
      ParsePipeLineMeaning(lines[i]);
    }
    RunNoMarkup(AsWritten, ps);
  }

  // ---------------------------------------------------------------------
  // What goes wrong with the counter loop as written, and the intended one

  /** With the intended counter loop a line `k|v` stores v under k when k
      is new, and otherwise under the first free k + str(i), i = 1, 2, ...,
      leaving every earlier binding as it was. */
  lemma RenumberedEntryLine(lines: seq<string>, line: string, k: string, v: string)
    requires RenumberedTable(lines).Ok?
    requires Strip(RemoveAll(line, '@')) == k + ['|'] + v && '|' !in k
    ensures var m, r := RenumberedTable(lines).table, RenumberedTable(lines + [line]);
      && (k !in m ==> r == Ok(m[k := v]))
      && (k in m ==> var i := FreeSuffix(m, k, 1);
            && r == Ok(m[k + Decimal(i) := v]) && k + Decimal(i) !in m
            && forall j :: 1 <= j < i ==> k + Decimal(j) in m)
  {
    RunSnoc(Renumbered, lines, line);
    EntryLineSplits(line, k, v);
    if k in RenumberedTable(lines).table {
      FreeSuffixSpec(RenumberedTable(lines).table, k, 1);
    }
  }

  lemma NoLinesLoadEmpty()
    ensures AlpheosTable([]) == Ok(map[]) && RenumberedTable([]) == Ok(map[])
  {
    assert ParseAll([]) == [];
  }

  /** A headword with no `@`, no `|` and no leading whitespace, and a
      definition with no `@` and no trailing whitespace. */
  predicate PlainEntry(h: string, d: string) {
    && h != [] && !IsWs(h[0]) && '|' !in h && '@' !in h
    && d != [] && !IsWs(d[|d| - 1]) && '@' !in d
  }

  /** A file whose first two lines repeat one headword never finishes
      loading: the counter loop spins at the second line, whatever the two
      non-empty definitions are. (["a|x", "a|y"] is an instance.) */
  lemma DuplicateHeadwordDiverges(k: string, x: string, y: string)
    requires PlainEntry(k, x) && PlainEntry(k, y)
    ensures AlpheosTable([k + ['|'] + x, k + ['|'] + y]) == Diverges(1)
  {
    var l1, l2 := k + ['|'] + x, k + ['|'] + y;
    NoLinesLoadEmpty();
    PlainLine(k, x);
    PlainLine(k, y);
    AlpheosEntryLine([], l1, k, x);
    assert [] + [l1] == [l1];
    AlpheosEntryLine([l1], l2, k, y);
    assert [l1] + [l2] == [l1, l2];
    assert |k + y| > |k|;
  }

  /** A repeated headword whose second definition is empty does load: k + ""
      is k itself, a key already, so the counter loop is skipped and the
      empty definition goes under k + "1". (["a|x", "a|"] is an instance.) */
  lemma EmptyDefinitionLoads(k: string, x: string)
    requires PlainEntry(k, x)
    ensures AlpheosTable([k + ['|'] + x, k + ['|']]) == Ok(map[k := x, k + "1" := ""])
  {
    var l1, l2 := k + ['|'] + x, k + ['|'];
    NoLinesLoadEmpty();
    PlainLine(k, x);
    assert '@' !in l2;
    RemoveAllSpec(l2, '@');
    assert l2[0] == k[0] && l2[|l2| - 1] == '|';
    StripAround(l2, [], l2, []);
    assert l2 == k + ['|'] + [];
    AlpheosEntryLine([], l1, k, x);
    assert [] + [l1] == [l1];
    AlpheosEntryLine([l1], l2, k, []);
    assert [l1] + [l2] == [l1, l2];
    assert k + [] == k;
  }

  /** The suffixed headword k + "1" is a plain headword when k is. */
  lemma SuffixedPlain(k: string, p: string)
    requires PlainEntry(k, p)
    ensures PlainEntry(k + "1", p)
  {
    assert (k + "1")[0] == k[0];
    assert forall c :: c in k + "1" ==> c in k || c == '1';
  }

  /** The first two lines of the collision example load the same way under
      both counter loops: k + "1" := p, then the new headword k := "1". */
  lemma CollisionPrefix(k: string, p: string)
    requires PlainEntry(k, p)
    ensures var lines := [k + "1" + ['|'] + p, k + ['|'] + "1"];
      && AlpheosTable(lines) == Ok(map[k + "1" := p, k := "1"])
      && RenumberedTable(lines) == Ok(map[k + "1" := p, k := "1"])
  {
    var l1, l2 := k + "1" + ['|'] + p, k + ['|'] + "1";
    NoLinesLoadEmpty();
    SuffixedPlain(k, p);
    PlainLine(k + "1", p);
    PlainLine(k, "1");
    assert [] + [l1] == [l1];
    assert [l1] + [l2] == [l1, l2];
    assert k !in map[k + "1" := p] by { assert |k| != |k + "1"|; }
    AlpheosEntryLine([], l1, k + "1", p);
    AlpheosEntryLine([l1], l2, k, "1");
    RenumberedEntryLine([], l1, k + "1", p);
    RenumberedEntryLine([l1], l2, k, "1");
  }

  /** When a repeated headword k does load (k + v already a headword), its
      definition is written over whatever k + "1" held: the entry of the
      headword k + "1" is lost. (["a1|p", "a|1", "a|1"] is an instance.) */
  lemma CollisionOverwritesEntry(k: string, p: string)
    requires PlainEntry(k, p)
    ensures AlpheosTable([k + "1" + ['|'] + p, k + ['|'] + "1", k + ['|'] + "1"])
      == Ok(map[k + "1" := "1", k := "1"])
  {
    var l1, l2 := k + "1" + ['|'] + p, k + ['|'] + "1";
    CollisionPrefix(k, p);
    PlainLine(k, "1");
    AlpheosEntryLine([l1, l2], l2, k, "1");
    assert [l1, l2] + [l2] == [l1, l2, l2];
    assert map[k + "1" := p, k := "1"][k + "1" := "1"] == map[k + "1" := "1", k := "1"];
  }

  /** The same file read with the intended counter loop keeps every entry
      and stores the repeated headword under k + "2". */
  lemma CollisionRenumbered(k: string, p: string)
    requires PlainEntry(k, p)
    ensures RenumberedTable([k + "1" + ['|'] + p, k + ['|'] + "1", k + ['|'] + "1"])
      == Ok(map[k + "1" := p, k := "1", k + "2" := "1"])
  {
    var l1, l2 := k + "1" + ['|'] + p, k + ['|'] + "1";
    CollisionPrefix(k, p);
    PlainLine(k, "1");
    RenumberedEntryLine([l1, l2], l2, k, "1");
    assert [l1, l2] + [l2] == [l1, l2, l2];
    FirstFreeIsTwo(map[k + "1" := p, k := "1"], k);
  }

  /** With k and k + "1" taken and k + "2" free, the intended counter loop
      stops at 2. */
  lemma FirstFreeIsTwo(m: Table, k: string)
    requires m.Keys == {k + "1", k}
    ensures FreeSuffix(m, k, 1) == 2 && k + Decimal(FreeSuffix(m, k, 1)) == k + "2"
  {
    assert Decimal(1) == "1" && Decimal(2) == "2";
    assert k + "2" != k + "1" by { assert (k + "2")[|k|] != (k + "1")[|k|]; }
    assert k + "2" != k by { assert |k + "2"| != |k|; }
    assert FreeSuffix(m, k, 2) == 2;
  }

  /** Number of parsed lines that carry an entry. */
  function Entries(ps: seq<PipeLine>): nat {
    if ps == [] then 0
    else Entries(ps[..|ps| - 1]) + (if ps[|ps| - 1].Split? then 1 else 0)
  }

  /** With the intended counter loop a line fails only when it has no `|`;
      an entry line adds one binding under a key not yet taken, and every
      earlier binding stays. */
  lemma RenumberedStep(out: Table, p: PipeLine, n: nat)
    ensures Step(Renumbered, out, p, n).Ok? <==> !p.NoPipe?
    ensures Step(Renumbered, out, p, n).Ok? ==>
      var m := Step(Renumbered, out, p, n).table;
      && (forall key :: key in out ==> key in m && m[key] == out[key])
      && |m| == |out| + (if p.Split? then 1 else 0)
  {
    if p.Split? && p.entry.headword in out {
      FreeSuffixSpec(out, p.entry.headword, 1);
    }
  }

  /** With the intended counter loop loading never diverges; it fails only
      at a line without `|`, and otherwise the table has one binding per
      entry line: no definition is lost. */
  lemma {:induction false} RenumberedRun(ps: seq<PipeLine>)
    ensures !Run(Renumbered, ps).Diverges?
    ensures Run(Renumbered, ps).Ok? <==> forall i :: 0 <= i < |ps| ==> !ps[i].NoPipe?
    ensures Run(Renumbered, ps).Ok? ==> |Run(Renumbered, ps).table| == Entries(ps)
  {
    if ps != [] {
      var init := ps[..|ps| - 1];
      RenumberedRun(init);
      assert forall i :: 0 <= i < |init| ==> init[i] == ps[i];
      if Run(Renumbered, init).Ok? {
        RenumberedStep(Run(Renumbered, init).table, ps[|ps| - 1], |ps| - 1);
      } else {
        var i :| 0 <= i < |init| && init[i].NoPipe?;
        assert ps[i].NoPipe?;
      }
    }
  }

  /** With the intended counter loop, a binding made by the first n lines
      is still there, unchanged, after all of them. */
  lemma {:induction false} RenumberedKeeps(ps: seq<PipeLine>, n: nat)
    requires n <= |ps| && Run(Renumbered, ps).Ok?
    ensures Run(Renumbered, ps[..n]).Ok?
    ensures forall key :: key in Run(Renumbered, ps[..n]).table ==>
      key in Run(Renumbered, ps).table
      && Run(Renumbered, ps).table[key] == Run(Renumbered, ps[..n]).table[key]
  {
    if n == |ps| {
      assert ps[..n] == ps;
    } else {
      var init := ps[..|ps| - 1];
      assert init[..n] == ps[..n];
      RenumberedKeeps(init, n);
      RenumberedStep(Run(Renumbered, init).table, ps[|ps| - 1], |ps| - 1);
    }
  }

  /** The intended loader on the lines of a file never diverges, fails
      exactly at a line without `|`, and keeps every definition. */
  lemma RenumberedTableComplete(lines: seq<string>)
    ensures !RenumberedTable(lines).Diverges?
    ensures RenumberedTable(lines).Ok? <==>
      forall i :: 0 <= i < |lines| ==> !ParsePipeLine(lines[i]).NoPipe?
    ensures RenumberedTable(lines).Ok? ==>
      |RenumberedTable(lines).table| == Entries(ParseAll(lines))
  {
    var ps := ParseAll(lines);
    RenumberedRun(ps);
    assert forall i :: 0 <= i < |lines| ==> ps[i] == ParsePipeLine(lines[i]);
  }
}
