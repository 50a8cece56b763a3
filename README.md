# lexica-tools, modelled in Dafny

lexica-tools loads Greek lexica from plain-text files into headword-to-definition
tables and looks headwords up in one table or in an ordered list of tables. This
project models the logic of `main.py` and proves properties of it:

- `load_tab` reads tab-separated files (Abbott-Smith, short definitions, Rouse).
  It strips each line, skips blank lines and splits at the first tab. When there
  is no tab the definition is the placeholder `??`, and a later line for the same
  headword wins (module `TabLexicon`).
- `load_alpheos` reads the pipe-separated Autenrieth and LSJ files. It removes
  every `@`, strips the line, skips blank lines and splits at the first `|`. A
  line without `|` is an error. A repeated headword goes through a counter loop,
  modelled as written (module `PipeLexicon`, policy `AsWritten`). Loading gives a
  `Load`:
  - `Ok(table)` when every line loads;
  - `BadLine(n)` when line `n` has no `|`;
  - `Diverges(n)` when the counter loop at line `n` never ends.
  
  The evidently intended counter loop is modelled next to it (policy
  `Renumbered`), see Findings.
- The `Right`/`Left` and `Just`/`Nothing` classes with `bind` and `__eq__`
  (module `Results`).
- `get_from_dict`, and the `finder` functions built by `load_dicts` and
  `load_dicts_simple`. A finder scans the (table, lexicon) list in order and
  reports the first hit, tagged with the lexicon's display name (`NAME_MAPPINGS`)
  or its id. A miss gives the default: wrapped in `Left` by `load_dicts`, bare by
  `load_dicts_simple` (module `Lookup`).
- The five lexicon ids and their display names (module `Lexica`).

Python's `str.strip()`, `str.split(sep, maxsplit=1)`, `str.replace(c, '')` and
the decimal rendering in an f-string are written out in module `Text`. The
whitespace set is the one `str.isspace()` accepts.

The two loaders read a file line by line into a dictionary, so they are
methods with a `for` loop over the lines. Each is proved equal to a fold of the
per-line step over the lines (`TabTable`, `AlpheosTable`). The lemmas are stated
about those folds. The intended counter loop is a `while` loop, proved to stop
at the first free suffix (`FreeSuffix`). The finders are `for` loops with an
early return, proved equal to `Search`, the first-hit specification.

## Model

| member | source | states |
|---|---|---|
| Text.TrimStartSpec | main.py:93 | lstrip keeps the longest suffix not starting with whitespace; everything it drops is whitespace |
| Text.TrimEndSpec | main.py:93 | rstrip keeps the longest prefix not ending with whitespace; everything it drops is whitespace |
| Text.StripSlice | main.py:93 | strip() is the slice of the line between an all-whitespace prefix and an all-whitespace suffix |
| Text.StripSpec | main.py:93-94 | strip() is empty exactly when the line is all whitespace; otherwise its first and last characters are not whitespace |
| Text.StripKeeps | main.py:119 | a non-whitespace character is in the stripped line exactly when it is in the line |
| Text.StripAround | main.py:93 | stripping pre + core + post, with pre and post all whitespace and core not starting or ending with whitespace, gives core |
| Text.IndexOfSpec | main.py:95 | the index found is the first occurrence of the separator, and it is in range exactly when the separator occurs |
| Text.IndexOfIs | main.py:95 | an occurrence with none before it is the one found |
| Text.SplitOnceSpec | main.py:95 | split(sep, maxsplit=1) is [s] exactly when sep is absent; otherwise two parts with s == first + sep + rest and no sep in the first |
| Text.RemoveAllSpec | main.py:119 | replace('@', '') leaves no '@', keeps every other character with its multiplicity, and leaves a line without '@' unchanged |
| Text.RemoveAllConcat | main.py:119 | replace('@', '') keeps the order of what it keeps: the cleaned a + b is the cleaned a followed by the cleaned b, and a single character is dropped exactly when it is '@' |
| Text.RemoveAllKeeps | main.py:119 | a character is in the cleaned line exactly when it is in the line and is not the removed one |
| Text.DecimalDigits | main.py:128 | the f-string rendering of the counter consists of decimal digits only |
| Text.DecimalValue | main.py:128 | the rendering of the counter reads back as the counter, and has no leading zero unless the counter is 0 |
| Text.DecimalInjective | main.py:128 | different counters render as different texts |
| Text.SuffixedInjective | main.py:128 | k + str(a) == k + str(b) only when a == b |
| Results.Either.Bind | main.py:24-38 | Right applies f to its payload; Left returns its raw payload, not re-wrapped |
| Results.EitherBindIsFold | main.py:24-38 | Left(v).bind does not depend on f, and Right(v).bind(f) equals Left(v).bind(f) exactly when f(v) == v |
| Results.EitherEqIsPayloadEquality | main.py:30-44 | a == b exactly when their payloads are equal, whatever the tags, so Right(v) equals Left(v); with payloads compared by mathematical equality it is reflexive, symmetric and transitive |
| Results.OptionIsNothingLaws | main.py:56-76 | is_nothing is false on Just and true on Nothing, holds exactly on the values that do not equal themselves when payloads are compared by mathematical equality, and is kept by bind on a Nothing |
| Results.Option.Bind | main.py:62-79 | Just applies f to its payload; a Nothing is rebuilt carrying the same value |
| Results.OptionBindMonadLaws | main.py:62-79 | left and right identity and associativity of bind; a Nothing passes through a chain of binds unchanged |
| Results.OptionEqLaws | main.py:65-85 | a Nothing equals nothing, not even itself; Just equals Just exactly on equal payloads (compared by mathematical equality) and never a Nothing; symmetric and transitive |
| Lexica.DisplayNameInjective | main.py:155-161 | no two lexica share a display name |
| TabLexicon.ParseTabLineMeaning | main.py:93-99 | a line is skipped exactly when it is all whitespace; otherwise the headword is the stripped text before the first tab and the definition is what follows it, or "??" with no tab; neither is empty |
| TabLexicon.LoadTab | main.py:89-100 | the loop builds exactly the table the fold of the per-line step gives |
| TabLexicon.TabKeys | main.py:92-99 | the headwords of the table are exactly the headwords of the non-blank lines |
| TabLexicon.TabLastWins | main.py:95-99 | a headword's definition comes from the last line that defines it |
| TabLexicon.TabBlankLineInert | main.py:93-94 | inserting a whitespace-only line anywhere leaves the table unchanged |
| TabLexicon.TrailingTabGivesPlaceholder | main.py:93-99 | "w<TAB>" loses its tab to strip() and maps w to "??" |
| TabLexicon.TabbedLineDefines | main.py:95-97 | a line h<TAB>d whose ends are not whitespace defines h as d |
| PipeLexicon.ParsePipeLineMeaning | main.py:119-121 | a line is skipped exactly when only whitespace and '@' remain; it is malformed exactly when something else remains but it has no '\|'; otherwise the cleaned line is headword + '\|' + definition, split at the first '\|', with no '@' in either |
| PipeLexicon.EntryLineSplits | main.py:119-121 | a cleaned line k + '\|' + v with no '\|' in k is read as headword k and definition v |
| PipeLexicon.PlainLine | main.py:119 | a line without '@' and without whitespace at its ends is its own cleaned text |
| PipeLexicon.LoadAlpheos | main.py:115-129 | the loop gives exactly the fold of the per-line step: the table, the index of the first line without '\|', or the index of the line whose counter loop never ends |
| PipeLexicon.AddLine | main.py:119-128 | one iteration of the line loop, equal to the step the fold applies |
| PipeLexicon.RunStopped | main.py:121-127 | once a line stops loading, later lines change nothing |
| PipeLexicon.RunSnoc | main.py:118-128 | loading one more line applies the step for that line to the table built so far, or keeps the earlier failure |
| PipeLexicon.AlpheosStops | main.py:121-127 | after an error or a non-terminating line, the outcome does not depend on the rest of the file |
| PipeLexicon.AlpheosBlankLine | main.py:119-120 | a line that is only whitespace and '@' adds nothing |
| PipeLexicon.AlpheosLineWithoutPipe | main.py:121 | a non-blank line with no '\|' stops the load with an error at that line |
| PipeLexicon.AlpheosEntryLine | main.py:122-128 | a new headword k is stored as v; a repeated k with k + v already a headword only sets k + "1" to v and leaves k's entry unchanged; a repeated k with k + v absent never terminates |
| PipeLexicon.AlpheosNoMarkup | main.py:119-128 | no headword and no definition of a loaded table contains '@' |
| PipeLexicon.DuplicateHeadwordDiverges | main.py:124-127 | two lines with one headword and plain, non-empty definitions: loading never finishes, at the second line |
| PipeLexicon.EmptyDefinitionLoads | main.py:121-128 | a repeated headword with an empty second definition does load: k\|x then k\| give {k: x, k1: ""}, since k + "" is already a key |
| PipeLexicon.CollisionPrefix | main.py:122-123 | lines k1\|p and k\|1 load to {k1: p, k: 1} under either counter loop |
| PipeLexicon.CollisionOverwritesEntry | main.py:124-128 | lines k1\|p, k\|1, k\|1 load to {k1: 1, k: 1}: the entry k1\|p is lost |
| PipeLexicon.FreeSuffixSpec | main.py:125-128 | the intended counter stops at a suffix whose key is free, and every suffix it passes is taken |
| PipeLexicon.SuffixedKeysBound | main.py:125-127 | the intended counter cannot pass more suffixes than the table has keys, so its loop ends |
| PipeLexicon.CountUpToFreeSuffix | main.py:125-127 | the intended counter loop returns the first free suffix |
| PipeLexicon.AddLineRenumbered | main.py:119-128 | one iteration of the line loop with the intended counter loop, equal to its step |
| PipeLexicon.LoadAlpheosRenumbered | main.py:115-129 | the loader with the intended counter loop builds exactly the fold of its step |
| PipeLexicon.RenumberedEntryLine | main.py:122-128 | with the intended counter loop a repeated k is stored under the first free k + str(i), and every earlier binding stays |
| PipeLexicon.CollisionRenumbered | main.py:124-128 | with the intended counter loop, lines k1\|p, k\|1, k\|1 load to {k1: p, k: 1, k2: 1} |
| PipeLexicon.FirstFreeIsTwo | main.py:125-127 | with k and k1 taken and k2 free, the intended counter stops at 2 |
| PipeLexicon.RenumberedStep | main.py:121-128 | with the intended counter loop a step fails only on a line without '\|', keeps every binding, and adds exactly one per entry line |
| PipeLexicon.RenumberedRun | main.py:118-128 | with the intended counter loop loading never diverges, succeeds exactly when every line has a '\|' or is blank, and ends with one binding per entry line |
| PipeLexicon.RenumberedKeeps | main.py:118-128 | with the intended counter loop a binding made by a prefix of the file survives unchanged to the end |
| PipeLexicon.RenumberedTableComplete | main.py:115-129 | the same three facts stated over the lines of a file |
| PipeLexicon.NoLinesLoadEmpty | main.py:116 | an empty file loads to the empty table |
| Lookup.GetFromDict | main.py:140-144 | Just d[x] exactly when x is a headword of d, otherwise a Nothing carrying None |
| Lookup.FirstHolding | main.py:168-169 | the position found is the first table holding x, or the end of the list when none does |
| Lookup.Find | main.py:167-174 | the load_dicts finder returns Right exactly when some table holds x, and its payload is the first hit with its label, or the default |
| Lookup.FindSimple | main.py:180-187 | the load_dicts_simple finder returns the same answer, unwrapped |
| Lookup.FirstHoldingIs | main.py:168-169 | a table holding x with none before it is the one the scan stops at |
| Lookup.SearchFirstWins | main.py:168-173 | the answer is the definition from the first table holding x, labelled with that table's display name or id |
| Lookup.SearchMiss | main.py:174 | the default is returned exactly when no table holds x |
| Lookup.SearchAppend | main.py:168-174 | a hit in the leading tables decides the answer; after a miss there, the answer is the trailing tables' |
| Lookup.SearchOneTable | main.py:140-144 | a search over one table agrees with get_from_dict on it |
| Lookup.LabelOfInjective | main.py:170-173 | labels tell the lexica apart, with names mapped or not |
| Lookup.HomericLookup | main.py:164-174 | [Autenrieth, LSJ] probed for a word only LSJ has gives the LSJ definition, labelled "LSJ" or with the LSJ id |
| Lookup.TabFileProbe | main.py:95-97 | probing a tab-file table for h, whose last defining line is h<TAB>d, gives Just d |

## Left out

- File opening, UTF-8 decoding and the `Path` constants (main.py:1-14, 91, 117). The loaders take the file's lines as a sequence of strings instead.
- The loader wrappers `load_abbot`, `load_aut` and the rest (main.py:102-137), and `DICT_MAPPINGS` with its eager calls in `load_dicts` and `load_dicts_simple` (main.py:147-153, 166, 179). A finder takes its list of (table, lexicon) pairs from the caller. The closure that captures the list is therefore a function of the list.
- The self-test under `__main__` (main.py:190-208). It reads the data files.
- `is_right` (main.py:27, 40) and the base class `Option.is_nothing` (main.py:48). They are declared without `self` and cannot be called on an instance.
- `__bool__` (main.py:59-60, 81-82).
- `Results.Either.Bind`: takes `f: T -> T` only. Python's `Left.bind` returns the raw payload and `Right.bind` returns whatever f returns, and Dafny needs one result type for both.
- Equality across the two families (a `Right` compared with a `Just`) is not modelled. Python compares the payloads.
- `Results.Option.Bind`: takes an `f` that returns an Option. Python's `Just.bind` returns whatever f returns, of any type.
- `Results.EitherEqIsPayloadEquality`: payloads are compared with mathematical equality, while `__eq__` (main.py:31, 44) calls the payload's own `==`. Reflexivity therefore holds in Python only when that `==` is an equivalence. This is so for the strings, tuples and None the core stores, but not for a wrapper payload: `Right(Nothing()) == Right(Nothing())` is False, because `Nothing.__eq__` (main.py:84-85) always answers False. It also fails for NaN.
- `Results.OptionEqLaws`: compares payloads with mathematical equality too. So `a.Eq(a) <==> a.Just?` does not cover `Just(Nothing())`, which in Python does not equal itself (main.py:68 calls `Nothing.__eq__`).
- `Results.OptionIsNothingLaws`: "is_nothing exactly on the values that do not equal themselves" rests on the same mathematical payload equality. In Python `Just(Nothing())` does not equal itself, and yet it is not a Nothing.
- `Lookup.Find` and `Lookup.FindSimple`: the defaults `default=None, map_names=True` of `load_dicts` and `load_dicts_simple` (main.py:164, 178) are not modelled; the caller always passes both.
- `Lookup.Find`: tags its payload as `Found` or `Default`. In Python `Right(pair) == Left(default)` holds when `default == pair`, because `__eq__` compares payloads; in the model the two answers always differ.
- `load_dicts_simple` returns a bare pair or a bare default, which Python cannot tell apart when the default is itself a pair. `Lookup.FindSimple` returns an `Answer`, which tags them.
- `get_from_dict` only ever builds `Nothing()`. Its None payload is the unit value `()`.
- Unicode normalisation and case folding: `main.py` does neither.
- `main.py` has no loader for a structured-markup (XML) lexicon; none is modelled.
- The collision loop in `load_alpheos` runs *while* `k + v` is not a key (main.py:126), and the model follows this literally (see Findings).
- In `load_alpheos` a line without `|` raises from the two-name unpack (main.py:121) and ends the load; the model returns `BadLine` rather than skipping the line.

## Findings

| source | as written | input that shows it | evidently intended | confidence | as-written member | corrected member |
|---|---|---|---|---|---|---|
| main.py:126-127 | the loop tests `k + v`, which its body never changes, so it spins for ever when `k + v` is not a key | lines `a\|x`, `a\|y`: the second line never finishes loading | `while f"{k}{i}" in out: i += 1`, storing the definition under the first free `k + str(i)` | high; not executed | PipeLexicon.DuplicateHeadwordDiverges | PipeLexicon.RenumberedRun |
| main.py:124-128 | when the loop is skipped, the definition is written under `k + "1"` even if that key already holds an entry | lines `a1\|p`, `a\|1`, `a\|1` load to {a1: 1, a: 1}; the entry `a1\|p` is lost | a repeated headword never overwrites another entry: `a2` is used | high; not executed | PipeLexicon.CollisionOverwritesEntry | PipeLexicon.RenumberedKeeps |
