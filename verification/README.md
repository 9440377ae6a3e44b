# Hyperglot language support checks, modelled in Dafny

This project models two pure pieces of Hyperglot, the tool that reports
which languages a font's character set can write.

- **The `Language` record and its queries** (`lib/hyperglot/language.py`).
  A language is an iso code plus a bag of optional keys: `name`,
  `preferred_name`, `autonym`, `status` and an ordered list of
  orthographies. Each orthography has optional `script`, `base`,
  `auxiliary`, `name`, `autonym` and `status` keys. The model covers:
  - orthography lookup by script;
  - name and autonym resolution;
  - the four status flags;
  - the support check `has_support`. For each orthography it tests the
    parsed `base` set (and, at level `"aux"`, the `auxiliary` set) against
    the supplied characters. It records the language's iso code under the
    orthography's script and can prune the orthography list down to the
    orthographies that qualified.
- **The result-set algebra** (`lib/hyperglot/main.py`) over results of
  shape script → iso code → language:
  - intersection of any number of results;
  - union of any number of results;
  - the ordered form, with scripts ascending and iso codes ascending within
    each script.

Modules:

- `Wrappers` (`wrappers.dfy`): `Option` for a key that may be missing.
  `Result` and `Error` for the two Python exceptions the code can raise on
  its inputs (`IndexError`, `TypeError`).
- `LanguageRecord` (`language.dfy`): the record datatypes and the lookup,
  name, autonym and status queries.
- `Support` (`support.dfy`): `HasSupport`, a method that follows the
  source loop step by step. It is proved equal to a loop-free description:
  - `SupportOf`: every script with a base-passing orthography, holding the
    iso code once per such orthography;
  - `Qualifying`: the orthographies that qualify, in order;
  - `AnyFault`: the condition that raises the type error.
- `SupportLaws` (`support_laws.dfy`): the laws of that description. These
  cover skipped orthographies, status-independence, monotonicity, pruning,
  the `"aux"` outcomes and worked examples.
- `StringOrder` (`string_order.dfy`): the order Python's `sorted` uses on
  strings (lexicographic by code point). `SortedKeys` lists a finite set of
  strings in that order.
- `ResultSets` (`result_sets.dfy`): intersection, union and the ordered
  form, with a read-back function `ToResults` as the partner of the ordered
  form.

Modelling choices:

- `parse_chars` is a parameter. `Query.parse` can be any function from a
  character specification and the decomposition flag to a set of
  characters. The source's parser module is not part of this model.
- `has_support` returns a new record rather than replacing
  `self["orthographies"]` in place. The report carries the support map and
  the record after optional pruning.
- At level `"aux"`, when a base-passing orthography has an `auxiliary` set
  that is covered, the source runs `support[script]["auxiliary"]`
  (language.py:185-188). `support[script]` is a list (language.py:171), so
  Python raises `TypeError`. This is modelled as written:
  `HasSupport` returns `Err(TypeError)`, and because the exception escapes
  before the prune, no record is returned. Lines 185-188 evidently mean to
  record the iso code in a nested `auxiliary` list, but no success path
  ever produces one; the model follows the code as written.
- Other places where the source raises instead of returning `False`, also
  modelled as written:
  - `get_orthography` on an empty orthography list indexes element 0 and
    raises `IndexError`.
  - `get_name` and `get_autonym` with a script, on a record without
    `orthographies`, evaluate `"name" in False` (or `"autonym" in False`)
    and raise `TypeError`.
- A re-run after pruning gives the same support map at level `"base"`
  only. At `"aux"`, pruning drops orthographies whose base passed but
  whose auxiliary set did not, so their iso codes leave the support map. So
  the model proves the same-result property at `"base"`
  (`BaseRecheckAfterPrune`), and proves at every level that pruning twice
  equals pruning once (`PruneIdempotent`).
- Intersection and union are pure functions folded over the arguments in
  order. The ordered output is a sequence of `(script, [(iso, value)])`
  pairs.

## Model

| member | source | states |
|---|---|---|
| `LanguageRecord.FirstInScript` | lib/hyperglot/language.py:32-34 | The index returned is the first orthography whose `script` equals the requested one. If no orthography has that script, it finds none. An orthography without `script` never matches. |
| `LanguageRecord.GetOrthography` | lib/hyperglot/language.py:28-38 | No `orthographies` key gives `False` (`Ok(None)`). Otherwise, with a script, it returns the first orthography in that script. With no script or no match, it returns element 0, and an empty list raises `IndexError`. |
| `LanguageRecord.GetName` | lib/hyperglot/language.py:40-54 | Without a script: `preferred_name` when not strict and present, else `name` (`None` for `False`). With a script: the resolved orthography's `name` wins, otherwise the same fallback. A script on a record without orthographies raises `TypeError`. An empty orthography list raises `IndexError`. |
| `LanguageRecord.GetAutonym` | lib/hyperglot/language.py:56-67 | Without a script it returns the language `autonym`, or `False`. With a script, the resolved orthography's `autonym` wins, otherwise the language's. It raises the same errors as name resolution. |
| `LanguageRecord.StrictNameSkipsPreferred` | lib/hyperglot/language.py:46-49 | With `strict`, the name comes from the orthography or from `name`, never from `preferred_name`. |
| `LanguageRecord.NoNameOnlyWhenAbsent` | lib/hyperglot/language.py:40-54 | `False` ("no name") is returned exactly when no applicable orthography name, preferred name or name exists. |
| `LanguageRecord.StatusInheritance` | lib/hyperglot/language.py:69-135 | A status flag holds iff the language's `status` equals it, or a passed orthography's `status` equals it. A language-level status holds for every orthography. An orthography's status is irrelevant when no orthography is passed. |
| `LanguageRecord.HasStatus` | lib/hyperglot/language.py:69-135 | The shared status test: a language-level status always holds. Without an orthography the flag holds exactly when the language's `status` equals it. |
| `LanguageRecord.IsHistorical` | lib/hyperglot/language.py:69-84 | Holds iff the language's `status` is `"historical"` or the passed orthography's `status` is. |
| `LanguageRecord.IsConstructed` | lib/hyperglot/language.py:86-101 | Holds iff the language's `status` is `"constructed"` or the passed orthography's `status` is. |
| `LanguageRecord.IsDeprecated` | lib/hyperglot/language.py:103-118 | Holds iff the language's `status` is `"deprecated"` or the passed orthography's `status` is. |
| `LanguageRecord.IsSecondary` | lib/hyperglot/language.py:120-135 | Holds iff the language's `status` is `"secondary"` or the passed orthography's `status` is. |
| `Support.HasSupport` | lib/hyperglot/language.py:137-202 | No `orthographies` key gives an empty map and an unchanged record. Otherwise the check fails with `TypeError` iff some orthography faults at `"aux"`. On success the map equals `SupportOf`. With pruning the list becomes exactly `Qualifying`, in order. Without pruning the record is unchanged. |
| `Support.SupportOfSnoc` | lib/hyperglot/language.py:165-173 | One more orthography adds the iso code once under its script exactly when its base passes. A script not yet in the map starts with an empty list. |
| `SupportLaws.IncompleteOrthographyIgnored` | lib/hyperglot/language.py:155-158 | Removing an orthography that lacks `script` or `base` leaves the support map, the pruned list and the error outcome unchanged. |
| `SupportLaws.StatusIgnored` | lib/hyperglot/language.py:160-162 | Changing an orthography's status, to secondary or deprecated included, changes neither the support map nor the error outcome. The pruned list keeps the changed orthography in the same place exactly when it kept the original, and is otherwise the same. |
| `SupportLaws.BasePassingRecorded` | lib/hyperglot/language.py:165-173 | Every orthography with a script and a covered base puts the iso code under its script, at any level. |
| `SupportLaws.QualifiedIsRecorded` | lib/hyperglot/language.py:169-189 | Whatever qualifies, at `"aux"` as at `"base"`, is also recorded in the base-level support of its script. At `"aux"` an orthography with a covered `auxiliary` set counts as qualifying, but such a check only ever raises `TypeError`, so it is never kept by pruning. |
| `SupportLaws.AuxLevelOutcomes` | lib/hyperglot/language.py:180-194 | At `"aux"`, for a base-passing orthography: with no `auxiliary` it is kept. With an uncovered `auxiliary` it is dropped, but its iso code stays recorded. With a covered `auxiliary` the check fails. |
| `SupportLaws.QualifyingMembers` | lib/hyperglot/language.py:196-200 | The pruned list holds an orthography iff the original list does and it qualifies. It is never longer than the original. |
| `SupportLaws.OtherLevelPrunesAll` | lib/hyperglot/language.py:175-180 | At a level other than `"base"` or `"aux"`, nothing qualifies, so pruning empties the list. |
| `SupportLaws.NoFaultBelowAux` | lib/hyperglot/language.py:180-188 | Only an `"aux"` check can fail. |
| `SupportLaws.PruneIdempotent` | lib/hyperglot/language.py:196-200 | Pruning an already pruned list changes nothing, at every level. |
| `SupportLaws.BaseRecheckAfterPrune` | lib/hyperglot/language.py:151-200 | At `"base"`, re-running the check on the pruned record gives the same support map. It prunes nothing further and cannot fail. |
| `SupportLaws.SupportMonotone` | lib/hyperglot/language.py:167-176 | Enlarging the character set only adds to the support map a successful check returns: each supported script stays, with at least as many entries. At `"base"`, the pruned list's multiset only grows. At `"aux"` a larger set can cover an `auxiliary` set, and the check then raises instead (see `AuxGrowthRaises`). |
| `SupportLaws.AuxGrowthRaises` | lib/hyperglot/language.py:180-188 | At `"aux"`, an orthography with base `ab` and auxiliary `c` is supported against `{a, b}`, but against `{a, b, c}` the check faults (`AnyFault`, which `HasSupport` reports as `Err(TypeError)`): a larger set can turn success into failure. |
| `SupportLaws.SingleOrthography` | lib/hyperglot/language.py:165-176 | A language with one orthography is supported under that script, once, exactly when its base passes. It is kept exactly when it qualifies. |
| `SupportLaws.FrenchFullAlphabet` | lib/hyperglot/language.py:165-194 | `fra` with one Latin orthography, checked against its own alphabet, gives `{"Latn": ["fra"]}` at `"base"` and at `"aux"` (no `auxiliary`), and keeps the orthography. |
| `SupportLaws.FrenchAsciiOnly` | lib/hyperglot/language.py:165-200 | The same language, checked against unaccented ASCII letters, gives an empty map, and pruning removes its orthography. |
| `StringOrder.SortedKeys` | lib/hyperglot/main.py:166 | A finite set of strings is listed in strictly ascending code-point order, each element exactly once. |
| `ResultSets.SortedIsos` | lib/hyperglot/main.py:172-173 | One script's entries come out in strictly ascending iso order, each with its own value, none added or dropped. |
| `ResultSets.SortedScriptLanguages` | lib/hyperglot/main.py:157-175 | Empty input gives empty output. Every script comes out exactly once, ascending, including scripts with empty iso maps. Each script holds its entries in ascending iso order. |
| `ResultSets.SortedRoundTrip` | lib/hyperglot/main.py:166-173 | Reading the ordered form back gives exactly the input: no script, iso code or value is added, dropped or changed. |
| `ResultSets.Restrict` | lib/hyperglot/main.py:122-135 | One pass of the intersection: the scripts are those of both maps; under each, the iso codes are those of both; every value comes from the first map. |
| `ResultSets.IntersectMaps` | lib/hyperglot/main.py:117-135 | No arguments give an empty map; otherwise every remaining entry is an entry of the first argument with its value, under a script the last argument also has. |
| `ResultSets.IntersectScripts` | lib/hyperglot/main.py:120-135 | A script is in the intersection iff every argument has it. A script whose iso codes were all removed stays, with an empty map. |
| `ResultSets.IntersectIsos` | lib/hyperglot/main.py:120-135 | Under a kept script, an iso code remains iff every argument lists it there. Its value comes from the first argument. |
| `ResultSets.IntersectResults` | lib/hyperglot/main.py:111-137 | No arguments give empty output. The output has ascending scripts and, read back, is exactly the intersection. |
| `ResultSets.Merge` | lib/hyperglot/main.py:147-153 | One pass of the union: the scripts are those of either map; under each, an iso code is present iff either map lists it there; an entry already present keeps its value. |
| `ResultSets.UnionMaps` | lib/hyperglot/main.py:145-153 | No arguments give an empty map; otherwise every entry of the first argument is present with its own value. |
| `ResultSets.UnionScripts` | lib/hyperglot/main.py:146-149 | A script is in the union iff some argument has it, even with no iso codes. |
| `ResultSets.UnionIsos` | lib/hyperglot/main.py:146-153 | A (script, iso) pair is in the union iff some argument has it. |
| `ResultSets.UnionEarliestWins` | lib/hyperglot/main.py:148-153 | When several arguments list the same iso code under a script, the union keeps the value from the earliest of them. |
| `ResultSets.UnionResults` | lib/hyperglot/main.py:140-154 | No arguments give empty output. The output has ascending scripts and, read back, is exactly the union. |

## Left out

- Logging. The warning for an orthography without `script` and the
  message for secondary or deprecated orthographies are console output.
  The model only skips the orthography, or ignores the status, as the
  code does.
- `parse_chars` and Unicode decomposition. These belong to a separate
  parser module, which is not part of this model; the parser is a
  parameter.
- `Language.__init__` and `__repr__`. They copy the data and delegate to
  `get_name`; the record datatype stands in for them.
- Insertion order of the support map. Python's dict remembers the order
  in which scripts were first recorded; a Dafny `map` has no order.
- Key values of types other than strings. A YAML key could hold, say, a
  number; every key here is an optional string.
- In-place mutation and aliasing. `intersect_results` updates its first
  argument. `union_results` stores and then extends inner maps of its
  arguments. Both are modelled as pure functions of their arguments.
- The container types of `sorted_script_languages`. It returns a plain
  `{}` for empty input and an `OrderedDict` otherwise; both are sequences
  here, the empty input giving the empty sequence. A script whose iso map
  is empty comes out as an empty `OrderedDict` in the source and as an
  empty sequence here.
- Python default arguments. `script=None`, `strict=False`, `orthography=None`, `level="base"`,
  `decomposed=False` and `pruneOrthographies=True` are not defaults here;
  every caller passes every argument.
- The CLI, font reading, YAML output, `language_list` and the other
  functions of `main.py`. These are I/O and formatting.
