# OWASP ASVS CSV parser — a Dafny model

`owasp/asvs/_asvs.py` turns the OWASP ASVS 4.0.3 CSV export into three lists:
chapters, sections and requirements. Each row carries a chapter token (`V1`),
a section token (`V1.2`), a requirement token (`1.2.3`), a description that
may embed a Markdown link, and three level columns that hold a check mark
(`✓`) or nothing. `extract_data_from_asvs_csv` walks the rows once. It builds
a `Chapter` for each new chapter token and a `Section` for each new section
token. Every row gives one `Requirement`, which is attached through its
`section` setter to the most recently created section (`row_section`).

The model has five modules:

- `Results` (results.dfy): `Option` and `Result`.
- `Text` (text.dfy): the Python string operations the parser uses, as
  functions over `seq<char>`. These are `int()` on digit strings, `str()` of a
  natural number, `replace(c, "")`, `partition`/`rpartition`, `split(...)[0]`
  and `strip()`. Each comes with lemmas stating what it computes (round trips
  and slicing characterisations).
- `LinkSearch` (link.dfy): `re.search(r" \(\[.*]\((.*)\)\)", s).group(1)`.
  `IsMatch` states the pattern and `IsSearchResult` states which match
  `re.search` reports (leftmost start, then the greedy `.*` runs). `Link`
  computes the group by a plain search and is proved to return `None` exactly
  when nothing matches, and otherwise the group of that match.
- `Asvs` (asvs.dfy): `Chapter` is a datatype because it is never changed.
  `Section` and `Requirement` are classes whose setters update the parent
  field and the cached uid in place. Each `from_csv_row` is a pure function
  over a `Row` (`ChapterFromCsvRow`, `SectionFromCsvRow`,
  `RequirementFromCsvRow`), and the static methods `Section.FromCsvRow` and
  `Requirement.FromCsvRow` allocate the object and are proved to hold those
  values.
- `Extract` (extract.dfy): `Assemble` is the loop written as a function over
  the rows, on values: sections and requirements are field values, and a
  requirement's section is an index. `ExtractDataFromAsvsCsv` is the loop
  itself over objects. It is proved to raise exactly what `Assemble` raises,
  and otherwise to return distinct objects that mirror `Assemble(rows)`,
  including each requirement's `section` pointing at the right Section object.
  `AssembleReflects` then says what the lists are in terms of the rows alone:
  - chapters and sections in first-appearance order, one per distinct token,
    each parsed from its first row;
  - one requirement per row, parsed from that row;
  - each requirement attached to the newest section at its row, with uid
    `"Section charapter has not been set." + str(id)`.

Exceptions are values of `Error`:

- `InvalidLiteral` is the `ValueError` of `int()`.
- `UidNotSet` is the `AttributeError` of reading `Requirement.uid` before
  `_set_section`.
- `UnboundRowSection` is the `UnboundLocalError` of reading `row_section`
  before assignment. It is proved never to happen.

The model keeps these behaviours of the code, which a reader may not expect:

- `extract_data_from_asvs_csv` never calls the `charapter` setter. Every
  section therefore keeps the placeholder uid "Section charapter has not been
  set", and every requirement uid is that placeholder, a dot and the
  requirement number (`SectionsNeverGetChapter`).
- A section's `name` is read from the `chapter_name` column
  (`SectionFromCsvRow`).
- The description is always cut at the first " ([" and stripped, whether or
  not the link pattern matches (`DescriptionBeforeMarker`,
  `DescriptionWithoutMarker`).
- `levels` is the tuple of check-mark glyphs the filter keeps, so levels 1
  and 3 give the same value as levels 1 and 2 (`LevelsForgetTier`).
- There is no check that a requirement's section token matches the current
  section. A section token that comes back after another section's rows gets
  its requirements attached to that other section (`RequirementSectionIsOwn`).
  When each section's rows are kept together, every requirement gets its own
  section (`GroupedRowsLinkOwnSection`).
- A `Section`'s uid before its chapter is set is the placeholder string. A
  `Requirement`'s uid before its section is set raises `AttributeError`.

## Model

| member | source | states |
|---|---|---|
| Text.NatToString | owasp/asvs/_asvs.py:55 | `str(n)` is a digit string without a superfluous leading zero, starting with '0' only for 0 |
| Text.ParseNatToString | owasp/asvs/_asvs.py:29 | `int(str(n)) == n` |
| Text.NatToStringOfCanonical | owasp/asvs/_asvs.py:23 | `str(int(s)) == s` for every digit string without a superfluous leading zero |
| Text.IndexOf | owasp/asvs/_asvs.py:64 | the first index of `x`, or the length when `x` is absent; no earlier index holds `x` |
| Text.LastIndexOf | owasp/asvs/_asvs.py:109 | the last index of `x`, or -1; no later index holds `x` |
| Text.FindFrom | owasp/asvs/_asvs.py:112 | `find`: the first occurrence of the pattern at or after `from`, `None` exactly when there is none |
| Text.RemoveAll | owasp/asvs/_asvs.py:29 | `replace("V", "")` leaves no 'V' and never lengthens the string |
| Text.RemoveAllAppend | owasp/asvs/_asvs.py:29 | `replace(c, "")` works character by character: on a concatenation it is the concatenation of the two results |
| Text.RemoveAllOne | owasp/asvs/_asvs.py:29 | on one character, `replace(c, "")` drops it exactly when it is `c` and keeps it otherwise |
| Text.RemoveAllAbsent | owasp/asvs/_asvs.py:29 | `replace` of a character that does not occur is the identity |
| Text.PartitionTailSplit | owasp/asvs/_asvs.py:64 | `partition(".")[2]` is what follows the first "." |
| Text.PartitionTailAbsent | owasp/asvs/_asvs.py:64 | `partition(".")[2]` is "" when there is no "." |
| Text.RPartitionTailSplit | owasp/asvs/_asvs.py:109 | `rpartition(".")[2]` is what follows the last "." |
| Text.RPartitionTailAbsent | owasp/asvs/_asvs.py:109 | `rpartition(".")[2]` is the whole token when there is no "." |
| Text.StripStartCuts | owasp/asvs/_asvs.py:112 | `lstrip` removes a leading run of whitespace and leaves a result that does not start with whitespace |
| Text.StripEndCuts | owasp/asvs/_asvs.py:112 | `rstrip` removes a trailing run of whitespace and leaves a result that does not end with whitespace |
| Text.StripCuts | owasp/asvs/_asvs.py:112 | `strip()` returns a slice of its input with only whitespace cut on both sides, neither starting nor ending with whitespace |
| LinkSearch.SearchResultUnique | owasp/asvs/_asvs.py:117 | the match `re.search` reports is unique |
| LinkSearch.LineEnd | owasp/asvs/_asvs.py:114 | the first newline at or after a position (or the end), with no newline before it |
| LinkSearch.MatchOnLine | owasp/asvs/_asvs.py:114 | once " ([" is found, the rest of the pattern matches exactly when it fits before the end of that line |
| LinkSearch.LastOccurrence | owasp/asvs/_asvs.py:114 | the last occurrence of a delimiter in a range, `None` exactly when it has none |
| LinkSearch.LastMid | owasp/asvs/_asvs.py:114 | the greedy choice of "](" and "))" for a fixed start, `None` exactly when no match has that start |
| LinkSearch.BestAt | owasp/asvs/_asvs.py:114 | at a start `i`: a match with the longest first run and then the longest group, or `None` exactly when no match starts at `i` |
| LinkSearch.FirstMatch | owasp/asvs/_asvs.py:117 | the leftmost start at or after `i` that has a match, with the greedy choice there; `None` exactly when there is none |
| LinkSearch.Link | owasp/asvs/_asvs.py:116-118 | `link` is `None` exactly when the pattern matches nowhere, otherwise the group of the match `re.search` reports |
| LinkSearch.LinkInRaw | owasp/asvs/_asvs.py:114-118 | an extracted link sits after " ([" and a later "](", right before "))" |
| Asvs.UidNeverPlaceholder | owasp/asvs/_asvs.py:57-59 | a set uid is returned as is and can never equal the placeholder; an unset one reads as the placeholder |
| Asvs.ChapterFromToken | owasp/asvs/_asvs.py:20-32 | the token "V" + str(n) gives chapter `n` named from `chapter_name`, whose uid is the token again |
| Asvs.ChapterUidIsToken | owasp/asvs/_asvs.py:23-29 | a chapter's uid equals the token it was parsed from exactly for "V" followed by a canonical decimal |
| Asvs.SectionFromCsvRow | owasp/asvs/_asvs.py:61-67 | a parsed section takes its name from `chapter_name` and has neither chapter nor uid |
| Asvs.SectionFromToken | owasp/asvs/_asvs.py:62-67 | a token "p.q" with no "." in `p` parses exactly when `q` is a digit string, and then gives section `int(q)` (leading zeros allowed); otherwise it raises `ValueError` for `q` ("V1.", "V1.x", "V1.2.3") |
| Asvs.SectionFromCanonicalToken | owasp/asvs/_asvs.py:62-67 | a token "p.str(n)" with no "." in `p` gives section `n` |
| Asvs.SectionWithoutDot | owasp/asvs/_asvs.py:64 | a section token without "." raises `ValueError` for "" |
| Asvs.Section.constructor | owasp/asvs/_asvs.py:42-46 | the fields hold the arguments and the uid is unset |
| Asvs.Section.FromCsvRow | owasp/asvs/_asvs.py:61-67 | raises what the parse raises, otherwise a new Section holding the parsed values |
| Asvs.Section.SetChapter | owasp/asvs/_asvs.py:52-55 | the `charapter` setter stores the chapter and caches chapter uid + "." + str(id), which `uid` then returns |
| Asvs.Section.Uid | owasp/asvs/_asvs.py:57-59 | the placeholder while no uid is cached, otherwise the chapter uid + "." + str(id) |
| Asvs.KeepChecks | owasp/asvs/_asvs.py:121-126 | the level filter keeps only check marks |
| Asvs.KeepChecksCount | owasp/asvs/_asvs.py:121-126 | it keeps as many check marks as the level columns hold |
| Asvs.RequirementIdFromToken | owasp/asvs/_asvs.py:108-109 | a token "p.q" with no "." in `q` parses exactly when `q` is a digit string, whatever `p` holds, and then has id `int(q)`; otherwise it raises `ValueError` for `q` ("1.2.", "1.2.x") |
| Asvs.RequirementIdFromCanonicalToken | owasp/asvs/_asvs.py:108-109 | a token "p.str(n)" gives requirement `n`, whatever `p` holds |
| Asvs.RequirementIdWithoutDot | owasp/asvs/_asvs.py:109 | without a "." the whole token must be a decimal, and it is the id |
| Asvs.DescriptionWithoutMarker | owasp/asvs/_asvs.py:110-118 | without " ([" there is no link and the description is the stripped raw text |
| Asvs.DescriptionBeforeMarker | owasp/asvs/_asvs.py:112 | the description is the stripped text before the first " ([" |
| Asvs.LevelsCount | owasp/asvs/_asvs.py:121-126 | `level` holds one check mark per level column equal to "✓" and nothing else |
| Asvs.LevelsForgetTier | owasp/asvs/_asvs.py:121-126 | levels 1 and 3 give the same `level` as levels 1 and 2 |
| Asvs.Requirement.constructor | owasp/asvs/_asvs.py:77-88 | the fields hold the arguments; section and uid are unset |
| Asvs.Requirement.FromCsvRow | owasp/asvs/_asvs.py:106-134 | raises what the parse raises, otherwise a new Requirement holding the parsed fields with no section |
| Asvs.Requirement.SetSection | owasp/asvs/_asvs.py:90-100 | `_set_section` stores the section and caches section uid + "." + str(id), which `uid` then returns |
| Asvs.Requirement.Uid | owasp/asvs/_asvs.py:102-104 | raises `AttributeError` exactly while no uid is cached |
| Extract.Assemble | owasp/asvs/_asvs.py:154-173 | the pass over the rows, on values, keeps the state well formed: the covered-token lists run parallel to the chapter and section lists, and `row_section` is unset while there is no section and the newest section afterwards |
| Extract.Step | owasp/asvs/_asvs.py:155-171 | one iteration on values keeps the state well formed in the same sense |
| Extract.AddChapter | owasp/asvs/_asvs.py:157-161 | after the chapter block the row's chapter token is covered and each covered token has its chapter |
| Extract.AddSection | owasp/asvs/_asvs.py:163-166 | after the section block the row's section token is covered and `row_section` is the newest section |
| Extract.AddRequirement | owasp/asvs/_asvs.py:168-171 | the requirement block keeps the covered lists and `row_section` in step |
| Extract.AddChapterFollows | owasp/asvs/_asvs.py:157-161 | a seen chapter token changes nothing; a new one appends its token and the parsed chapter |
| Extract.AddSectionFollows | owasp/asvs/_asvs.py:163-166 | a seen section token changes nothing; a new one appends its token and the parsed section and makes it `row_section` |
| Extract.AddRequirementRaises | owasp/asvs/_asvs.py:168 | a requirement that fails to parse raises its `ValueError` |
| Extract.AddRequirementUnbound | owasp/asvs/_asvs.py:169 | with no section yet, reading `row_section` raises `UnboundLocalError` |
| Extract.AddRequirementAppends | owasp/asvs/_asvs.py:168-171 | otherwise one requirement is appended, attached to the newest section, with that section's uid (or the placeholder) + "." + id |
| Extract.StepFollows | owasp/asvs/_asvs.py:157-171 | a successful iteration appends chapter, section and requirement exactly as `Follows` writes out |
| Extract.StepOutcome | owasp/asvs/_asvs.py:157-171 | an iteration raises the chapter's, then the section's, then the requirement's exception in that order, and otherwise completes |
| Extract.FirstRowsAppend | owasp/asvs/_asvs.py:157-166 | for either parser, a seen token changes nothing and a new one appends its parsed value, so each list stays one value per distinct token, in first-appearance order, parsed from its first row |
| Extract.FirstRowsValues | owasp/asvs/_asvs.py:157-166 | each value stays the one parsed from its token's first row when a row is appended |
| Extract.ChaptersStep | owasp/asvs/_asvs.py:157-161 | the chapter block keeps the chapters list one per distinct token, in first-appearance order, each parsed from its first row |
| Extract.SectionsStep | owasp/asvs/_asvs.py:163-166 | the section block keeps the sections list one per distinct token, in first-appearance order, each parsed from its first row |
| Extract.RequirementsStep | owasp/asvs/_asvs.py:168-171 | the requirement block keeps one requirement per row, attached to the newest section at its row |
| Extract.NewestSectionFresh | owasp/asvs/_asvs.py:164 | the newest section has no uid cached |
| Extract.ReflectsStep | owasp/asvs/_asvs.py:154-171 | one iteration keeps all three lists what the rows seen so far determine |
| Extract.AssembleReflects | owasp/asvs/_asvs.py:154-173 | the three lists returned are fixed by the rows: distinct chapters and sections in first-appearance order, parsed from their first rows, and one requirement per row attached to the newest section at that row |
| Extract.ErrorPersists | owasp/asvs/_asvs.py:154-173 | the first exception ends the pass and is what the pass raises |
| Extract.AssembleSnoc | owasp/asvs/_asvs.py:154 | the pass over one more row is one more iteration |
| Extract.ParsersRaiseValueError | owasp/asvs/_asvs.py:29 | the three `from_csv_row` parsers raise only `ValueError` |
| Extract.AssembleRaisesOnlyValueError | owasp/asvs/_asvs.py:163-169 | `row_section` is always bound when it is read, so the pass raises only `ValueError` |
| Extract.SectionsNeverGetChapter | owasp/asvs/_asvs.py:163-169 | no returned section has a chapter or a uid, and every requirement uid is the placeholder + "." + id |
| Extract.LatestSectionIsOwn | owasp/asvs/_asvs.py:163-169 | the newest section at a row is that row's own section exactly when no other section opened since its first row |
| Extract.RequirementSectionIsOwn | owasp/asvs/_asvs.py:163-169 | a requirement is attached to the section of its own token exactly when no other section opened between that token's first row and its row |
| Extract.GroupedNoNewSection | owasp/asvs/_asvs.py:163-169 | when each section's rows are contiguous, no other section opens between a section's first row and any of its later rows |
| Extract.GroupedRowsLinkOwnSection | owasp/asvs/_asvs.py:163-169 | when each section's rows are contiguous, every requirement is attached to its own section |
| Extract.MirrorGrows | owasp/asvs/_asvs.py:165 | appending a section keeps every requirement object pointing at the same section object |
| Extract.NewRequirementMirror | owasp/asvs/_asvs.py:168-169 | a requirement object after `_set_section(row_section)` holds the value the model appends |
| Extract.RequirementAppendStep | owasp/asvs/_asvs.py:168-171 | a fresh requirement object attached to `row_section` extends the loop's variables exactly as `AddRequirement` extends the state, and keeps the requirements distinct |
| Extract.AppendKeepsModels | owasp/asvs/_asvs.py:171 | appending that object keeps the loop's variables in step with the model |
| Extract.ChapterBlock | owasp/asvs/_asvs.py:157-161 | the chapter block over objects raises or updates exactly as `AddChapter` |
| Extract.SectionBlock | owasp/asvs/_asvs.py:163-166 | the section block over objects raises or updates exactly as `AddSection`, a new Section only for a new token, and keeps the sections distinct |
| Extract.RequirementBlock | owasp/asvs/_asvs.py:168-171 | the requirement block over objects raises or updates exactly as `AddRequirement`, the new Requirement pointing at `row_section`'s object, and keeps the requirements distinct |
| Extract.ProcessRow | owasp/asvs/_asvs.py:155-171 | one loop iteration over objects raises or updates exactly as `Step` |
| Extract.ExtractDataFromAsvsCsv | owasp/asvs/_asvs.py:137-173 | the pass raises what `Assemble` raises; otherwise it returns the chapters of `Assemble(rows)` and distinct Section and Requirement objects mirroring its sections and requirements, each requirement pointing at its section's object |

## Left out

- Opening the file and `csv.DictReader` (lines 140-141): the model takes the rows already read, as a sequence of `Row` records with every column present. A row with a missing column (`None` from `DictReader`) is not modelled.
- The `cwe` and `nist` columns: nothing reads them.
- `__repr__` and `__str__` of the three classes: presentation only.
- The `charapter` getter of `Section` is a plain field read (`Section.chapter`).
- The `section` getter of `Requirement` (lines 93-95) returns itself recursively and would raise `RecursionError`. Nothing in the core calls it, so it is not modelled.
- The `section` argument of `Requirement.__init__` is ignored by the source and is not a parameter of the model's constructor.
- Asvs.ParseInt: `int()` also accepts surrounding whitespace, a sign, underscores between digits and non-ASCII decimal digits. The model accepts plain ASCII digit strings only and treats every other token as `ValueError`.
- Asvs.ParseInt: Python 3.11 and later (the source needs `typing.Self`, line 4) refuse to convert a digit string longer than 4300 digits and raise `ValueError`; the model parses ASCII digit strings of any length.
- Text.ParseNatToString: `str()` of an integer with more than 4300 digits raises `ValueError` on the same Python versions; the model converts every natural number, so the round trip is stated for all of them.
- A row with more fields than the header: `DictReader` stores the extra values under the key `None`, and `SimpleNamespace(**requirement)` (line 155) then raises `TypeError`. The model's `Row` has exactly the header's columns, so this error is not modelled.
- Asvs.Section.Uid: Python's truthiness test on `_uid` is modelled for `None` and the empty string; no other falsy value can be stored there.
- LinkSearch.Link: the regular expression is modelled by its meaning (the match `re.search` reports), not by Python's backtracking engine; the two agree on the group returned.
- Extract.ExtractDataFromAsvsCsv: the contract says the returned Section and Requirement objects are pairwise distinct, but not that they are newly allocated.
- Chapter objects are values in the model; their identity is not tracked, because the loop never changes or compares them.
