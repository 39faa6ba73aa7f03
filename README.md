# Hotfix checker reconciliation, modelled in Dafny

The hotfix checker is a small tool for release engineers. It answers one question: for
every hotfix branch, is the expected distribution installed? It takes three inputs:

- a pasted list of branch paths, such as `modules/rskp/rskp-monitoring-front/hotfix/2.1.2`;
- a pasted list of installed distributions, such as `rskp-monitoring-front: hotfix_2.1.2-xxxx`;
- a two-column table (Компонент / Дистрибутив) that maps each component to its expected distribution.

It reduces every line to a component name and builds a lookup from the table. It then
produces four lists: missing distributions, unmapped branch components, unmapped
distribution components, and checked components.

The project models this reconciliation core and proves what it computes:

- `text.dfy` (module `Text`) models Python's `str.strip()` and `str.split(sep)`.
  - `IsSpace` is exactly the set of code points for which `str.isspace()` holds.
  - `Split` keeps empty pieces and always returns at least one piece.
  - `Join` is the inverse of `Split`. Each direction is proved: `Split` has a `Join` ensures, and `SplitJoin` is the other way round.
- `seqs.dfy` (module `Seqs`) is the order-preserving filter behind the list comprehensions with an `if`.
- `extract.dfy` (module `Extract`) holds the two extractors.
  - The branch extractor exists twice: `BranchComponent` is its specification, and `ExtractComponentFromBranch` is the checker's reverse loop with early return, proved equal to it.
  - The distribution extractor takes the stripped text before the first colon.
- `mapping.dfy` (module `Mapping`) builds the lookup the way `dict(zip(...))` does: the rows are inserted in order, so the last one wins.
- `reconcile.dfy` (module `Reconcile`) covers the rest of the pass.
  - Line preparation drops only the empty lines.
  - `MissingDistributions` and the other report functions specify each report as a function of the inputs.
  - `Reconcile` is the method with the checker's two appending loops, proved against those functions. `CheckHotfixes` runs the whole main block.

Behaviours of the code that the model keeps on purpose:

- The `if line` filter drops only empty lines. The whole pasted block is stripped before it is split, so blank-only lines at its start and end never reach the filter. A blank-only line between two non-blank lines does reach it, is kept, and reduces to the empty component.
- The `branch_path.strip()` fallback at the end of the branch extractor can never run, because a split always yields at least one piece. The method keeps it in a branch that is never taken.
- The missing check compares the expected distribution with the distribution **components**, which are the texts before the colon. It does not compare against the whole lines. `ExampleReconciliation` shows the effect on the docstring examples of the two extractors: `hotfix_2.1.2` is reported missing even though the installed line mentions it after the colon.
- The lookup's values come only from rows that were not overwritten. A distribution that appears only in an overwritten row therefore counts as unmapped (`UnmappedDistributionsSpec`, `DuplicateComponentExample`).
- The reports are lists, not sets. They keep the order of the input that drives them and keep duplicates, as the code's `append` calls do.
- Re-running the reconciliation on the same inputs gives the same reports. This holds by construction: `Reconcile` promises results that are functions of its inputs.

## Model

| member | source | states |
|---|---|---|
| `Text.Strip` | hotfix_checker.py:14 | `strip()` returns the slice of the line between its first and last non-whitespace characters: everything outside it is whitespace and neither of its ends is |
| `Text.StripUnique` | hotfix_checker.py:25 | that slice is the only one with those properties, so the contract of `Strip` determines it completely |
| `Text.StripIdempotent` | hotfix_checker.py:25 | stripping an already stripped text changes nothing, so the outer `.strip()` of a colon-free line is a no-op |
| `Text.Split` | hotfix_checker.py:14 | `split(sep)` gives at least one piece, no piece contains the separator, and joining the pieces with the separator gives the input back |
| `Text.SplitJoin` | hotfix_checker.py:14 | the converse: joining separator-free pieces and splitting again returns exactly those pieces, empty ones included |
| `Text.SplitFirstPiece` | hotfix_checker.py:25 | `split(":")[0]` is the text before the first colon, or the whole text when it has no colon |
| `Extract.BranchSegments` | hotfix_checker.py:14 | `branch_path.strip().split('/')` gives at least one segment, and no segment contains `/` |
| `Extract.RightmostHyphenated` | hotfix_checker.py:15-17 | the reversed scan finds the rightmost segment containing `-`: it contains one, no later segment does, and it finds none exactly when no segment contains `-` |
| `Extract.BranchComponent` | hotfix_checker.py:14-18 | the branch component is a `/`-segment of the stripped path; if some segment contains `-` it is the rightmost such segment, otherwise it is the last segment |
| `Extract.ExtractComponentFromBranch` | hotfix_checker.py:14-18 | the checker's loop over the reversed segments, with its early return and its unreachable `strip()` fallback, returns exactly `BranchComponent` |
| `Extract.SegmentsOfJoin` | hotfix_checker.py:14 | a path written as `/`-joined segments without surrounding blanks splits back into those segments |
| `Extract.BranchExample` | hotfix_checker.py:11-12 | `modules/rskp/rskp-monitoring-front/hotfix/2.1.2`, written as its five segments joined by `/`, yields `rskp-monitoring-front` |
| `Extract.BranchWithoutHyphenExample` | hotfix_checker.py:18 | a path without any hyphenated segment, `release/2.1.2` (as its segments joined by `/`), yields its last segment `2.1.2` |
| `Extract.BlankBranchLineYieldsEmpty` | hotfix_checker.py:14-18 | a line made only of whitespace, or the empty line, yields the empty component |
| `Extract.DistributionComponent` | hotfix_checker.py:25 | the result contains no colon; it is the stripped line when the line has no colon, and otherwise the stripped text before the first colon of the stripped line |
| `Extract.DistributionOfKeyedLine` | hotfix_checker.py:22-25 | for every line `X:Y` with no colon in `X`, the result is `X` stripped, whatever `Y` is |
| `Extract.DistributionExample` | hotfix_checker.py:22-23 | `rskp-monitoring-front: hotfix_2.1.2-xxxx` yields `rskp-monitoring-front` |
| `Mapping.ToMap` | hotfix_checker.py:61 | the lookup's keys are exactly the components of the table, and each maps to the distribution of the last row naming it |
| `Mapping.LastOccurrenceExists` | hotfix_checker.py:61 | every component of the table has a last row, so every key has a defining row |
| `Mapping.ToMapValues` | hotfix_checker.py:61 | a distribution is among the lookup's values exactly when it is the distribution of a row that no later row overwrites |
| `Mapping.ToMapUniqueComponents` | hotfix_checker.py:61 | when no component repeats, every row is found in the lookup as written |
| `Mapping.DuplicateComponentExample` | hotfix_checker.py:61 | of two rows for the same component the second wins and the first distribution is not a value |
| `Reconcile.NonEmptyLines` | hotfix_checker.py:55-56 | the `if line` filter keeps no more lines than it is given, and every kept line is non-empty and is one of the input lines |
| `Reconcile.NonEmptyLinesSpec` | hotfix_checker.py:55-56 | of the split lines, one is kept exactly when it is non-empty, so a blank-only line between non-blank lines is kept; kept lines keep their order, and a single line is kept or dropped alone |
| `Reconcile.BranchComponents` | hotfix_checker.py:58 | one branch component per kept branch line, in order |
| `Reconcile.DistributionComponents` | hotfix_checker.py:59 | one distribution component per kept distribution line, in order |
| `Reconcile.UnmappedBranches` | hotfix_checker.py:68-70 | the unmapped-branch report is no longer than the branch list, and each entry is a branch component the lookup has no key for |
| `Reconcile.CheckedComponents` | hotfix_checker.py:68-73 | the checked report is no longer than the branch list, and each entry is a branch component the lookup has a key for |
| `Reconcile.MissingDistributions` | hotfix_checker.py:71-75 | the missing report is no longer than the branch list, and each entry is a value of the lookup that is not among the distribution components |
| `Reconcile.UnmappedDistributions` | hotfix_checker.py:77-79 | the unmapped-distribution report is no longer than the distribution list, and each entry is a distribution component that is no value of the lookup |
| `Reconcile.Reconcile` | hotfix_checker.py:63-79 | the two appending loops produce exactly the missing, unmapped-branch, unmapped-distribution and checked lists specified by the report functions |
| `Reconcile.CheckHotfixes` | hotfix_checker.py:55-79 | the main block returns the reports of the cleaned, extracted lines against the lookup built from the table |
| `Reconcile.BranchPartition` | hotfix_checker.py:68-73 | a branch component is unmapped exactly when the lookup lacks it and checked exactly when the lookup has it, and the two lists together have as many entries as the branch list |
| `Reconcile.ReportsFollowInputOrder` | hotfix_checker.py:68-79 | every report of two stretches of input taken one after the other is the concatenation of their reports, so order and duplicates follow the driving list |
| `Reconcile.MissingDistributionsSpec` | hotfix_checker.py:72-75 | a distribution is reported missing exactly when a branch component in the lookup expects it and it is not a distribution component; every missing entry is therefore a lookup value, and there are at most as many as checked components |
| `Reconcile.MissingIsExpectedOfChecked` | hotfix_checker.py:71-75 | the missing report is, in order, the expected distribution `mapping[c]` of each checked component `c`, keeping those that are not distribution components |
| `Reconcile.UnmappedDistributionsSpec` | hotfix_checker.py:77-79 | a distribution component is reported unmapped exactly when no surviving row of the table has it as distribution |
| `Reconcile.EmptyMappingReports` | hotfix_checker.py:68-79 | with the empty table left by a failed load, all branch components are unmapped, none is checked or missing, and all distribution components are unmapped |
| `Reconcile.ExampleReconciliation` | hotfix_checker.py:63-79 | for the two docstring example lines and the table mapping `rskp-monitoring-front` to `hotfix_2.1.2`, `hotfix_2.1.2` is reported missing and `rskp-monitoring-front` is reported as an unmapped distribution |
| `Reconcile.ExampleUnmapped` | hotfix_checker.py:68-79 | a branch component `foo-bar` absent from the table is reported unmapped, and a distribution component `baz-qux` that is no table value is reported unmapped |

## Left out

- The Streamlit page is not modelled, because it is presentation only. This covers the title, the text areas, the file uploader, the button, the messages, the code and table displays and the download button (hotfix_checker.py:5, 44-47, 81-106). It also covers the `if uploaded_file:` guard, which only decides whether the pass runs at all.
- Reading and writing the Excel file (`load_mapping_from_file`, `to_excel`) is not modelled, because it is file I/O through pandas and openpyxl. The table enters the model as a sequence of rows. A failed load gives the empty table, and `EmptyMappingReports` covers that case.
- The round trip "export the table, then reload it" is left out for the same reason: it rests entirely on the Excel libraries.
- Storing the table in the session state (hotfix_checker.py:53) is left out, because it is ambient framework state. The model passes the table as a value.
- `splitlines()` and the `.strip()` of each whole text block (hotfix_checker.py:55-56) are left out. The model takes the already split lines as input and models only the `if line` filter. So it does not capture that blank-only lines at the start and end of a pasted block are removed by that strip: given such lines, the model keeps them as empty components, while the checker never sees them.
- The `KeyError` that pandas raises when the uploaded sheet lacks one of the two named columns is left out, because building the two columns happens in pandas.
- Cells that are not strings, such as NaN or numbers, are left out. All components and distributions are strings.
- Python strings are sequences of code points, while Dafny's `char` excludes the surrogate code points. A line containing a lone surrogate is outside the model.
