# 4CE, modelled and proved

4CE is the layer that turns a local chat platform into a controlled engineering assistant: agents draft
and challenge an answer, deterministic tools do the arithmetic, and a person types a word before anything
is released. This project models the parts that decide something and proves what they promise, for every
input and every run.

| file | models |
|---|---|
| `Columns.dfy`, `Formulas.dfy`, `Meaning.dfy` | column letters, cell values, operators and worksheet functions, and the memo-free meaning of a sheet, indexed by depth so that it is defined on cyclic sheets too |
| `Grid.dfy`, `References.dfy` | the memoising evaluator with its busy set, against that meaning; what cannot reach a cycle |
| `Worksheets.dfy`, `Readback.dfy` | columns and cells written into a copy, and the copy read back through the evaluator |
| `RemainingLife.dfy`, `Compile.dfy`, `Survey.dfy`, `LifeSheet.dfy` | the thickness calculation, the formulas compiled from it, and where they are put |
| `Figures.dfy`, `Proposals.dfy`, `Chain.dfy` | the check of an answer's figures; the search for the workbook changes a text proposes, character by character; the agent chain from first draft to release |
| `Tasks.dfy` | the in-process task registry under every interleaving |
| `ColumnMatch.dfy`, `Register.dfy`, `Dates.dfy`, `Calibration.dfy`, `Headings.dfy`, `CheckRegister.dfy` | the calibration register: headings, table scan, due dates, statuses, disposition, and the check as a whole |
| `Widths.dfy`, `Revision.dfy`, `Workspace.dfy`, `SopCheck.dfy` | table widths, the revision diff, the versioned writer, SOP thresholds |
| `Options.dfy` | optional values |

Numbers are reals. Text enters as what the code gets out of it: formulas as syntax trees, sentences as their
citations, clauses and figures, table lines as the answers to what the scanner asks of them.

The main results:

- **The evaluator computes the meaning.** Whatever was asked before, whatever is being evaluated around it
  and however many cycles the sheet has elsewhere, a cell that cannot reach a cycle gets exactly its
  memo-free value; every call terminates and leaves the busy set as it found it (`Grids.Grid.Query`,
  `References.AcyclicSettles`).
- **The compiled formulas mean the calculation**, through the modelled writer and evaluator: an exported
  workbook's formulas come to the rate, the life and the next measurement the calculation found
  (`LifeSheet.ExportCalculation`), and a survey's preview shows them too, its next measurement exactly when
  the request's own maximum interval changes nothing for the row (`Readback.PreviewSurvey`).
- **Nothing is released without approval**, over every run: verdict, then decision, then release, each at
  most once, and the fingerprint is of the draft shown (`Chain.RunChain`, `Chain.EveryRunSafe`,
  `Chain.FingerprintOfShown`). A pass is given exactly when it is deserved, at most two attempts are made,
  and the second exactly after a failed, non-final first (`Chain.Verify`, `Chain.Deliberate`).
- **A chat is idle only when its tasks have finished** (`Tasks.ActiveExactly`), **column matching is the one
  stable matching** (`ColumnMatch.MatchColumns`), **the register scan settles every line once**
  (`Register.EachRowOnce`), **ALL CURRENT is said exactly when every row of every table was read and nothing is
  against any** (`CheckRegister.AllCurrentMeans`), **statuses only worsen with time** (`Calibration.StatusOnlyWorsens`,
  `Calibration.TimeNeverImproves`), **a file's versions are its whole history**
  (`Workspace.HistoryIsComplete`).

Where a promise turned out not to hold, the code is kept as it is, a lemma shows an input, and the exact
condition is proved:

- A survey's columns refer to the last *headed* column shown, but are written after the sheet's last column.
  Where those differ, the life formula reads the wrong column (`Survey.MisplacedColumns`,
  `Survey.SurveyMeans`).
- A survey's columns do not carry the maximum interval of the whole request, which the calculation in the same
  answer applies: a request that states half a year gets half a year in the answer and a year in the workbook
  (`Survey.WideIntervalMissed`, `Survey.NextCarriedExactly`). And a row below column A's last entry gets no
  formulas, although the calculation assesses it (`Survey.NoFormulasBelow`).
- A stated maximum interval of 0 is the shortest, so it is chosen over a plant rule's and a location's own,
  and then counts as none (`RemainingLife.IntervalsKeptExactly`). The formulas and the calculation also part
  at an interval of 0 (`Compile.NextAgreesExactly`). At negative years they part as functions
  (`Compile.RateAgreesExactly`, `Compile.LifeAgreesExactly`); the calculation's own reader takes unsigned
  numbers, so none reaches it that way.
- The tick "every figure the answer cites appears in the source it cites" is also given when some of them
  are the request's own or the calculation's; it is true exactly when no unverified figure is listed beside
  it (`Figures.TickOverstates`, `Figures.FigureChecks`).
- Workbook changes can be written that the approver was not shown: those planned when the preview was refused
  (`Chain.RefusedPreviewWritten`), and those that surface from what is added to the answer, such as a
  proposal printed by the program (`Chain.PrintedProposalWritten`). Over the record of every run, all that is
  written was previewed in the draft exactly when neither is the case (`Chain.PreviewedExactly`).
- A reading beyond the last of a rule pack's bands has no finding, and drops out of the disposition unless
  missing data blocks (`SopCheck.OffTheScale`). A worse observation never improves the disposition exactly
  for the rule packs whose rules are safe above what the rest never go below
  (`SopCheck.PackNeverImprovesExactly`); the built-in one is such (`SopCheck.BuiltInNeverImproves`).

## Model

| member | source | states |
|---|---|---|
| `Columns.ColumnNumber` | 4ce/tools/sheets.py:75-79 | the left-to-right loop computes bijective base 26 of the upper-cased letters |
| `Columns.ColumnLetters` | 4ce/tools/sheets.py:82-87 | the loop peeling off letters computes the inverse function |
| `Columns.NumberOfLetters` | 4ce/tools/sheets.py:75-87 | numbering the letters of n gives n back, for every n; the letters are A-Z, and non-empty for n >= 1 |
| `Columns.LettersOfNumber` | 4ce/functions/orchestrator.py:2653-2665 | lettering the number of a string gives it back, for every A-Z string |
| `Formulas.MinMaxMean` | 4ce/tools/sheets.py:264-269 | MIN and MAX are attained bounds of the numbers among the flattened arguments, and 0 when there is none |
| `Formulas.AverageMeans` | 4ce/tools/sheets.py:264-269 | AVERAGE lies between MIN and MAX and, times the count, is SUM |
| `Formulas.TextTrichotomy` | 4ce/tools/sheets.py:217-232 | the order on texts is total and strict |
| `Formulas.JudgeMirrors` | 4ce/tools/sheets.py:217-232 | any comparison of any two values, turned round, is its mirror image, with the same errors |
| `Formulas.AreaExactly` | 4ce/tools/sheets.py:134-138 | a range's cells are exactly the rectangle between its corners, whichever two are named |
| `Meaning.ExprDeeper` | 4ce/tools/sheets.py:200-272 | more depth never changes a value already settled |
| `Meaning.MeansAt` | 4ce/tools/sheets.py:114-132 | a cell's meaning is one value, whatever depth settles it |
| `Grids.BusyNeverSettles` | 4ce/tools/sheets.py:119-121 | a cell met while it waits for itself has no meaning at any depth, so answering #REF! contradicts none |
| `Grids.EnterCell` | 4ce/tools/sheets.py:119-125 | entering a cell keeps every busy cell waiting for the formula inside |
| `Grids.Grid.constructor` | 4ce/tools/sheets.py:108-112 | a new grid is valid, with nothing busy and nothing remembered |
| `Grids.Grid.Value` | 4ce/tools/sheets.py:114-132 | terminates; busy set unchanged, nothing forgotten, remembered values right; the cell's meaning whenever it has one, the saved value in place of an error included |
| `Grids.Grid.Evaluate` | 4ce/tools/sheets.py:175-197 | the formula's meaning whenever it has one, errors turned into codes, the busy set kept |
| `Grids.Grid.Walk` | 4ce/tools/sheets.py:200-272 | an expression's meaning whenever it has one |
| `Grids.Grid.WalkIf` | 4ce/tools/sheets.py:242-248 | IF evaluates its test and only the branch taken, and is still its meaning |
| `Grids.Grid.WalkAll` | 4ce/tools/sheets.py:249 | the arguments left to right, up to the first error |
| `Grids.Grid.Span` | 4ce/tools/sheets.py:134-138 | a range's values, each its cell's meaning |
| `Grids.Grid.Query` | 4ce/tools/sheets.py:108-138 | any queries in any order: every cell that has a meaning gets it, and every cell that cannot reach a cycle has one |
| `References.UnsettledPath` | 4ce/tools/sheets.py:114-138 | a cell unsettled at depth n starts a path of n + 1 formula cells, each referring to the next |
| `References.AcyclicSettles` | 4ce/tools/sheets.py:114-138 | a cell that cannot reach a reference cycle has a meaning |
| `References.CellFrame` | 4ce/tools/sheets.py:114-138 | a meaning rests only on the cells reached |
| `Worksheets.LastFilledExactly` | 4ce/tools/sheets.py:586-587 | the data rows end at the last row with anything in column A, or at the header |
| `Worksheets.WriteColumn` | 4ce/tools/sheets.py:590-612 | header and rows written one by one give the sheet and the written cells specified |
| `Worksheets.Apply` | 4ce/tools/sheets.py:586-618 | the loop over the changes gives the sheet after all of them and every cell written, in order |
| `Worksheets.ColumnsLand` | 4ce/tools/sheets.py:588-612 | a batch lands in consecutive columns in the order given, each with its entries; every other cell is as it was |
| `Worksheets.ColumnsFresh` | 4ce/tools/sheets.py:590-593 | the new columns were empty |
| `Worksheets.WrittenExactly` | 4ce/tools/sheets.py:601-609 | the cells reported as written are exactly the new columns' data cells |
| `Worksheets.ValuesKept` | 4ce/tools/sheets.py:586-618 | a cell whose formulas do not reach a new column keeps its value, at every depth |
| `RemainingLife.CalculateRemainingLife` | 4ce/tools/calculations.py:89-112 | each location assessed with the interval chosen for it: stated or default, the plant rule's or its own when shorter |
| `RemainingLife.HalfLifeKept` | 4ce/tools/calculations.py:184-202 | next is within half the life, and the wall projected to it is at least midway between current and required |
| `RemainingLife.IntervalsKeptExactly` | 4ce/tools/calculations.py:89-112 | next keeps every applicable interval, whatever the readings, if and only if a stated 0 does not stand beside another interval |
| `RemainingLife.LifeGrowsExactly` | 4ce/tools/calculations.py:184-202 | life grows with current thickness across all verdicts if and only if years are not negative |
| `RemainingLife.NextGrowsExactly` | 4ce/tools/calculations.py:184-202 | next grows likewise if and only if the interval is absent or positive, or 0 with no years |
| `RemainingLife.Governing` | 4ce/tools/calculations.py:292 | the first location of shortest life, absent read as unbounded |
| `Compile.RateAgreesExactly` | 4ce/functions/orchestrator.py:2579-2581 | the rate formula gives the calculation's rate if and only if years are not negative |
| `Compile.LifeAgreesExactly` | 4ce/functions/orchestrator.py:2582-2584 | the life formula gives the calculation's life if and only if years are not negative or no life would come of them |
| `Compile.NextAgreesExactly` | 4ce/functions/orchestrator.py:2590-2594 | the capped next cell gives the calculation's next if and only if: with the wall spent, the interval is absent or not negative; else there is no time or no loss between the readings, or the interval is absent or not 0 |
| `Compile.RowMeans` | 4ce/tools/deliverables.py:1770-1776 | a row with a capped next column means the calculation's rate, life and next |
| `Compile.UncappedRowMeans` | 4ce/functions/orchestrator.py:2579-2599 | the same without an interval column |
| `Survey.Picked` | 4ce/functions/orchestrator.py:2568-2573 | a quantity's column is the first heading naming it that no earlier quantity took |
| `Survey.ReadKept` | 4ce/tools/sheets.py:586-618 | a reading, written or computed, is the same in the written copy |
| `Survey.OwnIntervalMeans` | 4ce/functions/orchestrator.py:2576-2600 | the columns added mean the rate, the life and the next measurement under the row's own interval, whether the readings are constants or formulas |
| `Survey.NextCarriedExactly` | 4ce/tools/calculations.py:89-112 | that next is the calculation's under the request's maximum too, if and only if there is none, the row's own is no longer, the wall is spent, or half the life comes first: before the request's maximum, or, where that is 0 and so counts as none once chosen, before the row's own if it has one |
| `Survey.WideIntervalMissed` | 4ce/functions/orchestrator.py:1418-1437 | a request whose answer says half a year and whose workbook says a year |
| `Survey.SurveyMeans` | 4ce/functions/orchestrator.py:2576-2600 | against the whole calculation, row by row, when the last heading shown is the last column: rate and life always, next exactly when the request's maximum changes nothing |
| `Survey.NoFormulasBelow` | 4ce/tools/sheets.py:586-609 | below column A's last entry the new columns stay empty |
| `Survey.MisplacedColumns` | 4ce/functions/orchestrator.py:2577-2578 | for any other headings there is a survey given a life that is not its own |
| `LifeSheet.WriteRow` | 4ce/tools/deliverables.py:1763-1779 | a row's cells left to right, other rows untouched |
| `LifeSheet.RemainingLifeSheet` | 4ce/tools/deliverables.py:1747-1788 | headings, every location's inputs and formulas in its own row, the note below |
| `LifeSheet.SheetMeans` | 4ce/tools/deliverables.py:1760-1779 | a location's row, evaluated, is the location as calculated, with the interval it was calculated with although the report leaves most out |
| `LifeSheet.ExportCalculation` | 4ce/tools/calculations.py:89-118 | readings to calculation to report to workbook: every location's formulas come to what was calculated |
| `Readback.ApplyAndReadBack` | 4ce/tools/sheets.py:586-642 | the copy written and read back on one evaluator: shown values are meanings, and a written cell is refused exactly when its meaning is #BLOCKED! |
| `Readback.ReadAsCalculated` | 4ce/tools/sheets.py:624-638 | a value read back that is its cell's meaning is the calculation's rate or life, or its next exactly when the request's maximum changes nothing |
| `Readback.PreviewSurvey` | 4ce/functions/orchestrator.py:601-614 | the calculation of a survey's rows and the preview of its columns, cells in any order: rate and life agree for every row with its readings, next exactly when the request's maximum changes nothing; the cells written are exactly the new columns' |
| `Figures.CheckCited` | 4ce/functions/orchestrator.py:3256-3288 | a citing sentence leaves the notes clean exactly when its figures and clauses have grounds |
| `Figures.CheckUncited` | 4ce/functions/orchestrator.py:3246-3255 | so does an uncited one that is attributed to the SOP |
| `Figures.Scan` | 4ce/functions/orchestrator.py:3243-3288 | the notes after all sentences: clean, found, misplaced and borrowed each exactly when some sentence makes them so |
| `Figures.ListedProblems` | 4ce/functions/orchestrator.py:3289-3321 | the list caps hide no kind of finding: none listed exactly when none noted |
| `Figures.FigureChecks` | 4ce/functions/orchestrator.py:3208-3322 | no problem exactly when every figure and clause has grounds; every problem is some sentence's own; the tick exactly when given, and true exactly when nothing unverified is listed |
| `Figures.TickOverstates` | 4ce/functions/orchestrator.py:3290-3296 | an answer that is ticked with a figure its source does not contain |
| `Figures.TickTrueExactly` | 4ce/functions/orchestrator.py:3290-3296 | what the tick says is true if and only if no cited figure is borrowed |
| `Chain.ParseVerdict` | 4ce/functions/orchestrator.py:3066-3101 | PASS exactly when the governing line (the first if it is a verdict, else the last) says so; no verdict line fails closed |
| `Chain.ExecutionChecked` | 4ce/functions/orchestrator.py:3517-3560 | neither a problem nor final exactly when the code was there, ran, exited 0 and printed where asked |
| `Chain.Verify` | 4ce/functions/orchestrator.py:912-966 | passed exactly when the verifier's governing line is PASS, no own check is a problem, figures have grounds and code ran cleanly |
| `Chain.DraftRound` | 4ce/functions/orchestrator.py:808-862 | an attempt's draft, the changes it previews and the program it runs |
| `Chain.Deliberate` | 4ce/functions/orchestrator.py:618-1006 | the loop ends; two attempts exactly after a judged, failed, non-final first with replanning on; the verdict is the last attempt's |
| `Chain.Gate` | 4ce/functions/orchestrator.py:1016-1120 | open exactly without approval, without a session, or on the approving word; nobody asked is not an approval, no answer not a rejection |
| `Chain.WriteFiles` | 4ce/functions/orchestrator.py:1137-1207 | one call per artifact and per office format asked for, in order, none for chat |
| `Chain.Release` | 4ce/functions/orchestrator.py:1132-1275 | everything a release does, in order, its record last |
| `Chain.RunChain` | 4ce/functions/orchestrator.py:616-1290 | the whole record of every run and its ending; stages in order; every releasing event after the verdict and, where required, the approval; what is written previewed exactly when the preview stands in the draft |
| `Chain.EveryRunSafe` | 4ce/functions/orchestrator.py:1010-1275 | whatever came from outside: stages in order, at most one release, vouched for; and something is released exactly when cleared |
| `Chain.FingerprintOfShown` | 4ce/functions/orchestrator.py:1053-1132 | the fingerprint recorded is of the draft the approver was shown |
| `Proposals.ScanExactly` | 4ce/functions/orchestrator.py:2528 | scanning a text character by character finds exactly the body of the pattern's leftmost match, and nothing when it matches nowhere |
| `Proposals.SeekingForgets` | 4ce/functions/orchestrator.py:2668-2672 | what goes before an opening on a line of its own does not matter to the search |
| `Proposals.FirstFenceExactly` | 4ce/functions/orchestrator.py:2528 | the first three backquotes of a text, or that it has none |
| `Proposals.InsideEnds` | 4ce/functions/orchestrator.py:2668-2672 | a body left open takes in what follows, up to its first fence |
| `Proposals.BlockJoined` | 4ce/functions/orchestrator.py:2668-2678 | the changes proposed by any answer with any text added after a line break: the answer's own if it has readable ones, else exactly what surfaces, openings left bare or open included |
| `Proposals.WholeProposal` | 4ce/functions/orchestrator.py:2668-2672 | a proposal in full is found, whatever its body and whatever follows |
| `Chain.ChangesExactly` | 4ce/functions/orchestrator.py:1215-1222 | the changes a release writes are those planned, or else what surfaces from the text added to the answer |
| `Chain.PreviewedExactly` | 4ce/functions/orchestrator.py:815-823 | in the record of any run, every sheet written was previewed in the released draft with its changes, if and only if nothing is released, the planned changes' preview was given, or none were planned and none surface from what is added to the answer |
| `Chain.PreviewInDraft` | 4ce/functions/orchestrator.py:822-823 | a preview given for planned changes is text of the draft |
| `Chain.RefusedPreviewWritten` | 4ce/functions/orchestrator.py:818-823 | the preview refused: a draft without a word of the changes, which are written |
| `Chain.PrintedProposalWritten` | 4ce/functions/orchestrator.py:843-859 | nothing planned or shown: a proposal the program printed between its fences is written, whatever it proposes |
| `Tasks.Registry.constructor` | backend/open_webui/tasks.py:131-151 | both maps start empty |
| `Tasks.Registry.CreateTask` | backend/open_webui/tasks.py:131-151 | the id in both maps, last in its item's list, nothing else changed |
| `Tasks.Registry.CleanupTask` | backend/open_webui/tasks.py:114-128 | the id out of both maps, its first listing only, the item dropped with its last id |
| `Tasks.Registry.StopTask` | backend/open_webui/tasks.py:252-256 | only `tasks` loses the id; the item's list is untouched |
| `Tasks.Registry.HasActiveTasks` | backend/open_webui/tasks.py:285-288 | true exactly while the item's list is not empty |
| `Tasks.ListedCleaned` | backend/open_webui/tasks.py:123-128 | a cleanup takes its id, and only its id, off the list of ids not yet cleaned up |
| `Tasks.StepKeeps` | backend/open_webui/tasks.py:114-151 | every step keeps: each item's list is exactly its ids not yet cleaned up, in order, and none is empty |
| `Tasks.RunKeeps` | backend/open_webui/tasks.py:114-151 | so does every run |
| `Tasks.ActiveExactly` | backend/open_webui/tasks.py:285-288 | a chat is active exactly while some task of its has not been cleaned up, so idle only when all have finished |
| `Tasks.ListedUntilCleanup` | backend/open_webui/tasks.py:114-151 | an id is listed from its creation until exactly its own cleanup, which comes after it finished |
| `Tasks.AllCleanedEmpty` | backend/open_webui/tasks.py:114-128 | once all are cleaned up both maps are empty |
| `ColumnMatch.RankedExactly` | 4ce/tools/calibration.py:603-611 | a phrase ranks a heading exactly when its words stand together in it, highest exactly when they are all of it |
| `ColumnMatch.Best` | 4ce/tools/calibration.py:622-626 | the best rank any of a column's phrases gives |
| `ColumnMatch.Collect` | 4ce/tools/calibration.py:616-628 | exactly the candidates, in the order of the two loops |
| `ColumnMatch.Sort` | 4ce/tools/calibration.py:630 | by rank, highest first, ties in the order collected, nothing lost or added |
| `ColumnMatch.Assign` | 4ce/tools/calibration.py:631-638 | a selection in which nothing clashes and whatever is left out clashes with something before it |
| `ColumnMatch.StableUnique` | 4ce/tools/calibration.py:631-638 | there is only one such selection |
| `ColumnMatch.MatchColumns` | 4ce/tools/calibration.py:614-638 | injective, and every candidate passed over shares its column or heading with a chosen one of at least its rank |
| `ColumnMatch.MatchingUnique` | 4ce/tools/calibration.py:614-638 | a table's headings are matched in one way only |
| `Headings.ReadLine` | 4ce/tools/calibration.py:652-654 | a line heads a register with the instrument column of its matching, exactly when that has a calibration or due date too |
| `Headings.ReadsOneWay` | 4ce/tools/calibration.py:652-654 | a line as written reads as one line of the scanner's |
| `Register.ScanRows` | 4ce/tools/calibration.py:661-689 | the inner loop settles every line of one table, and stops where the table ends |
| `Register.ScanRegister` | 4ce/tools/calibration.py:641-692 | the two-index scan terminates with exactly what the line-by-line rule gives |
| `Register.InstrumentsExact` | 4ce/tools/calibration.py:673-688 | the instruments are the rows with a tag, each once, in order |
| `Register.SkipFrom` | 4ce/tools/calibration.py:655-683 | the skip notes are the lines' own |
| `Register.SkipsInOrder` | 4ce/tools/calibration.py:655-683 | at most one to a line, in order |
| `Register.EachRowOnce` | 4ce/tools/calibration.py:641-692 | every row of a register is exactly one instrument or one note, and no other line is either but a heading that opens no register |
| `Dates.OrderOfOrdinals` | 4ce/tools/calibration.py:361-377 | calendar order is the order of day numbers |
| `Dates.PlusDaysOrdinal` | 4ce/tools/calibration.py:950 | adding days moves the day number by exactly that, and fails only past the last date |
| `Dates.OffsetsOrdered` | 4ce/tools/calibration.py:946-950 | add_offset is monotone in start, months and days together, through clamped month ends and leap years |
| `Dates.OffsetLands` | 4ce/tools/calibration.py:946-950 | it lands in exactly the month meant, on the same day or a shorter month's last, never before the start |
| `Calibration.DueDefensible` | 4ce/tools/calibration.py:361-377 | the due date used is the stated or the computed one, at most a day after either |
| `Calibration.StatusOn` | 4ce/tools/calibration.py:379-422 | the reassignments come to the status by where the day falls |
| `Calibration.StatusOnlyWorsens` | 4ce/tools/calibration.py:379-422 | from the last calibration on, time never moves a status back |
| `Calibration.DispositionIsWorst` | 4ce/tools/calibration.py:237-266 | the disposition is the worst row's, or CHECK INCOMPLETE for a skip when none is worse |
| `Calibration.AllCurrentExactly` | 4ce/tools/calibration.py:222-266 | ALL CURRENT exactly when something was read, nothing was skipped and every row is VALID, readable, and in tolerance or not recorded; with nothing read there is no disposition |
| `Calibration.MoreNeverImproves` | 4ce/tools/calibration.py:237-266 | more rows or skips never improve the disposition |
| `Calibration.TimeNeverImproves` | 4ce/tools/calibration.py:237-266 | nor does a later assessment date |
| `Register.NoneSkipped` | 4ce/tools/calibration.py:655-683 | nothing is noted exactly when every row became an instrument and every heading opens a register |
| `CheckRegister.AssessEach` | 4ce/tools/calibration.py:235 | every instrument placed, or none when one's interval runs past the calendar |
| `CheckRegister.CheckCalibration` | 4ce/tools/calibration.py:220-266 | scan, assessment and disposition together give the outcome specified on the text: nothing at all when an instrument raises, no disposition without an instrument, else the one of all that was found and skipped |
| `CheckRegister.AllCurrentMeans` | 4ce/tools/calibration.py:220-266 | ALL CURRENT exactly when there is a row, every row of every table became an instrument and nothing is against any, or one sentence's instrument has nothing against it; no disposition exactly when no instrument was read |
| `CheckRegister.DispositionMeans` | 4ce/tools/calibration.py:257-266 | any disposition is the worst of the text's instruments, or CHECK INCOMPLETE for a skip when none is worse |
| `CheckRegister.LaterNoBetter` | 4ce/tools/calibration.py:235-266 | a later assessment of the same text is never better |
| `CheckRegister.LineMoreNoBetter` | 4ce/tools/calibration.py:641-692 | nor is a line more at the end of the register, unless it is a separator |
| `Register.ListsAppended` | 4ce/tools/calibration.py:641-692 | such a line leaves what the lines before it come to as it was |
| `CheckRegister.CheckText` | 4ce/tools/calibration.py:220-266 | headings matched, tables scanned, instruments placed: from the lines as written to the outcome |
| `Widths.WidthsFill` | 4ce/tools/deliverables.py:1197-1204 | the widths sum to exactly the width shared |
| `Widths.WordsFitExactly` | 4ce/tools/deliverables.py:1197-1204 | no column is below its minimum if and only if the minima fit; and then none exceeds what it wants while not everything fits |
| `Widths.RoomForWords` | 4ce/tools/deliverables.py:1193-1196 | a minimum has room for each word, a want for each text of up to forty characters |
| `Widths.TableFits` | 4ce/tools/deliverables.py:1193-1204 | both, for any table |
| `Revision.MostAlike` | 4ce/functions/orchestrator.py:3817-3823 | the first most alike added sentence not taken, when alike enough |
| `Revision.PairRemoved` | 4ce/functions/orchestrator.py:3816-3828 | each removed sentence paired at most once, with the closest left, or with none only when none left is alike enough |
| `Revision.CompareStretch` | 4ce/functions/orchestrator.py:3815-3829 | every sentence of a stretch in exactly one change, and no alike pair left apart |
| `Revision.Compare` | 4ce/functions/orchestrator.py:3809-3829 | over the whole edit script: every sentence accounted for once, and stretch by stretch each pair the closest left and no alike pair left apart |
| `Revision.FixesFor` | 4ce/functions/orchestrator.py:3840-3852 | the two highest-scoring changes that answer an objection, in order, ties to the later |
| `Revision.Linked` | 4ce/functions/orchestrator.py:3853 | the changes objections point to, each once |
| `Revision.Order` | 4ce/functions/orchestrator.py:3856-3858 | every change once, linked ones first, the rest as they came |
| `Revision.KeepFirst` | 4ce/functions/orchestrator.py:3856-3871 | at most fourteen kept, with `more` the total; every kept fix names the same change; a linked change is cut only when all kept are linked |
| `Revision.KeptPrefix` | 4ce/functions/orchestrator.py:3856-3859 | a cut list keeps all linked changes or nothing else |
| `Revision.ListedOnce` | 4ce/functions/orchestrator.py:3824-3826 | leaving out silent pairs leaves every sentence in one change at most |
| `Revision.Revise` | 4ce/functions/orchestrator.py:3799-3872 | the whole: sentences accounted for, fixes the best two, kept plus `more` the list, every place a fix, every fix not placed a change cut, and a fix cut only when all kept are fixes |
| `Workspace.Writer.constructor` | 4ce/tools/files.py:162-177 | an empty workspace |
| `Workspace.Writer.WriteFile` | 4ce/tools/files.py:162-193 | the whole new store: the replaced content kept under the next number, nothing changed by a repeat or a refusal |
| `Workspace.AfterHistory` | 4ce/tools/files.py:180-193 | one write adds to its own path's history unless it repeats, loses no version and touches no other path |
| `Workspace.HistoryIsComplete` | 4ce/tools/files.py:180-193 | after any writes, v1..vk and the content are what was accepted, in order, consecutive repeats removed |
| `Workspace.VersionsStay` | 4ce/tools/files.py:186-190 | a kept version is never changed or lost |
| `SopCheck.BandOf` | 4ce/tools/sop_check.py:474-479 | the first band a value falls in, none exactly when it falls in none |
| `SopCheck.AssessBand` | 4ce/tools/sop_check.py:352-368 | the loop with early return finds the band of the range's worse end |
| `SopCheck.WorstIsWorst` | 4ce/tools/sop_check.py:504-509 | at least as bad as every disposition, and one of them or FIT |
| `SopCheck.FitExactly` | 4ce/tools/sop_check.py:252-262 | FIT FOR SERVICE exactly when every finding clears |
| `SopCheck.PackFitExactly` | 4ce/tools/sop_check.py:244-262 | so for any rule pack whose outcomes are aligned, on any observations |
| `SopCheck.AlignmentNeeded` | 4ce/tools/sop_check.py:252-262 | without alignment it fails |
| `SopCheck.RuleMonotone` | 4ce/tools/sop_check.py:352-405 | a higher reading, a range reaching higher or a thinner wall never improves a rule's disposition |
| `SopCheck.WorseNeverImproves` | 4ce/tools/sop_check.py:252-262 | nor the overall one, blocking or not, when all rules have data |
| `SopCheck.ReachedExactly` | 4ce/tools/sop_check.py:474-479 | a band is one some reading is assessed by, if and only if its limit leaves room above every limit before it |
| `SopCheck.SafeExactly` | 4ce/tools/sop_check.py:352-405 | for any rule: a worse observation never lowers its rank above a floor, if and only if its reached bands are in order and one has no limit or none is above the floor, or its margin's outcomes are in order |
| `SopCheck.PackNeverImprovesExactly` | 4ce/tools/sop_check.py:252-262 | for any rule pack, data or no data: a worse observation never improves the overall disposition if and only if every rule is safe above what the others never go below |
| `SopCheck.OffTheScale` | 4ce/tools/sop_check.py:352-368 | an instance: ordered bands without an open one, and a reading past the last |
| `SopCheck.BuiltInNeverImproves` | 4ce/tools/sop_check.py:32-170 | the built-in rules keep the promise on any observations |
| `SopCheck.BuiltInFit` | 4ce/tools/sop_check.py:32-170 | what the built-in rules call fit, with blocking on, in the procedure's own terms |

## Left out

- Text recognition: formula text to syntax tree, prose to sentences and figures, drafts to programs and artifacts, a proposal's body to its changes, headings to words. These enter as data or as functions of the text.
- Floating-point rounding, the `**` operator, Python's recursion limit, number formatting and datetime cells. Python's `float()`, `math.sqrt` and `round` are parameters (`Maths`).
- Grids.Grid.Value: on a cell that reaches a cycle it promises only termination and the busy set, because there the memory makes the value depend on the order of queries. An argument that is missing altogether is an exception the code lets through (`Crash`).
- Survey.SurveyMeans: a reading that rests on a cell right of the sheet, where the new columns go, is not covered.
- RemainingLife.LifeGrowsExactly: compares locations without a label or an interval, which the life does not depend on.
- Chain.RunChain: starts at the first attempt; routing, retrieval, the image reading and the direct chat answer come before it. The cards appended to the text after release are not modelled.
- SopCheck.PackNeverImprovesExactly: with blocking on, ASSESSMENT INCOMPLETE has no place among the dispositions, so the claim is of packs that do not block.
- The annotated image copy and the sandbox's output files, which are stored before approval by design, and the audit trail's hash chain, whose module is not part of this model.
- Unapproved text being shown: without an interactive session the draft is returned, marked unapproved. The release property is about files, the fingerprint and the release entry.
- Tasks.ActiveExactly: the paths through Redis, `stop_item_tasks`, tasks without an item id and `response_streams` are not modelled; ids are fresh.
- Workspace.HistoryIsComplete: names without glob characters and no other writer; which paths and contents are accepted is a parameter.
- ColumnMatch.MatchColumns: the vocabulary of headings is a parameter.
- Calibration.TimeNeverImproves: reading the cells of a row into dates, quantities and units is not modelled; an instrument carries them.
- SopCheck.RuleMonotone: a class rule's letters are compared only with themselves, since a rule pack orders none.
- Path containment and the filter on formulas that reach outside the workbook: only their outcomes appear.
- Models, HTTP, Docker, storage, and the rendering of `.docx`, `.pptx` and `.xlsx` files: outcomes only, as what came back from outside.
- The sovereignty report, installation, preflight and evaluation scripts, configuration and the frontend: they read settings, call out or draw, and decide nothing that is modelled here.
