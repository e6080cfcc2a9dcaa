# kinshu-site in Dafny

A model of the logic of kinshu-site, a browser app for counting cash. The
app lists the bills and coins of Japanese yen (JPY) or Chinese yuan (CNY). A
keypad with a small calculator sets the count of each denomination. The app
shows the running totals and keeps the counts in named notes, each with its
own history of saved points.

The model is a set of pure functions over immutable datatypes, one Dafny
module per source component:

| module | file | models |
|---|---|---|
| `Utils` | utils.dfy | `safeEval`: normalising `×`/`÷`, stripping a trailing operator run, the allow-list, strict-mode evaluation and the finiteness guard |
| `Lexer`, `Parser`, `Expression` | lexer.dfy, parser.dfy, expression.dfy | the part of JavaScript `new Function` that `safeEval` admits: numeric literals (with the strict/sloppy difference for leading zeros), `+ - * /`, unary signs, parentheses and comments |
| `JsNumber` | js_number.dfy | JavaScript numbers: finite values, the two infinities and NaN; arithmetic, `%`, and `Number.prototype.toString` |
| `NumberParsing` | parse_float.dfy | `parseFloat` |
| `Text` | text.dfy | JavaScript white space, `trim`, digits and decimal renderings |
| `Keypad` | keypad.dfy | the key handler of the keypad panel, `showKeypad` and `hideKeypad` |
| `Data` | data.dfy | the JPY and CNY catalogs, face values in tenths of a unit |
| `Cells` | cells.dfy | the count displays, and the reading and writing of counts between displays and notes |
| `State` | state.dfy | the notes store: create, rename, settings, switch, delete, save points, restore, `saveCounts`, `loadState`, `initNotes` |
| `Renderer` | renderer.dfy | greying of cells by the hide flags, the restore of displays, `updateSummary`, `resetAll` |
| `HistoryUI` | history_ui.dfy | save-point creation and default memo, the detail table, the sidebar list, restore and delete |
| `NoteUI` | note_ui.dfy | note switching, the edit, create and delete dialogs, and the accent colour decoding |
| `Gestures` | gestures.dfy | swipe classification and scroll suppression of `SwipeDetector` |
| `LegacyApp` | legacy_app.dfy | the older single-file app: its `safeEval`, keypad, rendering, summary and stored settings |

Browser state is passed in explicitly. The DOM's count displays are a
sequence of `Cell`s in page order. The active display is an index into
that sequence. Fresh ids and the current time are parameters. Dialog
confirmations and check boxes are boolean parameters.

Numbers are modelled without rounding: a finite JavaScript number is an
exact real. Face values are whole tenths of a unit, so sums such as 0.1 +
0.5 are exact in the model.

## Model

| member | source | states |
|---|---|---|
| Utils.SafeEval | app/core/utils.js:6-25 | the result is never empty; blank input gives "0"; any other result is the rendering of a finite number |
| Utils.SafeEvalArgument | app/core/utils.js:7 | a non-string argument gives "0"; a string is evaluated |
| Utils.EvalCleaned | app/core/utils.js:16-24 | text failing the allow-list gives "0"; otherwise the result is "0" or a finite number's rendering |
| Utils.Normalise | app/core/utils.js:10 | every `×` becomes `*` and every `÷` becomes `/`, position by position; no `×` or `÷` is left |
| Utils.NormaliseIdempotent | app/core/utils.js:10 | normalising twice is normalising once |
| Utils.NormaliseAppend | app/core/utils.js:10 | normalising distributes over concatenation |
| Utils.NormaliseKeepsBlankness | app/core/utils.js:7-10 | normalised text is blank exactly when the input is |
| Utils.NormaliseFirst | app/core/utils.js:10 | `safeEval` of the normalised text equals `safeEval` of the text |
| Utils.StripTrailing | app/core/utils.js:13 | the result is a prefix not ending in `+ - * / .`, and everything cut off is such a character |
| Utils.StripAppendedJunk | app/core/utils.js:13 | a run of operators and points appended to a text is stripped again |
| Utils.StripAllJunk | app/core/utils.js:13 | a text made only of operators and points strips to the empty text |
| Utils.TrailingOperatorsIgnored | app/core/utils.js:13 | appending any run of `+ - × ÷ * / .` leaves the result unchanged |
| Utils.NumberThenOperators | app/core/utils.js:13 | a number followed by trailing operators ("12+", "12×÷") evaluates to that number |
| Utils.OnlyOperatorsGiveZero | app/core/utils.js:13-16 | text made only of operators and points gives "0" |
| Utils.DisallowedCharacterGivesZero | app/core/utils.js:16 | a character outside `[0-9+\-*/().\s]` anywhere gives "0" |
| Utils.BlankSourceFails | app/core/utils.js:20 | `return ( )` with only white space inside fails to evaluate |
| Utils.BlankCleanedGivesZero | app/core/utils.js:7-24 | blank text gives "0" even past the first guard |
| Utils.SafeEvalPrinted | app/core/utils.js:18-21 | a fully parenthesised expression gives its mathematical value, or "0" when that is infinite or NaN |
| Utils.SafeEvalInner | app/core/utils.js:18-21 | the same for the inside of a printed parenthesised expression |
| Utils.SafeEvalBinary | app/core/utils.js:18-21 | `l op r` written without outer parentheses gives the operator applied to the values of `l` and `r` |
| Utils.SafeEvalOfClean | app/core/utils.js:16-21 | clean text that evaluates to `v` gives `v` when finite and "0" otherwise |
| Utils.SafeEvalPrecedence | app/core/utils.js:20 | `x+y*z` evaluates to `x + (y * z)` |
| Utils.PrecedenceExample | app/core/utils.js:20 | "2+3*4" gives "14" |
| Utils.ParenthesesExample | app/core/utils.js:20 | "(2+3)*4" gives "20" |
| Utils.DivisionByZeroExample | app/core/utils.js:21 | "8/0" is infinite and gives "0" |
| Utils.DivisionSignExample | app/core/utils.js:10-21 | "8÷0" gives "0" |
| Utils.SafeEvalOnePoint | app/core/utils.js:21 | the result holds at most one decimal point |
| Lexer.ScanNumber | app/core/utils.js:20 | a numeric literal consumes at least one character and stops before a digit; in strict mode a leading zero followed by a digit is an error |
| Lexer.LeadingZeroLiteral | app/core/utils.js:20 | "010" is octal 8 in sloppy code and an error in strict code |
| Lexer.LineCommentLength | app/core/utils.js:20 | a `//` comment runs to the next line terminator |
| Expression.PrintText | app/core/utils.js:20 | the printed text of an expression starts with `(` or a digit and ends with `)` or a digit |
| Expression.UnaryRoundTrip | app/core/utils.js:20 | parsing the printed tokens of an expression gives its value and leaves the rest of the input |
| Expression.EvaluatePrint | app/core/utils.js:20 | the printed tokens of an expression evaluate to its value |
| Expression.TokenizePrintText | app/core/utils.js:20 | lexing the printed text of an expression gives its printed tokens |
| Expression.ScanNatLiteral | app/core/utils.js:20 | a rendered natural number lexes as one literal of that value |
| Expression.EvaluateWrappedText | app/core/utils.js:20 | `(` + printed text + `)` lexes and evaluates to the expression's value |
| JsNumber.ToString | app/core/utils.js:21 | NaN and the infinities are shown as words; an integral value as its integer digits |
| JsNumber.ToStringOnePoint | app/core/utils.js:21 | a rendered number holds at most one decimal point |
| JsNumber.Rem | app/ui/historyUI.js:131 | `%` is finite exactly for a finite dividend and a non-zero divisor, keeps the dividend's sign, and is below the divisor in size |
| NumberParsing.ParseFloat | app/ui/renderer.js:93 | blank text reads as NaN |
| NumberParsing.ParseNat | app/ui/renderer.js:93 | `parseFloat` reads a natural number's rendering back exactly |
| NumberParsing.ParseInt | app/ui/renderer.js:93 | `parseFloat` reads an integer's rendering back exactly |
| NumberParsing.ParseDigitsFirst | app/ui/renderer.js:93 | text starting with a digit reads as its longest numeric prefix, or NaN |
| Keypad.Press | app/ui/keypad.js:20-96 | without an active cell nothing changes; only Enter writes, and it writes `safeEval` of the buffer into the active cell and closes the keypad |
| Keypad.Show | app/ui/keypad.js:105-123 | opening a cell makes it active, sets the first-input flag and seeds the buffer with its value or "0" |
| Keypad.Hide | app/ui/keypad.js:125-132 | closing clears the active cell and the buffer |
| Keypad.OverlayClick | app/ui/keypad.js:16-18 | a click inside the panel changes nothing; a click outside closes without writing |
| Keypad.LastSegment | app/ui/keypad.js:86-87 | the text after the last operator, holding no operator |
| Keypad.ClearResets | app/ui/keypad.js:30-33 | AC sets the buffer to "0" and the first-input flag |
| Keypad.BackspaceDropsLast | app/ui/keypad.js:34-37 | ⇐ drops the last character, an empty result becomes "0", and a "0" result sets the flag |
| Keypad.FirstDigitReplaces | app/ui/keypad.js:58-60 | a digit or `00` as first input replaces the buffer (`00` gives "0") and clears the flag |
| Keypad.LaterDigitAppends | app/ui/keypad.js:61-70 | a lone "0" is replaced by a non-zero digit and kept for `0`/`00`; otherwise the digit is appended |
| Keypad.OperatorEndsBuffer | app/ui/keypad.js:73-82 | after an operator the buffer ends with it, having replaced a trailing operator or point or grown by one |
| Keypad.PointOncePerNumber | app/ui/keypad.js:85-92 | a point is appended only when the current number has none; otherwise nothing changes |
| Keypad.SegmentAfterPoint | app/ui/keypad.js:86-88 | appending a point extends the last segment, which then has a point |
| Keypad.EqualsEvaluates | app/ui/keypad.js:38-52 | `=` replaces the buffer with its `safeEval` and sets the flag |
| Keypad.EnterWritesAndCloses | app/ui/keypad.js:38-52 | Enter writes `safeEval` of the buffer into the active cell and closes; an outside click closes |
| Keypad.OpenHasInputPreserved | app/ui/keypad.js:20-132 | while a cell is active the buffer is never empty, whatever key, click or opening follows |
| Keypad.PressKeepsWellPointed | app/ui/keypad.js:29-93 | no number in the buffer ever gets a second decimal point |
| Data.Find | app/ui/renderer.js:39 | `find` returns an entry with the id, and nothing only when no entry has it |
| Data.FindUnique | app/ui/renderer.js:39 | with distinct ids `find` returns exactly the entry carrying the id |
| Data.AllIdsDistinct | app/core/data.js:6-29 | no id occurs twice, within or across the catalogs |
| Data.BelowOneIsCoin | app/core/data.js:27-28 | every entry below one unit is flagged as a coin |
| Data.FaceValuesPositive | app/core/data.js:6-29 | every face value is a positive whole number of tenths |
| Renderer.BillCoinComplementary | app/ui/renderer.js:43-44 | every entry is exactly one of bill and coin |
| Renderer.CoinRuleIsFlag | app/ui/renderer.js:44 | on the shipped catalogs the coin rule is the `isCoin` flag |
| Renderer.FlagsOf | app/ui/historyUI.js:227-234 | a flag is on exactly when the settings hold it as true |
| Renderer.ApplyDisabled | app/ui/renderer.js:31-65 | only the current currency's cells change, and only their greying; a JPY cell is greyed exactly by the three-flag rule; CNY cells are never greyed |
| Renderer.RenderCells | app/ui/renderer.js:31-82 | each cell keeps its id and group, takes the greying of the pass, and with a current note shows its stored count or "0" |
| Renderer.RenderCurrencyAsWritten | app/ui/renderer.js:9-83 | as written no cell of the shown currency is greyed, other cells keep their greying, and every display shows the stored count or "0" |
| Renderer.RenderCurrency | app/ui/renderer.js:47-50 | with the flags read from the note, a JPY cell is greyed exactly by the three-flag rule; displays as above |
| Renderer.AsWrittenNeverGreys | app/ui/renderer.js:48-50 | as written no JPY cell is ever greyed out |
| Renderer.Hide2000Ignored | app/ui/renderer.js:48 | a note hiding the 2000-yen bill keeps it live as written and greys it with the note's settings |
| Renderer.RenderFollowsSettings | app/ui/renderer.js:31-82 | with the note's settings a JPY cell is greyed exactly by the rule and shows the stored count or "0" |
| Renderer.CnyAllEnabled | app/ui/renderer.js:58-64 | a render in CNY enables every CNY cell |
| Renderer.UpdateSummary | app/ui/renderer.js:88-113 | without infinite counts the totals are the sums of face value × count, bill counts and coin counts, and the total count is the number of pieces; only the current note changes, and it holds each display under its id |
| Renderer.SummaryIsReference | app/ui/renderer.js:92-104 | without infinite counts the total, bills and coins are the sums over the counted cells of face value × count, bill counts and coin counts |
| Renderer.FiniteSummary | app/ui/renderer.js:92-110 | the summary equals the reference sums, and the total count the pieces, whenever no count is infinite |
| Renderer.PiecesPartition | app/ui/renderer.js:101-102 | every counted piece is either a bill or a coin |
| Renderer.TotalCountIsPieces | app/ui/renderer.js:110 | the total count shown is the number of counted pieces |
| Renderer.ZeroCells | app/ui/renderer.js:116-119 | every display becomes "0" and nothing else changes |
| Renderer.ResetGivesZero | app/ui/renderer.js:115-121 | after a reset the total, bills and coins are 0 |
| Renderer.ResetAll | app/ui/renderer.js:115-121 | reset zeroes every display, the summary is all zeros and the zeros are saved |
| Cells.OrZero | app/core/state.js:261 | an empty display value reads as "0"; any other is kept |
| Cells.ReadCells | app/core/state.js:258-264 | the saved counts hold exactly the ids of the cells |
| Cells.ReadCellsValue | app/core/state.js:258-264 | with distinct ids each cell's value, or "0", is saved under its id |
| Cells.ReadCellsAll | app/core/state.js:258-264 | with distinct ids every cell's value, or "0", is saved under its id |
| Cells.ReadCellsConsistent | app/core/state.js:258-264 | when cells sharing an id show the same value, that value, or "0", is saved under the id |
| Cells.ReadCellsSameEntries | app/core/state.js:258-264 | the saved counts depend only on the ids and values of the cells, not on their greying |
| Cells.LoadValue | app/core/state.js:241 | a loaded display value is never empty |
| Cells.LoadCells | app/core/state.js:238-246 | every display takes `saved[id] \|\| '0'` and nothing else changes |
| Cells.RestoreCells | app/ui/renderer.js:70-82 | every display takes the stored count when one is defined and "0" otherwise |
| Cells.SaveThenLoad | app/core/state.js:234-268 | saving the displays and then loading or restoring them gives back every value, with "0" for an empty one |
| State.DefaultsComplete | app/core/state.js:8-12 | every hide flag defaults to false |
| State.FindNote | app/core/state.js:197 | `findIndex` gives the first note with the id, and nothing only when no note has it |
| State.Replace | app/core/state.js:140-166 | replacing one note leaves the others and the current id alone |
| State.CreateNewNote | app/core/state.js:113-131 | exactly one note is appended, with empty counts and points, equal time stamps and the defaults overridden by the given settings |
| State.MergeSettings | app/core/state.js:145-149 | every flag is defined and takes the given value, else the stored one, else false |
| State.UpdateNoteSettings | app/core/state.js:139-151 | an unknown id changes nothing and reports false; otherwise only that note's settings and time stamp change |
| State.UpdateNoteName | app/core/state.js:159-167 | an unknown id changes nothing and reports false; otherwise only that note's name and time stamp change |
| State.SaveCounts | app/core/state.js:254-268 | without a current note nothing changes; otherwise only that note's counts and time stamp change, its counts hold every cell id, and with distinct ids each display's value or "0"; the current note stays the same |
| State.LoadState | app/core/state.js:234-248 | each display takes `saved[id] \|\| '0'`, never empty, and nothing else about a cell changes; loading counts just saved from the same displays gives every value back |
| State.SaveCountsIdempotent | app/core/state.js:254-268 | saving the same displays twice is saving them once |
| State.SaveCountsKeepsShape | app/core/state.js:254-268 | saving keeps the note ids, currencies and the current note |
| State.SwitchNote | app/core/state.js:175-188 | an unknown id changes nothing and reports false; otherwise the target becomes current, its currency is taken, and its counts are loaded |
| State.FindNoteSameIds | app/core/state.js:176 | lists with the same ids find the same note |
| State.DeleteNote | app/core/state.js:196-217 | an unknown id changes nothing; deleting another note removes exactly it; deleting the current note leaves a valid current note |
| State.InitNotes | app/core/state.js:77-104 | the list is never empty; a missing, empty or corrupt store gives one default JPY note that is current; a stored list is kept |
| State.GetCurrentNoteSettings | app/core/state.js:274-282 | every flag is defined; the note's own value wins, else false |
| State.PushPoint | app/core/state.js:313-318 | the new point is first, the list keeps at most 30 entries and the survivors keep their order |
| State.AddSavedPoint | app/core/state.js:294-323 | an unknown note changes nothing; otherwise the point is pushed to the front of that note's list |
| State.FindPoint | app/core/state.js:335 | `findIndex` gives the first point with the id |
| State.DeleteSavedPoint | app/core/state.js:331-342 | a missing note or point changes nothing; otherwise exactly the first point with the id is removed |
| State.RestoreCounts | app/core/state.js:350-358 | an unknown note changes nothing; otherwise the note's counts become the given ones |
| State.FindNoteAppend | app/core/state.js:128 | a note that can be found stays found after notes are appended |
| State.FindAfterRemoval | app/core/state.js:200 | a note other than the removed one stays findable |
| State.CurrentValidPreserved | app/core/state.js:113-358 | every store operation keeps the current id naming a note |
| State.DeleteKeepsNotes | app/core/state.js:204-215 | with a valid current note, deleting never leaves the list empty |
| State.DeleteCurrentHandsOver | app/core/state.js:204-207 | deleting the current note makes the first remaining note current and writes the displayed counts into it |
| State.DeleteLosesCountsAsWritten | app/core/state.js:204-207 | as written, the note taking over loses its stored counts whenever they differ from the displayed ones |
| State.DeleteNoteIntended | app/core/state.js:196-217 | the intended delete keeps every remaining note as it was, and a deleted current note hands over to a valid note whose counts are loaded |
| State.DeleteKeepsCountsIntended | app/core/state.js:204-207 | after the intended delete every remaining note keeps its counts |
| State.FindNoteAppendOne | app/core/state.js:128 | a pushed note can be found by its id |
| State.DeleteLastNoteRecreates | app/core/state.js:209-214 | deleting the last note creates a default JPY note holding the displayed counts |
| State.SavedPointsCapped | app/core/state.js:313-318 | repeated saves keep at most 30 points, newest first |
| HistoryUI.PointCounts | app/ui/historyUI.js:108-114 | the saved counts hold exactly the ids of cells with a catalog entry, as numbers |
| HistoryUI.PointCountsValue | app/ui/historyUI.js:114 | with distinct ids each catalog cell's number is saved under its id |
| HistoryUI.PointAgreesWithSummary | app/ui/historyUI.js:108-118 | without NaN counts the saved totals are those of the summary |
| HistoryUI.NaNPoisonsPointTotal | app/ui/historyUI.js:109-115 | a catalog cell reading as NaN makes the saved total NaN |
| HistoryUI.DefaultMemo | app/ui/historyUI.js:129-135 | the default memo is never empty |
| HistoryUI.Memo | app/ui/historyUI.js:127-136 | a non-blank memo is kept trimmed; a blank one takes the default |
| HistoryUI.DefaultMemoWhole | app/ui/historyUI.js:130-132 | a whole yen total gives "{man}万{sen}千", "{man}万", "{sen}千" or "{total}円" by which parts are positive |
| HistoryUI.MemoOfManAndSen | app/ui/historyUI.js:132 | 15000 yen gives "1万5千" |
| HistoryUI.MemoOfManOnly | app/ui/historyUI.js:132 | 20000 yen gives "2万" |
| HistoryUI.MemoOfSmallAmount | app/ui/historyUI.js:132 | 500 yen gives "500円" |
| HistoryUI.DefaultMemoNegative | app/ui/historyUI.js:130-132 | a negative total never gives 万 or 千 |
| HistoryUI.DefaultMemoCny | app/ui/historyUI.js:134 | a blank CNY memo is the total followed by 元 |
| HistoryUI.SavePoint | app/ui/historyUI.js:89-146 | without a current note nothing happens; otherwise a point with the memo, counts and totals is pushed onto the current note only |
| HistoryUI.DetailItems | app/ui/historyUI.js:230-235 | an item is listed exactly when it is not a JPY item hidden by the flags |
| HistoryUI.DetailCount | app/ui/historyUI.js:236 | a truthy stored count is shown; anything else shows 0 |
| HistoryUI.DetailRows | app/ui/historyUI.js:216-238 | without a current note no table; otherwise one row per listed item, with its label |
| HistoryUI.DetailCountMatchesLoad | app/ui/historyUI.js:236 | the count shown is what a restore puts in the display |
| HistoryUI.DetailRowsShowLoad | app/ui/historyUI.js:230-237 | each row shows the count a restore loads into that item's display |
| HistoryUI.CnyDetailListsAll | app/ui/historyUI.js:231 | every CNY item is listed, in order |
| HistoryUI.MergedFlagsAgree | app/ui/historyUI.js:227 | the merged settings and the note's own settings give the same flags |
| HistoryUI.DetailAgreesWithRender | app/ui/renderer.js:47-50 | with the flags read from the note, a JPY cell is greyed exactly when the detail of historyUI.js leaves its item out |
| HistoryUI.DetailDisagreesAsWritten | app/ui/historyUI.js:230-235 | as written an item the detail leaves out stays live on the page, where the note's flags would grey it |
| HistoryUI.Reverse | app/ui/historyUI.js:36 | the reversed list has the elements in opposite order |
| HistoryUI.SidebarAsWritten | app/ui/historyUI.js:36 | the sidebar as written lists at most ten points |
| HistoryUI.SidebarAsWrittenShowsOldest | app/ui/historyUI.js:36 | as written the sidebar lists the oldest points, oldest first |
| HistoryUI.NewestHiddenAsWritten | app/ui/historyUI.js:36 | once ten points exist, a point just saved is missing from the sidebar as written |
| HistoryUI.SidebarPoints | app/ui/historyUI.js:36 | the corrected sidebar lists the ten most recent points, newest first |
| HistoryUI.NewestShownFirst | app/ui/historyUI.js:36 | after a save the corrected sidebar shows the new point first, then the previous sidebar |
| HistoryUI.Sidebar | app/ui/historyUI.js:22-36 | the sidebar is empty without a current note; otherwise it lists at most ten of that note's points, the oldest first |
| HistoryUI.HandleRestore | app/ui/historyUI.js:76-84 | without confirmation nothing changes; only the current note can change; no cell of the shown currency is greyed |
| HistoryUI.RestoreStoresPoint | app/ui/historyUI.js:77-81 | after a confirmed restore and its saves the current note holds the point's counts in display form |
| HistoryUI.RestoreDisplaysPoint | app/ui/historyUI.js:77-81 | a confirmed restore shows the point's counts in every display |
| HistoryUI.RestoreShowsPoint | app/ui/historyUI.js:77-81 | a confirmed restore shows the point's counts in every display and stores them in the current note, whatever the cell ids |
| HistoryUI.LoadedConsistent | app/core/state.js:239-246 | displays loaded from one count map agree on the value of a shared id |
| HistoryUI.RestoreSteps | app/ui/historyUI.js:77-81 | the rendered displays carry the loaded values, with "0" for an empty one, and are what the last save stores |
| HistoryUI.RenderCellsAfterSave | app/ui/renderer.js:67-82 | rendering right after saving shows each display's own value, whatever the flags, when cells sharing an id agree |
| HistoryUI.RenderAfterSave | app/ui/renderer.js:67-82 | rendering right after saving shows every display's own value, with "0" for an empty one, as written and with the note's flags |
| HistoryUI.HandleDelete | app/ui/historyUI.js:194-199 | a point is removed from the current note only after confirmation |
| NoteUI.HandleNoteSwitch | app/ui/noteUI.js:97-109 | the refresh happens exactly when the switch succeeds; on success the target is current with its currency, and only counts and time stamps change |
| NoteUI.Refresh | app/ui/noteUI.js:102-103 | only counts and time stamps change; no cell of the shown currency is greyed; every display shows the note's stored count, and the note holds the displays |
| NoteUI.SaveOnlyCounts | app/core/state.js:254-268 | saving only touches counts and time stamps |
| NoteUI.SettingsOf | app/ui/noteUI.js:179-183 | the settings built from the check boxes define every flag and read back as the check boxes |
| NoteUI.EditSave | app/ui/noteUI.js:171-176 | an unknown note or a blank name changes nothing; otherwise only the note's name and time stamp change and the page stays as it was |
| NoteUI.EditNoteIntended | app/ui/noteUI.js:175-184 | the intended store update: the new name, and for a JPY note the check boxes merged into its settings; other notes unchanged |
| NoteUI.EditSaveIntended | app/ui/noteUI.js:171-196 | the intended handler: an unknown note or a blank name changes nothing; the page changes only for the current note |
| NoteUI.EditSettingsLostAsWritten | app/ui/noteUI.js:176 | for a JPY note whose flags differ from the check boxes, as written the flags stay as they were, while the intended handler stores the check boxes |
| NoteUI.EditUpdatesNote | app/ui/noteUI.js:178-184 | an intended edit stores the trimmed name, the check boxes as a JPY note's flags, and keeps other settings |
| NoteUI.MergedFlags | app/ui/noteUI.js:179-183 | check boxes merged into stored settings decide the flags |
| NoteUI.NewNoteName | app/ui/noteUI.js:215 | the proposed name is "新規ノート " and the count plus one |
| NoteUI.NewNoteNames | app/ui/noteUI.js:215 | the first proposal is the start-up note's name and different counts give different names |
| NoteUI.CreateFromDialog | app/ui/noteUI.js:233-249 | a blank name creates nothing; otherwise exactly one note is added and switched to |
| NoteUI.CreatedNoteBecomesCurrent | app/ui/noteUI.js:234-245 | the created note is last and current, with the trimmed name and flags only for JPY |
| NoteUI.DeleteFromList | app/ui/noteUI.js:291-298 | deleting is refused with at most one note and needs confirmation otherwise |
| NoteUI.GuardAvoidsRecreation | app/ui/noteUI.js:292-294 | with the guard, a delete removes exactly one note and never recreates one |
| NoteUI.HexRun | app/ui/noteUI.js:21-23 | the leading run of hexadecimal digits |
| NoteUI.ParseHex | app/ui/noteUI.js:21-23 | `parseInt(s, 16)` is NaN exactly when no hexadecimal digit follows the prefix |
| NoteUI.RemoveFirstHash | app/ui/noteUI.js:20 | a leading `#` is removed and text without `#` is kept |
| NoteUI.ApplyNoteColor | app/ui/noteUI.js:8-24 | a missing, empty or default colour clears the glow |
| NoteUI.ParseHex2 | app/ui/noteUI.js:21-23 | two hexadecimal digits read back as their byte |
| NoteUI.ColorRoundTrip | app/ui/noteUI.js:20-24 | `#rrggbb` decodes to its three byte values |
| Gestures.OrDefault | app/ui/gestures.js:12-14 | a missing or zero option takes the default |
| Gestures.MakeConfig | app/ui/gestures.js:10-25 | the defaults are 50, 100 and 300 |
| Gestures.Classify | app/ui/gestures.js:58-83 | nothing fires after the time limit; left and right fire on the horizontal test by the sign of dx; up and down only when the horizontal test fails, by the sign of dy; each needs its handler |
| Gestures.ClassifyMirror | app/ui/gestures.js:58-83 | mirroring a gesture left to right mirrors the swipe that fires |
| Gestures.HorizontalWins | app/ui/gestures.js:67-81 | when both tests pass only a horizontal swipe can fire |
| Gestures.PreventsScroll | app/ui/gestures.js:45-56 | scrolling is prevented only with a vertical handler and a move over 10 |
| Gestures.DialogPreventsScroll | app/ui/gestures.js:47-54 | a dialog stops scrolling exactly on a vertical move over 10 |
| Gestures.DialogCloses | app/ui/gestures.js:125-144 | a dialog closes exactly on a downward move of at least 80, within 50 sideways and 300 ms |
| Gestures.HistoryItemSwipesLeft | app/ui/gestures.js:95-119 | a history item swipes left exactly on a move of at least 100 left within 100 vertically and 300 ms |
| LegacyApp.LegacySafeEval | app.js:41-55 | empty or disallowed input gives "0"; anything else is "0" or the rendering of the sloppy-mode value |
| LegacyApp.LegacyBlankGivesZero | app.js:46-53 | blank input passes the allow-list but gives "0" |
| LegacyApp.LegacyEvalPrinted | app.js:48-51 | a printed expression gives its value written out, infinities and NaN included |
| LegacyApp.LegacyNormaliseFirst | app.js:43 | normalising first does not change the result |
| LegacyApp.StrictAgreesOnClean | app.js:41-55 | on clean text both evaluators agree on a finite value; on a non-finite one the current gives "0" and the legacy a word |
| LegacyApp.DivisionByZeroDiffers | app.js:50-51 | "1/0" gives "Infinity" in the legacy app and "0" in the current one |
| LegacyApp.DropLast | app.js:175 | ⇐ drops the last character and falls back to "0" |
| LegacyApp.TypeKey | app.js:193-200 | a first digit replaces the buffer; a "0" buffer is cleared before a non-digit; otherwise the key is appended |
| LegacyApp.HidePad | app.js:140-147 | closing clears the active display and the buffer |
| LegacyApp.ShowPad | app.js:111-138 | opening seeds the buffer with the value or "0" and sets the flag |
| LegacyApp.LegacyPress | app.js:161-204 | no active display changes nothing; AC, ⇐, =, Enter and other keys act as written, and only Enter writes |
| LegacyApp.FlagAfterKey | app.js:168-200 | the flag is set by AC, kept by ⇐, = and Enter, and cleared by other keys |
| LegacyApp.OpenBufferNonEmpty | app.js:161-204 | while open the buffer is never empty |
| LegacyApp.DigitAfterEquals | app.js:178-200 | a digit after `=` appends to the result rather than replacing it |
| LegacyApp.DigitsAppend | app.js:193-200 | digits typed after the first input are appended |
| LegacyApp.TypedDigitsReplace | app.js:193-200 | digits typed right after opening replace the display's value |
| LegacyApp.ZeroThenOperator | app.js:197-198 | "0" then `+` gives "+" |
| LegacyApp.CurrencyOf | app.js:62 | the JPY catalog is chosen exactly for "JPY" |
| LegacyApp.LegacyDisabledIsRendererRule | app.js:66-75 | the legacy greying rule is the current JPY rule, and no CNY cell is greyed |
| LegacyApp.BuildCells | app.js:57-106 | one cell per catalog entry, holding the saved value or "0", greyed by the rule |
| LegacyApp.DisplayValues | app.js:232-237 | the saved map holds exactly the ids of the cells |
| LegacyApp.DisplayValuesAt | app.js:232-237 | with distinct ids each cell's value, or "0", is saved under its id |
| LegacyApp.DisplayValuesAll | app.js:232-237 | with distinct ids every cell's value, or "0", is saved under its id |
| LegacyApp.SaveDisplays | app.js:231-238 | only the entry `counts_<currency>` changes |
| LegacyApp.Tally | app.js:206-223 | the legacy totals equal those of the current renderer |
| LegacyApp.Render | app.js:57-109 | without infinite counts the totals are the reference sums; only the shown currency's entry is written; rebuilding from what was saved gives the same cells |
| LegacyApp.RebuildFromSaved | app.js:97-106 | building the page from a saved built page gives the same cells, with "0" for an empty display |
| LegacyApp.BuiltIdsDistinct | app.js:79 | built cells have distinct ids |
| LegacyApp.SaveThenRender | app.js:97-106 | a render after a save shows every saved value, with "0" for an empty one |
| LegacyApp.SwitchKeepsOtherCounts | app.js:255-259 | counts saved for one currency survive a switch to the other |
| LegacyApp.BoolText | app.js:289 | a boolean is stored as "true" exactly when it is true |
| LegacyApp.SetHide | app.js:288 | setting one flag leaves the other two |
| LegacyApp.ChangeFlag | app.js:287-303 | a checkbox sets its flag and stores it under the key the handler writes |
| LegacyApp.ToggleCurrency | app.js:255-259 | "JPY" becomes "CNY", anything else "JPY", and the choice is stored |
| LegacyApp.SetDark | app.js:276-279 | the dark-mode choice is stored as text |
| LegacyApp.ReadFlag | app.js:412-416 | a stored flag reads true exactly when the text is "true" |
| LegacyApp.ReadCurrency | app.js:415 | the stored currency, or "JPY" |
| LegacyApp.LoadAsWritten | app.js:410-421 | start-up as written reads the flags from the `appState.` keys |
| LegacyApp.Load | app.js:410-421 | start-up reading the flags from the keys the handlers write |
| LegacyApp.ReadKeyNeverWritten | app.js:412-414 | no key start-up reads for a flag is ever written |
| LegacyApp.FlagLostAsWritten | app.js:412-414 | as written a flag switched on is off again after a reload |
| LegacyApp.FlagSurvivesReload | app.js:287-303 | reading the written keys, the changed flag, currency and dark mode survive a reload |
| LegacyApp.CurrencySurvivesReload | app.js:255-257 | the toggled currency is restored on reload |
| LegacyApp.DarkSurvivesReload | app.js:276-279 | the dark-mode choice is restored on reload |

## Left out

- Persistence in app/core/state.js: the `localStorage` writes, the 100 ms debounce timer and the alert on failure are I/O and timers. The store is a value returned by each operation, and what `initNotes` read is a parameter (`State.Loaded`).
- Ids and time stamps: `generateUUID` uses `Math.random` and the time stamps come from `new Date()`. Both are parameters of the operations that need them.
- Floating point: finite numbers are exact reals, so rounding (0.1 + 0.2) and negative zero are not modelled. `toLocaleString` and `maximumFractionDigits` in the summary and the dialogs are left out.
- JsNumber.ToString: every digit of an integral value is printed, where `Number#toString` switches to exponent form from 1e21 up (`String(1e21)` is "1e+21"), and other values print up to 16 fraction digits rather than the shortest round-trip digits. Below 1e-6 JavaScript also switches to exponent form (`String(1e-7)` is "1e-7"), where the model prints "0.0000001"; a non-zero value below 1e-16 in size, of either sign, prints as "0" in the model. So `safeEval("1÷10000000")` gives "1e-7" in JavaScript, which evaluates to "0" when the display is reopened and entered because the allow-list refuses `e`, while the model shows and keeps "0.0000001". Numbers never overflow: JavaScript turns a literal or product above about 1.8e308 into `Infinity`, which `safeEval` reports as "0", while the model keeps the exact value.
- Evaluation beyond the admitted grammar: the allow-list also lets `**` through, which the lexer refuses where JavaScript would evaluate it. A `/` where an operand is expected starts a regular-expression literal in JavaScript; the model reports a syntax error there. Both give "0" from the current `safeEval` except for `**`; the legacy evaluator would show a regular expression's source text.
- app/export/imageExport.js and `downloadImage` in app.js: canvas capture and download.
- app/ui/settings.js and app/ui/settingsUI.js: backup files, themes and the licence alert.
- app/ui/stateSync.js: it copies displays to and from the store, which `State.SaveCounts` and `State.LoadState` already model.
- app/main.js and app/ui/effects.js: start-up wiring and a CSS effect on a timer.
- Templates, animations, `closeOverlay` timers, the keypad label and the sidebar's date formatting.
- The alpha values of `applyNoteColor` and the dark-mode choice of the plain accent colour.
- `SwipeDetector.init` and `destroy`, which add and remove listeners, and the transforms set by the swipe callbacks.
- `updateNoteColor`: app/ui/noteUI.js imports it, but app/core/state.js does not export it. `NoteUI.EditSave` takes the call to throw, so only the name is stored (see Findings). Under ES module rules the import itself fails to link, in which case no part of app/ui/noteUI.js, nor of any module importing it, would load; the model does not cover that reading. `NoteUI.EditSaveIntended` leaves the colour out, since the model's notes have no colour field.
- The closing `updateSummary()` of `renderCurrency` (app/ui/renderer.js:85) is not part of `Renderer.RenderCurrencyAsWritten`; its callers `NoteUI.Refresh` and `HistoryUI.HandleRestore` add that save.
- The `noteSwitched` event of `handleNoteSwitch`: `NoteUI.HandleNoteSwitch` reports success, which is when the event is dispatched.
- Gestures.PreventsScroll: the contract states only that prevention needs a vertical handler and a move over 10. The converse is proved for the dialog detector in `Gestures.DialogPreventsScroll`.
- JsNumber.Rem: the bounds are stated for a positive divisor only.
- NoteUI.ApplyNoteColor: the contract covers the plain cases; the `#rrggbb` case is stated by `NoteUI.ColorRoundTrip` for well-formed colours only.

## Findings

| source | as written | input that shows it | evidently intended | confidence | as-written member | corrected member |
|---|---|---|---|---|---|---|
| app/ui/renderer.js:48-50 | the hide flags are read from `appState`, which never defines them (app/core/state.js:15-23) | a JPY note whose settings hide the 2000-yen bill | the current note's settings decide which cells are greyed | high; not executed | Renderer.AsWrittenNeverGreys | Renderer.RenderFollowsSettings |
| app/ui/historyUI.js:36 | `reverse().slice(0, 10)` on a list kept newest first (app/core/state.js:313) | eleven saved points; the one just saved is not listed | the ten most recent points, newest first | high; not executed | HistoryUI.NewestHiddenAsWritten | HistoryUI.NewestShownFirst |
| app/ui/noteUI.js:176 | the edit dialog calls `updateNoteColor`, which app/core/state.js does not export, so the check boxes are never stored: where the missing import is bound to undefined (as a bundler does) the call throws after the name is stored, which the model follows; under native ES-module linking no part of app/ui/noteUI.js loads at all | edit a JPY note, tick "hide bills" and save | the name and the check boxes are stored and the page refreshed | high; not executed | NoteUI.EditSettingsLostAsWritten | NoteUI.EditUpdatesNote |
| app/core/state.js:204-207 | deleting the current note makes `notes[0]` current and then calls `switchNote`, whose `saveCounts` (app/core/state.js:180) writes the deleted note's displays into `notes[0]` | note A current showing 5 × 10000 yen, note B storing 3 × 1000 yen; delete A | B keeps its 3 × 1000 yen and is shown | high; not executed | State.DeleteLosesCountsAsWritten | State.DeleteKeepsCountsIntended |
| app.js:412-414 | start-up reads `appState.hide2000` and so on, but the handlers write `hide2000` and so on (app.js:289, app.js:295, app.js:301) | switch on "hide 2000" and reload | the flag survives the reload | high; not executed | LegacyApp.FlagLostAsWritten | LegacyApp.FlagSurvivesReload |
