# Client-side logic of the monitoring views, modelled and proved

The web views of this repository carry their own logic in scripts: a masked input, a date library with a range picker,
a tracker, callback lists, a polygon test, small charts and a carousel. This project models those algorithms in Dafny
and proves what they promise, for all inputs and for all runs. The document, the clock and the network are arguments or
plain state. Objects whose methods change their fields are classes, and each of their methods is proved equal to a
function of the old state; the theorems are about those functions.

| modules | what they model |
|---|---|
| `MaskSlots`, `InputMask`, `InputEditor` | the masked input: the algebra of slot contents, events and runs, and the buffer that is overwritten cell by cell |
| `Calendar`, `WeekFormula`, `DateMoves`, `DateObject` | dates as day numbers, the week formula, where date operations land, and the date object |
| `ParsingOperators`, `DateFormat` | the parser operators `set`, `sequence` and `cache`; printing by a format and reading back by the rules made of it |
| `CalendarGrid`, `RangePicker` | the month grid, its header, and the text of a date range |
| `SparseStore`, `ExtensibleStore`, `HitLimiter` | the two-level store and its printed form; the token bucket in its chain of filters |
| `Callbacks`, `CallbackList`, `Deferred`, `DeferredObject` | re-entrant callback lists and the objects built on them |
| `Polygon` | even-odd ray casting behind a bounding box |
| `LineRegions`, `ShapeCanvas`, `ChartHighlight` | the region index of line charts; the shape list, and highlighting on it |
| `Carousel` | slide position, page numbers, dragging and autoplay |
| `Numbers`, `Wrappers` | decimal texts and options, shared by the others |

## What is true, and what is not

Several things that documentation or plain reading suggest do not hold of the code. Each has its exact condition:

- Deleting a selection that covers no slot wipes the slots behind it (`InputMask.DeleteSelectionConserves`, `InputMask.LiteralSelectionWipes`).
- A separator behind `dd` such as ` nD` is bitten by the optional ordinal suffix, and the date does not read back (`DateFormat.RoundTrip`, `DateFormat.BittenSeparator`).
- It is not enough for a range separator to occur in neither date (`RangePicker.RangeReadsBack`, `RangePicker.AbsentSeparatorFails`).
- A picker that does not bring its own day names rotates the list all pickers share (`CalendarGrid.SharedHeader`).
- The week number beside a row is that of the row only when weeks start on Monday (`CalendarGrid.WeekColumn`).
- A cached rule fails on texts that are names of inherited properties, and a sequence whose delimiter always applies never succeeds (`ParsingOperators.Cache.Call`, `ParsingOperators.SequenceIsChain`, `ParsingOperators.DelimiterMustFail`).
- Sent both ways, social and feedback hits escape the session limit (`HitLimiter.LimitHoldsUnlessBoth`).
- When a running callback empties its list, the first callbacks added before it returns are never called, as many as the round has come to (`Callbacks.EmptiedThenAdded`, `Callbacks.EmptyLosesFirstAdded`).
- At repeated positions the line chart does not pick the last of the nearest vertices (`LineRegions.LookupIsNearest`, `LineRegions.OverlookedVertex`).
- A bar with the shape id 0 is never highlighted, and the bar of a missing value has its two colours swapped (`ChartHighlight.HighlightIsExact`, `ChartHighlight.MissingValueInverted`).
- Escape brings the text back, but not the cells behind its first hole (`InputMask.EscapeRestores`).
- Scrolling by pages can skip a page in front of a partial last page, forwards and backwards, and a resize at the last slide shows the first one (`Carousel.NextPage`, `Carousel.PrevPage`, `Carousel.Slider.UpdatePosition`).

## Model

| member | source | states |
|---|---|---|
| InputEditor.Editor.constructor | view/src/main/webapp/assets/bootstrap-inputmask/bootstrap-inputmask.js:47-79 | every mask text gives a well-formed buffer: one cell per character except `?`, a slot where a definition exists, the placeholder in every slot, then the first check of the element |
| InputEditor.CellsOfMask | view/src/main/webapp/assets/bootstrap-inputmask/bootstrap-inputmask.js:55-70 | one cell for every character of the mask text but `?`: the defined test as a slot, any other character as a literal |
| InputEditor.Editor.SeekNext | view/src/main/webapp/assets/bootstrap-inputmask/bootstrap-inputmask.js:130-135 | the first slot after a position, or a position beyond the mask when there is none |
| InputEditor.Editor.SeekPrev | view/src/main/webapp/assets/bootstrap-inputmask/bootstrap-inputmask.js:137-141 | the last slot before a position, or -1 |
| InputEditor.Editor.ClearBuffer | view/src/main/webapp/assets/bootstrap-inputmask/bootstrap-inputmask.js:271-278 | blanks exactly the slots of the range, literals untouched, all writes in bounds |
| InputEditor.Editor.MoveLeft | view/src/main/webapp/assets/bootstrap-inputmask/bootstrap-inputmask.js:148-157 | the in-place loop is the left shift of slot contents from the first slot after `end` to the first from `begin` |
| InputEditor.Editor.ShiftL | view/src/main/webapp/assets/bootstrap-inputmask/bootstrap-inputmask.js:143-160 | the whole handler: a negative start changes nothing, otherwise the element shows the shifted row and the caret goes to the later of `begin` and the first slot |
| InputEditor.Editor.ShiftR | view/src/main/webapp/assets/bootstrap-inputmask/bootstrap-inputmask.js:162-176 | the in-place loop is the right shift of slot contents that stops at the first refusal |
| InputEditor.Editor.Check | view/src/main/webapp/assets/bootstrap-inputmask/bootstrap-inputmask.js:284-316 | re-reading the element cell by cell, with the early stop that leaves later cells as they were, the partial position, the two forms of writing back and the position it gives |
| InputEditor.Editor.KeydownEvent | view/src/main/webapp/assets/bootstrap-inputmask/bootstrap-inputmask.js:210-232 | backspace, delete and escape take cells and element to the state of the event semantics, and the selection to where a shift or the check leaves it, if they touch it |
| InputEditor.Editor.KeypressEvent | view/src/main/webapp/assets/bootstrap-inputmask/bootstrap-inputmask.js:234-261 | typing does so too; the caret ends up behind the typed slot, or where the deleted selection began |
| InputEditor.Editor.PasteEvent | view/src/main/webapp/assets/bootstrap-inputmask/bootstrap-inputmask.js:263-269 | a paste is a check that keeps incomplete text and puts the caret where it stopped |
| InputEditor.Editor.BlurEvent | view/src/main/webapp/assets/bootstrap-inputmask/bootstrap-inputmask.js:204-208 | leaving the element is a check that drops incomplete text |
| InputEditor.Editor.FocusEvent | view/src/main/webapp/assets/bootstrap-inputmask/bootstrap-inputmask.js:184-202 | entering it remembers the text for escape, checks, shows the whole row, and selects a complete text or puts the caret where the check stopped |
| InputEditor.TypeAndDelete | view/src/main/webapp/assets/bootstrap-inputmask/bootstrap-inputmask.js:210-261 | the two handlers in a row restore the whole buffer |
| InputMask.RunKeepsCells | view/src/main/webapp/assets/bootstrap-inputmask/bootstrap-inputmask.js:47-79 | after any run of key presses, deletions, edits, pastes, focus and blur, literals keep their mask character and every slot holds the placeholder or a character its own test accepts |
| InputMask.StepKeepsValid | view/src/main/webapp/assets/bootstrap-inputmask/bootstrap-inputmask.js:210-316 | each event keeps that invariant |
| InputMask.TypeThenBackspace | view/src/main/webapp/assets/bootstrap-inputmask/bootstrap-inputmask.js:210-261 | typing an accepted character and pressing backspace restores every cell, for any mix of tests, when the slots from there hold characters up to a first hole and the shift dropped none |
| InputMask.DeleteAtCaret | view/src/main/webapp/assets/bootstrap-inputmask/bootstrap-inputmask.js:214-226 | Delete without a selection takes exactly the character of the next slot out: the others keep their order and multiset, the cells before stay, and behind the last slot nothing happens |
| InputMask.BackspaceAtCaret | view/src/main/webapp/assets/bootstrap-inputmask/bootstrap-inputmask.js:214-226 | Backspace without a selection does the same to the slot before, and nothing in front of the first slot |
| InputMask.TypeAtCaret | view/src/main/webapp/assets/bootstrap-inputmask/bootstrap-inputmask.js:248-260 | a typed character stands in its slot, those behind it move up to where one is refused and dropped; a refused character changes nothing |
| InputMask.TypeOverSelection | view/src/main/webapp/assets/bootstrap-inputmask/bootstrap-inputmask.js:240-246 | typing over a selection is deleting it and typing at its start; with a modifier nothing happens |
| InputMask.EscapeRestores | view/src/main/webapp/assets/bootstrap-inputmask/bootstrap-inputmask.js:227-231 | escape brings back the text the element had, and the cells up to the first hole; the cells are the old ones if and only if those behind the hole are blank |
| InputMask.DeleteSelectionConserves | view/src/main/webapp/assets/bootstrap-inputmask/bootstrap-inputmask.js:214-226 | deleting a selection keeps every other typed character in order if and only if the selection covers a slot or the slots the shift runs over were blank |
| InputMask.LiteralSelectionWipes | view/src/main/webapp/assets/bootstrap-inputmask/bootstrap-inputmask.js:148-157 | with only a literal selected, the character typed behind it is wiped |
| InputMask.CheckUndoesWrite | view/src/main/webapp/assets/bootstrap-inputmask/bootstrap-inputmask.js:280-316 | without `?`, reading back a fully filled buffer changes nothing and returns the mask length |
| InputMask.PasteUndoesWrite | view/src/main/webapp/assets/bootstrap-inputmask/bootstrap-inputmask.js:280-316 | pasting back a prefix-filled buffer changes nothing and stops at the first hole, when no slot accepts the placeholder or a literal |
| InputMask.CheckOfShown | view/src/main/webapp/assets/bootstrap-inputmask/bootstrap-inputmask.js:284-316 | with `?` or without, a text that shows a prefix-filled row is dropped with the whole row if it does not reach the `?` and was not pasted, and read in and shown as far as it goes otherwise |
| InputMask.LiteralAtMark | view/src/main/webapp/assets/bootstrap-inputmask/bootstrap-inputmask.js:303 | a literal at the `?` is passed without being looked for |
| InputMask.ReadShown | view/src/main/webapp/assets/bootstrap-inputmask/bootstrap-inputmask.js:284-307 | re-reading what a prefix-filled buffer shows stays in step with it up to the first hole, whatever the cells held; those behind the hole stay as they were |
| MaskSlots.EraseRotates | view/src/main/webapp/assets/bootstrap-inputmask/bootstrap-inputmask.js:143-160 | clearing a range with a slot and shifting left rotates the blanks past the contents that moved |
| MaskSlots.EraseConserves | view/src/main/webapp/assets/bootstrap-inputmask/bootstrap-inputmask.js:143-160 | it permutes the slot contents and keeps the order of all characters outside the range |
| MaskSlots.EraseEmptyRange | view/src/main/webapp/assets/bootstrap-inputmask/bootstrap-inputmask.js:148-157 | with no slot in the range the shift moves cells onto themselves: nothing is lost if and only if the cells it wipes were blank |
| MaskSlots.ShiftRightLosesOne | view/src/main/webapp/assets/bootstrap-inputmask/bootstrap-inputmask.js:162-176 | the right shift loses at most the value it displaced last and changes nothing before its start or after its stopping slot |
| MaskSlots.TypeThenErase | view/src/main/webapp/assets/bootstrap-inputmask/bootstrap-inputmask.js:143-176 | insert then erase is the identity on slot contents when the shift dropped a hole |
| MaskSlots.DroppedIsLost | view/src/main/webapp/assets/bootstrap-inputmask/bootstrap-inputmask.js:162-176 | when the shift drops a character, deleting again leaves exactly one character fewer |
| Calendar.DateUnique | view/src/main/webapp/assets/bootstrap-daterangepicker/date.js:13 | day numbers and Gregorian dates with the month lengths of the source correspond one to one |
| Calendar.IsoWeekShift | view/src/main/webapp/assets/bootstrap-daterangepicker/date.js:26 | moving k weeks changes the ISO week by k if and only if that week exists in the same ISO year |
| WeekFormula.WeekNumberIsIsoWeek | view/src/main/webapp/assets/bootstrap-daterangepicker/date.js:24-26 | for every date from the year 2 on the closed formula is the ISO week number (section 2.2.10 of ISO 8601:2004) |
| WeekFormula.WeekNumberInDays | view/src/main/webapp/assets/bootstrap-daterangepicker/date.js:24-25 | the fractional month term cancels: the formula depends only on the day of the year of the week's Thursday |
| DateMoves.AddMonths | view/src/main/webapp/assets/bootstrap-daterangepicker/date.js:15 | months are added with carry into the year and the day is cut to the length of the month reached |
| DateMoves.AddMonthsThereAndBack | view/src/main/webapp/assets/bootstrap-daterangepicker/date.js:15 | adding and subtracting months is the identity if and only if no day was cut |
| DateMoves.SetIsExact | view/src/main/webapp/assets/bootstrap-daterangepicker/date.js:27-37 | setting month, year and day succeeds if and only if that date exists in the years 0 to 9999, and gives exactly that date from any start |
| DateMoves.MoveToWeekdayLands | view/src/main/webapp/assets/bootstrap-daterangepicker/date.js:40 | lands on the asked weekday, one to seven days later, or earlier when going back |
| DateMoves.NthOccurrenceLands | view/src/main/webapp/assets/bootstrap-daterangepicker/date.js:37-40 | lands on exactly the k-th such weekday counted from the first of the month, inside the month if and only if it has that many |
| DateMoves.OtherOccurrence | view/src/main/webapp/assets/bootstrap-daterangepicker/date.js:37-40 | any count that is neither positive nor -1 is taken for 1 |
| DateMoves.LastOccurrenceLands | view/src/main/webapp/assets/bootstrap-daterangepicker/date.js:37-40 | with -1 it lands on the last such weekday of the month |
| DateMoves.SetWeekLands | view/src/main/webapp/assets/bootstrap-daterangepicker/date.js:26 | lands on a Monday, and in week n if and only if that ISO year has a week n; always for n from 1 to 52 |
| DateObject.JsDate.AddDays | view/src/main/webapp/assets/bootstrap-daterangepicker/date.js:15 | moves the object by n days |
| DateObject.JsDate.AddMonths | view/src/main/webapp/assets/bootstrap-daterangepicker/date.js:15 | the in-place sequence set day 1, set month, cut the day is the clamped month step |
| DateObject.JsDate.Set | view/src/main/webapp/assets/bootstrap-daterangepicker/date.js:27-37 | checks and applies the fields one after the other; a failing one leaves the earlier ones applied |
| DateObject.JsDate.MoveToWeekday | view/src/main/webapp/assets/bootstrap-daterangepicker/date.js:40 | the object moves to the day the weekday lemma speaks about |
| DateObject.JsDate.MoveToNthOccurrence | view/src/main/webapp/assets/bootstrap-daterangepicker/date.js:37-40 | the object moves to the day the occurrence lemmas speak about |
| DateObject.JsDate.GetWeek | view/src/main/webapp/assets/bootstrap-daterangepicker/date.js:24-26 | applies the formula to each shared variable where it is set and to the object otherwise, which is the ISO week from the year 2 on, and unsets them |
| DateObject.JsDate.GetIsoWeek | view/src/main/webapp/assets/bootstrap-daterangepicker/date.js:26 | returns the ISO week of the UTC day in two digits, whatever local day the object shows |
| DateObject.JsDate.SetWeek | view/src/main/webapp/assets/bootstrap-daterangepicker/date.js:26 | the object moves to the day the week lemma speaks about |
| CalendarGrid.BuildCalendar | view/src/main/webapp/assets/bootstrap-daterangepicker/daterangepicker.js:446-482 | exactly for the months whose own and previous year are settable: 42 consecutive days that start on the first weekday, one to seven days before the month |
| CalendarGrid.GridCoversMonth | view/src/main/webapp/assets/bootstrap-daterangepicker/daterangepicker.js:446-482 | column c has weekday (firstDay + c) mod 7, every day of the month has its cell, and cell [1][1] lies in the month |
| CalendarGrid.CellsDistinct | view/src/main/webapp/assets/bootstrap-daterangepicker/daterangepicker.js:472-478 | no day is in two cells |
| CalendarGrid.WeekColumn | view/src/main/webapp/assets/bootstrap-daterangepicker/daterangepicker.js:530-531 | the week number of a row's first cell is that of the whole row if and only if weeks start on Monday |
| CalendarGrid.NameList.Rotate | view/src/main/webapp/assets/bootstrap-daterangepicker/daterangepicker.js:173-183 | the name list is rotated by the first day |
| CalendarGrid.SharedHeader | view/src/main/webapp/assets/bootstrap-daterangepicker/daterangepicker.js:173-183 | two pickers that share one name list: the second header is right if and only if the first picker rotated by whole weeks |
| ParsingOperators.Set | view/src/main/webapp/assets/bootstrap-daterangepicker/date.js:91-98 | the result is an arrangement of distinct rules or nothing; when every rule consumes text no arrangement leaves less, and none that leaves as much comes before it in the order of trying, in spite of the early exits |
| ParsingOperators.SetClosed | view/src/main/webapp/assets/bootstrap-daterangepicker/date.js:91-101 | the closing rule applies to what that first best arrangement leaves, its value is the accepted one, and it is rejected only there; an empty value means that no arrangement exists |
| ParsingOperators.Sequence | view/src/main/webapp/assets/bootstrap-daterangepicker/date.js:84-91 | the loop yields what the sequence semantics says, then the closing rule applies |
| ParsingOperators.SequenceIsChain | view/src/main/webapp/assets/bootstrap-daterangepicker/date.js:84-91 | a sequence yields exactly what the unique number of its first rules yields that is followed by no delimiter |
| ParsingOperators.DelimiterMustFail | view/src/main/webapp/assets/bootstrap-daterangepicker/date.js:84-91 | with a delimiter that always applies, the default one among them, no sequence of several rules succeeds |
| ParsingOperators.Cache.Call | view/src/main/webapp/assets/bootstrap-daterangepicker/date.js:77-78 | over any calls the cache answers like its rule, exceptions included, if and only if the text is no name of an inherited property |
| DateFormat.RoundTrip | view/src/main/webapp/assets/bootstrap-daterangepicker/date.js:47-49 | for years 100 to 9999 and every format of `dd`, `MM`, `yyyy` and plain separators, a printed date reads back as itself if and only if no separator behind `dd` starts like an ordinal suffix, and as no date otherwise |
| DateFormat.DigitsRead | view/src/main/webapp/assets/bootstrap-daterangepicker/date.js:105-116 | any day, month, year and ordinal suffix written in a plain format read as the date they mean if the calendar has it, and as none otherwise, with day 0, month 0 and the years below 100 as the source takes them |
| DateFormat.ReadsExactlyDates | view/src/main/webapp/assets/bootstrap-daterangepicker/date.js:114-116 | in the years 100 to 9999: a date if and only if it exists |
| DateFormat.TrailingFails | view/src/main/webapp/assets/bootstrap-daterangepicker/date.js:143-145 | text behind the last field is never passed over |
| DateFormat.OrdinalSuffixes | view/src/main/webapp/assets/bootstrap-daterangepicker/date.js:48 | the suffix goes by the last digit, but for the teens |
| DateFormat.ShortNames | view/src/main/webapp/assets/bootstrap-daterangepicker/date.js:9 | short names of days and months are the first three letters of the long ones |
| DateFormat.EpochNames | view/src/main/webapp/assets/bootstrap-daterangepicker/date.js:47-49 | the first week of 1970 prints with its names, from Thursday on |
| DateFormat.BittenSeparator | view/src/main/webapp/assets/bootstrap-daterangepicker/date.js:137-140 | no date of the format `MM/dd nDyyyy` reads back |
| DateFormat.PrintIsRulesText | view/src/main/webapp/assets/bootstrap-daterangepicker/date.js:47-49 | the printer's pattern and the parser's cut the same plain format into the same fields and separators |
| DateFormat.ShorterFails | view/src/main/webapp/assets/bootstrap-daterangepicker/date.js:139-145 | nothing shorter than a printed date is read as a date |
| DateFormat.RunParseExact | view/src/main/webapp/assets/bootstrap-daterangepicker/date.js:139-145 | the two loops that build the rules and apply them compute the parser the round trip speaks about |
| DateFormat.RunRules | view/src/main/webapp/assets/bootstrap-daterangepicker/date.js:81-84 | the rules apply in turn to the text left; the result counts only when nothing is left |
| RangePicker.Picker.constructor | view/src/main/webapp/assets/bootstrap-daterangepicker/daterangepicker.js:41-50 | a new picker holds its format, separator and dates, and its calendars stand at the first days of their months |
| RangePicker.Picker.UpdateView | view/src/main/webapp/assets/bootstrap-daterangepicker/daterangepicker.js:254-259 | both calendars show the months of the dates |
| RangePicker.Picker.Notify | view/src/main/webapp/assets/bootstrap-daterangepicker/daterangepicker.js:286-293 | writes both dates with the separator between them and moves the calendars |
| RangePicker.Picker.UpdateFromControl | view/src/main/webapp/assets/bootstrap-daterangepicker/daterangepicker.js:268-284 | takes over the range a text stands for and nothing else, and leaves the picker alone otherwise |
| RangePicker.RangeReadsBack | view/src/main/webapp/assets/bootstrap-daterangepicker/daterangepicker.js:268-293 | what one picker writes another reads as the same range if and only if the separator is found first, and only, where it was put, and the dates are in order; as no range otherwise |
| RangePicker.RangeRead | view/src/main/webapp/assets/bootstrap-daterangepicker/daterangepicker.js:271-279 | a range written with any numbers is read if and only if the separator stands out, both are dates of the calendar, and they are in order |
| RangePicker.NoSuchDay | view/src/main/webapp/assets/bootstrap-daterangepicker/daterangepicker.js:275-276 | a range that starts on 31 February is no range |
| RangePicker.ForeignSeparator | view/src/main/webapp/assets/bootstrap-daterangepicker/daterangepicker.js:268-293 | a separator whose first character is in neither date is enough for that |
| RangePicker.OverlappingSeparator | view/src/main/webapp/assets/bootstrap-daterangepicker/daterangepicker.js:271 | a doubled character behind a text that ends with it is found one place too early |
| RangePicker.AbsentSeparatorFails | view/src/main/webapp/assets/bootstrap-daterangepicker/daterangepicker.js:268-293 | so it is not enough that the separator occurs in neither date: `--` occurs in no date of the format `yyyy/MM/dd-`, and no range written with it reads back |
| SparseStore.DoEffect | view/src/main/webapp/js/ga.js:21 | a set changes exactly one entry and a clear exactly one list, and no project survives without lists |
| SparseStore.EntriesAreGets | view/src/main/webapp/js/ga.js:21-23 | the printed entries are exactly what can be looked up |
| SparseStore.MarkedWhenNeeded | view/src/main/webapp/js/ga.js:21-22 | an index is marked if and only if a reader would expect another one |
| SparseStore.TextDeterminesStore | view/src/main/webapp/js/ga.js:21-22 | after any run a decoder written against the format recovers every project, index and string from the text |
| SparseStore.SameTextSameStore | view/src/main/webapp/js/ga.js:21-22 | two runs that print the same text agree on every lookup |
| SparseStore.MergedText | view/src/main/webapp/js/ga.js:22 | a text printed over another store decodes to that store's entries and then the projects it lacks |
| ExtensibleStore.Extensible.SetKey | view/src/main/webapp/js/ga.js:21-23 | stores a string key in place and refuses everything else |
| ExtensibleStore.Extensible.SetValue | view/src/main/webapp/js/ga.js:21-23 | stores a whole number in place and refuses everything else |
| ExtensibleStore.Extensible.Lookup | view/src/main/webapp/js/ga.js:21 | reads one entry |
| ExtensibleStore.Extensible.ClearLists | view/src/main/webapp/js/ga.js:21 | clears one list, and the project with its last list |
| ExtensibleStore.Extensible.Render | view/src/main/webapp/js/ga.js:21-22 | the nested loops print the text the decoder reads |
| ExtensibleStore.Extensible.RenderOver | view/src/main/webapp/js/ga.js:22 | prints another store and the projects it lacks |
| HitLimiter.TrackOutcome | view/src/main/webapp/js/ga.js:15 | whatever filter aborts, a call leaves the session as it was, renewed, refilled, or with the hit sent and charged |
| HitLimiter.EventsBounded | view/src/main/webapp/js/ga.js:45 | for every sequence of calls with a clock that never goes back, the session's event hits number at most 10 plus the whole seconds since its start |
| HitLimiter.BurstAfterRun | view/src/main/webapp/js/ga.js:45 | after any run, of a burst of n events exactly the smallest of n, 10, the tokens left plus the whole seconds since the last refill, and what is left of 500 hits get through |
| HitLimiter.SpacedEventsPass | view/src/main/webapp/js/ga.js:45 | events at least a second apart all pass, up to the 500th hit |
| HitLimiter.RefillPasses | view/src/main/webapp/js/ga.js:45 | five whole seconds after a burst has emptied the bucket five more events pass |
| HitLimiter.HitGoesOut | view/src/main/webapp/js/ga.js:45-51 | hits of the other kinds go out, and count, in each mode; all but transactions up to 500 |
| HitLimiter.RenewedIsNew | view/src/main/webapp/js/ga.js:24 | a renewed session goes on like a new tracker's |
| HitLimiter.BurstPasses | view/src/main/webapp/js/ga.js:45 | of a burst exactly the first ten events get through |
| HitLimiter.SessionBounded | view/src/main/webapp/js/ga.js:45-51 | non-transaction hits that the counter sees never exceed 500 per session |
| HitLimiter.LimitHoldsUnlessBoth | view/src/main/webapp/js/ga.js:45-51 | all non-transaction hits stay within 500 for every sequence of calls if and only if hits are not sent both ways |
| HitLimiter.SocialUncounted | view/src/main/webapp/js/ga.js:45-51 | sent both ways, any number of social hits passes uncounted |
| HitLimiter.RunSound | view/src/main/webapp/js/ga.js:24 | the bucket invariant holds after every sequence of calls, renewals included |
| HitLimiter.TrackKeepsSound | view/src/main/webapp/js/ga.js:45-51 | one call keeps it, whichever filter aborts |
| HitLimiter.Tracker.Run | view/src/main/webapp/js/ga.js:15 | the loop over the filters stops at the first that aborts |
| Callbacks.EachCallbackRunsOnce | view/src/main/webapp/js/jquery.js:4 | on a once-memory list, over any interleaving of outside adds, adds by running callbacks and repeated fires, each callback runs exactly once, in order, with the first fire's argument |
| Callbacks.EachFireCallsAll | view/src/main/webapp/js/jquery.js:4 | on a list that is not once-only, over any run of fires, nested ones included, each fire calls all callbacks: round by round in the order of the fires, with its own argument |
| Callbacks.QueueAdd | view/src/main/webapp/js/jquery.js:4 | adding during a round puts the new callbacks behind the pending ones; adding at rest calls them alone with the remembered argument, if there is one |
| Callbacks.OnceFiresOnce | view/src/main/webapp/js/jquery.js:4 | a once-only list without a memory makes the calls of its first fire and is then disabled |
| Callbacks.FalseEndsRound | view/src/main/webapp/js/jquery.js:4 | where the list says so, a false result ends the round and the memory of it, but not the waiting rounds |
| Callbacks.PushedUnique | view/src/main/webapp/js/jquery.js:4 | a unique list takes every callback once |
| Callbacks.LockedIsDeaf | view/src/main/webapp/js/jquery.js:4 | a locked list hears no more fires, and is disabled when it remembers nothing |
| Callbacks.OnceMemoryStep | view/src/main/webapp/js/jquery.js:4 | what one event, removals and emptying included, does to the calls made, the calls due and the places still to be passed over |
| Callbacks.RemovePending | view/src/main/webapp/js/jquery.js:4 | removing during a fire takes the callback out of the pending ones and neither skips nor repeats another |
| Callbacks.RunIsValid | view/src/main/webapp/js/jquery.js:4 | every run of every kind of list, with emptying too, reaches only states in which that holds |
| Callbacks.ReturnCallsNext | view/src/main/webapp/js/jquery.js:4 | when a callback returns, the first pending one is called |
| Callbacks.EmptiedThenAdded | view/src/main/webapp/js/jquery.js:4 | a callback that empties the list and adds others: the round comes to all but the first index + 1 of them, so to all if and only if there are none or the index is -1 |
| Callbacks.EmptyLosesFirstAdded | view/src/main/webapp/js/jquery.js:4 | over any run in which a running callback empties the list, exactly the first index + 1 callbacks added before it returns are never called; all later ones are, once and in order |
| Callbacks.AddedAfterEmptying | view/src/main/webapp/js/jquery.js:4 | until that callback returns the places already passed swallow what is added, through any adds and fires |
| Callbacks.RunIsEmptiable | view/src/main/webapp/js/jquery.js:4 | every run, with removals and emptyings anywhere, stays in the states the step lemma speaks about |
| Callbacks.EmptyLosesCallback | view/src/main/webapp/js/jquery.js:4 | the smallest such run |
| CallbackList.List.AddAll | view/src/main/webapp/js/jquery.js:4 | the object's add, in the middle of a round or not |
| CallbackList.List.RemoveAll | view/src/main/webapp/js/jquery.js:4 | the object's remove follows the removal semantics |
| CallbackList.List.RemoveAllOf | view/src/main/webapp/js/jquery.js:4 | one argument of it: every occurrence goes |
| CallbackList.SpliceAll | view/src/main/webapp/js/jquery.js:4 | splicing occurrence by occurrence removes all of them and moves length and index back by those already passed |
| CallbackList.List.FireWith | view/src/main/webapp/js/jquery.js:4 | the object's fire: ignored, put on the stack, or a new round |
| CallbackList.List.ReturnFrom | view/src/main/webapp/js/jquery.js:4 | the firing loop going on after a callback, to the end of the round and the next one on the stack |
| CallbackList.List.Lock | view/src/main/webapp/js/jquery.js:4 | locks the list, or disables it when it remembers nothing |
| CallbackList.List.Disable | view/src/main/webapp/js/jquery.js:4 | disables the list |
| CallbackList.List.Empty | view/src/main/webapp/js/jquery.js:4 | empties the list and the running round's length, not its index |
| Deferred.SettlesOnce | view/src/main/webapp/js/jquery.js:4 | over any run, with callbacks free to do anything, at most one outcome; its handlers run once each in order, those of the other never, and no notification starts afterwards |
| Deferred.OutcomeIsFirst | view/src/main/webapp/js/jquery.js:4 | the outcome is that of the first resolve or reject, and every handler called gets its arguments |
| Deferred.SettledStep | view/src/main/webapp/js/jquery.js:4 | resolving or rejecting settles a pending object and leaves a settled one as it is |
| Deferred.StatusFinal | view/src/main/webapp/js/jquery.js:4 | a settled status never changes |
| DeferredObject.Promise.constructor | view/src/main/webapp/js/jquery.js:4 | a new object: two once-memory lists that begin with the three callbacks of its own, one memory list |
| DeferredObject.Promise.Settle | view/src/main/webapp/js/jquery.js:4 | firing a list in place runs the object's own callbacks first and ends in the state the run theorem speaks about |
| DeferredObject.Promise.Continue | view/src/main/webapp/js/jquery.js:4 | the running callback does its work and the loop goes on |
| DeferredObject.Promise.AddHandlers | view/src/main/webapp/js/jquery.js:4 | handlers are added to one list |
| DeferredObject.Promise.Notify | view/src/main/webapp/js/jquery.js:4 | notifying fires the list of progress callbacks, which does nothing once the object has settled and the list is locked |
| Polygon.GetBounds | view/src/main/webapp/js/gmaps.js:1653-1666 | the bounds hold every vertex of every path and touch one on each side |
| Polygon.ContainsLatLng | view/src/main/webapp/js/gmaps.js:1671-1703 | the answer is the parity of the crossings of all closed paths, in spite of the bounding-box early exit |
| Polygon.CrossesIsTurn | view/src/main/webapp/js/gmaps.js:1692-1693 | without the division: an edge counts if and only if it passes the point's meridian and the point lies north of it |
| Polygon.TriangleContains | view/src/main/webapp/js/gmaps.js:1671-1703 | for every proper triangle and every point off its edges the answer is true if and only if the point lies on the same side of all three edges |
| Polygon.PolygonContains | view/src/main/webapp/js/gmaps.js:1671-1703 | for every polygon and every point off its fan the answer is true if and only if the point lies in an odd number of the fan's triangles |
| Polygon.OutsideIsEven | view/src/main/webapp/js/gmaps.js:1675-1677 | a point outside the bounds has even parity for any set of closed paths |
| Polygon.PathOutside | view/src/main/webapp/js/gmaps.js:1675-1700 | a closed path meets the ray of a point outside its range an even number of times |
| Polygon.ChordSplits | view/src/main/webapp/js/gmaps.js:1683-1700 | cutting a polygon along a chord: its parity is the exclusive or of the two parts |
| Polygon.RotationInvariant | view/src/main/webapp/js/gmaps.js:1686-1699 | the vertex a path starts with does not matter |
| LineRegions.FillRegionMap | view/src/main/webapp/js/jquery.sparkline.js:1584-1594 | the regions tile the axis from 0 with no gap, halfway between vertices |
| LineRegions.GetRegion | view/src/main/webapp/js/jquery.sparkline.js:1371-1380 | the scan from the end finds the last region that holds the point |
| LineRegions.LookupIsNearest | view/src/main/webapp/js/jquery.sparkline.js:1371-1380 | for ordered values and every point up to the last border the look-up gives a nearest vertex, and the one of largest index if and only if the point does not lie in the region of a vertex, before it, with the next vertex at the same place |
| LineRegions.OverlookedVertex | view/src/main/webapp/js/jquery.sparkline.js:1371-1380 | two vertices at 10 show the other case |
| LineRegions.PositionsSorted | view/src/main/webapp/js/jquery.sparkline.js:1586-1590 | ordered values have ordered canvas positions |
| LineRegions.PositionIsNearest | view/src/main/webapp/js/jquery.sparkline.js:1590 | a position is the whole number nearest to the scaled value, and the smallest value stands at the left edge |
| LineRegions.PositionOfLargest | view/src/main/webapp/js/jquery.sparkline.js:1590 | at full scale the largest value stands at the right edge |
| LineRegions.BordersAreHalfway | view/src/main/webapp/js/jquery.sparkline.js:1591-1592 | the last border lies halfway between the last vertex and the right edge |
| ShapeCanvas.VCanvas.ReplaceWithShape | view/src/main/webapp/js/jquery.sparkline.js:2805-2815 | the loop from the end renames an id wherever it stands and replaces its shape |
| ShapeCanvas.VCanvas.ReplaceWithShapes | view/src/main/webapp/js/jquery.sparkline.js:2817-2838 | the two splicing loops take out the old ids and put in the new ones at the place of the foremost |
| ShapeCanvas.TakeOut | view/src/main/webapp/js/jquery.sparkline.js:2825-2832 | the first loop removes every old id and remembers the foremost place |
| ShapeCanvas.PutIn | view/src/main/webapp/js/jquery.sparkline.js:2833-2836 | the second loop inserts the new ids at one place in their order |
| ShapeCanvas.RenamedBlock | view/src/main/webapp/js/jquery.sparkline.js:2805-2815 | replacing one id leaves the rest of the paint order alone |
| ShapeCanvas.ReplacedBlock | view/src/main/webapp/js/jquery.sparkline.js:2817-2838 | replacing a block of ids puts the new block exactly where it was |
| ChartHighlight.RenderedInv | view/src/main/webapp/js/jquery.sparkline.js:1325-1350 | a chart that has just been drawn has a consistent canvas, inverse maps and nothing highlighted |
| ChartHighlight.StepKeepsInv | view/src/main/webapp/js/jquery.sparkline.js:1161-1192 | one highlight or clear event keeps all of it |
| ChartHighlight.StepSetsRegion | view/src/main/webapp/js/jquery.sparkline.js:1161-1192 | a move sets the region under the mouse, even with highlighting off, and a clear leaves none |
| ChartHighlight.RunKeepsCharts | view/src/main/webapp/js/jquery.sparkline.js:1300-1323 | over any run on a bar, pie or bullet chart: no duplicate ids, the id list names exactly the shapes, the maps stay inverse, the regions keep their paint order, and only the current region is drawn as highlighted, save for a bar with the id 0 |
| ChartHighlight.HighlightIsExact | view/src/main/webapp/js/jquery.sparkline.js:1914-1918 | a shape shows the highlight colour exactly while its region is current if and only if it is neither the bar of a missing value nor the current bar with the id 0, or both |
| ChartHighlight.RegionsAreFixed | view/src/main/webapp/js/jquery.sparkline.js:2798-2862 | the regions in paint order depend on the values alone |
| ChartHighlight.FirstBarStaysDark | view/src/main/webapp/js/jquery.sparkline.js:1304-1306 | the first bar of a page, whose id is 0, is never highlighted |
| ChartHighlight.MissingValueInverted | view/src/main/webapp/js/jquery.sparkline.js:1914-1918 | the bar of a missing value shows the highlight colour until it is pointed at |
| ChartHighlight.RegionChart.Render | view/src/main/webapp/js/jquery.sparkline.js:1325-1350 | draws all regions from the last to the first |
| ChartHighlight.RegionChart.RenderRegion | view/src/main/webapp/js/jquery.sparkline.js:1333-1348 | appends the shapes of one region from the last to the first and records their ids |
| ChartHighlight.RegionChart.ChangeHighlight | view/src/main/webapp/js/jquery.sparkline.js:1301-1323 | redraws the current region in place of its old shapes and updates both maps |
| ChartHighlight.RegionChart.SetRegionHighlight | view/src/main/webapp/js/jquery.sparkline.js:1161-1180 | a mouse move is the event step, and reports whether the region changed |
| ChartHighlight.RegionChart.ClearRegionHighlight | view/src/main/webapp/js/jquery.sparkline.js:1185-1192 | clearing is the event step, and reports whether there was a region |
| Carousel.Slider.constructor | view/src/main/webapp/js/owl.carousel.js:60-120 | a started carousel shows the first slide, its sizes, positions, page numbers and buttons agree |
| Carousel.Slider.Next | view/src/main/webapp/js/owl.carousel.js:501-514 | one stride on, cut at the last slide; from there to the first slide or nowhere; the active button follows |
| Carousel.Slider.Prev | view/src/main/webapp/js/owl.carousel.js:516-533 | one stride back, cut at the first slide; from there to the last slide or nowhere; the active button follows |
| Carousel.Slider.GoTo | view/src/main/webapp/js/owl.carousel.js:535-547 | lands on the position asked for, cut to the range, with its page's button active |
| Carousel.Slider.Click | view/src/main/webapp/js/owl.carousel.js:401-406 | clicking a page button reaches a slide that carries its number and makes it the active one |
| Carousel.Slider.UpdatePosition | view/src/main/webapp/js/owl.carousel.js:252-273 | after new sizes a slide is kept if and only if it stands before the last position and has a width; otherwise the first is shown |
| Carousel.Slider.UpdateVars | view/src/main/webapp/js/owl.carousel.js:134-142 | a resize recomputes everything and keeps the invariant |
| Carousel.Slider.Tick | view/src/main/webapp/js/owl.carousel.js:610-634 | a step of autoplay |
| Carousel.Slider.ImproveClosest | view/src/main/webapp/js/owl.carousel.js:927-956 | the scan of the positions gives the slide lying across the place ahead, its far or near side by direction, and turns autoplay around if it asked for the direction |
| Carousel.Slider.DragEnd | view/src/main/webapp/js/owl.carousel.js:876-888 | a drag ends on that slide, cut to the range, with its page's button active |
| Carousel.AppendItemsSizes | view/src/main/webapp/js/owl.carousel.js:275-293 | the loop's page counter is, on every slide, the closed page number |
| Carousel.PageButtons | view/src/main/webapp/js/owl.carousel.js:411-442 | the loop's buttons are one for each page, numbered from 1, the last one moved back to a full page |
| Carousel.Loops | view/src/main/webapp/js/owl.carousel.js:334-344 | the running sum is minus the slide index times the width |
| Carousel.Slider.CheckPagination | view/src/main/webapp/js/owl.carousel.js:445-456 | the active button is the one numbered like the current slide's page |
| Carousel.ButtonReachesPage | view/src/main/webapp/js/owl.carousel.js:421-442 | each button leads to a slide in range whose own page number is the button's |
| Carousel.OneButtonMatches | view/src/main/webapp/js/owl.carousel.js:445-456 | each slide's page number is that of exactly one button, which leads to no later slide |
| Carousel.RunKeepsPage | view/src/main/webapp/js/owl.carousel.js:501-549 | after every run of arrows, jumps, clicks, drags, resizes and autoplay the slide is in range, exactly one button bears its page number, and clicking that one stays on the page |
| Carousel.NextThenPrev | view/src/main/webapp/js/owl.carousel.js:501-533 | back undoes forward if and only if forward was not cut, or it wrapped around |
| Carousel.NextPage | view/src/main/webapp/js/owl.carousel.js:501-514 | scrolling by pages from any slide goes one page on, or two exactly when the step is cut at a last position that starts no whole page and lies beyond the slide's own page |
| Carousel.PrevPage | view/src/main/webapp/js/owl.carousel.js:516-533 | scrolling back from any slide goes one page back, none within the first page, or two exactly from the end when the last page is not a whole one and there are more than two |
| Carousel.DragLandsNear | view/src/main/webapp/js/owl.carousel.js:911-956 | a drag comes to rest within 21 twentieths of a slide of where it ended, unless cut at the last slide |
| Carousel.AutoplayIsWave | view/src/main/webapp/js/owl.carousel.js:610-634 | by single slides, without a jump to the first, autoplay is a triangle wave over the slides |
| Carousel.AutoplayGoesRound | view/src/main/webapp/js/owl.carousel.js:617-634 | asked to go to the first slide, autoplay goes round |
| Carousel.ResizeKeeps | view/src/main/webapp/js/owl.carousel.js:252-273 | a slide survives a resize if and only if it is the first, or stands before the new last position and the frame has half a pixel for each visible slide |
| Carousel.ItemWidthIsNearest | view/src/main/webapp/js/owl.carousel.js:316-319 | a slide is the nearest whole number of pixels |

## Left out

- DateFormat.TrailingFails: speaks of formats that end with a field; behind a separator further text may be part of an ordinal suffix search.
- The document, styles, animation, timers, event binding, drawing and the network; a clock or a mouse position is an argument.
- Masked input: regular expressions (a slot test is any predicate), caret calls, the iPhone key, the change event; a placeholder is one character. The read-back lemmas are for masks whose `?`, if any, stands before a slot; the run invariant is for all.
- InputMask.TypeThenBackspace: states the restoration for contents that are filled up to a first hole; with holes in between the outcome depends on every later test.
- Dates: time of day, time zones, daylight saving, and the years 0 to 99 that a script date maps to the twentieth century (except where the exact parser meets them).
- WeekFormula.WeekNumberIsIsoWeek: from the year 2 on, because the source truncates towards zero; and over exact reals, without floating-point rounding.
- Natural-language dates and the operators `until`, `between`, `list`, `all`, `many`, `not` and `min`; `set` with a week, and the `moveToMonth` family.
- DateFormat.RoundTrip: formats whose separators hold pattern characters of regular expressions, or other fields, are printed but not read back.
- ParsingOperators.Set: that no arrangement leaves less needs rules that consume text; that the result is an arrangement needs nothing.
- Range picker: dates outside the years 0 to 9999, on which `set` throws; predefined ranges, minimum and maximum dates, hovering and clicking on days.
- Tracker: cookies, campaigns, the shared visitor object of several trackers, listeners that track again while a hit is on its way; the text of a stored number is given with it.
- HitLimiter.SessionBounded: counts hits that are neither social nor feedback when hits go both ways; the general bound fails there.
- Callbacks: exceptions thrown by callbacks, nested argument lists and `has`; the firing loop is cut into steps at its calls.
- DeferredObject.Promise.Settle: user callbacks act through later calls of the same methods; `then`, `always` and promises handed on to others are not modelled.
- Polygons: latitude and longitude are planar reals, without the wrap at the antimeridian.
- Polygon.TriangleContains: says nothing of points on an edge, where the answer depends on the edge's direction.
- Charts: shapes that belong to no region (the border of a pie, other charts on a shared canvas), the highlight spot of line charts, box charts, tooltips, and the older copy of the script.
- Carousel: touch events and how they clamp the dragged position, hiding of controls, lazy loading, and a number of visible slides above the number of slides when responsive layout is off.
- Carousel.DragLandsNear: speaks of drags that end strictly between two borders; exactly on a border the slide stays as it was, which `Carousel.Slider.ImproveClosest` states.
- Constants and interfaces of the storage modules, which have no behaviour here.
