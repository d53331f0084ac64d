# The benchmark.js page controller, in Dafny

This project models the browser-side controller of benchmark.js, `ui.js`. It covers:

- the run queue: `runTest`, `runAll`, `stop`, `nextTest` and the engine's `onStop` callback;
- the end-of-run ranking: gather, sort, and label each test "fastest" or "N% slower";
- the priority rule that chooses what a results cell shows;
- the helpers around them: `formatNumber`, `parseHash`, the deduplicated error log of
  `logError` and `getTestById`.

The state of the `ui` object is the class `Controller.Ui`. Its fields are the registered tests,
the queue, the test being timed (`currentTest`), the error log (`cache.errors`), the parsed
parameters, the results cells, the run button and the status line. Each mutating routine of
`ui.js` is a method with a `modifies` frame. Its loops carry invariants tying the state to
specification functions, and lemmas prove properties of those functions. The pure parts
(ranking, formatting, the display choice, hash parsing) are functions and lemmas.

Modules:

- `Text`: `Option`, `NoDuplicates`, and `String#split` / `Array#join` with a one-character
  separator.
- `Format`: `formatNumber`.
- `Hash`: what `parseHash` stores.
- `Registry`: tests, their figures, lookup by id, and the order in which `runAll` visits them.
- `Ranking`: the end-of-run ranking.
- `Render`: what a results cell shows, and its annotation.
- `ErrorLog`: `logError`.
- `Boot`: the auto-run test of `onLoad`.
- `Controller`: the `ui` object.

Inputs from outside the page are parameters:

- `location.hash` is a parameter of the constructor and of `ParseHash`.
- The figures the engine measures are a `Stats` argument of `OnStop`.
- The shift key is the `reversed` argument of `RunAll`.

`test.run()` becomes "this test is now current". The engine's `running` flag becomes
`current == Some(id)`.

Two behaviours of the code a reader may not expect, both followed by the model:

- `formatNumber(-5)` is "5", not "0", because the code takes `Math.abs` first.
- The fastest and slowest marks are set only when the ends of the ranking differ, so a tie
  between all results gets neither mark.

## Model

| member | source | states |
|---|---|---|
| Text.Split | ui.js:231 | `split` on one character: at least one piece, none containing the separator |
| Text.JoinSplit | ui.js:231 | joining the pieces of a split with the separator gives the string back |
| Text.SplitJoin | ui.js:237 | splitting a join of separator-free pieces gives the pieces back |
| Format.Decimal | ui.js:64 | `String(n)` for n < 2^53 is a non-empty string of decimal digits |
| Format.ValueOfDecimal | ui.js:64 | reading the digits of `String(n)` back gives `n` (for n < 2^53, where the page prints exact digits) |
| Format.NoLeadingZero | ui.js:64 | `String(n)` starts with '0' exactly when `n` is 0 |
| Format.DecimalLength | ui.js:66 | `String(n)` has more than k digits exactly when n >= 10^k (so `/^\d{4,}$/` holds exactly from 1000 on) |
| Format.StripCommaEveryThree | ui.js:69 | the comma regex replace inserts only commas: removing them gives the digits back |
| Format.CommaEveryThree | ui.js:69 | the global replace of `/(\d{3})(?=\d)/` by `'$1,'`: a comma after each group of three digits that another digit follows, scanning from the left |
| Format.Magnitude | ui.js:64 | `Math.abs` of an integer |
| Format.FormatNumber | ui.js:62-70 | `formatNumber` of a whole number: the digits of its magnitude; with four or more digits, the first `length % 3` of them and a comma are split off, and the comma replace runs on the rest |
| Format.FormatNumberDigits | ui.js:62-70 | removing the commas from `formatNumber(x)` leaves the decimal digits of abs(x) (for abs(x) < 2^53, where the page prints exact digits) |
| Format.CommaEveryThreeGroups | ui.js:69 | on a digit string whose length is a multiple of 3, the replace makes groups of exactly three |
| Format.FormatNumberGroups | ui.js:62-70 | the first comma-separated group has 1 to 3 digits and every later group exactly 3 |
| Format.FormatNumberComma | ui.js:62-70 | the result contains a comma exactly when abs(x) >= 1000 |
| Format.FormatNumberInjective | ui.js:62-70 | different naturals are formatted differently |
| Format.FormatNumberStartsWithDigit | ui.js:62-70 | the result is non-empty and starts with a digit |
| Format.FormatNumberMillions | ui.js:62-70 | 1234567 is written "1,234,567" |
| Format.FormatNumberSmallExamples | ui.js:62-70 | 0, -5 and 999 are written "0", "5" and "999": no comma below 1000, negatives as their magnitude |
| Hash.Fragment | ui.js:231 | `location.hash.slice(1)`: the fragment without its leading '#', and "" for an empty hash |
| Hash.KeyOf | ui.js:237-238 | `pair[0]` of `piece.split('=')`: the text before the first '=' |
| Hash.ValueOf | ui.js:237-238 | `pair[1]`: undefined without a '=', otherwise the text between the first '=' and any second one |
| Hash.FirstValue | ui.js:236-239 | the value of the first piece carrying the key, as the countdown loop leaves it by letting earlier pieces overwrite later ones |
| Hash.Param | ui.js:229-241 | what `params` holds for a key: nothing when the first piece of the fragment is empty, otherwise `FirstValue` of the pieces |
| Hash.FirstValueAbsent | ui.js:235-240 | no value for a key exactly when no piece of the fragment carries that key |
| Hash.FirstValueWins | ui.js:235-240 | the first piece with a key determines its value, whatever later pieces say |
| Hash.PairExamples | ui.js:237-238 | "a=1" gives key "a" with value "1"; "run" gives key "run" with an undefined value |
| Hash.ParamFirstWins | ui.js:229-241 | for "#a=1&a=3", `a` is "1" |
| Hash.ParamEdgeCases | ui.js:229-241 | "#run" records `run` as undefined; an empty first piece ("#&a=1", "") records nothing |
| Controller.Ui.ParseHash | ui.js:229-241 | after the countdown loop, every key maps to the value of the first piece carrying it, and nothing is recorded when the first piece is empty |
| Controller.Ui.constructor | ui.js:445-478 | the page starts with nothing registered, queued, timed or logged, and the fragment parsed (ui.js:503); the button reading "Run tests" and the empty status line are the page's HTML, assumed |
| Registry.Lookup | ui.js:73-86 | finds a test exactly when the id is registered, and the test found carries that id |
| Registry.LookupFirst | ui.js:79-84 | the lookup returns the test at the first index carrying the id |
| Controller.Ui.GetTestById | ui.js:73-86 | the search loop returns the first registered test with that id, or nothing |
| Registry.Update | ui.js:200-204 | the registry after the engine has written new figures on the test with that id, ahead of `onStop`; every other test is kept |
| Registry.UpdateSpec | ui.js:200-204 | recording a finished test's figures keeps the ids and every other test; that test's lookup then carries the new figures |
| Registry.RunOrder | ui.js:280-282 | the ids `runAll` visits: registration order, or back to front when the shift key is held |
| Registry.RunOrderAt | ui.js:280-282 | at step i, `runAll` visits `tests[i]`, or `tests[length - i - 1]` when reversed |
| Registry.RunOrderVisitsAll | ui.js:272-283 | both orders visit every registered id exactly once; unreversed is registration order |
| Registry.Unqueued | ui.js:291 | the ids of a visiting order that `runTest`'s queue check lets in: those not already queued, in visiting order |
| Registry.UnqueuedSpec | ui.js:291 | the ids that get enqueued are exactly those in the order that are not already queued |
| ErrorLog.MessageOf | ui.js:138 | `text == null ? '' : text` |
| ErrorLog.Logged | ui.js:137-144 | appending a message adds it when absent and otherwise changes nothing; the log never holds a message twice |
| ErrorLog.Apply | ui.js:133-144 | `logError(false)` empties the log; any other call appends the message (null as ""), and the log stays free of duplicates |
| ErrorLog.LoggedIdempotent | ui.js:139-143 | logging the same message twice is the same as logging it once |
| Controller.Ui.LogError | ui.js:123-145 | the method leaves exactly the log that `Apply` prescribes |
| Render.Choose | ui.js:247-268 | the cell shows "Error" iff the test has an error; else "running" iff it is timed; else "pending" iff queued; else its rate iff it counted iterations; else "ready" |
| Render.CellText | ui.js:248-267 | the cell's `innerHTML` for each display: "Error", "running&hellip;", "pending&hellip;", `formatNumber` of the rate, "ready" |
| Render.CellTextDistinguishes | ui.js:248-267 | no two displays write the same cell text |
| Render.Annotate | ui.js:359-370 | each standing in turn writes its label into its cell's `<span>`, updated or appended, keeping the cell text; the set of cells is kept |
| Render.AnnotateSpec | ui.js:359-371 | with distinct ids, each labelled cell gets its own label and keeps its text; other cells are untouched |
| Controller.Report | ui.js:247-252 | the error log after `renderTest`: the test's error logged once when it has one, unchanged otherwise |
| Controller.Ui.RenderTest | ui.js:243-270 | the cell shows what the priority rule chooses for the test's figures, run state and queue membership; its error, if any, is logged once |
| Controller.Ui.AddTest | ui.js:208-227 | a new never-run test is registered at the end; its cell reads "ready"; the page invariants are kept |
| Ranking.Gather | ui.js:343-347 | gathers no more results than there are registered tests |
| Ranking.GatherMembers | ui.js:343-347 | a result is gathered exactly when a registered test with a nonzero count produced it |
| Ranking.GatherIds | ui.js:343-347 | every gathered id is registered |
| Ranking.GatherDistinct | ui.js:343-347 | with distinct registered ids, gathered ids are distinct |
| Controller.Ui.GatherResults | ui.js:343-347 | the gathering loop computes exactly `Gather(tests)` |
| Ranking.SortDescending | ui.js:352 | `result.sort` with comparator `b.hz - a.hz`, as a stable insertion sort; its ensures: a permutation of the results |
| Ranking.SortDescendingSpec | ui.js:352 | the sort leaves results in non-increasing `hz` and is a permutation |
| Ranking.InsertSorted | ui.js:352 | inserting into a list sorted fastest first keeps it sorted |
| Ranking.SortDescendingDistinct | ui.js:352 | sorting keeps distinct ids distinct |
| Ranking.Percent | ui.js:363-364 | `Math.floor((1 - hz / first.hz) * 100)`; its fallback to 0 only replaces NaN, which a positive head rules out |
| Ranking.LabelAt | ui.js:364 | "fastest" for the head (`test == first`), the floored percentage for every other entry |
| Ranking.PercentBounds | ui.js:363-364 | for entries no faster than the head, the percentage is between 0 and 100, never falls down the list, and is 0 for a tie with the head |
| Ranking.StandingsFrom | ui.js:359-371 | one label per sorted entry from index i on, in order: "fastest" at index 0 only, the floored percentage elsewhere |
| Ranking.Standings | ui.js:359-371 | the labels the loop writes: one per sorted entry, in order, "fastest" on the head and the floored percentage on every other |
| Ranking.Rank | ui.js:349-383 | a ranking happens exactly when at least two results were gathered |
| Ranking.RankOrder | ui.js:352 | the ranked list is sorted fastest first, is a permutation of the results, and keeps ids distinct |
| Ranking.RankUnlabelled | ui.js:358 | no labels are written exactly when every result has the same `hz` |
| Ranking.RankShape | ui.js:355-358 | at least two entries; no labels when the ends tie; otherwise the head is strictly positive and every entry is labelled |
| Ranking.EndsTied | ui.js:355-358 | in a sorted list, the first and last `hz` are equal exactly when all are |
| Ranking.RankLabels | ui.js:358-371 | one label per ranked entry in order; "fastest" on the head only; every other a percentage in [0, 100], non-decreasing, 0 for a tie with the head |
| Ranking.StandingIds | ui.js:359-371 | the labels name the ranked entries, in ranked order |
| Ranking.RankIdsRegistered | ui.js:343-371 | every labelled id is a registered test that counted iterations |
| Ranking.RankIdsDistinct | ui.js:343-371 | no id is labelled twice |
| Ranking.SortExample | ui.js:352 | throughputs 100, 80 and 50 are already sorted |
| Ranking.PercentExample | ui.js:363-364 | 80 against 100 is 20% slower and 50 against 100 is 50% slower |
| Ranking.RankExample | ui.js:341-383 | 100, 80 and 50 rank as "fastest", 20% slower and 50% slower |
| Ranking.LabelText | ui.js:364 | the `<span>` text: "fastest", or the percentage followed by "% slower" |
| Ranking.LabelTextExample | ui.js:364 | the annotation texts read "fastest" and "20% slower" |
| Ranking.RankTieExample | ui.js:350-358 | two equal throughputs are ranked without labels; a single result is not ranked |
| Controller.RankedCells | ui.js:341-377 | the cells after the ranking: annotated with the ranking's labels when at least two tests counted iterations, unchanged otherwise |
| Controller.RankedButton | ui.js:349-383 | the run button after the ranking: "Run tests again" when at least two tests counted iterations, unchanged otherwise |
| Controller.RankedCellsSpec | ui.js:341-377 | after the ranking, each labelled test's cell carries its label and keeps its text; cells of tests that counted nothing are untouched |
| Controller.Ui.WriteLabels | ui.js:358-371 | the labelling loop writes exactly the labels `Standings` prescribes into the cells |
| Controller.Ui.ShowRanking | ui.js:341-383 | the ranking branch leaves the cells annotated as `RankedCells` says, and the button reads "Run tests again" exactly when a ranking happened |
| Controller.Ui.NextTest | ui.js:321-385 | nothing changes while a test is timed; otherwise the front of the queue becomes current and the rest keeps its order; with an empty queue the results are ranked; the tests still to time stay the same |
| Controller.Enqueued | ui.js:291-304 | what `runTest` does to the timed test and the queue: nothing for a queued id; otherwise the id joins the back, and `nextTest` starts it at once when nothing is being timed |
| Controller.EnqueuedWaiting | ui.js:291-304 | `runTest` adds the test to those still to time exactly when it was not queued, and a test waits only while another is timed |
| Controller.Ui.RunTest | ui.js:285-305 | a queued test changes nothing; any other clears the error log, joins the back of the queue (or starts at once on an idle page), and its cell shows what `renderTest`'s priority rule chooses for a queued test: "Error" when it has an error, "running&hellip;" when it is the test being timed, otherwise "pending&hellip;"; the log then holds just that test's error, if any |
| Controller.Visited | ui.js:280-282 | `runTest` of each id of a sequence in turn |
| Controller.VisitedWaiting | ui.js:280-282 | `runTest` of distinct ids in turn adds, in order, exactly those not already queued, behind the tests already waiting; a test being timed keeps being timed |
| Controller.RunAllWaiting | ui.js:272-283 | after `runAll`, every registered test not queued before is waiting, in run order, behind those already waiting; from an idle page the tests wait exactly in run order |
| Controller.Ui.RunAll | ui.js:272-283 | the button reads "Stop tests", and the timed test and queue are those of `runTest` applied along the run order |
| Controller.Redrawn | ui.js:311-313 | the cells after `renderTest` of each drained id in turn, each shown as no longer queued |
| Controller.ReportAll | ui.js:311-313 | the error log after those `renderTest` calls, each logging its test's error once |
| Controller.RedrawnSpec | ui.js:311-313 | the drained tests' cells are re-rendered as not queued, with their annotations gone; no other cell changes |
| Controller.ReportAllSpec | ui.js:311-313 | re-rendering keeps every logged message and adds exactly the drained tests' errors, once each |
| Controller.Ui.Stop | ui.js:307-314 | the queue is empty, the button reads "Run tests", each drained test is re-rendered, and the timed test is untouched |
| Controller.Ui.OnStop | ui.js:200-204 | the finished test's figures are recorded, the status reads "Done. Ready to run tests again.", nothing is timed, and the queue advances, ranking when it is empty |
| Controller.ButtonText | ui.js:38-42 | the labels of `RUN_TEXT`: "Run tests", "Stop tests" and "Run tests again" |
| Controller.Ui.OnRun | ui.js:192-194 | the run button stops the run when it reads "Stop tests" and otherwise runs all tests, with the effects of `Stop` and `RunAll` |
| Controller.Ui.OnLoad | ui.js:183-186 | a page opened on a fragment beginning "run" presses the run button; any other page is left unchanged (corrected slice bound) |
| Boot.Slice | ui.js:184 | `String#slice(begin, end)` for 0 <= begin <= end: the characters between the two positions, each clamped to the length; at most end - begin of them |
| Boot.AutoRunAsWritten | ui.js:184 | the auto-run test as written, `'run' == location.hash.slice(1, 3)` |
| Boot.AutoRun | ui.js:183-184 | the auto-run test as intended, `'run' == location.hash.slice(1, 4)` |
| Boot.AutoRunAsWrittenNeverHolds | ui.js:184 | `'run' == location.hash.slice(1, 3)` never holds, because the slice has at most two characters |
| Boot.AutoRunAsWrittenMissesRun | ui.js:184 | the as-written test is false even for "#run" |
| Boot.AutoRunSpec | ui.js:184 | the corrected test `slice(1, 4)` holds exactly when the fragment after '#' begins with "run" |
| Boot.AutoRunExamples | ui.js:184 | the corrected test accepts "#run" and "#run&x=1" and rejects "#ru" and "" |

## Left out

- DOM work is not modelled: `$`, `createElement`, `hasClass`, `trash`, the error box element, and every `className` edit. This includes the class reset loop of `runTest`, the error class of `renderTest` and the fastest/slowest marks. Only the chosen texts, labels and the error list are kept.
- The Browserscope bridge (`post`, `refresh`, the `me.browserscope.post` call of `nextTest`) is iframe injection and timers, not logic.
- Event wiring is not modelled beyond `onRun` and the auto-run step of `onLoad`. This leaves out the rest of `onLoad`, `onClick`, `onKeyUp`, `onHashChange`, `onCycle`, `onStart`/`logStatus`, the handlers `addTest` binds, and the Google Analytics snippet. `onRun` reads the button's label from the page; the model compares the text `ButtonText` gives for the `button` field with "Stop tests".
- The benchmark engine (`test.run()`, timing, `Benchmark.getPlatform`, calibration) is not modelled. Its results are the `Stats` argument of `OnStop`.
- The cell `title` of `renderTest` is not modelled.
- `Math.round(1 / test.period)` and its `Infinity` case are not modelled. `Stats.rate` is the already-rounded natural.
- `toFixed(0)` rounding in `formatNumber` is not modelled. Its argument is an integer.
- Format.FormatNumber and Format.Decimal assume a magnitude below 2^53, where every integer is a JavaScript number and `String` prints its exact digits. From 2^53 on, `Math.max(0, Math.abs(number).toFixed(0))` turns the digit string back into a double, and `String` prints the shortest digits that read back as that double, padded with zeros: for 2^64 the page prints "18,446,744,073,709,552,000" where the model prints "18,446,744,073,709,551,616". Most integers in that range are not JavaScript numbers at all. From 10^21 on, `toFixed(0)` returns exponent notation such as "1e+21", which neither `/^\d{4,}$/` nor the comma replace touches, so the page prints "1e+21" where the model prints grouped digits.
- Ranking.Percent uses exact reals, not IEEE doubles. In floating point, `(1 - 80 / 100) * 100` is just below 20, so the page would print "19% slower" where the model says 20.
- Ranking.SortDescending is a stable insertion sort. The comparator sort of the page's engine may order tied results differently. Every property proved depends only on sortedness and permutation, apart from the concrete examples.
- The cross-browser `indexOf` fallback loop is not modelled; every use is sequence membership, as on the native path. Called as a plain function, it reads `this.length` of the global object, so it scans only as many slots as the window has frames.
- Hash.Param and Controller.Ui.ParseHash treat every key alike. On the page `params` is a plain object, so the key `__proto__` (as in "#__proto__=x") goes to the inherited `__proto__` setter, which ignores a string or `undefined`, and nothing is stored under it; the model records the value.
- The HTML that `renderTest` builds around an error message with `join` is not modelled; the log holds the engine's message itself. Key enumeration order is engine-defined.
- Render.Choose treats an error as present when the engine reports one: a JavaScript error value that is falsy, such as an empty string, is not distinguished.
- Controller.Ui.RunTest and Controller.Ui.RenderTest require a registered id. On an unknown id, `getTestById` returns `null` and the page would fail on property access.
- Controller.Ui.WriteLabels and Render.Annotate pass over a ranked id without a cell, where the page would fail. Every registered test has a cell under `Consistent`, so this cannot happen in the model.
- Controller.Ui.RunAll states only the queue, the test being timed and the button. Its cells and error log follow from `RunTest`'s own contract, call by call, and are not summarised.
- Controller.Ui.constructor assumes the run button first reads "Run tests" and the status line is empty. `ui.js` sets neither; both come from the page's HTML. The first press of the run button (`OnRun`) depends on that label.
- Controller.Ui.AddTest requires an id not registered yet, where `addTest` accepts a duplicate. Registered ids are assumed distinct: each test has its own `title-<id>` and `results-<id>` elements, and the queue holds ids.
- Controller.Ui.OnStop does not re-render the finished test's cell, because `onStop` itself does not.

## Findings

| source | as written | input that shows it | evidently intended | confidence | as-written member | corrected member |
|---|---|---|---|---|---|---|
| ui.js:184 | `'run' == location.hash.slice(1, 3)` compares "run" with a slice of at most two characters, so the page never runs its tests automatically | `location.hash == "#run"`: the slice is "ru" | `location.hash.slice(1, 4)`: auto-run when the fragment begins with "run" | not executed | Boot.AutoRunAsWrittenNeverHolds | Boot.AutoRunSpec (the corrected test `Boot.AutoRun` is the one `Controller.Ui.OnLoad` uses) |
