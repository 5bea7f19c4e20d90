# A Dafny model of the directory server's browser modules

The web front end of the directory server ships five JavaScript modules whose algorithms are worth a
proof: the animation engine, the HTML sanitizer, the router and the URI encoder of AngularJS 1.5.0, and
ui-bootstrap 1.2.5. This project models them in Dafny and proves what they promise.

Code that changes things step by step is modelled as it is written: classes whose methods update fields,
loops with invariants. Each such method is proved equal to a transition function or a recursive
definition, and the theorems about whole runs are lemmas about that function. Code made of expressions is
modelled as functions.

To verify: `dafny verify dfyconfig.toml`.

| file | models | main results |
|---|---|---|
| `Entities.dfy` | `encodeEntities` | five passes are one pass; which texts a browser reads back exactly; no two texts are encoded alike |
| `Sanitizer.dfy` | the sanitized tree, the event writer | the writer prints the sanitized forest exactly when no blocked element leaks |
| `HtmlParser.dfy` | `htmlParser` on linked nodes, `htmlSanitizeWriter` | the pointer walk reports the recursive traversal; the two together, for every forest |
| `AnimationClasses.dfy` | `resolveElementClasses`, `mergeAnimationDetails` | merging requests against applying them in order |
| `AnimationQueue.dfy` | `queueAnimation`, its rules and callbacks | when a digest starts one animation only, and when completions clear a successor |
| `AnimationOutcomes.dfy` | what becomes of the class changes requests ask for | when no change is lost, which requests take over, what a flush leaves |
| `FrameScheduler.dfy` | `$$rAFScheduler`, `waitUntilQuiet` | rows and callbacks in order and once, all that jobs ask for is done, no lost wake-up |
| `SortAnimations.dfy` | `sortAnimations` | row k holds the animations with k animated ancestors |
| `AnimationsAllowed.dfy` | `areAnimationsAllowed` | the early-exit walk decides a declarative rule |
| `RouteTemplates.dfy` | `pathRegExp`, matching, `interpolate`, trailing-slash redirection | round trips in both directions |
| `RouteProtocol.dfy` | `prepareRoute`, `commitRoute`, `reload` | who may broadcast, what `$routeParams` holds |
| `RouteRuns.dfy` | navigations and reloads after any run | when a location updates the current route and when it changes it |
| `Calendar.dfy` | the day picker's month grid, ISO week numbers | each day once, week numbers per ISO 8601 |
| `ModalStack.dfy` | `$$stackedMap`, `$$multiMap`, `$uibModalStack`, `$modal.open` | order of opening by the promise chain, backdrop and body classes over every run |
| `ModalRuns.dfy` | what a run of opens, closes and templates leads to | which modals enter, and with what; what closing does |
| `Pagination.dfy` | `getPages`, `calculateTotalPages` | proper links, no one-page ellipsis, pages tile the items |
| `Timepicker.dfy` | the spinners of the time picker | bounds and day kept over every run |
| `UriEncoding.dfy` | `encodeUriSegment`, `encodeUriQuery` | the passes are one selective encoder, which decodes back |

## Where the code does not do what one would expect

Each of these is stated with a concrete run or input, next to the exact condition under which the
expected property holds.

- An element of a blocked kind inside another of the same kind switches the sanitizer's writer back on too
  early. HTML content cannot nest them so, but foreign content can: `WriterProof.NestedBlockedLeaks` has
  `<svg><style><style></style>x</style></svg>` print the text. The output is wrong exactly when something
  visible follows (`WriterProof.WriterPrintsSanitizedForest`).
- A class request that changes nothing, made while a class animation runs, drops the queue's entry for the
  running animation. The next animation is numbered 1 again, so that the old one's completion clears the new
  one's entry (`QueueProof.NoOpRequestOrphans`), or a flush starts two animations at once
  (`QueueProof.NoOpRequestStartsTwo`). While no step orphans a running animation neither can happen, and
  after any step that does both can (`QueueProof.NoWrongClearInRun`,
  `QueueProof.EachFlushStartsNewestOnly`, `QueueProof.OrphaningGoesWrong`).
- A request that both adds and removes a class the element has leaves the class when merged, but removes it
  when applied on its own (`AnimationClasses.ClashingRequestDiffers`,
  `AnimationClasses.MergedEqualsInOrder`).
- Several requests in one digest need not end with the classes of making their changes in order, even without
  a clash. An enter takes over a class request that waits, and its class is never set
  (`QueueOutcomes.EnterLosesClass`); a skipped request is carried out before one that waits
  (`QueueOutcomes.SkippedRequestOvertakes`). `QueueOutcomes.PushOutcome` says for every request when its
  change counts in full, and when not.
- The comment on `encodeUriSegment` lists the symbols that RFC 3986 allows in a segment. The code keeps all of
  them but the semicolon (`UriEncoding.SemicolonEscaped`, `UriEncoding.SegmentSymbols`).
- The scheduler's comment says that a quiet request delays the next wave of tasks. A row handed to the
  scheduler meanwhile is started at once all the same (`FrameScheduler.RowBeforeQuietCallback`). Until the
  quiet frame no row is started if and only if the scheduler is not called with rows left or given
  (`FrameScheduler.Scheduler.RunWhileQuiet`).
- Leaving a route twice for a location without a route broadcasts a success for a superseded commit
  (`RouteProof.SupersededWithoutRouteBroadcasts`); `RouteProof.WhoBroadcasts` says exactly which commits
  broadcast.

Two peculiarities are part of the model without being in the way of a property. `$$stackedMap.remove` of a
missing key removes the last entry (`ModalCollections.StackedMap.Remove`); the modal stack looks the key up
first. And the sanitizer's tables are plain objects, so that a tag called `constructor` counts as blocked;
the tables are parameters of the model and can say so.

## Model

| member | source | states |
|---|---|---|
| Entities.PairCodePoint | directoryServer/src/main/resources/static/js/angular-sanitize.js:415-419 | the surrogate arithmetic yields a code point in 0x10000..0x10FFFF |
| Entities.PassesAreOnePass | directoryServer/src/main/resources/static/js/angular-sanitize.js:412-425 | the five replacements in sequence equal one left-to-right encoding of code points |
| Entities.OutputIsSafe | directoryServer/src/main/resources/static/js/angular-sanitize.js:213-215 | the output is printable ASCII without quote or angle bracket, for every input |
| Entities.DecodeEncode | directoryServer/src/main/resources/static/js/angular-sanitize.js:412-425 | decoding named and decimal references gives every text back up to the way numeric references are read, for any such way |
| Entities.RoundTripExactly | directoryServer/src/main/resources/static/js/angular-sanitize.js:405-425 | with numeric references read as the HTML Standard says, the round trip is the identity if and only if there is no lone surrogate, no U+0000 and no character in 0x80..0x9F that is read as windows-1252 |
| Entities.EncodingIsInjective | directoryServer/src/main/resources/static/js/angular-sanitize.js:412-425 | no two texts have the same encoding, whatever surrogates they hold |
| Entities.UntouchedExactly | directoryServer/src/main/resources/static/js/angular-sanitize.js:213-215 | a text is left as it is if and only if it is printable ASCII without quote, ampersand and angle brackets |
| SanitizeSpec.FixedExactlyWhenAllowed | directoryServer/src/main/resources/static/js/angular-sanitize.js:437-481 | the trees the recursive transform leaves alone are exactly those with only allowed tags and attributes |
| SanitizeSpec.SanitizeIdempotent | directoryServer/src/main/resources/static/js/angular-sanitize.js:437-481 | sanitizing a sanitized forest changes nothing |
| SanitizeSpec.AttributesSurvive | directoryServer/src/main/resources/static/js/angular-sanitize.js:449-460 | a kept element keeps, in order, exactly the attributes whose lower-cased name is valid and, if it is a URI attribute, whose value the validator accepts, told that `src` of an `img` and `background` are images |
| SanitizeSpec.NoRefusedUri | directoryServer/src/main/resources/static/js/angular-sanitize.js:446-463 | no printed open tag is unknown or blocked, has an invalid attribute or holds a URI the validator refuses |
| SanitizeSpec.VisibleSurvives | directoryServer/src/main/resources/static/js/angular-sanitize.js:441-480 | the tags and the text outside blocked elements, unknown tags aside, are the same before and after, in document order |
| SanitizeSpec.PrintedLiterally | directoryServer/src/main/resources/static/js/angular-sanitize.js:447-469 | the marks of printed tags, spelled out |
| SanitizeSpec.PrintedForestNests | directoryServer/src/main/resources/static/js/angular-sanitize.js:446-473 | read with a stack, the printed tags of any forest match and leave nothing open |
| WriterProof.RunPrints | directoryServer/src/main/resources/static/js/angular-sanitize.js:437-481 | what the stateful writer prints for the events of any tree is a recursive function of the tree, leaks included |
| WriterProof.WriterPrintsSanitizedForest | directoryServer/src/main/resources/static/js/angular-sanitize.js:359-481 | for every forest the events print the sanitized forest if and only if no outermost blocked element shows something after a same-tag descendant ends |
| WriterProof.NotNestedNotLeaky | directoryServer/src/main/resources/static/js/angular-sanitize.js:443-473 | without a same-tag descendant of a blocked element nothing leaks |
| WriterProof.NestedBlockedLeaks | directoryServer/src/main/resources/static/js/angular-sanitize.js:471-473 | in an element that is not blocked, a blocked element holding one of its own kind and a text prints exactly the encoded text, and should print nothing of it |
| HtmlParser.HtmlSanitizeWriter.Start | directoryServer/src/main/resources/static/js/angular-sanitize.js:441-463 | the buffer grows by the opening tag with the filtered, encoded attributes, or the writer starts ignoring |
| HtmlParser.HtmlSanitizeWriter.End | directoryServer/src/main/resources/static/js/angular-sanitize.js:464-474 | the closing tag is written unless ignoring or void; the ignored tag ends the ignoring |
| HtmlParser.HtmlSanitizeWriter.Chars | directoryServer/src/main/resources/static/js/angular-sanitize.js:475-479 | encoded text is written unless ignoring |
| HtmlParser.Climb | directoryServer/src/main/resources/static/js/angular-sanitize.js:375-385 | the inner loop climbs to the next sibling of the nearest ancestor that has one, ending each element passed once, or to the body with every event reported |
| HtmlParser.HtmlParser | directoryServer/src/main/resources/static/js/angular-sanitize.js:359-388 | the walk by three pointers ends on every finite tree and hands the writer exactly the events of the recursive depth-first traversal, in order |
| HtmlParser.SanitizeHtml | directoryServer/src/main/resources/static/js/angular-sanitize.js:335-481 | walk and writer together give the printed sanitized forest exactly when nothing leaks, and so whenever no blocked element nests in its own kind |
| HtmlParser.BuildDocument | directoryServer/src/main/resources/static/js/angular-sanitize.js:341 | every forest has linked nodes whose pointers are those of a parsed body |
| HtmlParser.SanitizeParsed | directoryServer/src/main/resources/static/js/angular-sanitize.js:335-481 | so for every forest, without further condition: printed as intended if and only if nothing leaks |
| AnimationClasses.SplitClassesToLookup | directoryServer/src/main/resources/static/js/angular-animate.js:306-320 | the keys are the non-empty names, each once |
| AnimationClasses.FlagClasses | directoryServer/src/main/resources/static/js/angular-animate.js:275-282 | a class asked for both ways is cancelled, any other keeps its request |
| AnimationClasses.ResolveElementClasses | directoryServer/src/main/resources/static/js/angular-animate.js:267-323 | the surviving additions are absent from the element, the removals present, each once, none asked for both ways |
| AnimationClasses.MergeStep | directoryServer/src/main/resources/static/js/angular-animate.js:226-265 | a merge keeps additions absent, removals present and the two disjoint; it equals applying the request after the pending change if and only if the request does not both add and remove a class of the element |
| AnimationClasses.MergedEqualsInOrder | directoryServer/src/main/resources/static/js/angular-animate.js:180-265 | merging any list of requests leaves the classes of applying them in order, if and only if no class of the element is last mentioned by a request that both adds and removes it |
| AnimationClasses.ClashingRequestDiffers | directoryServer/src/main/resources/static/js/angular-animate.js:180-265 | asked both ways for its one class, an element keeps it merged and loses it in order |
| AnimateQueue.ElementQueue.QueueAnimation | directoryServer/src/main/resources/static/js/angular-animate.js:2415-2587 | the nested skip, cancel and join tests, with counters and merges, are the decision function of the request, the pending entry and its phase |
| AnimateQueue.ElementQueue.MergeIntoActive | directoryServer/src/main/resources/static/js/angular-animate.js:226-265 | the pending entry and its options take the merged change and nothing else moves |
| AnimateQueue.ElementQueue.RunNextCallback | directoryServer/src/main/resources/static/js/angular-animate.js:2589-2640 | a post-digest callback starts the animation, gives way to a newer counter, drops the entry or sets the classes of a cancelled request |
| AnimateQueue.ElementQueue.FlushPostDigest | directoryServer/src/main/resources/static/js/angular-animate.js:2589-2656 | the callbacks run in the order they were queued, each once |
| AnimateQueue.ElementQueue.CompleteAnimation | directoryServer/src/main/resources/static/js/angular-animate.js:2643-2650 | a completion sets its classes and clears the entry when the counter is its own |
| QueueProof.PushKeepsSettled | directoryServer/src/main/resources/static/js/angular-animate.js:2482-2587 | every request keeps the waiting callbacks in increasing order with the entry owned by the newest, and starts nothing |
| QueueProof.FlushStartsNewestOnly | directoryServer/src/main/resources/static/js/angular-animate.js:2589-2656 | in a settled state, as every run without orphans leaves it, at most one callback of a digest starts an animation: the newest, with everything merged so far, exactly when every callback finds the parent and there is something to animate |
| QueueProof.StepKeepsTracked | directoryServer/src/main/resources/static/js/angular-animate.js:2577-2587 | after any step each unfinished animation is still the entry or older than it, if and only if the step did not drop the entry under an unfinished animation |
| QueueProof.CompletionClearsOwn | directoryServer/src/main/resources/static/js/angular-animate.js:2643-2648 | while tracked, a completion clears the entry exactly when the entry is its own |
| QueueProof.NoWrongClearInRun | directoryServer/src/main/resources/static/js/angular-animate.js:2584-2650 | in every run of requests, flushes and completions that orphans nothing, no completion clears an entry of another request |
| QueueProof.EachFlushStartsNewestOnly | directoryServer/src/main/resources/static/js/angular-animate.js:2584-2656 | from an idle element on, in every run that orphans nothing each flush starts nothing or the newest callback alone |
| QueueProof.OrphaningGoesWrong | directoryServer/src/main/resources/static/js/angular-animate.js:2577-2587 | after any step that orphans an animation some continuation has it clear its successor, and some continuation has a flush that starts two animations |
| QueueProof.NoOpRequestOrphans | directoryServer/src/main/resources/static/js/angular-animate.js:2577-2585 | a request without effect during a class animation makes the first completion clear the second animation |
| QueueProof.NoOpRequestDrops | directoryServer/src/main/resources/static/js/angular-animate.js:2577-2581 | a request without effect during a class animation leaves it running without an entry |
| QueueProof.NoOpRequestStartsTwo | directoryServer/src/main/resources/static/js/angular-animate.js:2584-2641 | after that an enter, the completion and another enter make one flush start both |
| QueueProof.ClassRequestsInOneDigest | directoryServer/src/main/resources/static/js/angular-animate.js:2512-2565 | class requests on an idle element in one digest end with the classes of applying them in order, if and only if no class of the element is last asked for both ways |
| QueueOutcomes.ClosedAtOnce | directoryServer/src/main/resources/static/js/angular-animate.js:2482-2520 | requests that may not animate, because they are skipped, not allowed or idle beside what runs, make their changes at once and in order, and leave entry, callbacks and running animations alone |
| QueueOutcomes.TakeoverExactly | directoryServer/src/main/resources/static/js/angular-animate.js:2512-2587 | which requests take over, by the fields of request and entry; each such waits with a callback and the next counter, and closes the structural entry it replaces; no other queues anything |
| QueueOutcomes.PushOutcome | directoryServer/src/main/resources/static/js/angular-animate.js:2415-2587 | for every request, the classes to be become those with its change made last, if and only if a condition on its fields and what waits holds |
| QueueOutcomes.FlushClasses | directoryServer/src/main/resources/static/js/angular-animate.js:2589-2632 | the classes after any flush: unchanged while every callback finds a parent and there is something to animate; else the callbacks after the one that drops the entry make the changes their requests still hold |
| QueueOutcomes.NoClassLost | directoryServer/src/main/resources/static/js/angular-animate.js:2415-2656 | requests of any kind in one digest end with the classes of their changes in order if each meets that condition and something is left to animate or nothing was taken over |
| QueueOutcomes.StartsExactly | directoryServer/src/main/resources/static/js/angular-animate.js:2561-2641 | one request on an idle element starts an animation if and only if it is free to and is structural, animates to something or changes a class |
| QueueOutcomes.EnterLosesClass | directoryServer/src/main/resources/static/js/angular-animate.js:2541-2587 | a class request and then an enter end without the class |
| QueueOutcomes.SkippedRequestOvertakes | directoryServer/src/main/resources/static/js/angular-animate.js:2482-2495 | a class request and then a skipped one that takes the class away end with it |
| FrameScheduler.Scheduler.WaitUntilQuiet | directoryServer/src/main/resources/static/js/angular-animate.js:406-414 | the callback joins the end of the wait queue and the pending quiet frame is replaced by a new one |
| FrameScheduler.Scheduler.Perform | directoryServer/src/main/resources/static/js/angular-animate.js:418-424 | what a called job asks for is done: its callbacks are awaited and its rows scheduled, counted with what jobs called meanwhile ask for, and in order if it only waits |
| FrameScheduler.Scheduler.ScheduleRows | directoryServer/src/main/resources/static/js/angular-animate.js:388-394 | the rows join the queue and, unless there is none, at least the first row of the queue is started; whatever its tasks do, rows stay in order and a frame stays pending for the rest |
| FrameScheduler.Scheduler.NextTick | directoryServer/src/main/resources/static/js/angular-animate.js:418-431 | the first row leaves the queue and its tasks are called, each once, and what they ask for is done; then a frame is pending, a tick being asked for only if no quiet frame is |
| FrameScheduler.Scheduler.CallWaiting | directoryServer/src/main/resources/static/js/angular-animate.js:956-961 | every waiting callback is called in order, those pushed meanwhile included, and the queue ends empty |
| FrameScheduler.Scheduler.QuietFrame | directoryServer/src/main/resources/static/js/angular-animate.js:409-413 | the quiet frame calls everything awaited and moves the queue on |
| FrameScheduler.Scheduler.TickFrame | directoryServer/src/main/resources/static/js/angular-animate.js:427-429 | a tick does nothing while a quiet frame is pending and otherwise moves the queue on |
| FrameScheduler.Scheduler.CallBack | directoryServer/src/main/resources/static/js/angular-animate.js:405-431 | any frame keeps the state at rest: callbacks awaited are those called plus those waiting, a quiet frame is live while any waits, a frame is live while rows remain |
| FrameScheduler.Scheduler.Settle | directoryServer/src/main/resources/static/js/angular-animate.js:385-432 | in whatever order the browser calls frames back they run out; by then every row was started once and in order and every callback called once and in order, and both are all that jobs and calls from outside asked for, no more and no less |
| FrameScheduler.Scheduler.Run | directoryServer/src/main/resources/static/js/angular-animate.js:944-963 | every interleaving of scheduling, waiting and frames keeps the state at rest; tasks that do not schedule run in exactly the order of their rows |
| FrameScheduler.Scheduler.RunWhileQuiet | directoryServer/src/main/resources/static/js/angular-animate.js:396-432 | for every script from a pending quiet frame up to the first quiet frame called back: no awaited callback is called, and no row is started if and only if no call of the scheduler meets rows left or given |
| FrameScheduler.RowBeforeQuietCallback | directoryServer/src/main/resources/static/js/angular-animate.js:388-414 | a run in which a row is started while an earlier callback still waits for quiet |
| AnimationForest.LevelOfNearest | directoryServer/src/main/resources/static/js/angular-animate.js:2877-2887 | a node has one animated ancestor more than its nearest animated ancestor, and none without one |
| SortAnimations.Sorter.FindParentEntry | directoryServer/src/main/resources/static/js/angular-animate.js:2878-2887 | the climb ends at an entry of the nearest animated ancestor |
| SortAnimations.Sorter.ProcessNode | directoryServer/src/main/resources/static/js/angular-animate.js:2869-2891 | the recursion hangs the entry, and first its ancestors, below their nearest animated ancestors and ends |
| SortAnimations.Sorter.Flatten | directoryServer/src/main/resources/static/js/angular-animate.js:2893-2927 | the level counters of the breadth-first loop cut the queue exactly at the levels |
| SortAnimations.Sort | directoryServer/src/main/resources/static/js/angular-animate.js:2848-2928 | row k holds the functions of exactly the animations with k distinct animated proper ancestors, each once, whatever order the input lists them in |
| SortAnimations.ParentsRunEarlier | directoryServer/src/main/resources/static/js/angular-animate.js:2848-2928 | an animated ancestor stands in an earlier row |
| AllowedSpec.JudgeIsRule | directoryServer/src/main/resources/static/js/angular-animate.js:2753-2776 | judging ancestors one by one with early exits is the rule about the closest flag, the first structural animation and animate-children |
| AnimationsAllowed.WalkIsOutcome | directoryServer/src/main/resources/static/js/angular-animate.js:2736-2801 | the walk up parents and pins, cut short at any exit, decides what the whole chain decides |
| AnimationsAllowed.AreAnimationsAllowed | directoryServer/src/main/resources/static/js/angular-animate.js:2723-2805 | on acyclic parents and pins the loop ends and answers true if and only if the declarative rule holds, also for elements with a flag of their own |
| RoutePatterns.ExecExactly | directoryServer/src/main/resources/static/js/angular-route.js:219-237 | the backtracking matcher with greedy segments and lazy stars answers exactly when the path can be split along the template, and with such a split |
| RoutePatterns.ExecPrefers | directoryServer/src/main/resources/static/js/angular-route.js:219-237 | of all ways to split a path the matcher takes the one with the longest segments and the shortest stars, from the left |
| RouteParams.SwitchRouteMatcher | directoryServer/src/main/resources/static/js/angular-route.js:545-564 | the loop fills in each key with its group, or there is no match |
| RouteParams.MatchExactly | directoryServer/src/main/resources/static/js/angular-route.js:545-564 | a template matches exactly the paths that split along it and a match sets exactly its names |
| RouteParams.MatchedParams | directoryServer/src/main/resources/static/js/angular-route.js:554-562 | of equal names the last one decides the value |
| RouteParams.Interpolate | directoryServer/src/main/resources/static/js/angular-route.js:675-689 | the loop builds the path and takes the used parameters away |
| RouteParams.UnusedParamsLeft | directoryServer/src/main/resources/static/js/angular-route.js:675-689 | exactly the parameters the template names are taken away |
| RouteParams.InterpolateAfterMatch | directoryServer/src/main/resources/static/js/angular-route.js:545-564 | for distinct names, filling in the parameters of a match rebuilds the path and leaves over exactly the other parameters |
| RouteRoundTrip.FitsUnique | directoryServer/src/main/resources/static/js/angular-route.js:211-239 | with whole segments and at most one star a path splits in one way only |
| RouteRoundTrip.MatchAfterInterpolate | directoryServer/src/main/resources/static/js/angular-route.js:675-689 | matching an interpolated path gives the parameters back if and only if every parameter is given, none is empty, none but the star holds a slash, and the star holds no line end |
| RouteRoundTrip.InterpolateAfterWholeMatch | directoryServer/src/main/resources/static/js/angular-route.js:657-689 | interpolating the parameters of a match gives the path back and uses them all up |
| RouteRedirect.RedirectPathInterpolated | directoryServer/src/main/resources/static/js/angular-route.js:174-183 | the path registered for the redirection takes the same parameters and differs by the trailing slash |
| RouteRedirect.RedirectionLands | directoryServer/src/main/resources/static/js/angular-route.js:591-603 | the redirection leads to the same path with exactly that slash added or removed; path parameters go into the path, every other search parameter stays unchanged |
| RouteService.RouteService.PrepareRoute | directoryServer/src/main/resources/static/js/angular-route.js:566-581 | the prepared route, the update-only flag, the start broadcast and whether the location event is prevented |
| RouteService.RouteService.CommitRoute | directoryServer/src/main/resources/static/js/angular-route.js:583-651 | update in place, or a new current route with outstanding promises, redirect parameters used up |
| RouteService.RouteService.RunAskedReload | directoryServer/src/main/resources/static/js/angular-route.js:485-500 | a reload prepares and commits, or gives up its force when prevented |
| RouteService.RouteService.ResolveAt | directoryServer/src/main/resources/static/js/angular-route.js:606-649 | promises kept or broken broadcast only if their route is still current |
| RouteProof.StepKeeps | directoryServer/src/main/resources/static/js/angular-route.js:566-651 | every navigation, reload and resolution keeps the invariant of outstanding commits, broadcasts and parameters |
| RouteProof.SettledAtMostOnce | directoryServer/src/main/resources/static/js/angular-route.js:636-649 | in every run a matched route gets at most one success or error broadcast |
| RouteProof.ParamsFollowCurrent | directoryServer/src/main/resources/static/js/angular-route.js:586-645 | in every run, once the current route has succeeded `$routeParams` are its parameters, update-only changes included |
| RouteProof.WhoBroadcasts | directoryServer/src/main/resources/static/js/angular-route.js:606-649 | in every run a superseded commit of a matched route changes nothing, and any commit broadcasts its success or error exactly if it is not superseded or both it and the current route are none |
| RouteProof.SupersededWithoutRouteBroadcasts | directoryServer/src/main/resources/static/js/angular-route.js:636-643 | a run in which a superseded commit without a route broadcasts its success |
| RouteRuns.NavigationsLead | directoryServer/src/main/resources/static/js/angular-route.js:566-605 | after any run a navigation updates the current route if and only if definition and path parameters are the same, the route does not reload on search and no reload that was asked for is due; otherwise it is announced and, unless prevented, a new route is current, with its promises outstanding |
| RouteRuns.ReloadsLead | directoryServer/src/main/resources/static/js/angular-route.js:485-500 | the same for a reload that was asked for |
| CivilDates.MonthLengths | directoryServer/src/main/resources/static/js/ui-bootstrap-tpls-1.2.5.js:2284-2291 | the length of every month, leap years included, as the calendar has it |
| IsoWeeks.IsoWeekUnique | directoryServer/src/main/resources/static/js/ui-bootstrap-tpls-1.2.5.js:2364-2371 | a day has one ISO year and week |
| IsoWeeks.NextWeek | directoryServer/src/main/resources/static/js/ui-bootstrap-tpls-1.2.5.js:2364-2371 | seven days on it is the next week of the year, or week 1 of the next year |
| IsoWeeks.GetIso8601WeekNumber | directoryServer/src/main/resources/static/js/ui-bootstrap-tpls-1.2.5.js:2364-2371 | the number computed through the Thursday is that of the ISO week of section 2.2.10 of ISO 8601:2004, between 1 and 53, for every date |
| DayPicker.GetDates | directoryServer/src/main/resources/static/js/ui-bootstrap-tpls-1.2.5.js:2299-2307 | consecutive days across month and year ends |
| DayPicker.FirstDate | directoryServer/src/main/resources/static/js/ui-bootstrap-tpls-1.2.5.js:2314-2323 | the first cell is the starting weekday less than a week before the first of the month, or on it |
| DayPicker.MonthCells | directoryServer/src/main/resources/static/js/ui-bootstrap-tpls-1.2.5.js:2309-2332 | 42 consecutive days from the starting weekday on hold each day of the month exactly once, and exactly the others are marked secondary |
| DayPicker.WeekNumbers | directoryServer/src/main/resources/static/js/ui-bootstrap-tpls-1.2.5.js:2345-2353 | the chosen cell of each row is a Thursday and the number is that of its ISO week |
| DayPicker.RefreshView | directoryServer/src/main/resources/static/js/ui-bootstrap-tpls-1.2.5.js:2309-2354 | for every month and starting day: the grid, the numbers, and each number one more than the last or 1 again |
| ModalCollections.StackedMap.Remove | directoryServer/src/main/resources/static/js/ui-bootstrap-tpls-1.2.5.js:3513-3522 | the first entry with the key goes; without one the last entry goes instead |
| ModalCollections.StackedMap.Get | directoryServer/src/main/resources/static/js/ui-bootstrap-tpls-1.2.5.js:3496-3502 | the first entry with the key, or none exactly when no entry has it |
| ModalCollections.MultiMap.Remove | directoryServer/src/main/resources/static/js/ui-bootstrap-tpls-1.2.5.js:3567-3583 | one reference of the key goes, and the key with its last reference |
| ModalStack.ModalStack.OpenModal | directoryServer/src/main/resources/static/js/ui-bootstrap-tpls-1.2.5.js:3953-4016 | the window is on top, its body class lists it, and a backdrop exists if there was one or any window in the stack asks for it |
| ModalStack.ModalStack.BackdropIndex | directoryServer/src/main/resources/static/js/ui-bootstrap-tpls-1.2.5.js:3804-3813 | the topmost window with a backdrop, or -1 if there is none |
| ModalStack.ModalStack.RemoveModalWindow | directoryServer/src/main/resources/static/js/ui-bootstrap-tpls-1.2.5.js:3821-3864 | the window leaves the stack, starts closing, and takes the backdrop along if no other wants it |
| ModalStack.ModalStack.CloseOrDismiss | directoryServer/src/main/resources/static/js/ui-bootstrap-tpls-1.2.5.js:4018-4042 | an open modal closes and answers true unless vetoed, a vetoed one stays and answers false, one that is not open answers true |
| ModalStack.ModalStack.DismissAllModals | directoryServer/src/main/resources/static/js/ui-bootstrap-tpls-1.2.5.js:4044-4049 | the loop pops windows down to the topmost that vetoes |
| ModalStack.ModalStack.AfterAnimating | directoryServer/src/main/resources/static/js/ui-bootstrap-tpls-1.2.5.js:3828-3833 | the body class loses the reference of the window that finished closing |
| ModalStack.ModalStack.OpenCall | directoryServer/src/main/resources/static/js/ui-bootstrap-tpls-1.2.5.js:4135-4182 | the promise of the call waits for the one the variable held and replaces it there |
| ModalStack.ModalStack.RunTurn | directoryServer/src/main/resources/static/js/ui-bootstrap-tpls-1.2.5.js:4183-4252 | a call whose template and predecessor are settled opens its modal, or fails without one |
| ModalStack.ModalStack.FinishPromise | directoryServer/src/main/resources/static/js/ui-bootstrap-tpls-1.2.5.js:4253-4257 | the `finally` of a call settles its promise and clears the variable only if no later call has overwritten it |
| ModalProof.StepKeeps | directoryServer/src/main/resources/static/js/ui-bootstrap-tpls-1.2.5.js:3804-4049 | every step keeps stack, backdrop, body classes and the links of the promises in agreement |
| ModalProof.UnfinishedLinked | directoryServer/src/main/resources/static/js/ui-bootstrap-tpls-1.2.5.js:4135-4257 | in every run each unsettled call is the one the next call waits for, the variable holds the newest, and it is cleared exactly when every call is settled |
| ModalProof.TurnsInCallOrder | directoryServer/src/main/resources/static/js/ui-bootstrap-tpls-1.2.5.js:4177-4257 | in every run a call may run if and only if its template is settled and every earlier call is done; the first unsettled call is never stuck |
| ModalProof.EnterInCallOrder | directoryServer/src/main/resources/static/js/ui-bootstrap-tpls-1.2.5.js:4135-4260 | in every run the calls that had their turn entered if their template was kept and failed if it was broken, both in the order of the calls although each waits for its own predecessor only; the stack holds its modals in that order |
| ModalRuns.EntersExactly | directoryServer/src/main/resources/static/js/ui-bootstrap-tpls-1.2.5.js:4170-4257 | read off the steps of any run: a modal enters if and only if it had its turn and its template came out kept first, and fails if and only if it had its turn and that was broken |
| ModalRuns.WindowsOfCalls | directoryServer/src/main/resources/static/js/ui-bootstrap-tpls-1.2.5.js:3953-3972 | in every run a window has the backdrop and the body class its call asked for |
| ModalRuns.ClosesExactly | directoryServer/src/main/resources/static/js/ui-bootstrap-tpls-1.2.5.js:4018-4042 | after any run closing takes the named modal and no other off the stack unless vetoed, and answers whether it is closed |
| ModalProof.BackdropExactly | directoryServer/src/main/resources/static/js/ui-bootstrap-tpls-1.2.5.js:3804-3864 | in every run a backdrop exists if and only if an open modal asks for one |
| ModalProof.BodyClassExactly | directoryServer/src/main/resources/static/js/ui-bootstrap-tpls-1.2.5.js:3828-3833 | in every run a body class has a key if and only if some modal with it is open or has not finished closing |
| ModalProof.DismissAllPops | directoryServer/src/main/resources/static/js/ui-bootstrap-tpls-1.2.5.js:4044-4049 | after any run dismissing all leaves the stack up to the topmost vetoing modal, and the backdrop right |
| Pagination.PagesTile | directoryServer/src/main/resources/static/js/app.js:2091 | with offsets `(page-1)*limit` every item is on exactly one page, which is among the pages counted |
| Pagination.PagesNonempty | directoryServer/src/main/resources/static/js/ui-bootstrap-tpls-1.2.5.js:4308-4311 | no page counted is empty while there are items |
| Pagination.PageLimits | directoryServer/src/main/resources/static/js/ui-bootstrap-tpls-1.2.5.js:4438-4461 | the window holds the current page; rotated it is of full size and has half of it, rounded down, before the current page unless it touches an end; otherwise it is one of the sets counted from page 1 |
| Pagination.UnshiftLinks | directoryServer/src/main/resources/static/js/ui-bootstrap-tpls-1.2.5.js:4471-4485 | the links unshifted one by one stand before the window as page 1, page 2 or an ellipsis, each only when it is due |
| Pagination.PushLinks | directoryServer/src/main/resources/static/js/ui-bootstrap-tpls-1.2.5.js:4487-4501 | an ellipsis or the second to last page, then the last, follow the window, each only when it is due |
| Pagination.LinksProper | directoryServer/src/main/resources/static/js/ui-bootstrap-tpls-1.2.5.js:4470-4502 | such a list increases strictly within the pages, has one active link, and with boundary numbers no ellipsis stands for fewer than two pages |
| Pagination.GetPages | directoryServer/src/main/resources/static/js/ui-bootstrap-tpls-1.2.5.js:4435-4504 | in both rotate modes and for every `maxSize` the list is proper, its window lies as said for the limits, an ellipsis stands exactly where pages are left out beyond the boundary links and leads next to the window, and with boundary numbers the list starts at page 1 and ends at the last |
| Timepicker.Spinner.Perform | directoryServer/src/main/resources/static/js/ui-bootstrap-tpls-1.2.5.js:5835-5877 | from within the bounds a click moves the selection to the wrapped target if and only if the spinner is enabled and the target is within the bounds, so the guards that look at one bound suffice; from outside it still keeps the day |
| Timepicker.Spinner.Run | directoryServer/src/main/resources/static/js/ui-bootstrap-tpls-1.2.5.js:5816-5877 | every run of clicks with arbitrary steps, disabling and moving bounds stays on the same day, and within the bounds as long as none moves |
| Timepicker.StepsUndo | directoryServer/src/main/resources/static/js/ui-bootstrap-tpls-1.2.5.js:6209-6214 | an increment and a decrement by the same step undo each other across midnight |
| Timepicker.ClicksOnTheClock | directoryServer/src/main/resources/static/js/ui-bootstrap-tpls-1.2.5.js:6205-6266 | an increment is that much later and a decrement that much earlier up to whole days, and the meridian click moves by twelve hours within the day |
| UriEncoding.PassChangesCode | directoryServer/src/main/resources/static/js/angular-resource.js:443-469 | a replacement pass over encoded bytes rewrites exactly the triplets of its byte, never across a boundary |
| UriEncoding.QueryIsOnePass | directoryServer/src/main/resources/static/js/angular-resource.js:462-469 | the chain in `encodeUriQuery` is one selective encoder |
| UriEncoding.SegmentIsOnePass | directoryServer/src/main/resources/static/js/angular-resource.js:443-448 | the chain in `encodeUriSegment` is one selective encoder |
| UriEncoding.SegmentRoundTrip | directoryServer/src/main/resources/static/js/angular-resource.js:443-448 | percent-decoding an encoded segment gives the value back, for every byte sequence |
| UriEncoding.QueryRoundTrip | directoryServer/src/main/resources/static/js/angular-resource.js:451-469 | so for query values under the form decoder, and under the plain one when spaces are triplets |
| UriEncoding.EncodedIsPchars | directoryServer/src/main/resources/static/js/angular-resource.js:432-460 | every percent sign starts a triplet and every other symbol is a pchar of section 3.3 of RFC 3986 |
| UriEncoding.SegmentSymbols | directoryServer/src/main/resources/static/js/angular-resource.js:443-448 | letters, digits and a list of marks stand for themselves in a segment, every other byte is a percent sign and two upper-case digits |
| UriEncoding.QuerySymbols | directoryServer/src/main/resources/static/js/angular-resource.js:462-469 | the same for a query, where a space may become a plus sign |
| UriEncoding.EncodeConcat | directoryServer/src/main/resources/static/js/angular-resource.js:443-469 | both encode byte by byte |
| UriEncoding.SemicolonEscaped | directoryServer/src/main/resources/static/js/angular-resource.js:432-448 | the semicolon is the one pchar that a segment does not keep |

## Left out

- Java services, Docker files and the controllers of `app.js`: configuration and REST calls around services that are not part of this model.
- Browser parsing in `htmlParser`, its loop against mutating markup, the removal of parsed nodes and the attributes that old browsers add: the model starts from the parsed nodes.
- The tables of valid tags and attributes, lower-casing and the URI validator are parameters of the sanitizer's policy; attributes come as a list instead of a map.
- Class attributes are sets of names after splitting: array and `null` options, the order of names in the attribute and class names that are properties of `Object.prototype` are not modelled.
- Generated `-add`, `-remove`, `-prepare` and `-active` classes, styles, `domOperation`, runners, `closeChildAnimations` and other elements: the queue is modelled for one element, and what `areAnimationsAllowed` answers is an input of each request there.
- A queued animation that is told to end: its completion is a later step of its own, in any order.
- `groupAnimations`, `removeFromArray`, element callbacks, the drivers and the timing of `$animateCss`: they depend on computed styles or only deliver notifications.
- FrameScheduler.Scheduler.Run: tasks that schedule rows of their own run nested inside their row, so the flat order of task calls is stated only for tasks that do not; rows in order and tasks once hold for all.
- SortAnimations.Sort: nodes are positions in the document and rows are lists of entry numbers, turned into functions at the end.
- Parsing template text into tokens, optional parameters, several stars, several parameters in a segment, case-insensitive matching and characters special to regular expressions.
- RouteRoundTrip.MatchAfterInterpolate: a parameter holds a whole segment and there is at most one star, since otherwise the split of a path is ambiguous.
- Choosing among several routes, redirect functions, `updateParams`, and loading of templates and resolves: what the location parses to and whether promises hold are inputs of each step.
- Time of day, daylight saving, time zones and the labels of the day picker; milliseconds and typed values of the time picker.
- Focus, keyboard, top-window classes, scopes, controllers and a missing `appendTo` element of modals; when and whether templates and resolves arrive is an input.
- A `maxSize` that is no number, and page labels.
- The UTF-8 step of `encodeURIComponent`: values are byte sequences here, so its error on lone surrogates does not arise.
- `setUrlParams`, the resource actions, tooltips, the carousel, typeahead and positioning.
