# RageLang roast trigger engine, in Dafny

RageLang is an editor extension that "roasts" the developer: when the cursor
leaves a line that has compile errors, it shows a sarcastic comment at the end
of that line and some ASCII art in an output pane. This project models the
part of `src/extension.ts` that decides when that happens, and the bookkeeping
around it:

- the **trigger engine state**: the pending-error index `pendingErrorLines`
  (line number to the error diagnostics waiting on it), the last cursor line
  `lastCursorLine` (`-1` when unset), and the cooldown clock `lastRoastTime`
  plus `ROAST_COOLDOWN_MS` (3000 ms to start with);
- the handlers that change that state: diagnostics changed, cursor moved and
  document changed (with `updatePendingErrors`), and the set-cooldown command;
- the manual trigger command, which reads only the active editor and changes
  no engine state;
- the **decoration bookkeeping**: the per-document decoration arrays in
  `activeDecorations`, the push that adds a roast comment, the timer that
  splices it out again, the pruning done when editors close, and the clearing
  done on `deactivate`;
- two pure helpers: the language-to-comment-prefix switch and the rule that
  a generated roast starts with the flame prefix.

Layout:

- `wrappers.dfy` (`Wrappers`): `Option`.
- `diagnostics.dfy` (`Diagnostics`): diagnostics, the severity filter, the
  grouping of errors by line (`Arm`, `ArmAll`), the rebuilt index `Index`,
  and the index invariant `WellFormed` (every key holds a non-empty list of
  errors that start on that line).
- `engine.dfy` (`Engine`): the engine state as a value (`EngineState`), one
  function per handler giving the transition (`DiagnosticsChanged`,
  `CursorMoved`, `Reconciled`/`DocumentChanged`, `CooldownSet`), lemmas
  about each, and `class Engine`. That class has the four globals as fields and
  one method per handler, each proved to perform exactly its function's
  transition.
- `trace.dfy` (`Trace`): runs over a sequence of host events, and the
  properties of whole runs: cooldown spacing, consumption, the disabled gate,
  and a concrete scenario.
- `roast.dfy` (`Roast`): the flame prefix and `generateRoast`'s choice
  between the generated text and the fallback.
- `decorations.dfy` (`Decorations`): comment prefixes, the decoration built
  for a line, `findIndex`/`splice` removal, and two classes. `DecorationList`
  is one document's array. `DecorationStore` is the map from document URI to
  array.

The host editor is not modelled. Each handler receives, as parameters, what it
reads from the host. The active editor is `Option<Editor>` (document URI and
cursor line). Other parameters are the `enabled` setting, the URIs in the
change event, the document's diagnostics snapshot, the current time
`now`, and whether a settings write succeeded. Each cursor event returns the line to roast as `Option<int>`.

Behaviours of the code worth knowing:

- The document-change handler does not read the `enabled` setting. It
  rebuilds the index even while the extension is disabled. It never fires,
  so "disabled never fires" still holds (`Trace.DisabledNeverFires`).
- A fire passes only the departed line to the renderer, not that line's
  diagnostics. The manual trigger likewise never consults the index.
- The diagnostics handler also sets `lastCursorLine` to the editor's cursor
  line, but only when the snapshot contains at least one error.
- The flame literal in the source text is the four characters U+00F0 U+0178
  U+201D U+00A5. These are the UTF-8 bytes of the fire emoji decoded as
  Windows-1252. `Roast.Flame` is that literal as written. The fallback roast
  table uses the same four characters.
- The set-cooldown command stores the value in the `roastCooldown` setting,
  but `activate` never reads that setting back. After a restart the cooldown
  is 3000 ms again. The model keeps only the module variable.
- The module variable is updated only when that setting write succeeds. A
  rejected write leaves the cooldown unchanged and shows no message. The
  write's outcome is the `written` input of `Engine.CooldownSet`.
- The pending index is keyed by line number alone and shared by all
  documents, and so is `lastCursorLine`. An error armed on line 5 of one
  document fires at the next cursor event, in whichever document is active,
  that reports a line other than 5. The comment is then addressed to line 5
  of that document, and shown there when that document has such a line
  (`Engine.IndexIsSharedAcrossDocuments`). When it has none, the fire has
  still stamped the clock and consumed the entry, but no comment appears.

## Model

| member | source | states |
|---|---|---|
| Diagnostics.Errors | src/extension.ts:413 | the filter keeps exactly the error-severity diagnostics of the snapshot, and no more |
| Diagnostics.ErrorsAppend | src/extension.ts:413 | filtering distributes over concatenation, so the errors keep their snapshot order |
| Diagnostics.ArmAllAt | src/extension.ts:417-423 | grouping appends to each line exactly that line's errors, in order, after what it already held; a key exists afterwards exactly when it existed before or receives an error |
| Diagnostics.ArmAllWellFormed | src/extension.ts:417-423 | grouping errors keeps the index invariant: every key holds a non-empty list of errors that start on that line |
| Diagnostics.DuplicatesAccumulate | src/extension.ts:417-423 | grouping the same errors twice leaves each line holding them twice: existing entries are extended, not replaced |
| Diagnostics.IndexAt | src/extension.ts:557-570 | a rebuilt index holds, for each line, that line's errors in snapshot order, and has a key exactly for the lines with an error |
| Diagnostics.IndexFacts | src/extension.ts:557-570 | a rebuilt index's key set is exactly the set of start lines of the snapshot's errors, and it is well formed |
| Diagnostics.Arm | src/extension.ts:418-422 | one step of the grouping loop: the error's line gains a key if it had none and its list grows by the error at the end; every other line keeps its list |
| Diagnostics.ArmAll | src/extension.ts:417-423 | the grouping loop as a function: existing keys stay, and every error's line has a key afterwards |
| Diagnostics.Index | src/extension.ts:557-567 | the index rebuilt from a snapshot, on a fresh map: every error of the snapshot has its line as a key |
| Engine.DiagnosticsChanged | src/extension.ts:397-428 | the diagnostics transition: the clock and cooldown are untouched, no key is removed, and the cursor line either stays or becomes the editor's line |
| Engine.Initial | src/extension.ts:238-243 | the globals as the extension loads: nothing pending, no line tracked, clock at 0, cooldown 3000 ms; this state satisfies the engine invariant |
| Engine.Departed | src/extension.ts:445 | the departure guard never holds while the cursor stays on the tracked line; under the invariant it holds exactly when a line is tracked, the cursor reports another line, and errors are waiting on the tracked line |
| Engine.CooledDown | src/extension.ts:448 | the gate passes only when at least the cooldown has elapsed since the last roast; a zero cooldown never gates a clock that has not gone back |
| Engine.CursorMoved | src/extension.ts:432-465 | the cursor transition: no key is added, the cooldown is untouched, and a fired line is the last tracked line and had a pending entry |
| Engine.Reconciled | src/extension.ts:551-571 | the `updatePendingErrors` transition: only the index changes, and with an editor every snapshot error's line is a key |
| Engine.DocumentChanged | src/extension.ts:541-548 | the document-change transition: only the index changes, and a change to another document, or no editor, changes nothing |
| Engine.ValidateCooldown | src/extension.ts:525-527 | an accepted outcome carries exactly the parsed seconds; no input is reported exactly for a dismissed or empty box |
| Engine.CooldownSet | src/extension.ts:525-537 | the cooldown transition: only the cooldown can change, it stays non-negative, and it changes only for an accepted value whose write succeeded |
| Decorations.SameDecoration | src/extension.ts:365-367 | matching on range and rendered text is exactly equality of the modelled decorations |
| Engine.DiagnosticsChangedFacts | src/extension.ts:397-428 | the diagnostics handler only arms the index: every line keeps its entries and gains its errors; the clock is untouched; the cursor line is re-synced only when there is an error; with no editor, disabled, or another document, nothing changes |
| Engine.CursorFiresOnlyOnDeparture | src/extension.ts:437-461 | a cursor event fires exactly when enabled with an editor, the last line is set, differs from the current line, has pending errors and the cooldown has elapsed; the fired line is the departed one, never the arriving one |
| Engine.CursorEffects | src/extension.ts:445-464 | a fire stamps the clock with `now` and removes exactly the departed line's key, leaving every other entry; a gated or non-departing event leaves clock and index unchanged; enabled, the cursor line always becomes the current line; disabled, nothing changes |
| Engine.ReconcileReplaces | src/extension.ts:551-570 | after a reconcile the key set is exactly the snapshot's error lines, so a line without errors is absent and no departure from it fires |
| Engine.CooldownSetFacts | src/extension.ts:525-537 | the cooldown changes exactly when a parsed, non-negative number of seconds is entered and the setting write succeeds, becoming seconds * 1000 (and the prompt's default shows those seconds again); otherwise, and for every other field, nothing changes |
| Engine.IndexIsSharedAcrossDocuments | src/extension.ts:413-453 | an error armed on line 5 of document "a" fires at the next cursor event that reports another line, here line 10 while document "b" is active: the index and the tracked line are not per document |
| Engine.DiagnosticsChangedPreservesInv | src/extension.ts:397-428 | the diagnostics handler preserves the engine invariant |
| Engine.CursorMovedPreservesInv | src/extension.ts:432-465 | the cursor handler preserves the engine invariant |
| Engine.DocumentChangedPreservesInv | src/extension.ts:541-571 | the document-change handler preserves the engine invariant |
| Engine.GroupErrors | src/extension.ts:560-567 | the grouping loop on a fresh map leaves each line holding exactly its errors, in order |
| Engine.Engine.constructor | src/extension.ts:238-243 | the initial globals: empty index, cursor unset, clock at 0, cooldown 3000 ms |
| Engine.Engine.GroupInto | src/extension.ts:417-423 | the in-place grouping loop pushes each error onto its line's list, creating it when absent, and touches nothing else |
| Engine.Engine.OnDiagnosticsChanged | src/extension.ts:397-429 | the handler performs exactly the `DiagnosticsChanged` transition and keeps the invariant |
| Engine.Engine.OnCursorMoved | src/extension.ts:432-465 | the handler performs exactly the `CursorMoved` transition, returns its fired line, and keeps the invariant |
| Engine.Engine.UpdatePendingErrors | src/extension.ts:551-571 | with an active editor the index is replaced, not merged, by the one built from the snapshot |
| Engine.Engine.OnDocumentChanged | src/extension.ts:541-548 | only a change to the active editor's document reconciles; the invariant is kept |
| Engine.Engine.SetCooldown | src/extension.ts:525-537 | reports the validation outcome and performs exactly the `CooldownSet` transition: the cooldown changes only for an accepted value whose setting write succeeded |
| Engine.Engine.TriggerRoast | src/extension.ts:483-490 | the manual trigger roasts the current line whenever there is an active editor, and changes no engine state |
| Trace.StepPreservesInv | src/extension.ts:397-571 | each handler, as a run step, preserves the invariant |
| Trace.StepFire | src/extension.ts:447-450 | a fire is at least the cooldown in force after the last roast time and stamps the clock with its time; a step without a fire leaves the clock |
| Trace.RunFacts | src/extension.ts:447-450 | along any run the invariant holds and any two automatic roasts are at least the later one's cooldown apart, even when `now` is not monotonic; the clock ends at the last roast |
| Trace.CooldownSpacing | src/extension.ts:447-450 | without cooldown changes, any two automatic roasts of a run are at least the cooldown apart |
| Trace.FixedCooldown | src/extension.ts:531 | only the cooldown command changes the cooldown |
| Trace.DisabledNeverFires | src/extension.ts:437-439 | with the extension disabled at every cursor event, no run fires |
| Trace.ConsumedLineStaysQuiet | src/extension.ts:445-459 | a line without a pending entry gets none and is never roasted while only cursor and cooldown events occur |
| Trace.FireThenQuiet | src/extension.ts:459 | after a fire, repeated departures from that line cannot roast it again without new diagnostics |
| Trace.ScenarioDepartureFiresOnce | src/extension.ts:397-465 | an error on line 2, then cursor 2, 2, 9 ten seconds after the last roast: exactly one roast, for line 2, and line 2 is no longer pending |
| Roast.EnsureFlame | src/extension.ts:281 | the normalised roast always starts with the flame prefix; text already starting with it is unchanged, other text follows the prefix and a space |
| Roast.EnsureFlameIdempotent | src/extension.ts:281 | normalising twice equals normalising once |
| Roast.GenerateRoast | src/extension.ts:264-286 | without a client or on failure the roast is the fallback; otherwise it is the normalised reply; so it starts with the flame whenever the fallback does |
| Decorations.CommentPrefix | src/extension.ts:307-334 | the prefix is one of the five comment syntaxes of the switch |
| Decorations.UnlistedLanguageUsesSlashes | src/extension.ts:307 | a language the switch does not list gets `// ` |
| Decorations.MakeDecoration | src/extension.ts:337-348 | the decoration is an empty range at the end of the line, whose text is the comment prefix followed by the roast |
| Decorations.FindIndex | src/extension.ts:365-368 | the result is the first position matching on range and text, or -1 exactly when nothing matches |
| Decorations.RemoveFirstMatch | src/extension.ts:370-371 | a match deletes exactly the first matching element (length down by one); no match leaves the list unchanged |
| Decorations.RemoveFirstMatchMultiset | src/extension.ts:365-371 | the removal deletes one element equal to the target, or none, and keeps everything else |
| Decorations.AddThenRemove | src/extension.ts:358-371 | pushing a decoration and removing it immediately after restores the list's contents, and restores the list itself when no equal decoration was shown; for a removal after other pushes, see `RemoveFirstMatchMultiset` |
| Decorations.DecorationList.constructor | src/extension.ts:353 | a document's decoration array starts empty |
| Decorations.DecorationList.Push | src/extension.ts:358 | the document's list grows by exactly the new decoration, at the end |
| Decorations.DecorationList.RemoveMatching | src/extension.ts:364-373 | the timer callback splices out the first match, reporting whether there was one |
| Decorations.DecorationStore.constructor | src/extension.ts:247 | the store starts with no document |
| Decorations.DecorationStore.AddDecoration | src/extension.ts:351-358 | the list for the document is created if absent and grows by one at the end; every other document keeps the same list and contents; the returned list is the one the timer holds |
| Decorations.DecorationStore.PruneClosed | src/extension.ts:576-587 | exactly the keys in the visible set are kept, each with its list unchanged |
| Decorations.DecorationStore.Clear | src/extension.ts:621 | `deactivate` leaves the store with no document |

## Left out

- The host editor API (`activeTextEditor`, `getDiagnostics`, `setDecorations`, the output channel, configuration reads and writes, command registration): its results are method parameters and its effects are not modelled.
- The remote roast generation (`generateRoast`'s model call and prompt building) is a foreign asynchronous network call. It is the `reply` parameter of `Roast.GenerateRoast`: either some text or a failure.
- `getRandomAsciiArt`, `getRandomRoast`, `displayAsciiArt` and the random error type in the prompt are random picks from static tables. The fallback roast is the `fallback` parameter.
- The ASCII-art and roast string tables are static data.
- `Date.now` and `setTimeout` are not modelled. The time is the `now` parameter. The five-second timer is a separate call of `DecorationList.RemoveMatching` on the list it captured.
- `parseInt` is not modelled. The cooldown input arrives already parsed, as `CooldownEntry`: dismissed or empty, NaN, or an integer. JavaScript's floating-point numbers are modelled as unbounded integers. That is exact for millisecond timestamps and for any cooldown below 2^53 ms.
- `Engine.Engine.SetCooldown`: this method sets the cooldown at once when the write succeeded. In the source this happens in the `then` of the asynchronous configuration update, so an event that arrives before that update completes still sees the old cooldown. The model does not capture that delay.
- `Engine.Engine.OnDocumentChanged` treats documents with the same URI as the same document. The source compares the document objects themselves.
- The toggle command only writes the `enabled` setting, which the handlers receive as a parameter.
- The set-API-key command writes the key setting and, once that write succeeds, assigns the module variable `genAI` (src/extension.ts:512). `activate` assigns `genAI` when a key is configured (src/extension.ts:390-391). Neither assignment is modelled: whether `genAI` is set is the `hasClient` input of `Roast.GenerateRoast`, which decides the `!genAI` branch at src/extension.ts:266.
- `activate` otherwise creates host objects and registers handlers, and `deactivate` disposes host objects; neither is modelled. `deactivate` also empties `activeDecorations` (src/extension.ts:621), which is `DecorationStore.Clear`.
- `MakeDecoration` receives `lineText` as an input instead of calling `lineAt`. So the model does not capture that `lineAt` throws for a line past the end of the document. That happens when a line fired from the shared index does not exist in the active document. The rejection is unhandled and no comment is shown.
- A `DecorationOptions` object is modelled by the two fields the timer compares: its range and its rendered text. The decoration type and its styling are not modelled.
- `MakeDecoration` and `CommentPrefix` treat a string as a sequence of characters. The source's `lineText.length` counts UTF-16 code units.
