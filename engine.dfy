/**
 * The roast trigger engine: the pending-error index, the last cursor line
 * and the cooldown clock, and the handlers that change them. The handlers'
 * behaviour is first given as functions on an `EngineState` value; the class
 * `Engine` holds the same four variables as fields and its methods are proved
 * to perform exactly those transitions.
 */
module Engine {
  import opened Wrappers
  import opened Diagnostics

  /** `lastCursorLine` before any line has been tracked. */
  const Unset: int := -1

  /** Initial value of the cooldown between two automatic roasts, in milliseconds. */
  const DefaultCooldownMs: int := 3000

  /** What the handlers read from the active text editor: its document and its cursor line. */
  datatype Editor = Editor(uri: string, activeLine: nat)

  datatype EngineState = EngineState(
    pending: PendingIndex,   // pendingErrorLines
    lastCursorLine: int,     // lastCursorLine, Unset before the first tracked line
    lastRoastTime: int,      // lastRoastTime, milliseconds
    cooldownMs: int          // ROAST_COOLDOWN_MS
  )

  /** The globals when the extension loads: nothing pending, no line tracked, clock at 0. */
  function Initial(): (s: EngineState)
    ensures Inv(s)
    ensures s.pending.Keys == {} && s.lastCursorLine == Unset
    ensures s.lastRoastTime == 0 && s.cooldownMs == DefaultCooldownMs
  {
    EngineState(map[], Unset, 0, DefaultCooldownMs)
  }

  /** What every handler preserves. */
  ghost predicate Inv(s: EngineState) {
    && WellFormed(s.pending)
    && s.lastCursorLine >= Unset
    && s.cooldownMs >= 0
  }

  // ---------------------------------------------------------------------
  // Diagnostics changed

  /**
   * The diagnostics handler: with an active editor, the extension enabled and
   * the editor's document among the changed ones, every error of the
   * document's snapshot is pushed onto its line's list, and, if there was at
   * least one error, the cursor line is re-synchronised with the editor.
   */
  function DiagnosticsChanged(s: EngineState, editor: Option<Editor>, enabled: bool,
                              eventUris: seq<string>, snapshot: seq<Diagnostic>): (t: EngineState)
    ensures t.lastRoastTime == s.lastRoastTime && t.cooldownMs == s.cooldownMs
    ensures s.pending.Keys <= t.pending.Keys
    ensures t.lastCursorLine == s.lastCursorLine || (editor.Some? && t.lastCursorLine == editor.value.activeLine)
  {
    if editor.None? || !enabled || editor.value.uri !in eventUris then s
    else
      var errors := Errors(snapshot);
      if |errors| > 0 then s.(pending := ArmAll(s.pending, errors), lastCursorLine := editor.value.activeLine)
      else s
  }

  /**
   * Diagnostics only arm the index: nothing is consumed, every line keeps what
   * it had and gains the snapshot's errors on it, in order; the cooldown clock
   * is untouched, and the cursor line changes only when there is an error.
   */
  lemma DiagnosticsChangedFacts(s: EngineState, editor: Option<Editor>, enabled: bool,
                                eventUris: seq<string>, snapshot: seq<Diagnostic>, k: int)
    ensures var t := DiagnosticsChanged(s, editor, enabled, eventUris, snapshot);
      && t.lastRoastTime == s.lastRoastTime && t.cooldownMs == s.cooldownMs
      && (if editor.Some? && enabled && editor.value.uri in eventUris then
            && Lookup(t.pending, k) == Lookup(s.pending, k) + OnLine(Errors(snapshot), k)
            && (k in t.pending <==> k in s.pending || exists d :: d in snapshot && IsError(d) && d.line == k)
            && t.lastCursorLine == (if Errors(snapshot) != [] then editor.value.activeLine else s.lastCursorLine)
          else t == s)
  {
    var errors := Errors(snapshot);
    ArmAllAt(s.pending, errors, k);
    OnLineEmpty(errors, k);
  }

  // ---------------------------------------------------------------------
  // Cursor moved

  /** The new state and the line to roast, if any. */
  datatype CursorOutcome = CursorOutcome(next: EngineState, fired: Option<int>)

  /** The departure test of the selection handler (before the cooldown gate). */
  predicate Departed(s: EngineState, currentLine: int): (d: bool)
    ensures s.lastCursorLine == currentLine ==> !d
    ensures Inv(s) ==> (d <==> 0 <= s.lastCursorLine && s.lastCursorLine != currentLine
                               && Lookup(s.pending, s.lastCursorLine) != [])
  {
    s.lastCursorLine != Unset && currentLine != s.lastCursorLine && s.lastCursorLine in s.pending
  }

  /** The cooldown gate: enough time has passed since the last roast. */
  predicate CooledDown(s: EngineState, now: int): (c: bool)
    ensures c ==> s.lastRoastTime + s.cooldownMs <= now
    ensures s.cooldownMs <= 0 && s.lastRoastTime <= now ==> c
  {
    now - s.lastRoastTime >= s.cooldownMs
  }

  /**
   * The selection handler: leaving a line that has pending errors when the
   * cooldown has elapsed fires a roast for the line left, stamps the clock and
   * consumes that line's entry; in every enabled case the cursor line becomes
   * the current one.
   */
  function CursorMoved(s: EngineState, editor: Option<Editor>, enabled: bool, now: int): (o: CursorOutcome)
    ensures o.next.pending.Keys <= s.pending.Keys
    ensures o.next.cooldownMs == s.cooldownMs
    ensures o.fired.Some? ==> o.fired.value == s.lastCursorLine && o.fired.value in s.pending
  {
    if editor.None? || !enabled then CursorOutcome(s, None)
    else
      var currentLine := editor.value.activeLine;
      if Departed(s, currentLine) && CooledDown(s, now) then
        CursorOutcome(
          s.(lastRoastTime := now, pending := s.pending - {s.lastCursorLine}, lastCursorLine := currentLine),
          Some(s.lastCursorLine))
      else
        CursorOutcome(s.(lastCursorLine := currentLine), None)
  }

  /**
   * A cursor event fires exactly when an editor is active, the extension is
   * enabled, a line was tracked, the cursor left it, it has pending errors and
   * the cooldown has elapsed; the line fired is the one left, never the one
   * arrived at.
   */
  lemma CursorFiresOnlyOnDeparture(s: EngineState, editor: Option<Editor>, enabled: bool, now: int)
    ensures var o := CursorMoved(s, editor, enabled, now);
      && (o.fired.Some? <==>
            && editor.Some? && enabled
            && s.lastCursorLine != Unset
            && editor.value.activeLine != s.lastCursorLine
            && s.lastCursorLine in s.pending
            && now - s.lastRoastTime >= s.cooldownMs)
      && (o.fired.Some? ==> o.fired.value == s.lastCursorLine && o.fired.value != editor.value.activeLine)
  {
  }

  /**
   * A fire stamps the clock with `now` and removes exactly the departed line's
   * key; any other cursor event leaves the clock and the index as they were.
   * Enabled, the cursor line always ends at the current line; disabled or with
   * no editor, nothing changes.
   */
  lemma CursorEffects(s: EngineState, editor: Option<Editor>, enabled: bool, now: int)
    ensures var o := CursorMoved(s, editor, enabled, now);
      && o.next.cooldownMs == s.cooldownMs
      && (o.fired.Some? ==>
            && o.next.lastRoastTime == now
            && o.fired.value !in o.next.pending
            && o.next.pending.Keys == s.pending.Keys - {o.fired.value}
            && forall k :: k in o.next.pending ==> o.next.pending[k] == s.pending[k])
      && (o.fired.None? ==> o.next.lastRoastTime == s.lastRoastTime && o.next.pending == s.pending)
      && (editor.Some? && enabled ==> o.next.lastCursorLine == editor.value.activeLine)
      && (editor.None? || !enabled ==> o.next == s)
  {
  }

  // ---------------------------------------------------------------------
  // Document changed

  /** `updatePendingErrors`: with an active editor, the index is replaced by one built from its snapshot. */
  function Reconciled(s: EngineState, editor: Option<Editor>, snapshot: seq<Diagnostic>): (t: EngineState)
    ensures t.lastCursorLine == s.lastCursorLine && t.lastRoastTime == s.lastRoastTime
    ensures t.cooldownMs == s.cooldownMs
    ensures editor.Some? ==> forall d :: d in snapshot && IsError(d) ==> d.line in t.pending
  {
    if editor.None? then s else s.(pending := Index(snapshot))
  }

  /** The document-change handler: only a change to the active editor's document reconciles. */
  function DocumentChanged(s: EngineState, editor: Option<Editor>, changedUri: string,
                           snapshot: seq<Diagnostic>): (t: EngineState)
    ensures t.lastCursorLine == s.lastCursorLine && t.lastRoastTime == s.lastRoastTime
    ensures t.cooldownMs == s.cooldownMs
    ensures editor.None? || changedUri != editor.value.uri ==> t == s
  {
    if editor.None? || changedUri != editor.value.uri then s else Reconciled(s, editor, snapshot)
  }

  /**
   * After a reconcile the index's keys are exactly the snapshot's error lines,
   * so a line without remaining errors is absent and no departure from it can
   * fire, whatever was pending before.
   */
  lemma ReconcileReplaces(s: EngineState, editor: Option<Editor>, snapshot: seq<Diagnostic>,
                          line: int, next: Option<Editor>, enabled: bool, now: int)
    requires editor.Some?
    requires forall d :: d in snapshot && IsError(d) ==> d.line != line
    ensures Reconciled(s, editor, snapshot).pending.Keys == ErrorLines(snapshot)
    ensures line !in Reconciled(s, editor, snapshot).pending
    ensures CursorMoved(Reconciled(s, editor, snapshot), next, enabled, now).fired != Some(line)
  {
    IndexFacts(snapshot);
  }

  /**
   * The index is keyed by line only and shared by all documents: an error
   * armed on line 5 of one document fires at the next cursor event, in
   * whichever document is active, that reports a line other than 5; the
   * roast is addressed to line 5 of that document, which shows it only if
   * the document has such a line.
   */
  lemma IndexIsSharedAcrossDocuments(now: int)
    requires now >= DefaultCooldownMs
    ensures var armed := DiagnosticsChanged(Initial(), Some(Editor("a", 5)), true, ["a"], [Diagnostic(5, "e", Error)]);
      && CursorMoved(armed, Some(Editor("b", 10)), true, now).fired == Some(5)
  {
    var d := Diagnostic(5, "e", Error);
    assert Errors([d]) == [d];
    assert [d][..0] == [];
    assert ArmAll(map[], [d]) == Arm(map[], d);
    assert 5 in Arm(map[], d);
  }

  // ---------------------------------------------------------------------
  // Cooldown setter

  /** What the input box returned: nothing (dismissed or empty), or text parsed to an integer or to NaN. */
  datatype CooldownEntry = Dismissed | Entered(parsed: Option<int>)

  datatype CooldownOutcome = NoInput | Rejected | Accepted(seconds: nat)

  /** The setter's validation: a parsed, non-negative number of seconds is accepted. */
  function ValidateCooldown(entry: CooldownEntry): (outcome: CooldownOutcome)
    ensures outcome.Accepted? ==> entry == Entered(Some(outcome.seconds))
    ensures outcome == NoInput <==> entry == Dismissed
  {
    match entry
    case Dismissed => NoInput
    case Entered(None) => Rejected
    case Entered(Some(n)) => if n >= 0 then Accepted(n) else Rejected
  }

  /**
   * The setter's effect. An accepted value is first written to the
   * `roastCooldown` setting, and the module variable is updated only once
   * that write succeeds (`written`); a rejected write changes nothing.
   */
  function CooldownSet(s: EngineState, entry: CooldownEntry, written: bool): (t: EngineState)
    ensures t.pending == s.pending && t.lastCursorLine == s.lastCursorLine && t.lastRoastTime == s.lastRoastTime
    ensures s.cooldownMs >= 0 ==> t.cooldownMs >= 0
    ensures t.cooldownMs != s.cooldownMs ==> written && ValidateCooldown(entry).Accepted?
  {
    match ValidateCooldown(entry)
    case Accepted(seconds) => if written then s.(cooldownMs := seconds * 1000) else s
    case _ => s
  }

  /**
   * The cooldown changes exactly when the input is a parsed number of seconds
   * that is not negative and the setting write succeeds, and then becomes that
   * many seconds in milliseconds; the prompt's default value
   * (`ROAST_COOLDOWN_MS / 1000`) then shows the seconds just entered. Nothing
   * else in the state changes.
   */
  lemma CooldownSetFacts(s: EngineState, entry: CooldownEntry, written: bool)
    ensures var t := CooldownSet(s, entry, written);
      && (ValidateCooldown(entry).Accepted? <==> entry.Entered? && entry.parsed.Some? && entry.parsed.value >= 0)
      && (ValidateCooldown(entry).Accepted? && written ==>
            t.cooldownMs == entry.parsed.value * 1000 && t.cooldownMs / 1000 == entry.parsed.value)
      && (!ValidateCooldown(entry).Accepted? || !written ==> t == s)
      && t.pending == s.pending && t.lastCursorLine == s.lastCursorLine && t.lastRoastTime == s.lastRoastTime
  {
  }

  // ---------------------------------------------------------------------
  // Invariant

  lemma DiagnosticsChangedPreservesInv(s: EngineState, editor: Option<Editor>, enabled: bool,
                                       eventUris: seq<string>, snapshot: seq<Diagnostic>)
    requires Inv(s)
    ensures Inv(DiagnosticsChanged(s, editor, enabled, eventUris, snapshot))
  {
    ArmAllWellFormed(s.pending, Errors(snapshot));
  }

  lemma CursorMovedPreservesInv(s: EngineState, editor: Option<Editor>, enabled: bool, now: int)
    requires Inv(s)
    ensures Inv(CursorMoved(s, editor, enabled, now).next)
  {
  }

  lemma DocumentChangedPreservesInv(s: EngineState, editor: Option<Editor>, changedUri: string,
                                    snapshot: seq<Diagnostic>)
    requires Inv(s)
    ensures Inv(DocumentChanged(s, editor, changedUri, snapshot))
  {
    IndexFacts(snapshot);
  }

  /**
   * The grouping loop of `updatePendingErrors`, run on a fresh map: each line
   * ends up holding exactly its errors, in order.
   */
  method GroupErrors(errors: seq<Diagnostic>) returns (currentErrorLines: PendingIndex)
    ensures currentErrorLines == ArmAll(map[], errors)
    ensures forall k :: Lookup(currentErrorLines, k) == OnLine(errors, k)
  {
    currentErrorLines := map[];
    var i := 0;
    while i < |errors|
      invariant 0 <= i <= |errors|
      invariant currentErrorLines == ArmAll(map[], errors[..i])
    {
      var error := errors[i];
      var lineNumber := error.line;
      if lineNumber !in currentErrorLines {
        currentErrorLines := currentErrorLines[lineNumber := []];
      }
      currentErrorLines := currentErrorLines[lineNumber := currentErrorLines[lineNumber] + [error]];
      assert errors[..i + 1][..i] == errors[..i];
      i := i + 1;
    }
    assert errors[..i] == errors;
    forall k
      ensures Lookup(currentErrorLines, k) == OnLine(errors, k)
    {
      ArmAllAt(map[], errors, k);
    }
  }

  // ---------------------------------------------------------------------
  // The engine object

  /** The extension's module-level trigger state, updated in place by its handlers. */
  class Engine {
    var pendingErrorLines: PendingIndex
    var lastCursorLine: int
    var lastRoastTime: int
    var roastCooldownMs: int

    function State(): EngineState
      reads this
    {
      EngineState(pendingErrorLines, lastCursorLine, lastRoastTime, roastCooldownMs)
    }

    constructor ()
      ensures State() == Initial() && Inv(State())
    {
      pendingErrorLines := map[];
      lastCursorLine := Unset;
      lastRoastTime := 0;
      roastCooldownMs := DefaultCooldownMs;
    }

    /** Pushes each error onto its line's list, creating the list when absent. */
    method GroupInto(errors: seq<Diagnostic>)
      modifies this
      ensures pendingErrorLines == ArmAll(old(pendingErrorLines), errors)
      ensures lastCursorLine == old(lastCursorLine) && lastRoastTime == old(lastRoastTime)
      ensures roastCooldownMs == old(roastCooldownMs)
    {
      var i := 0;
      while i < |errors|
        invariant 0 <= i <= |errors|
        invariant pendingErrorLines == ArmAll(old(pendingErrorLines), errors[..i])
        invariant lastCursorLine == old(lastCursorLine) && lastRoastTime == old(lastRoastTime)
        invariant roastCooldownMs == old(roastCooldownMs)
      {
        var error := errors[i];
        var lineNumber := error.line;
        if lineNumber !in pendingErrorLines {
          pendingErrorLines := pendingErrorLines[lineNumber := []];
        }
        pendingErrorLines := pendingErrorLines[lineNumber := pendingErrorLines[lineNumber] + [error]];
        assert errors[..i + 1][..i] == errors[..i];
        i := i + 1;
      }
      assert errors[..i] == errors;
    }

    /** The diagnostics-changed handler; `snapshot` is the active document's current diagnostics. */
    method OnDiagnosticsChanged(editor: Option<Editor>, enabled: bool, eventUris: seq<string>,
                                snapshot: seq<Diagnostic>)
      requires Inv(State())
      modifies this
      ensures State() == DiagnosticsChanged(old(State()), editor, enabled, eventUris, snapshot)
      ensures Inv(State())
    {
      DiagnosticsChangedPreservesInv(State(), editor, enabled, eventUris, snapshot);
      if editor.None? {
        return;
      }
      if !enabled {
        return;
      }
      var uri := editor.value.uri;
      if uri !in eventUris {
        return;
      }
      var errors := Errors(snapshot);
      if |errors| > 0 {
        GroupInto(errors);
        lastCursorLine := editor.value.activeLine;
      }
    }

    /** The selection-changed handler; returns the line to roast, if any. */
    method OnCursorMoved(editor: Option<Editor>, enabled: bool, now: int) returns (fired: Option<int>)
      requires Inv(State())
      modifies this
      ensures CursorMoved(old(State()), editor, enabled, now) == CursorOutcome(State(), fired)
      ensures Inv(State())
    {
      CursorMovedPreservesInv(State(), editor, enabled, now);
      fired := None;
      if editor.None? {
        return;
      }
      if !enabled {
        return;
      }
      var currentLine := editor.value.activeLine;
      if lastCursorLine != Unset && currentLine != lastCursorLine && lastCursorLine in pendingErrorLines {
        if now - lastRoastTime >= roastCooldownMs {
          lastRoastTime := now;
          fired := Some(lastCursorLine);
          pendingErrorLines := pendingErrorLines - {lastCursorLine};
        }
      }
      lastCursorLine := currentLine;
    }

    /** `updatePendingErrors`: builds a fresh index from the snapshot and replaces the old one. */
    method UpdatePendingErrors(editor: Option<Editor>, snapshot: seq<Diagnostic>)
      modifies this
      ensures State() == Reconciled(old(State()), editor, snapshot)
    {
      if editor.None? {
        return;
      }
      var errors := Errors(snapshot);
      var currentErrorLines := GroupErrors(errors);
      pendingErrorLines := currentErrorLines;
    }

    /** The document-changed handler; it does not consult the enabled setting. */
    method OnDocumentChanged(editor: Option<Editor>, changedUri: string, snapshot: seq<Diagnostic>)
      requires Inv(State())
      modifies this
      ensures State() == DocumentChanged(old(State()), editor, changedUri, snapshot)
      ensures Inv(State())
    {
      DocumentChangedPreservesInv(State(), editor, changedUri, snapshot);
      if editor.None? || changedUri != editor.value.uri {
        return;
      }
      UpdatePendingErrors(editor, snapshot);
    }

    /**
     * The set-cooldown command: `outcome` is the validation result (an error
     * message is shown for `Rejected`); `written` is whether the host accepted
     * the write of the `roastCooldown` setting, on whose success the cooldown
     * is updated.
     */
    method SetCooldown(entry: CooldownEntry, written: bool) returns (outcome: CooldownOutcome)
      requires Inv(State())
      modifies this
      ensures outcome == ValidateCooldown(entry)
      ensures State() == CooldownSet(old(State()), entry, written)
      ensures Inv(State())
    {
      outcome := NoInput;
      if entry.Entered? {
        var parsed := entry.parsed;
        if parsed.Some? && parsed.value >= 0 {
          outcome := Accepted(parsed.value);
          if written {
            roastCooldownMs := parsed.value * 1000;
          }
        } else {
          outcome := Rejected;
        }
      }
    }

    /**
     * The manual trigger command: roasts the cursor line of the active
     * editor, bypassing the departure test, the pending index and the
     * cooldown; it changes no engine state.
     */
    method TriggerRoast(editor: Option<Editor>) returns (line: Option<int>)
      ensures line.Some? <==> editor.Some?
      ensures line.Some? ==> line.value == editor.value.activeLine
    {
      if editor.None? {
        return None;
      }
      line := Some(editor.value.activeLine);
    }
  }
}
