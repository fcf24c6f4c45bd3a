/**
 * Runs of the trigger engine over a sequence of host events, and what holds
 * of every run: the invariant, the spacing of automatic roasts by the
 * cooldown, consumption of a fired line, and the disabled gate.
 */
module Trace {
  import opened Wrappers
  import opened Diagnostics
  import opened Engine

  /** The notifications and commands that change engine state. */
  datatype Event =
    | DiagnosticsEvent(editor: Option<Editor>, enabled: bool, eventUris: seq<string>, snapshot: seq<Diagnostic>)
    | CursorEvent(editor: Option<Editor>, enabled: bool, now: int)
    | DocumentEvent(editor: Option<Editor>, changedUri: string, snapshot: seq<Diagnostic>)
    | CooldownEvent(entry: CooldownEntry, written: bool)

  /** An automatic roast: the line, the time it fired and the cooldown it was gated by. */
  datatype Fire = Fire(line: int, time: int, cooldownMs: int)

  datatype StepResult = StepResult(next: EngineState, fire: Option<Fire>)

  function Step(s: EngineState, e: Event): StepResult {
    match e
    case DiagnosticsEvent(editor, enabled, uris, snapshot) =>
      StepResult(DiagnosticsChanged(s, editor, enabled, uris, snapshot), None)
    case CursorEvent(editor, enabled, now) =>
      var o := CursorMoved(s, editor, enabled, now);
      StepResult(o.next, if o.fired.Some? then Some(Fire(o.fired.value, now, s.cooldownMs)) else None)
    case DocumentEvent(editor, uri, snapshot) =>
      StepResult(DocumentChanged(s, editor, uri, snapshot), None)
    case CooldownEvent(entry, written) =>
      StepResult(CooldownSet(s, entry, written), None)
  }

  datatype Run = Run(final: EngineState, fires: seq<Fire>)

  /** The state after `events`, in order, and the roasts they fired, in order. */
  function RunFrom(s: EngineState, events: seq<Event>): Run {
    if events == [] then Run(s, [])
    else
      var r := RunFrom(s, events[..|events| - 1]);
      var st := Step(r.final, events[|events| - 1]);
      Run(st.next, r.fires + (if st.fire.Some? then [st.fire.value] else []))
  }

  lemma StepPreservesInv(s: EngineState, e: Event)
    requires Inv(s)
    ensures Inv(Step(s, e).next)
  {
    match e
    case DiagnosticsEvent(editor, enabled, uris, snapshot) =>
      DiagnosticsChangedPreservesInv(s, editor, enabled, uris, snapshot);
    case CursorEvent(editor, enabled, now) =>
      CursorMovedPreservesInv(s, editor, enabled, now);
    case DocumentEvent(editor, uri, snapshot) =>
      DocumentChangedPreservesInv(s, editor, uri, snapshot);
    case CooldownEvent(entry, written) =>
  }

  /** A fire is stamped with its time, gated by the cooldown then in force, on a state it leaves stamped. */
  lemma StepFire(s: EngineState, e: Event)
    requires Inv(s)
    ensures var st := Step(s, e);
      && (st.fire.Some? ==>
            && st.fire.value.cooldownMs == s.cooldownMs >= 0
            && st.fire.value.time - s.lastRoastTime >= s.cooldownMs
            && st.next.lastRoastTime == st.fire.value.time)
      && (st.fire.None? ==> st.next.lastRoastTime == s.lastRoastTime)
  {
  }

  /**
   * Every run keeps the invariant, and its automatic roasts are spaced by the
   * cooldown: each is at least its cooldown after the clock's starting value
   * and after every earlier roast of the run, and the clock ends at the time
   * of the last one.
   */
  lemma {:induction false} RunFacts(s: EngineState, events: seq<Event>)
    requires Inv(s)
    ensures var r := RunFrom(s, events);
      && Inv(r.final)
      && (forall j :: 0 <= j < |r.fires| ==> r.fires[j].cooldownMs >= 0)
      && (forall j :: 0 <= j < |r.fires| ==> r.fires[j].time - s.lastRoastTime >= r.fires[j].cooldownMs)
      && (forall i, j :: 0 <= i < j < |r.fires| ==> r.fires[j].time - r.fires[i].time >= r.fires[j].cooldownMs)
      && r.final.lastRoastTime == (if r.fires == [] then s.lastRoastTime else r.fires[|r.fires| - 1].time)
  {
    if events != [] {
      var init := events[..|events| - 1];
      RunFacts(s, init);
      var r := RunFrom(s, init);
      StepPreservesInv(r.final, events[|events| - 1]);
      StepFire(r.final, events[|events| - 1]);
    }
  }

  /** With a cooldown that stays fixed, any two automatic roasts are at least that cooldown apart. */
  lemma CooldownSpacing(s: EngineState, events: seq<Event>, i: nat, j: nat)
    requires Inv(s)
    requires forall e :: e in events ==> !e.CooldownEvent?
    requires i < j < |RunFrom(s, events).fires|
    ensures RunFrom(s, events).fires[j].time - RunFrom(s, events).fires[i].time >= s.cooldownMs
  {
    RunFacts(s, events);
    FixedCooldown(s, events);
  }

  /** Without a cooldown command, the cooldown never changes and gates every roast of the run. */
  lemma {:induction false} FixedCooldown(s: EngineState, events: seq<Event>)
    requires forall e :: e in events ==> !e.CooldownEvent?
    ensures RunFrom(s, events).final.cooldownMs == s.cooldownMs
    ensures forall f :: f in RunFrom(s, events).fires ==> f.cooldownMs == s.cooldownMs
  {
    if events != [] {
      var init := events[..|events| - 1];
      assert forall e :: e in init ==> e in events;
      FixedCooldown(s, init);
    }
  }

  /** With the extension disabled at every cursor event, a run fires nothing. */
  lemma {:induction false} DisabledNeverFires(s: EngineState, events: seq<Event>)
    requires forall e :: e in events && e.CursorEvent? ==> !e.enabled
    ensures RunFrom(s, events).fires == []
  {
    if events != [] {
      var init := events[..|events| - 1];
      assert forall e :: e in init ==> e in events;
      DisabledNeverFires(s, init);
    }
  }

  /**
   * A line without a pending entry stays without one, and is never roasted,
   * as long as no diagnostics or document change re-arms it: a fired line is
   * consumed, and leaving it again cannot fire again without new errors.
   */
  lemma {:induction false} ConsumedLineStaysQuiet(s: EngineState, events: seq<Event>, line: int)
    requires line !in s.pending
    requires forall e :: e in events ==> e.CursorEvent? || e.CooldownEvent?
    ensures line !in RunFrom(s, events).final.pending
    ensures forall f :: f in RunFrom(s, events).fires ==> f.line != line
  {
    if events != [] {
      var init := events[..|events| - 1];
      assert forall e :: e in init ==> e in events;
      ConsumedLineStaysQuiet(s, init, line);
      var e := events[|events| - 1];
      if e.CursorEvent? {
        CursorEffects(RunFrom(s, init).final, e.editor, e.enabled, e.now);
      }
    }
  }

  /** A fire consumes its line, so the repeated departures that follow cannot roast it again. */
  lemma FireThenQuiet(s: EngineState, e: Event, rest: seq<Event>)
    requires Step(s, e).fire.Some?
    requires forall x :: x in rest ==> x.CursorEvent? || x.CooldownEvent?
    ensures forall f :: f in RunFrom(Step(s, e).next, rest).fires ==> f.line != Step(s, e).fire.value.line
  {
    ConsumedLineStaysQuiet(Step(s, e).next, rest, Step(s, e).fire.value.line);
  }

  /**
   * An error on line 2 arrives with the cursor on line 2; the cursor then
   * reports line 2 again and then line 9, ten seconds after the last roast
   * with the default cooldown: exactly one roast fires, for line 2, and line 2
   * is no longer pending.
   */
  lemma ScenarioDepartureFiresOnce(t: int)
    ensures var d := Diagnostic(2, "x undefined", Error);
      var s := Initial().(lastRoastTime := t);
      var events := [
        DiagnosticsEvent(Some(Editor("file", 2)), true, ["file"], [d]),
        CursorEvent(Some(Editor("file", 2)), true, t + 5000),
        CursorEvent(Some(Editor("file", 9)), true, t + 10000)];
      var r := RunFrom(s, events);
      && r.fires == [Fire(2, t + 10000, DefaultCooldownMs)]
      && 2 !in r.final.pending
      && r.final.lastCursorLine == 9
  {
    var d := Diagnostic(2, "x undefined", Error);
    var s := Initial().(lastRoastTime := t);
    var events := [
      DiagnosticsEvent(Some(Editor("file", 2)), true, ["file"], [d]),
      CursorEvent(Some(Editor("file", 2)), true, t + 5000),
      CursorEvent(Some(Editor("file", 9)), true, t + 10000)];
    assert events[..2][..1] == events[..1];
    assert events[..1][..0] == [];
    assert Errors([d]) == [d];
    assert [d][..0] == [];
    assert ArmAll(map[], []) == map[];
    assert Lookup(map[], 2) + [d] == [d];
    assert Arm(map[], d) == map[2 := [d]];
    assert ArmAll(map[], [d]) == map[2 := [d]];
    assert "file" in ["file"];
    assert RunFrom(s, events[..0]) == Run(s, []);
    assert DiagnosticsChanged(s, Some(Editor("file", 2)), true, ["file"], [d])
        == s.(pending := map[2 := [d]], lastCursorLine := 2);
    var s1 := RunFrom(s, events[..1]).final;
    assert s1 == s.(pending := map[2 := [d]], lastCursorLine := 2);
    var s2 := RunFrom(s, events[..2]);
    assert s2.final == s1 && s2.fires == [];
  }
}
