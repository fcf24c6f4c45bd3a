/**
 * Host diagnostics and the pending-error index built from them: the map from
 * a line number to the error-severity diagnostics waiting on that line
 * (`pendingErrorLines` in the extension).
 */
module Diagnostics {

  /** The host's diagnostic severities; only `Error` takes part in roasting. */
  datatype Severity = Error | Warning | Information | Hint

  /** A host diagnostic; `line` is the start line of its range (zero-based). */
  datatype Diagnostic = Diagnostic(line: nat, message: string, severity: Severity)

  /** Line number to the diagnostics pending on that line, in arrival order. */
  type PendingIndex = map<int, seq<Diagnostic>>

  predicate IsError(d: Diagnostic) {
    d.severity == Error
  }

  /**
   * The error-severity diagnostics of `ds`, in their original order: the
   * `filter` on severity that both handlers apply to a snapshot.
   */
  function Errors(ds: seq<Diagnostic>): (r: seq<Diagnostic>)
    ensures |r| <= |ds|
    ensures forall d :: d in r <==> d in ds && IsError(d)
  {
    if ds == [] then []
    else
      assert ds == [ds[0]] + ds[1..];
      (if IsError(ds[0]) then [ds[0]] else []) + Errors(ds[1..])
  }

  /** Filtering distributes over concatenation, so it keeps the order of the input. */
  lemma {:induction false} ErrorsAppend(a: seq<Diagnostic>, b: seq<Diagnostic>)
    ensures Errors(a + b) == Errors(a) + Errors(b)
  {
    if a == [] {
      assert a + b == b;
    } else {
      assert (a + b)[0] == a[0];
      assert (a + b)[1..] == a[1..] + b;
      ErrorsAppend(a[1..], b);
    }
  }

  /** Reference definition: the diagnostics of `s` whose start line is `k`, in order. */
  function OnLine(s: seq<Diagnostic>, k: int): (r: seq<Diagnostic>)
    ensures forall d :: d in r ==> d in s && d.line == k
  {
    if s == [] then []
    else OnLine(s[..|s| - 1], k) + (if s[|s| - 1].line == k then [s[|s| - 1]] else [])
  }

  lemma {:induction false} OnLineEmpty(s: seq<Diagnostic>, k: int)
    ensures OnLine(s, k) == [] <==> forall d :: d in s ==> d.line != k
  {
    if s != [] {
      var init := s[..|s| - 1];
      assert s == init + [s[|s| - 1]];
      OnLineEmpty(init, k);
    }
  }

  /** The entry for `k`, or the empty list when `k` has none. */
  function Lookup(m: PendingIndex, k: int): seq<Diagnostic> {
    if k in m then m[k] else []
  }

  /** One step of the grouping loop: create the entry if absent, then push `d` onto it. */
  function Arm(m: PendingIndex, d: Diagnostic): (r: PendingIndex)
    ensures r.Keys == m.Keys + {d.line}
    ensures forall k :: k in m && k != d.line ==> r[k] == m[k]
    ensures r[d.line] == Lookup(m, d.line) + [d]
  {
    m[d.line := Lookup(m, d.line) + [d]]
  }

  /** The grouping loop: `errs` pushed one by one, in order, onto `m`. */
  function ArmAll(m: PendingIndex, errs: seq<Diagnostic>): (r: PendingIndex)
    ensures m.Keys <= r.Keys
    ensures forall i :: 0 <= i < |errs| ==> errs[i].line in r
  {
    if errs == [] then m
    else Arm(ArmAll(m, errs[..|errs| - 1]), errs[|errs| - 1])
  }

  /**
   * Grouping appends to every line exactly that line's diagnostics, in
   * order, after what was already there, and creates a key exactly for the
   * lines that receive something.
   */
  lemma {:induction false} ArmAllAt(m: PendingIndex, errs: seq<Diagnostic>, k: int)
    ensures Lookup(ArmAll(m, errs), k) == Lookup(m, k) + OnLine(errs, k)
    ensures k in ArmAll(m, errs) <==> k in m || OnLine(errs, k) != []
  {
    if errs != [] {
      ArmAllAt(m, errs[..|errs| - 1], k);
    }
  }

  /**
   * The index invariant: every key holds a non-empty list, and every entry
   * in it is an error that starts on that key's line.
   */
  ghost predicate WellFormed(m: PendingIndex) {
    forall k :: k in m ==> m[k] != [] && forall d :: d in m[k] ==> d.line == k && IsError(d)
  }

  lemma {:induction false} ArmAllWellFormed(m: PendingIndex, errs: seq<Diagnostic>)
    requires WellFormed(m)
    requires forall d :: d in errs ==> IsError(d)
    ensures WellFormed(ArmAll(m, errs))
  {
    if errs != [] {
      var init := errs[..|errs| - 1];
      assert forall d :: d in init ==> d in errs;
      ArmAllWellFormed(m, init);
    }
  }

  /** Pushing the same errors twice leaves each line holding them twice: duplicates accumulate. */
  lemma DuplicatesAccumulate(m: PendingIndex, errs: seq<Diagnostic>, k: int)
    ensures Lookup(ArmAll(ArmAll(m, errs), errs), k) == Lookup(m, k) + OnLine(errs, k) + OnLine(errs, k)
  {
    ArmAllAt(m, errs, k);
    ArmAllAt(ArmAll(m, errs), errs, k);
  }

  /** The index rebuilt from scratch from a snapshot (`updatePendingErrors`). */
  function Index(snapshot: seq<Diagnostic>): (r: PendingIndex)
    ensures forall d :: d in snapshot && IsError(d) ==> d.line in r
  {
    ArmAll(map[], Errors(snapshot))
  }

  /** The start lines of the error-severity diagnostics of a snapshot. */
  ghost function ErrorLines(snapshot: seq<Diagnostic>): set<int> {
    set d | d in snapshot && IsError(d) :: d.line
  }

  lemma IndexAt(snapshot: seq<Diagnostic>, k: int)
    ensures Lookup(Index(snapshot), k) == OnLine(Errors(snapshot), k)
    ensures k in Index(snapshot) <==> exists d :: d in snapshot && IsError(d) && d.line == k
  {
    var errs := Errors(snapshot);
    ArmAllAt(map[], errs, k);
    OnLineEmpty(errs, k);
  }

  /**
   * A rebuilt index has exactly the error lines of the snapshot as keys,
   * each holding that line's errors in snapshot order, and is well formed.
   */
  lemma IndexFacts(snapshot: seq<Diagnostic>)
    ensures Index(snapshot).Keys == ErrorLines(snapshot)
    ensures forall k :: Lookup(Index(snapshot), k) == OnLine(Errors(snapshot), k)
    ensures WellFormed(Index(snapshot))
  {
    forall k
      ensures Lookup(Index(snapshot), k) == OnLine(Errors(snapshot), k)
      ensures k in Index(snapshot).Keys <==> k in ErrorLines(snapshot)
    {
      IndexAt(snapshot, k);
      if k in Index(snapshot) {
        var d :| d in snapshot && IsError(d) && d.line == k;
        assert d.line in ErrorLines(snapshot);
      }
    }
    assert forall k: int :: k in Index(snapshot).Keys <==> k in ErrorLines(snapshot);
    assert Index(snapshot).Keys <= ErrorLines(snapshot);
    assert ErrorLines(snapshot) <= Index(snapshot).Keys;
    ArmAllWellFormed(map[], Errors(snapshot));
  }
}
