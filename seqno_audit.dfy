/** The delivery audit at the end of the bounce test. The verifiable source
    and sink connectors report one record per message: the task that handled
    it, its sequence number, and (sink side) whether the sink had flushed it.
    Sequence numbers are only unique within a task, so the audit runs task by
    task, collecting errors and clearing a success flag. */
module SeqnoAudit {
  import opened Common

  /** One reported message; `flushed` stands for the record carrying the
      `flushed` key. */
  datatype Message = Message(task: nat, seqno: nat, flushed: bool)

  datatype Side = Source | Sink

  /** The audit's findings, one constructor per appended error message. */
  datatype AuditError =
    | MissingSeqnos(side: Side, task: nat, seqnos: seq<nat>)
    | DuplicateSeqnos(side: Side, task: nat, seqnos: seq<nat>)
    | SinkAhead(task: nat, sinkMax: nat, srcMax: nat)
    | TooFewMessages(srcMax: nat, sinkMax: nat)

  /** Either the loop ran to the end, or `max()` raised on a task with no
      sequence numbers on one side, which aborts the audit. */
  datatype Outcome =
    | Completed(success: bool, errors: seq<AuditError>)
    | EmptySeqnos(side: Side, task: nat)

  /** The least value each side's largest sequence number must reach. */
  const MinMessages: nat := 1000

  /** A record counts for `task` on the source side when it is that task's;
      on the sink side it must also be flushed. */
  predicate Counted(m: Message, task: nat, side: Side) {
    m.task == task && (side == Sink ==> m.flushed)
  }

  /** `[msg['seqno'] for msg in messages if ...]` for one task and side. */
  function Seqnos(messages: seq<Message>, task: nat, side: Side): (r: seq<nat>)
    ensures |r| <= |messages|
  {
    if messages == [] then []
    else
      var rest := Seqnos(messages[1..], task, side);
      if Counted(messages[0], task, side) then [messages[0].seqno] + rest else rest
  }

  /** The sequence numbers collected are exactly those of the counted records. */
  lemma {:induction false} SeqnosMembers(messages: seq<Message>, task: nat, side: Side)
    ensures forall x :: x in Seqnos(messages, task, side) <==>
      exists i :: 0 <= i < |messages| && Counted(messages[i], task, side) && messages[i].seqno == x
  {
    if messages != [] {
      SeqnosMembers(messages[1..], task, side);
      assert forall i :: 1 <= i < |messages| ==> messages[i] == messages[1..][i - 1];
    }
  }

  /** A single record contributes its sequence number exactly when it counts. */
  lemma SeqnosSingle(m: Message, task: nat, side: Side)
    ensures Seqnos([m], task, side) == if Counted(m, task, side) then [m.seqno] else []
  {
    assert [m][1..] == [];
  }

  /** The comprehension keeps the records' order: collecting over a
      concatenation collects over each part in turn. With `SeqnosSingle` this
      fixes the collected sequence, order and repeats included. */
  lemma {:induction false} SeqnosAppend(a: seq<Message>, b: seq<Message>, task: nat, side: Side)
    ensures Seqnos(a + b, task, side) == Seqnos(a, task, side) + Seqnos(b, task, side)
  {
    if a == [] {
      assert a + b == b;
    } else {
      assert (a + b)[1..] == a[1..] + b;
      SeqnosAppend(a[1..], b, task, side);
    }
  }

  /** `max(s)`. */
  function Max(s: seq<nat>): nat
    requires s != []
  {
    if |s| == 1 then s[0]
    else if s[0] < Max(s[1..]) then Max(s[1..]) else s[0]
  }

  /** `Max` is an element of `s` and no element exceeds it. */
  lemma {:induction false} MaxIsGreatest(s: seq<nat>)
    requires s != []
    ensures Max(s) in s
    ensures forall i :: 0 <= i < |s| ==> s[i] <= Max(s)
  {
    if |s| > 1 {
      MaxIsGreatest(s[1..]);
      assert forall i :: 1 <= i < |s| ==> s[i] == s[1..][i - 1];
    }
  }

  /** Ascending with no value twice, as `sorted` of a set gives. */
  predicate StrictlyIncreasing(s: seq<nat>) {
    forall i, j :: 0 <= i < j < |s| ==> s[i] < s[j]
  }

  /** `sorted(set(range(n)).difference(set(s)))`: the values below `n` that
      `s` lacks, in ascending order. */
  function MissingBelow(s: seq<nat>, n: nat): seq<nat> {
    if n == 0 then []
    else if n - 1 in s then MissingBelow(s, n - 1)
    else MissingBelow(s, n - 1) + [n - 1]
  }

  /** `MissingBelow(s, n)` holds exactly the values below `n` that `s` lacks,
      ascending and each once. */
  lemma {:induction false} MissingBelowExact(s: seq<nat>, n: nat)
    ensures StrictlyIncreasing(MissingBelow(s, n))
    ensures forall x: nat :: x in MissingBelow(s, n) <==> x < n && x !in s
  {
    if n > 0 {
      MissingBelowExact(s, n - 1);
      var r := MissingBelow(s, n - 1);
      assert forall i :: 0 <= i < |r| ==> r[i] < n - 1 by {
        forall i | 0 <= i < |r| ensures r[i] < n - 1 { assert r[i] in r; }
      }
    }
  }

  /** The values below `n` that occur more than once in `s`, ascending. */
  function RepeatedBelow(s: seq<nat>, n: nat): seq<nat> {
    if n == 0 then []
    else if multiset(s)[n - 1] > 1 then RepeatedBelow(s, n - 1) + [n - 1]
    else RepeatedBelow(s, n - 1)
  }

  /** `RepeatedBelow(s, n)` holds exactly the values below `n` that occur
      more than once in `s`, ascending and each once. */
  lemma {:induction false} RepeatedBelowExact(s: seq<nat>, n: nat)
    ensures StrictlyIncreasing(RepeatedBelow(s, n))
    ensures forall x: nat :: x in RepeatedBelow(s, n) <==> x < n && multiset(s)[x] > 1
  {
    if n > 0 {
      RepeatedBelowExact(s, n - 1);
      var r := RepeatedBelow(s, n - 1);
      assert forall i :: 0 <= i < |r| ==> r[i] < n - 1 by {
        forall i | 0 <= i < |r| ensures r[i] < n - 1 { assert r[i] in r; }
      }
    }
  }

  /** `sorted([seqno for seqno, count in Counter(s).iteritems() if count > 1])`:
      the values occurring more than once in `s`, ascending. */
  function Duplicates(s: seq<nat>): seq<nat> {
    if s == [] then [] else RepeatedBelow(s, Max(s) + 1)
  }

  /** `Duplicates(s)` holds exactly the values occurring more than once in
      `s`, ascending and each once. */
  lemma DuplicatesExact(s: seq<nat>)
    ensures StrictlyIncreasing(Duplicates(s))
    ensures forall x: nat :: x in Duplicates(s) <==> multiset(s)[x] > 1
  {
    if s != [] {
      MaxIsGreatest(s);
      RepeatedBelowExact(s, Max(s) + 1);
      assert forall x :: multiset(s)[x] > 0 ==> x in s && x < Max(s) + 1;
    }
  }

  /** What one side of one task must satisfy for the audit to report
      nothing about it: no gap below its maximum, and no duplicates unless
      they are allowed. */
  ghost predicate SidePasses(s: seq<nat>, allowDups: bool)
    requires s != []
  {
    && (forall x: nat :: x < Max(s) ==> x in s)
    && (!allowDups ==> forall x: nat :: multiset(s)[x] <= 1)
  }

  /** What one task must satisfy for the audit to report nothing about it:
      both sides pass, the sink is not ahead of the source, and both maxima
      reach `MinMessages`. */
  ghost predicate TaskPasses(src: seq<nat>, sink: seq<nat>, allowDups: bool)
    requires src != [] && sink != []
  {
    && SidePasses(src, allowDups)
    && SidePasses(sink, allowDups)
    && Max(sink) <= Max(src)
    && MinMessages <= Max(src)
    && MinMessages <= Max(sink)
  }

  /** The errors appended for one side of one task: its missing sequence
      numbers, then (only when duplicates are not allowed) its duplicates. */
  function SideErrors(side: Side, task: nat, s: seq<nat>, allowDups: bool): (r: seq<AuditError>)
    requires s != []
    ensures |r| <= 2
  {
    var missing, duplicates := MissingBelow(s, Max(s)), Duplicates(s);
    (if missing != [] then [MissingSeqnos(side, task, missing)] else [])
    + (if !allowDups && duplicates != [] then [DuplicateSeqnos(side, task, duplicates)] else [])
  }

  /** One side reports nothing exactly when it passes. */
  lemma SideErrorsEmpty(side: Side, task: nat, s: seq<nat>, allowDups: bool)
    requires s != []
    ensures SideErrors(side, task, s, allowDups) == [] <==> SidePasses(s, allowDups)
  {
    var missing, duplicates := MissingBelow(s, Max(s)), Duplicates(s);
    MissingBelowExact(s, Max(s));
    DuplicatesExact(s);
    assert missing == [] <==> forall x: nat :: x < Max(s) ==> x in s by {
      if missing != [] { assert missing[0] in missing; }
    }
    assert duplicates == [] <==> forall x: nat :: multiset(s)[x] <= 1 by {
      if duplicates != [] { assert duplicates[0] in duplicates; }
    }
  }

  /** One side reports only missing and duplicate sequence numbers, and only
      for its own side and task. */
  lemma SideErrorsKinds(side: Side, task: nat, s: seq<nat>, allowDups: bool)
    requires s != []
    ensures forall e :: e in SideErrors(side, task, s, allowDups) ==>
      (e.MissingSeqnos? || e.DuplicateSeqnos?) && e.side == side && e.task == task
  {
  }

  /** A missing-numbers error is reported exactly when some value below the
      side's maximum is absent, whatever else is reported; the numbers it
      carries are exactly those values, ascending, so the maximum itself is
      never reported missing. */
  lemma SideErrorsMissing(side: Side, task: nat, s: seq<nat>, allowDups: bool)
    requires s != []
    ensures (exists x: nat :: x < Max(s) && x !in s) <==>
      exists e :: e in SideErrors(side, task, s, allowDups) && e.MissingSeqnos?
    ensures forall e :: e in SideErrors(side, task, s, allowDups) && e.MissingSeqnos? ==>
      StrictlyIncreasing(e.seqnos) && forall x: nat :: x in e.seqnos <==> x < Max(s) && x !in s
  {
    var missing := MissingBelow(s, Max(s));
    var r := SideErrors(side, task, s, allowDups);
    MissingBelowExact(s, Max(s));
    if exists x: nat :: x < Max(s) && x !in s {
      var x: nat :| x < Max(s) && x !in s;
      assert x in missing;
      assert r[0] == MissingSeqnos(side, task, missing);
    }
    if exists e :: e in r && e.MissingSeqnos? {
      var e :| e in r && e.MissingSeqnos?;
      assert e.seqnos == missing;
      assert missing[0] in missing;
    }
  }

  /** A side reports a duplicate error exactly when duplicates are not
      allowed and `Duplicates` is non-empty, and the error carries that list. */
  lemma DuplicateReported(side: Side, task: nat, s: seq<nat>, allowDups: bool)
    requires s != []
    ensures (!allowDups && Duplicates(s) != []) <==>
      exists e :: e in SideErrors(side, task, s, allowDups) && e.DuplicateSeqnos?
    ensures forall e :: e in SideErrors(side, task, s, allowDups) && e.DuplicateSeqnos? ==>
      !allowDups && e.seqnos == Duplicates(s)
  {
    var missing, duplicates := MissingBelow(s, Max(s)), Duplicates(s);
    var first := if missing != [] then [MissingSeqnos(side, task, missing)] else [];
    var r := SideErrors(side, task, s, allowDups);
    if !allowDups && duplicates != [] {
      assert r == first + [DuplicateSeqnos(side, task, duplicates)];
      assert DuplicateSeqnos(side, task, duplicates) in r;
    } else {
      assert r == first;
    }
  }

  /** A duplicate error is reported exactly when duplicates are not allowed
      and some value occurs more than once, whatever else is reported; the
      numbers it carries are exactly the values the side holds more than
      once, ascending. */
  lemma SideErrorsDuplicates(side: Side, task: nat, s: seq<nat>, allowDups: bool)
    requires s != []
    ensures (!allowDups && exists x: nat :: multiset(s)[x] > 1) <==>
      exists e :: e in SideErrors(side, task, s, allowDups) && e.DuplicateSeqnos?
    ensures forall e :: e in SideErrors(side, task, s, allowDups) && e.DuplicateSeqnos? ==>
      !allowDups && StrictlyIncreasing(e.seqnos) && forall x: nat :: x in e.seqnos <==> multiset(s)[x] > 1
  {
    var duplicates := Duplicates(s);
    DuplicateReported(side, task, s, allowDups);
    DuplicatesExact(s);
    assert duplicates != [] <==> exists x: nat :: multiset(s)[x] > 1 by {
      if duplicates != [] {
        var x: nat := duplicates[0];
        assert x in duplicates;
      }
      if exists x: nat :: multiset(s)[x] > 1 {
        var x: nat :| multiset(s)[x] > 1;
        assert x in duplicates;
      }
    }
  }

  /** Each kind of error is reported at most once per side: one for the
      gaps, when there are any, and one for the duplicates, when they are
      disallowed and present. */
  lemma SideErrorsCount(side: Side, task: nat, s: seq<nat>, allowDups: bool)
    requires s != []
    ensures |SideErrors(side, task, s, allowDups)| ==
      (if exists x: nat :: x < Max(s) && x !in s then 1 else 0)
      + (if !allowDups && exists x: nat :: multiset(s)[x] > 1 then 1 else 0)
  {
    var missing, duplicates := MissingBelow(s, Max(s)), Duplicates(s);
    MissingBelowExact(s, Max(s));
    DuplicatesExact(s);
    assert missing != [] <==> exists x: nat :: x < Max(s) && x !in s by {
      if missing != [] {
        var x: nat := missing[0];
        assert x in missing;
      }
      if exists x: nat :: x < Max(s) && x !in s {
        var x: nat :| x < Max(s) && x !in s;
        assert x in missing;
      }
    }
    assert duplicates != [] <==> exists x: nat :: multiset(s)[x] > 1 by {
      if duplicates != [] {
        var x: nat := duplicates[0];
        assert x in duplicates;
      }
      if exists x: nat :: multiset(s)[x] > 1 {
        var x: nat :| multiset(s)[x] > 1;
        assert x in duplicates;
      }
    }
  }

  /** The errors appended after comparing the two maxima of one task. */
  function MatchErrors(task: nat, srcMax: nat, sinkMax: nat): (r: seq<AuditError>)
    ensures r == [] <==> sinkMax <= srcMax && MinMessages <= srcMax && MinMessages <= sinkMax
    ensures forall e :: e in r ==> e == SinkAhead(task, sinkMax, srcMax) || e == TooFewMessages(srcMax, sinkMax)
    ensures |r| == (if sinkMax > srcMax then 1 else 0) + (if srcMax < MinMessages || sinkMax < MinMessages then 1 else 0)
    ensures SinkAhead(task, sinkMax, srcMax) in r <==> sinkMax > srcMax
    ensures TooFewMessages(srcMax, sinkMax) in r <==> srcMax < MinMessages || sinkMax < MinMessages
  {
    (if sinkMax > srcMax then [SinkAhead(task, sinkMax, srcMax)] else [])
    + (if srcMax < MinMessages || sinkMax < MinMessages then [TooFewMessages(srcMax, sinkMax)] else [])
  }

  /** The errors the loop body appends for one task, in order. */
  function TaskErrors(task: nat, src: seq<nat>, sink: seq<nat>, allowDups: bool): (r: seq<AuditError>)
    requires src != [] && sink != []
    ensures |r| <= 6
  {
    SideErrors(Source, task, src, allowDups) + SideErrors(Sink, task, sink, allowDups)
      + MatchErrors(task, Max(src), Max(sink))
  }

  /** A task reports nothing exactly when it passes. */
  lemma TaskErrorsEmpty(task: nat, src: seq<nat>, sink: seq<nat>, allowDups: bool)
    requires src != [] && sink != []
    ensures TaskErrors(task, src, sink, allowDups) == [] <==> TaskPasses(src, sink, allowDups)
  {
    var a, b := SideErrors(Source, task, src, allowDups), SideErrors(Sink, task, sink, allowDups);
    SideErrorsEmpty(Source, task, src, allowDups);
    SideErrorsEmpty(Sink, task, sink, allowDups);
    ConcatEmpty(a, b);
    ConcatEmpty(a + b, MatchErrors(task, Max(src), Max(sink)));
  }

  /** With duplicates allowed, a task never reports any. */
  lemma TaskErrorsNoDuplicates(task: nat, src: seq<nat>, sink: seq<nat>)
    requires src != [] && sink != []
    ensures forall e :: e in TaskErrors(task, src, sink, true) ==> !e.DuplicateSeqnos?
  {
    SideErrorsDuplicates(Source, task, src, true);
    SideErrorsDuplicates(Sink, task, sink, true);
  }

  /** What one iteration of the loop does with a task: `max()` raises on the
      source side or then on the sink side, or the task's errors are
      appended. */
  datatype TaskResult = Aborted(side: Side) | Checked(errors: seq<AuditError>)

  /** Whether both sides of `task` have sequence numbers to audit. */
  predicate HasSeqnos(src: seq<Message>, sink: seq<Message>, task: nat) {
    Seqnos(src, task, Source) != [] && Seqnos(sink, task, Sink) != []
  }

  /** The loop body for one task. */
  function CheckTask(src: seq<Message>, sink: seq<Message>, task: nat, clean: bool): (r: TaskResult)
    ensures r.Aborted? <==> !HasSeqnos(src, sink, task)
    ensures r.Aborted? ==> (r.side == Source <==> Seqnos(src, task, Source) == [])
  {
    var srcSeqnos, sinkSeqnos := Seqnos(src, task, Source), Seqnos(sink, task, Sink);
    if srcSeqnos == [] then Aborted(Source)
    else if sinkSeqnos == [] then Aborted(Sink)
    else Checked(TaskErrors(task, srcSeqnos, sinkSeqnos, !clean))
  }

  /** The state after one more iteration: an abort is final; otherwise the
      task's errors are appended and `success` is cleared if there are any. */
  function Step(prev: Outcome, r: TaskResult, task: nat): Outcome {
    match prev
    case EmptySeqnos(side, t) => EmptySeqnos(side, t)
    case Completed(success, errors) =>
      match r
      case Aborted(side) => EmptySeqnos(side, task)
      case Checked(e) => Completed(success && e == [], errors + e)
  }

  /** The state after the loop has run its body, `results`, for the tasks
      `0 .. n - 1` in order, starting from `success = True` and no errors. */
  function Run(results: nat -> TaskResult, n: nat): Outcome {
    if n == 0 then Completed(true, [])
    else Step(Run(results, n - 1), results(n - 1), n - 1)
  }

  /** The loop body of the audit, as a function of the task. */
  function Body(src: seq<Message>, sink: seq<Message>, clean: bool): nat -> TaskResult {
    (t: nat) => CheckTask(src, sink, t, clean)
  }

  /** The outcome of auditing tasks `0 .. numTasks - 1`. */
  function Audit(src: seq<Message>, sink: seq<Message>, numTasks: nat, clean: bool): (r: Outcome)
    ensures r.Completed? ==> (r.success <==> r.errors == [])
  {
    SuccessIffNoErrors(Body(src, sink, clean), numTasks);
    Run(Body(src, sink, clean), numTasks)
  }

  /** One more task is one more step of the loop. */
  lemma AuditStep(src: seq<Message>, sink: seq<Message>, n: nat, clean: bool)
    ensures Audit(src, sink, n + 1, clean) == Step(Audit(src, sink, n, clean), CheckTask(src, sink, n, clean), n)
  {
    assert Body(src, sink, clean)(n) == CheckTask(src, sink, n, clean);
  }

  /** Once the loop has aborted, later tasks do not change the outcome. */
  lemma {:induction false} AbortIsFinal(results: nat -> TaskResult, n: nat, m: nat)
    requires n <= m
    requires Run(results, n).EmptySeqnos?
    ensures Run(results, m) == Run(results, n)
    decreases m - n
  {
    if n < m {
      AbortIsFinal(results, n, m - 1);
    }
  }

  /** `success` is false exactly when some error was appended. */
  predicate Consistent(o: Outcome) {
    o.Completed? ==> (o.success <==> o.errors == [])
  }

  /** The loop clears `success` exactly when it appends an error. */
  lemma {:induction false} SuccessIffNoErrors(results: nat -> TaskResult, n: nat)
    ensures Consistent(Run(results, n))
  {
    if n > 0 {
      SuccessIffNoErrors(results, n - 1);
      var prev := Run(results, n - 1);
      if prev.Completed? && results(n - 1).Checked? {
        ConcatEmpty(prev.errors, results(n - 1).errors);
      }
    }
  }

  /** The loop aborts exactly when the body aborts for some task, and then at
      the first such task and on the side the body named. */
  lemma {:induction false} AbortsAtFirst(results: nat -> TaskResult, n: nat)
    ensures Run(results, n).EmptySeqnos? <==> exists t :: 0 <= t < n && results(t).Aborted?
    ensures Run(results, n).EmptySeqnos? ==>
      var o := Run(results, n);
      && o.task < n
      && results(o.task) == Aborted(o.side)
      && forall t :: 0 <= t < o.task ==> results(t).Checked?
  {
    if n > 0 {
      AbortsAtFirst(results, n - 1);
    }
  }

  /** The loop ends with `success` and no errors exactly when the body
      reported nothing for every task. */
  lemma {:induction false} RunPasses(results: nat -> TaskResult, n: nat)
    ensures Run(results, n) == Completed(true, []) <==> forall t :: 0 <= t < n ==> results(t) == Checked([])
  {
    if n > 0 {
      RunPasses(results, n - 1);
      var prev := Run(results, n - 1);
      if prev.Completed? && results(n - 1).Checked? {
        ConcatEmpty(prev.errors, results(n - 1).errors);
      }
    }
  }

  /** Every error the loop collects was reported by the body for some task. */
  lemma {:induction false} RunErrorsFromTasks(results: nat -> TaskResult, n: nat)
    ensures Run(results, n).Completed? ==>
      forall e :: e in Run(results, n).errors ==>
        exists t :: 0 <= t < n && results(t).Checked? && e in results(t).errors
  {
    if n > 0 {
      RunErrorsFromTasks(results, n - 1);
    }
  }

  /** The errors the body reports for the tasks `0 .. n - 1`, one task's
      after the other. */
  function Reported(results: nat -> TaskResult, n: nat): seq<AuditError> {
    if n == 0 then []
    else Reported(results, n - 1) + (if results(n - 1).Checked? then results(n - 1).errors else [])
  }

  /** A loop that ran to the end collected every error its body reported,
      in task order, and nothing else. */
  lemma {:induction false} RunCollectsAll(results: nat -> TaskResult, n: nat)
    ensures Run(results, n).Completed? ==> Run(results, n).errors == Reported(results, n)
    ensures Run(results, n).Completed? ==>
      forall t, e :: 0 <= t < n && results(t).Checked? && e in results(t).errors ==> e in Run(results, n).errors
  {
    if n > 0 {
      RunCollectsAll(results, n - 1);
      var prev := Run(results, n - 1);
      if prev.Completed? && results(n - 1).Checked? {
        var errors := prev.errors + results(n - 1).errors;
        forall t, e | 0 <= t < n && results(t).Checked? && e in results(t).errors
          ensures e in errors
        {
          if t < n - 1 {
            assert e in prev.errors;
          }
        }
      }
    }
  }

  /** The loop depends only on what the body reports for the tasks it runs. */
  lemma {:induction false} RunSameResults(f: nat -> TaskResult, g: nat -> TaskResult, n: nat)
    requires forall t :: 0 <= t < n ==> f(t) == g(t)
    ensures Run(f, n) == Run(g, n)
  {
    if n > 0 {
      RunSameResults(f, g, n - 1);
    }
  }

  /** The audit fails to abort exactly when every task has sequence numbers
      on both sides; when it aborts, it is at the first task lacking them,
      naming the source side when the source has none. */
  lemma AuditAborts(src: seq<Message>, sink: seq<Message>, numTasks: nat, clean: bool)
    ensures Audit(src, sink, numTasks, clean).EmptySeqnos? <==>
      exists t :: 0 <= t < numTasks && !HasSeqnos(src, sink, t)
    ensures Audit(src, sink, numTasks, clean).EmptySeqnos? ==>
      var o := Audit(src, sink, numTasks, clean);
      && o.task < numTasks
      && !HasSeqnos(src, sink, o.task)
      && (o.side == Source <==> Seqnos(src, o.task, Source) == [])
      && forall t :: 0 <= t < o.task ==> HasSeqnos(src, sink, t)
  {
    var body := Body(src, sink, clean);
    forall t: nat
      ensures body(t).Aborted? <==> !HasSeqnos(src, sink, t)
      ensures body(t).Aborted? ==> (body(t).side == Source <==> Seqnos(src, t, Source) == [])
    {
      assert body(t) == CheckTask(src, sink, t, clean);
    }
    AbortsAtFirst(body, numTasks);
  }

  /** What one task must satisfy for the audit to pass it. */
  ghost predicate TaskOk(src: seq<Message>, sink: seq<Message>, task: nat, clean: bool) {
    HasSeqnos(src, sink, task) && TaskPasses(Seqnos(src, task, Source), Seqnos(sink, task, Sink), !clean)
  }

  /** A task reports nothing exactly when it is fine. */
  lemma CheckTaskPasses(src: seq<Message>, sink: seq<Message>, task: nat, clean: bool)
    ensures CheckTask(src, sink, task, clean) == Checked([]) <==> TaskOk(src, sink, task, clean)
  {
    if HasSeqnos(src, sink, task) {
      TaskErrorsEmpty(task, Seqnos(src, task, Source), Seqnos(sink, task, Sink), !clean);
    }
  }

  /** The audit passes with no errors exactly when every task has sequence
      numbers on both sides and passes. */
  lemma AuditPasses(src: seq<Message>, sink: seq<Message>, numTasks: nat, clean: bool)
    ensures Audit(src, sink, numTasks, clean) == Completed(true, []) <==>
      forall t :: 0 <= t < numTasks ==> TaskOk(src, sink, t, clean)
  {
    var body := Body(src, sink, clean);
    forall t: nat | t < numTasks
      ensures body(t) == Checked([]) <==> TaskOk(src, sink, t, clean)
    {
      CheckTaskPasses(src, sink, t, clean);
    }
    RunPasses(body, numTasks);
  }

  /** After an unclean bounce, duplicates are never among the errors. */
  lemma UncleanIgnoresDuplicates(src: seq<Message>, sink: seq<Message>, numTasks: nat)
    ensures Audit(src, sink, numTasks, false).Completed? ==>
      forall e :: e in Audit(src, sink, numTasks, false).errors ==> !e.DuplicateSeqnos?
  {
    var body := Body(src, sink, false);
    forall t: nat | t < numTasks && body(t).Checked?
      ensures forall e :: e in body(t).errors ==> !e.DuplicateSeqnos?
    {
      TaskErrorsNoDuplicates(t, Seqnos(src, t, Source), Seqnos(sink, t, Sink));
    }
    RunErrorsFromTasks(body, numTasks);
  }

  /** The records of `side`: the source's or the sink's. */
  function SideMessages(src: seq<Message>, sink: seq<Message>, side: Side): seq<Message> {
    if side == Source then src else sink
  }

  /** The missing and duplicate errors in a task's list are tagged with that
      task, and those of one side are exactly that side's errors. */
  lemma TaskErrorsBySide(task: nat, src: seq<nat>, sink: seq<nat>, allowDups: bool, side: Side)
    requires src != [] && sink != []
    ensures forall e :: e in TaskErrors(task, src, sink, allowDups) && (e.MissingSeqnos? || e.DuplicateSeqnos?) ==> e.task == task
    ensures forall e :: (e in TaskErrors(task, src, sink, allowDups) && (e.MissingSeqnos? || e.DuplicateSeqnos?) && e.side == side) <==>
      e in SideErrors(side, task, if side == Source then src else sink, allowDups)
  {
    SideErrorsKinds(Source, task, src, allowDups);
    SideErrorsKinds(Sink, task, sink, allowDups);
  }

  /** The loop body's result for a task with sequence numbers on both sides. */
  lemma BodyChecked(src: seq<Message>, sink: seq<Message>, clean: bool, t: nat)
    requires HasSeqnos(src, sink, t)
    ensures Body(src, sink, clean)(t) == Checked(TaskErrors(t, Seqnos(src, t, Source), Seqnos(sink, t, Sink), !clean))
  {
    assert Body(src, sink, clean)(t) == CheckTask(src, sink, t, clean);
  }

  /** Every missing or duplicate error a completed audit collects comes from
      the side checks of the task and side it names. */
  lemma AuditSideErrorOrigin(src: seq<Message>, sink: seq<Message>, numTasks: nat, clean: bool, e: AuditError)
    requires Audit(src, sink, numTasks, clean).Completed?
    requires e in Audit(src, sink, numTasks, clean).errors && (e.MissingSeqnos? || e.DuplicateSeqnos?)
    ensures HasSeqnos(src, sink, e.task)
    ensures e in SideErrors(e.side, e.task, Seqnos(SideMessages(src, sink, e.side), e.task, e.side), !clean)
  {
    var body := Body(src, sink, clean);
    AuditAborts(src, sink, numTasks, clean);
    RunErrorsFromTasks(body, numTasks);
    var u :| 0 <= u < numTasks && body(u).Checked? && e in body(u).errors;
    assert HasSeqnos(src, sink, u);
    BodyChecked(src, sink, clean, u);
    TaskErrorsBySide(u, Seqnos(src, u, Source), Seqnos(sink, u, Sink), !clean, e.side);
  }

  /** A completed audit collects every error the side checks of one of its
      tasks report. */
  lemma AuditCollectsSide(src: seq<Message>, sink: seq<Message>, numTasks: nat, clean: bool, t: nat, side: Side)
    requires t < numTasks
    requires Audit(src, sink, numTasks, clean).Completed?
    ensures HasSeqnos(src, sink, t)
    ensures forall e :: e in SideErrors(side, t, Seqnos(SideMessages(src, sink, side), t, side), !clean) ==>
      e in Audit(src, sink, numTasks, clean).errors
  {
    var body := Body(src, sink, clean);
    var srcT, sinkT := Seqnos(src, t, Source), Seqnos(sink, t, Sink);
    AuditAborts(src, sink, numTasks, clean);
    assert HasSeqnos(src, sink, t);
    BodyChecked(src, sink, clean, t);
    assert Seqnos(SideMessages(src, sink, side), t, side) == if side == Source then srcT else sinkT;
    TaskErrorsBySide(t, srcT, sinkT, !clean, side);
    RunCollectsAll(body, numTasks);
  }

  /** In a completed audit, the missing and duplicate errors collected for
      one side of one task are exactly those the side's checks report. */
  lemma AuditSideErrors(src: seq<Message>, sink: seq<Message>, numTasks: nat, clean: bool, t: nat, side: Side)
    requires t < numTasks
    ensures Audit(src, sink, numTasks, clean).Completed? ==>
      var s := Seqnos(SideMessages(src, sink, side), t, side);
      && s != []
      && forall e :: (e in Audit(src, sink, numTasks, clean).errors && (e.MissingSeqnos? || e.DuplicateSeqnos?) && e.side == side && e.task == t) <==>
        e in SideErrors(side, t, s, !clean)
  {
    var o := Audit(src, sink, numTasks, clean);
    if o.Completed? {
      var s := Seqnos(SideMessages(src, sink, side), t, side);
      AuditCollectsSide(src, sink, numTasks, clean, t, side);
      assert s != [];
      SideErrorsKinds(side, t, s, !clean);
      forall e | e in o.errors && (e.MissingSeqnos? || e.DuplicateSeqnos?) && e.side == side && e.task == t
        ensures e in SideErrors(side, t, s, !clean)
      {
        AuditSideErrorOrigin(src, sink, numTasks, clean, e);
      }
    }
  }

  /** A completed audit reports missing sequence numbers for a side of a
      task exactly when some value below that side's maximum is absent. */
  lemma AuditReportsMissing(src: seq<Message>, sink: seq<Message>, numTasks: nat, clean: bool, t: nat, side: Side)
    requires t < numTasks
    ensures Audit(src, sink, numTasks, clean).Completed? ==>
      var s := Seqnos(SideMessages(src, sink, side), t, side);
      && s != []
      && ((exists x: nat :: x < Max(s) && x !in s) <==>
        exists e :: e in Audit(src, sink, numTasks, clean).errors && e.MissingSeqnos? && e.side == side && e.task == t)
  {
    AuditSideErrors(src, sink, numTasks, clean, t, side);
    if Audit(src, sink, numTasks, clean).Completed? {
      SideErrorsMissing(side, t, Seqnos(SideMessages(src, sink, side), t, side), !clean);
    }
  }

  /** A completed audit reports duplicates for a side of a task exactly when
      the bounce was clean and some value occurs more than once. */
  lemma AuditReportsDuplicates(src: seq<Message>, sink: seq<Message>, numTasks: nat, clean: bool, t: nat, side: Side)
    requires t < numTasks
    ensures Audit(src, sink, numTasks, clean).Completed? ==>
      var s := Seqnos(SideMessages(src, sink, side), t, side);
      && s != []
      && ((clean && exists x: nat :: multiset(s)[x] > 1) <==>
        exists e :: e in Audit(src, sink, numTasks, clean).errors && e.DuplicateSeqnos? && e.side == side && e.task == t)
  {
    AuditSideErrors(src, sink, numTasks, clean, t, side);
    if Audit(src, sink, numTasks, clean).Completed? {
      SideErrorsDuplicates(side, t, Seqnos(SideMessages(src, sink, side), t, side), !clean);
    }
  }

  /** The sink records the sink had flushed. */
  function Flushed(sink: seq<Message>): (r: seq<Message>)
    ensures forall i :: 0 <= i < |r| ==> r[i].flushed
    ensures forall m :: m in r <==> m in sink && m.flushed
  {
    if sink == [] then []
    else if sink[0].flushed then [sink[0]] + Flushed(sink[1..])
    else Flushed(sink[1..])
  }

  /** Dropping unflushed records leaves every task's sink sequence numbers
      as they were. */
  lemma {:induction false} SeqnosFlushed(sink: seq<Message>, task: nat)
    ensures Seqnos(Flushed(sink), task, Sink) == Seqnos(sink, task, Sink)
  {
    if sink != [] {
      SeqnosFlushed(sink[1..], task);
      if sink[0].flushed {
        assert ([sink[0]] + Flushed(sink[1..]))[1..] == Flushed(sink[1..]);
      }
    }
  }

  /** Only flushed sink records count: the audit is the same without the
      unflushed ones. */
  lemma AuditIgnoresUnflushed(src: seq<Message>, sink: seq<Message>, numTasks: nat, clean: bool)
    ensures Audit(src, Flushed(sink), numTasks, clean) == Audit(src, sink, numTasks, clean)
  {
    forall t: nat | t < numTasks
      ensures Body(src, Flushed(sink), clean)(t) == Body(src, sink, clean)(t)
    {
      SeqnosFlushed(sink, t);
    }
    RunSameResults(Body(src, Flushed(sink), clean), Body(src, sink, clean), numTasks);
  }

  /** One side's checks in the loop body: append its missing sequence numbers,
      then its duplicates unless they are allowed, clearing `success` for
      each. */
  method CheckSide(side: Side, task: nat, seqnos: seq<nat>, allowDups: bool, success: bool, errors: seq<AuditError>)
    returns (success': bool, errors': seq<AuditError>)
    requires seqnos != []
    ensures errors' == errors + SideErrors(side, task, seqnos, allowDups)
    ensures success' <==> success && SideErrors(side, task, seqnos, allowDups) == []
  {
    var seqnoMax := Max(seqnos);
    var missing := MissingBelow(seqnos, seqnoMax);
    var duplicates := Duplicates(seqnos);
    success', errors' := success, errors;
    if missing != [] {
      errors' := errors' + [MissingSeqnos(side, task, missing)];
      success' := false;
    }
    if !allowDups && duplicates != [] {
      errors' := errors' + [DuplicateSeqnos(side, task, duplicates)];
      success' := false;
    }
  }

  /** The checks comparing the two maxima of one task. */
  method CheckMatch(task: nat, srcMax: nat, sinkMax: nat, success: bool, errors: seq<AuditError>)
    returns (success': bool, errors': seq<AuditError>)
    ensures errors' == errors + MatchErrors(task, srcMax, sinkMax)
    ensures success' <==> success && MatchErrors(task, srcMax, sinkMax) == []
  {
    success', errors' := success, errors;
    if sinkMax > srcMax {
      errors' := errors' + [SinkAhead(task, sinkMax, srcMax)];
      success' := false;
    }
    if srcMax < MinMessages || sinkMax < MinMessages {
      errors' := errors' + [TooFewMessages(srcMax, sinkMax)];
      success' := false;
    }
  }

  /** The validation loop of the bounce test over the records reported by the
      source and the sink, with `clean` telling whether the workers were
      bounced cleanly (which alone makes duplicates an error). */
  method AuditDelivery(src: seq<Message>, sink: seq<Message>, numTasks: nat, clean: bool) returns (outcome: Outcome)
    ensures outcome == Audit(src, sink, numTasks, clean)
    ensures outcome.Completed? ==> (outcome.success <==> outcome.errors == [])
  {
    var success := true;
    var errors: seq<AuditError> := [];
    var allowDups := !clean;
    for task := 0 to numTasks
      invariant Audit(src, sink, task, clean) == Completed(success, errors)
    {
      ghost var before := errors;
      AuditStep(src, sink, task, clean);

      // Validate source messages.
      var srcSeqnos := Seqnos(src, task, Source);
      if srcSeqnos == [] {
        AbortIsFinal(Body(src, sink, clean), task + 1, numTasks);
        return EmptySeqnos(Source, task);
      }
      success, errors := CheckSide(Source, task, srcSeqnos, allowDups, success, errors);

      // Validate sink messages.
      var sinkSeqnos := Seqnos(sink, task, Sink);
      if sinkSeqnos == [] {
        AbortIsFinal(Body(src, sink, clean), task + 1, numTasks);
        return EmptySeqnos(Sink, task);
      }
      success, errors := CheckSide(Sink, task, sinkSeqnos, allowDups, success, errors);

      // Validate that source and sink match.
      success, errors := CheckMatch(task, Max(srcSeqnos), Max(sinkSeqnos), success, errors);

      ghost var srcErrors := SideErrors(Source, task, srcSeqnos, allowDups);
      ghost var sinkErrors := SideErrors(Sink, task, sinkSeqnos, allowDups);
      ghost var matchErrors := MatchErrors(task, Max(srcSeqnos), Max(sinkSeqnos));
      AppendAssoc(before, srcErrors, sinkErrors);
      AppendAssoc(before, srcErrors + sinkErrors, matchErrors);
      ConcatEmpty(srcErrors, sinkErrors);
      ConcatEmpty(srcErrors + sinkErrors, matchErrors);
      assert CheckTask(src, sink, task, clean) == Checked(srcErrors + sinkErrors + matchErrors);
    }
    return Completed(success, errors);
  }
}
