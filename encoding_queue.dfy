/**
 * The encoding window's queue state machine: the ordered file list the
 * user edits, the FIFO queue the worker drains, the encoding flag that
 * guards edits, the cancellation token, and the progress counters. The Tk
 * widgets, the worker thread and the subprocess are replaced by explicit
 * inputs: what happens to each file the worker takes is a `FileEvent`.
 */
module EncodingQueue {
  import opened CommandText

  /** How one run of the command ended. */
  datatype RunOutcome =
    | Exited(code: int)          // the process ran and exited with this return code
    | CommandNotFound            // starting it raised `FileNotFoundError`
    | Crashed(spawned: bool)     // some other exception; `spawned` when the process had already been started

  /**
   * What the outside world does while the worker handles the k-th file it
   * takes: whether Stop was pressed before the cancellation check, whether
   * building the output path raised, the timestamp `datetime.now()` gave,
   * how the command ended, and whether Stop was pressed while it ran.
   */
  datatype FileEvent = FileEvent(
    stopBefore: bool, pathFails: bool, timestamp: string, outcome: RunOutcome, stopDuring: bool)

  /** The worker's state: the queue, the token, whether `current_process` is set, `files_processed` and the commands run so far. */
  datatype Worker = Worker(
    pending: seq<string>, cancelled: bool, hasProcess: bool, processed: nat, commands: seq<string>)

  /** The command the worker runs for one input file. */
  function CommandFor(template: string, input: string, ev: FileEvent): string {
    BuildCommand(template, input, OutputPath(input, ev.timestamp))
  }

  /**
   * How the worker turns a file it takes into a command. The queue lemmas
   * below hold for any such function; the worker itself uses `CommandFor`
   * with the template of the moment.
   */
  type Builder = (string, FileEvent) -> string

  /** The worker's builder for a given template. */
  function BuilderFor(template: string): Builder {
    (input: string, ev: FileEvent) => CommandFor(template, input, ev)
  }

  /**
   * One pass of the worker loop with a non-empty queue: the new state, and
   * whether the loop breaks.
   */
  function Step(w: Worker, ev: FileEvent, build: Builder): (Worker, bool)
    requires w.pending != []
  {
    if w.cancelled || ev.stopBefore then (w.(cancelled := true), true)
    else
      var input := w.pending[0];
      var rest := w.pending[1..];
      if ev.pathFails then (w.(pending := rest), false)
      else
        var ran := w.(pending := rest, cancelled := w.cancelled || ev.stopDuring,
                      commands := w.commands + [build(input, ev)]);
        match ev.outcome
        case CommandNotFound => (ran, true)
        case Crashed(spawned) =>
          (ran.(hasProcess := w.hasProcess || spawned, processed := w.processed + 1), false)
        case Exited(_) =>
          if ev.stopDuring then (ran.(hasProcess := false), true)
          else (ran.(hasProcess := false, processed := w.processed + 1), false)
  }

  /** The worker loop run to its end, the k-th file taken meeting `events(k)`. */
  function Drain(w: Worker, events: nat -> FileEvent, k: nat, build: Builder): Worker
    decreases |w.pending|
  {
    if w.pending == [] then w
    else
      var (next, stop) := Step(w, events(k), build);
      if stop then next else Drain(next, events, k + 1, build)
  }

  /** The commands issued for the files taken, in order, skipping those whose output path failed. */
  function Issued(taken: seq<string>, events: nat -> FileEvent, k: nat, build: Builder): seq<string>
    decreases |taken|
  {
    if taken == [] then []
    else
      var ev := events(k);
      (if ev.pathFails then [] else [build(taken[0], ev)])
      + Issued(taken[1..], events, k + 1, build)
  }

  /** How the worker loop ended: queue empty, token set, or the last file taken hit a missing command. */
  predicate EndedProperly(r: Worker, events: nat -> FileEvent, k: nat, t: nat)
  {
    r.pending == [] || r.cancelled || (t > 0 && events(k + t - 1).outcome.CommandNotFound?)
  }

  /**
   * The worker takes files from the front of the queue, in order: it stops
   * with the queue's first t files taken and one command issued for each of
   * them whose output path could be built; the queue is left non-empty only
   * when the token is set or the last file taken hit a missing command.
   */
  lemma {:induction false} DrainInOrder(w: Worker, events: nat -> FileEvent, k: nat, build: Builder)
    ensures InOrder(w, Drain(w, events, k, build), events, k, build)
    decreases |w.pending|
  {
    var r := Drain(w, events, k, build);
    if w.pending == [] {
      InOrderNone(w, r, events, k, build);
    } else if w.cancelled || events(k).stopBefore {
      DrainStopsOnToken(w, events, k, build);
      InOrderNone(w, r, events, k, build);
    } else {
      var (next, stop) := Step(w, events(k), build);
      StepTakes(w, events(k), build);
      if stop {
        InOrderLast(w, r, events, k, build);
      } else {
        DrainInOrder(next, events, k + 1, build);
        DrainInOrderStep(w, next, r, events, k, build);
      }
    }
  }

  /** The worker stops with the queue's first t files taken, their commands issued in order, for a good reason. */
  predicate InOrder(w: Worker, r: Worker, events: nat -> FileEvent, k: nat, build: Builder)
  {
    var t := |w.pending| - |r.pending|;
    0 <= t && r.pending == w.pending[t..]
    && r.commands == w.commands + Issued(w.pending[..t], events, k, build)
    && EndedProperly(r, events, k, t)
  }

  /** A step past the cancellation check takes the first file and issues its command unless its path failed. */
  lemma StepTakes(w: Worker, ev: FileEvent, build: Builder)
    requires w.pending != [] && !w.cancelled && !ev.stopBefore
    ensures var (next, stop) := Step(w, ev, build);
      next.pending == w.pending[1..]
      && next.commands == w.commands + (if ev.pathFails then [] else [build(w.pending[0], ev)])
      && (stop ==> !ev.pathFails && (next.cancelled || ev.outcome.CommandNotFound?))
  {
  }

  lemma InOrderNone(w: Worker, r: Worker, events: nat -> FileEvent, k: nat, build: Builder)
    requires r.pending == w.pending && r.commands == w.commands && (r.pending == [] || r.cancelled)
    ensures InOrder(w, r, events, k, build)
  {
    assert w.pending[0..] == w.pending && w.pending[..0] == [];
    assert w.commands + [] == w.commands;
  }

  lemma InOrderLast(w: Worker, r: Worker, events: nat -> FileEvent, k: nat, build: Builder)
    requires w.pending != [] && r.pending == w.pending[1..] && !events(k).pathFails
    requires r.commands == w.commands + [build(w.pending[0], events(k))]
    requires r.cancelled || events(k).outcome.CommandNotFound?
    ensures InOrder(w, r, events, k, build)
  {
    assert w.pending[..1][1..] == [];
    assert Issued(w.pending[..1], events, k, build) == [build(w.pending[0], events(k))] + [];
  }

  /** The inductive step of `DrainInOrder`, when the first file taken does not end the loop. */
  lemma DrainInOrderStep(w: Worker, next: Worker, r: Worker, events: nat -> FileEvent, k: nat, build: Builder)
    requires w.pending != [] && next.pending == w.pending[1..]
    requires next.commands == w.commands + (if events(k).pathFails then [] else [build(w.pending[0], events(k))])
    requires InOrder(next, r, events, k + 1, build)
    ensures InOrder(w, r, events, k, build)
  {
    var t := |w.pending| - |r.pending|;
    var t' := t - 1;
    assert w.pending[..t][1..] == next.pending[..t'];
    assert w.pending[t..] == next.pending[t'..];
    var first := if events(k).pathFails then [] else [build(w.pending[0], events(k))];
    var later := Issued(next.pending[..t'], events, k + 1, build);
    assert Issued(w.pending[..t], events, k, build) == first + later;
    Associative(w.commands, first, later);
  }

  lemma Associative<T>(a: seq<T>, b: seq<T>, c: seq<T>)
    ensures (a + b) + c == a + (b + c)
  {
  }

  /**
   * `files_processed` only counts files taken from the queue, at most one
   * per command issued, and the token, once set, stays set.
   */
  lemma {:induction false} DrainCounts(w: Worker, events: nat -> FileEvent, k: nat, build: Builder)
    ensures var r := Drain(w, events, k, build);
      w.processed <= r.processed
      && r.processed + |r.pending| <= w.processed + |w.pending|
      && r.processed + |w.commands| <= w.processed + |r.commands|
      && (w.cancelled ==> r.cancelled)
    decreases |w.pending|
  {
    if w.pending != [] {
      var (next, stop) := Step(w, events(k), build);
      if !stop {
        DrainCounts(next, events, k + 1, build);
      }
    }
  }

  /** Cancellation is checked before each new file: a set token ends the loop with the queue as it was. */
  lemma DrainStopsOnToken(w: Worker, events: nat -> FileEvent, k: nat, build: Builder)
    requires w.pending != [] && (w.cancelled || events(k).stopBefore)
    ensures Drain(w, events, k, build) == w.(cancelled := true)
  {
    var (next, stop) := Step(w, events(k), build);
    assert stop && next == w.(cancelled := true);
  }

  /** A missing command stops the whole queue: the file after the one that failed is never taken. */
  lemma DrainEndsOnMissingCommand(w: Worker, events: nat -> FileEvent, k: nat, build: Builder)
    requires w.pending != [] && !w.cancelled && !events(k).stopBefore && !events(k).pathFails
    requires events(k).outcome.CommandNotFound?
    ensures var r := Drain(w, events, k, build);
      r.pending == w.pending[1..] && r.commands == w.commands + [build(w.pending[0], events(k))]
  {
  }

  /**
   * Stop pressed while a command runs ends the loop once that run is over:
   * the token is set and no further file is taken.
   */
  lemma DrainEndsAfterStoppedRun(w: Worker, events: nat -> FileEvent, k: nat, build: Builder)
    requires w.pending != [] && !w.cancelled && !events(k).stopBefore && !events(k).pathFails
    requires events(k).stopDuring
    ensures var r := Drain(w, events, k, build);
      r.cancelled && r.pending == w.pending[1..] && r.commands == w.commands + [build(w.pending[0], events(k))]
  {
    var (next, stop) := Step(w, events(k), build);
    if !stop && next.pending != [] {
      DrainStopsOnToken(next, events, k + 1, build);
    }
  }

  /** Without Stop and with the command always found, the worker empties the queue, issuing every command. */
  lemma {:induction false} DrainCompletes(w: Worker, events: nat -> FileEvent, k: nat, build: Builder)
    requires !w.cancelled
    requires forall i | k <= i :: Uneventful(events(i))
    ensures var r := Drain(w, events, k, build);
      r.pending == [] && !r.cancelled
      && r.commands == w.commands + Issued(w.pending, events, k, build)
      && r.processed == w.processed + |Issued(w.pending, events, k, build)|
    decreases |w.pending|
  {
    if w.pending != [] {
      assert Uneventful(events(k));
      var (next, stop) := Step(w, events(k), build);
      StepTakes(w, events(k), build);
      StepCounts(w, events(k), build);
      DrainCompletes(next, events, k + 1, build);
      CompletesAfter(w, next, Drain(next, events, k + 1, build), events, k, build);
    }
  }

  /** Stop is never pressed and the command is always found. */
  predicate Uneventful(ev: FileEvent) {
    !ev.stopBefore && !ev.stopDuring && !ev.outcome.CommandNotFound?
  }

  /** An uneventful step never breaks and counts the file exactly when it issued a command. */
  lemma StepCounts(w: Worker, ev: FileEvent, build: Builder)
    requires w.pending != [] && !w.cancelled && Uneventful(ev)
    ensures var (next, stop) := Step(w, ev, build);
      !stop && !next.cancelled && next.processed == w.processed + (if ev.pathFails then 0 else 1)
  {
  }

  lemma CompletesAfter(w: Worker, next: Worker, r: Worker, events: nat -> FileEvent, k: nat, build: Builder)
    requires w.pending != [] && next.pending == w.pending[1..]
    requires next.commands == w.commands + (if events(k).pathFails then [] else [build(w.pending[0], events(k))])
    requires next.processed == w.processed + (if events(k).pathFails then 0 else 1)
    requires r.commands == next.commands + Issued(next.pending, events, k + 1, build)
    requires r.processed == next.processed + |Issued(next.pending, events, k + 1, build)|
    ensures r.commands == w.commands + Issued(w.pending, events, k, build)
    ensures r.processed == w.processed + |Issued(w.pending, events, k, build)|
  {
    var first := if events(k).pathFails then [] else [build(w.pending[0], events(k))];
    var later := Issued(next.pending, events, k + 1, build);
    assert Issued(w.pending, events, k, build) == first + later;
    Associative(w.commands, first, later);
  }

  /** The entries of `files` whose index (counting from `base`) is not selected, in their original order. */
  function Kept(files: seq<string>, selected: set<nat>, base: nat): seq<string>
    decreases |files|
  {
    if files == [] then []
    else (if base in selected then [] else [files[0]]) + Kept(files[1..], selected, base + 1)
  }

  /** The indices from `base` to `base + n - 1` that are not selected, in increasing order. */
  function Unselected(n: nat, selected: set<nat>, base: nat): seq<nat>
    decreases n
  {
    if n == 0 then []
    else (if base in selected then [] else [base]) + Unselected(n - 1, selected, base + 1)
  }

  /** The unselected indices are increasing and are exactly those in range and not selected. */
  lemma {:induction false} UnselectedExact(n: nat, selected: set<nat>, base: nat)
    ensures var idx := Unselected(n, selected, base);
      (forall i, j | 0 <= i < j < |idx| :: idx[i] < idx[j])
      && (forall i :: i in idx <==> base <= i < base + n && i !in selected)
    decreases n
  {
    if n > 0 {
      UnselectedExact(n - 1, selected, base + 1);
      var rest := Unselected(n - 1, selected, base + 1);
      assert forall m | 0 <= m < |rest| :: base < rest[m] by {
        forall m | 0 <= m < |rest| ensures base < rest[m] {
          assert rest[m] in rest;
        }
      }
    }
  }

  /** The m-th kept entry is the entry at the m-th unselected index. */
  lemma {:induction false} KeptByIndex(files: seq<string>, selected: set<nat>, base: nat)
    ensures IndexedBy(Kept(files, selected, base), Unselected(|files|, selected, base), files, base)
    decreases |files|
  {
    if files != [] {
      KeptByIndex(files[1..], selected, base + 1);
      var rest := Unselected(|files| - 1, selected, base + 1);
      var keptRest := Kept(files[1..], selected, base + 1);
      if base in selected {
        assert Kept(files, selected, base) == [] + keptRest;
        assert Unselected(|files|, selected, base) == [] + rest;
        IndexedByWider(keptRest, rest, files, base);
      } else {
        assert Kept(files, selected, base) == [files[0]] + keptRest;
        assert Unselected(|files|, selected, base) == [base] + rest;
        IndexedByCons(keptRest, rest, files, base);
      }
    }
  }

  /** `kept` lists, in order, the entries of `files` at the indices `idx` (counted from `base`). */
  predicate IndexedBy(kept: seq<string>, idx: seq<nat>, files: seq<string>, base: nat)
  {
    |kept| == |idx|
    && forall m | 0 <= m < |idx| :: base <= idx[m] < base + |files| && kept[m] == files[idx[m] - base]
  }

  lemma IndexedByWider(kept: seq<string>, idx: seq<nat>, files: seq<string>, base: nat)
    requires files != [] && IndexedBy(kept, idx, files[1..], base + 1)
    ensures IndexedBy(kept, idx, files, base)
  {
    forall m | 0 <= m < |idx| ensures base <= idx[m] < base + |files| && kept[m] == files[idx[m] - base] {
      assert files[1..][idx[m] - (base + 1)] == files[idx[m] - base];
    }
  }

  lemma IndexedByCons(kept: seq<string>, idx: seq<nat>, files: seq<string>, base: nat)
    requires files != [] && IndexedBy(kept, idx, files[1..], base + 1)
    ensures IndexedBy([files[0]] + kept, [base] + idx, files, base)
  {
    var kept', idx' := [files[0]] + kept, [base] + idx;
    forall m | 0 <= m < |idx'| ensures base <= idx'[m] < base + |files| && kept'[m] == files[idx'[m] - base] {
      if m > 0 {
        assert idx'[m] == idx[m - 1] && kept'[m] == kept[m - 1];
        assert files[1..][idx[m - 1] - (base + 1)] == files[idx[m - 1] - base];
      }
    }
  }

  /** Kept only looks at the selected indices within the entries' range. */
  lemma {:induction false} KeptAgree(files: seq<string>, s1: set<nat>, s2: set<nat>, base: nat)
    requires forall i | base <= i < base + |files| :: i in s1 <==> i in s2
    ensures Kept(files, s1, base) == Kept(files, s2, base)
    decreases |files|
  {
    if files != [] {
      assert base in s1 <==> base in s2;
      KeptAgree(files[1..], s1, s2, base + 1);
    }
  }

  lemma {:induction false} KeptNone(files: seq<string>, selected: set<nat>, base: nat)
    requires forall i | base <= i < base + |files| :: i !in selected
    ensures Kept(files, selected, base) == files
    decreases |files|
  {
    if files != [] {
      assert base !in selected;
      KeptNone(files[1..], selected, base + 1);
    }
  }

  /**
   * Deleting index p from the list kept so far, when every index already
   * deleted lies above p, gives the list with p deleted as well.
   */
  lemma DeleteBelow(files: seq<string>, selected: set<nat>, p: nat)
    requires p < |files| && p !in selected && forall q | q in selected :: p < q
    ensures var cur := Kept(files, selected, 0);
      p < |cur| && cur[..p] + cur[p + 1..] == Kept(files, selected + {p}, 0)
  {
    DeleteBelowFrom(files, selected, p, 0);
  }

  lemma {:induction false} DeleteBelowFrom(files: seq<string>, selected: set<nat>, p: nat, base: nat)
    requires base <= p < base + |files| && p !in selected && forall q | q in selected :: p < q
    ensures var cur := Kept(files, selected, base);
      p - base < |cur| && cur[..p - base] + cur[p - base + 1..] == Kept(files, selected + {p}, base)
    decreases |files|
  {
    var cur := Kept(files, selected, base);
    var rest := Kept(files[1..], selected, base + 1);
    assert base !in selected;
    assert cur == [files[0]] + rest;
    if base == p {
      KeptAgree(files[1..], selected, selected + {p}, base + 1);
      assert cur[..0] + cur[1..] == rest;
    } else {
      DeleteBelowFrom(files[1..], selected, p, base + 1);
      var i := p - base;
      assert cur[..i] == [files[0]] + rest[..i - 1];
      assert cur[i + 1..] == rest[i..];
      Associative([files[0]], rest[..i - 1], rest[i..]);
    }
  }

  /** The indices `selected[j..]`. */
  function Tail(selected: seq<nat>, j: nat): set<nat>
    requires j <= |selected|
  {
    set i | j <= i < |selected| :: selected[i]
  }

  /**
   * The worker loop itself, on the worker's state as a value: the `while`
   * of `encoding_worker`, with its cancellation check, the skip when the
   * output path fails, and the three ways a run can break the loop.
   */
  method RunWorker(w0: Worker, events: nat -> FileEvent, build: Builder) returns (w: Worker)
    ensures w == Drain(w0, events, 0, build)
    ensures w.processed + |w.pending| <= w0.processed + |w0.pending|
  {
    w := w0;
    var k := 0;
    ghost var goal := Drain(w0, events, 0, build);
    while w.pending != []
      invariant Drain(w, events, k, build) == goal
      invariant w.processed + |w.pending| <= w0.processed + |w0.pending|
      decreases |w.pending|
    {
      var ev := events(k);
      if w.cancelled || ev.stopBefore {
        w := w.(cancelled := true);
        break;
      }
      var input := w.pending[0];
      w := w.(pending := w.pending[1..]);
      k := k + 1;
      if ev.pathFails {
        continue;
      }
      var command := build(input, ev);
      w := w.(commands := w.commands + [command], cancelled := w.cancelled || ev.stopDuring);
      match ev.outcome {
        case CommandNotFound =>
          break;
        case Crashed(spawned) =>
          w := w.(hasProcess := w.hasProcess || spawned);
        case Exited(_) =>
          w := w.(hasProcess := false);
          if ev.stopDuring {
            break;
          }
      }
      w := w.(processed := w.processed + 1);
    }
  }

  /** The application window's queue state. */
  class AbAv1Gui {
    var files: seq<string>      // the queue list box, in display order
    var isEncoding: bool
    var pending: seq<string>    // `encoding_queue`, front first
    var hasProcess: bool        // `current_process` is not None
    var cancelled: bool         // `cancellation_token` is set
    var progressMax: nat
    var progressValue: nat
    var template: string        // the command template text box

    /**
     * While idle the queue is empty, the token clear, no process recorded and
     * progress at 0; while encoding, files processed plus files waiting never
     * exceed the progress maximum.
     */
    predicate Valid()
      reads this
    {
      (!isEncoding ==> pending == [] && !cancelled && !hasProcess && progressValue == 0)
      && (isEncoding ==> progressValue + |pending| <= progressMax)
    }

    /** A fresh window: idle, with an empty list and the default template. */
    constructor ()
      ensures Valid() && !isEncoding && files == [] && template == DefaultTemplate
    {
      files := [];
      isEncoding := false;
      pending := [];
      hasProcess := false;
      cancelled := false;
      progressMax := 100;
      progressValue := 0;
      template := DefaultTemplate;
    }

    /** The user edits the template text. */
    method EditTemplate(text: string)
      modifies this
      ensures template == text
      ensures files == old(files) && isEncoding == old(isEncoding) && pending == old(pending)
      ensures hasProcess == old(hasProcess) && cancelled == old(cancelled)
      ensures progressMax == old(progressMax) && progressValue == old(progressValue)
    {
      template := text;
    }

    /** `add_files`: while encoding nothing changes; otherwise the chosen files are appended in order. */
    method AddFiles(chosen: seq<string>) returns (accepted: bool)
      requires Valid()
      modifies this
      ensures Valid()
      ensures accepted == !old(isEncoding)
      ensures !accepted ==> unchanged(this)
      ensures accepted ==> files == old(files) + chosen
      ensures isEncoding == old(isEncoding) && pending == old(pending) && template == old(template)
      ensures hasProcess == old(hasProcess) && cancelled == old(cancelled)
      ensures progressMax == old(progressMax) && progressValue == old(progressValue)
    {
      if isEncoding {
        return false;
      }
      for i := 0 to |chosen|
        invariant files == old(files) + chosen[..i]
        invariant isEncoding == old(isEncoding) && pending == old(pending) && template == old(template)
        invariant hasProcess == old(hasProcess) && cancelled == old(cancelled)
        invariant progressMax == old(progressMax) && progressValue == old(progressValue)
      {
        assert chosen[..i + 1] == chosen[..i] + [chosen[i]];
        files := files + [chosen[i]];
      }
      assert chosen[..|chosen|] == chosen;
      return true;
    }

    /**
     * `remove_selected`: while encoding nothing changes; otherwise the
     * selected rows (increasing, as the list box reports them) are deleted
     * from the highest down, leaving the unselected ones in order.
     */
    method RemoveSelected(selected: seq<nat>)
      requires Valid()
      requires forall i, j | 0 <= i < j < |selected| :: selected[i] < selected[j]
      requires forall i | 0 <= i < |selected| :: selected[i] < |files|
      modifies this
      ensures Valid()
      ensures old(isEncoding) ==> files == old(files)
      ensures !old(isEncoding) ==> files == Kept(old(files), Tail(selected, 0), 0)
      ensures isEncoding == old(isEncoding) && pending == old(pending) && template == old(template)
      ensures hasProcess == old(hasProcess) && cancelled == old(cancelled)
      ensures progressMax == old(progressMax) && progressValue == old(progressValue)
    {
      if isEncoding {
        return;
      }
      KeptNone(files, {}, 0);
      assert Tail(selected, |selected|) == {};
      var j := |selected|;
      while j > 0
        invariant 0 <= j <= |selected|
        invariant files == Kept(old(files), Tail(selected, j), 0)
        invariant isEncoding == old(isEncoding) && pending == old(pending) && template == old(template)
        invariant hasProcess == old(hasProcess) && cancelled == old(cancelled)
        invariant progressMax == old(progressMax) && progressValue == old(progressValue)
      {
        j := j - 1;
        var p := selected[j];
        assert Tail(selected, j) == Tail(selected, j + 1) + {p};
        DeleteBelow(old(files), Tail(selected, j + 1), p);
        files := files[..p] + files[p + 1..];
      }
    }

    /**
     * `start_encoding`: refused while encoding or with an empty list;
     * otherwise the list is copied into the queue in order, the token is
     * cleared and progress runs from 0 to the number of files.
     */
    method StartEncoding() returns (started: bool)
      requires Valid()
      modifies this
      ensures Valid()
      ensures started <==> !old(isEncoding) && old(files) != []
      ensures !started ==> unchanged(this)
      ensures started ==> (isEncoding && !cancelled && pending == old(files)
                           && progressMax == |files| && progressValue == 0)
      ensures files == old(files) && template == old(template) && hasProcess == old(hasProcess)
    {
      if isEncoding || files == [] {
        return false;
      }
      isEncoding := true;
      cancelled := false;
      for i := 0 to |files|
        invariant files == old(files) && isEncoding && !cancelled
        invariant pending == files[..i]
        invariant template == old(template) && hasProcess == old(hasProcess)
        invariant progressValue == old(progressValue)
      {
        assert files[..i + 1] == files[..i] + [files[i]];
        pending := pending + [files[i]];
      }
      assert files[..|files|] == files;
      progressMax := |files|;
      progressValue := 0;
      return true;
    }

    /** `stop_encoding`: while encoding, sets the token and asks for the current process, if any, to be killed. */
    method StopEncoding() returns (kill: bool)
      requires Valid()
      modifies this
      ensures Valid()
      ensures !old(isEncoding) ==> unchanged(this) && !kill
      ensures old(isEncoding) ==> cancelled && kill == hasProcess
      ensures files == old(files) && isEncoding == old(isEncoding) && pending == old(pending)
      ensures template == old(template) && hasProcess == old(hasProcess)
      ensures progressMax == old(progressMax) && progressValue == old(progressValue)
    {
      if !isEncoding {
        return false;
      }
      cancelled := true;
      kill := hasProcess;
    }

    /**
     * `encoding_worker`: drains the queue as `Drain` says, returning the
     * commands it ran; the progress value shows `files_processed` once a file
     * has been counted. Each command is the template box's text filled in
     * for the file taken.
     */
    method EncodingWorker(events: nat -> FileEvent) returns (commands: seq<string>, processed: nat)
      requires Valid() && isEncoding
      modifies this`pending, this`cancelled, this`hasProcess, this`progressValue
      ensures Valid()
      ensures Worker(pending, cancelled, hasProcess, processed, commands)
              == Drain(Worker(old(pending), old(cancelled), old(hasProcess), 0, []), events, 0, BuilderFor(template))
      ensures progressValue == (if processed == 0 then old(progressValue) else processed)
    {
      var w := RunWorker(Worker(pending, cancelled, hasProcess, 0, []), events, BuilderFor(template));
      pending, cancelled, hasProcess, processed, commands := w.pending, w.cancelled, w.hasProcess, w.processed, w.commands;
      if processed > 0 {
        progressValue := processed;
      }
    }

    /**
     * `on_encoding_finished`: reports whether the run was cancelled, then
     * returns to idle: token cleared, no process, queue emptied, progress 0.
     */
    method OnEncodingFinished() returns (wasCancelled: bool)
      modifies this
      ensures wasCancelled == old(cancelled)
      ensures Valid()
      ensures !isEncoding && !hasProcess && !cancelled && pending == [] && progressValue == 0
      ensures files == old(files) && template == old(template) && progressMax == old(progressMax)
    {
      wasCancelled := cancelled;
      isEncoding := false;
      hasProcess := false;
      cancelled := false;
      while pending != []
        invariant !isEncoding && !hasProcess && !cancelled
        invariant files == old(files) && template == old(template) && progressMax == old(progressMax)
        decreases |pending|
      {
        pending := pending[1..];
      }
      progressValue := 0;
    }
  }
}
