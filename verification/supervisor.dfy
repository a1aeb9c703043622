/**
 The progress screen loop (`CursesUI`) and the supervision and cleanup
 decision of `main` in concat_go.py.

 The child process, the terminal and the file system are not modelled;
 what the loop observes of them is passed in as data: each tick brings the
 result of `os.stat` on the output file, the clock reading, and what
 `proc.poll()` reported afterwards. A keyboard interrupt is one more event.
 */
module Supervisor {
  import opened Wrappers
  import opened RateEstimation
  import Progress

  const BytesPerMb: nat := 1_048_576

  /** One look at the output file: its size, or `None` when `os.stat`
      raised OSError (the transcoder has not created it yet), and the time. */
  datatype Sample = Sample(stat: Option<nat>, now: int)

  /** The size check_file uses: a missing file counts as 0 bytes. */
  function SampleBytes(s: Sample): (n: nat)
    ensures s.stat.Some? ==> n == s.stat.value
    ensures s.stat.None? ==> n == 0
  {
    if s.stat.Some? then s.stat.value else 0
  }

  /** The screen's state: the expected byte count and its estimator. */
  datatype Ui = Ui(expectedBytes: nat, estimator: Estimator)

  /** `CursesUI.__init__`: a fresh estimator towards the expected size. */
  function NewUi(expectedBytes: nat, now: int): (ui: Ui)
    ensures ui.expectedBytes == ui.estimator.expectedSize == expectedBytes
    ensures NewEstimate(ui.estimator) == NotAvailable
  {
    Ui(expectedBytes, NewEstimator(expectedBytes, now))
  }

  /** What one screen shows, before formatting. */
  datatype Status = Status(
    curBytes: nat,
    curMb: nat,
    expectedMb: nat,
    percent: real,
    estimate: Estimate,
    bar: string)

  /** The exception `check_file` can raise: dividing by a zero expected size. */
  datatype UiError = ZeroDivision

  /** The screen's next state and what it shows. */
  datatype Update = Update(ui: Ui, status: Status)

  /** The status of one screen: sizes in bytes and whole megabytes, the
      percentage, the estimate and the bar drawn from the percentage. */
  function MakeStatus(cur: nat, expectedBytes: nat, percent: real, estimate: Estimate): (st: Status)
    ensures st.curBytes == cur && st.percent == percent && st.estimate == estimate
    ensures st.curMb * BytesPerMb <= cur < (st.curMb + 1) * BytesPerMb
    ensures st.expectedMb * BytesPerMb <= expectedBytes < (st.expectedMb + 1) * BytesPerMb
    ensures st.bar == Progress.DrawProgress(percent, Progress.DefaultSymbol, Progress.DefaultTicks)
    ensures 0.0 <= percent <= 100.0 ==> |st.bar| == Progress.DefaultTicks + 2
  {
    MbBounds(cur);
    MbBounds(expectedBytes);
    Status(cur, cur / BytesPerMb, expectedBytes / BytesPerMb, percent, estimate,
           Progress.DrawProgress(percent, Progress.DefaultSymbol, Progress.DefaultTicks))
  }

  /** `check_file`: read the output size, compute the percentage, feed the
      estimator and build the status. The percentage comes first, so a zero
      expected size raises before the estimator is touched. */
  function CheckFile(ui: Ui, s: Sample): (r: Result<Update, UiError>)
    ensures r.Failure? <==> ui.expectedBytes == 0
    ensures r.Success? ==> r.value.status.curBytes == SampleBytes(s)
    ensures r.Success? ==> Progress.Percent(SampleBytes(s), ui.expectedBytes) == Some(r.value.status.percent)
    ensures r.Success? ==> r.value.ui.expectedBytes == ui.expectedBytes
    ensures r.Success? ==> r.value.ui.estimator == AddData(ui.estimator, SampleBytes(s), s.now)
    ensures r.Success? ==> r.value.status.estimate == NewEstimate(r.value.ui.estimator)
    ensures r.Success? ==> (r.value.status.estimate == NotAvailable <==> SampleBytes(s) == ui.estimator.currentSize)
    ensures r.Success? ==> r.value.status.bar == Progress.DrawProgress(r.value.status.percent, Progress.DefaultSymbol, Progress.DefaultTicks)
    ensures r.Success? ==> r.value.status == MakeStatus(SampleBytes(s), ui.expectedBytes, r.value.status.percent, r.value.status.estimate)
  {
    var cur := SampleBytes(s);
    var p := Progress.Percent(cur, ui.expectedBytes);
    if p.None? then Failure(ZeroDivision)
    else
      var est := AddData(ui.estimator, cur, s.now);
      Success(Update(ui.(estimator := est), MakeStatus(cur, ui.expectedBytes, p.value, NewEstimate(est))))
  }

  /** Python 2 integer division by 1024**2 rounds down to whole megabytes. */
  lemma MbBounds(n: nat)
    ensures (n / BytesPerMb) * BytesPerMb <= n < (n / BytesPerMb + 1) * BytesPerMb
  {
  }

  /** What `proc.poll()` reports. */
  datatype Poll = StillRunning | Exited(code: int)

  /** The `returncode` after a poll: set once the child has exited. */
  function AfterPoll(p: Poll): (rc: Option<int>)
  {
    match p
    case StillRunning => None
    case Exited(code) => Some(code)
  }

  /** One iteration of the screen loop (a screen update, then a poll), or a
      keyboard interrupt arriving instead. */
  datatype Event = Tick(sample: Sample, poll: Poll) | Interrupt

  /** How the screen loop stopped, if it has. */
  datatype LoopEnd =
    | Returned(code: int, ui: Ui)        // the loop condition saw a returncode
    | Aborted(ui: Ui)                    // KeyboardInterrupt
    | Raised(returncode: Option<int>)    // check_file raised; the returncode at that moment
    | Pending(ui: Ui)                    // the events ran out while the child still runs

  /** `while self.proc.returncode is None: check_file(); ...; poll()`. */
  function UiLoop(ui: Ui, returncode: Option<int>, events: seq<Event>): (r: LoopEnd)
    ensures returncode.Some? ==> r == Returned(returncode.value, ui)
    decreases |events|
  {
    if returncode.Some? then Returned(returncode.value, ui)
    else if events == [] then Pending(ui)
    else match events[0]
      case Interrupt => Aborted(ui)
      case Tick(s, p) =>
        match CheckFile(ui, s)
        case Failure(_) => Raised(returncode)
        case Success(u) => UiLoop(u.ui, AfterPoll(p), events[1..])
  }

  /** `CursesUI.__call__`: one screen update before the loop, then the loop.
      A zero expected size raises in that first update; otherwise a
      returncode already set ends the call at once, and a normal return on a
      running child needs a poll that reported the exit. */
  function UiCall(ui: Ui, first: Sample, returncode: Option<int>, events: seq<Event>): (r: LoopEnd)
    ensures ui.expectedBytes == 0 ==> r == Raised(returncode)
    ensures ui.expectedBytes > 0 && returncode.Some? ==> r.Returned? && r.code == returncode.value
    ensures r.Returned? && returncode.None? ==> exists k :: FirstExitAt(events, k, r.code)
    ensures r.Pending? ==> returncode.None? && ui.expectedBytes > 0
  {
    match CheckFile(ui, first)
    case Failure(_) => Raised(returncode)
    case Success(u) =>
      var end := UiLoop(u.ui, returncode, events);
      if end.Returned? && returncode.None? then
        LoopReturnsOnlyAfterExit(u.ui, events, end.code);
        end
      else
        end
  }

  /** The child exits with `code` at event `k`, after only still-running ticks. */
  ghost predicate FirstExitAt(events: seq<Event>, k: int, code: int)
  {
    && 0 <= k < |events|
    && events[k].Tick? && events[k].poll == Exited(code)
    && forall j :: 0 <= j < k ==> events[j].Tick? && events[j].poll == StillRunning
  }

  /** A keyboard interrupt arrives at event `k`, after only still-running ticks. */
  ghost predicate FirstInterruptAt(events: seq<Event>, k: int)
  {
    && 0 <= k < |events|
    && events[k].Interrupt?
    && forall j :: 0 <= j < k ==> events[j].Tick? && events[j].poll == StillRunning
  }

  /** The loop only ends normally once a poll has reported the exit: it
      returns `code` exactly when, with a nonzero expected size, the first
      event that is not a still-running tick is a tick whose poll reports
      `code`. */
  lemma {:induction false} LoopReturnsOnlyAfterExit(ui: Ui, events: seq<Event>, code: int)
    ensures UiLoop(ui, None, events).Returned? && UiLoop(ui, None, events).code == code
            <==> ui.expectedBytes > 0 && exists k :: FirstExitAt(events, k, code)
    decreases |events|
  {
    var r := UiLoop(ui, None, events);
    if events == [] || ui.expectedBytes == 0 {
      if ui.expectedBytes == 0 && events != [] && events[0].Tick? {
        assert CheckFile(ui, events[0].sample).Failure?;
      }
    } else if events[0].Interrupt? {
      assert !FirstExitAt(events, 0, code);
      forall k | 0 < k < |events|
        ensures !FirstExitAt(events, k, code)
      {
        assert !(events[0].Tick?);
      }
    } else {
      var s, p := events[0].sample, events[0].poll;
      var ui' := CheckFile(ui, s).value.ui;
      assert r == UiLoop(ui', AfterPoll(p), events[1..]);
      if p.Exited? {
        assert r == Returned(p.code, ui');
        if r.code == code {
          assert FirstExitAt(events, 0, code);
        }
        forall k | 0 <= k < |events| && FirstExitAt(events, k, code)
          ensures k == 0 && p.code == code
        {
        }
      } else {
        LoopReturnsOnlyAfterExit(ui', events[1..], code);
        if exists k :: FirstExitAt(events[1..], k, code) {
          var k :| FirstExitAt(events[1..], k, code);
          assert FirstExitAt(events, k + 1, code);
        }
        if exists k :: FirstExitAt(events, k, code) {
          var k :| FirstExitAt(events, k, code);
          assert k > 0;
          assert FirstExitAt(events[1..], k - 1, code);
        }
      }
    }
  }

  /** With a nonzero expected size the loop is aborted exactly when an
      interrupt arrives before any poll has reported an exit. */
  lemma {:induction false} LoopAbortsOnlyOnInterrupt(ui: Ui, events: seq<Event>)
    requires ui.expectedBytes > 0
    ensures UiLoop(ui, None, events).Aborted? <==> exists k :: FirstInterruptAt(events, k)
    decreases |events|
  {
    if events == [] {
    } else if events[0].Interrupt? {
      assert FirstInterruptAt(events, 0);
    } else {
      var s, p := events[0].sample, events[0].poll;
      var ui' := CheckFile(ui, s).value.ui;
      assert UiLoop(ui, None, events) == UiLoop(ui', AfterPoll(p), events[1..]);
      if p.Exited? {
        assert !FirstInterruptAt(events, 0);
        forall k | 0 < k < |events|
          ensures !FirstInterruptAt(events, k)
        {
          assert !(events[0].Tick? && events[0].poll == StillRunning);
        }
      } else {
        LoopAbortsOnlyOnInterrupt(ui', events[1..]);
        if exists k :: FirstInterruptAt(events[1..], k) {
          var k :| FirstInterruptAt(events[1..], k);
          assert FirstInterruptAt(events, k + 1);
        }
        if exists k :: FirstInterruptAt(events, k) {
          var k :| FirstInterruptAt(events, k);
          assert k > 0;
          assert FirstInterruptAt(events[1..], k - 1);
        }
      }
    }
  }

  /** With a nonzero expected size no screen update raises, so the loop
      never ends in a crash. */
  lemma {:induction false} LoopNeverRaises(ui: Ui, returncode: Option<int>, events: seq<Event>)
    requires ui.expectedBytes > 0
    ensures !UiLoop(ui, returncode, events).Raised?
    decreases |events|
  {
    if returncode.None? && events != [] && events[0].Tick? {
      var s, p := events[0].sample, events[0].poll;
      var ui' := CheckFile(ui, s).value.ui;
      assert UiLoop(ui, returncode, events) == UiLoop(ui', AfterPoll(p), events[1..]);
      LoopNeverRaises(ui', AfterPoll(p), events[1..]);
    }
  }

  /** While the child keeps running, every tick's sample reaches the
      estimator: after a nonempty run of still-running ticks the loop is
      pending and the estimator's current sample is the last one seen. */
  lemma {:induction false} LoopFeedsEstimator(ui: Ui, events: seq<Event>)
    requires ui.expectedBytes > 0
    requires |events| > 0
    requires forall j :: 0 <= j < |events| ==> events[j].Tick? && events[j].poll == StillRunning
    ensures UiLoop(ui, None, events).Pending?
    ensures var last := events[|events| - 1].sample;
            && UiLoop(ui, None, events).ui.estimator.currentSize == SampleBytes(last)
            && UiLoop(ui, None, events).ui.estimator.currentTs == last.now
            && UiLoop(ui, None, events).ui.expectedBytes == ui.expectedBytes
    decreases |events|
  {
    var ui' := CheckFile(ui, events[0].sample).value.ui;
    assert UiLoop(ui, None, events) == UiLoop(ui', None, events[1..]);
    if |events| > 1 {
      LoopFeedsEstimator(ui', events[1..]);
      assert events[1..][|events[1..]| - 1] == events[|events| - 1];
    }
  }

  /** How `merge_vids` ended: it returned the child and the poll it made
      right after the start, or it raised after the temporary manifest had
      been created (writing it, opening the log or starting ffmpeg failed). */
  datatype Launch = Launched(poll: Poll) | LaunchRaised

  /** How `main`'s try block ends. */
  datatype Outcome =
    | Completed(code: int)              // the screen returned and the last directory was saved
    | Interrupted                       // KeyboardInterrupt: child killed, returncode forced to -1
    | Crashed(returncode: Option<int>)  // ZeroDivisionError escaped the screen
    | LaunchFailed                      // merge_vids raised: `proc` and `tfile` were never bound

  /** `main` from `merge_vids` on. `None` while the loop is still waiting
      for the child. */
  function Main(expectedBytes: nat, start: int, first: Sample, launch: Launch, events: seq<Event>): (o: Option<Outcome>)
    ensures launch.LaunchRaised? ==> o == Some(LaunchFailed)
    ensures launch.Launched? && expectedBytes == 0 ==> o == Some(Crashed(AfterPoll(launch.poll)))
    ensures launch.Launched? && launch.poll.Exited? && expectedBytes > 0 ==> o == Some(Completed(launch.poll.code))
    ensures o.None? ==> launch.Launched? && launch.poll.StillRunning? && expectedBytes > 0
    ensures o.Some? && o.value.Completed? && launch.Launched? && launch.poll.StillRunning?
            ==> exists k :: FirstExitAt(events, k, o.value.code)
  {
    match launch
    case LaunchRaised => Some(LaunchFailed)
    case Launched(p) =>
      match UiCall(NewUi(expectedBytes, start), first, AfterPoll(p), events)
      case Returned(code, _) => Some(Completed(code))
      case Aborted(_) => Some(Interrupted)
      case Raised(rc) => Some(Crashed(rc))
      case Pending(_) => None
  }

  /** The endings of `main` for a child still running after the launch and
      a nonzero expected size: it is interrupted exactly when an interrupt
      comes before any reported exit, it completes with `code` exactly when
      a poll reports `code` before any interrupt, and it never crashes. */
  lemma MainEndings(expectedBytes: nat, start: int, first: Sample, events: seq<Event>, code: int)
    requires expectedBytes > 0
    ensures var o := Main(expectedBytes, start, first, Launched(StillRunning), events);
            && (o == Some(Interrupted) <==> exists k :: FirstInterruptAt(events, k))
            && (o == Some(Completed(code)) <==> exists k :: FirstExitAt(events, k, code))
            && (o.Some? ==> o.value.Completed? || o.value.Interrupted?)
  {
    var ui := CheckFile(NewUi(expectedBytes, start), first).value.ui;
    assert UiCall(NewUi(expectedBytes, start), first, None, events) == UiLoop(ui, None, events);
    LoopAbortsOnlyOnInterrupt(ui, events);
    LoopReturnsOnlyAfterExit(ui, events, code);
    LoopNeverRaises(ui, None, events);
  }

  /** `proc.returncode` when the `finally` block reads it: -1 after an
      interrupt, the polled code after a normal return, whatever the child
      had at a crash, and nothing at all when `proc` was never bound. */
  function FinalReturncode(o: Outcome): (rc: Option<int>)
    ensures o.Completed? ==> rc == Some(o.code)
    ensures o.Interrupted? ==> rc == Some(-1)
    ensures o.Crashed? ==> rc == o.returncode
    ensures o.LaunchFailed? ==> rc.None?
  {
    match o
    case Completed(code) => Some(code)
    case Interrupted => Some(-1)
    case Crashed(rc) => rc
    case LaunchFailed => None
  }

  /** The side effects `main` performs once the try block has ended. */
  datatype Cleanup = Cleanup(killChild: bool, saveLastDir: bool, removeOutput: bool, removeManifest: bool)

  /** The except and finally blocks of `main`, as written. When `merge_vids`
      raised, `proc.returncode` in the `finally` block raises
      UnboundLocalError before either file is removed. */
  function Decide(o: Outcome): (c: Cleanup)
    ensures c.removeManifest <==> !o.LaunchFailed?
    ensures c.removeOutput <==> !o.LaunchFailed? && FinalReturncode(o) != Some(0)
    ensures c.killChild <==> o.Interrupted?
    ensures c.saveLastDir <==> o.Completed?
  {
    match o
    case Completed(code) => Cleanup(false, true, code != 0, true)
    case Interrupted => Cleanup(true, false, true, true)
    case Crashed(rc) => Cleanup(false, false, rc != Some(0), true)
    case LaunchFailed => Cleanup(false, false, false, false)
  }

  /** Once `merge_vids` has returned, the manifest is removed; the output is
      kept only after a clean exit (code 0); an interrupt always kills the
      child and removes the partial output; the directory is saved only when
      the loop ended because a poll had reported the exit. If `merge_vids`
      raised, nothing is removed. */
  lemma CleanupContract(expectedBytes: nat, start: int, first: Sample, launch: Launch, events: seq<Event>)
    requires Main(expectedBytes, start, first, launch, events).Some?
    ensures var o := Main(expectedBytes, start, first, launch, events).value;
            var c := Decide(o);
            && (c.removeManifest <==> launch.Launched?)
            && (o.Interrupted? ==> c.killChild && c.removeOutput && !c.saveLastDir)
            && (c.saveLastDir ==> o.Completed? && launch.Launched?
                                  && (launch.poll.Exited? || exists k :: FirstExitAt(events, k, o.code)))
            && (launch.Launched? && !c.removeOutput ==> FinalReturncode(o) == Some(0))
  {
  }

  /** A non-empty set of zero-byte files makes the first screen update
      divide by zero: nothing is saved and the output is removed unless the
      child had already exited cleanly. */
  lemma ZeroExpectedSizeCrashes(start: int, first: Sample, launchPoll: Poll, events: seq<Event>)
    ensures Main(0, start, first, Launched(launchPoll), events) == Some(Crashed(AfterPoll(launchPoll)))
    ensures !Decide(Crashed(AfterPoll(launchPoll))).saveLastDir
    ensures Decide(Crashed(AfterPoll(launchPoll))).removeOutput <==> launchPoll != Exited(0)
  {
  }

  /** As written, a `merge_vids` that raises after creating the
      `delete=False` manifest leaves it on disk: the `finally` block fails on
      the unbound `proc` before it reaches `os.remove(tfile)`. */
  lemma LaunchFailureKeepsManifest(expectedBytes: nat, start: int, first: Sample, events: seq<Event>)
    ensures Main(expectedBytes, start, first, LaunchRaised, events) == Some(LaunchFailed)
    ensures !Decide(LaunchFailed).removeManifest
  {
  }

  /** The cleanup the `finally` block evidently intends: the manifest is
      removed on every ending, and where `proc` is bound the decision is the
      one `Decide` makes. */
  function DecideGuarded(o: Outcome): (c: Cleanup)
    ensures c.removeManifest
    ensures !o.LaunchFailed? ==> c == Decide(o)
    ensures o.LaunchFailed? ==> !c.killChild && !c.saveLastDir && !c.removeOutput
  {
    if o.LaunchFailed? then Cleanup(false, false, false, true) else Decide(o)
  }

  /** With the guarded cleanup the manifest goes on every ending of `main`,
      including a failed launch, and nothing else changes. */
  lemma GuardedCleanupRemovesManifest(expectedBytes: nat, start: int, first: Sample, launch: Launch, events: seq<Event>)
    requires Main(expectedBytes, start, first, launch, events).Some?
    ensures var o := Main(expectedBytes, start, first, launch, events).value;
            && DecideGuarded(o).removeManifest
            && (launch.Launched? ==> DecideGuarded(o) == Decide(o))
  {
  }
}
