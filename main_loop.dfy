/**
 * One pass of the program's main loop, and the loop itself over a finite
 * sequence of poll outcomes. Each pass polls the scan channel first and the
 * input channel second; a poll either delivers a message, finds the channel
 * empty, or finds it disconnected. A disconnected channel or the 'q' key ends
 * the loop; the other keys map to `App` operations. Rendering, the sleep
 * between passes and the threads feeding the channels are not modelled.
 */
module MainLoop {
  import opened Wrappers
  import opened Kawaiifi
  import opened BssSorting
  import opened Application
  import B = BssTableWidget

  /** The outcome of `Receiver::try_recv`. */
  datatype TryRecv<T> = Received(message: T) | Empty | Disconnected

  /** The key codes the loop reacts to; `OtherKey` stands for every other code. */
  datatype KeyCode = Char(c: char) | Up | Down | Enter | OtherKey

  /** A terminal event: a key press, or anything else (mouse, resize, ...). */
  datatype Event = Key(code: KeyCode) | OtherEvent

  /** The outcomes of one pass's two polls: the scan channel's, then the input channel's. */
  datatype Poll = Poll(scan: TryRecv<seq<Bss>>, input: TryRecv<Event>)

  /** The key table: the app after the key, and whether the loop goes on. */
  function AfterKey(a: AppModel, code: KeyCode): (AppModel, bool) {
    match code
    case Char(c) =>
      if c == 'q' then (a, false)
      else if c == 'b' then (AfterSortBssTable(a, Bssid, Descending), true)
      else if c == 's' then (AfterSortBssTable(a, Ssid, Descending), true)
      else (a, true)
    case Up => (AfterSelectPrevious(a), true)
    case Down => (AfterSelectNext(a), true)
    case Enter => (AfterFocusNext(a), true)
    case OtherKey => (a, true)
  }

  /** Handling the input channel's poll. */
  function AfterInput(a: AppModel, input: TryRecv<Event>): (AppModel, bool) {
    match input
    case Received(event) =>
      (match event
       case Key(code) => AfterKey(a, code)
       case OtherEvent => (a, true))
    case Empty => (a, true)
    case Disconnected => (a, false)
  }

  /** One pass: the scan poll, then (unless the loop already ended) the input poll. */
  function Iteration(a: AppModel, p: Poll): (AppModel, bool) {
    match p.scan
    case Received(snapshot) => AfterInput(AfterUpdateScanResults(a, snapshot), p.input)
    case Empty => AfterInput(a, p.input)
    case Disconnected => (a, false)
  }

  /** The poll outcomes that end the loop. */
  predicate Stops(p: Poll) {
    p.scan.Disconnected? || p.input.Disconnected? || p.input == Received(Key(Char('q')))
  }

  /** The passes over `polls`, up to the first that ends the loop: the final app, and whether the loop is still running. */
  function Run(a: AppModel, polls: seq<Poll>): (AppModel, bool)
    decreases |polls|
  {
    if |polls| == 0 then (a, true)
    else
      var next := Iteration(a, polls[0]);
      if next.1 then Run(next.0, polls[1..]) else next
  }

  // Properties of one pass.

  /** The loop goes on exactly when no channel is disconnected and 'q' was not pressed. */
  lemma IterationContinues(a: AppModel, p: Poll)
    ensures Iteration(a, p).1 <==> !Stops(p)
  {
  }

  /** A key keeps the app valid, and only Enter moves the focus. */
  lemma AfterKeyValid(a: AppModel, code: KeyCode)
    requires ValidApp(a)
    ensures ValidApp(AfterKey(a, code).0)
    ensures code != Enter ==>
      AfterKey(a, code).0.bssTable.isFocused == a.bssTable.isFocused
      && AfterKey(a, code).0.ieTable.isFocused == a.ieTable.isFocused
  {
    match code
    case Char(c) =>
      if c == 'b' {
        SortBssTableValid(a, Bssid, Descending);
      } else if c == 's' {
        SortBssTableValid(a, Ssid, Descending);
      }
    case Up => SelectValid(a);
    case Down => SelectValid(a);
    case Enter => FocusNextSwaps(a);
    case OtherKey =>
  }

  /** The input poll keeps the app valid, and only Enter moves the focus. */
  lemma AfterInputValid(a: AppModel, input: TryRecv<Event>)
    requires ValidApp(a)
    ensures ValidApp(AfterInput(a, input).0)
    ensures input != Received(Key(Enter)) ==>
      AfterInput(a, input).0.bssTable.isFocused == a.bssTable.isFocused
      && AfterInput(a, input).0.ieTable.isFocused == a.ieTable.isFocused
  {
    if input.Received? && input.message.Key? {
      AfterKeyValid(a, input.message.code);
    }
  }

  /** A pass keeps the app valid, and only Enter moves the focus. */
  lemma IterationValid(a: AppModel, p: Poll)
    requires ValidApp(a)
    ensures ValidApp(Iteration(a, p).0)
    ensures p.input != Received(Key(Enter)) ==>
      Iteration(a, p).0.bssTable.isFocused == a.bssTable.isFocused
      && Iteration(a, p).0.ieTable.isFocused == a.ieTable.isFocused
  {
    match p.scan
    case Received(snapshot) =>
      UpdateScanResultsValid(a, snapshot);
      AfterInputValid(AfterUpdateScanResults(a, snapshot), p.input);
    case Empty =>
      AfterInputValid(a, p.input);
    case Disconnected =>
  }

  /** The scan poll is handled first: a delivered snapshot updates the app before the input is looked at. */
  lemma ScanBeforeInput(a: AppModel, snapshot: seq<Bss>, input: TryRecv<Event>)
    ensures Iteration(a, Poll(Received(snapshot), input)) == Iteration(AfterUpdateScanResults(a, snapshot), Poll(Empty, input))
    ensures Iteration(a, Poll(Received(snapshot), Empty)) == (AfterUpdateScanResults(a, snapshot), true)
  {
  }

  /**
   * An empty scan channel changes nothing, so the pass is the input poll
   * alone; a disconnected channel ends the loop with the app untouched.
   */
  lemma ScanEmptyOrDisconnected(a: AppModel, input: TryRecv<Event>)
    ensures Iteration(a, Poll(Empty, input)) == AfterInput(a, input)
    ensures Iteration(a, Poll(Empty, Empty)) == (a, true)
    ensures Iteration(a, Poll(Empty, Disconnected)) == (a, false)
    ensures Iteration(a, Poll(Disconnected, input)) == (a, false)
  {
  }

  /** 'q' ends the loop and leaves the app as the scan poll alone left it. */
  lemma QuitLeavesApp(a: AppModel, scan: TryRecv<seq<Bss>>)
    ensures Iteration(a, Poll(scan, Received(Key(Char('q'))))) == (Iteration(a, Poll(scan, Empty)).0, false)
  {
  }

  /** A non-key event, an unmapped key, an empty input channel: the pass is as if no input came. */
  lemma IdleInput(a: AppModel, scan: TryRecv<seq<Bss>>, input: TryRecv<Event>)
    requires || input == Received(OtherEvent)
             || input == Received(Key(OtherKey))
             || (input.Received? && input.message.Key? && input.message.code.Char?
                 && input.message.code.c !in {'q', 'b', 's'})
    ensures Iteration(a, Poll(scan, input)) == Iteration(a, Poll(scan, Empty))
  {
  }

  /**
   * 'b' and 's' sort the BSS table by BSSID and by SSID under `Descending`
   * (non-decreasing keys), keeping the records, selecting the first one and
   * keeping the focus.
   */
  lemma SortKeys(a: AppModel, c: char)
    requires ValidApp(a) && (c == 'b' || c == 's')
    ensures var r := Iteration(a, Poll(Empty, Received(Key(Char(c)))));
      var column := if c == 'b' then Bssid else Ssid;
      && r.1
      && r.0.bssTable.sorting == (column, Descending)
      && SortedBy(r.0.bssTable.scanResults, column, Descending)
      && multiset(r.0.bssTable.scanResults) == multiset(a.bssTable.scanResults)
      && r.0.bssTable.selected == (if |a.bssTable.scanResults| == 0 then a.bssTable.selected else Some(0))
      && r.0.bssTable.isFocused == a.bssTable.isFocused
  {
    var column := if c == 'b' then Bssid else Ssid;
    SortBssTableValid(a, column, Descending);
    B.SortValid(a.bssTable, column, Descending);
  }

  /** Up and Down move the focused table's selection one step; Enter hands the focus over. */
  lemma ArrowAndEnterKeys(a: AppModel)
    requires ValidApp(a)
    ensures Iteration(a, Poll(Empty, Received(Key(Up)))) == (AfterSelectPrevious(a), true)
    ensures Iteration(a, Poll(Empty, Received(Key(Down)))) == (AfterSelectNext(a), true)
    ensures var r := Iteration(a, Poll(Empty, Received(Key(Enter)))).0;
      r.bssTable.isFocused == !a.bssTable.isFocused && r.ieTable.isFocused == !a.ieTable.isFocused
  {
    FocusNextSwaps(a);
  }

  // Properties of the loop.

  /** The loop keeps the app valid however many passes it makes. */
  lemma {:induction false} RunValid(a: AppModel, polls: seq<Poll>)
    requires ValidApp(a)
    ensures ValidApp(Run(a, polls).0)
    decreases |polls|
  {
    if |polls| > 0 {
      IterationValid(a, polls[0]);
      var next := Iteration(a, polls[0]);
      if next.1 {
        RunValid(next.0, polls[1..]);
      }
    }
  }

  /** The loop has ended exactly when one of the passes saw a disconnected channel or 'q'. */
  lemma {:induction false} RunStopsIff(a: AppModel, polls: seq<Poll>)
    ensures !Run(a, polls).1 <==> exists k :: 0 <= k < |polls| && Stops(polls[k])
    decreases |polls|
  {
    if |polls| > 0 {
      IterationContinues(a, polls[0]);
      var next := Iteration(a, polls[0]);
      if next.1 {
        RunStopsIff(next.0, polls[1..]);
        if exists k :: 0 <= k < |polls| && Stops(polls[k]) {
          var k :| 0 <= k < |polls| && Stops(polls[k]);
          assert polls[1..][k - 1] == polls[k];
        }
        if exists k :: 0 <= k < |polls| - 1 && Stops(polls[1..][k]) {
          var k :| 0 <= k < |polls| - 1 && Stops(polls[1..][k]);
          assert polls[k + 1] == polls[1..][k];
        }
      }
    }
  }

  /** Once the loop has ended, later poll outcomes change nothing. */
  lemma {:induction false} RunIgnoresLaterPolls(a: AppModel, polls: seq<Poll>, later: seq<Poll>)
    requires !Run(a, polls).1
    ensures Run(a, polls + later) == Run(a, polls)
    decreases |polls|
  {
    assert |polls| > 0;
    assert (polls + later)[0] == polls[0];
    var next := Iteration(a, polls[0]);
    if next.1 {
      assert (polls + later)[1..] == polls[1..] + later;
      RunIgnoresLaterPolls(next.0, polls[1..], later);
    }
  }

  /** One pass of the loop body, performed on `app` in place; `running` is false where the source breaks out. */
  method Step(app: App, p: Poll) returns (running: bool)
    requires app.Valid()
    modifies app.bssTable, app.ieTable
    ensures app.Valid()
    ensures (app.Model(), running) == Iteration(old(app.Model()), p)
  {
    match p.scan {
      case Received(snapshot) => app.UpdateScanResults(snapshot);
      case Empty =>
      case Disconnected => return false;
    }
    running := true;
    match p.input {
      case Received(event) =>
        match event {
          case Key(code) =>
            match code {
              case Char(c) =>
                if c == 'q' {
                  running := false;
                } else if c == 'b' {
                  app.SortBssTable(Bssid, Descending);
                } else if c == 's' {
                  app.SortBssTable(Ssid, Descending);
                }
              case Up => app.SelectPrevious();
              case Down => app.SelectNext();
              case Enter => app.FocusNext();
              case OtherKey =>
            }
          case OtherEvent =>
        }
      case Empty =>
      case Disconnected => running := false;
    }
  }

  /** `Run` over a suffix of `polls` takes the suffix's first pass and goes on with the next suffix. */
  lemma RunUnfolds(a: AppModel, polls: seq<Poll>, i: nat)
    requires i < |polls|
    ensures Run(a, polls[i..]) ==
      var next := Iteration(a, polls[i]);
      if next.1 then Run(next.0, polls[i + 1..]) else next
  {
    assert polls[i..][0] == polls[i];
    assert polls[i..][1..] == polls[i + 1..];
  }

  /** The main loop over the poll outcomes `polls`, stopping at the first pass that breaks out. */
  method RunLoop(app: App, polls: seq<Poll>) returns (running: bool)
    requires app.Valid()
    modifies app.bssTable, app.ieTable
    ensures app.Valid()
    ensures (app.Model(), running) == Run(old(app.Model()), polls)
  {
    ghost var start := app.Model();
    var i := 0;
    running := true;
    while running && i < |polls|
      invariant 0 <= i <= |polls|
      invariant app.Valid()
      invariant Run(start, polls) == if running then Run(app.Model(), polls[i..]) else (app.Model(), false)
      decreases |polls| - i
    {
      RunUnfolds(app.Model(), polls, i);
      running := Step(app, polls[i]);
      i := i + 1;
    }
    if running {
      assert polls[i..] == [];
    }
  }
}
