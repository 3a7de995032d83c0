/**
 The block scanner: a stored height, a window of at most a hundred blocks above it, and what is stored after
 each run. Blocks are fetched one by one; the batch mode is not modelled.
 */
module BlockScanner {
  import opened Wrappers
  import opened BlockAggregation

  const MAX_NUM := 100

  datatype ScanError = NoHeight | NotParsed

  /** What one run meets: its arguments, the explorer's answer for the head, and for each height. */
  datatype Run = Run(after: Option<int>, to: Option<int>, head: Option<int>, fetch: int -> Option<Block>, o: Options)

  /** Python's truth of an optional number. */
  predicate Truthy(n: Option<int>) {
    n.Some? && n.value != 0
  }

  function Mined(run: Run): (r: Result<int, ScanError>) {
    if Truthy(run.to) then Success(run.to.value)
    else if Truthy(run.head) then Success(run.head.value)
    else Failure(NoHeight)
  }

  function Processed(run: Run, cursor: Option<int>, mined: int): int {
    if Truthy(run.after) then run.after.value
    else if cursor.Some? then cursor.value
    else mined - 5
  }

  /** The first height of the window. */
  function Lowest(mined: int, processed: int): int {
    if mined > processed then processed + 1 else mined + 1
  }

  /** The first height above the window. */
  function Highest(mined: int, processed: int): (hi: int)
    ensures Lowest(mined, processed) <= hi <= mined + 1
  {
    var lo := Lowest(mined, processed);
    if mined + 1 < lo + MAX_NUM then mined + 1 else lo + MAX_NUM
  }

  /** The window that a run scans, if the height of the chain is known. */
  function Window(run: Run, cursor: Option<int>): (r: Result<(int, int), ScanError>)
    ensures r.Success? ==> r.value.0 <= r.value.1
  {
    match Mined(run)
    case Failure(e) => Failure(e)
    case Success(mined) =>
      var processed := Processed(run, cursor, mined);
      Success((Lowest(mined, processed), Highest(mined, processed)))
  }

  /** The first height at or above `lo` that cannot be fetched, or `hi`. */
  function Stop(fetch: int -> Option<Block>, lo: int, hi: int): (s: int)
    requires lo <= hi
    ensures lo <= s <= hi
    ensures forall h :: lo <= h < s ==> fetch(h).Some?
    ensures s < hi ==> fetch(s).None?
    decreases hi - lo
  {
    if lo == hi || fetch(lo).None? then lo else Stop(fetch, lo + 1, hi)
  }

  function Fetched(fetch: int -> Option<Block>, lo: int, s: int): (blocks: seq<Block>)
    requires lo <= s && forall h :: lo <= h < s ==> fetch(h).Some?
    ensures |blocks| == s - lo
  {
    seq(s - lo, i requires 0 <= i < s - lo => fetch(lo + i).value)
  }

  /** The loop variable after the loop: where it stopped, or the last height of a window that was fetched in full. */
  function LastTried(lo: int, hi: int, s: int): int {
    if lo < hi && s == hi then hi - 1 else s
  }

  function Heights(lo: int, hi: int): (hs: set<int>)
    ensures forall h :: h in hs <==> lo <= h < hi
    decreases hi - lo
  {
    if lo >= hi then {} else {lo} + Heights(lo + 1, hi)
  }

  // ----- the state machine -----

  /** The stored height, the first height scanned since the scan was last started anew, and the heights that were
      fetched and aggregated in a run that did not raise. */
  datatype State = State(cursor: Option<int>, start: Option<int>, done: set<int>)

  const INITIAL: State := State(None, None, {})

  /** The source runs, or the cache loses the stored height. */
  datatype Event = Scan(run: Run) | Expire

  /** An event that starts the scan anew: the loss of the stored height, or a run with an explicit start. */
  predicate Restarts(event: Event) {
    event.Expire? || Truthy(event.run.after)
  }

  function Step(s: State, event: Event): State {
    match event
    case Expire => State(None, None, s.done)
    case Scan(run) => RunStep(s, run)
  }

  /** One run. A run that raises leaves everything as it was. */
  function RunStep(s: State, run: Run): State {
    match Mined(run)
    case Failure(_) => s
    case Success(mined) =>
      var processed := Processed(run, s.cursor, mined);
      var lo, hi := Lowest(mined, processed), Highest(mined, processed);
      var stop := Stop(run.fetch, lo, hi);
      if Accepted(Fetched(run.fetch, lo, stop)).Failure? then s
      else State(Some(LastTried(lo, hi, stop) - 1),
                 if s.start.Some? && !Truthy(run.after) then s.start else Some(lo),
                 s.done + Heights(lo, stop))
  }

  function Steps(s: State, events: seq<Event>): State {
    if events == [] then s else Step(Steps(s, events[..|events| - 1]), events[|events| - 1])
  }

  // ----- no height is skipped -----

  ghost predicate NoGap(s: State) {
    && (s.cursor.Some? <==> s.start.Some?)
    && (s.cursor.Some? ==> forall h :: s.start.value <= h <= s.cursor.value ==> h in s.done)
  }

  lemma StepKeepsNoGap(s: State, event: Event)
    requires NoGap(s)
    ensures NoGap(Step(s, event))
  {
    match event
    case Expire =>
    case Scan(run) => RunKeepsNoGap(s, run);
  }

  lemma RunKeepsNoGap(s: State, run: Run)
    requires NoGap(s)
    ensures NoGap(RunStep(s, run))
  {
    if Mined(run).Success? {
      var mined := Mined(run).value;
      var processed := Processed(run, s.cursor, mined);
      var lo, hi := Lowest(mined, processed), Highest(mined, processed);
      var stop := Stop(run.fetch, lo, hi);
      var t := RunStep(s, run);
      if t != s {
        forall h | t.start.value <= h <= t.cursor.value ensures h in t.done {
          if h < lo {
            assert h <= s.cursor.value;
          } else {
            assert lo <= h < stop;
          }
        }
      }
    }
  }

  /** Over every sequence of runs and losses of the stored height, every height from the lowest of the first run since
      the scan was last started anew through the stored height has been fetched and aggregated in a run that did not
      raise. */
  lemma {:induction false} RunsKeepNoGap(events: seq<Event>)
    ensures NoGap(Steps(INITIAL, events))
  {
    if events == [] {
    } else {
      var n := |events| - 1;
      RunsKeepNoGap(events[..n]);
      StepKeepsNoGap(Steps(INITIAL, events[..n]), events[n]);
    }
  }

  /** As long as nothing starts the scan anew, the first height scanned stays the same. */
  lemma {:induction false} StartStays(s: State, events: seq<Event>)
    requires s.start.Some? && forall i :: 0 <= i < |events| ==> !Restarts(events[i])
    ensures Steps(s, events).start == s.start
  {
    if events == [] {
    } else {
      StartStays(s, events[..|events| - 1]);
    }
  }

  // ----- what a run stores -----

  /** An argument that is not 0 counts, and 0 counts like none; without a height the run raises. */
  lemma MinedIs(run: Run)
    ensures run.to.Some? && run.to.value != 0 ==> Mined(run) == Success(run.to.value)
    ensures (run.to.None? || run.to.value == 0) && run.head.Some? && run.head.value != 0 ==> Mined(run) == Success(run.head.value)
    ensures (run.to.None? || run.to.value == 0) && (run.head.None? || run.head.value == 0) ==> Mined(run) == Failure(NoHeight)
    ensures Truthy(run.after) <==> run.after.Some? && run.after.value != 0
  {
  }

  /** Where the window starts: above the explicit start, above the stored height, or four blocks below the head. It has
      at most a hundred blocks and ends at the head. */
  lemma WindowIs(run: Run, cursor: Option<int>, mined: int, lo: int, hi: int)
    requires Mined(run) == Success(mined) && Window(run, cursor) == Success((lo, hi))
    ensures Truthy(run.after) && run.after.value < mined ==> lo == run.after.value + 1
    ensures !Truthy(run.after) && cursor.Some? && cursor.value < mined ==> lo == cursor.value + 1
    ensures !Truthy(run.after) && cursor.None? ==> lo == mined - 4
    ensures !Truthy(run.after) && cursor.Some? && cursor.value >= mined ==> lo == hi == mined + 1
    ensures hi <= mined + 1 && hi - lo <= 100 && (hi - lo < 100 ==> hi == mined + 1)
  {
  }

  /** A block that does not parse below the first failed fetch: the run raises and nothing is stored. */
  lemma BrokenStays(s: State, run: Run, lo: int, hi: int, h: int)
    requires Window(run, s.cursor) == Success((lo, hi)) && lo <= h < Stop(run.fetch, lo, hi)
    requires Broken(run.fetch(h).value)
    ensures RunStep(s, run) == s
  {
    var blocks := Fetched(run.fetch, lo, Stop(run.fetch, lo, hi));
    assert blocks[h - lo] == run.fetch(h).value;
    AcceptedFails(blocks);
  }

  /** A fetch that fails, after blocks that parse: the height below the failed one is stored. */
  lemma FailedFetchStores(s: State, run: Run, lo: int, hi: int, failed: int)
    requires Window(run, s.cursor) == Success((lo, hi)) && lo <= failed < hi && run.fetch(failed).None?
    requires forall h :: lo <= h < failed ==> Readable(run.fetch(h))
    ensures RunStep(s, run).cursor == Some(failed - 1)
    ensures RunStep(s, run).done == s.done + Heights(lo, failed)
  {
    StopsAt(run.fetch, lo, hi, failed);
    ReadableAccepted(Fetched(run.fetch, lo, failed));
  }

  lemma {:induction false} StopsAt(fetch: int -> Option<Block>, lo: int, hi: int, failed: int)
    requires lo <= failed < hi && fetch(failed).None? && forall h :: lo <= h < failed ==> fetch(h).Some?
    ensures Stop(fetch, lo, hi) == failed
    decreases hi - lo
  {
    if lo == failed {
    } else {
      StopsAt(fetch, lo + 1, hi, failed);
    }
  }

  /** A window that is fetched in full: the height below its last block is stored, and the head if it is empty. */
  lemma FullWindowStores(s: State, run: Run, lo: int, hi: int)
    requires Window(run, s.cursor) == Success((lo, hi)) && forall h :: lo <= h < hi ==> Readable(run.fetch(h))
    ensures RunStep(s, run).cursor == Some(if lo < hi then hi - 2 else lo - 1)
    ensures RunStep(s, run).done == s.done + Heights(lo, hi)
  {
    NeverStops(run.fetch, lo, hi);
    ReadableAccepted(Fetched(run.fetch, lo, hi));
  }

  // ----- clean runs make progress, up to the block below the head -----

  /** A run at a given head in which every block above `from` can be fetched and parsed. */
  ghost predicate Clean(run: Run, from: int, mined: int) {
    && !Truthy(run.after) && Mined(run) == Success(mined)
    && forall h :: from < h <= mined ==> Readable(run.fetch(h))
  }

  /** A block that can be fetched and parsed. */
  predicate Readable(block: Option<Block>) {
    block.Some? && block.value.Txs? && AcceptedTxs(block.value.txs).Success?
  }

  lemma {:induction false} ReadableAccepted(blocks: seq<Block>)
    requires forall i :: 0 <= i < |blocks| ==> Readable(Some(blocks[i]))
    ensures Accepted(blocks).Success?
  {
    if blocks == [] {
    } else {
      ReadableAccepted(blocks[..|blocks| - 1]);
    }
  }

  function Min(a: int, b: int): int {
    if a < b then a else b
  }

  lemma NeverStops(fetch: int -> Option<Block>, lo: int, hi: int)
    requires lo <= hi && forall h :: lo <= h < hi ==> fetch(h).Some?
    ensures Stop(fetch, lo, hi) == hi
  {
  }

  /** A clean run with `k` blocks to read reads `Min(k, 100)` of them and stores one block less. */
  lemma CleanStep(s: State, run: Run, from: int, mined: int)
    requires s.cursor.Some? && from <= s.cursor.value < mined && Clean(run, from, mined)
    ensures var c, k := s.cursor.value, Min(mined - s.cursor.value, MAX_NUM);
      && RunStep(s, run).cursor == Some(c + k - 1)
      && RunStep(s, run).done == s.done + Heights(c + 1, c + k + 1)
      && RunStep(s, run).start == (if s.start.Some? then s.start else Some(c + 1))
  {
    var lo, hi := Lowest(mined, s.cursor.value), Highest(mined, s.cursor.value);
    var stop := Stop(run.fetch, lo, hi);
    NeverStops(run.fetch, lo, hi);
    ReadableAccepted(Fetched(run.fetch, lo, hi));
  }

  lemma NextClean(mined: int, reach: int, c: int)
    requires c == Min(mined - 1, reach)
    ensures c + Min(mined - c, MAX_NUM) - 1 == Min(mined - 1, reach + 99)
  {
  }

  lemma CleanCursor(s: State, run: Run, from: int, mined: int, reach: int)
    requires from <= reach && from < mined && s.cursor == Some(Min(mined - 1, reach)) && Clean(run, from, mined)
    ensures RunStep(s, run).cursor == Some(Min(mined - 1, reach + 99))
  {
    CleanStep(s, run, from, mined);
    NextClean(mined, reach, s.cursor.value);
  }

  ghost predicate AllClean(events: seq<Event>, from: int, mined: int) {
    forall i :: 0 <= i < |events| ==> events[i].Scan? && Clean(events[i].run, from, mined)
  }

  lemma AllCleanLast(events: seq<Event>, from: int, mined: int)
    requires events != [] && AllClean(events, from, mined)
    ensures var n := |events| - 1;
      AllClean(events[..n], from, mined) && events[n].Scan? && Clean(events[n].run, from, mined)
  {
  }

  /** The height that `n` clean runs reach from the height `from`: 99 blocks further for each run, but never above the
      block below the head. */
  function Reach(from: int, n: nat, mined: int): int {
    Min(mined - 1, from + 99 * n)
  }

  lemma CleanLast(s: State, run: Run, from: int, n: nat, mined: int)
    requires from < mined && Clean(run, from, mined) && s.cursor == Some(Reach(from, n, mined))
    ensures RunStep(s, run).cursor == Some(Reach(from, n + 1, mined))
  {
    CleanCursor(s, run, from, mined, from + 99 * n);
  }

  lemma StepsLast(s: State, events: seq<Event>, before: State, run: Run)
    requires events != [] && before == Steps(s, events[..|events| - 1]) && events[|events| - 1] == Scan(run)
    ensures Steps(s, events) == RunStep(before, run)
  {
  }

  /** After `n` clean runs at a fixed head the stored height is 99 blocks further for each run, but never above the
      block below the head. The head itself is read again and again. */
  lemma CleanRuns(s: State, events: seq<Event>, mined: int)
    requires s.cursor.Some? && s.cursor.value < mined
    requires AllClean(events, s.cursor.value, mined)
    ensures Steps(s, events).cursor == Some(Reach(s.cursor.value, |events|, mined))
  {
    var _ := CleanState(s, events, mined);
  }

  lemma {:induction false} CleanState(s: State, events: seq<Event>, mined: int) returns (t: State)
    requires s.cursor.Some? && s.cursor.value < mined
    requires AllClean(events, s.cursor.value, mined)
    ensures t == Steps(s, events) && t.cursor == Some(Reach(s.cursor.value, |events|, mined))
  {
    if events == [] {
      t := s;
    } else {
      var n := |events| - 1;
      var run := events[n].run;
      AllCleanLast(events, s.cursor.value, mined);
      var before := CleanState(s, events[..n], mined);
      t := RunStep(before, run);
      CleanLast(before, run, s.cursor.value, n, mined);
      StepsLast(s, events, before, run);
    }
  }

  // ----- the scanner -----

  class Scanner {
    /** The stored height. */
    var cursor: Option<int>

    /** What has been scanned, for the proof. */
    ghost var history: State

    ghost predicate Valid()
      reads this
    {
      cursor == history.cursor && NoGap(history)
    }

    constructor ()
      ensures Valid() && cursor == None
    {
      cursor := None;
      history := INITIAL;
    }

    /** The cache loses the stored height. */
    method LoseCursor()
      requires Valid()
      modifies this
      ensures Valid() && cursor == None && history == Step(old(history), Expire)
    {
      history := Step(history, Expire);
      cursor := None;
    }

    /** One run: the index reports exactly the blocks of the window below the first that could not be fetched. */
    method GetLatestBlock(run: Run) returns (r: Result<(Index, int), ScanError>)
      requires Valid()
      modifies this
      ensures Valid() && history == Step(old(history), Scan(run))
      ensures match Window(run, old(cursor))
        case Failure(e) => r == Failure(e) && cursor == old(cursor)
        case Success((lo, hi)) =>
          match Accepted(Fetched(run.fetch, lo, Stop(run.fetch, lo, hi)))
          case Failure(_) => r == Failure(NotParsed) && cursor == old(cursor)
          case Success(ts) => r.Success? && Describes(r.value.0, ts, run.o) && cursor == Some(r.value.1)
    {
      var window := Window(run, cursor);
      if window.Failure? {
        return Failure(window.error);
      }
      var (lo, hi) := window.value;
      var blocks, height := FetchBlocks(run.fetch, lo, hi);
      var index := GetBlockAddresses(blocks, run.o);
      if index.Failure? {
        return Failure(NotParsed);
      }
      StepKeepsNoGap(history, Scan(run));
      history := Step(history, Scan(run));
      cursor := Some(height - 1);
      r := Success((index.value, height - 1));
    }
  }

  /** The fetch loop: it ends at the first failure, with the loop variable at the height that failed. */
  method FetchBlocks(fetch: int -> Option<Block>, lo: int, hi: int) returns (blocks: seq<Block>, height: int)
    requires lo <= hi
    ensures blocks == Fetched(fetch, lo, Stop(fetch, lo, hi))
    ensures height == LastTried(lo, hi, Stop(fetch, lo, hi))
  {
    blocks, height := [], lo;
    var next := lo;
    while next < hi
      invariant lo <= next <= hi && forall h :: lo <= h < next ==> fetch(h).Some?
      invariant blocks == Fetched(fetch, lo, next)
      invariant Stop(fetch, lo, hi) == Stop(fetch, next, hi)
      invariant height == if next == lo then lo else next - 1
    {
      height := next;
      var block := fetch(height);
      if block.None? {
        return;
      }
      blocks := blocks + [block.value];
      next := next + 1;
    }
  }
}
