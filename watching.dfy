/**
 The change detector of the watcher. Two loops call the same callback: the
 poll loop, when the watched file's modification time differs from the one
 stored on the watcher, and the stdin listener, when a line reads exactly
 `reload`. Only the poll loop writes the stored time, which starts at 0.

 The operating system is abstracted: a poll receives what `os.stat` reported
 (a time, or a missing file) and the listener receives the line `input()`
 returned. Timestamps are reals, since `st_mtime` is a float compared only by
 equality. The two loops run on separate threads; their steps are modelled as
 one sequential history of events, and the pure functions below give the
 callback invocations any such history produces.
 */
module Watching {

  /** What `os.stat` reports for the watched file. */
  datatype Stat = Mtime(stamp: real) | Missing

  /** Which loop invoked the callback. */
  datatype Cause = Poll | Reload

  /** One step of either loop: a successful poll, or a line read from stdin. */
  datatype Event = Polled(stamp: real) | Typed(line: string)

  /** The outcome of one poll: the callback ran, nothing changed, or `os.stat` raised. */
  datatype PollResult = Fired | Unchanged | StatFailed

  /** The initial stored modification time. */
  const Sentinel: real := 0.0

  /** The one command the stdin listener recognises. */
  const ReloadCommand: string := "reload"

  /** Callback invocations of one step, given the stored time `prev`. */
  function Fire(prev: real, e: Event): seq<Cause>
  {
    match e
    case Polled(s) => if s != prev then [Poll] else []
    case Typed(line) => if line == ReloadCommand then [Reload] else []
  }

  /** The stored time after one step. */
  function Next(prev: real, e: Event): real
  {
    match e
    case Polled(s) => s
    case Typed(_) => prev
  }

  /** The stored time after a history of steps. */
  function StampAfter(prev: real, events: seq<Event>): real
    decreases events
  {
    if events == [] then prev else StampAfter(Next(prev, events[0]), events[1..])
  }

  /** The callback invocations of a history of steps, in order. */
  function Firings(prev: real, events: seq<Event>): seq<Cause>
    decreases events
  {
    if events == [] then [] else Fire(prev, events[0]) + Firings(Next(prev, events[0]), events[1..])
  }

  /** The polls of a history, in order (what the poll loop alone did). */
  function PollsOf(events: seq<Event>): seq<Event>
  {
    if events == [] then []
    else (if events[0].Polled? then [events[0]] else []) + PollsOf(events[1..])
  }

  /** The number of `reload` lines in a history. */
  function ReloadLines(events: seq<Event>): nat
  {
    if events == [] then 0
    else (if events[0] == Typed(ReloadCommand) then 1 else 0) + ReloadLines(events[1..])
  }

  /** The invocations of one cause in a trace. */
  function Only(trace: seq<Cause>, c: Cause): seq<Cause>
  {
    if trace == [] then [] else (if trace[0] == c then [trace[0]] else []) + Only(trace[1..], c)
  }

  /** The stamp of the most recent poll of a history, or `prev` if it has none. */
  function LastPolled(prev: real, events: seq<Event>): real
  {
    if events == [] then prev
    else if events[|events| - 1].Polled? then events[|events| - 1].stamp
    else LastPolled(prev, events[..|events| - 1])
  }

  /** The events of the poll loop for a series of `os.stat` results: one poll per
      reported time, up to the first missing file, where the loop stops. */
  function Observed(stats: seq<Stat>): seq<Event>
  {
    if stats == [] then []
    else match stats[0]
      case Missing => []
      case Mtime(s) => [Polled(s)] + Observed(stats[1..])
  }

  /** The events of the stdin listener for a series of lines. */
  function AsLines(lines: seq<string>): seq<Event>
  {
    seq(|lines|, k requires 0 <= k < |lines| => Typed(lines[k]))
  }

  /** A history can be run in two pieces. */
  lemma {:induction false} FiringsAppend(prev: real, a: seq<Event>, b: seq<Event>)
    decreases a
    ensures Firings(prev, a + b) == Firings(prev, a) + Firings(StampAfter(prev, a), b)
    ensures StampAfter(prev, a + b) == StampAfter(StampAfter(prev, a), b)
  {
    if a != [] {
      assert (a + b)[0] == a[0];
      assert (a + b)[1..] == a[1..] + b;
      FiringsAppend(Next(prev, a[0]), a[1..], b);
    } else {
      assert a + b == b;
    }
  }

  /** One more step at the end of a history. */
  lemma FiringsSnoc(prev: real, a: seq<Event>, e: Event)
    ensures Firings(prev, a + [e]) == Firings(prev, a) + Fire(StampAfter(prev, a), e)
    ensures StampAfter(prev, a + [e]) == Next(StampAfter(prev, a), e)
  {
    FiringsAppend(prev, a, [e]);
    assert [e][1..] == [];
  }

  /** The stored time is always the stamp of the most recent poll, or the initial one. */
  lemma {:induction false} StampIsLastPoll(prev: real, events: seq<Event>)
    decreases events
    ensures StampAfter(prev, events) == LastPolled(prev, events)
  {
    if events != [] {
      var init := events[..|events| - 1];
      var last := events[|events| - 1];
      assert events == init + [last];
      FiringsAppend(prev, init, [last]);
      StampIsLastPoll(prev, init);
    }
  }

  lemma {:induction false} OnlyAppend(a: seq<Cause>, b: seq<Cause>, c: Cause)
    ensures Only(a + b, c) == Only(a, c) + Only(b, c)
  {
    if a != [] {
      assert (a + b)[0] == a[0];
      assert (a + b)[1..] == a[1..] + b;
      OnlyAppend(a[1..], b, c);
    } else {
      assert a + b == b;
    }
  }

  /** The merged trace splits by cause: the polls fire exactly as the poll loop
      alone would (lines never touch the stored time), and there is one reload
      per line that is exactly `reload` and none for any other line. */
  lemma {:induction false} FiringSources(prev: real, events: seq<Event>)
    decreases events
    ensures StampAfter(prev, events) == StampAfter(prev, PollsOf(events))
    ensures Only(Firings(prev, events), Poll) == Firings(prev, PollsOf(events))
    ensures |Only(Firings(prev, events), Reload)| == ReloadLines(events)
  {
    if events != [] {
      var e, rest := events[0], events[1..];
      FiringSources(Next(prev, e), rest);
      OnlyAppend(Fire(prev, e), Firings(Next(prev, e), rest), Poll);
      OnlyAppend(Fire(prev, e), Firings(Next(prev, e), rest), Reload);
      if e.Polled? {
        assert PollsOf(events) == [e] + PollsOf(rest);
        assert ([e] + PollsOf(rest))[1..] == PollsOf(rest);
      } else {
        assert PollsOf(events) == PollsOf(rest);
      }
    }
  }

  /** Two consecutive polls that see the same time fire at most once:
      the second one is invisible anywhere in a history. */
  lemma RepeatedPollSilent(prev: real, a: seq<Event>, s: real, b: seq<Event>)
    ensures Firings(prev, a + [Polled(s), Polled(s)] + b) == Firings(prev, a + [Polled(s)] + b)
    ensures StampAfter(prev, a + [Polled(s), Polled(s)] + b) == StampAfter(prev, a + [Polled(s)] + b)
  {
    var mid := StampAfter(prev, a);
    FiringsAppend(prev, a, [Polled(s), Polled(s)] + b);
    FiringsAppend(prev, a, [Polled(s)] + b);
    assert a + [Polled(s), Polled(s)] + b == a + ([Polled(s), Polled(s)] + b);
    assert a + [Polled(s)] + b == a + ([Polled(s)] + b);
    assert ([Polled(s), Polled(s)] + b)[1..] == [Polled(s)] + b;
    assert ([Polled(s)] + b)[1..] == b;
    assert ([Polled(s)] + b)[0] == Polled(s);
  }

  /** Lines read from stdin leave the stored time alone. */
  lemma {:induction false} LinesKeepStamp(prev: real, lines: seq<string>)
    decreases lines
    ensures StampAfter(prev, AsLines(lines)) == prev
  {
    if lines != [] {
      assert AsLines(lines)[1..] == AsLines(lines[1..]);
      LinesKeepStamp(prev, lines[1..]);
    }
  }

  /** The listener fires one reload for each line that is exactly `reload`, and nothing else. */
  lemma {:induction false} LinesFireReloads(prev: real, lines: seq<string>)
    decreases lines
    ensures forall k :: 0 <= k < |Firings(prev, AsLines(lines))| ==> Firings(prev, AsLines(lines))[k] == Reload
    ensures |Firings(prev, AsLines(lines))| == ReloadLines(AsLines(lines))
  {
    if lines != [] {
      assert AsLines(lines)[1..] == AsLines(lines[1..]);
      LinesFireReloads(prev, lines[1..]);
    }
  }

  /** A new watcher's first poll fires exactly when the reported time is not 0,
      whatever lines were read before it. */
  lemma NewWatcherFirstPoll(lines: seq<string>, s: real)
    ensures Firings(Sentinel, AsLines(lines) + [Polled(s)]) ==
      Firings(Sentinel, AsLines(lines)) + (if s != 0.0 then [Poll] else [])
  {
    FiringsAppend(Sentinel, AsLines(lines), [Polled(s)]);
    LinesKeepStamp(Sentinel, lines);
  }

  /** Polls run in pieces, as long as the first piece has no missing file. */
  lemma {:induction false} ObservedAppend(a: seq<Stat>, b: seq<Stat>)
    requires forall k :: 0 <= k < |a| ==> a[k].Mtime?
    ensures Observed(a + b) == Observed(a) + Observed(b)
  {
    if a != [] {
      assert (a + b)[0] == a[0];
      assert (a + b)[1..] == a[1..] + b;
      ObservedAppend(a[1..], b);
    } else {
      assert a + b == b;
    }
  }

  /** One more successful poll of the poll loop. */
  lemma ObservedSnoc(stats: seq<Stat>, i: int)
    requires 0 <= i < |stats|
    requires forall k :: 0 <= k <= i ==> stats[k].Mtime?
    ensures Observed(stats[..i + 1]) == Observed(stats[..i]) + [Polled(stats[i].stamp)]
  {
    assert stats[..i + 1] == stats[..i] + [stats[i]];
    ObservedAppend(stats[..i], [stats[i]]);
    assert [stats[i]][1..] == [];
  }

  /** A missing file ends the poll loop. */
  lemma ObservedStop(stats: seq<Stat>, i: int)
    requires 0 <= i < |stats|
    requires forall k :: 0 <= k < i ==> stats[k].Mtime?
    requires stats[i].Missing?
    ensures Observed(stats) == Observed(stats[..i])
  {
    assert stats == stats[..i] + stats[i..];
    ObservedAppend(stats[..i], stats[i..]);
    assert Observed(stats[..i]) + [] == Observed(stats[..i]);
  }

  class Watcher {
    /** The watched file; `os.stat` on it is what a poll receives. */
    const filename: string
    /** `_prev_stamp`: the modification time seen by the latest poll. */
    var prevStamp: real
    /** Every step taken so far, of both loops, in the order they happened. */
    ghost var history: seq<Event>
    /** Every callback invocation so far, in order. */
    ghost var calls: seq<Cause>

    ghost predicate Valid()
      reads this
    {
      && prevStamp == StampAfter(Sentinel, history)
      && calls == Firings(Sentinel, history)
    }

    constructor (filename: string)
      ensures Valid()
      ensures this.filename == filename && prevStamp == Sentinel
      ensures history == [] && calls == []
    {
      this.filename := filename;
      prevStamp := Sentinel;
      history := [];
      calls := [];
    }

    /** `look_changes`: one poll of the file's modification time. */
    method LookChanges(stat: Stat) returns (r: PollResult)
      requires Valid()
      modifies this
      ensures Valid()
      ensures stat.Missing? ==>
        r == StatFailed && prevStamp == old(prevStamp) && history == old(history) && calls == old(calls)
      ensures stat.Mtime? ==>
        && (r == Fired <==> stat.stamp != old(prevStamp))
        && (r == Unchanged <==> stat.stamp == old(prevStamp))
        && prevStamp == stat.stamp
        && history == old(history) + [Polled(stat.stamp)]
        && calls == old(calls) + (if r == Fired then [Poll] else [])
    {
      match stat
      case Missing =>
        r := StatFailed;
      case Mtime(curr) =>
        FiringsSnoc(Sentinel, history, Polled(curr));
        if curr != prevStamp {
          calls := calls + [Poll];
          prevStamp := curr;
          r := Fired;
        } else {
          r := Unchanged;
        }
        history := history + [Polled(curr)];
    }

    /** The body of the `check_stdin` loop for one line read from stdin. */
    method CheckStdinLine(line: string) returns (fired: bool)
      requires Valid()
      modifies this
      ensures Valid()
      ensures fired <==> line == ReloadCommand
      ensures prevStamp == old(prevStamp)
      ensures history == old(history) + [Typed(line)]
      ensures calls == old(calls) + (if fired then [Reload] else [])
    {
      FiringsSnoc(Sentinel, history, Typed(line));
      fired := line == ReloadCommand;
      if fired {
        calls := calls + [Reload];
      }
      history := history + [Typed(line)];
    }

    /** The `watch` loop over a finite series of `os.stat` results: poll until
        the series ends or the file is missing, which ends the loop with an error. */
    method Watch(stats: seq<Stat>) returns (failed: bool)
      requires Valid()
      modifies this
      ensures Valid()
      ensures failed <==> Missing in stats
      ensures history == old(history) + Observed(stats)
      ensures calls == old(calls) + Firings(old(prevStamp), Observed(stats))
      ensures prevStamp == StampAfter(old(prevStamp), Observed(stats))
    {
      var i := 0;
      while i < |stats|
        invariant 0 <= i <= |stats|
        invariant Valid()
        invariant forall k :: 0 <= k < i ==> stats[k].Mtime?
        invariant history == old(history) + Observed(stats[..i])
        invariant calls == old(calls) + Firings(old(prevStamp), Observed(stats[..i]))
        invariant prevStamp == StampAfter(old(prevStamp), Observed(stats[..i]))
      {
        ghost var before := Observed(stats[..i]);
        ghost var h := old(history);
        var r := LookChanges(stats[i]);
        if r == StatFailed {
          ObservedStop(stats, i);
          return true;
        }
        ghost var e := Polled(stats[i].stamp);
        ObservedSnoc(stats, i);
        FiringsSnoc(old(prevStamp), before, e);
        assert h + before + [e] == h + (before + [e]);
        i := i + 1;
      }
      assert stats[..i] == stats;
      failed := false;
    }

    /** The `check_stdin` loop over a finite series of lines. */
    method CheckStdin(lines: seq<string>) returns (reloads: nat)
      requires Valid()
      modifies this
      ensures Valid()
      ensures prevStamp == old(prevStamp)
      ensures history == old(history) + AsLines(lines)
      ensures calls == old(calls) + Firings(old(prevStamp), AsLines(lines))
      ensures reloads == ReloadLines(AsLines(lines))
    {
      reloads := 0;
      for i := 0 to |lines|
        invariant Valid()
        invariant prevStamp == old(prevStamp)
        invariant history == old(history) + AsLines(lines[..i])
        invariant calls == old(calls) + Firings(old(prevStamp), AsLines(lines[..i]))
        invariant reloads == ReloadLines(AsLines(lines[..i]))
      {
        ghost var before := AsLines(lines[..i]);
        ghost var h := old(history);
        var fired := CheckStdinLine(lines[i]);
        if fired {
          reloads := reloads + 1;
        }
        assert AsLines(lines[..i + 1]) == before + [Typed(lines[i])];
        FiringsSnoc(old(prevStamp), before, Typed(lines[i]));
        LinesKeepStamp(old(prevStamp), lines[..i]);
        ReloadLinesAppend(before, [Typed(lines[i])]);
        assert h + before + [Typed(lines[i])] == h + (before + [Typed(lines[i])]);
      }
      assert lines[..|lines|] == lines;
    }
  }

  lemma {:induction false} ReloadLinesAppend(a: seq<Event>, b: seq<Event>)
    ensures ReloadLines(a + b) == ReloadLines(a) + ReloadLines(b)
  {
    if a != [] {
      assert (a + b)[0] == a[0];
      assert (a + b)[1..] == a[1..] + b;
      ReloadLinesAppend(a[1..], b);
    } else {
      assert a + b == b;
    }
  }
}
