/**
 * The autosave debounce of renderer.js as a discrete trace.
 *
 * Every input clears the pending timeout and arms a new one of 2000 ms; when
 * a timeout runs out with a document open, `autoSave` sends the editor's
 * text as it is at that moment. Time passes in `Wait` events of whole
 * milliseconds.
 */
module Debounce {

  /** The delay, in milliseconds, between the last input and the autosave. */
  const SaveDelay: nat := 2000

  /** `saveTimeout`: no timeout pending, or one due after `remaining` more milliseconds. */
  datatype Timer = Idle | Pending(remaining: nat)

  /** An input cancels whatever timeout is pending and starts a fresh one of the full delay. */
  function Arm(): Timer {
    Pending(SaveDelay)
  }

  /** The timer after `ms` milliseconds more, and whether its callback fired in that time. */
  datatype Tick = Tick(timer: Timer, fired: bool)

  function Advance(t: Timer, ms: nat): Tick {
    match t
    case Idle => Tick(Idle, false)
    case Pending(rem) => if rem <= ms then Tick(Idle, true) else Tick(Pending(rem - ms), false)
  }

  /** What happens in the editor: an input event carrying the new text, or time passing. */
  datatype Event = Edit(text: string) | Wait(ms: nat)

  /** The timer, the editor's text and the texts autosaved so far. */
  datatype Trace = Trace(timer: Timer, buffer: string, saved: seq<string>)

  /** One event; `docOpen` says whether `currentFilePath || currentFileFullPath` holds. */
  function Step(s: Trace, e: Event, docOpen: bool): Trace {
    match e
    case Edit(text) => Trace(Arm(), text, s.saved)
    case Wait(ms) =>
      var tick := Advance(s.timer, ms);
      Trace(tick.timer, s.buffer, if tick.fired && docOpen then s.saved + [s.buffer] else s.saved)
  }

  function Run(s: Trace, events: seq<Event>, docOpen: bool): Trace
    decreases |events|
  {
    if events == [] then s else Run(Step(s, events[0], docOpen), events[1..], docOpen)
  }

  function EditCount(events: seq<Event>): nat
    decreases |events|
  {
    if events == [] then 0 else (if events[0].Edit? then 1 else 0) + EditCount(events[1..])
  }

  /** Running two traces one after the other is running their concatenation. */
  lemma {:induction false} RunAppend(s: Trace, a: seq<Event>, b: seq<Event>, docOpen: bool)
    ensures Run(s, a + b, docOpen) == Run(Run(s, a, docOpen), b, docOpen)
    decreases |a|
  {
    if a == [] {
      assert a + b == b;
    } else {
      assert (a + b)[0] == a[0] && (a + b)[1..] == a[1..] + b;
      RunAppend(Step(s, a[0], docOpen), a[1..], b, docOpen);
    }
  }

  /** Saves are only ever appended: earlier saves are kept. */
  lemma {:induction false} RunKeepsSaved(s: Trace, events: seq<Event>, docOpen: bool)
    ensures s.saved <= Run(s, events, docOpen).saved
    decreases |events|
  {
    if events != [] {
      RunKeepsSaved(Step(s, events[0], docOpen), events[1..], docOpen);
    }
  }

  /** With no document open nothing is ever saved. */
  lemma {:induction false} NoDocumentNoSave(s: Trace, events: seq<Event>)
    ensures Run(s, events, false).saved == s.saved
    decreases |events|
  {
    if events != [] {
      NoDocumentNoSave(Step(s, events[0], false), events[1..]);
    }
  }

  /**
   * Each input arms at most one autosave: a trace saves at most once per
   * edit, plus once for a timeout already pending when it starts.
   */
  lemma {:induction false} AtMostOneSavePerEdit(s: Trace, events: seq<Event>, docOpen: bool)
    ensures |Run(s, events, docOpen).saved| <= |s.saved| + EditCount(events) + (if s.timer.Pending? then 1 else 0)
    decreases |events|
  {
    if events != [] {
      AtMostOneSavePerEdit(Step(s, events[0], docOpen), events[1..], docOpen);
    }
  }

  /** A burst of edits, `texts[i]` followed by a pause of `gaps[i]` milliseconds before the next one. */
  function Burst(texts: seq<string>, gaps: seq<nat>): seq<Event>
    requires |texts| > 0 && |gaps| == |texts| - 1
    decreases |texts|
  {
    if |texts| == 1 then [Edit(texts[0])]
    else [Edit(texts[0]), Wait(gaps[0])] + Burst(texts[1..], gaps[1..])
  }

  predicate QuickGaps(gaps: seq<nat>) {
    forall i :: 0 <= i < |gaps| ==> gaps[i] < SaveDelay
  }

  /**
   * During a burst whose pauses are all shorter than the delay nothing is
   * saved, and at its end a full delay is pending on the last text.
   */
  lemma {:induction false} QuietDuringBurst(s: Trace, texts: seq<string>, gaps: seq<nat>, docOpen: bool)
    requires |texts| > 0 && |gaps| == |texts| - 1 && QuickGaps(gaps)
    ensures Run(s, Burst(texts, gaps), docOpen) == Trace(Arm(), texts[|texts| - 1], s.saved)
    decreases |texts|
  {
    var events := Burst(texts, gaps);
    if |texts| > 1 {
      var rest := Burst(texts[1..], gaps[1..]);
      assert events == [Edit(texts[0])] + ([Wait(gaps[0])] + rest);
      var s1 := Step(s, Edit(texts[0]), docOpen);
      var s2 := Step(s1, Wait(gaps[0]), docOpen);
      assert s2.saved == s.saved;
      RunAppend(s, [Edit(texts[0])], [Wait(gaps[0])] + rest, docOpen);
      RunAppend(s1, [Wait(gaps[0])], rest, docOpen);
      assert QuickGaps(gaps[1..]) by {
        forall i | 0 <= i < |gaps[1..]| ensures gaps[1..][i] < SaveDelay {
          assert gaps[1..][i] == gaps[i + 1];
        }
      }
      QuietDuringBurst(s2, texts[1..], gaps[1..], docOpen);
    }
  }

  /**
   * A burst followed by a pause of at least the delay autosaves exactly once,
   * with the text of the last edit, when a document is open, and not at all
   * otherwise.
   */
  lemma BurstThenPauseSavesOnce(s: Trace, texts: seq<string>, gaps: seq<nat>, pause: nat, docOpen: bool)
    requires |texts| > 0 && |gaps| == |texts| - 1 && QuickGaps(gaps) && pause >= SaveDelay
    ensures Run(s, Burst(texts, gaps) + [Wait(pause)], docOpen).saved ==
              s.saved + (if docOpen then [texts[|texts| - 1]] else [])
  {
    RunAppend(s, Burst(texts, gaps), [Wait(pause)], docOpen);
    QuietDuringBurst(s, texts, gaps, docOpen);
  }
}
