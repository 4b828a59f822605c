/** Profiler start and stop around one streamed completion, without barriers. */
module ProfilerControl {

  /** What a line of the response stream amounts to. `Broken` is an invalid event or a lost connection. */
  datatype Event = Ignored | Content | Done | Broken

  datatype Control = Start | Stop

  datatype Ending = Returned(contentChunks: nat) | Raised

  /** Content chunks before the stream is done or breaks. */
  ghost function Chunks(events: seq<Event>): nat {
    if events == [] || events[0].Done? || events[0].Broken? then 0
    else Chunks(events[1..]) + if events[0].Content? then 1 else 0
  }

  ghost predicate Breaks(events: seq<Event>) {
    events != [] && !events[0].Done? && (events[0].Broken? || Breaks(events[1..]))
  }

  ghost function Max(a: int, b: int): int {
    if a > b then a else b
  }

  /** The chunk at which the profiler is started: never before the first one. */
  ghost function StartAt(after: int): int {
    Max(1, after)
  }

  ghost function StopAt(after: int, span: int): int {
    Max(StartAt(after), after + span)
  }

  /**
    The control requests of a run and how it ends, whatever the stream does and whether or not each
    control request succeeds. Either nothing is sent, or one start and then one stop; a start is sent
    exactly when the stream reaches the starting chunk. The run returns only if the stream did not
    break, it was long enough, and, with profiling, both requests succeeded.
   */
  method RunStreamingDecode(events: seq<Event>, enabled: bool, after: int, span: int, startWorks: bool, stopWorks: bool)
    returns (sent: seq<Control>, ending: Ending)
    ensures sent == if enabled && Chunks(events) >= StartAt(after) then [Start, Stop] else []
    ensures ending.Returned? <==>
            && !Breaks(events)
            && (if enabled then startWorks && stopWorks && Chunks(events) >= StopAt(after, span) else Chunks(events) >= 2)
    ensures ending.Returned? ==> ending.contentChunks == Chunks(events)
  {
    var chunks, i := 0, 0;
    var startAttempted, started, stopAttempted, stopped, failed := false, false, false, false, false;
    sent := [];
    assert events[0..] == events;
    while i < |events| && !failed && !events[i].Done?
      invariant i <= |events|
      invariant Chunks(events) >= chunks
      invariant !failed ==> Chunks(events) == chunks + Chunks(events[i..]) && (Breaks(events) <==> Breaks(events[i..]))
      invariant startAttempted <==> enabled && chunks >= StartAt(after)
      invariant sent == (if startAttempted then [Start] else []) + (if stopAttempted then [Stop] else [])
      invariant stopAttempted ==> startAttempted && chunks >= StopAt(after, span)
      invariant !failed ==> started == startAttempted && stopped == stopAttempted
      invariant !failed && started ==> startWorks && (stopped <==> chunks >= StopAt(after, span))
      invariant stopped ==> stopAttempted && stopWorks
      invariant failed ==>
                  (Breaks(events) && Chunks(events) == chunks) || (startAttempted && !(startWorks && stopWorks))
      decreases |events| - i, !failed
    {
      var event := events[i];
      assert events[i..][0] == event && events[i..][1..] == events[i + 1..];
      i := i + 1;
      if event.Broken? {
        failed := true;
      } else if event.Content? {
        chunks := chunks + 1;
        if enabled && !started && chunks >= after {
          startAttempted := true;
          sent := sent + [Start];
          started := startWorks;
          failed := !startWorks;
        }
        if !failed && started && !stopped && chunks >= after + span {
          stopAttempted := true;
          sent := sent + [Stop];
          stopped := stopWorks;
          failed := !stopWorks;
        }
      }
    }
    if startAttempted && !stopped && !stopAttempted {
      sent := sent + [Stop];
    }
    var minimum := if enabled then after + span else 2;
    if failed || chunks < minimum || (enabled && !stopped) {
      ending := Raised;
    } else {
      ending := Returned(chunks);
    }
  }
}
