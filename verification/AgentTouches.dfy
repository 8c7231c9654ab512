/** The throttle on writing an agent's time of last use. */
module AgentTouches {
  import opened AgentProtocol
  import opened GoTime

  const AGENT_TOUCH_INTERVAL: int := MINUTE

  /** A use is recorded if there is none on record, or the one on record is at least a minute old. */
  predicate NeedsTouch(lastUsedAt: int, now: int) {
    lastUsedAt == 0 || now - lastUsedAt >= AGENT_TOUCH_INTERVAL
  }

  /** The stored time of last use after authentications at `times`, with nothing else writing it. */
  function LastUsed(start: int, times: seq<int>): int {
    if times == [] then start
    else
      var last := LastUsed(start, times[..|times| - 1]);
      if NeedsTouch(last, times[|times| - 1]) then times[|times| - 1] else last
  }

  /** The statements of such a run, for agent `id`. */
  function TouchEvents(id: AgentId, start: int, times: seq<int>): (es: seq<Event>)
    ensures |es| == Touches(start, times)
  {
    if times == [] then []
    else
      var now := times[|times| - 1];
      TouchEvents(id, start, times[..|times| - 1]) +
      if NeedsTouch(LastUsed(start, times[..|times| - 1]), now) then [Touch(id, now)] else []
  }

  function Touches(start: int, times: seq<int>): nat {
    if times == [] then 0
    else Touches(start, times[..|times| - 1]) +
         if NeedsTouch(LastUsed(start, times[..|times| - 1]), times[|times| - 1]) then 1 else 0
  }

  lemma OneAuthentication(id: AgentId, start: int, now: int)
    ensures LastUsed(start, [now]) == if NeedsTouch(start, now) then now else start
    ensures TouchEvents(id, start, [now]) == if NeedsTouch(start, now) then [Touch(id, now)] else []
  {
    assert [now][..0] == [];
  }

  lemma OneMoreAuthentication(id: AgentId, start: int, times: seq<int>, i: nat)
    requires i < |times|
    ensures var last := LastUsed(start, times[..i]);
            && LastUsed(start, times[..i + 1]) == LastUsed(last, [times[i]])
            && TouchEvents(id, start, times[..i + 1])
               == TouchEvents(id, start, times[..i]) + TouchEvents(id, last, [times[i]])
  {
    assert times[..i + 1][..i] == times[..i];
    OneAuthentication(id, LastUsed(start, times[..i]), times[i]);
  }

  ghost predicate ClockRuns(times: seq<int>) {
    (forall i :: 0 <= i < |times| ==> times[i] > 0) && (forall i, j :: 0 <= i < j < |times| ==> times[i] <= times[j])
  }

  lemma {:induction false} TouchProgress(start: int, times: seq<int>)
    requires times != [] && ClockRuns(times)
    ensures var last, stored := times[|times| - 1], LastUsed(start, times);
            && stored != 0 && last - stored < AGENT_TOUCH_INTERVAL
            && (Touches(start, times) > 0 ==>
                  && times[0] <= stored <= last
                  && (Touches(start, times) - 1) * AGENT_TOUCH_INTERVAL <= stored - times[0])
  {
    var p := times[..|times| - 1];
    if p == [] {
      assert LastUsed(start, p) == start && Touches(start, p) == 0;
    } else {
      assert ClockRuns(p);
      TouchProgress(start, p);
    }
  }

  /** The stored time is less than a minute behind the latest authentication, and a run makes
      at most one touch for each full minute that it spans, and one more. */
  lemma TouchThrottle(start: int, times: seq<int>)
    requires times != [] && ClockRuns(times)
    ensures LastUsed(start, times) != 0 && times[|times| - 1] - LastUsed(start, times) < 60_000_000_000
    ensures Touches(start, times) <= (times[|times| - 1] - times[0]) / 60_000_000_000 + 1
  {
    TouchProgress(start, times);
    if Touches(start, times) > 0 {
      StepsWithin(Touches(start, times) - 1, AGENT_TOUCH_INTERVAL, times[|times| - 1] - times[0]);
    } else {
      StepsWithin(0, AGENT_TOUCH_INTERVAL, times[|times| - 1] - times[0]);
    }
  }
}
