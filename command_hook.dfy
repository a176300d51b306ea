// The single-command motion hook (useCommand): its own input buffer, pruned
// to the input window on every event and emptied when the command fires.
// Its matchesSequence is the same text as the unified matcher, so the model
// uses Motion.MatchesMotionCommand for it.
module CommandHook {
  import opened Types
  import Motion

  const DefaultInputWindow := 500

  /** The per-side directions and the button of a motion command. */
  datatype CommandConfig = CommandConfig(sequence1P: seq<Direction>, sequence2P: seq<Direction>, button: Button)

  /** The side picks `sequence1P` for 1P and `sequence2P` otherwise. */
  function SequenceFor(config: CommandConfig, side: Side): (s: seq<Direction>)
    ensures side == P1 ==> s == config.sequence1P
    ensures side != P1 ==> s == config.sequence2P
  {
    if side == P1 then config.sequence1P else config.sequence2P
  }

  /** The records strictly newer than `now - inputWindow`, in order. With
      integer times `t > now - w` is `now - t <= w - 1`, so this is the
      inclusive filter with a window one unit shorter. */
  function Prune(buffer: seq<InputRecord>, now: int, inputWindow: int): (r: seq<InputRecord>)
    ensures forall x :: x in r <==> x in buffer && x.timestamp > now - inputWindow
  {
    Motion.RecentMembers(buffer, now, inputWindow - 1);
    Motion.Recent(buffer, now, inputWindow - 1)
  }

  /** Pruning keeps the buffer's order. */
  lemma PruneKeepsOrder(buffer: seq<InputRecord>, now: int, inputWindow: int)
    ensures Motion.Embeds(Prune(buffer, now, inputWindow), buffer)
  {
    Motion.RecentIsSubsequence(buffer, now, inputWindow - 1);
  }

  /** With a positive window the event just pushed survives pruning, as the
      newest entry. */
  lemma PruneKeepsNewest(buffer: seq<InputRecord>, event: InputRecord, inputWindow: int)
    requires inputWindow > 0
    ensures var r := Prune(buffer + [event], event.timestamp, inputWindow);
      r != [] && r[|r| - 1] == event
  {
    assert (buffer + [event])[..|buffer|] == buffer;
  }

  /** The strict prune and the matcher's inclusive filter compose to a
      strict window: on a freshly pruned buffer the hook matches exactly as
      the unified matcher would with `inputWindow - 1`, so a record exactly
      `inputWindow` old never takes part in a match. */
  lemma StrictWindowInEffect(buffer: seq<InputRecord>, event: InputRecord, sequence: seq<Direction>, button: Button, inputWindow: int)
    requires inputWindow > 0
    ensures Motion.MotionMatches(Prune(buffer + [event], event.timestamp, inputWindow), sequence, button, inputWindow)
        <==> Motion.MotionMatches(buffer + [event], sequence, button, inputWindow - 1)
  {
    assert (buffer + [event])[|buffer + [event]| - 1] == event;
    Motion.MatchAfterFilter(buffer + [event], sequence, button, inputWindow - 1, inputWindow);
  }

  class CommandHook {
    const sequence: seq<Direction>
    const button: Button
    const inputWindow: int
    const enabled: bool
    var inputBuffer: seq<InputRecord>

    /** The hook with its defaults: side 1P, window 500, enabled. */
    constructor (side: Option<Side>, config: CommandConfig, inputWindow: Option<int>, enabled: Option<bool>)
      ensures sequence == SequenceFor(config, OrElse(side, P1))
      ensures button == config.button
      ensures this.inputWindow == OrElse(inputWindow, DefaultInputWindow)
      ensures this.enabled == OrElse(enabled, true)
      ensures inputBuffer == []
    {
      sequence := SequenceFor(config, OrElse(side, P1));
      button := config.button;
      this.inputWindow := OrElse(inputWindow, DefaultInputWindow);
      this.enabled := OrElse(enabled, true);
      inputBuffer := [];
    }

    /** handleInput: when enabled, push the event, prune strictly to the
        window, match; a match empties the buffer and fires once, a miss
        keeps the pruned buffer. When disabled, nothing changes. */
    method HandleInput(event: InputRecord) returns (fired: bool)
      modifies this
      ensures !enabled ==> !fired && inputBuffer == old(inputBuffer)
      ensures enabled ==>
        var pruned := Prune(old(inputBuffer) + [event], event.timestamp, inputWindow);
        && fired == Motion.MotionMatches(pruned, sequence, button, inputWindow)
        && inputBuffer == if fired then [] else pruned
    {
      if !enabled {
        return false;
      }
      inputBuffer := inputBuffer + [event];
      inputBuffer := Prune(inputBuffer, event.timestamp, inputWindow);
      fired := Motion.MatchesMotionCommand(inputBuffer, sequence, button, inputWindow);
      if fired {
        inputBuffer := [];
      }
    }
  }
}
