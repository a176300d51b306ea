// The unified command detector (useUnifiedCommandDetector): one shared input
// buffer, a charge state and a sequence state per command name, and a
// dispatcher that tries the commands with a callback in priority order and
// fires at most one of them per input event.
module UnifiedCommandDetector {
  import opened Types
  import Motion
  import Charge
  import Sequence

  /** Records older than this (relative to the newest event) leave the
      shared buffer. */
  const MaxWindow := 2000

  datatype CommandConfig =
    | MotionConfig(sequence1P: seq<Direction>, sequence2P: seq<Direction>, button: Button, inputWindow: int)
    | ChargeConfig(chargeDirections1P: seq<Direction>, chargeDirections2P: seq<Direction>,
                   releaseDirection1P: Direction, releaseDirection2P: Direction,
                   button: Button, chargeTime: int, inputWindow: int)
    | ButtonSequenceConfig(steps1P: seq<Sequence.SequenceStep>, steps2P: seq<Sequence.SequenceStep>, inputWindow: int)

  /** A command: its name, its configuration, whether a callback is
      attached, and its priority (lower numbers are tried first). */
  datatype CommandDefinition = CommandDefinition(name: string, config: CommandConfig, hasCallback: bool, priority: int)

  /** The step list a button-sequence command uses on the given side. */
  function Steps(config: CommandConfig, side: Side): seq<Sequence.SequenceStep>
    requires config.ButtonSequenceConfig?
  {
    if side == P1 then config.steps1P else config.steps2P
  }

  // ---------------------------------------------------------------------
  // Selection and ordering of the commands
  // ---------------------------------------------------------------------

  /** The commands that carry a callback, in their given order. */
  function WithCallback(cmds: seq<CommandDefinition>): (r: seq<CommandDefinition>)
    ensures forall c :: c in r <==> c in cmds && c.hasCallback
  {
    if cmds == [] then []
    else
      assert cmds == [cmds[0]] + cmds[1..];
      (if cmds[0].hasCallback then [cmds[0]] else []) + WithCallback(cmds[1..])
  }

  predicate SortedByPriority(cmds: seq<CommandDefinition>)
  {
    forall i, j :: 0 <= i < j < |cmds| ==> cmds[i].priority <= cmds[j].priority
  }

  /** `x` placed before the first command whose priority is not lower. */
  function Insert(x: CommandDefinition, s: seq<CommandDefinition>): (r: seq<CommandDefinition>)
    ensures multiset(r) == multiset(s) + multiset{x}
  {
    if s == [] then [x]
    else if x.priority <= s[0].priority then [x] + s
    else
      assert s == [s[0]] + s[1..];
      [s[0]] + Insert(x, s[1..])
  }

  /** No command in `s` has a priority below `b`. */
  predicate AllAtLeast(s: seq<CommandDefinition>, b: int)
  {
    forall k :: 0 <= k < |s| ==> b <= s[k].priority
  }

  lemma {:induction false} InsertAtLeast(x: CommandDefinition, s: seq<CommandDefinition>, b: int)
    requires b <= x.priority && AllAtLeast(s, b)
    ensures AllAtLeast(Insert(x, s), b)
  {
    if s != [] && x.priority > s[0].priority {
      var t := Insert(x, s[1..]);
      InsertAtLeast(x, s[1..], b);
      assert forall k :: 1 <= k < |t| + 1 ==> ([s[0]] + t)[k] == t[k - 1];
    }
  }

  lemma {:induction false} InsertSorted(x: CommandDefinition, s: seq<CommandDefinition>)
    requires SortedByPriority(s)
    ensures SortedByPriority(Insert(x, s))
  {
    if s != [] && x.priority > s[0].priority {
      var t := Insert(x, s[1..]);
      InsertSorted(x, s[1..]);
      InsertAtLeast(x, s[1..], s[0].priority);
      var r := [s[0]] + t;
      assert forall k :: 1 <= k < |r| ==> r[k] == t[k - 1];
    }
  }

  /** The stable sort by ascending priority that Array.prototype.sort
      performs with the comparator `a.priority - b.priority`. */
  function SortByPriority(cmds: seq<CommandDefinition>): (r: seq<CommandDefinition>)
    ensures SortedByPriority(r)
    ensures multiset(r) == multiset(cmds)
  {
    if cmds == [] then []
    else
      assert cmds == [cmds[0]] + cmds[1..];
      InsertSorted(cmds[0], SortByPriority(cmds[1..]));
      Insert(cmds[0], SortByPriority(cmds[1..]))
  }

  /** The commands of one priority, in order. */
  function WithPriority(cmds: seq<CommandDefinition>, p: int): seq<CommandDefinition>
  {
    if cmds == [] then []
    else (if cmds[0].priority == p then [cmds[0]] else []) + WithPriority(cmds[1..], p)
  }

  lemma WithPriorityCons(e: CommandDefinition, s: seq<CommandDefinition>, p: int)
    ensures WithPriority([e] + s, p) == (if e.priority == p then [e] else []) + WithPriority(s, p)
  {
    assert ([e] + s)[1..] == s;
  }

  lemma {:induction false} InsertWithPriority(x: CommandDefinition, s: seq<CommandDefinition>, p: int)
    ensures WithPriority(Insert(x, s), p) == (if x.priority == p then [x] else []) + WithPriority(s, p)
  {
    if s == [] {
      WithPriorityCons(x, s, p);
      assert [x] + s == [x];
    } else if x.priority <= s[0].priority {
      assert Insert(x, s) == [x] + s;
      WithPriorityCons(x, s, p);
    } else {
      var t := Insert(x, s[1..]);
      var head := if s[0].priority == p then [s[0]] else [];
      var own := if x.priority == p then [x] else [];
      var rest := WithPriority(s[1..], p);
      assert WithPriority(Insert(x, s), p) == head + (own + rest) by {
        assert Insert(x, s) == [s[0]] + t;
        WithPriorityCons(s[0], t, p);
        InsertWithPriority(x, s[1..], p);
      }
      assert WithPriority(s, p) == head + rest;
      // x and s[0] cannot both carry priority p, since x sorts after s[0]
      SwapEmpty(head, own, rest);
    }
  }

  lemma SwapEmpty<T>(a: seq<T>, b: seq<T>, c: seq<T>)
    requires a == [] || b == []
    ensures a + (b + c) == b + (a + c)
  {
    if a == [] {
      assert a + (b + c) == b + c;
    } else {
      assert b + (a + c) == a + c;
    }
  }

  /** The sort is stable: commands of equal priority keep their relative
      order. */
  lemma {:induction false} SortIsStable(cmds: seq<CommandDefinition>, p: int)
    ensures WithPriority(SortByPriority(cmds), p) == WithPriority(cmds, p)
  {
    if cmds != [] {
      SortIsStable(cmds[1..], p);
      InsertWithPriority(cmds[0], SortByPriority(cmds[1..]), p);
    }
  }

  /** The commands the dispatcher tries, in the order it tries them. */
  function SortedCommands(commands: seq<CommandDefinition>): (r: seq<CommandDefinition>)
    ensures SortedByPriority(r)
    ensures forall c :: c in r <==> c in commands && c.hasCallback
  {
    var r := SortByPriority(WithCallback(commands));
    assert forall c :: c in r <==> c in multiset(r);
    r
  }

  /** When only the last command carries a callback, it alone is tried. */
  lemma {:induction false} WithCallbackOnlyLast(cmds: seq<CommandDefinition>)
    requires cmds != [] && cmds[|cmds| - 1].hasCallback
    requires forall k :: 0 <= k < |cmds| - 1 ==> !cmds[k].hasCallback
    ensures WithCallback(cmds) == [cmds[|cmds| - 1]]
  {
    if |cmds| > 1 {
      WithCallbackOnlyLast(cmds[1..]);
    }
  }

  lemma {:induction false} WithCallbackSorted(cmds: seq<CommandDefinition>)
    requires SortedByPriority(cmds)
    ensures SortedByPriority(WithCallback(cmds))
  {
    if cmds != [] {
      var w := WithCallback(cmds[1..]);
      WithCallbackSorted(cmds[1..]);
      if cmds[0].hasCallback {
        forall k | 0 <= k < |w|
          ensures cmds[0].priority <= w[k].priority
        {
          assert w[k] in cmds[1..];
        }
        var r := [cmds[0]] + w;
        assert forall k :: 1 <= k < |r| ==> r[k] == w[k - 1];
      } else {
        assert WithCallback(cmds) == w;
      }
    }
  }

  lemma {:induction false} SortKeepsSorted(cmds: seq<CommandDefinition>)
    requires SortedByPriority(cmds)
    ensures SortByPriority(cmds) == cmds
  {
    if cmds != [] {
      SortKeepsSorted(cmds[1..]);
      assert cmds == [cmds[0]] + cmds[1..];
    }
  }

  /** A list already in priority order is tried in its own order, less
      the commands without a callback. */
  lemma SortedListTriedInOrder(commands: seq<CommandDefinition>)
    requires SortedByPriority(commands)
    ensures SortedCommands(commands) == WithCallback(commands)
  {
    WithCallbackSorted(commands);
    SortKeepsSorted(WithCallback(commands));
  }

  // ---------------------------------------------------------------------
  // One input event against the sorted commands
  // ---------------------------------------------------------------------

  /** What the source needs so that every sequence lookup stays in range:
      each button-sequence command has a step on this side, and commands
      sharing a name (and hence a sequence state) have as many steps. */
  predicate WellFormed(cmds: seq<CommandDefinition>, side: Side)
  {
    && (forall c :: c in cmds && c.config.ButtonSequenceConfig? ==> |Steps(c.config, side)| > 0)
    && (forall c, d :: c in cmds && d in cmds && c.config.ButtonSequenceConfig? && d.config.ButtonSequenceConfig? && c.name == d.name
          ==> |Steps(c.config, side)| == |Steps(d.config, side)|)
  }

  /** Every stored sequence state points at a step of its command. */
  predicate SequencesFit(cmds: seq<CommandDefinition>, side: Side, sequences: map<string, Sequence.SequenceState>)
  {
    forall c :: c in cmds && c.config.ButtonSequenceConfig? && c.name in sequences
      ==> sequences[c.name].sequenceIndex < |Steps(c.config, side)|
  }

  function Lookup<V>(m: map<string, V>, name: string, default: V): V
  {
    if name in m then m[name] else default
  }

  /** One command tried against one event: whether it matched, and the
      charge and sequence states after the state it produces is stored. */
  datatype Tried = Tried(
    matched: bool,
    charges: map<string, Charge.ChargeState>,
    sequences: map<string, Sequence.SequenceState>)

  /** The command at index `i` tried against the event. A motion command
      tests the buffer and keeps no state; a charge or button-sequence
      command steps its own state (the initial one when none is stored yet)
      and stores the new state under its name, whether or not it matched. */
  function TryCommand(cmds: seq<CommandDefinition>, i: nat, side: Side, buffer: seq<InputRecord>, event: InputRecord,
                      charges: map<string, Charge.ChargeState>, sequences: map<string, Sequence.SequenceState>): (t: Tried)
    requires i < |cmds| && WellFormed(cmds, side) && SequencesFit(cmds, side, sequences)
    ensures SequencesFit(cmds, side, t.sequences)
  {
    var c := cmds[i];
    match c.config
    case MotionConfig(sequence1P, sequence2P, button, inputWindow) =>
      Tried(Motion.MotionMatches(buffer, if side == P1 then sequence1P else sequence2P, button, inputWindow), charges, sequences)
    case ChargeConfig(chargeDirections1P, chargeDirections2P, releaseDirection1P, releaseDirection2P, button, chargeTime, inputWindow) =>
      var r := Charge.CheckChargeCommand(
        Lookup(charges, c.name, Charge.NoCharge), event,
        if side == P1 then chargeDirections1P else chargeDirections2P,
        if side == P1 then releaseDirection1P else releaseDirection2P,
        button, chargeTime, inputWindow);
      Tried(r.matched, charges[c.name := r.newState], sequences)
    case ButtonSequenceConfig(_, _, inputWindow) =>
      var r := Sequence.CheckButtonSequence(Lookup(sequences, c.name, Sequence.Start), event, Steps(c.config, side), inputWindow);
      Tried(r.matched, charges, sequences[c.name := r.newState])
  }

  /** Trying a command touches only the state stored under its own name:
      a charge command adds or replaces its charge state, a button-sequence
      command its sequence state, and a motion command stores nothing and
      matches exactly when its motion is in the buffer. */
  lemma TryCommandFrame(cmds: seq<CommandDefinition>, i: nat, side: Side, buffer: seq<InputRecord>, event: InputRecord,
                        charges: map<string, Charge.ChargeState>, sequences: map<string, Sequence.SequenceState>)
    requires i < |cmds| && WellFormed(cmds, side) && SequencesFit(cmds, side, sequences)
    ensures var t := TryCommand(cmds, i, side, buffer, event, charges, sequences);
      && (forall n :: n in t.charges <==> n in charges || (n == cmds[i].name && cmds[i].config.ChargeConfig?))
      && (forall n :: n in t.sequences <==> n in sequences || (n == cmds[i].name && cmds[i].config.ButtonSequenceConfig?))
      && (forall n :: n in charges && n != cmds[i].name ==> t.charges[n] == charges[n])
      && (forall n :: n in sequences && n != cmds[i].name ==> t.sequences[n] == sequences[n])
      && (cmds[i].config.MotionConfig? ==>
            t == Tried(Motion.MotionMatches(buffer, if side == P1 then cmds[i].config.sequence1P else cmds[i].config.sequence2P,
                                            cmds[i].config.button, cmds[i].config.inputWindow), charges, sequences))
  {
  }

  datatype Outcome = Outcome(
    fired: Option<string>,
    buffer: seq<InputRecord>,
    charges: map<string, Charge.ChargeState>,
    sequences: map<string, Sequence.SequenceState>)

  /** The dispatcher from the command at index `i` on: try each command in
      turn and stop at the first match, which empties the buffer and every
      sequence state (the charge states stay) and fires that command's
      name. Without a match the buffer is as it was, and a name no command
      from `i` on carries keeps its states. */
  function EvaluateFrom(cmds: seq<CommandDefinition>, i: nat, side: Side, buffer: seq<InputRecord>, event: InputRecord,
                        charges: map<string, Charge.ChargeState>, sequences: map<string, Sequence.SequenceState>): (o: Outcome)
    requires i <= |cmds| && WellFormed(cmds, side) && SequencesFit(cmds, side, sequences)
    ensures o.fired.None? ==> o.buffer == buffer && SequencesFit(cmds, side, o.sequences)
    ensures o.fired.Some? ==> o.buffer == [] && o.sequences == map[]
    ensures o.fired.Some? ==> exists k :: i <= k < |cmds| && cmds[k].name == o.fired.value
    ensures charges.Keys <= o.charges.Keys
    ensures forall n :: n !in Names(cmds[i..]) ==>
      && (n in o.charges <==> n in charges)
      && (n in charges ==> o.charges[n] == charges[n])
      && (o.fired.None? ==> (n in o.sequences <==> n in sequences) && (n in sequences ==> o.sequences[n] == sequences[n]))
    decreases |cmds| - i
  {
    if i == |cmds| then Outcome(None, buffer, charges, sequences)
    else
      var t := TryCommand(cmds, i, side, buffer, event, charges, sequences);
      TryCommandFrame(cmds, i, side, buffer, event, charges, sequences);
      assert Names(cmds[i..]) == {cmds[i].name} + Names(cmds[i + 1..]) by {
        assert cmds[i..] == [cmds[i]] + cmds[i + 1..];
      }
      if t.matched then Outcome(Some(cmds[i].name), [], t.charges, map[])
      else EvaluateFrom(cmds, i + 1, side, buffer, event, t.charges, t.sequences)
  }

  /** The names the commands carry. */
  function Names(cmds: seq<CommandDefinition>): (r: set<string>)
    ensures forall n :: n in r <==> exists k :: 0 <= k < |cmds| && cmds[k].name == n
  {
    set k | 0 <= k < |cmds| :: cmds[k].name
  }

  /** Priority: a motion command that matches the buffer is fired unless a
      command tried before it fires first, so whatever fires is tried no
      later than it. */
  lemma {:induction false} MatchingMotionFiresOrIsPreempted(cmds: seq<CommandDefinition>, i: nat, k: nat, side: Side, buffer: seq<InputRecord>, event: InputRecord,
                                                           charges: map<string, Charge.ChargeState>, sequences: map<string, Sequence.SequenceState>)
    returns (j: nat)
    requires i <= k < |cmds| && WellFormed(cmds, side) && SequencesFit(cmds, side, sequences)
    requires cmds[k].config.MotionConfig?
    requires Motion.MotionMatches(buffer, if side == P1 then cmds[k].config.sequence1P else cmds[k].config.sequence2P,
                                  cmds[k].config.button, cmds[k].config.inputWindow)
    ensures var o := EvaluateFrom(cmds, i, side, buffer, event, charges, sequences);
      o.fired.Some? && i <= j <= k && cmds[j].name == o.fired.value
    decreases k - i
  {
    var matched, charges', sequences' := EvaluateStep(cmds, i, k, side, buffer, event, charges, sequences);
    var o := EvaluateFrom(cmds, i, side, buffer, event, charges, sequences);
    if matched {
      j := i;
      assert o.fired == Some(cmds[j].name);
    } else {
      j := MatchingMotionFiresOrIsPreempted(cmds, i + 1, k, side, buffer, event, charges', sequences');
      assert o == EvaluateFrom(cmds, i + 1, side, buffer, event, charges', sequences');
    }
  }

  /** One step of the evaluation before a matching motion command: a match
      fires the command tried, and otherwise the evaluation goes on with the
      next command, which the matching one is not yet behind. */
  lemma EvaluateStep(cmds: seq<CommandDefinition>, i: nat, k: nat, side: Side, buffer: seq<InputRecord>, event: InputRecord,
                     charges: map<string, Charge.ChargeState>, sequences: map<string, Sequence.SequenceState>)
    returns (matched: bool, charges': map<string, Charge.ChargeState>, sequences': map<string, Sequence.SequenceState>)
    requires i <= k < |cmds| && WellFormed(cmds, side) && SequencesFit(cmds, side, sequences)
    requires cmds[k].config.MotionConfig?
    requires Motion.MotionMatches(buffer, if side == P1 then cmds[k].config.sequence1P else cmds[k].config.sequence2P,
                                  cmds[k].config.button, cmds[k].config.inputWindow)
    ensures matched ==> EvaluateFrom(cmds, i, side, buffer, event, charges, sequences).fired == Some(cmds[i].name)
    ensures !matched ==> i < k && SequencesFit(cmds, side, sequences')
    ensures !matched ==>
      EvaluateFrom(cmds, i, side, buffer, event, charges, sequences) == EvaluateFrom(cmds, i + 1, side, buffer, event, charges', sequences')
  {
    var t := TryCommand(cmds, i, side, buffer, event, charges, sequences);
    TryCommandFrame(cmds, i, side, buffer, event, charges, sequences);
    matched, charges', sequences' := t.matched, t.charges, t.sequences;
  }

  /** Whenever a motion command with a callback matches the buffer,
      some command fires, and it is a command with a callback whose
      priority is no lower (its number no larger) than the matching one's. */
  lemma MatchingMotionPreemptsLower(commands: seq<CommandDefinition>, c: CommandDefinition, side: Side, buffer: seq<InputRecord>, event: InputRecord,
                                    charges: map<string, Charge.ChargeState>, sequences: map<string, Sequence.SequenceState>)
    requires WellFormed(SortedCommands(commands), side) && SequencesFit(SortedCommands(commands), side, sequences)
    requires c in commands && c.hasCallback && c.config.MotionConfig?
    requires Motion.MotionMatches(buffer, if side == P1 then c.config.sequence1P else c.config.sequence2P, c.config.button, c.config.inputWindow)
    ensures var o := EvaluateFrom(SortedCommands(commands), 0, side, buffer, event, charges, sequences);
      o.fired.Some? && exists d :: d in commands && d.hasCallback && d.name == o.fired.value && d.priority <= c.priority
  {
    var sorted := SortedCommands(commands);
    assert c in sorted;
    var k :| 0 <= k < |sorted| && sorted[k] == c;
    var j := MatchingMotionPreemptsLowerAt(sorted, k, side, buffer, event, charges, sequences);
    assert sorted[j] in sorted;
  }

  lemma MatchingMotionPreemptsLowerAt(cmds: seq<CommandDefinition>, k: nat, side: Side, buffer: seq<InputRecord>, event: InputRecord,
                                      charges: map<string, Charge.ChargeState>, sequences: map<string, Sequence.SequenceState>)
    returns (j: nat)
    requires k < |cmds| && SortedByPriority(cmds) && WellFormed(cmds, side) && SequencesFit(cmds, side, sequences)
    requires cmds[k].config.MotionConfig?
    requires Motion.MotionMatches(buffer, if side == P1 then cmds[k].config.sequence1P else cmds[k].config.sequence2P,
                                  cmds[k].config.button, cmds[k].config.inputWindow)
    ensures var o := EvaluateFrom(cmds, 0, side, buffer, event, charges, sequences);
      o.fired.Some? && j <= k && cmds[j].name == o.fired.value && cmds[j].priority <= cmds[k].priority
  {
    j := MatchingMotionFiresOrIsPreempted(cmds, 0, k, side, buffer, event, charges, sequences);
  }

  /** A lone motion command fires exactly when its motion is in the buffer. */
  lemma SingleMotionCommand(c: CommandDefinition, side: Side, buffer: seq<InputRecord>, event: InputRecord,
                            charges: map<string, Charge.ChargeState>, sequences: map<string, Sequence.SequenceState>)
    requires c.config.MotionConfig?
    ensures WellFormed([c], side) && SequencesFit([c], side, sequences)
    ensures EvaluateFrom([c], 0, side, buffer, event, charges, sequences).fired
         == if Motion.MotionMatches(buffer, if side == P1 then c.config.sequence1P else c.config.sequence2P, c.config.button, c.config.inputWindow)
            then Some(c.name) else None
  {
    TryCommandFrame([c], 0, side, buffer, event, charges, sequences);
  }

  /** Only a command with a callback ever fires, and it fires by its own
      name. */
  lemma FiredHasCallback(commands: seq<CommandDefinition>, side: Side, buffer: seq<InputRecord>, event: InputRecord,
                         charges: map<string, Charge.ChargeState>, sequences: map<string, Sequence.SequenceState>)
    requires WellFormed(SortedCommands(commands), side) && SequencesFit(SortedCommands(commands), side, sequences)
    ensures var o := EvaluateFrom(SortedCommands(commands), 0, side, buffer, event, charges, sequences);
      o.fired.Some? ==> exists c :: c in commands && c.hasCallback && c.name == o.fired.value
  {
    var sorted := SortedCommands(commands);
    var o := EvaluateFrom(sorted, 0, side, buffer, event, charges, sequences);
    if o.fired.Some? {
      var k :| 0 <= k < |sorted| && sorted[k].name == o.fired.value;
      assert sorted[k] in sorted;
    }
  }

  /** `a` and `b` hold the same entry under `n`, or neither holds one. */
  predicate Agree<V(==)>(a: map<string, V>, b: map<string, V>, n: string)
  {
    (n in a <==> n in b) && (n in a ==> a[n] == b[n])
  }

  /** No command of `cmds` from index `i` to index `j` carries the name `n`. */
  predicate Untried(cmds: seq<CommandDefinition>, i: nat, j: int, n: string)
  {
    forall m :: i <= m <= j && m < |cmds| ==> cmds[m].name != n
  }

  /** A name identifies one command: entries sharing a name are equal. */
  predicate NamesIdentify(cmds: seq<CommandDefinition>)
  {
    forall a, b :: 0 <= a < |cmds| && 0 <= b < |cmds| && cmds[a].name == cmds[b].name ==> cmds[a] == cmds[b]
  }

  /** Trying a command reads only the states stored under its own name. */
  lemma TryCommandLocal(cmds: seq<CommandDefinition>, k: nat, side: Side, buffer: seq<InputRecord>, event: InputRecord,
                        charges1: map<string, Charge.ChargeState>, sequences1: map<string, Sequence.SequenceState>,
                        charges2: map<string, Charge.ChargeState>, sequences2: map<string, Sequence.SequenceState>)
    requires k < |cmds| && WellFormed(cmds, side) && SequencesFit(cmds, side, sequences1) && SequencesFit(cmds, side, sequences2)
    requires Agree(charges1, charges2, cmds[k].name) && Agree(sequences1, sequences2, cmds[k].name)
    ensures TryCommand(cmds, k, side, buffer, event, charges1, sequences1).matched
         == TryCommand(cmds, k, side, buffer, event, charges2, sequences2).matched
  {
  }

  /** One step of the evaluation before a command that matches against the
      states `charges0` and `sequences0`, which the commands tried so far
      have left alone under its name: a match fires the command tried, and
      otherwise the evaluation goes on with the next command, the matching
      one not yet reached and its states still untouched. */
  lemma FirstMatchStep(cmds: seq<CommandDefinition>, i: nat, k: nat, side: Side, buffer: seq<InputRecord>, event: InputRecord,
                       charges: map<string, Charge.ChargeState>, sequences: map<string, Sequence.SequenceState>,
                       charges0: map<string, Charge.ChargeState>, sequences0: map<string, Sequence.SequenceState>)
    returns (matched: bool, charges': map<string, Charge.ChargeState>, sequences': map<string, Sequence.SequenceState>)
    requires i <= k < |cmds| && WellFormed(cmds, side) && SequencesFit(cmds, side, sequences) && SequencesFit(cmds, side, sequences0)
    requires Untried(cmds, i, k - 1, cmds[k].name)
    requires Agree(charges, charges0, cmds[k].name) && Agree(sequences, sequences0, cmds[k].name)
    requires TryCommand(cmds, k, side, buffer, event, charges0, sequences0).matched
    ensures matched ==> EvaluateFrom(cmds, i, side, buffer, event, charges, sequences).fired == Some(cmds[i].name)
    ensures !matched ==> i < k && SequencesFit(cmds, side, sequences')
    ensures !matched ==> Agree(charges', charges0, cmds[k].name) && Agree(sequences', sequences0, cmds[k].name)
    ensures !matched ==>
      EvaluateFrom(cmds, i, side, buffer, event, charges, sequences) == EvaluateFrom(cmds, i + 1, side, buffer, event, charges', sequences')
  {
    var t := TryCommand(cmds, i, side, buffer, event, charges, sequences);
    TryCommandFrame(cmds, i, side, buffer, event, charges, sequences);
    if i == k {
      TryCommandLocal(cmds, k, side, buffer, event, charges, sequences, charges0, sequences0);
    } else {
      assert cmds[i].name != cmds[k].name;
    }
    matched, charges', sequences' := t.matched, t.charges, t.sequences;
  }

  /** Priority for every kind of command: when the command at index `k`
      matches against states that the commands from `i` up to it leave
      alone under its name, some command fires, and it is tried no later
      than the one at `k`. */
  lemma {:induction false} FirstMatchFiresFrom(cmds: seq<CommandDefinition>, i: nat, k: nat, side: Side, buffer: seq<InputRecord>, event: InputRecord,
                                              charges: map<string, Charge.ChargeState>, sequences: map<string, Sequence.SequenceState>,
                                              charges0: map<string, Charge.ChargeState>, sequences0: map<string, Sequence.SequenceState>)
    returns (j: nat)
    requires i <= k < |cmds| && WellFormed(cmds, side) && SequencesFit(cmds, side, sequences) && SequencesFit(cmds, side, sequences0)
    requires Untried(cmds, i, k - 1, cmds[k].name)
    requires Agree(charges, charges0, cmds[k].name) && Agree(sequences, sequences0, cmds[k].name)
    requires TryCommand(cmds, k, side, buffer, event, charges0, sequences0).matched
    ensures var o := EvaluateFrom(cmds, i, side, buffer, event, charges, sequences);
      o.fired.Some? && i <= j <= k && cmds[j].name == o.fired.value
    decreases k - i
  {
    var matched, charges', sequences' := FirstMatchStep(cmds, i, k, side, buffer, event, charges, sequences, charges0, sequences0);
    var o := EvaluateFrom(cmds, i, side, buffer, event, charges, sequences);
    if matched {
      j := i;
      assert o.fired == Some(cmds[j].name);
    } else {
      j := FirstMatchFiresFrom(cmds, i + 1, k, side, buffer, event, charges', sequences', charges0, sequences0);
      assert o == EvaluateFrom(cmds, i + 1, side, buffer, event, charges', sequences');
    }
  }

  /** Priority for every kind of command, from the start of the dispatch:
      when names identify commands and the command at index `k` matches
      against the states the event finds, some command fires, and it is
      tried no later than the one at `k`. */
  lemma FirstMatchFires(cmds: seq<CommandDefinition>, k: nat, side: Side, buffer: seq<InputRecord>, event: InputRecord,
                        charges: map<string, Charge.ChargeState>, sequences: map<string, Sequence.SequenceState>)
    returns (j: nat)
    requires k < |cmds| && WellFormed(cmds, side) && SequencesFit(cmds, side, sequences) && NamesIdentify(cmds)
    requires TryCommand(cmds, k, side, buffer, event, charges, sequences).matched
    ensures var o := EvaluateFrom(cmds, 0, side, buffer, event, charges, sequences);
      o.fired.Some? && j <= k && cmds[j].name == o.fired.value
  {
    var k0 := 0;
    while cmds[k0].name != cmds[k].name
      invariant k0 <= k
      invariant Untried(cmds, 0, k0 - 1, cmds[k].name)
      decreases k - k0
    {
      k0 := k0 + 1;
    }
    assert cmds[k0] == cmds[k];
    assert TryCommand(cmds, k0, side, buffer, event, charges, sequences) == TryCommand(cmds, k, side, buffer, event, charges, sequences);
    j := FirstMatchFiresFrom(cmds, 0, k0, side, buffer, event, charges, sequences, charges, sequences);
  }

  /** Once a command fires the commands after it are not tried: a name that
      no command up to the fired one carries keeps its charge state. */
  lemma {:induction false} FiredStopsTrying(cmds: seq<CommandDefinition>, i: nat, side: Side, buffer: seq<InputRecord>, event: InputRecord,
                                           charges: map<string, Charge.ChargeState>, sequences: map<string, Sequence.SequenceState>)
    returns (j: nat)
    requires i <= |cmds| && WellFormed(cmds, side) && SequencesFit(cmds, side, sequences)
    ensures var o := EvaluateFrom(cmds, i, side, buffer, event, charges, sequences);
      o.fired.Some? ==>
        && i <= j < |cmds| && cmds[j].name == o.fired.value
        && forall n :: Untried(cmds, i, j, n) ==> Agree(o.charges, charges, n)
    decreases |cmds| - i
  {
    j := 0;
    if i < |cmds| {
      var t := TryCommand(cmds, i, side, buffer, event, charges, sequences);
      TryCommandFrame(cmds, i, side, buffer, event, charges, sequences);
      var o := EvaluateFrom(cmds, i, side, buffer, event, charges, sequences);
      if t.matched {
        j := i;
        assert o.charges == t.charges;
        forall n | Untried(cmds, i, j, n)
          ensures Agree(o.charges, charges, n)
        {
          assert cmds[i].name != n;
        }
      } else {
        assert o == EvaluateFrom(cmds, i + 1, side, buffer, event, t.charges, t.sequences);
        j := FiredStopsTrying(cmds, i + 1, side, buffer, event, t.charges, t.sequences);
        if o.fired.Some? {
          forall n | Untried(cmds, i, j, n)
            ensures Agree(o.charges, charges, n)
          {
            assert Untried(cmds, i + 1, j, n);
            assert cmds[i].name != n;
          }
        }
      }
    }
  }

  // ---------------------------------------------------------------------
  // Side symmetry
  // ---------------------------------------------------------------------

  /** `c2`, used on side 2P, is `c1`, used on side 1P, seen in a mirror:
      same name and timing, and the directions `c2` uses on 2P are the
      mirrors of those `c1` uses on 1P. */
  predicate MirroredCommand(c1: CommandDefinition, c2: CommandDefinition)
  {
    && c1.name == c2.name
    && match c1.config
       case MotionConfig(sequence1P, _, button, inputWindow) =>
         && c2.config.MotionConfig?
         && c2.config.sequence2P == MirrorAll(sequence1P)
         && c2.config.button == button && c2.config.inputWindow == inputWindow
       case ChargeConfig(chargeDirections1P, _, releaseDirection1P, _, button, chargeTime, inputWindow) =>
         && c2.config.ChargeConfig?
         && (forall d :: Mirror(d) in c2.config.chargeDirections2P <==> d in chargeDirections1P)
         && c2.config.releaseDirection2P == Mirror(releaseDirection1P)
         && c2.config.button == button && c2.config.chargeTime == chargeTime && c2.config.inputWindow == inputWindow
       case ButtonSequenceConfig(steps1P, _, inputWindow) =>
         && c2.config.ButtonSequenceConfig?
         && c2.config.steps2P == Sequence.MirrorSteps(steps1P)
         && c2.config.inputWindow == inputWindow
  }

  /** Two lists related element by element by `R`, with equal callbacks
      and priorities at each position. */
  predicate Pairwise(R: (CommandDefinition, CommandDefinition) -> bool, cmds1: seq<CommandDefinition>, cmds2: seq<CommandDefinition>)
  {
    && |cmds1| == |cmds2|
    && forall k :: 0 <= k < |cmds1| ==>
         R(cmds1[k], cmds2[k]) && cmds1[k].hasCallback == cmds2[k].hasCallback && cmds1[k].priority == cmds2[k].priority
  }

  predicate Mirrored(cmds1: seq<CommandDefinition>, cmds2: seq<CommandDefinition>)
  {
    Pairwise(MirroredCommand, cmds1, cmds2)
  }

  /** Mirrored commands have as many steps, so stored sequence states fit
      both lists or neither. */
  lemma SequencesFitMirrored(cmds1: seq<CommandDefinition>, cmds2: seq<CommandDefinition>, sequences: map<string, Sequence.SequenceState>)
    requires Mirrored(cmds1, cmds2) && SequencesFit(cmds1, P1, sequences)
    ensures SequencesFit(cmds2, P2, sequences)
  {
    forall c | c in cmds2 && c.config.ButtonSequenceConfig? && c.name in sequences
      ensures sequences[c.name].sequenceIndex < |Steps(c.config, P2)|
    {
      var k :| 0 <= k < |cmds2| && cmds2[k] == c;
      assert MirroredCommand(cmds1[k], c);
      assert cmds1[k] in cmds1;
    }
  }

  lemma TryMirrored(cmds1: seq<CommandDefinition>, cmds2: seq<CommandDefinition>, i: nat, buffer: seq<InputRecord>, event: InputRecord,
                    charges: map<string, Charge.ChargeState>, sequences: map<string, Sequence.SequenceState>)
    requires Mirrored(cmds1, cmds2) && i < |cmds1|
    requires WellFormed(cmds1, P1) && SequencesFit(cmds1, P1, sequences)
    requires WellFormed(cmds2, P2) && SequencesFit(cmds2, P2, sequences)
    ensures TryCommand(cmds2, i, P2, MirrorRecords(buffer), MirrorRecord(event), charges, sequences)
         == TryCommand(cmds1, i, P1, buffer, event, charges, sequences)
  {
    var c1, c2 := cmds1[i], cmds2[i];
    assert MirroredCommand(c1, c2);
    assert c2.name == c1.name;
    match c1.config
    case MotionConfig(sequence1P, _, button, inputWindow) =>
      Motion.MotionMatchesMirrored(buffer, sequence1P, button, inputWindow);
    case ChargeConfig(chargeDirections1P, _, releaseDirection1P, _, button, chargeTime, inputWindow) =>
      Charge.CheckChargeMirrored(Lookup(charges, c1.name, Charge.NoCharge), event, chargeDirections1P, c2.config.chargeDirections2P,
                                 releaseDirection1P, button, chargeTime, inputWindow);
    case ButtonSequenceConfig(steps1P, _, inputWindow) =>
      Sequence.CheckButtonSequenceMirrored(Lookup(sequences, c1.name, Sequence.Start), event, steps1P, inputWindow);
  }

  /** The 2P player who enters the mirror image of the 1P player's inputs
      fires the same command and leaves the same charge and sequence
      states, with a buffer that is the mirror image of the 1P buffer. */
  lemma {:induction false} EvaluateMirrored(cmds1: seq<CommandDefinition>, cmds2: seq<CommandDefinition>, i: nat, buffer: seq<InputRecord>, event: InputRecord,
                                            charges: map<string, Charge.ChargeState>, sequences: map<string, Sequence.SequenceState>)
    requires Mirrored(cmds1, cmds2) && i <= |cmds1|
    requires WellFormed(cmds1, P1) && SequencesFit(cmds1, P1, sequences)
    requires WellFormed(cmds2, P2) && SequencesFit(cmds2, P2, sequences)
    ensures var o1 := EvaluateFrom(cmds1, i, P1, buffer, event, charges, sequences);
      var o2 := EvaluateFrom(cmds2, i, P2, MirrorRecords(buffer), MirrorRecord(event), charges, sequences);
      o2 == o1.(buffer := MirrorRecords(o1.buffer))
    decreases |cmds1| - i
  {
    if i == |cmds1| {
      assert EvaluateFrom(cmds1, i, P1, buffer, event, charges, sequences) == Outcome(None, buffer, charges, sequences);
      assert EvaluateFrom(cmds2, i, P2, MirrorRecords(buffer), MirrorRecord(event), charges, sequences)
          == Outcome(None, MirrorRecords(buffer), charges, sequences);
    } else {
      var matched, charges', sequences' := MirroredStep(cmds1, cmds2, i, buffer, event, charges, sequences);
      var o1 := EvaluateFrom(cmds1, i, P1, buffer, event, charges, sequences);
      var o2 := EvaluateFrom(cmds2, i, P2, MirrorRecords(buffer), MirrorRecord(event), charges, sequences);
      if !matched {
        EvaluateMirrored(cmds1, cmds2, i + 1, buffer, event, charges', sequences');
        assert o2 == o1.(buffer := MirrorRecords(o1.buffer));
      } else {
        assert o2 == o1.(buffer := MirrorRecords(o1.buffer));
      }
    }
  }

  /** One step of both evaluations: the command at `i` matches on both
      sides or on neither, and leaves the same states on both. */
  lemma MirroredStep(cmds1: seq<CommandDefinition>, cmds2: seq<CommandDefinition>, i: nat, buffer: seq<InputRecord>, event: InputRecord,
                     charges: map<string, Charge.ChargeState>, sequences: map<string, Sequence.SequenceState>)
    returns (matched: bool, charges': map<string, Charge.ChargeState>, sequences': map<string, Sequence.SequenceState>)
    requires Mirrored(cmds1, cmds2) && i < |cmds1|
    requires WellFormed(cmds1, P1) && SequencesFit(cmds1, P1, sequences)
    requires WellFormed(cmds2, P2) && SequencesFit(cmds2, P2, sequences)
    ensures var o1 := EvaluateFrom(cmds1, i, P1, buffer, event, charges, sequences);
      var o2 := EvaluateFrom(cmds2, i, P2, MirrorRecords(buffer), MirrorRecord(event), charges, sequences);
      && (matched ==> o2 == o1.(buffer := MirrorRecords(o1.buffer)))
      && (!matched ==> SequencesFit(cmds1, P1, sequences') && SequencesFit(cmds2, P2, sequences'))
      && (!matched ==> o1 == EvaluateFrom(cmds1, i + 1, P1, buffer, event, charges', sequences'))
      && (!matched ==> o2 == EvaluateFrom(cmds2, i + 1, P2, MirrorRecords(buffer), MirrorRecord(event), charges', sequences'))
  {
    TryMirrored(cmds1, cmds2, i, buffer, event, charges, sequences);
    var t := TryCommand(cmds1, i, P1, buffer, event, charges, sequences);
    matched, charges', sequences' := t.matched, t.charges, t.sequences;
    if t.matched {
      assert cmds2[i].name == cmds1[i].name;
      assert MirrorRecords([]) == [];
    }
  }

  lemma PairwiseCons(R: (CommandDefinition, CommandDefinition) -> bool, x1: CommandDefinition, x2: CommandDefinition,
                     s1: seq<CommandDefinition>, s2: seq<CommandDefinition>)
    requires R(x1, x2) && x1.hasCallback == x2.hasCallback && x1.priority == x2.priority
    requires Pairwise(R, s1, s2)
    ensures Pairwise(R, [x1] + s1, [x2] + s2)
  {
    assert forall k :: 1 <= k < |s1| + 1 ==> ([x1] + s1)[k] == s1[k - 1] && ([x2] + s2)[k] == s2[k - 1];
  }

  lemma {:induction false} WithCallbackPairwise(R: (CommandDefinition, CommandDefinition) -> bool, cmds1: seq<CommandDefinition>, cmds2: seq<CommandDefinition>)
    requires Pairwise(R, cmds1, cmds2)
    ensures Pairwise(R, WithCallback(cmds1), WithCallback(cmds2))
  {
    if cmds1 != [] {
      assert Pairwise(R, cmds1[1..], cmds2[1..]);
      WithCallbackPairwise(R, cmds1[1..], cmds2[1..]);
      var w1, w2 := WithCallback(cmds1[1..]), WithCallback(cmds2[1..]);
      if cmds1[0].hasCallback {
        PairwiseCons(R, cmds1[0], cmds2[0], w1, w2);
      } else {
        assert WithCallback(cmds1) == [] + w1 && WithCallback(cmds2) == [] + w2;
      }
    }
  }

  lemma {:induction false} InsertPairwise(R: (CommandDefinition, CommandDefinition) -> bool, x1: CommandDefinition, x2: CommandDefinition,
                                          s1: seq<CommandDefinition>, s2: seq<CommandDefinition>)
    requires R(x1, x2) && x1.hasCallback == x2.hasCallback && x1.priority == x2.priority
    requires Pairwise(R, s1, s2)
    ensures Pairwise(R, Insert(x1, s1), Insert(x2, s2))
  {
    if s1 == [] {
      PairwiseCons(R, x1, x2, s1, s2);
    } else if x1.priority > s1[0].priority {
      assert Pairwise(R, s1[1..], s2[1..]);
      InsertPairwise(R, x1, x2, s1[1..], s2[1..]);
      PairwiseCons(R, s1[0], s2[0], Insert(x1, s1[1..]), Insert(x2, s2[1..]));
    } else {
      PairwiseCons(R, x1, x2, s1, s2);
    }
  }

  lemma {:induction false} SortPairwise(R: (CommandDefinition, CommandDefinition) -> bool, cmds1: seq<CommandDefinition>, cmds2: seq<CommandDefinition>)
    requires Pairwise(R, cmds1, cmds2)
    ensures Pairwise(R, SortByPriority(cmds1), SortByPriority(cmds2))
  {
    if cmds1 != [] {
      assert Pairwise(R, cmds1[1..], cmds2[1..]);
      SortPairwise(R, cmds1[1..], cmds2[1..]);
      InsertPairwise(R, cmds1[0], cmds2[0], SortByPriority(cmds1[1..]), SortByPriority(cmds2[1..]));
    }
  }

  /** Two command lists related position by position (with equal
      callbacks and priorities) stay so once filtered and sorted: the two
      detectors try related commands in the same order. */
  lemma SortedCommandsPairwise(R: (CommandDefinition, CommandDefinition) -> bool, commands1: seq<CommandDefinition>, commands2: seq<CommandDefinition>)
    requires Pairwise(R, commands1, commands2)
    ensures Pairwise(R, SortedCommands(commands1), SortedCommands(commands2))
  {
    WithCallbackPairwise(R, commands1, commands2);
    SortPairwise(R, WithCallback(commands1), WithCallback(commands2));
  }

  // ---------------------------------------------------------------------
  // The detector
  // ---------------------------------------------------------------------

  class Detector {
    const side: Side
    const commands: seq<CommandDefinition>
    const sortedCommands: seq<CommandDefinition>
    var inputBuffer: seq<InputRecord>
    var chargeStates: map<string, Charge.ChargeState>
    var sequenceStates: map<string, Sequence.SequenceState>

    ghost predicate Valid()
      reads this
    {
      WellFormed(sortedCommands, side) && SequencesFit(sortedCommands, side, sequenceStates)
    }

    /** The detector with side 1P by default, an empty buffer and no stored
        states; it tries the commands with a callback by priority. */
    constructor (side: Option<Side>, commands: seq<CommandDefinition>)
      ensures this.side == OrElse(side, P1)
      ensures this.commands == commands
      ensures sortedCommands == SortedCommands(commands)
      ensures inputBuffer == [] && chargeStates == map[] && sequenceStates == map[]
      ensures WellFormed(commands, this.side) ==> Valid()
    {
      this.side := OrElse(side, P1);
      this.commands := commands;
      sortedCommands := SortedCommands(commands);
      inputBuffer := [];
      chargeStates := map[];
      sequenceStates := map[];
    }

    /** handleInput: push the event, drop the records more than MaxWindow
        older than it, then dispatch over the sorted commands. */
    method HandleInput(event: InputRecord) returns (fired: Option<string>)
      requires Valid()
      modifies this
      ensures Valid()
      ensures var o := EvaluateFrom(sortedCommands, 0, side, Motion.Recent(old(inputBuffer) + [event], event.timestamp, MaxWindow),
                                    event, old(chargeStates), old(sequenceStates));
        fired == o.fired && inputBuffer == o.buffer && chargeStates == o.charges && sequenceStates == o.sequences
    {
      inputBuffer := inputBuffer + [event];
      inputBuffer := Motion.Recent(inputBuffer, event.timestamp, MaxWindow);
      ghost var buffer := inputBuffer;
      ghost var outcome := EvaluateFrom(sortedCommands, 0, side, buffer, event, chargeStates, sequenceStates);
      for i := 0 to |sortedCommands|
        invariant inputBuffer == buffer
        invariant SequencesFit(sortedCommands, side, sequenceStates)
        invariant EvaluateFrom(sortedCommands, i, side, buffer, event, chargeStates, sequenceStates) == outcome
      {
        var matched := TryAt(i, event);
        if matched {
          inputBuffer := [];
          sequenceStates := map[];
          return Some(sortedCommands[i].name);
        }
      }
      return None;
    }

    /** The body of the dispatch loop for the command at index `i`: it
        steps and stores that command's state and reports whether it
        matched, as TryCommand says. */
    method TryAt(i: nat, event: InputRecord) returns (matched: bool)
      requires i < |sortedCommands| && Valid()
      modifies this
      ensures var t := TryCommand(sortedCommands, i, side, old(inputBuffer), event, old(chargeStates), old(sequenceStates));
        matched == t.matched && chargeStates == t.charges && sequenceStates == t.sequences
      ensures inputBuffer == old(inputBuffer)
    {
      var cmd := sortedCommands[i];
      match cmd.config {
        case MotionConfig(sequence1P, sequence2P, button, inputWindow) =>
          var sequence := if side == P1 then sequence1P else sequence2P;
          matched := Motion.MatchesMotionCommand(inputBuffer, sequence, button, inputWindow);
        case ChargeConfig(chargeDirections1P, chargeDirections2P, releaseDirection1P, releaseDirection2P, button, chargeTime, inputWindow) =>
          var chargeDirections := if side == P1 then chargeDirections1P else chargeDirections2P;
          var releaseDirection := if side == P1 then releaseDirection1P else releaseDirection2P;
          var state := if cmd.name in chargeStates then chargeStates[cmd.name] else Charge.NoCharge;
          var result := Charge.CheckChargeCommand(state, event, chargeDirections, releaseDirection, button, chargeTime, inputWindow);
          chargeStates := chargeStates[cmd.name := result.newState];
          matched := result.matched;
        case ButtonSequenceConfig(steps1P, steps2P, inputWindow) =>
          var sequence := if side == P1 then steps1P else steps2P;
          var state := if cmd.name in sequenceStates then sequenceStates[cmd.name] else Sequence.Start;
          var result := Sequence.CheckButtonSequence(state, event, sequence, inputWindow);
          sequenceStates := sequenceStates[cmd.name := result.newState];
          matched := result.matched;
      }
    }
  }
}
