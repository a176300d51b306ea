// The Street Fighter command table (useStreetFightingCommand): seven
// commands with fixed priorities, handed to the unified detector; only those
// given a callback take part.
module StreetFightingCommand {
  import opened Types
  import Sequence
  import Charge
  import Motion
  import ShunGokuSatsu
  import D = UnifiedCommandDetector

  const DefaultInputWindow := 500
  const DefaultChargeTime := 800
  const DefaultSuperInputWindow := 800
  const DefaultSequenceInputWindow := 1000

  /** Which of the seven callbacks the caller supplied. */
  datatype Callbacks = Callbacks(
    hadouken: bool, shoryuken: bool, tatsumaki: bool, sonicBoom: bool,
    spinningBirdKick: bool, shunGokuSatsu: bool, shinkuHadouken: bool)

  /** The hook's options; an absent side, window or charge time takes its
      default. */
  datatype Options = Options(side: Option<Side>, inputWindow: Option<int>, chargeTime: Option<int>, callbacks: Callbacks)

  const ShinkuHadouken1P: seq<Direction> := [Down, DownRight, Right, Down, DownRight, Right]
  const ShinkuHadouken2P: seq<Direction> := [Down, DownLeft, Left, Down, DownLeft, Left]

  function ShunGokuSatsuCommand(side: Side, callbacks: Callbacks): D.CommandDefinition
  {
    var steps := ShunGokuSatsu.Steps(ShunGokuSatsu.Forward(side));
    D.CommandDefinition("shunGokuSatsu", D.ButtonSequenceConfig(steps, steps, DefaultSequenceInputWindow), callbacks.shunGokuSatsu, 1)
  }

  function ShinkuHadoukenCommand(callbacks: Callbacks): D.CommandDefinition
  {
    D.CommandDefinition("shinkuHadouken", D.MotionConfig(ShinkuHadouken1P, ShinkuHadouken2P, Punch, DefaultSuperInputWindow), callbacks.shinkuHadouken, 2)
  }

  function SonicBoomCommand(inputWindow: int, chargeTime: int, callbacks: Callbacks): D.CommandDefinition
  {
    D.CommandDefinition("sonicBoom",
      D.ChargeConfig([Left, DownLeft, UpLeft], [Right, DownRight, UpRight], Right, Left, Punch, chargeTime, inputWindow),
      callbacks.sonicBoom, 3)
  }

  function SpinningBirdKickCommand(inputWindow: int, chargeTime: int, callbacks: Callbacks): D.CommandDefinition
  {
    D.CommandDefinition("spinningBirdKick",
      D.ChargeConfig([Down, DownLeft, DownRight], [Down, DownLeft, DownRight], Up, Up, Kick, chargeTime, inputWindow),
      callbacks.spinningBirdKick, 4)
  }

  function ShoryukenCommand(inputWindow: int, callbacks: Callbacks): D.CommandDefinition
  {
    D.CommandDefinition("shoryuken", D.MotionConfig([Right, Down, DownRight], [Left, Down, DownLeft], Punch, inputWindow), callbacks.shoryuken, 5)
  }

  function TatsumakiCommand(inputWindow: int, callbacks: Callbacks): D.CommandDefinition
  {
    D.CommandDefinition("tatsumaki", D.MotionConfig([Down, DownLeft, Left], [Down, DownRight, Right], Kick, inputWindow), callbacks.tatsumaki, 6)
  }

  function HadoukenCommand(inputWindow: int, callbacks: Callbacks): D.CommandDefinition
  {
    D.CommandDefinition("hadouken", D.MotionConfig([Down, DownRight, Right], [Down, DownLeft, Left], Punch, inputWindow), callbacks.hadouken, 7)
  }

  /** The command list, in priority order 1 to 7: Shun Goku Satsu, Shinku
      Hadouken, Sonic Boom, Spinning Bird Kick, Shoryuken, Tatsumaki,
      Hadouken. The Shun Goku Satsu steps follow the side's forward
      direction for both of its step lists. */
  function Commands(side: Side, inputWindow: int, chargeTime: int, callbacks: Callbacks): (cmds: seq<D.CommandDefinition>)
    ensures |cmds| == 7
    ensures forall k :: 0 <= k < 7 ==> cmds[k].priority == k + 1
  {
    [ ShunGokuSatsuCommand(side, callbacks),
      ShinkuHadoukenCommand(callbacks),
      SonicBoomCommand(inputWindow, chargeTime, callbacks),
      SpinningBirdKickCommand(inputWindow, chargeTime, callbacks),
      ShoryukenCommand(inputWindow, callbacks),
      TatsumakiCommand(inputWindow, callbacks),
      HadoukenCommand(inputWindow, callbacks) ]
  }

  /** The commands the detector tries, in order; the table always meets
      the detector's requirement. */
  function SortedTable(side: Side, inputWindow: int, chargeTime: int, callbacks: Callbacks): (s: seq<D.CommandDefinition>)
    ensures s == D.SortedCommands(Commands(side, inputWindow, chargeTime, callbacks))
    ensures D.WellFormed(s, side)
  {
    TableWellFormed(side, inputWindow, chargeTime, callbacks);
    D.SortedCommands(Commands(side, inputWindow, chargeTime, callbacks))
  }

  /** The commands the hook hands to the detector, defaults filled in. */
  function Table(options: Options): seq<D.CommandDefinition>
  {
    Commands(OrElse(options.side, P1), OrElse(options.inputWindow, DefaultInputWindow), OrElse(options.chargeTime, DefaultChargeTime), options.callbacks)
  }

  /** The detector the hook sets up: the options' side (1P by default)
      over the table. */
  method NewDetector(options: Options) returns (detector: D.Detector)
    ensures detector.side == OrElse(options.side, P1)
    ensures detector.commands == Table(options)
    ensures detector.Valid()
    ensures detector.inputBuffer == [] && detector.chargeStates == map[] && detector.sequenceStates == map[]
  {
    TableWellFormed(OrElse(options.side, P1), OrElse(options.inputWindow, DefaultInputWindow), OrElse(options.chargeTime, DefaultChargeTime), options.callbacks);
    detector := new D.Detector(options.side, Table(options));
  }

  /** The table is what the detector needs: its names are distinct and the
      one button sequence has steps, so every sequence lookup stays in
      range. */
  lemma TableWellFormed(side: Side, inputWindow: int, chargeTime: int, callbacks: Callbacks)
    ensures D.WellFormed(Commands(side, inputWindow, chargeTime, callbacks), side)
    ensures D.WellFormed(D.SortedCommands(Commands(side, inputWindow, chargeTime, callbacks)), side)
  {
    var cmds := Commands(side, inputWindow, chargeTime, callbacks);
    forall c | c in cmds && c.config.ButtonSequenceConfig?
      ensures c == cmds[0]
    {
    }
  }

  /** The names are pairwise distinct, so each command keeps its own charge
      or sequence state. */
  lemma NamesDistinct(side: Side, inputWindow: int, chargeTime: int, callbacks: Callbacks)
    ensures var cmds := Commands(side, inputWindow, chargeTime, callbacks);
      forall i, j :: 0 <= i < j < |cmds| ==> cmds[i].name != cmds[j].name
  {
  }

  /** The detector tries the table's commands with a callback in the
      table's own order: the list is already sorted by priority. */
  lemma TriedInTableOrder(side: Side, inputWindow: int, chargeTime: int, callbacks: Callbacks)
    ensures D.SortedCommands(Commands(side, inputWindow, chargeTime, callbacks)) == D.WithCallback(Commands(side, inputWindow, chargeTime, callbacks))
  {
    D.SortedListTriedInOrder(Commands(side, inputWindow, chargeTime, callbacks));
  }

  lemma ShunGokuSatsuMirrored(callbacks: Callbacks)
    ensures D.MirroredCommand(ShunGokuSatsuCommand(P1, callbacks), ShunGokuSatsuCommand(P2, callbacks))
  {
    var m := Sequence.MirrorSteps(ShunGokuSatsu.Steps(Right));
    assert m[2] == Sequence.DirectionStep(Left);
    assert m == ShunGokuSatsu.Steps(Left);
  }

  lemma ShinkuHadoukenMirrored(callbacks: Callbacks)
    ensures D.MirroredCommand(ShinkuHadoukenCommand(callbacks), ShinkuHadoukenCommand(callbacks))
  {
    assert MirrorAll(ShinkuHadouken1P) == ShinkuHadouken2P;
  }

  lemma SonicBoomMirrored(inputWindow: int, chargeTime: int, callbacks: Callbacks)
    ensures D.MirroredCommand(SonicBoomCommand(inputWindow, chargeTime, callbacks), SonicBoomCommand(inputWindow, chargeTime, callbacks))
  {
    forall d: Direction
      ensures Mirror(d) in [Right, DownRight, UpRight] <==> d in [Left, DownLeft, UpLeft]
    {
      match d
      case Left | DownLeft | UpLeft =>
      case _ =>
    }
  }

  lemma SpinningBirdKickMirrored(inputWindow: int, chargeTime: int, callbacks: Callbacks)
    ensures D.MirroredCommand(SpinningBirdKickCommand(inputWindow, chargeTime, callbacks), SpinningBirdKickCommand(inputWindow, chargeTime, callbacks))
  {
    forall d: Direction
      ensures Mirror(d) in [Down, DownLeft, DownRight] <==> d in [Down, DownLeft, DownRight]
    {
      match d
      case Down | DownLeft | DownRight =>
      case _ =>
    }
  }

  lemma ShoryukenMirrored(inputWindow: int, callbacks: Callbacks)
    ensures D.MirroredCommand(ShoryukenCommand(inputWindow, callbacks), ShoryukenCommand(inputWindow, callbacks))
  {
    assert MirrorAll([Right, Down, DownRight]) == [Left, Down, DownLeft];
  }

  lemma TatsumakiMirrored(inputWindow: int, callbacks: Callbacks)
    ensures D.MirroredCommand(TatsumakiCommand(inputWindow, callbacks), TatsumakiCommand(inputWindow, callbacks))
  {
    assert MirrorAll([Down, DownLeft, Left]) == [Down, DownRight, Right];
  }

  lemma HadoukenMirrored(inputWindow: int, callbacks: Callbacks)
    ensures D.MirroredCommand(HadoukenCommand(inputWindow, callbacks), HadoukenCommand(inputWindow, callbacks))
  {
    assert MirrorAll([Down, DownRight, Right]) == [Down, DownLeft, Left];
  }

  /** Every 2P command is the mirror image of its 1P counterpart. */
  lemma TableMirrored(inputWindow: int, chargeTime: int, callbacks: Callbacks)
    ensures D.Mirrored(Commands(P1, inputWindow, chargeTime, callbacks), Commands(P2, inputWindow, chargeTime, callbacks))
  {
    var cmds1 := Commands(P1, inputWindow, chargeTime, callbacks);
    var cmds2 := Commands(P2, inputWindow, chargeTime, callbacks);
    forall k | 0 <= k < 7
      ensures D.MirroredCommand(cmds1[k], cmds2[k]) && cmds1[k].hasCallback == cmds2[k].hasCallback
    {
      if k == 0 {
        ShunGokuSatsuMirrored(callbacks);
      } else if k == 1 {
        ShinkuHadoukenMirrored(callbacks);
      } else if k == 2 {
        SonicBoomMirrored(inputWindow, chargeTime, callbacks);
      } else if k == 3 {
        SpinningBirdKickMirrored(inputWindow, chargeTime, callbacks);
      } else if k == 4 {
        ShoryukenMirrored(inputWindow, callbacks);
      } else if k == 5 {
        TatsumakiMirrored(inputWindow, callbacks);
      } else {
        HadoukenMirrored(inputWindow, callbacks);
      }
    }
  }

  /** Side symmetry of the whole hook: a 2P player who enters the mirror
      image of a 1P player's inputs fires the same command, with the same
      charge and sequence states left behind. */
  lemma MirroredPlayerFiresSameCommand(inputWindow: int, chargeTime: int, callbacks: Callbacks, buffer: seq<InputRecord>, event: InputRecord,
                                       charges: map<string, Charge.ChargeState>, sequences: map<string, Sequence.SequenceState>)
    requires D.SequencesFit(SortedTable(P1, inputWindow, chargeTime, callbacks), P1, sequences)
    ensures D.SequencesFit(SortedTable(P2, inputWindow, chargeTime, callbacks), P2, sequences)
    ensures var o1 := D.EvaluateFrom(SortedTable(P1, inputWindow, chargeTime, callbacks), 0, P1, buffer, event, charges, sequences);
      var o2 := D.EvaluateFrom(SortedTable(P2, inputWindow, chargeTime, callbacks), 0, P2, MirrorRecords(buffer), MirrorRecord(event), charges, sequences);
      o2.fired == o1.fired && o2.charges == o1.charges && o2.sequences == o1.sequences && o2.buffer == MirrorRecords(o1.buffer)
  {
    var s1 := SortedTable(P1, inputWindow, chargeTime, callbacks);
    var s2 := SortedTable(P2, inputWindow, chargeTime, callbacks);
    TableMirrored(inputWindow, chargeTime, callbacks);
    D.SortedCommandsPairwise(D.MirroredCommand, Commands(P1, inputWindow, chargeTime, callbacks), Commands(P2, inputWindow, chargeTime, callbacks));
    assert D.Mirrored(s1, s2);
    D.SequencesFitMirrored(s1, s2, sequences);
    D.EvaluateMirrored(s1, s2, 0, buffer, event, charges, sequences);
  }

  /** When Shinku Hadouken has a callback and its motion is in the buffer,
      a command fires, and it is Shun Goku Satsu or Shinku Hadouken itself:
      the Hadouken its motion contains never fires instead. */
  lemma ShinkuHadoukenPreemptsHadouken(side: Side, inputWindow: int, chargeTime: int, callbacks: Callbacks, buffer: seq<InputRecord>, event: InputRecord,
                                       charges: map<string, Charge.ChargeState>, sequences: map<string, Sequence.SequenceState>)
    requires callbacks.shinkuHadouken
    requires D.SequencesFit(SortedTable(side, inputWindow, chargeTime, callbacks), side, sequences)
    requires Motion.MotionMatches(buffer, if side == P1 then ShinkuHadouken1P else ShinkuHadouken2P, Punch, DefaultSuperInputWindow)
    ensures var o := D.EvaluateFrom(SortedTable(side, inputWindow, chargeTime, callbacks), 0, side, buffer, event, charges, sequences);
      o.fired == Some("shunGokuSatsu") || o.fired == Some("shinkuHadouken")
  {
    TableHead(side, inputWindow, chargeTime, callbacks);
    TopTwoPreemptAll(Commands(side, inputWindow, chargeTime, callbacks), side, buffer, event, charges, sequences);
  }

  lemma TableHead(side: Side, inputWindow: int, chargeTime: int, callbacks: Callbacks)
    ensures Commands(side, inputWindow, chargeTime, callbacks)[0].name == "shunGokuSatsu"
    ensures Commands(side, inputWindow, chargeTime, callbacks)[1] == ShinkuHadoukenCommand(callbacks)
  {
  }

  /** When the second command of a table numbered 1, 2, 3, ... is a matching
      motion with a callback, the detector fires the first or the second. */
  lemma TopTwoPreemptAll(cmds: seq<D.CommandDefinition>, side: Side, buffer: seq<InputRecord>, event: InputRecord,
                         charges: map<string, Charge.ChargeState>, sequences: map<string, Sequence.SequenceState>)
    requires |cmds| >= 2 && forall k :: 0 <= k < |cmds| ==> cmds[k].priority == k + 1
    requires D.WellFormed(D.SortedCommands(cmds), side) && D.SequencesFit(D.SortedCommands(cmds), side, sequences)
    requires cmds[1].hasCallback && cmds[1].config.MotionConfig?
    requires Motion.MotionMatches(buffer, if side == P1 then cmds[1].config.sequence1P else cmds[1].config.sequence2P,
                                  cmds[1].config.button, cmds[1].config.inputWindow)
    ensures var o := D.EvaluateFrom(D.SortedCommands(cmds), 0, side, buffer, event, charges, sequences);
      o.fired == Some(cmds[0].name) || o.fired == Some(cmds[1].name)
  {
    assert cmds[1] in cmds;
    D.MatchingMotionPreemptsLower(cmds, cmds[1], side, buffer, event, charges, sequences);
    var o := D.EvaluateFrom(D.SortedCommands(cmds), 0, side, buffer, event, charges, sequences);
    var d :| d in cmds && d.hasCallback && d.name == o.fired.value && d.priority <= 2;
    FirstTwoByPriority(cmds, d);
  }

  /** Priority over the whole table, for every kind of command: when any
      command of the table matches against the states the event finds (a
      completed charge, a motion, a button sequence on its last step), a
      command fires, and it stands no later in the table than the matching
      one, so its priority is the same or higher. */
  lemma MatchingCommandPreemptsLower(side: Side, inputWindow: int, chargeTime: int, callbacks: Callbacks,
                                     buffer: seq<InputRecord>, event: InputRecord,
                                     charges: map<string, Charge.ChargeState>, sequences: map<string, Sequence.SequenceState>, k: nat)
    requires k < |SortedTable(side, inputWindow, chargeTime, callbacks)|
    requires D.SequencesFit(SortedTable(side, inputWindow, chargeTime, callbacks), side, sequences)
    requires D.TryCommand(SortedTable(side, inputWindow, chargeTime, callbacks), k, side, buffer, event, charges, sequences).matched
    ensures var s := SortedTable(side, inputWindow, chargeTime, callbacks);
      var o := D.EvaluateFrom(s, 0, side, buffer, event, charges, sequences);
      o.fired.Some? && exists j :: 0 <= j <= k && s[j].name == o.fired.value && s[j].priority <= s[k].priority
  {
    var s := SortedTable(side, inputWindow, chargeTime, callbacks);
    TableNamesIdentify(side, inputWindow, chargeTime, callbacks);
    var j := D.FirstMatchFires(s, k, side, buffer, event, charges, sequences);
    assert s[j].priority <= s[k].priority;
  }

  /** In the sorted table a name identifies one command. */
  lemma TableNamesIdentify(side: Side, inputWindow: int, chargeTime: int, callbacks: Callbacks)
    ensures D.NamesIdentify(SortedTable(side, inputWindow, chargeTime, callbacks))
  {
    var s := SortedTable(side, inputWindow, chargeTime, callbacks);
    var cmds := Commands(side, inputWindow, chargeTime, callbacks);
    NamesDistinct(side, inputWindow, chargeTime, callbacks);
    forall a, b | 0 <= a < |s| && 0 <= b < |s| && s[a].name == s[b].name
      ensures s[a] == s[b]
    {
      assert s[a] in cmds && s[b] in cmds;
    }
  }

  /** In a list whose priorities are 1, 2, 3, ... in order, a command of
      priority at most 2 is one of the first two. */
  lemma FirstTwoByPriority(cmds: seq<D.CommandDefinition>, d: D.CommandDefinition)
    requires forall k :: 0 <= k < |cmds| ==> cmds[k].priority == k + 1
    requires d in cmds && d.priority <= 2
    ensures d == cmds[0] || d == cmds[1]
  {
  }

  /** The callbacks when only Hadouken's is supplied. */
  const OnlyHadouken := Callbacks(true, false, false, false, false, false, false)

  /** With only the Hadouken callback supplied the detector tries Hadouken
      alone: it fires Hadouken exactly when the side's Hadouken motion is in
      the buffer, and fires nothing otherwise, a Tatsumaki motion included. */
  lemma OnlyHadoukenTried(side: Side, inputWindow: int, chargeTime: int, buffer: seq<InputRecord>, event: InputRecord,
                          charges: map<string, Charge.ChargeState>, sequences: map<string, Sequence.SequenceState>)
    requires D.SequencesFit(SortedTable(side, inputWindow, chargeTime, OnlyHadouken), side, sequences)
    ensures var o := D.EvaluateFrom(SortedTable(side, inputWindow, chargeTime, OnlyHadouken), 0, side, buffer, event, charges, sequences);
      o.fired == if Motion.MotionMatches(buffer, if side == P1 then [Down, DownRight, Right] else [Down, DownLeft, Left], Punch, inputWindow)
                 then Some("hadouken") else None
  {
    OnlyHadoukenTable(side, inputWindow, chargeTime);
    D.SingleMotionCommand(HadoukenCommand(inputWindow, OnlyHadouken), side, buffer, event, charges, sequences);
  }

  /** With only Hadouken's callback, the detector's list is Hadouken alone. */
  lemma OnlyHadoukenTable(side: Side, inputWindow: int, chargeTime: int)
    ensures SortedTable(side, inputWindow, chargeTime, OnlyHadouken) == [HadoukenCommand(inputWindow, OnlyHadouken)]
  {
    var cmds := Commands(side, inputWindow, chargeTime, OnlyHadouken);
    TriedInTableOrder(side, inputWindow, chargeTime, OnlyHadouken);
    D.WithCallbackOnlyLast(cmds);
  }

  /** A 2P player with only the Hadouken callback fires nothing on a buffer
      that never holds left, such as the 1P Hadouken motion. */
  lemma Side2PIgnores1PHadouken(inputWindow: int, chargeTime: int, buffer: seq<InputRecord>, event: InputRecord,
                                charges: map<string, Charge.ChargeState>, sequences: map<string, Sequence.SequenceState>)
    requires D.SequencesFit(SortedTable(P2, inputWindow, chargeTime, OnlyHadouken), P2, sequences)
    requires forall x :: x in buffer ==> x.direction != Left
    ensures D.EvaluateFrom(SortedTable(P2, inputWindow, chargeTime, OnlyHadouken), 0, P2, buffer, event, charges, sequences).fired == None
  {
    OnlyHadoukenTried(P2, inputWindow, chargeTime, buffer, event, charges, sequences);
    if Motion.MotionMatches(buffer, [Down, DownLeft, Left], Punch, inputWindow) {
      Motion.MatchNeedsEachDirection(buffer, [Down, DownLeft, Left], Punch, inputWindow, Left);
    }
  }
}
