// Shared vocabulary of the command engine: directions, buttons, player
// sides and the normalised input record every matcher consumes.
module Types {

  /** One of the nine stick positions (src/types.ts). */
  datatype Direction =
    | Up | Down | Left | Right
    | UpLeft | UpRight | DownLeft | DownRight
    | Neutral

  datatype Button = Punch | Kick

  datatype Side = P1 | P2

  datatype Option<T> = None | Some(value: T)

  /** An optional hook argument with its default filled in. */
  function OrElse<T>(o: Option<T>, default: T): T
  {
    if o.Some? then o.value else default
  }

  /** A normalised input event: the derived direction, both button flags and
      an integer timestamp. */
  datatype InputRecord = InputRecord(direction: Direction, punch: bool, kick: bool, timestamp: int)

  /** Whether the given button is held in the record. */
  function Pressed(r: InputRecord, b: Button): bool
  {
    if b == Punch then r.punch else r.kick
  }

  /** Left/right mirror image of a direction, used to derive 2P parameters. */
  function Mirror(d: Direction): (m: Direction)
    ensures Vertical(m) == Vertical(d)
    ensures Horizontal(m) == -Horizontal(d)
  {
    match d
    case Left => Right
    case Right => Left
    case UpLeft => UpRight
    case UpRight => UpLeft
    case DownLeft => DownRight
    case DownRight => DownLeft
    case _ => d
  }

  function MirrorAll(ds: seq<Direction>): (ms: seq<Direction>)
    ensures |ms| == |ds|
    ensures forall k :: 0 <= k < |ds| ==> ms[k] == Mirror(ds[k])
  {
    seq(|ds|, k requires 0 <= k < |ds| => Mirror(ds[k]))
  }

  /** The record as the other side sees it: the direction mirrored, the
      buttons and the time unchanged. */
  function MirrorRecord(r: InputRecord): (m: InputRecord)
    ensures m.direction == Mirror(r.direction)
    ensures m.punch == r.punch && m.kick == r.kick && m.timestamp == r.timestamp
  {
    r.(direction := Mirror(r.direction))
  }

  function MirrorRecords(rs: seq<InputRecord>): (ms: seq<InputRecord>)
    ensures |ms| == |rs|
    ensures forall k :: 0 <= k < |rs| ==> ms[k] == MirrorRecord(rs[k])
  {
    seq(|rs|, k requires 0 <= k < |rs| => MirrorRecord(rs[k]))
  }

  /** Vertical component of a direction: 1 for up, -1 for down, 0 otherwise. */
  function Vertical(d: Direction): int
  {
    match d
    case Up | UpLeft | UpRight => 1
    case Down | DownLeft | DownRight => -1
    case _ => 0
  }

  /** Horizontal component of a direction: 1 for right, -1 for left, 0 otherwise. */
  function Horizontal(d: Direction): int
  {
    match d
    case Right | UpRight | DownRight => 1
    case Left | UpLeft | DownLeft => -1
    case _ => 0
  }

  /** A direction is determined by its two components. */
  lemma ComponentsDetermineDirection(d: Direction, e: Direction)
    requires Vertical(d) == Vertical(e) && Horizontal(d) == Horizontal(e)
    ensures d == e
  {
  }

  /** Mirroring twice gives back the original direction. */
  lemma MirrorInvolution(d: Direction)
    ensures Mirror(Mirror(d)) == d
  {
  }

  /** Mirroring loses nothing: distinct directions stay distinct. */
  lemma MirrorInjective(d: Direction, e: Direction)
    ensures Mirror(d) == Mirror(e) <==> d == e
  {
  }
}
