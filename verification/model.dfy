/** The game's records: what the referee reports each turn (the view), the actions a bot
    answers with, and the agent's tuning parameters. */
module Model {
  import opened Wrappers
  import opened Traverse

  /** Team numbers. */
  const Self := 0
  const Enemy := 1

  /** Map tiles. */
  const Blank := ' '
  const Wall := '#'

  /** The forms a pac can take, as the referee writes them. */
  const Rock := "ROCK"
  const Paper := "PAPER"
  const Scissors := "SCISSORS"
  const Dead := "DEAD"

  /** A pac the referee reports this turn. */
  datatype PacSensor = PacSensor(id: nat, team: int, pos: Vec, kind: string, speedTurnsLeft: int, abilityCooldown: int)

  /** A visible pellet and the points it is worth. */
  datatype Pellet = Pellet(pos: Vec, value: int)

  /** One turn's input: the grid, the rows of the map, the visible pacs and pellets, the scores. */
  datatype View = View(tick: int, width: nat, height: nat, rows: seq<string>,
                       pacs: seq<PacSensor>, pellets: seq<Pellet>, scores: seq<int>)
  {
    function Dims(): Dims {
      Traverse.Dims(width, height)
    }
  }

  /** The tile at column `x` of row `y`; `None` past the end of a row (JavaScript's `undefined`). */
  function TileAt(view: View, x: int, y: int): Option<char> {
    if 0 <= y < |view.rows| && 0 <= x < |view.rows[y]| then Some(view.rows[y][x]) else None
  }

  /** What a pac is told to do. `Unknown` carries any other action type. */
  datatype Intent = Wait | Move(target: Vec) | Switch(form: string) | Speed | Unknown(kind: string)

  /** An action for pac `pac`, with an optional tag the referee shows next to it. */
  datatype Action = Action(pac: nat, intent: Intent, tag: Option<string>)

  /** The agent's tuning parameters. `searchRange` and `nearbyEnemiesTicks` are read by the
      planners but missing from the record's declaration; they are fields here. */
  datatype AgentParams = AgentParams(
    discountRate: real,
    recentEnemiesTicks: int,
    nearbyEnemyRange: int,
    moveTimeoutMilliseconds: int,
    useSpeed: bool,
    searchRange: int,
    nearbyEnemiesTicks: int)
}
