/**
 * The wire messages of src/protocol/messages.rs, as datatypes. Their JSON
 * encoding is not part of this model.
 */
module Protocol {
  import opened Wrappers

  /** Client to server. */
  datatype ClientMessage =
    | Join(name: string, token: Option<string>)
    | Move(x: real, y: real)
    | Split
    | Eject

  datatype CellState = CellState(x: real, y: real, radius: real)

  datatype PlayerState = PlayerState(id: nat, name: string, skin: Option<string>, cells: seq<CellState>)

  datatype FoodState = FoodState(x: real, y: real, color: string)

  datatype VirusState = VirusState(x: real, y: real, radius: real)

  datatype LeaderboardEntry = LeaderboardEntry(name: string, score: nat)

  /** Server to client. */
  datatype ServerMessage =
    | Joined(id: nat, worldSize: real)
    | State(players: seq<PlayerState>, food: seq<FoodState>, viruses: seq<VirusState>, leaderboard: seq<LeaderboardEntry>)
    | Dead(killer: string, score: nat)
    | Error(message: string)
}
