/**
 * The parts of the websocket handler (src/server/ws.rs) that decide what
 * happens to the world: the join handshake and display name, the commands a
 * joined player sends, the per-tick send decision, and the cleanup when the
 * connection ends. Transport, tasks and JSON are not part of this model: a
 * frame arrives already parsed, and the account lookup for a session token
 * arrives as its result.
 */
module Connection {
  import opened Wrappers
  import opened RealMath
  import opened Config
  import opened Players
  import opened WorldStates
  import P = Protocol
  import Actions
  import Engine
  import GameWorld

  const MAX_NAME_LENGTH: nat := 20
  const DEFAULT_NAME: string := "Unnamed"
  const JOIN_EXPECTED: string := "Expected join message"

  /** One frame read from the socket; a text frame comes with its parse, if it parsed. */
  datatype Frame =
    | Text(parsed: Option<P.ClientMessage>)
    | CloseFrame
    | OtherFrame
    | Failed

  // ---------------------------------------------------------------- display names

  /** `char::is_whitespace`: the Unicode White_Space property. */
  predicate IsWhitespace(c: char) {
    || ('\t' <= c <= '\r') || c == ' ' || c == '\U{0085}' || c == '\U{00A0}' || c == '\U{1680}'
    || ('\U{2000}' <= c <= '\U{200A}') || c == '\U{2028}' || c == '\U{2029}' || c == '\U{202F}'
    || c == '\U{205F}' || c == '\U{3000}'
  }

  predicate AllWhitespace(s: string) {
    forall i :: 0 <= i < |s| ==> IsWhitespace(s[i])
  }

  function TrimStart(s: string): string {
    if |s| > 0 && IsWhitespace(s[0]) then TrimStart(s[1..]) else s
  }

  function TrimEnd(s: string): string {
    if |s| > 0 && IsWhitespace(s[|s| - 1]) then TrimEnd(s[..|s| - 1]) else s
  }

  /** `str::trim`. */
  function Trim(s: string): string {
    TrimEnd(TrimStart(s))
  }

  lemma {:induction false} TrimStartEmptyIff(s: string)
    ensures TrimStart(s) == [] <==> AllWhitespace(s)
    ensures TrimStart(s) != [] ==> !IsWhitespace(TrimStart(s)[0])
  {
    if |s| > 0 && IsWhitespace(s[0]) {
      TrimStartEmptyIff(s[1..]);
      assert forall i :: 1 <= i < |s| ==> s[i] == s[1..][i - 1];
    }
  }

  lemma {:induction false} TrimEndEmptyIff(s: string)
    ensures TrimEnd(s) == [] <==> AllWhitespace(s)
  {
    if |s| > 0 && IsWhitespace(s[|s| - 1]) {
      TrimEndEmptyIff(s[..|s| - 1]);
      assert forall i :: 0 <= i < |s| - 1 ==> s[i] == s[..|s| - 1][i];
    }
  }

  /** A string trims to nothing exactly when every character of it is whitespace. */
  lemma {:induction false} TrimEmptyIff(s: string)
    ensures Trim(s) == [] <==> AllWhitespace(s)
  {
    TrimStartEmptyIff(s);
    TrimEndEmptyIff(TrimStart(s));
  }

  /** The name a joining player is shown under. */
  function DisplayName(name: string): string {
    if Trim(name) == [] then DEFAULT_NAME
    else if |name| <= MAX_NAME_LENGTH then name
    else name[..MAX_NAME_LENGTH]
  }

  /**
   * A blank name (nothing but whitespace, or empty) becomes "Unnamed"; any
   * other name is kept as typed, untrimmed, cut to its first 20 characters.
   * Either way the result is non-empty and at most 20 characters long.
   */
  lemma {:induction false} DisplayNameProperties(name: string)
    ensures var r := DisplayName(name);
      && (AllWhitespace(name) ==> r == DEFAULT_NAME)
      && (!AllWhitespace(name) ==> |r| == (if |name| < MAX_NAME_LENGTH then |name| else MAX_NAME_LENGTH) && r == name[..|r|])
      && 0 < |r| <= MAX_NAME_LENGTH
  {
    TrimEmptyIff(name);
    if !AllWhitespace(name) {
      assert |name| > 0;
    }
  }

  // ---------------------------------------------------------------- the handshake

  /** The name and token of the first frame, if it is a parsed `Join`. */
  function JoinOf(first: Option<Frame>): (r: Option<(string, Option<string>)>)
    ensures r.Some? <==> first.Some? && first.value.Text? && first.value.parsed.Some? && first.value.parsed.value.Join?
    ensures r.Some? ==> r.value == (first.value.parsed.value.name, first.value.parsed.value.token)
  {
    match first
    case Some(Text(Some(Join(name, token)))) => Some((name, token))
    case _ => None
  }

  /**
   * The handshake: the first frame must be a `Join`, or the client gets one
   * `Error` and no player is added. Otherwise the player joins under its
   * display name, with `userId` the account the session token resolved to
   * (none when the frame carries no token), and is told its id and the
   * world size.
   */
  method Open(world: GameWorld.World, first: Option<Frame>, userId: Option<int>, x: real, y: real, color: string)
    returns (reply: P.ServerMessage, id: Option<nat>)
    requires world.Valid() && GameWorld.SpawnPointOk(x, y) && color in PLAYER_COLORS
    requires JoinOf(first).Some? && JoinOf(first).value.1.None? ==> userId.None?
    modifies world
    ensures world.Valid()
    ensures JoinOf(first).None? ==>
      reply == P.Error(JOIN_EXPECTED) && id == None && world.State() == old(world.State())
    ensures JoinOf(first).Some? ==>
      && id == Some(old(world.nextPlayerId)) && reply == P.Joined(id.value, WORLD_SIZE)
      && world.State() == GameWorld.Joined(old(world.State()), DisplayName(JoinOf(first).value.0), userId, x, y, color)
  {
    var join := JoinOf(first);
    if join.None? {
      reply := P.Error(JOIN_EXPECTED);
      id := None;
      return;
    }
    var (name, _) := join.value;
    var newId := world.AddPlayer(DisplayName(name), userId, x, y, color);
    id := Some(newId);
    reply := P.Joined(newId, WORLD_SIZE);
  }

  // ---------------------------------------------------------------- commands

  /** The world after one frame from a joined player `id`. */
  function Applied(sqrt: real -> real, s: WorldState, id: nat, frame: Frame): WorldState {
    match frame
    case Text(Some(Move(x, y))) =>
      if id in s.players then s.(players := s.players[id := s.players[id].(targetX := x, targetY := y)]) else s
    case Text(Some(Split)) => Actions.SplitDone(sqrt, s, id)
    case Text(Some(Eject)) => Actions.EjectDone(sqrt, s, id)
    case _ => s
  }

  /** Whether the receive loop goes on after `frame`: it stops on a close frame and on a read error. */
  predicate KeepsReading(frame: Frame) {
    frame.Text? || frame.OtherFrame?
  }

  /**
   * A `Move` sets exactly that player's target and nothing else, and does
   * nothing for a player that is gone; a later `Join`, an unparsed text and
   * any non-text frame change nothing. Every frame keeps the invariant,
   * the set of players and the id counter.
   */
  lemma {:induction false} AppliedProperties(sqrt: real -> real, s: WorldState, id: nat, frame: Frame)
    requires Inv(s)
    ensures var r := Applied(sqrt, s, id, frame);
      && Inv(r)
      && r.players.Keys == s.players.Keys && r.nextPlayerId == s.nextPlayerId
      && (frame.Text? && frame.parsed.Some? && frame.parsed.value.Move? ==>
            var m := frame.parsed.value;
            && (id in s.players ==>
                  && r.players[id] == s.players[id].(targetX := r.players[id].targetX, targetY := r.players[id].targetY)
                  && r.players[id].targetX == m.x && r.players[id].targetY == m.y
                  && (forall other :: other in s.players && other != id ==> r.players[other] == s.players[other])
                  && r.food == s.food && r.viruses == s.viruses && r.ejected == s.ejected)
            && (id !in s.players ==> r == s))
      && (!frame.Text? || frame.parsed.None? || frame.parsed.value.Join? ==> r == s)
  {
    match frame
    case Text(Some(Split)) => Actions.SplitDoneProperties(sqrt, s, id);
    case Text(Some(Eject)) => Actions.EjectDoneProperties(sqrt, s, id);
    case _ =>
  }

  /** The receive loop's body for one frame; `more` says whether the loop reads another. */
  method Apply(world: GameWorld.World, id: nat, frame: Frame) returns (more: bool)
    requires world.Valid()
    modifies world
    ensures world.Valid() && world.State() == Applied(world.sqrt, old(world.State()), id, frame)
    ensures more == KeepsReading(frame)
  {
    AppliedProperties(world.sqrt, world.State(), id, frame);
    more := KeepsReading(frame);
    match frame
    case Text(Some(msg)) =>
      match msg {
        case Move(x, y) =>
          if id in world.players {
            var p := world.players[id];
            world.players := world.players[id := p.(targetX := x, targetY := y)];
          }
        case Split => world.SplitPlayer(id);
        case Eject => world.EjectMass(id);
        case Join(_, _) =>
      }
    case _ =>
  }

  // ---------------------------------------------------------------- sending

  /** What the send task does on one tick. */
  datatype SendStep =
    | Stop                              // the player is gone: end without a message
    | SendAndStop(msg: P.ServerMessage) // the player died: one last message
    | Send(msg: P.ServerMessage)        // the player is alive: its view

  /**
   * An absent player ends the send task silently; a dead one gets exactly one
   * `Dead` with its score and an empty killer name, then the send task ends; a
   * living one is sent its projected state, which always exists.
   */
  function SendDecision(sqrt: real -> real, s: WorldState, id: nat, ids: seq<nat>): (r: SendStep)
    requires IsSqrt(sqrt) && forall k :: 0 <= k < |ids| ==> ids[k] in s.players
    ensures r.Stop? <==> id !in s.players
    ensures r.SendAndStop? <==> id in s.players && !s.players[id].alive
    ensures r.SendAndStop? ==> r.msg == P.Dead("", s.players[id].score)
    ensures r.Send? <==> id in s.players && s.players[id].alive
    ensures r.Send? ==> Engine.BuildState(sqrt, s, id, ids) == Some(r.msg) && r.msg.State?
  {
    if id !in s.players then Stop
    else if !s.players[id].alive then SendAndStop(P.Dead(GameWorld.KillerName(id), s.players[id].score))
    else Send(Engine.BuildState(sqrt, s, id, ids).value)
  }

  /** The cleanup when any of the connection's tasks ends: the player leaves the world. */
  method Close(world: GameWorld.World, id: nat)
    requires world.Valid()
    modifies world
    ensures world.Valid() && world.State() == GameWorld.Left(old(world.State()), id)
  {
    world.RemovePlayer(id);
  }
}
