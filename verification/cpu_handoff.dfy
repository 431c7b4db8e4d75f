/**
 The hand-off between `gameMaster` and `cpuPlayer` in hexz/server.go for a
 single-player Flagz game, as a step relation.  The two goroutines share the engine
 without a lock and meet on two unbuffered channels: `cpuCh` carries tokens to the
 CPU player, `controlEvent` carries its moves back.
 */
module CpuHandoff {
  import opened Cells
  import opened HexBoard
  import opened FlagzRules
  import opened FlagzGame
  import opened FlagzSetup
  import opened Moves
  import opened MctsTree
  import opened MctsSteps
  import opened MctsSearch
  import FlagzEngine

  /** playerIdComputer; ids of human players are generated and differ from it. */
  const COMP := "comp"

  /** Where gameMaster is: in its select, blocked on `cpuCh <- tok{}`, or gone. */
  datatype Master = Selecting | SendingToken | Exited

  /** A move as a child of the root keeps it; the move number is that of the board it is replayed on. */
  datatype Stored = Stored(player: int, at: int, cellType: CellType)

  function Replayed(s: Game, p: Stored): FlatMove
  {
    FlatMove(p.player, s.move, p.at, p.cellType)
  }

  predicate Replayable(s: Game, p: Stored)
  {
    Legal(s, Replayed(s, p))
  }

  /** Where cpuPlayer is: ranging over tokens, inside SuggestMove, blocked on `ctrl <- move`, or gone.
      SuggestMove started in state `root`; `plies` are the moves stored at the children of its root node, none
      before the first iteration.  Every iteration clones the shared engine as it is then. */
  datatype Cpu = Waiting | Thinking(root: Game, plies: set<Stored>) | SendingMove(req: MoveRequest) | Stopped

  datatype MoveRequest = MoveRequest(move: int, at: int, cellType: CellType)

  datatype State = State(game: Game, players: map<string, int>, master: Master, cpu: Cpu)

  datatype Event =
    | Register(id: string)                  // a human joins or reconnects
    | HumanMove(id: string, req: MoveRequest)
    | Token                                 // the two meet on cpuCh
    | Expand(plies: set<Stored>)            // the first iteration clones the engine and gives the root children
    | Descend(p: Stored)                    // a later iteration replays a stored move on its clone
    | Panic(p: Stored)                      // the clone refuses the stored move; the program ends
    | NoMoves                               // the first clone has no move to offer; the program ends
    | Decide(p: Stored)                     // SuggestMove returns
    | Deliver                               // the two meet on controlEvent
    | Tick
    | PlayerRemoved
    | CpuStops                              // cpuCh was closed
    | Reset(id: string, start: Game)

  function Request(player: int, req: MoveRequest): FlatMove
  {
    FlatMove(player, req.move, req.at, req.cellType)
  }

  /** The request for the chosen child; the move number is read from the engine when the search returns. */
  function Chosen(s: Game, p: Stored): MoveRequest
  {
    MoveRequest(s.move, p.at, p.cellType)
  }

  /** Handling of ControlEventMove. */
  ghost function OnMove(g: Graph, s: State, id: string, req: MoveRequest): State
    requires Shaped(g, s.game)
  {
    if id !in s.players || s.game.state != Running then s
    else
      match MakeMove(g, s.game, Request(s.players[id], req))
      case Rejected => s
      case Accepted(game) =>
        s.(game := game, master := if game.turn != 1 && game.state != Finished then SendingToken else s.master)
  }

  /** Handling of ControlEventRegister in a single-player game. */
  function OnRegister(s: State, id: string): State
  {
    if id in s.players || |s.players| >= 2 then s
    else s.(players := s.players[id := |s.players| + 1][COMP := 2])
  }

  predicate AllReplayable(s: Game, plies: set<Stored>)
  {
    forall p :: p in plies ==> Replayable(s, p)
  }

  ghost predicate NothingToPlay(s: Game)
  {
    forall p :: !Replayable(s, p)
  }

  ghost predicate Enabled(g: Graph, s: State, e: Event)
  {
    match e
    case Register(id) => s.master == Selecting && id != COMP
    case HumanMove(id, req) => s.master == Selecting && id != COMP
    case Token => s.master == SendingToken && s.cpu == Waiting
    case Expand(plies) => s.cpu.Thinking? && s.cpu.plies == {} && plies != {} && AllReplayable(s.game, plies)
    case Descend(p) => s.cpu.Thinking? && p in s.cpu.plies && Replayable(s.game, p)
    case Panic(p) => s.cpu.Thinking? && p in s.cpu.plies && !Replayable(s.game, p)
    case NoMoves => s.cpu.Thinking? && s.cpu.plies == {} && NothingToPlay(s.game)
    case Decide(p) => s.cpu.Thinking? && p in s.cpu.plies
    case Deliver => s.master == Selecting && s.cpu.SendingMove?
    case Tick => s.master == Selecting
    case PlayerRemoved => s.master == Selecting
    case CpuStops => s.master == Exited && s.cpu == Waiting
    case Reset(id, start) => s.master == Selecting && id in s.players && id != COMP && NewGame(g, start)
  }

  ghost function Apply(g: Graph, s: State, e: Event): State
    requires Shaped(g, s.game) && Enabled(g, s, e)
  {
    match e
    case Register(id) => OnRegister(s, id)
    case HumanMove(id, req) => OnMove(g, s, id, req)
    case Token => s.(master := Selecting, cpu := Thinking(s.game, {}))
    case Expand(plies) => s.(cpu := Thinking(s.cpu.root, plies))
    case Descend(p) => s
    case Panic(p) => s.(master := Exited, cpu := Stopped)
    case NoMoves => s.(master := Exited, cpu := Stopped)
    case Decide(p) => s.(cpu := SendingMove(Chosen(s.game, p)))
    case Deliver => OnMove(g, s.(cpu := Waiting), COMP, s.cpu.req)
    case Tick => s
    case PlayerRemoved => s.(master := Exited)
    case CpuStops => s.(cpu := Stopped)
    case Reset(id, start) => s.(game := start)
  }

  // ---- What each event does and leaves alone ----

  /** A move of a stranger, in a game that is not running, or one that is refused changes nothing at all. */
  lemma RefusedMoveChangesNothing(g: Graph, s: State, id: string, req: MoveRequest)
    requires Shaped(g, s.game)
    requires id in s.players && s.game.state == Running ==> !Legal(s.game, Request(s.players[id], req))
    ensures OnMove(g, s, id, req) == s
  {
  }

  /** An accepted move changes the game, and makes the game master send a token exactly if the CPU is next. */
  lemma AcceptedMoveEffect(g: Graph, s: State, id: string, req: MoveRequest)
    requires Shaped(g, s.game) && s.master == Selecting && id in s.players && s.game.state == Running
    requires Legal(s.game, FlatMove(s.players[id], req.move, req.at, req.cellType))
    ensures var t := OnMove(g, s, id, req);
            && t.game == MakeMove(g, s.game, FlatMove(s.players[id], req.move, req.at, req.cellType)).game
            && t.players == s.players && t.cpu == s.cpu
            && t.master == if t.game.state == Running && t.game.turn == 2 then SendingToken else Selecting
  {
  }

  /** The first human becomes player 1 against the computer; nobody else is seated, and nobody is replaced. */
  lemma RegisterEffect(s: State, id: string)
    requires PlayersOk(s.players) && id != COMP
    ensures var t := OnRegister(s, id);
            && t.players == (if s.players == map[] then map[id := 1, COMP := 2] else s.players)
            && t.game == s.game && t.master == s.master && t.cpu == s.cpu
  {
    if s.players == map[] {
      assert s.players[id := 1][COMP := 2] == map[id := 1, COMP := 2];
    } else {
      CompIsSecond(s.players);
    }
  }

  /** Which events change what: the game, the players, the state of the CPU player and of the game master. */
  lemma StepFrame(g: Graph, s: State, e: Event)
    requires Shaped(g, s.game) && Enabled(g, s, e)
    ensures var t := Apply(g, s, e);
            && (t.game != s.game ==> e.HumanMove? || e.Deliver? || e.Reset?)
            && (t.players != s.players ==> e.Register?)
            && (t.cpu != s.cpu ==> e.Token? || e.Expand? || e.Decide? || e.Deliver? || e.Panic? || e.NoMoves?
                                   || e.CpuStops?)
            && (t.master == Exited <==> s.master == Exited || e.PlayerRemoved? || e.Panic? || e.NoMoves?)
            && (t.master == SendingToken && s.master != SendingToken ==> t.game.move == s.game.move + 1)
            && (e.Token? ==> t.master == Selecting && t.cpu == Thinking(s.game, {}))
            && (e.Expand? ==> t.cpu == Thinking(s.cpu.root, e.plies))
            && (e.Decide? ==> t.cpu == SendingMove(MoveRequest(s.game.move, e.p.at, e.p.cellType)))
            && (e.Deliver? ==> t.cpu == Waiting)
            && (e.Reset? ==> t.game == e.start)
  {
  }

  ghost predicate Init(g: Graph, s: State)
  {
    NewGame(g, s.game) && s.players == map[] && s.master == Selecting && s.cpu == Waiting
  }

  // ---- The invariant ----

  predicate CpuTurn(s: State)
  {
    s.game.state == Running && s.game.turn == 2
  }

  predicate CpuBusy(s: State)
  {
    s.cpu.Thinking? || s.cpu.SendingMove?
  }

  /** Nobody has joined, or one human is player 1 and the computer is player 2. */
  ghost predicate PlayersOk(ps: map<string, int>)
  {
    ps == map[] || exists human :: human != COMP && ps == map[human := 1, COMP := 2]
  }

  /** Tokens sent or being worked on. */
  function Outstanding(s: State): int
  {
    (if s.master == SendingToken then 1 else 0) + (if CpuBusy(s) then 1 else 0)
  }

  ghost predicate HandoffInv(g: Graph, s: State)
  {
    && Inv(g, s.game) && PlayersOk(s.players)
    && Outstanding(s) <= 1
    && (Outstanding(s) == 1 ==> CpuTurn(s) && s.players != map[])
    && (CpuTurn(s) ==> s.players != map[] && (s.master != Exited ==> Outstanding(s) == 1))
    && (s.cpu.Thinking? ==> s.cpu.root == s.game && AllReplayable(s.game, s.cpu.plies))
    && (s.cpu.SendingMove? ==> Legal(s.game, Request(2, s.cpu.req)))
    && (s.cpu == Stopped ==> s.master == Exited)
  }

  lemma CompIsSecond(ps: map<string, int>)
    requires PlayersOk(ps) && ps != map[]
    ensures COMP in ps && ps[COMP] == 2
    ensures forall id :: id in ps && id != COMP ==> ps[id] == 1
    ensures |ps| == 2
  {
    var human :| human != COMP && ps == map[human := 1, COMP := 2];
    assert ps.Keys == {human, COMP};
    assert |ps| == |ps.Keys|;
  }

  /** While the CPU is to move, whatever a human submits is refused and changes nothing. */
  lemma HumansWaitForCpu(g: Graph, s: State, id: string, req: MoveRequest)
    requires HandoffInv(g, s) && CpuTurn(s) && id != COMP
    ensures OnMove(g, s, id, req) == s
  {
    CompIsSecond(s.players);
  }

  /** Any move that is accepted leaves exactly one token to be sent if the CPU is next, else none. */
  lemma OnMoveKeepsInv(g: Graph, s: State, id: string, req: MoveRequest)
    requires Inv(g, s.game) && PlayersOk(s.players) && s.master == Selecting && s.cpu == Waiting
    requires id in s.players && s.game.state == Running && Legal(s.game, Request(s.players[id], req))
    ensures HandoffInv(g, OnMove(g, s, id, req))
    ensures OnMove(g, s, id, req).game == MakeMove(g, s.game, Request(s.players[id], req)).game
  {
    MakeMoveKeepsInv(g, s.game, Request(s.players[id], req));
  }

  lemma RegisterKeepsInv(g: Graph, s: State, id: string)
    requires HandoffInv(g, s) && id != COMP
    ensures HandoffInv(g, OnRegister(s, id))
  {
    if s.players == map[] {
      assert s.players[id := 1][COMP := 2] == map[id := 1, COMP := 2];
    } else {
      CompIsSecond(s.players);
    }
  }

  /** A reset must not come while the CPU is at work; the game master could test this before it resets. */
  predicate Admitted(s: State, e: Event)
  {
    e.Reset? ==> !CpuBusy(s)
  }

  /** Every step keeps the invariant, a reset exactly if the CPU is not at work; it breaks in on the board if it is. */
  lemma StepKeepsInv(g: Graph, s: State, e: Event)
    requires HandoffInv(g, s) && Enabled(g, s, e)
    ensures HandoffInv(g, Apply(g, s, e)) <==> Admitted(s, e)
    ensures e.Reset? && !Admitted(s, e) ==> CpuBusy(Apply(g, s, e)) && Apply(g, s, e).game != s.game
  {
    if Admitted(s, e) {
      AdmittedStepKeepsInv(g, s, e);
    }
  }

  /** On the board of a running game the first iteration finds a move. */
  lemma SearchCanStart(g: Graph, s: State) returns (p: Stored)
    requires Inv(g, s.game) && s.game.state == Running
    ensures Replayable(s.game, p) && !NothingToPlay(s.game)
  {
    var m := RunningHasLegalMove(g, s.game);
    p := Stored(m.player, m.at, m.cellType);
    assert Replayed(s.game, p) == m;
    assert Replayable(s.game, p);
  }

  ghost predicate SearchPanics(g: Graph, s: State)
  {
    Enabled(g, s, NoMoves) || exists p :: Enabled(g, s, Panic(p))
  }

  lemma InvNeverPanics(g: Graph, s: State)
    requires HandoffInv(g, s)
    ensures !SearchPanics(g, s)
  {
    if s.cpu.Thinking? {
      var p := SearchCanStart(g, s);
    }
  }

  lemma AdmittedStepKeepsInv(g: Graph, s: State, e: Event)
    requires HandoffInv(g, s) && Enabled(g, s, e) && Admitted(s, e)
    ensures HandoffInv(g, Apply(g, s, e))
  {
    match e
    case Register(id) => RegisterKeepsInv(g, s, id);
    case HumanMove(id, req) =>
      if CpuTurn(s) {
        HumansWaitForCpu(g, s, id, req);
      } else if id in s.players && s.game.state == Running && Legal(s.game, Request(s.players[id], req)) {
        OnMoveKeepsInv(g, s, id, req);
      }
    case Deliver => CompIsSecond(s.players); OnMoveKeepsInv(g, s.(cpu := Waiting), COMP, s.cpu.req);
    case _ =>
  }

  // ---- Runs ----

  /** A run from the start without a reset while the CPU is at work. */
  ghost predicate IsRun(g: Graph, states: seq<State>, events: seq<Event>)
  {
    && |states| == |events| + 1 && Init(g, states[0])
    && forall i {:trigger StepAt(g, states, events, i)} :: 0 <= i < |events| ==> StepAt(g, states, events, i)
  }

  ghost predicate StepAt(g: Graph, states: seq<State>, events: seq<Event>, i: nat)
    requires i < |events| < |states|
  {
    && Shaped(g, states[i].game) && Enabled(g, states[i], events[i]) && Admitted(states[i], events[i])
    && states[i + 1] == Apply(g, states[i], events[i])
  }

  lemma {:induction false} RunKeepsInv(g: Graph, states: seq<State>, events: seq<Event>, i: nat)
    requires IsRun(g, states, events) && i < |states|
    ensures HandoffInv(g, states[i])
  {
    if i > 0 {
      RunKeepsInv(g, states, events, i - 1);
      assert StepAt(g, states, events, i - 1);
      AdmittedStepKeepsInv(g, states[i - 1], events[i - 1]);
    }
  }

  /** At most one token is outstanding, while one is being sent the CPU is ready to take it, and the CPU's
      search never panics: it finds a first move, and no stored move is ever refused. */
  lemma AtMostOneToken(g: Graph, states: seq<State>, events: seq<Event>, i: nat)
    requires IsRun(g, states, events) && i < |states|
    ensures Outstanding(states[i]) <= 1
    ensures states[i].master == SendingToken ==> states[i].cpu == Waiting && Enabled(g, states[i], Token)
    ensures !SearchPanics(g, states[i])
  {
    RunKeepsInv(g, states, events, i);
    InvNeverPanics(g, states[i]);
  }

  lemma BusyStepKeepsGame(g: Graph, s: State, e: Event)
    requires HandoffInv(g, s) && Enabled(g, s, e) && Admitted(s, e) && CpuBusy(s) && e != Deliver
    ensures Apply(g, s, e).game == s.game && CpuBusy(Apply(g, s, e))
  {
    InvNeverPanics(g, s);
    if e.HumanMove? {
      HumansWaitForCpu(g, s, e.id, e.req);
    }
  }

  /** Exclusive access: from the receipt of a token until the CPU's move is received the board does not
      change, so everything the CPU reads while thinking, in every clone, belongs to one state of the game. */
  lemma {:induction false} BoardIsStableWhileBusy(g: Graph, states: seq<State>, events: seq<Event>, i: nat, j: nat)
    requires IsRun(g, states, events) && i < j < |states| && events[i] == Token
    requires forall k :: i < k < j ==> events[k] != Deliver
    ensures CpuBusy(states[j]) && states[j].game == states[i].game
    ensures states[j].cpu.Thinking? ==> states[j].cpu.root == states[i].game
    ensures states[j].cpu.Thinking? ==> AllReplayable(states[i].game, states[j].cpu.plies)
    decreases j
  {
    RunKeepsInv(g, states, events, j - 1);
    RunKeepsInv(g, states, events, j);
    assert StepAt(g, states, events, j - 1);
    if i < j - 1 {
      BoardIsStableWhileBusy(g, states, events, i, j - 1);
      BusyStepKeepsGame(g, states[j - 1], events[j - 1]);
    }
  }

  /** The move that the CPU delivers is accepted, in the very state in which it got the token. */
  lemma DeliveredMoveIsAccepted(g: Graph, states: seq<State>, events: seq<Event>, i: nat, j: nat)
    requires IsRun(g, states, events) && i < j < |events| && events[i] == Token && events[j] == Deliver
    requires forall k :: i < k < j ==> events[k] != Deliver
    ensures states[j].cpu.SendingMove?
    ensures Shaped(g, states[i].game) && Legal(states[i].game, Request(2, states[j].cpu.req))
    ensures states[j + 1].game == MakeMove(g, states[i].game, Request(2, states[j].cpu.req)).game
    ensures states[j + 1].game.move == states[i].game.move + 1
  {
    BoardIsStableWhileBusy(g, states, events, i, j);
    RunKeepsInv(g, states, events, j);
    assert StepAt(g, states, events, j);
    CompIsSecond(states[j].players);
    OnMoveKeepsInv(g, states[j].(cpu := Waiting), COMP, states[j].cpu.req);
  }

  /** Hand-off steps left before the CPU's move is made. */
  function StepsLeft(s: State): nat
  {
    if s.master == SendingToken then 4
    else if s.cpu.Thinking? then if s.cpu.plies == {} then 3 else 2
    else 1
  }

  /** No deadlock: while the game master lives and the CPU is to move, a hand-off step can be taken. */
  lemma HandoffStepEnabled(g: Graph, s: State) returns (e: Event)
    requires HandoffInv(g, s) && CpuTurn(s) && s.master != Exited
    ensures Enabled(g, s, e) && (e.Token? || e.Expand? || e.Decide? || e.Deliver?)
    ensures e.Deliver? <==> s.cpu.SendingMove?
    ensures e != Deliver ==> StepsLeft(Apply(g, s, e)) == StepsLeft(s) - 1 && CpuTurn(Apply(g, s, e))
                             && Apply(g, s, e).master != Exited && Apply(g, s, e).game == s.game
  {
    if s.cpu.SendingMove? {
      e := Deliver;
    } else if s.cpu.Thinking? {
      if s.cpu.plies == {} {
        var p := SearchCanStart(g, s);
        e := Expand({p});
      } else {
        var p :| p in s.cpu.plies;
        e := Decide(p);
      }
    } else {
      e := Token;
    }
  }

  lemma DeliverMoves(g: Graph, s: State)
    requires HandoffInv(g, s) && Enabled(g, s, Deliver)
    ensures HandoffInv(g, Apply(g, s, Deliver)) && Apply(g, s, Deliver).game.move == s.game.move + 1
  {
    CompIsSecond(s.players);
    OnMoveKeepsInv(g, s.(cpu := Waiting), COMP, s.cpu.req);
  }

  /** From every state in which the CPU is to move, at most four hand-off steps complete its move. */
  lemma {:induction false} CpuTurnCompletes(g: Graph, s: State) returns (es: seq<Event>, last: State)
    requires HandoffInv(g, s) && CpuTurn(s) && s.master != Exited
    ensures |es| == StepsLeft(s) && forall e :: e in es ==> e.Token? || e.Expand? || e.Decide? || e.Deliver?
    ensures CanPerform(g, s, es, last) && HandoffInv(g, last) && last.game.move == s.game.move + 1
    decreases StepsLeft(s)
  {
    var e := HandoffStepEnabled(g, s);
    if e == Deliver {
      DeliverMoves(g, s);
      es, last := [e], Apply(g, s, e);
      assert CanPerform(g, last, es[1..], last);
    } else {
      AdmittedStepKeepsInv(g, s, e);
      var rest;
      rest, last := CpuTurnCompletes(g, Apply(g, s, e));
      es := [e] + rest;
      assert es[1..] == rest;
    }
  }

  /** The steps lead from s to `last`, without a reset while the CPU is at work. */
  ghost predicate CanPerform(g: Graph, s: State, es: seq<Event>, last: State)
    decreases |es|
  {
    if es == [] then last == s
    else
      && Shaped(g, s.game) && Enabled(g, s, es[0]) && Admitted(s, es[0])
      && CanPerform(g, Apply(g, s, es[0]), es[1..], last)
  }

  lemma {:induction false} PerformOneMore(g: Graph, s: State, es: seq<Event>, t: State, e: Event)
    requires CanPerform(g, s, es, t) && Shaped(g, t.game) && Enabled(g, t, e) && Admitted(t, e)
    ensures CanPerform(g, s, es + [e], Apply(g, t, e))
    decreases |es|
  {
    if es == [] {
      assert CanPerform(g, Apply(g, t, e), [], Apply(g, t, e));
      assert [e][1..] == [];
    } else {
      PerformOneMore(g, Apply(g, s, es[0]), es[1..], t, e);
      assert (es + [e])[1..] == es[1..] + [e];
    }
  }

  lemma {:induction false} PerformKeepsInv(g: Graph, s: State, es: seq<Event>, last: State)
    requires HandoffInv(g, s) && CanPerform(g, s, es, last)
    ensures HandoffInv(g, last)
    decreases |es|
  {
    if es != [] {
      AdmittedStepKeepsInv(g, s, es[0]);
      PerformKeepsInv(g, Apply(g, s, es[0]), es[1..], last);
    }
  }

  // ---- The search behind these events ----

  function StoredAt(d: Dims, n: Node): Stored
  {
    Stored(n.turn, Locate(d, n.r, n.c), n.cellType)
  }

  /** The moves stored at the children of the root. */
  ghost function PliesOf(d: Dims, t: Tree<Game>): set<Stored>
    requires Shape(t)
  {
    NodeShapeAt(t, 0);
    set k | 0 <= k < |t.nodes[0].children| :: StoredAt(d, t.nodes[t.nodes[0].children[k]])
  }

  /** In a search tree every stored move can be replayed in the state of the root. */
  lemma StoredMovesAreLegal(d: Dims, t: Tree<Game>)
    requires TreeInv(GameRules(d), t, -1, 0)
    ensures AllReplayable(t.games[0], PliesOf(d, t))
  {
    NodeShapeAt(t, 0);
    forall k | 0 <= k < |t.nodes[0].children|
      ensures Replayable(t.games[0], StoredAt(d, t.nodes[t.nodes[0].children[k]]))
    {
      ChildFacts(GameRules(d), t, 0, t.nodes[0].children[k]);
    }
  }

  /** If the search began on the CPU's turn, none of them can be replayed in a new game. */
  lemma StoredMovesRefused(d: Dims, t: Tree<Game>, start: Game, p: Stored)
    requires TreeInv(GameRules(d), t, -1, 0) && t.games[0].turn == 2
    requires p in PliesOf(d, t) && NewGame(GraphOf(d), start)
    ensures !Replayable(start, p)
  {
    StoredMovesAreLegal(d, t);
    assert Replayable(t.games[0], p);
  }

  /** The move of the best child is one of the stored moves. */
  lemma BestIsStored(mcts: Mcts, m: EngineMove, move: int) returns (p: Stored)
    requires Shape(mcts.T()) && Inside(mcts.nodes, mcts.nodes[0].children) && mcts.IsBestMove(m, move)
    ensures p in PliesOf(mcts.d, mcts.T())
    ensures MoveRequest(m.move, Locate(mcts.d, m.row, m.col), m.cellType) == MoveRequest(move, p.at, p.cellType)
  {
    var cs := mcts.nodes[0].children;
    var i :| 0 <= i < |cs| && FirstOfBest(mcts.nodes, cs, i) && m == PlyMove(PlyOf(mcts.nodes[cs[i]]), move);
    NodeShapeAt(mcts.T(), 0);
    p := StoredAt(mcts.d, mcts.nodes[cs[i]]);
  }

  /** One round of cpuPlayer's loop: the moves that SuggestMove stores can be replayed on the engine it was given,
      and what it returns is the request for one of them. */
  method Think(mcts: Mcts, engine: FlagzEngine.Engine, deadline: nat, ghost s: State)
      returns (req: MoveRequest, ghost p: Stored)
    requires mcts.Configured() && engine.Valid() && engine.d == mcts.d && deadline > 0
    requires s.game == engine.State() && s.game.state == Running && s.cpu == Thinking(s.game, {})
    modifies mcts`nodes, mcts`games, mcts`parent
    ensures Shape(mcts.T()) && Enabled(GraphOf(engine.d), s, Expand(PliesOf(engine.d, mcts.T())))
    ensures Shaped(GraphOf(engine.d), s.game)
    ensures var t := Apply(GraphOf(engine.d), s, Expand(PliesOf(engine.d, mcts.T())));
            && Enabled(GraphOf(engine.d), t, Decide(p))
            && Apply(GraphOf(engine.d), t, Decide(p)).cpu == SendingMove(req)
  {
    var m, runs := mcts.SuggestMove(engine, deadline);
    req := MoveRequest(m.value.move, Locate(engine.d, m.value.row, m.value.col), m.value.cellType);
    StoredMovesAreLegal(engine.d, mcts.T());
    p := BestIsStored(mcts, m.value, engine.b.move);
  }

  // ---- Resets ----

  /** Each side waits for the other: the game master to send a token, the CPU to send its move. */
  predicate Deadlocked(s: State)
  {
    s.master == SendingToken && s.cpu.SendingMove?
  }

  /** A flag of the human as the first move of a new game makes the game master send a token. */
  lemma HumanHandsOver(g: Graph, s: State, human: string) returns (e: Event)
    requires NewGame(g, s.game) && s.game.freeCells >= 2 && s.master == Selecting
    requires human in s.players && s.players[human] == 1 && human != COMP
    ensures Enabled(g, s, e) && Admitted(s, e) && e.HumanMove?
    ensures var t := Apply(g, s, e);
            && Inv(g, t.game) && t.game.state == Running && t.game.turn == 2
            && t == s.(game := t.game, master := SendingToken)
  {
    var m := FlagHandsOver(g, s.game);
    e := HumanMove(human, MoveRequest(m.move, m.at, m.cellType));
    assert Request(1, e.req) == m;
  }

  /** The search can always come to its end. */
  lemma FinishThinking(g: Graph, s: State, es: seq<Event>, t: State) returns (es': seq<Event>, last: State)
    requires CanPerform(g, s, es, t) && t.cpu.Thinking? && Inv(g, t.game) && t.game.state == Running
    ensures CanPerform(g, s, es', last) && last.cpu.SendingMove? && last.master == t.master
  {
    es', last := es, t;
    if t.cpu.plies == {} {
      var p := SearchCanStart(g, t);
      PerformOneMore(g, s, es, t, Expand({p}));
      es', last := es + [Expand({p})], Apply(g, t, Expand({p}));
    }
    var p :| p in last.cpu.plies;
    PerformOneMore(g, s, es', last, Decide(p));
    es', last := es' + [Decide(p)], Apply(g, last, Decide(p));
  }

  /** After a reset while the CPU is at work, a move of the human that hands the turn to the CPU is enough:
      the game master then sends a token to a CPU that is sending a move, or will be once it has decided. */
  lemma BusyResetDeadlocks(g: Graph, s: State, human: string, start: Game) returns (es: seq<Event>, last: State)
    requires HandoffInv(g, s) && CpuBusy(s) && Enabled(g, s, Reset(human, start)) && start.freeCells >= 2
    ensures CanPerform(g, Apply(g, s, Reset(human, start)), es, last) && Deadlocked(last)
  {
    CompIsSecond(s.players);
    var s1 := Apply(g, s, Reset(human, start));
    var move := HumanHandsOver(g, s1, human);
    assert CanPerform(g, s1, [], s1);
    PerformOneMore(g, s1, [], s1, move);
    es, last := [] + [move], Apply(g, s1, move);
    if s.cpu.Thinking? {
      es, last := FinishThinking(g, s1, es, last);
    }
  }

  ghost predicate CanDeadlock(g: Graph, s: State)
  {
    exists es, last :: CanPerform(g, s, es, last) && Deadlocked(last)
  }

  lemma InvCannotDeadlock(g: Graph, s: State)
    requires HandoffInv(g, s)
    ensures !CanDeadlock(g, s)
  {
    if CanDeadlock(g, s) {
      var es, last :| CanPerform(g, s, es, last) && Deadlocked(last);
      PerformKeepsInv(g, s, es, last);
    }
  }

  lemma ShowDeadlock(g: Graph, s: State, es: seq<Event>, last: State)
    requires CanPerform(g, s, es, last) && Deadlocked(last)
    ensures CanDeadlock(g, s)
  {
  }

  /** Exactly the resets that find the CPU idle are harmless: after them no steps lead to a deadlock. */
  lemma ResetIsSafeIff(g: Graph, s: State, human: string, start: Game)
    requires HandoffInv(g, s) && Enabled(g, s, Reset(human, start)) && start.freeCells >= 2
    ensures CanDeadlock(g, Apply(g, s, Reset(human, start))) <==> CpuBusy(s)
  {
    if CpuBusy(s) {
      var es, last := BusyResetDeadlocks(g, s, human, start);
      ShowDeadlock(g, Apply(g, s, Reset(human, start)), es, last);
    } else {
      AdmittedStepKeepsInv(g, s, Reset(human, start));
      InvCannotDeadlock(g, Apply(g, s, Reset(human, start)));
    }
  }

  lemma DeadlockIsForever(g: Graph, s: State, e: Event)
    requires Deadlocked(s)
    ensures !Enabled(g, s, e)
  {
  }

  /** A human who joins and plays a flag sets the CPU thinking, and its search stores a first move. */
  lemma ReachThinking(g: Graph, s: State, human: string) returns (es: seq<Event>, last: State)
    requires Init(g, s) && s.game.freeCells >= 2 && human != COMP
    ensures CanPerform(g, s, es, last) && HandoffInv(g, last)
    ensures last.cpu.Thinking? && last.cpu.plies != {} && last.master == Selecting && human in last.players
  {
    var s1 := Apply(g, s, Register(human));
    var move := HumanHandsOver(g, s1, human);
    var s2 := Apply(g, s1, move);
    var s3 := Apply(g, s2, Token);
    var p := SearchCanStart(g, s3);
    assert CanPerform(g, s, [], s);
    PerformOneMore(g, s, [], s, Register(human));
    PerformOneMore(g, s, [] + [Register(human)], s1, move);
    PerformOneMore(g, s, [] + [Register(human)] + [move], s2, Token);
    PerformOneMore(g, s, [] + [Register(human)] + [move] + [Token], s3, Expand({p}));
    es, last := [] + [Register(human)] + [move] + [Token] + [Expand({p})], Apply(g, s3, Expand({p}));
    assert p in last.cpu.plies;
    PerformKeepsInv(g, s, es, last);
  }

  /** The deadlock is reachable on every board of at least four cells: a human joins, plays a flag, resets
      the game after the CPU has begun its search and plays a flag again, and the search returns before its
      next iteration; nothing can happen after that. */
  lemma ResetCanDeadlock(d: Dims, human: string)
      returns (s0: State, before: seq<Event>, s: State, start: Game, after: seq<Event>, last: State)
    requires Size(d) >= 4 && human != COMP
    ensures Init(GraphOf(d), s0) && CanPerform(GraphOf(d), s0, before, s) && Shaped(GraphOf(d), s.game)
    ensures Enabled(GraphOf(d), s, Reset(human, start))
    ensures CanPerform(GraphOf(d), Apply(GraphOf(d), s, Reset(human, start)), after, last)
    ensures Deadlocked(last) && forall e :: !Enabled(GraphOf(d), last, e)
  {
    start := SomeStart(d);
    s0 := State(start, map[], Selecting, Waiting);
    before, s := ReachThinking(GraphOf(d), s0, human);
    after, last := BusyResetDeadlocks(GraphOf(d), s, human, start);
    forall e
      ensures !Enabled(GraphOf(d), last, e)
    {
      DeadlockIsForever(GraphOf(d), last, e);
    }
  }

  // ---- Resets during a search ----

  /** A step that neither begins an iteration of the search nor ends it. */
  predicate OutsideSearch(e: Event)
  {
    !e.Expand? && !e.Descend? && !e.Panic? && !e.NoMoves? && !e.Decide?
  }

  /** Without steps of the search its stored moves stay, and the board changes only by accepted moves. */
  lemma {:induction false} SearchUntouched(g: Graph, s: State, es: seq<Event>, last: State)
    requires CanPerform(g, s, es, last) && s.cpu.Thinking? && forall e :: e in es ==> OutsideSearch(e)
    ensures last.cpu == s.cpu && last.game.move >= s.game.move
    ensures last.game.move == s.game.move ==> last.game == s.game
    decreases |es|
  {
    if es != [] {
      assert OutsideSearch(es[0]);
      SearchUntouched(g, Apply(g, s, es[0]), es[1..], last);
    }
  }

  /** From a reset that finds the CPU thinking until the human's next accepted move, the next iteration of the
      search panics exactly if the search had stored moves before the reset: the new game refuses each of them. */
  lemma StoredMovesFailAfterReset(g: Graph, s: State, human: string, start: Game, es: seq<Event>, last: State)
    requires HandoffInv(g, s) && s.cpu.Thinking? && Enabled(g, s, Reset(human, start))
    requires CanPerform(g, Apply(g, s, Reset(human, start)), es, last) && forall e :: e in es ==> OutsideSearch(e)
    requires last.game.move == start.move
    ensures forall p :: Enabled(g, last, Panic(p)) <==> p in s.cpu.plies
    ensures forall p :: !Enabled(g, last, Descend(p))
    ensures SearchPanics(g, last) <==> s.cpu.plies != {}
  {
    SearchUntouched(g, Apply(g, s, Reset(human, start)), es, last);
    NewGameRefuses(g, s, start);
    NextIteration(g, s.cpu.plies, last);
  }

  /** Moves stored on the CPU's turn are moves of player 2, and player 1 begins. */
  lemma NewGameRefuses(g: Graph, s: State, start: Game)
    requires HandoffInv(g, s) && s.cpu.Thinking? && NewGame(g, start)
    ensures forall p :: p in s.cpu.plies ==> !Replayable(start, p)
  {
    forall p | p in s.cpu.plies
      ensures !Replayable(start, p)
    {
      assert Replayable(s.game, p);
    }
  }

  lemma NextIteration(g: Graph, plies: set<Stored>, s: State)
    requires NewGame(g, s.game) && s.cpu.Thinking? && s.cpu.plies == plies
    requires forall p :: p in plies ==> !Replayable(s.game, p)
    ensures forall p :: Enabled(g, s, Panic(p)) <==> p in plies
    ensures forall p :: !Enabled(g, s, Descend(p))
    ensures SearchPanics(g, s) <==> plies != {}
  {
    if plies == {} {
      var p := SearchCanStart(g, s);
    } else {
      var p :| p in plies;
      assert Enabled(g, s, Panic(p));
    }
  }

  ghost predicate CanPanic(g: Graph, s: State)
  {
    exists es, last :: CanPerform(g, s, es, last) && SearchPanics(g, last)
  }

  lemma ShowPanic(g: Graph, s: State, es: seq<Event>, last: State, p: Stored)
    requires CanPerform(g, s, es, last) && Enabled(g, last, Panic(p))
    ensures CanPanic(g, s)
  {
    assert SearchPanics(g, last);
  }

  /** A reset has come while the CPU was sending its move, and the move is still being sent. */
  ghost predicate LateMove(g: Graph, s: State)
  {
    && Inv(g, s.game) && PlayersOk(s.players) && s.players != map[]
    && s.cpu.SendingMove? && (s.master == Selecting ==> !CpuTurn(s))
  }

  /** The late move is refused; or it is never received. */
  lemma LateMoveStep(g: Graph, s: State, e: Event)
    requires LateMove(g, s) && Enabled(g, s, e) && Admitted(s, e)
    ensures LateMove(g, Apply(g, s, e)) || HandoffInv(g, Apply(g, s, e))
  {
    CompIsSecond(s.players);
    if e.HumanMove? && e.id in s.players && s.game.state == Running && Legal(s.game, Request(1, e.req)) {
      MakeMoveKeepsInv(g, s.game, Request(1, e.req));
    }
  }

  lemma {:induction false} LateMoveNeverPanics(g: Graph, s: State, es: seq<Event>, last: State)
    requires (LateMove(g, s) || HandoffInv(g, s)) && CanPerform(g, s, es, last)
    ensures !SearchPanics(g, last)
    decreases |es|
  {
    if HandoffInv(g, s) {
      PerformKeepsInv(g, s, es, last);
      InvNeverPanics(g, last);
    } else if es != [] {
      LateMoveStep(g, s, es[0]);
      LateMoveNeverPanics(g, Apply(g, s, es[0]), es[1..], last);
    }
  }

  lemma ThinkingResetPanics(g: Graph, s: State, human: string, start: Game)
    requires HandoffInv(g, s) && s.cpu.Thinking? && Enabled(g, s, Reset(human, start)) && start.freeCells >= 2
    ensures CanPanic(g, Apply(g, s, Reset(human, start)))
  {
    var s1 := Apply(g, s, Reset(human, start));
    assert CanPerform(g, s1, [], s1);
    if s.cpu.plies != {} {
      StoredMovesFailAfterReset(g, s, human, start, [], s1);
      var p :| p in s.cpu.plies;
      ShowPanic(g, s1, [], s1, p);
    } else {
      CompIsSecond(s.players);
      var p := SearchCanStart(g, s1);
      PerformOneMore(g, s1, [], s1, Expand({p}));
      var s2 := Apply(g, s1, Expand({p}));
      var move := HumanHandsOver(g, s2, human);
      PerformOneMore(g, s1, [] + [Expand({p})], s2, move);
      ShowPanic(g, s1, [] + [Expand({p})] + [move], Apply(g, s2, move), p);
    }
  }

  /** Exactly the resets during a search can make the program panic; after a reset while the CPU is sending its
      move no search panics any more. */
  lemma ResetCanPanicIff(g: Graph, s: State, human: string, start: Game)
    requires HandoffInv(g, s) && Enabled(g, s, Reset(human, start)) && start.freeCells >= 2
    ensures CanPanic(g, Apply(g, s, Reset(human, start))) <==> s.cpu.Thinking?
  {
    var s1 := Apply(g, s, Reset(human, start));
    if s.cpu.Thinking? {
      ThinkingResetPanics(g, s, human, start);
    } else if CanPanic(g, s1) {
      var es, last :| CanPerform(g, s1, es, last) && SearchPanics(g, last);
      if !CpuBusy(s) {
        AdmittedStepKeepsInv(g, s, Reset(human, start));
      }
      LateMoveNeverPanics(g, s1, es, last);
    }
  }

  /** The panic is reachable on every board of at least four cells: a human joins, plays a flag and resets the
      game after the first iteration of the search; the next iteration panics, whichever move it replays. */
  lemma ResetCanPanic(d: Dims, human: string)
      returns (s0: State, before: seq<Event>, s: State, start: Game, p: Stored)
    requires Size(d) >= 4 && human != COMP
    ensures Init(GraphOf(d), s0) && CanPerform(GraphOf(d), s0, before, s) && Shaped(GraphOf(d), s.game)
    ensures Enabled(GraphOf(d), s, Reset(human, start))
    ensures Enabled(GraphOf(d), Apply(GraphOf(d), s, Reset(human, start)), Panic(p))
    ensures forall q :: !Enabled(GraphOf(d), Apply(GraphOf(d), s, Reset(human, start)), Descend(q))
  {
    start := SomeStart(d);
    s0 := State(start, map[], Selecting, Waiting);
    before, s := ReachThinking(GraphOf(d), s0, human);
    var s1 := Apply(GraphOf(d), s, Reset(human, start));
    assert CanPerform(GraphOf(d), s1, [], s1);
    StoredMovesFailAfterReset(GraphOf(d), s, human, start, [], s1);
    p :| p in s.cpu.plies;
  }
}
