/** `handle_commands`: one client connection with its MULTI/EXEC/DISCARD state, while other connections
    may change the server between its commands. */
module Connection {
  import opened Basics
  import opened Text
  import opened RespSpec
  import opened RoundTrip
  import opened Printing
  import opened Commands
  import opened Executor
  import opened Replies

  const QUEUED_REPLY := "+QUEUED" + CRLF
  const EXEC_REFUSED := "-ERR EXEC without MULTI" + CRLF
  const DISCARD_REFUSED := "-ERR DISCARD without MULTI" + CRLF

  /** The locals of the connection's loop. */
  datatype Conn = Conn(isMulti: bool, queue: seq<Command>)

  const FRESH := Conn(false, [])

  /** A connection, the server it talks to, the next clock reading and the replies written so far. The
      loop ends on a protocol error, on a panic, and when the peer turns out to be a replica. */
  datatype Session = Session(conn: Conn, world: World, at: nat, replies: seq<string>, open: bool)

  /** What the other connections do to the server just before the command at each clock reading: the
      code locks the map for each command, so they may act between two commands of one transaction. */
  type Moves = nat -> World -> World

  /** The other connections do nothing. */
  const QUIET: Moves := (at: nat) => (w: World) => w

  /** The executor's loop while the others move. */
  function ExecuteAmong(cmds: seq<Command>, w: World, clock: Clock, moves: Moves, at: nat): (World, seq<string>) {
    if cmds == [] then (w, [])
    else
      var (w1, reply) := Execute(cmds[0], moves(at)(w), clock(at));
      var (w2, replies) := ExecuteAmong(cmds[1..], w1, clock, moves, at + 1);
      (w2, [reply] + replies)
  }

  function Obey(cmd: Command, s: Session, clock: Clock, moves: Moves): Session {
    match cmd
    case Psync(id, _) => if id.Some? then s else s.(open := false)
    case Multi => s.(conn := s.conn.(isMulti := true), replies := s.replies + [OK_REPLY])
    case Exec =>
      if !s.conn.isMulti then s.(replies := s.replies + [EXEC_REFUSED])
      else
        var (w, replies) := ExecuteAmong(s.conn.queue, s.world, clock, moves, s.at);
        var reply := ArrayHeader(|s.conn.queue|) + Concat(replies);
        s.(conn := FRESH, world := w, at := s.at + |s.conn.queue|, replies := s.replies + [reply])
    case Discard =>
      if !s.conn.isMulti then s.(replies := s.replies + [DISCARD_REFUSED])
      else s.(conn := FRESH, replies := s.replies + [OK_REPLY])
    case _ =>
      if s.conn.isMulti then
        s.(conn := s.conn.(queue := s.conn.queue + [cmd]), replies := s.replies + [QUEUED_REPLY])
      else
        var (w, reply) := ExecuteMulti([cmd], false, s.world, clock, s.at);
        s.(world := w, at := s.at + 1, replies := s.replies + [reply])
  }

  /** One buffer read from the client. */
  function Receive(text: string, s: Session, clock: Clock, moves: Moves): Session {
    match Parse(text)
    case Ok(Array(items)) =>
      var cmd := ParseCommand(items);
      if cmd.Ok? then Obey(cmd.value, s, clock, moves) else s
    case Ok(_) => s
    case _ => s.(open := false)
  }

  /** What happens on the connection's timeline: a buffer arrives, or other connections move the server. */
  datatype Event = Buffer(text: string) | Others(move: World -> World)

  function Advance(e: Event, s: Session, clock: Clock, moves: Moves): Session {
    if !s.open then s
    else match e
         case Buffer(text) => Receive(text, s, clock, moves)
         case Others(move) => s.(world := move(s.world))
  }

  function Timeline(es: seq<Event>, s: Session, clock: Clock, moves: Moves): Session {
    if es == [] then s else Timeline(es[1..], Advance(es[0], s, clock, moves), clock, moves)
  }

  /** The commands that MULTI queues. */
  predicate Queueable(cmd: Command) {
    !cmd.Multi? && !cmd.Exec? && !cmd.Discard? && !cmd.Psync?
  }

  // ---------------------------------------------------------------- over every timeline

  /** Outside a transaction nothing is queued, and only queueable commands ever are. */
  predicate ConnInv(c: Conn) {
    (!c.isMulti ==> c.queue == []) && forall cmd | cmd in c.queue :: Queueable(cmd)
  }

  lemma AdvanceInv(e: Event, s: Session, clock: Clock, moves: Moves)
    requires ConnInv(s.conn)
    ensures ConnInv(Advance(e, s, clock, moves).conn)
  {
    hide ExecuteMulti, ExecuteAmong, ParseCommand;
  }

  lemma {:induction false} TimelineInv(es: seq<Event>, s: Session, clock: Clock, moves: Moves)
    requires ConnInv(s.conn)
    ensures ConnInv(Timeline(es, s, clock, moves).conn)
  {
    hide Advance;
    if es != [] {
      AdvanceInv(es[0], s, clock, moves);
      TimelineInv(es[1..], Advance(es[0], s, clock, moves), clock, moves);
    }
  }

  ghost predicate CleanEvent(e: Event) {
    e.Others? ==> forall w :: CleanWorld(w) ==> CleanWorld(e.move(w))
  }

  /** The other connections keep the server clean. */
  ghost predicate CleanMoves(moves: Moves) {
    forall at: nat, w: World :: CleanWorld(w) ==> CleanWorld(moves(at)(w))
  }

  lemma {:induction false} ExecuteAmongClean(cmds: seq<Command>, w: World, clock: Clock, moves: Moves, at: nat)
    requires CleanWorld(w) && CleanCommands(cmds) && CleanMoves(moves)
    ensures CleanWorld(ExecuteAmong(cmds, w, clock, moves, at).0)
  {
    hide CleanWorld, CleanCommand, Execute;
    if cmds != [] {
      assert cmds[0] in cmds;
      var w0 := moves(at)(w);
      ExecuteClean(cmds[0], w0, clock(at));
      ExecuteAmongClean(cmds[1..], Execute(cmds[0], w0, clock(at)).0, clock, moves, at + 1);
    }
  }

  lemma AdvanceClean(e: Event, s: Session, clock: Clock, moves: Moves)
    requires CleanEvent(e) && CleanMoves(moves) && CleanWorld(s.world) && CleanCommands(s.conn.queue)
    ensures var s' := Advance(e, s, clock, moves);
            CleanWorld(s'.world) && CleanCommands(s'.conn.queue)
  {
    hide CleanWorld, CleanCommand, ExecuteAll, ExecuteAmong, ParseCommand;
    if s.open && e.Buffer? && Parse(e.text).Ok? && Parse(e.text).value.Array? {
      ParseYieldsClean(e.text);
      var items := Parse(e.text).value.items;
      if ParseCommand(items).Ok? {
        ParsedCommandClean(items);
        var cmd := ParseCommand(items).value;
        ExecuteAllClean([cmd], s.world, clock, s.at);
        ExecuteAmongClean(s.conn.queue, s.world, clock, moves, s.at);
      }
    }
  }

  /** Whatever buffers a client sends, no key and no value ever comes to contain CRLF. */
  lemma {:induction false} TimelineClean(es: seq<Event>, s: Session, clock: Clock, moves: Moves)
    requires CleanWorld(s.world) && CleanCommands(s.conn.queue) && CleanMoves(moves)
    requires forall e | e in es :: CleanEvent(e)
    ensures CleanWorld(Timeline(es, s, clock, moves).world)
  {
    hide Advance, CleanWorld, CleanCommands, CleanEvent;
    if es != [] {
      assert es[0] in es;
      AdvanceClean(es[0], s, clock, moves);
      TimelineClean(es[1..], Advance(es[0], s, clock, moves), clock, moves);
    }
  }

  // ---------------------------------------------------------------- transactions

  /** The text is read as this command. */
  predicate Reads(text: string, cmd: Command) {
    var v := Parse(text);
    v.Ok? && v.value.Array? && ParseCommand(v.value.items) == Ok(cmd)
  }

  /** A buffer that neither ends the transaction nor the connection. */
  predicate Inside(e: Event) {
    e.Buffer? ==>
      var v := Parse(e.text);
      && v.Ok?
      && (v.value.Array? && ParseCommand(v.value.items).Ok? ==>
            var cmd := ParseCommand(v.value.items).value;
            !cmd.Exec? && !cmd.Discard? && (cmd.Psync? ==> cmd.id.Some?))
  }

  /** The command that an event queues inside a transaction, if any. */
  function Queued(e: Event): seq<Command> {
    if e.Others? then []
    else
      match Parse(e.text)
      case Ok(Array(items)) =>
        var cmd := ParseCommand(items);
        if cmd.Ok? && Queueable(cmd.value) then [cmd.value] else []
      case _ => []
  }

  /** What is written back for an event inside a transaction. */
  function Answers(e: Event): seq<string> {
    if e.Others? then []
    else
      match Parse(e.text)
      case Ok(Array(items)) =>
        var cmd := ParseCommand(items);
        if cmd.Ok? && cmd.value.Multi? then ["+OK\r\n"]
        else if cmd.Ok? && Queueable(cmd.value) then ["+QUEUED\r\n"]
        else []
      case _ => []
  }

  function AnswersAll(es: seq<Event>): seq<string> {
    if es == [] then [] else Answers(es[0]) + AnswersAll(es[1..])
  }

  function QueuedAll(es: seq<Event>): seq<Command> {
    if es == [] then [] else Queued(es[0]) + QueuedAll(es[1..])
  }

  /** The server's state when only the other connections act. */
  function WorldAfter(es: seq<Event>, w: World): World {
    if es == [] then w else WorldAfter(es[1..], if es[0].Others? then es[0].move(w) else w)
  }

  lemma ReplyTexts()
    ensures OK_REPLY == "+OK\r\n" && QUEUED_REPLY == "+QUEUED\r\n"
    ensures EXEC_REFUSED == "-ERR EXEC without MULTI" + "\r\n"
    ensures DISCARD_REFUSED == "-ERR DISCARD without MULTI" + "\r\n"
  {
  }

  lemma QueueStep(e: Event, s: Session, clock: Clock, moves: Moves)
    requires s.open && s.conn.isMulti && Inside(e)
    ensures var s' := Advance(e, s, clock, moves);
            && s'.open && s'.at == s.at
            && s'.conn == Conn(true, s.conn.queue + Queued(e))
            && s'.replies == s.replies + Answers(e)
            && s'.world == (if e.Others? then e.move(s.world) else s.world)
  {
    ReplyTexts();
    hide ParseCommand, ExecuteMulti, ExecuteAmong;
    assert s.conn.queue + [] == s.conn.queue && s.replies + [] == s.replies;
  }

  /** Inside a transaction commands are only queued: the server moves exactly as the others move it,
      and no clock reading is taken. */
  lemma {:induction false} QueueRun(es: seq<Event>, s: Session, clock: Clock, moves: Moves)
    requires s.open && s.conn.isMulti && forall e | e in es :: Inside(e)
    ensures var s' := Timeline(es, s, clock, moves);
            && s'.open && s'.at == s.at
            && s'.conn == Conn(true, s.conn.queue + QueuedAll(es))
            && s'.replies == s.replies + AnswersAll(es)
            && s'.world == WorldAfter(es, s.world)
  {
    hide Advance, Inside, Queued, Answers;
    if es == [] {
      assert s.conn.queue + [] == s.conn.queue && s.replies + [] == s.replies;
    } else {
      assert es[0] in es;
      QueueStep(es[0], s, clock, moves);
      QueueRun(es[1..], Advance(es[0], s, clock, moves), clock, moves);
      assert s.conn.queue + Queued(es[0]) + QueuedAll(es[1..]) == s.conn.queue + QueuedAll(es);
      assert s.replies + Answers(es[0]) + AnswersAll(es[1..]) == s.replies + AnswersAll(es);
    }
  }

  lemma {:induction false} TimelineAppend(a: seq<Event>, b: seq<Event>, s: Session, clock: Clock, moves: Moves)
    ensures Timeline(a + b, s, clock, moves) == Timeline(b, Timeline(a, s, clock, moves), clock, moves)
  {
    hide Advance;
    if a == [] {
      assert a + b == b;
    } else {
      assert (a + b)[1..] == a[1..] + b;
      TimelineAppend(a[1..], b, Advance(a[0], s, clock, moves), clock, moves);
    }
  }

  lemma TimelineOne(e: Event, s: Session, clock: Clock, moves: Moves)
    ensures Timeline([e], s, clock, moves) == Advance(e, s, clock, moves)
  {
    assert [e][1..] == [];
  }

  /** The state just before the transaction ends. */
  lemma TransactionBody(begin: string, es: seq<Event>, s: Session, clock: Clock, moves: Moves)
    requires s.open && s.conn == FRESH && Reads(begin, Multi) && forall e | e in es :: Inside(e)
    ensures Timeline([Buffer(begin)] + es, s, clock, moves)
         == Session(Conn(true, QueuedAll(es)), WorldAfter(es, s.world), s.at,
                    s.replies + ["+OK\r\n"] + AnswersAll(es), true)
  {
    ReplyTexts();
    TimelineAppend([Buffer(begin)], es, s, clock, moves);
    TimelineOne(Buffer(begin), s, clock, moves);
    hide ExecuteMulti, ExecuteAmong, ParseCommand, Inside, Queued, Answers;
    QueueRun(es, Advance(Buffer(begin), s, clock, moves), clock, moves);
    assert [] + QueuedAll(es) == QueuedAll(es);
  }

  /** MULTI, any buffers, EXEC, with the other connections acting between any two steps, also between two
      commands of the transaction: the effect on the server and the clock is that of running the queued
      commands in order among the others, starting when EXEC arrives. MULTI is answered with OK, what is
      queued with QUEUED, and EXEC with `*n` and the individual replies. */
  lemma TransactionRefines(begin: string, es: seq<Event>, end: string, s: Session, clock: Clock, moves: Moves)
    requires s.open && s.conn == FRESH && Reads(begin, Multi) && Reads(end, Exec)
    requires forall e | e in es :: Inside(e)
    ensures var queue := QueuedAll(es);
            var (w, replies) := ExecuteAmong(queue, WorldAfter(es, s.world), clock, moves, s.at);
            Timeline([Buffer(begin)] + es + [Buffer(end)], s, clock, moves)
              == Session(FRESH, w, s.at + |queue|,
                         s.replies + ["+OK\r\n"] + AnswersAll(es) + [ArrayHeader(|queue|) + Concat(replies)], true)
  {
    hide Timeline, ExecuteAmong, ParseCommand, Inside, QueuedAll, AnswersAll, WorldAfter;
    TransactionBody(begin, es, s, clock, moves);
    TimelineAppend([Buffer(begin)] + es, [Buffer(end)], s, clock, moves);
    TimelineOne(Buffer(end), Timeline([Buffer(begin)] + es, s, clock, moves), clock, moves);
  }

  /** DISCARD leaves no trace: the server is where the others left it and the connection is fresh. */
  lemma DiscardLeavesNoTrace(begin: string, es: seq<Event>, end: string, s: Session, clock: Clock, moves: Moves)
    requires s.open && s.conn == FRESH && Reads(begin, Multi) && Reads(end, Discard)
    requires forall e | e in es :: Inside(e)
    ensures Timeline([Buffer(begin)] + es + [Buffer(end)], s, clock, moves)
         == s.(world := WorldAfter(es, s.world), replies := s.replies + ["+OK\r\n"] + AnswersAll(es) + ["+OK\r\n"])
  {
    ReplyTexts();
    hide Timeline, ExecuteMulti, ExecuteAmong, ParseCommand, Inside, QueuedAll, AnswersAll, WorldAfter;
    TransactionBody(begin, es, s, clock, moves);
    TimelineAppend([Buffer(begin)] + es, [Buffer(end)], s, clock, moves);
    TimelineOne(Buffer(end), Timeline([Buffer(begin)] + es, s, clock, moves), clock, moves);
  }

  // ---------------------------------------------------------------- outside a transaction

  /** EXEC and DISCARD are refused, each with its own line. */
  lemma RefusedOutside(text: string, s: Session, clock: Clock, moves: Moves)
    requires s.open && !s.conn.isMulti
    ensures Reads(text, Exec) ==>
              Advance(Buffer(text), s, clock, moves) == s.(replies := s.replies + ["-ERR EXEC without MULTI" + "\r\n"])
    ensures Reads(text, Discard) ==>
              Advance(Buffer(text), s, clock, moves) == s.(replies := s.replies + ["-ERR DISCARD without MULTI" + "\r\n"])
  {
    ReplyTexts();
    hide ParseCommand, ExecuteMulti, ExecuteAmong;
  }

  predicate Refusable(e: Event) {
    e.Others? || Reads(e.text, Exec) || Reads(e.text, Discard)
  }

  /** The lines with which EXEC and DISCARD are refused. */
  function Refusals(es: seq<Event>): seq<string> {
    if es == [] then []
    else (if es[0].Others? then []
          else if Reads(es[0].text, Exec) then ["-ERR EXEC without MULTI" + "\r\n"]
          else ["-ERR DISCARD without MULTI" + "\r\n"]) + Refusals(es[1..])
  }

  /** However often EXEC and DISCARD come outside a transaction, they change neither the server nor the
      queue, take no clock reading, and each adds one line. */
  lemma {:induction false} RefusedRun(es: seq<Event>, s: Session, clock: Clock, moves: Moves)
    requires s.open && !s.conn.isMulti && forall e | e in es :: Refusable(e)
    ensures Timeline(es, s, clock, moves)
         == s.(world := WorldAfter(es, s.world), replies := s.replies + Refusals(es))
  {
    hide Advance, Reads;
    if es == [] {
      assert s.replies + [] == s.replies;
    } else {
      var e := es[0];
      assert e in es && Refusable(e);
      var one := Refusals([e]);
      assert [e][1..] == [] && Refusals([e][1..]) == [];
      var s1 := s.(world := WorldAfter([e], s.world), replies := s.replies + one);
      RefusedStep(e, s, clock, moves);
      RefusedRun(es[1..], s1, clock, moves);
      assert Refusals(es) == one + Refusals(es[1..]);
      assert s.replies + one + Refusals(es[1..]) == s.replies + Refusals(es);
    }
  }

  lemma RefusedStep(e: Event, s: Session, clock: Clock, moves: Moves)
    requires s.open && !s.conn.isMulti && Refusable(e)
    ensures Advance(e, s, clock, moves) == s.(world := WorldAfter([e], s.world), replies := s.replies + Refusals([e]))
  {
    assert [e][1..] == [];
    match e
    case Others(move) =>
      OthersStep(move, s, clock, moves);
      assert Refusals([e]) == [] + [] && s.replies + [] == s.replies;
    case Buffer(text) =>
      hide Advance, Reads;
      RefusedOutside(text, s, clock, moves);
      assert Refusals([e]) == (if Reads(text, Exec) then ["-ERR EXEC without MULTI" + "\r\n"]
                               else ["-ERR DISCARD without MULTI" + "\r\n"]) + [];
  }

  // ---------------------------------------------------------------- what ends a connection, and what does nothing

  /** A text that does not parse ends the connection, as does a replica's first PSYNC; a text that is no
      command does nothing, as does a PSYNC that names its master. */
  lemma BufferOutcomes(text: string, s: Session, clock: Clock, moves: Moves)
    requires s.open
    ensures !Parse(text).Ok? ==> Advance(Buffer(text), s, clock, moves) == s.(open := false)
    ensures Parse(text).Ok? && !Parse(text).value.Array? ==> Advance(Buffer(text), s, clock, moves) == s
    ensures Parse(text).Ok? && Parse(text).value.Array? && !ParseCommand(Parse(text).value.items).Ok? ==>
              Advance(Buffer(text), s, clock, moves) == s
    ensures forall id: Option<string>, offset: Option<u64> | Reads(text, Psync(id, offset)) ::
              Advance(Buffer(text), s, clock, moves) == if id.Some? then s else s.(open := false)
  {
    hide ParseCommand, ExecuteMulti, ExecuteAmong, RespSpec.Parse;
  }

  /** After its end a connection answers nothing and touches nothing. */
  lemma {:induction false} ClosedStays(es: seq<Event>, s: Session, clock: Clock, moves: Moves)
    requires !s.open
    ensures Timeline(es, s, clock, moves) == s
  {
    if es != [] {
      ClosedStays(es[1..], s, clock, moves);
    }
  }

  // ---------------------------------------------------------------- the direct run

  /** Buffers of a client outside a transaction, with the others' moves between them. */
  function Spaced(texts: seq<string>, moves: Moves, at: nat): seq<Event> {
    if texts == [] then [] else [Others(moves(at)), Buffer(texts[0])] + Spaced(texts[1..], moves, at + 1)
  }

  /** Outside a transaction, buffers that read as queueable commands run one by one among the others,
      each with its own reply. */
  lemma {:induction false} DirectRun(texts: seq<string>, cmds: seq<Command>, s: Session, clock: Clock, moves: Moves)
    requires s.open && !s.conn.isMulti && |texts| == |cmds|
    requires forall i | 0 <= i < |texts| :: Queueable(cmds[i]) && Reads(texts[i], cmds[i])
    ensures var (w, replies) := ExecuteAmong(cmds, s.world, clock, moves, s.at);
            Timeline(Spaced(texts, moves, s.at), s, clock, moves)
              == s.(world := w, at := s.at + |cmds|, replies := s.replies + replies)
  {
    hide Advance, Reads, Execute, Queueable;
    if texts == [] {
      assert s.replies + [] == s.replies;
    } else {
      var s0 := s.(world := moves(s.at)(s.world));
      var (w1, r1) := Execute(cmds[0], s0.world, clock(s.at));
      var s1 := s.(world := w1, at := s.at + 1, replies := s.replies + [r1]);
      DirectStep(texts[0], cmds[0], s0, clock, moves);
      OthersStep(moves(s.at), s, clock, moves);
      SpacedNext(texts, s, s0, s1, clock, moves);
      DirectRun(texts[1..], cmds[1..], s1, clock, moves);
      var (w2, more) := ExecuteAmong(cmds[1..], w1, clock, moves, s.at + 1);
      assert ExecuteAmong(cmds, s.world, clock, moves, s.at) == (w2, [r1] + more);
      hide Timeline, ExecuteAmong;
      assert (s.replies + [r1]) + more == s.replies + ([r1] + more);
    }
  }

  lemma OthersStep(move: World -> World, s: Session, clock: Clock, moves: Moves)
    requires s.open
    ensures Advance(Others(move), s, clock, moves) == s.(world := move(s.world))
  {
  }

  lemma SpacedNext(texts: seq<string>, s: Session, s0: Session, s1: Session, clock: Clock, moves: Moves)
    requires texts != []
    requires Advance(Others(moves(s.at)), s, clock, moves) == s0
    requires Advance(Buffer(texts[0]), s0, clock, moves) == s1
    ensures Timeline(Spaced(texts, moves, s.at), s, clock, moves)
         == Timeline(Spaced(texts[1..], moves, s.at + 1), s1, clock, moves)
  {
    hide Advance;
    var first, more := [Others(moves(s.at)), Buffer(texts[0])], Spaced(texts[1..], moves, s.at + 1);
    TimelineAppend(first, more, s, clock, moves);
    assert first[1..] == [Buffer(texts[0])];
    TimelineOne(Buffer(texts[0]), s0, clock, moves);
  }

  lemma DirectStep(text: string, cmd: Command, s: Session, clock: Clock, moves: Moves)
    requires s.open && !s.conn.isMulti && Queueable(cmd) && Reads(text, cmd)
    ensures var (w, reply) := Execute(cmd, s.world, clock(s.at));
            Advance(Buffer(text), s, clock, moves) == s.(world := w, at := s.at + 1, replies := s.replies + [reply])
  {
    hide Execute, ParseCommand, ExecuteAmong;
    var (w, reply) := Execute(cmd, s.world, clock(s.at));
    assert [cmd][1..] == [];
    assert ExecuteAll([cmd], s.world, clock, s.at) == (w, [reply] + []);
    ConcatCons(reply, []);
    assert "" + (reply + "") == reply;
  }

  lemma {:induction false} QueuedQueueable(es: seq<Event>)
    ensures forall cmd | cmd in QueuedAll(es) :: Queueable(cmd)
  {
    hide ParseCommand, RespSpec.Parse;
    if es != [] {
      QueuedQueueable(es[1..]);
    }
  }

  /** A transaction does what its commands do when the client sends them one by one outside any
      transaction under the same moves of the others; its reply is `*n` and the same replies. */
  lemma ExecIsDirectRun(begin: string, es: seq<Event>, end: string, texts: seq<string>, s: Session, clock: Clock,
                        moves: Moves)
    requires s.open && s.conn == FRESH && Reads(begin, Multi) && Reads(end, Exec)
    requires forall e | e in es :: Inside(e)
    requires |texts| == |QueuedAll(es)| && forall i | 0 <= i < |texts| :: Reads(texts[i], QueuedAll(es)[i])
    ensures var after := Timeline([Buffer(begin)] + es + [Buffer(end)], s, clock, moves);
            var direct := Timeline(Spaced(texts, moves, s.at), s.(world := WorldAfter(es, s.world)), clock, moves);
            && after.world == direct.world && after.at == direct.at
            && |direct.replies| >= |s.replies| && after.replies != []
            && after.replies[|after.replies| - 1] == ArrayHeader(|texts|) + Concat(direct.replies[|s.replies|..])
  {
    hide Timeline, ExecuteAmong, Reads, Inside, QueuedAll, AnswersAll, WorldAfter, Queueable;
    var start := s.(world := WorldAfter(es, s.world));
    TransactionRefines(begin, es, end, s, clock, moves);
    QueuedQueueable(es);
    DirectRun(texts, QueuedAll(es), start, clock, moves);
    var replies := ExecuteAmong(QueuedAll(es), start.world, clock, moves, s.at).1;
    assert (s.replies + replies)[|s.replies|..] == replies;
  }

  // ---------------------------------------------------------------- when the others are quiet

  function Buffers(texts: seq<string>): seq<Event> {
    if texts == [] then [] else [Buffer(texts[0])] + Buffers(texts[1..])
  }

  /** When nobody else acts, the executor runs the commands as `execute_multi_commands` alone does. */
  lemma {:induction false} QuietExecute(cmds: seq<Command>, w: World, clock: Clock, at: nat)
    ensures ExecuteAmong(cmds, w, clock, QUIET, at) == ExecuteAll(cmds, w, clock, at)
  {
    hide Execute;
    if cmds != [] {
      QuietExecute(cmds[1..], Execute(cmds[0], w, clock(at)).0, clock, at + 1);
    }
  }
}
