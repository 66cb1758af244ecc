/** One terminal session: two forwarding goroutines, a done channel closed through a sync.Once,
    and the shutdown in ServeHTTP, as interleaved atomic steps. */
module Terminal {
  import opened Results

  newtype Byte = x: int | 0 <= x < 256
  type Bytes = seq<Byte>

  const READ_BUFFER := 4096

  // A WebSocket frame as ReadMessage returns it; a text frame with its JSON, None if malformed.
  datatype Message = Message(kind: string, cols: int, rows: int, data: Bytes)
  datatype Frame = Binary(data: Bytes) | Text(message: Option<Message>) | Other

  // What a frame asks to be written to the PTY, if anything.
  function Payload(f: Frame): Option<Bytes> {
    match f
    case Binary(data) => Some(data)
    case Text(message) =>
      if message.Some? && message.value.kind == "input" && message.value.data != [] then Some(message.value.data) else None
    case Other => None
  }

  // One write to the PTY, whose result the source ignores: only `count` bytes went out.
  datatype WriteCall = Write(payload: Bytes, count: nat)
  type PtyWrites = seq<WriteDone>
  type WriteDone = w: WriteCall | w.count <= |w.payload| witness Write([], 0)

  // The goroutines: at a read, at a write, past the loop, past signalDone, past wg.Done.
  datatype Up = UpReading | UpSending(chunk: Bytes, failed: bool) | UpLeaving | UpSignalled | UpFinished
  datatype Down = DownReading | DownWriting(payload: Bytes) | DownLeaving | DownSignalled | DownFinished

  datatype Main = Waiting | Interrupting | ClosingMaster | ClosingConn | Joining | Reaping | Returned

  datatype State = State(
    main: Main, up: Up, down: Down,
    onceUsed: bool, closes: nat,            // sync.Once, and how often `done` was closed
    masterClosed: bool, connClosed: bool,
    ptyRead: Bytes, wsSent: Bytes,          // bytes read from the PTY, bytes sent to the client
    arrived: seq<Frame>,                    // frames that came in: those read, and those not yet
    received: seq<Frame>, inbox: seq<Frame>,
    writes: PtyWrites)                     // writes to the PTY so far

  const INITIAL := State(Waiting, UpReading, DownReading, false, 0, false, false, [], [], [], [], [], [])

  datatype Step =
    // PTY -> WebSocket
    | PtyRead(chunk: Bytes, failed: bool)
    | Send(ok: bool, delivered: nat)
    | UpSignal | UpDone
    // WebSocket -> PTY
    | Arrive(frame: Frame)
    | Receive | ReceiveFails
    | PtyWrite(count: nat)
    | DownSignal | DownDone
    // ServeHTTP
    | MainWakes | MainInterrupts | MainClosesMaster | MainClosesConn | MainJoins | MainReaps

  // When a step can happen. The environment assumption is here: after Close, reads and writes on
  // that end fail and no new frame comes in (frames already buffered may still be read). Waiting
  // for the process to end (MainReaps) is taken to return.
  ghost predicate Enabled(s: State, a: Step) {
    match a
    case PtyRead(chunk, failed) =>
      s.up.UpReading? && |chunk| <= READ_BUFFER && (s.masterClosed ==> chunk == [] && failed)
    case Send(ok, delivered) =>
      s.up.UpSending? && delivered <= |s.up.chunk| && (s.connClosed ==> !ok) && (ok ==> delivered == |s.up.chunk|)
    case UpSignal => s.up.UpLeaving?
    case UpDone => s.up.UpSignalled?
    case Arrive(_) => !s.connClosed
    case Receive => s.down.DownReading? && s.inbox != []
    case ReceiveFails => s.down.DownReading?
    case PtyWrite(count) => s.down.DownWriting? && count <= |s.down.payload| && (s.masterClosed ==> count == 0)
    case DownSignal => s.down.DownLeaving?
    case DownDone => s.down.DownSignalled?
    case MainWakes => s.main.Waiting? && s.closes > 0
    case MainInterrupts => s.main.Interrupting?
    case MainClosesMaster => s.main.ClosingMaster?
    case MainClosesConn => s.main.ClosingConn?
    case MainJoins => s.main.Joining? && s.up.UpFinished? && s.down.DownFinished?
    case MainReaps => s.main.Reaping?
  }

  // signalDone: the channel is closed by the first caller only.
  function SignalDone(s: State): State {
    if s.onceUsed then s else s.(onceUsed := true, closes := s.closes + 1)
  }

  ghost function Do(s: State, a: Step): State
    requires Enabled(s, a)
  {
    match a
    case PtyRead(chunk, failed) =>
      s.(ptyRead := s.ptyRead + chunk,
         up := if chunk != [] then UpSending(chunk, failed) else if failed then UpLeaving else UpReading)
    case Send(ok, delivered) =>
      s.(wsSent := s.wsSent + s.up.chunk[..delivered], up := if ok && !s.up.failed then UpReading else UpLeaving)
    case UpSignal => SignalDone(s).(up := UpSignalled)
    case UpDone => s.(up := UpFinished)
    case Arrive(frame) => s.(arrived := s.arrived + [frame], inbox := s.inbox + [frame])
    case Receive =>
      var payload := Payload(s.inbox[0]);
      s.(received := s.received + [s.inbox[0]], inbox := s.inbox[1..],
         down := if payload.Some? then DownWriting(payload.value) else DownReading)
    case ReceiveFails => s.(down := DownLeaving)
    case PtyWrite(count) => s.(writes := s.writes + [Write(s.down.payload, count)], down := DownReading)
    case DownSignal => SignalDone(s).(down := DownSignalled)
    case DownDone => s.(down := DownFinished)
    case MainWakes => s.(main := Interrupting)
    case MainInterrupts => s.(main := ClosingMaster)
    case MainClosesMaster => s.(masterClosed := true, main := ClosingConn)
    case MainClosesConn => s.(connClosed := true, main := Joining)
    case MainJoins => s.(main := Reaping)
    case MainReaps => s.(masterClosed := true, connClosed := true, main := Returned)  // the deferred closes
  }

  ghost predicate Runs(s: State, run: seq<Step>)
    decreases run
  {
    run == [] || (Enabled(s, run[0]) && Runs(Do(s, run[0]), run[1..]))
  }

  ghost function RunAll(s: State, run: seq<Step>): State
    requires Runs(s, run)
    decreases run
  {
    if run == [] then s else RunAll(Do(s, run[0]), run[1..])
  }

  // ------------------------------------------------------------------ what every state satisfies

  // What the writes offered to the PTY, and what of it went out.
  function Offered(ws: PtyWrites): Bytes {
    if ws == [] then [] else Offered(ws[..|ws| - 1]) + ws[|ws| - 1].payload
  }

  function Out(w: WriteDone): Bytes { w.payload[..w.count] }

  function Sent(ws: PtyWrites): Bytes {
    if ws == [] then [] else Sent(ws[..|ws| - 1]) + Out(ws[|ws| - 1])
  }

  // What a frame is meant to type: a binary frame its data, an "input" message its text; a resize,
  // any other message, a malformed one and any other frame nothing.
  function Input(f: Frame): Bytes {
    match f
    case Binary(data) => data
    case Text(Some(Message(kind, _, _, data))) => if kind == "input" then data else []
    case Text(None) => []
    case Other => []
  }

  // The client's input stream: what its frames type, in order.
  function Inputs(fs: seq<Frame>): Bytes {
    if fs == [] then [] else Inputs(fs[..|fs| - 1]) + Input(fs[|fs| - 1])
  }

  // A goroutine past signalDone has closed the channel.
  ghost predicate Shutdown(s: State) {
    && s.closes == (if s.onceUsed then 1 else 0)
    && (s.onceUsed <==> s.up.UpSignalled? || s.up.UpFinished? || s.down.DownSignalled? || s.down.DownFinished?)
    && (!s.main.Waiting? ==> s.closes == 1)
    && (s.masterClosed <==> !s.main.Waiting? && !s.main.Interrupting? && !s.main.ClosingMaster?)
    && (s.connClosed <==> s.main.Joining? || s.main.Reaping? || s.main.Returned?)
    && (s.main.Reaping? || s.main.Returned? ==> s.up.UpFinished? && s.down.DownFinished?)
  }

  // Bytes up: what is sent is what was read, less the chunk in hand, until the sender gives up.
  ghost predicate UpStream(s: State) {
    match s.up
    case UpReading => s.wsSent == s.ptyRead
    case UpSending(chunk, _) => chunk != [] && s.ptyRead == s.wsSent + chunk
    case _ => s.wsSent <= s.ptyRead
  }

  // Bytes down: the writes offered, the payload in hand and the frames unread are the input.
  function InHand(d: Down): Bytes {
    if d.DownWriting? then d.payload else []
  }

  ghost predicate DownStream(s: State) {
    && s.arrived == s.received + s.inbox
    && Inputs(s.received) == Offered(s.writes) + InHand(s.down)
  }

  ghost predicate Inv(s: State) {
    Shutdown(s) && UpStream(s) && DownStream(s)
  }

  lemma ShutdownKept(s: State, a: Step)
    requires Shutdown(s) && Enabled(s, a)
    ensures Shutdown(Do(s, a))
  {}

  lemma UpStreamKept(s: State, a: Step)
    requires UpStream(s) && Enabled(s, a)
    ensures UpStream(Do(s, a))
  {
    if a.Send? {
      assert s.up.chunk[..|s.up.chunk|] == s.up.chunk;
    }
  }

  lemma ReceiveKeeps(s: State)
    requires DownStream(s) && Enabled(s, Receive)
    ensures DownStream(Do(s, Receive))
  {
    HandOver(s.received, s.inbox);
    InputsNext(s.received, s.inbox[0]);
    Taken(s);
  }

  lemma HandOver(received: seq<Frame>, inbox: seq<Frame>)
    requires inbox != []
    ensures received + inbox == received + [inbox[0]] + inbox[1..]
  {}

  lemma Taken(s: State)
    requires Enabled(s, Receive)
    ensures InHand(s.down) == [] && InHand(Do(s, Receive).down) == Input(s.inbox[0])
  {}

  lemma InputsNext(fs: seq<Frame>, f: Frame)
    ensures Inputs(fs + [f]) == Inputs(fs) + Input(f)
  {
    assert (fs + [f])[..|fs|] == fs;
  }

  lemma PtyWriteKeeps(s: State, count: nat)
    requires DownStream(s) && Enabled(s, PtyWrite(count))
    ensures DownStream(Do(s, PtyWrite(count)))
  {
    var ws := s.writes + [Write(s.down.payload, count)];
    assert ws[..|ws| - 1] == s.writes;
  }

  lemma DownStreamKept(s: State, a: Step)
    requires DownStream(s) && Enabled(s, a)
    ensures DownStream(Do(s, a))
  {
    match a {
      case Receive => ReceiveKeeps(s);
      case PtyWrite(count) => PtyWriteKeeps(s, count);
      case _ => OthersKeep(s, a);
    }
  }

  lemma OthersKeep(s: State, a: Step)
    requires DownStream(s) && Enabled(s, a) && !a.Receive? && !a.PtyWrite?
    ensures DownStream(Do(s, a))
  {
    var s' := Do(s, a);
    assert s'.received == s.received && s'.writes == s.writes && InHand(s'.down) == InHand(s.down);
    if a.Arrive? { assert s.received + s.inbox + [a.frame] == s.received + (s.inbox + [a.frame]); }
  }

  lemma {:induction false} InvHolds(s: State, run: seq<Step>)
    requires Inv(s) && Runs(s, run)
    ensures Inv(RunAll(s, run))
    decreases run
  {
    if run != [] {
      ShutdownKept(s, run[0]);
      UpStreamKept(s, run[0]);
      DownStreamKept(s, run[0]);
      InvHolds(Do(s, run[0]), run[1..]);
    }
  }

  lemma InitialInv()
    ensures Inv(INITIAL)
  {}

  // ------------------------------------------------------------------ the goroutines keep going

  // Past its loop: on the way to closing `done`, or finished.
  predicate UpPast(u: Up) { u.UpLeaving? || u.UpSignalled? || u.UpFinished? }

  predicate DownPast(d: Down) { d.DownLeaving? || d.DownSignalled? || d.DownFinished? }

  // A failed read of the PTY or a failed send; a failed read of the WebSocket.
  predicate UpFails(a: Step) { (a.PtyRead? && a.failed) || (a.Send? && !a.ok) }

  predicate DownFails(a: Step) { a.ReceiveFails? }

  // Past its loop, or sending the last bytes of a read that failed.
  predicate UpEnding(u: Up) { UpPast(u) || (u.UpSending? && u.failed) }

  lemma OnlyFailuresEnd(s: State, a: Step)
    requires Enabled(s, a)
    ensures UpEnding(Do(s, a).up) <==> UpEnding(s.up) || UpFails(a)
    ensures DownPast(Do(s, a).down) <==> DownPast(s.down) || DownFails(a)
  {}

  lemma {:induction false} LoopsEndOnFailure(s: State, run: seq<Step>)
    requires Runs(s, run)
    ensures UpEnding(RunAll(s, run).up) <==> UpEnding(s.up) || exists a <- run :: UpFails(a)
    ensures DownPast(RunAll(s, run).down) <==> DownPast(s.down) || exists a <- run :: DownFails(a)
    decreases run
  {
    if run != [] {
      OnlyFailuresEnd(s, run[0]);
      LoopsEndOnFailure(Do(s, run[0]), run[1..]);
      assert run == [run[0]] + run[1..];
    }
  }

  // In every session a goroutine leaves its loop exactly after a failure of its own: the reader of
  // the WebSocket after a failed read, the reader of the PTY after a failed read, whose bytes it
  // still sends, or a failed send. So `done` is never closed without one, whatever frames come in.
  lemma SessionEndsOnFailureOnly(run: seq<Step>)
    requires Runs(INITIAL, run)
    ensures var s := RunAll(INITIAL, run);
      && (UpEnding(s.up) <==> exists a <- run :: UpFails(a))
      && (DownPast(s.down) <==> exists a <- run :: DownFails(a))
      && (s.closes > 0 ==> exists a <- run :: UpFails(a) || DownFails(a))
  {
    LoopsEndOnFailure(INITIAL, run);
    InitialInv();
    InvHolds(INITIAL, run);
  }

  // A goroutine past its loop closes `done` by its own next step, whatever else is going on.
  lemma FailureClosesDone(s: State)
    requires Shutdown(s)
    ensures s.down.DownLeaving? ==> Enabled(s, DownSignal) && Do(s, DownSignal).closes == 1
    ensures s.up.UpLeaving? ==> Enabled(s, UpSignal) && Do(s, UpSignal).closes == 1
    ensures s.down.DownSignalled? || s.down.DownFinished? || s.up.UpSignalled? || s.up.UpFinished? ==> s.closes == 1
  {}

  // Bytes read from the PTY and not yet sent.
  function UpInHand(u: Up): Bytes {
    if u.UpSending? then u.chunk else []
  }

  // While no send fails nothing read from the PTY is lost, the last bytes before a failed read
  // included; and nothing is read or sent in chunks larger than the buffer.
  ghost predicate NothingLost(s: State) {
    s.ptyRead == s.wsSent + UpInHand(s.up) && |UpInHand(s.up)| <= 4096
  }

  lemma {:induction false} NothingReadIsLost(s: State, run: seq<Step>)
    requires NothingLost(s) && Runs(s, run)
    requires forall a <- run :: !(a.Send? && !a.ok)
    ensures NothingLost(RunAll(s, run))
    decreases run
  {
    if run != [] {
      assert run[0] in run;
      if run[0].Send? { assert s.up.chunk[..|s.up.chunk|] == s.up.chunk; }
      assert NothingLost(Do(s, run[0]));
      NothingReadIsLost(Do(s, run[0]), run[1..]);
    }
  }

  // ------------------------------------------------------------------ forwarding

  // In every interleaving, what the client is sent is a prefix of what the PTY produced.
  lemma ClientSeesPrefix(run: seq<Step>)
    requires Runs(INITIAL, run)
    ensures RunAll(INITIAL, run).wsSent <= RunAll(INITIAL, run).ptyRead
  {
    InitialInv();
    InvHolds(INITIAL, run);
  }

  // No write after a short one puts anything out.
  ghost predicate Sticky(ws: PtyWrites) {
    forall i, j :: 0 <= i < j < |ws| && ws[i].count < |ws[i].payload| ==> ws[j].count == 0
  }

  ghost predicate Complete(ws: PtyWrites) {
    forall w <- ws :: w.count == |w.payload|
  }

  lemma {:induction false} CompleteSendsAll(ws: PtyWrites)
    requires Complete(ws)
    ensures Sent(ws) == Offered(ws)
  {
    if ws != [] {
      CompleteSendsAll(ws[..|ws| - 1]);
      var w := ws[|ws| - 1];
      assert w in ws && w.payload[..w.count] == w.payload;
    }
  }

  lemma {:induction false} StickySendsPrefix(ws: PtyWrites)
    requires Sticky(ws)
    ensures Sent(ws) <= Offered(ws)
  {
    if ws != [] {
      var init, w := ws[..|ws| - 1], ws[|ws| - 1];
      StickySendsPrefix(init);
      if Complete(init) {
        CompleteSendsAll(init);
      } else {
        var u :| u in init && u.count != |u.payload|;
        var i :| 0 <= i < |init| && init[i] == u;
        assert ws[i] == u && u in ws && w in ws;
        assert ws[|ws| - 1].count == 0;
        assert w.payload[..w.count] == [];
      }
    }
  }

  lemma {:induction false} InputsSplit(fs: seq<Frame>, n: nat)
    requires n <= |fs|
    ensures Inputs(fs[..n]) <= Inputs(fs)
  {
    if n < |fs| {
      assert fs[..|fs| - 1][..n] == fs[..n];
      InputsSplit(fs[..|fs| - 1], n);
    } else {
      assert fs[..n] == fs;
    }
  }

  // In every interleaving the PTY is offered exactly the input read so far, less the payload in
  // hand; when no write after a short one puts anything out, what it got is a prefix of the
  // client's input in arrival order. Resizes and malformed messages contribute nothing.
  lemma ShellSeesPrefix(run: seq<Step>)
    requires Runs(INITIAL, run)
    ensures var s := RunAll(INITIAL, run);
      && Offered(s.writes) <= Inputs(s.arrived)
      && (Sticky(s.writes) ==> Sent(s.writes) <= Inputs(s.arrived))
  {
    InitialInv();
    InvHolds(INITIAL, run);
    var s := RunAll(INITIAL, run);
    InputsSplit(s.arrived, |s.received|);
    assert s.arrived[..|s.received|] == s.received;
    if Sticky(s.writes) { StickySendsPrefix(s.writes); }
  }

  // While the PTY is open its writes go out whole.
  ghost predicate OpenWritesWhole(s: State, run: seq<Step>)
    requires Runs(s, run)
    decreases run
  {
    run == [] ||
    ((run[0].PtyWrite? && !s.masterClosed ==> run[0].count == |s.down.payload|)
     && OpenWritesWhole(Do(s, run[0]), run[1..]))
  }

  // Closing the PTY in the middle of a session never reorders or skips: if the writes of an open
  // PTY go out whole, the shell gets a prefix of the input.
  lemma {:induction false} ClosingKeepsSticky(s: State, run: seq<Step>)
    requires Runs(s, run) && OpenWritesWhole(s, run)
    requires Sticky(s.writes) && (!s.masterClosed ==> Complete(s.writes))
    ensures Sticky(RunAll(s, run).writes)
    decreases run
  {
    if run != [] {
      var a, s' := run[0], Do(s, run[0]);
      if a.PtyWrite? {
        forall i, j | 0 <= i < j < |s'.writes| && s'.writes[i].count < |s'.writes[i].payload|
          ensures s'.writes[j].count == 0
        {
          assert s.writes[i] in s.writes;
        }
      }
      ClosingKeepsSticky(s', run[1..]);
    }
  }

  lemma HealthyPtySeesPrefix(run: seq<Step>)
    requires Runs(INITIAL, run) && OpenWritesWhole(INITIAL, run)
    ensures var s := RunAll(INITIAL, run);
      Sent(s.writes) <= Inputs(s.arrived)
  {
    ClosingKeepsSticky(INITIAL, run);
    ShellSeesPrefix(run);
  }

  // ------------------------------------------------------------------ exactly when it is a prefix

  // The same lengths and counts, other bytes.
  ghost predicate SameShape(ws: PtyWrites, vs: PtyWrites) {
    |vs| == |ws| && forall i :: 0 <= i < |ws| ==> |vs[i].payload| == |ws[i].payload| && vs[i].count == ws[i].count
  }

  ghost predicate Constant(bytes: Bytes, b: Byte) {
    forall i :: 0 <= i < |bytes| ==> bytes[i] == b
  }

  function Fill(ws: PtyWrites, b: Byte): (vs: PtyWrites)
    ensures SameShape(ws, vs)
  {
    seq(|ws|, i requires 0 <= i < |ws| => Write(seq(|ws[i].payload|, _ => b), ws[i].count))
  }

  lemma {:induction false} FillConstant(ws: PtyWrites, b: Byte)
    ensures Constant(Sent(Fill(ws, b)), b) && |Sent(Fill(ws, b))| == |Sent(ws)|
    ensures Constant(Offered(Fill(ws, b)), b) && |Offered(Fill(ws, b))| == |Offered(ws)|
  {
    if ws != [] {
      FillConstant(ws[..|ws| - 1], b);
      assert Fill(ws, b)[..|ws| - 1] == Fill(ws[..|ws| - 1], b);
    }
  }

  lemma {:induction false} SentConcat(a: PtyWrites, b: PtyWrites)
    ensures Sent(a + b) == Sent(a) + Sent(b)
    decreases b
  {
    if b == [] {
      assert a + b == a;
    } else {
      assert (a + b)[..|a + b| - 1] == a + b[..|b| - 1];
      SentConcat(a, b[..|b| - 1]);
    }
  }

  lemma {:induction false} OfferedConcat(a: PtyWrites, b: PtyWrites)
    ensures Offered(a + b) == Offered(a) + Offered(b)
    decreases b
  {
    if b == [] {
      assert a + b == a;
    } else {
      assert (a + b)[..|a + b| - 1] == a + b[..|b| - 1];
      OfferedConcat(a, b[..|b| - 1]);
    }
  }

  lemma {:induction false} ShortSendsLess(ws: PtyWrites, i: nat)
    ensures |Sent(ws)| <= |Offered(ws)|
    ensures i < |ws| && ws[i].count < |ws[i].payload| ==> |Sent(ws)| < |Offered(ws)|
    ensures i < |ws| && ws[i].count > 0 ==> |Sent(ws)| > 0
  {
    if ws != [] { ShortSendsLess(ws[..|ws| - 1], i); }
  }

  // Zeros up to and including write i, ones after it.
  function Marked(ws: PtyWrites, i: nat): PtyWrites
    requires i < |ws|
  {
    Fill(ws[..i + 1], 0) + Fill(ws[i + 1..], 1)
  }

  lemma MarkedShape(ws: PtyWrites, i: nat)
    requires i < |ws|
    ensures SameShape(ws, Marked(ws, i))
  {
    ShapesJoin(ws[..i + 1], ws[i + 1..], Fill(ws[..i + 1], 0), Fill(ws[i + 1..], 1));
    assert ws[..i + 1] + ws[i + 1..] == ws;
  }

  // What went out shows a one where what was offered still has zeros.
  lemma LateBytesShow(ws: PtyWrites, i: nat, j: nat)
    requires i < j < |ws| && ws[i].count < |ws[i].payload| && ws[j].count > 0
    ensures !(Sent(Marked(ws, i)) <= Offered(Marked(ws, i)))
  {
    var a, b := ws[..i + 1], ws[i + 1..];
    FillConstant(a, 0);
    FillConstant(b, 1);
    SentConcat(Fill(a, 0), Fill(b, 1));
    OfferedConcat(Fill(a, 0), Fill(b, 1));
    ShortSendsLess(a, i);
    ShortSendsLess(b, j - i - 1);
    NotPrefix(Sent(Fill(a, 0)), Sent(Fill(b, 1)), Offered(Fill(a, 0)), Offered(Fill(b, 1)));
  }

  lemma ShapesJoin(a: PtyWrites, b: PtyWrites, va: PtyWrites, vb: PtyWrites)
    requires SameShape(a, va) && SameShape(b, vb)
    ensures SameShape(a + b, va + vb)
  {}

  lemma NotPrefix(a: Bytes, b: Bytes, c: Bytes, d: Bytes)
    requires |a| < |c| && Constant(c, 0) && b != [] && Constant(b, 1)
    ensures !(a + b <= c + d)
  {
    assert (a + b)[|a|] == 1 && (c + d)[|a|] == 0;
  }

  // For lists of writes: what went out is a prefix of what was offered, whatever the bytes, if and
  // only if nothing follows a short write.
  lemma PrefixIffSticky(ws: PtyWrites)
    ensures Sticky(ws) <==> forall vs :: SameShape(ws, vs) ==> Sent(vs) <= Offered(vs)
  {
    if Sticky(ws) {
      forall vs | SameShape(ws, vs) ensures Sent(vs) <= Offered(vs) {
        StickySendsPrefix(vs);
      }
    } else {
      var i, j :| 0 <= i < j < |ws| && ws[i].count < |ws[i].payload| && ws[j].count != 0;
      MarkedShape(ws, i);
      LateBytesShow(ws, i, j);
    }
  }

  // A session that makes these writes: each payload comes in as a binary frame, is read and written.
  function Typing(ws: PtyWrites): seq<Step>
    decreases ws
  {
    if ws == [] then []
    else [Arrive(Binary(ws[0].payload)), Receive, PtyWrite(ws[0].count)] + Typing(ws[1..])
  }

  // Both ends open, the reader waiting, nothing buffered.
  ghost predicate Idle(s: State) {
    s.down.DownReading? && s.inbox == [] && !s.masterClosed && !s.connClosed && s.arrived == s.received
  }

  // One frame in, read, and written with the given count.
  function Typed(s: State, w: WriteDone): State {
    s.(arrived := s.arrived + [Binary(w.payload)], received := s.received + [Binary(w.payload)], writes := s.writes + [w])
  }

  lemma OneStep(s: State, a: Step, rest: seq<Step>)
    requires Enabled(s, a) && Runs(Do(s, a), rest)
    ensures Runs(s, [a] + rest) && RunAll(s, [a] + rest) == RunAll(Do(s, a), rest)
  {
    assert ([a] + rest)[1..] == rest;
  }

  lemma TypeOne(s: State, w: WriteDone, rest: seq<Step>)
    requires Idle(s) && Runs(Typed(s, w), rest)
    ensures var run := [Arrive(Binary(w.payload)), Receive, PtyWrite(w.count)] + rest;
      Runs(s, run) && RunAll(s, run) == RunAll(Typed(s, w), rest)
  {
    var f := Binary(w.payload);
    var s1 := s.(arrived := s.arrived + [f], inbox := [f]);
    var s2 := s1.(received := s.received + [f], inbox := [], down := DownWriting(w.payload));
    assert Do(s, Arrive(f)) == s1 && Do(s1, Receive) == s2 && Do(s2, PtyWrite(w.count)) == Typed(s, w);
    OneStep(s2, PtyWrite(w.count), rest);
    OneStep(s1, Receive, [PtyWrite(w.count)] + rest);
    OneStep(s, Arrive(f), [Receive] + ([PtyWrite(w.count)] + rest));
    assert [Arrive(f)] + ([Receive] + ([PtyWrite(w.count)] + rest)) == [Arrive(f), Receive, PtyWrite(w.count)] + rest;
  }

  lemma TypedKeeps(s: State, w: WriteDone)
    requires Idle(s) && Inputs(s.arrived) == Offered(s.writes)
    ensures Idle(Typed(s, w)) && Inputs(Typed(s, w).arrived) == Offered(Typed(s, w).writes)
  {
    InputsNext(s.arrived, Binary(w.payload));
    assert (s.writes + [w])[..|s.writes|] == s.writes;
  }

  // The run makes exactly these writes, and they offer all the input that came in.
  ghost predicate Makes(s: State, run: seq<Step>, ws: PtyWrites) {
    Runs(s, run) && RunAll(s, run).writes == s.writes + ws
    && Inputs(RunAll(s, run).arrived) == Offered(RunAll(s, run).writes)
  }

  lemma MakesOneMore(s: State, w: WriteDone, ws: PtyWrites, rest: seq<Step>)
    requires Idle(s) && Makes(Typed(s, w), rest, ws)
    ensures Makes(s, [Arrive(Binary(w.payload)), Receive, PtyWrite(w.count)] + rest, [w] + ws)
  {
    TypeOne(s, w, rest);
    assert s.writes + [w] + ws == s.writes + ([w] + ws);
  }

  // Every list of writes is made by some run of the session.
  lemma {:induction false} TypingMakes(s: State, ws: PtyWrites)
    requires Idle(s) && Inputs(s.arrived) == Offered(s.writes)
    ensures Makes(s, Typing(ws), ws)
    decreases ws
  {
    if ws == [] {
      assert s.writes + ws == s.writes;
    } else {
      TypedKeeps(s, ws[0]);
      TypingMakes(Typed(s, ws[0]), ws[1..]);
      MakesOneMore(s, ws[0], ws[1..], Typing(ws[1..]));
      assert [ws[0]] + ws[1..] == ws;
    }
  }

  lemma TypingFromStart(ws: PtyWrites)
    ensures Runs(INITIAL, Typing(ws))
    ensures var s := RunAll(INITIAL, Typing(ws)); s.writes == ws && Inputs(s.arrived) == Offered(ws)
  {
    TypingMakes(INITIAL, ws);
    assert [] + ws == ws;
  }

  // Does a frame lead to a write?
  predicate Writes(f: Frame) {
    f.Binary? || (f.Text? && f.message.Some? && f.message.value.kind == "input" && f.message.value.data != [])
  }

  // The session takes a frame in, reads it, and writes out what it types.
  function TakeIn(f: Frame): seq<Step> {
    if Writes(f) then [Arrive(f), Receive, PtyWrite(|Input(f)|)] else [Arrive(f), Receive]
  }

  function TakeInAll(fs: seq<Frame>): seq<Step>
    decreases fs
  {
    if fs == [] then [] else TakeIn(fs[0]) + TakeInAll(fs[1..])
  }

  function TakenIn(s: State, f: Frame): State {
    s.(arrived := s.arrived + [f], received := s.received + [f],
       writes := if Writes(f) then s.writes + [Write(Input(f), |Input(f)|)] else s.writes)
  }

  lemma TakeOneIn(s: State, f: Frame, rest: seq<Step>)
    requires Idle(s) && Runs(TakenIn(s, f), rest)
    ensures Runs(s, TakeIn(f) + rest) && RunAll(s, TakeIn(f) + rest) == RunAll(TakenIn(s, f), rest)
  {
    var s1 := s.(arrived := s.arrived + [f], inbox := [f]);
    assert Do(s, Arrive(f)) == s1;
    if Writes(f) {
      var s2 := s1.(received := s.received + [f], inbox := [], down := DownWriting(Input(f)));
      assert Do(s1, Receive) == s2 && Do(s2, PtyWrite(|Input(f)|)) == TakenIn(s, f);
      OneStep(s2, PtyWrite(|Input(f)|), rest);
      OneStep(s1, Receive, [PtyWrite(|Input(f)|)] + rest);
      OneStep(s, Arrive(f), [Receive] + ([PtyWrite(|Input(f)|)] + rest));
      assert [Arrive(f)] + ([Receive] + ([PtyWrite(|Input(f)|)] + rest)) == TakeIn(f) + rest;
    } else {
      assert Do(s1, Receive) == TakenIn(s, f);
      OneStep(s1, Receive, rest);
      OneStep(s, Arrive(f), [Receive] + rest);
      assert [Arrive(f)] + ([Receive] + rest) == TakeIn(f) + rest;
    }
  }

  lemma TakenInTypes(s: State, f: Frame)
    requires Idle(s)
    ensures Idle(TakenIn(s, f)) && TakenIn(s, f).up == s.up && TakenIn(s, f).closes == s.closes
    ensures Offered(TakenIn(s, f).writes) == Offered(s.writes) + Input(f)
    ensures Sent(TakenIn(s, f).writes) == Sent(s.writes) + Input(f)
  {
    if Writes(f) {
      assert TakenIn(s, f).writes[..|s.writes|] == s.writes;
      assert Input(f)[..|Input(f)|] == Input(f);
    } else {
      assert Input(f) == [];
    }
  }

  // From one idle state to another with the frames taken in, exactly what they type written out,
  // in order, and nothing closed.
  ghost predicate Carries(s: State, t: State, fs: seq<Frame>) {
    && Idle(t) && t.arrived == s.arrived + fs && t.up == s.up && t.closes == s.closes
    && Offered(t.writes) == Offered(s.writes) + Inputs(fs)
    && Sent(t.writes) == Sent(s.writes) + Inputs(fs)
  }

  lemma CarriesOneMore(s: State, f: Frame, fs: seq<Frame>, t: State)
    requires Idle(s) && Carries(TakenIn(s, f), t, fs)
    ensures Carries(s, t, [f] + fs)
  {
    var m := TakenIn(s, f);
    TakenInTypes(s, f);
    InputsFirst(f, fs);
    Chained(s.arrived, [f], m.arrived, fs, t.arrived);
    Chained(Offered(s.writes), Input(f), Offered(m.writes), Inputs(fs), Offered(t.writes));
    Chained(Sent(s.writes), Input(f), Sent(m.writes), Inputs(fs), Sent(t.writes));
  }

  lemma Chained<T>(a: seq<T>, x: seq<T>, b: seq<T>, y: seq<T>, c: seq<T>)
    requires b == a + x && c == b + y
    ensures c == a + (x + y)
  {}

  lemma InputsFirst(f: Frame, fs: seq<Frame>)
    ensures Inputs([f] + fs) == Input(f) + Inputs(fs)
  {
    InputsConcat([f], fs);
    assert [f][..0] == [];
  }

  lemma {:induction false} InputsConcat(a: seq<Frame>, b: seq<Frame>)
    ensures Inputs(a + b) == Inputs(a) + Inputs(b)
    decreases b
  {
    if b == [] {
      assert a + b == a;
    } else {
      var init, last := b[..|b| - 1], b[|b| - 1];
      assert a + b == (a + init) + [last] && b == init + [last];
      InputsConcat(a, init);
      InputsNext(a + init, last);
      InputsNext(init, last);
    }
  }

  // Whatever frames come in, a session can take them all in, write out what they type, and be
  // waiting for the next one.
  lemma {:induction false} AnyFramesAreTakenIn(s: State, fs: seq<Frame>)
    requires Idle(s)
    ensures Runs(s, TakeInAll(fs)) && Carries(s, RunAll(s, TakeInAll(fs)), fs)
    decreases fs
  {
    if fs == [] {
      assert s.arrived + fs == s.arrived;
    } else {
      var f, rest := fs[0], fs[1..];
      TakenInTypes(s, f);
      AnyFramesAreTakenIn(TakenIn(s, f), rest);
      TakeOneIn(s, f, TakeInAll(rest));
      CarriesOneMore(s, f, rest, RunAll(TakenIn(s, f), TakeInAll(rest)));
      assert [f] + rest == fs;
    }
  }

  // The same towards the client: any chunks of up to a buffer each can be read and sent on.
  function RelayAll(chunks: seq<Bytes>): seq<Step>
    decreases chunks
  {
    if chunks == [] then [] else [PtyRead(chunks[0], false), Send(true, |chunks[0]|)] + RelayAll(chunks[1..])
  }

  function Joined(chunks: seq<Bytes>): Bytes {
    if chunks == [] then [] else chunks[0] + Joined(chunks[1..])
  }

  function Relayed(s: State, bytes: Bytes): State {
    s.(ptyRead := s.ptyRead + bytes, wsSent := s.wsSent + bytes)
  }

  ghost predicate CanRelay(s: State) {
    s.up.UpReading? && !s.masterClosed && !s.connClosed
  }

  lemma RelaySteps(s: State, chunk: Bytes)
    requires CanRelay(s) && 1 <= |chunk| <= 4096
    ensures Enabled(s, PtyRead(chunk, false))
    ensures Enabled(Do(s, PtyRead(chunk, false)), Send(true, |chunk|))
    ensures Do(Do(s, PtyRead(chunk, false)), Send(true, |chunk|)) == Relayed(s, chunk)
  {
    assert chunk[..|chunk|] == chunk;
  }

  lemma RelayOne(s: State, chunk: Bytes, rest: seq<Step>)
    requires CanRelay(s) && 1 <= |chunk| <= 4096 && Runs(Relayed(s, chunk), rest)
    ensures var run := [PtyRead(chunk, false), Send(true, |chunk|)] + rest;
      Runs(s, run) && RunAll(s, run) == RunAll(Relayed(s, chunk), rest)
  {
    RelaySteps(s, chunk);
    OneStep(Do(s, PtyRead(chunk, false)), Send(true, |chunk|), rest);
    OneStep(s, PtyRead(chunk, false), [Send(true, |chunk|)] + rest);
    assert [PtyRead(chunk, false)] + ([Send(true, |chunk|)] + rest) == [PtyRead(chunk, false), Send(true, |chunk|)] + rest;
  }

  lemma RelayedTwice(s: State, a: Bytes, b: Bytes)
    ensures Relayed(Relayed(s, a), b) == Relayed(s, a + b)
  {
    assert s.ptyRead + a + b == s.ptyRead + (a + b) && s.wsSent + a + b == s.wsSent + (a + b);
  }

  lemma {:induction false} AnyOutputIsRelayed(s: State, chunks: seq<Bytes>)
    requires CanRelay(s) && forall c <- chunks :: 1 <= |c| <= 4096
    ensures Runs(s, RelayAll(chunks)) && RunAll(s, RelayAll(chunks)) == Relayed(s, Joined(chunks))
    decreases chunks
  {
    if chunks == [] {
      assert s.ptyRead + [] == s.ptyRead && s.wsSent + [] == s.wsSent;
    } else {
      var c, rest := chunks[0], chunks[1..];
      AnyOutputIsRelayed(Relayed(s, c), rest);
      RelayOne(s, c, RelayAll(rest));
      RelayedTwice(s, c, Joined(rest));
    }
  }

  ghost predicate ShellGetsPrefix(s: State) {
    Sent(s.writes) <= Inputs(s.arrived)
  }

  // The source ignores the result of its PTY writes. That the shell gets a prefix of the client's
  // input in every session that makes writes of these lengths and counts, whatever the bytes, is
  // the case if and only if nothing follows a short write.
  lemma ShellSeesPrefixIffSticky(run: seq<Step>)
    requires Runs(INITIAL, run)
    ensures var ws := RunAll(INITIAL, run).writes;
      Sticky(ws) <==> forall other :: Runs(INITIAL, other) && SameShape(ws, RunAll(INITIAL, other).writes)
                                      ==> ShellGetsPrefix(RunAll(INITIAL, other))
  {
    var ws := RunAll(INITIAL, run).writes;
    if Sticky(ws) {
      forall other | Runs(INITIAL, other) && SameShape(ws, RunAll(INITIAL, other).writes)
        ensures ShellGetsPrefix(RunAll(INITIAL, other))
      {
        ShellSeesPrefix(other);
      }
    } else {
      PrefixIffSticky(ws);
      var vs :| SameShape(ws, vs) && !(Sent(vs) <= Offered(vs));
      TypingFromStart(vs);
      assert !ShellGetsPrefix(RunAll(INITIAL, Typing(vs)));
    }
  }

  const MISSED: PtyWrites := [Write([0], 0), Write([1], 1)]

  lemma MissedBytes()
    ensures Sent(MISSED) == [1] && Offered(MISSED) == [0, 1]
  {
    assert MISSED[..1] == [Write([0], 0)] && MISSED[..1][..0] == [];
    assert Sent(MISSED[..1]) == [] && Offered(MISSED[..1]) == [0];
  }

  // A session in which it fails: of two frames of one byte each, only the second gets through.
  lemma ShellCanMissAByte()
    ensures Runs(INITIAL, Typing(MISSED))
    ensures var s := RunAll(INITIAL, Typing(MISSED));
      Inputs(s.arrived) == [0, 1] && Sent(s.writes) == [1] && !ShellGetsPrefix(s)
  {
    MissedBytes();
    TypingFromStart(MISSED);
    assert Sent(MISSED)[0] != Offered(MISSED)[0];
  }

  // ------------------------------------------------------------------ shutdown

  // However the goroutines end, the channel is closed at most once, and by one of them; the main
  // goroutine closes neither end before that; and it returns only when both have finished.
  lemma ShutdownOrder(run: seq<Step>)
    requires Runs(INITIAL, run)
    ensures var s := RunAll(INITIAL, run);
      && s.closes <= 1
      && (s.up.UpFinished? || s.down.DownFinished? ==> s.closes == 1)
      && (s.masterClosed || s.connClosed ==> s.closes == 1)
      && (s.connClosed ==> s.masterClosed)
      && (s.main.Returned? ==> s.up.UpFinished? && s.down.DownFinished?)
  {
    InitialInv();
    InvHolds(INITIAL, run);
  }

  function MainLeft(m: Main): nat {
    match m
    case Waiting => 6 case Interrupting => 5 case ClosingMaster => 4 case ClosingConn => 3
    case Joining => 2 case Reaping => 1 case Returned => 0
  }

  function UpLeft(u: Up): nat {
    match u
    case UpReading => 3 case UpSending(_, _) => 3 case UpLeaving => 2 case UpSignalled => 1 case UpFinished => 0
  }

  function DownLeft(d: Down): nat {
    match d
    case DownReading => 3 case DownWriting(_) => 4 case DownLeaving => 2 case DownSignalled => 1 case DownFinished => 0
  }

  // The steps a session can still take once both ends are closed.
  function Left(s: State): nat {
    MainLeft(s.main) + UpLeft(s.up) + DownLeft(s.down) + 2 * |s.inbox|
  }

  lemma ClosedStepsDecrease(s: State, a: Step)
    requires s.masterClosed && s.connClosed && Enabled(s, a)
    ensures var s' := Do(s, a); s'.masterClosed && s'.connClosed && Left(s') < Left(s)
  {}

  // Once both ends are closed every run is finite, buffered frames included.
  lemma {:induction false} ShutdownTerminates(s: State, run: seq<Step>)
    requires s.masterClosed && s.connClosed && Runs(s, run)
    ensures |run| <= Left(s)
    decreases run
  {
    if run != [] {
      ClosedStepsDecrease(s, run[0]);
      ShutdownTerminates(Do(s, run[0]), run[1..]);
    }
  }

  // Until then the main goroutine is at most four steps of its own from closing both, and no
  // other step holds it back.
  lemma MainIsNeverHeldBack(s: State, a: Step)
    requires Shutdown(s) && Enabled(s, a)
    ensures MainLeft(Do(s, a).main) <= MainLeft(s.main)
    ensures s.closes > 0 && !s.connClosed ==>
      var next := match s.main case Waiting => MainWakes case Interrupting => MainInterrupts
                               case ClosingMaster => MainClosesMaster case _ => MainClosesConn;
      Enabled(s, next) && MainLeft(Do(s, next).main) == MainLeft(s.main) - 1 && MainLeft(s.main) <= 6
  {}

  ghost predicate Stuck(s: State) {
    forall a: Step :: !a.Arrive? ==> !Enabled(s, a)
  }

  lemma UpIsOver(s: State)
    requires Stuck(s)
    ensures s.up.UpFinished?
  {
    assert !Enabled(s, PtyRead([], true)) && !Enabled(s, Send(false, 0)) && !Enabled(s, UpSignal) && !Enabled(s, UpDone);
  }

  lemma DownIsOver(s: State)
    requires Stuck(s)
    ensures s.down.DownFinished?
  {
    assert !Enabled(s, ReceiveFails) && !Enabled(s, PtyWrite(0)) && !Enabled(s, DownSignal) && !Enabled(s, DownDone);
  }

  lemma MainIsOver(s: State)
    requires Stuck(s) && s.closes > 0 && s.up.UpFinished? && s.down.DownFinished?
    ensures s.main.Returned?
  {
    assert !Enabled(s, MainWakes) && !Enabled(s, MainInterrupts) && !Enabled(s, MainClosesMaster);
    assert !Enabled(s, MainClosesConn) && !Enabled(s, MainJoins) && !Enabled(s, MainReaps);
  }

  // A session whose channel is closed can stop moving only by being over.
  lemma StuckMeansOver(run: seq<Step>)
    requires Runs(INITIAL, run)
    requires RunAll(INITIAL, run).closes > 0 && Stuck(RunAll(INITIAL, run))
    ensures var s := RunAll(INITIAL, run);
      s.main.Returned? && s.up.UpFinished? && s.down.DownFinished? && s.closes == 1
  {
    InitialInv();
    InvHolds(INITIAL, run);
    UpIsOver(RunAll(INITIAL, run));
    DownIsOver(RunAll(INITIAL, run));
    MainIsOver(RunAll(INITIAL, run));
  }
}
