/** The rendezvous protocol between a results worker and the `Insert` goroutine it starts for one batch.
    Two unbuffered channels: `done` carries integers both ways, non-positive ones being batch indices, and
    `cher` carries errors to the worker. Discord's answer for each poll is an arbitrary outcome. */
module BatchProtocol {
  import opened Options

  /** What fetching and rendering one poll of the batch comes to. */
  datatype Outcome =
    | Row           // finalized, rendered and appended
    | Gone          // the message no longer exists
    | NotFinalized  // still open, requeued by Insert
    | Other         // any other error

  const INS_WRITE_FAILED := 1
  const INS_WRITE_SUCCESS := 2
  const INS_FETCH_CONTINUE := 3
  const INS_FETCH_STOP := 4
  const INS_ERR_NEW := 5
  const INS_ERR_RECOVER_BREAK_IGNORE := 6
  const INS_ERR_STOP := 7
  const INS_ERR_SHUTDOWN := 8
  const INS_ERR_RECOVER_DROP := 9

  datatype Error = MessageNotFound | SomeError | WriteError

  datatype InsertPc =
    | Fetch(i: nat)
    | SendErr(i: nat, err: Error, canDrop: bool)  // cher <- err
    | SendNew(i: nat, canDrop: bool)              // done <- INS_ERR_NEW
    | RecvVerdict(i: nat, canDrop: bool)          // next := <-done
    | SendIndex(i: nat)                           // done <- -i
    | RecvNext(i: nat)                            // <-done
    | Finish
    | SendWriteErr                                // cher <- err
    | SendStatus(code: int)                       // done <- final status
    | Returned

  datatype WorkerPc =
    | Select                                      // receiving from done or cher
    | RecvStatus(err: Error)                      // has an error, receiving from done
    | Reply(code: int, index: Option<int>)        // sending on done; then index is the latest one prepared
    | Ended(status: int)

  datatype State = State(
    insert: InsertPc,
    worker: WorkerPc,
    rows: seq<nat>,      // batch positions appended to the statement
    requeued: seq<nat>,  // positions Insert pushed back as not finalized
    finalIndex: int,     // the worker's cutoff
    written: bool,
    statuses: nat)       // final statuses received

  const START := State(Fetch(0), Select, [], [], 0, false, 0)

  datatype Action =
    | Prepare            // Insert's own step
    | Execute(dbOk: bool)
    | InsertToWorker     // rendezvous on done
    | WorkerToInsert     // rendezvous on done
    | ErrorToWorker      // rendezvous on cher

  /** What Insert offers on `done`, if anything. */
  function Offer(pc: InsertPc): Option<int> {
    match pc
    case SendNew(_, _) => Some(INS_ERR_NEW)
    case SendIndex(i) => Some(-(i as int))
    case SendStatus(code) => Some(code)
    case _ => None
  }

  predicate Enabled(o: seq<Outcome>, s: State, a: Action) {
    match a
    case Prepare => s.insert.Fetch? && s.insert.i <= |o|
    case Execute(_) => s.insert.Finish?
    case InsertToWorker => Offer(s.insert).Some? && (s.worker.Select? || s.worker.RecvStatus?)
    case WorkerToInsert => s.worker.Reply? && (s.insert.RecvVerdict? || s.insert.RecvNext?)
    case ErrorToWorker => (s.insert.SendErr? || s.insert.SendWriteErr?) && s.worker.Select?
  }

  /** `handleInsertStatus` on a received status. */
  function Handle(status: int, err: Option<Error>): WorkerPc {
    if status == INS_ERR_NEW then
      Reply(if err == Some(MessageNotFound) then INS_ERR_RECOVER_DROP else INS_ERR_RECOVER_BREAK_IGNORE, None)
    else if status == INS_WRITE_FAILED || status == INS_WRITE_SUCCESS then Ended(status)
    else Reply(INS_FETCH_CONTINUE, Some(-status))
  }

  /** Where Insert goes after its offer was taken. */
  function AfterOffer(pc: InsertPc): InsertPc
    requires Offer(pc).Some?
  {
    match pc
    case SendNew(i, canDrop) => RecvVerdict(i, canDrop)
    case SendIndex(i) => RecvNext(i)
    case SendStatus(_) => Returned
  }

  /** Where Insert goes on what the worker sent. */
  function AfterReply(pc: InsertPc, code: int): InsertPc
    requires pc.RecvVerdict? || pc.RecvNext?
  {
    match pc
    case RecvVerdict(i, canDrop) =>
      if code == INS_ERR_STOP then Finish
      else if code == INS_ERR_SHUTDOWN then Returned
      else if code == INS_ERR_RECOVER_DROP && canDrop then SendIndex(i)
      else Fetch(i + 1)
    case RecvNext(i) => if code == INS_FETCH_STOP then Finish else Fetch(i + 1)
  }

  function Apply(o: seq<Outcome>, s: State, a: Action): State
    requires Enabled(o, s, a)
  {
    match a
    case Prepare =>
      var i := s.insert.i;
      if i == |o| then s.(insert := Finish)
      else (match o[i]
            case Row => s.(insert := SendIndex(i), rows := s.rows + [i])
            case Gone => s.(insert := SendErr(i, MessageNotFound, true))
            case NotFinalized => s.(insert := SendErr(i, SomeError, false), requeued := s.requeued + [i])
            case Other => s.(insert := SendErr(i, SomeError, true)))
    case Execute(dbOk) =>
      if s.rows == [] then s.(insert := SendStatus(INS_WRITE_SUCCESS))
      else if dbOk then s.(insert := SendStatus(INS_WRITE_SUCCESS), written := true)
      else s.(insert := SendWriteErr)
    case InsertToWorker =>
      var status := Offer(s.insert).value;
      var w := Handle(status, if s.worker.RecvStatus? then Some(s.worker.err) else None);
      s.(insert := AfterOffer(s.insert), worker := w, statuses := if w.Ended? then s.statuses + 1 else s.statuses)
    case WorkerToInsert =>
      s.(insert := AfterReply(s.insert, s.worker.code), worker := Select,
         finalIndex := if s.worker.index.Some? then s.worker.index.value + 1 else s.finalIndex)
    case ErrorToWorker =>
      if s.insert.SendErr? then s.(insert := SendNew(s.insert.i, s.insert.canDrop), worker := RecvStatus(s.insert.err))
      else s.(insert := SendStatus(INS_WRITE_FAILED), worker := RecvStatus(WriteError))
  }

  // ---------------------------------------------------------------- reference definitions

  /** The positions below n with a given outcome, in order. */
  function Positions(o: seq<Outcome>, n: nat, x: Outcome): (p: seq<nat>)
    requires n <= |o|
    ensures forall i :: i in p <==> 0 <= i < n && o[i] == x
    ensures forall i, j :: 0 <= i < j < |p| ==> p[i] < p[j]
  {
    if n == 0 then []
    else
      var before := Positions(o, n - 1, x);
      assert forall k :: 0 <= k < |before| ==> before[k] in before;
      before + (if o[n - 1] == x then [n - 1] else [])
  }

  /** One past the last written or gone position below n. */
  function Cutoff(o: seq<Outcome>, n: nat): (c: nat)
    requires n <= |o|
    ensures c <= n
    ensures c > 0 ==> o[c - 1].Row? || o[c - 1].Gone?
    ensures forall i :: c <= i < n ==> !o[i].Row? && !o[i].Gone?
  {
    if n == 0 then 0
    else if o[n - 1].Row? || o[n - 1].Gone? then n
    else Cutoff(o, n - 1)
  }

  // ---------------------------------------------------------------- the invariant

  /** What has been recorded when the first n polls are dealt with; the row and the requeue of the next
      poll are recorded before its exchange. */
  predicate Recorded(o: seq<Outcome>, s: State, rows: nat, requeued: nat, cutoff: nat) {
    && rows <= |o| && requeued <= |o| && cutoff <= |o|
    && s.rows == Positions(o, rows, Row)
    && s.requeued == Positions(o, requeued, NotFinalized)
    && s.finalIndex == Cutoff(o, cutoff)
  }

  function ErrorOf(x: Outcome): Error {
    if x.Gone? then MessageNotFound else SomeError
  }

  function VerdictOn(x: Outcome): int {
    if x.Gone? then INS_ERR_RECOVER_DROP else INS_ERR_RECOVER_BREAK_IGNORE
  }

  /** Worker and Insert are always at matching ends of an exchange. */
  predicate Matched(o: seq<Outcome>, s: State) {
    match s.insert
    case Fetch(i) => i <= |o| && s.worker == Select && Recorded(o, s, i, i, i)
    case SendErr(i, err, canDrop) =>
      i < |o| && s.worker == Select && !o[i].Row? && err == ErrorOf(o[i]) && canDrop == !o[i].NotFinalized?
      && Recorded(o, s, i, i + 1, i)
    case SendNew(i, canDrop) =>
      i < |o| && s.worker == RecvStatus(ErrorOf(o[i])) && !o[i].Row? && canDrop == !o[i].NotFinalized?
      && Recorded(o, s, i, i + 1, i)
    case RecvVerdict(i, canDrop) =>
      i < |o| && s.worker == Reply(VerdictOn(o[i]), None) && !o[i].Row? && canDrop == !o[i].NotFinalized?
      && Recorded(o, s, i, i + 1, i)
    case SendIndex(i) =>
      i < |o| && s.worker == Select && (o[i].Row? || o[i].Gone?) && Recorded(o, s, i + 1, i + 1, i)
    case RecvNext(i) =>
      i < |o| && s.worker == Reply(INS_FETCH_CONTINUE, Some(i)) && (o[i].Row? || o[i].Gone?)
      && Recorded(o, s, i + 1, i + 1, i)
    case Finish => s.worker == Select && Recorded(o, s, |o|, |o|, |o|)
    case SendWriteErr => s.worker == Select && Recorded(o, s, |o|, |o|, |o|) && s.rows != []
    case SendStatus(code) =>
      && Recorded(o, s, |o|, |o|, |o|)
      && (code == INS_WRITE_SUCCESS || code == INS_WRITE_FAILED)
      && (code == INS_WRITE_SUCCESS ==> s.worker == Select)
      && (code == INS_WRITE_FAILED ==> s.worker == RecvStatus(WriteError) && s.rows != [])
    case Returned =>
      && Recorded(o, s, |o|, |o|, |o|)
      && s.worker.Ended?
      && (s.worker.status == INS_WRITE_SUCCESS || (s.worker.status == INS_WRITE_FAILED && s.rows != []))
  }

  predicate Succeeds(s: State) {
    s.insert == SendStatus(INS_WRITE_SUCCESS) || (s.insert.Returned? && s.worker == Ended(INS_WRITE_SUCCESS))
  }

  predicate Inv(o: seq<Outcome>, s: State) {
    && Matched(o, s)
    && (s.written <==> Succeeds(s) && s.rows != [])
    && s.statuses == (if s.insert.Returned? then 1 else 0)
  }

  /** How far the exchange still is from its end. */
  function Remaining(o: seq<Outcome>, s: State): int {
    match s.insert
    case Fetch(i) => 7 * (|o| - i) + 4
    case SendErr(i, _, _) => 7 * (|o| - i) + 3
    case SendNew(i, _) => 7 * (|o| - i) + 2
    case RecvVerdict(i, _) => 7 * (|o| - i) + 1
    case SendIndex(i) => 7 * (|o| - i)
    case RecvNext(i) => 7 * (|o| - i) - 1
    case Finish => 3
    case SendWriteErr => 2
    case SendStatus(_) => 1
    case Returned => 0
  }

  lemma PrepareKeeps(o: seq<Outcome>, s: State)
    requires Inv(o, s) && Enabled(o, s, Prepare)
    ensures Inv(o, Apply(o, s, Prepare)) && 0 <= Remaining(o, Apply(o, s, Prepare)) < Remaining(o, s)
  {
    var t := Apply(o, s, Prepare);
    var i := s.insert.i;
    if i < |o| {
      assert Positions(o, i + 1, Row) == Positions(o, i, Row) + (if o[i] == Row then [i] else []);
      assert Positions(o, i + 1, NotFinalized) == Positions(o, i, NotFinalized) + (if o[i] == NotFinalized then [i] else []);
    }
  }

  lemma OfferKeeps(o: seq<Outcome>, s: State, a: Action)
    requires Inv(o, s) && Enabled(o, s, a) && (a.Execute? || a.InsertToWorker? || a.ErrorToWorker?)
    ensures Inv(o, Apply(o, s, a)) && 0 <= Remaining(o, Apply(o, s, a)) < Remaining(o, s)
  {
    hide Positions, Cutoff;
  }

  lemma ReplyKeeps(o: seq<Outcome>, s: State)
    requires Inv(o, s) && Enabled(o, s, WorkerToInsert)
    ensures Inv(o, Apply(o, s, WorkerToInsert)) && 0 <= Remaining(o, Apply(o, s, WorkerToInsert)) < Remaining(o, s)
  {
    hide Positions, Cutoff;
    var i := s.insert.i;
    assert Positions(o, i + 1, Row) == Positions(o, i, Row) + (if o[i] == Row then [i] else []) by { PositionsStep(o, i); }
    assert Cutoff(o, i + 1) == (if o[i].Row? || o[i].Gone? then i + 1 else Cutoff(o, i)) by { PositionsStep(o, i); }
  }

  lemma PositionsStep(o: seq<Outcome>, i: nat)
    requires i < |o|
    ensures Positions(o, i + 1, Row) == Positions(o, i, Row) + (if o[i] == Row then [i] else [])
    ensures Cutoff(o, i + 1) == if o[i].Row? || o[i].Gone? then i + 1 else Cutoff(o, i)
  {
  }

  /** Every step keeps the two sides matched and brings the end nearer. */
  lemma StepKeeps(o: seq<Outcome>, s: State, a: Action)
    requires Inv(o, s) && Enabled(o, s, a)
    ensures Inv(o, Apply(o, s, a))
    ensures 0 <= Remaining(o, Apply(o, s, a)) < Remaining(o, s)
  {
    match a
    case Prepare => PrepareKeeps(o, s);
    case WorkerToInsert => ReplyKeeps(o, s);
    case _ => OfferKeeps(o, s, a);
  }

  /** No deadlock: until both sides have returned, exactly one kind of action is possible. */
  lemma SomeStepIsEnabled(o: seq<Outcome>, s: State)
    requires Inv(o, s)
    ensures s.insert.Returned? <==> forall a :: !Enabled(o, s, a)
    ensures s.insert.Returned? <==> s.worker.Ended?
    ensures forall a, b :: Enabled(o, s, a) && Enabled(o, s, b) ==> a == b || (a.Execute? && b.Execute?)
  {
    var a := match s.insert
      case Fetch(_) => Prepare
      case SendErr(_, _, _) => ErrorToWorker
      case SendWriteErr => ErrorToWorker
      case RecvVerdict(_, _) => WorkerToInsert
      case RecvNext(_) => WorkerToInsert
      case Finish => Execute(true)
      case _ => InsertToWorker;
    assert !s.insert.Returned? ==> Enabled(o, s, a);
  }

  // ---------------------------------------------------------------- runs

  function Run(o: seq<Outcome>, actions: seq<Action>): Option<State> {
    if actions == [] then Some(START)
    else
      var n := |actions| - 1;
      var r := Run(o, actions[..n]);
      if r.Some? && Enabled(o, r.value, actions[n]) then Some(Apply(o, r.value, actions[n])) else None
  }

  lemma {:induction false} RunKeeps(o: seq<Outcome>, actions: seq<Action>)
    requires Run(o, actions).Some?
    ensures Inv(o, Run(o, actions).value)
    ensures |actions| + Remaining(o, Run(o, actions).value) <= 7 * |o| + 4
  {
    if actions != [] {
      var n := |actions| - 1;
      RunKeeps(o, actions[..n]);
      StepKeeps(o, Run(o, actions[..n]).value, actions[n]);
    }
  }

  /** For every batch length and every sequence of outcomes, the exchange never blocks before its end, has
      at most 7n+4 steps, and ends with exactly one final status, which says whether the rows were written. */
  lemma HandshakeTerminates(o: seq<Outcome>, actions: seq<Action>)
    requires Run(o, actions).Some?
    ensures |actions| <= 7 * |o| + 4
    ensures var s := Run(o, actions).value;
            (forall a :: !Enabled(o, s, a)) ==>
              && s.insert.Returned? && s.statuses == 1
              && (s.worker == Ended(INS_WRITE_SUCCESS) || s.worker == Ended(INS_WRITE_FAILED))
              && (s.worker == Ended(INS_WRITE_SUCCESS) <==> s.written || s.rows == [])
              && s.rows == Positions(o, |o|, Row)
              && s.requeued == Positions(o, |o|, NotFinalized)
              && s.finalIndex == Cutoff(o, |o|)
  {
    RunKeeps(o, actions);
    SomeStepIsEnabled(o, Run(o, actions).value);
  }

  /** No message is misread in either direction, index 0 included: the worker takes a value for an index
      exactly when Insert sent that index, for an error report exactly when one was reported, and answers a
      drop exactly to a poll whose message is gone; Insert never receives a stop or shutdown. */
  lemma NothingIsMisread(o: seq<Outcome>, actions: seq<Action>)
    requires Run(o, actions).Some?
    ensures var s := Run(o, actions).value;
            && (Enabled(o, s, InsertToWorker) ==>
                  var w := Apply(o, s, InsertToWorker).worker;
                  && (forall i: int :: w == Reply(INS_FETCH_CONTINUE, Some(i)) <==> i >= 0 && s.insert == SendIndex(i))
                  && (w.Reply? && w.index.None? <==> s.insert.SendNew?)
                  && (w.Ended? <==> s.insert.SendStatus?)
                  && (s.insert.SendNew? ==> s.insert.i < |o| && (w.code == INS_ERR_RECOVER_DROP <==> o[s.insert.i].Gone?)))
            && (Enabled(o, s, WorkerToInsert) ==>
                  && (s.insert.RecvNext? <==> s.worker.code == INS_FETCH_CONTINUE)
                  && (s.insert.RecvVerdict? <==> s.worker.code == INS_ERR_RECOVER_DROP || s.worker.code == INS_ERR_RECOVER_BREAK_IGNORE)
                  && (s.worker.code == INS_ERR_RECOVER_DROP ==> s.insert.canDrop))
  {
    RunKeeps(o, actions);
  }
}
