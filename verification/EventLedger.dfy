/** At-least-once delivery of download events turned into a ledger with one row per event. */
module EventLedger {
  import opened Collections
  import opened DownloadEvents

  /** A queued message; a body that does not pass validation is never stored. */
  datatype Message = Message(number: nat, body: Option<Event>)

  predicate Valid(m: Message) { m.body.Some? && IsDownloadEvent(m.body.value) }

  type Rows = seq<Event>

  predicate HasRow(rows: Rows, id: string) { exists i :: 0 <= i < |rows| && rows[i].id == id }

  ghost predicate OneRowPerId(rows: Rows) {
    forall i, j :: 0 <= i < j < |rows| ==> rows[i].id != rows[j].id
  }

  /** The message is a valid event whose row is in the ledger. */
  predicate Stored(rows: Rows, m: Message) { Valid(m) && HasRow(rows, m.body.value.id) }

  /** `INSERT ... ON CONFLICT(event_id) DO NOTHING`. */
  function Insert(rows: Rows, e: Event): Rows { if HasRow(rows, e.id) then rows else rows + [e] }

  /** What became of an insert. A reported success means that it took effect; a reported failure means nothing. */
  datatype Fate = Fate(applied: bool, reported: bool)

  predicate Honest(f: Fate) { f.reported ==> f.applied }

  /** What became of a send: whether the queue took the message, and what the producer was told. */
  datatype Sending = Sending(taken: bool, reported: bool)

  // ---------------------------------------------------------------- the two workers

  /** The queue, as the producer sees it. */
  class Queue {
    var messages: seq<Event>

    constructor ()
      ensures messages == []
    {
      messages := [];
    }

    method Send(e: Event, s: Sending) returns (reported: bool)
      modifies this
      ensures reported == s.reported && messages == old(messages) + if s.taken then [e] else []
    {
      if s.taken {
        messages := messages + [e];
      }
      reported := s.reported;
    }
  }

  /** Two attempts at most, always with the same event; the second only after a reported failure. */
  method Enqueue(queue: Queue, e: Event, attempts: seq<Sending>)
    requires |attempts| == 2
    modifies queue
    ensures queue.messages == old(queue.messages) + (if attempts[0].taken then [e] else [])
                              + (if !attempts[0].reported && attempts[1].taken then [e] else [])
  {
    for attempt := 0 to 2
      invariant attempt == 0 ==> queue.messages == old(queue.messages)
      invariant attempt == 1 ==> !attempts[0].reported && queue.messages == old(queue.messages) + if attempts[0].taken then [e] else []
      invariant attempt == 2 ==> !attempts[0].reported
      invariant attempt == 2 ==> queue.messages == old(queue.messages) + (if attempts[0].taken then [e] else [])
                                                   + (if attempts[1].taken then [e] else [])
    {
      var reported := queue.Send(e, attempts[attempt]);
      if reported {
        return;
      }
    }
  }

  class Database {
    var rows: Rows

    method Run(e: Event, fate: Fate) returns (success: bool)
      modifies this
      ensures success == fate.reported && rows == if fate.applied then Insert(old(rows), e) else old(rows)
    {
      if fate.applied && !HasRow(rows, e.id) {
        rows := rows + [e];
      }
      success := fate.reported;
    }
  }

  /** The rows after the first `n` messages of a batch. */
  function RowsAfter(rows: Rows, batch: seq<Message>, fates: seq<Fate>, n: nat): Rows
    requires n <= |batch| == |fates|
  {
    if n == 0 then rows
    else
      var before := RowsAfter(rows, batch, fates, n - 1);
      if Valid(batch[n - 1]) && fates[n - 1].applied then Insert(before, batch[n - 1].body.value) else before
  }

  /** Each message of a batch is acknowledged or retried, never both: acknowledged exactly when it
      is valid and its insert is reported as done, and then its row is there. */
  method ConsumeEvents(db: Database, batch: seq<Message>, fates: seq<Fate>) returns (acked: seq<bool>)
    requires |fates| == |batch| && (forall i :: 0 <= i < |fates| ==> Honest(fates[i])) && OneRowPerId(db.rows)
    modifies db
    ensures |acked| == |batch| && OneRowPerId(db.rows) && old(db.rows) <= db.rows
    ensures forall i :: 0 <= i < |batch| ==> (acked[i] <==> Valid(batch[i]) && fates[i].reported)
    ensures forall i :: 0 <= i < |batch| && acked[i] ==> Stored(db.rows, batch[i])
    ensures db.rows == RowsAfter(old(db.rows), batch, fates, |batch|)
  {
    hide IsDownloadEvent, HasRow;
    acked := [];
    for i := 0 to |batch|
      invariant |acked| == i && OneRowPerId(db.rows) && old(db.rows) <= db.rows
      invariant forall k :: 0 <= k < i ==> (acked[k] <==> Valid(batch[k]) && fates[k].reported)
      invariant forall k :: 0 <= k < i && acked[k] ==> Stored(db.rows, batch[k])
      invariant db.rows == RowsAfter(old(db.rows), batch, fates, i)
    {
      if !Valid(batch[i]) {
        acked := acked + [false];
        continue;
      }
      ghost var was := db.rows;
      InsertKeeps(was, batch[i].body.value);
      var success := db.Run(batch[i].body.value, fates[i]);
      assert forall k :: 0 <= k < i && acked[k] ==> Stored(db.rows, batch[k]);
      acked := acked + [success];
    }
  }

  lemma {:induction false} InsertKeeps(rows: Rows, e: Event)
    ensures OneRowPerId(rows) ==> OneRowPerId(Insert(rows, e))
    ensures rows <= Insert(rows, e) && HasRow(Insert(rows, e), e.id)
    ensures forall id :: HasRow(rows, id) ==> HasRow(Insert(rows, e), id)
    ensures forall id :: HasRow(Insert(rows, e), id) ==> HasRow(rows, id) || id == e.id
  {
    var r := Insert(rows, e);
    assert !HasRow(rows, e.id) ==> r[|rows|] == e;
    assert forall i :: 0 <= i < |rows| ==> r[i] == rows[i];
  }

  // ---------------------------------------------------------------- the whole system

  /** Messages in the queue, acknowledged, and given up to the dead-letter queue; `delivered` is
      everything the queue ever took. A message may be acknowledged and still be delivered again. */
  datatype System = System(queue: set<Message>, acked: set<Message>, dead: set<Message>, delivered: set<Message>, rows: Rows)

  datatype Step =
    | Take(m: Message)                                   // the queue takes a message from a producer
    | Consume(m: Message, fate: Fate, ackLost: bool)     // a consumer handles it; the queue may miss the acknowledgement
    | GiveUp(m: Message)                                 // retries are exhausted

  predicate Possible(s: System, step: Step) {
    match step
    case Take(m) => m !in s.delivered
    case Consume(m, fate, _) => m in s.queue && Honest(fate)
    case GiveUp(m) => m in s.queue
  }

  function Next(s: System, step: Step): System {
    match step
    case Take(m) => s.(queue := s.queue + {m}, delivered := s.delivered + {m})
    case Consume(m, fate, ackLost) =>
      if !Valid(m) then s
      else
        var rows := if fate.applied then Insert(s.rows, m.body.value) else s.rows;
        if fate.reported then s.(rows := rows, acked := s.acked + {m}, queue := if ackLost then s.queue else s.queue - {m})
        else s.(rows := rows)
    case GiveUp(m) => s.(queue := s.queue - {m}, dead := s.dead + {m})
  }

  ghost predicate IsRun(s: System, steps: seq<Step>)
    decreases |steps|
  {
    steps == [] || (Possible(s, steps[0]) && IsRun(Next(s, steps[0]), steps[1..]))
  }

  function After(s: System, steps: seq<Step>): System
    decreases |steps|
  {
    if steps == [] then s else After(Next(s, steps[0]), steps[1..])
  }

  const START := System({}, {}, {}, {}, [])

  ghost predicate CameIn(delivered: set<Message>, e: Event) {
    exists m :: m in delivered && m.body == Some(e) && Valid(m)
  }

  /** At most one row per event; a row for every acknowledged message; no row without a valid
      message; and no valid message lost: it is queued, given up, or in the ledger. */
  ghost predicate Ledgered(s: System) {
    && OneRowPerId(s.rows)
    && (forall m :: m in s.acked ==> Stored(s.rows, m))
    && (forall i :: 0 <= i < |s.rows| ==> CameIn(s.delivered, s.rows[i]))
    && s.queue <= s.delivered && s.acked <= s.delivered && s.dead <= s.delivered
    && (forall m :: m in s.delivered ==> m in s.queue || m in s.dead || Stored(s.rows, m))
  }

  lemma {:induction false} StepKeepsLedger(s: System, step: Step)
    requires Ledgered(s) && Possible(s, step)
    ensures Ledgered(Next(s, step)) && s.rows <= Next(s, step).rows
  {
    hide IsDownloadEvent;
    var t := Next(s, step);
    forall e | CameIn(s.delivered, e) ensures CameIn(t.delivered, e) {
      var m :| m in s.delivered && m.body == Some(e) && Valid(m);
      assert m in t.delivered;
    }
    if step.Consume? && Valid(step.m) {
      InsertKeeps(s.rows, step.m.body.value);
      assert CameIn(t.delivered, step.m.body.value) by { assert step.m in t.delivered; }
      hide HasRow;
    }
  }

  /** In every run, whatever is sent twice, redelivered, or fails ambiguously. */
  lemma {:induction false} RunKeepsLedger(s: System, steps: seq<Step>)
    requires Ledgered(s) && IsRun(s, steps)
    ensures Ledgered(After(s, steps)) && s.rows <= After(s, steps).rows
    decreases |steps|
  {
    hide Ledgered, Next, Possible;
    if steps != [] {
      StepKeepsLedger(s, steps[0]);
      RunKeepsLedger(Next(s, steps[0]), steps[1..]);
    }
  }

  // ---------------------------------------------------------------- where a message is

  /** A consumer stored the message's event and said so. */
  predicate Acknowledges(step: Step, m: Message) { step.Consume? && step.m == m && Valid(m) && step.fate.reported }

  /** The message leaves the queue. */
  predicate Removes(step: Step, m: Message) { step == GiveUp(m) || (Acknowledges(step, m) && !step.ackLost) }

  ghost predicate Happened(steps: seq<Step>, test: Step -> bool) { exists i :: 0 <= i < |steps| && test(steps[i]) }

  lemma {:induction false} HappenedFirst(steps: seq<Step>, test: Step -> bool)
    requires steps != []
    ensures Happened(steps, test) <==> test(steps[0]) || Happened(steps[1..], test)
  {
    if Happened(steps[1..], test) {
      var i :| 0 <= i < |steps[1..]| && test(steps[1..][i]);
      assert test(steps[i + 1]);
    }
    assert forall i :: 1 <= i < |steps| ==> steps[i] == steps[1..][i - 1];
  }

  lemma {:induction false} TakenOnce(s: System, steps: seq<Step>, m: Message)
    requires IsRun(s, steps) && m in s.delivered
    ensures !Happened(steps, step => step == Take(m))
    decreases |steps|
  {
    hide IsDownloadEvent;
    if steps != [] {
      TakenOnce(Next(s, steps[0]), steps[1..], m);
      HappenedFirst(steps, step => step == Take(m));
    }
  }

  lemma {:induction false} WhereFrom(s: System, steps: seq<Step>, m: Message)
    requires IsRun(s, steps) && s.queue <= s.delivered
    ensures var t := After(s, steps);
            && (m in t.delivered <==> m in s.delivered || Happened(steps, step => step == Take(m)))
            && (m in t.acked <==> m in s.acked || Happened(steps, step => Acknowledges(step, m)))
            && (m in t.dead <==> m in s.dead || Happened(steps, step => step == GiveUp(m)))
            && (m in t.queue <==> (m in s.queue || Happened(steps, step => step == Take(m))) && !Happened(steps, step => Removes(step, m)))
    decreases |steps|
  {
    hide IsDownloadEvent, Insert;
    if steps != [] {
      WhereFrom(Next(s, steps[0]), steps[1..], m);
      HappenedFirst(steps, step => step == Take(m));
      HappenedFirst(steps, step => Acknowledges(step, m));
      HappenedFirst(steps, step => step == GiveUp(m));
      HappenedFirst(steps, step => Removes(step, m));
      if m in s.delivered {
        TakenOnce(s, steps, m);
      }
    }
  }

  /** In every run, a message is delivered, acknowledged or dead exactly when that happened to it, and it is queued exactly
      from when it was taken until it is given up or an acknowledgement gets through. */
  lemma {:induction false} WhereMessagesAre(steps: seq<Step>, m: Message)
    requires IsRun(START, steps)
    ensures var s := After(START, steps);
            && (m in s.delivered <==> Happened(steps, step => step == Take(m)))
            && (m in s.acked <==> Happened(steps, step => Acknowledges(step, m)))
            && (m in s.dead <==> Happened(steps, step => step == GiveUp(m)))
            && (m in s.queue <==> m in s.delivered && !Happened(steps, step => Removes(step, m)))
  {
    hide After, IsRun, Happened;
    WhereFrom(START, steps, m);
  }

  /** Messages with the same event identifier carry the same event. */
  ghost predicate IdsIdentify(delivered: set<Message>) {
    forall m, n :: m in delivered && n in delivered && m.body.Some? && n.body.Some? && m.body.value.id == n.body.value.id ==>
      m.body == n.body
  }

  /** Exactly once: when the queue has been drained and nothing was given up, the ledger's rows
      are the valid events that were delivered, one row for each identifier. */
  lemma {:induction false} DrainedIsExactlyOnce(steps: seq<Step>)
    requires IsRun(START, steps) && After(START, steps).queue == {} && After(START, steps).dead == {}
    ensures var s := After(START, steps);
            && OneRowPerId(s.rows)
            && (forall m :: m in s.delivered ==> Valid(m))
            && (forall id :: HasRow(s.rows, id) <==> exists m :: m in s.delivered && m.body.Some? && m.body.value.id == id)
            && (IdsIdentify(s.delivered) ==> forall m :: m in s.delivered ==> m.body.value in s.rows)
  {
    hide IsDownloadEvent, After;
    RunKeepsLedger(START, steps);
    var s := After(START, steps);
    forall id | HasRow(s.rows, id) ensures exists m :: m in s.delivered && m.body.Some? && m.body.value.id == id {
      var i :| 0 <= i < |s.rows| && s.rows[i].id == id;
      assert CameIn(s.delivered, s.rows[i]);
    }
    assert forall m :: m in s.delivered ==> Stored(s.rows, m);
    if IdsIdentify(s.delivered) {
      forall m | m in s.delivered ensures m.body.value in s.rows {
        var i :| 0 <= i < |s.rows| && s.rows[i].id == m.body.value.id;
        assert CameIn(s.delivered, s.rows[i]);
      }
    }
  }
}
