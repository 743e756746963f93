/** Dispatch of parent notifications.  Several workers may handle one row: each claims it
    under a row lock, sends outside the lock and writes the outcome afterwards.  A row left
    in PROCESSING is claimed again once it is stale, failures back off, and a person may
    put a row back in the queue.  Time is in seconds. */
module Notifications {
  import opened Options

  datatype Status = Queued | Processing | Sent | Failed | DeadLetter | Skipped

  datatype Channel = InApp | Email | Sms | OtherChannel

  datatype Config = Config(maxAttempts: nat, staleMinutes: nat, channel: Channel, recipient: string) {
    function StaleAfter(): nat { staleMinutes * 60 }

    /** Neither of the two early exits that skip the send applies. */
    predicate Deliverable() { channel != InApp && recipient != "" }
  }

  const EXHAUSTED := "حداکثر تلاش ارسال انجام شد."
  const NO_PORTAL := "پرتال والدین در نسخه فعلی فعال نیست؛ کانال ایمیل یا پیامک انتخاب شود."
  const NO_RECIPIENT := "گیرنده برای کانال انتخاب‌شده ثبت نشده است."

  /** The columns of one notification that dispatch reads or writes. */
  datatype Row = Row(
    status: Status,
    attempts: nat,
    nextAttemptAt: Option<int>,
    sentAt: Option<int>,
    lastError: string,
    updatedAt: int)

  predicate Terminal(status: Status) {
    status == Sent || status == Skipped || status == DeadLetter
  }

  // ---------------------------------------------------------------- what one write does

  predicate ClaimRefused(c: Config, row: Row, now: int) {
    || Terminal(row.status)
    || (row.status == Processing && row.updatedAt >= now - c.StaleAfter())
    || (row.nextAttemptAt.Some? && row.nextAttemptAt.value > now)
  }

  predicate ClaimGranted(c: Config, row: Row, now: int) {
    !ClaimRefused(c, row, now) && row.attempts < c.maxAttempts
  }

  function AfterClaim(c: Config, row: Row, now: int): Row {
    if ClaimRefused(c, row, now) then row
    else if row.attempts >= c.maxAttempts then
      row.(status := DeadLetter,
           lastError := if row.lastError == "" then EXHAUSTED else row.lastError,
           updatedAt := now)
    else
      row.(status := Processing, attempts := row.attempts + 1, nextAttemptAt := None, updatedAt := now)
  }

  function Power2(n: nat): nat { if n == 0 then 1 else 2 * Power2(n - 1) }

  /** Minutes to wait after a failed attempt: 1, 2, 4, ... and never more than 60. */
  function BackoffMinutes(attempt: nat): nat {
    var doubled := Power2(if attempt >= 1 then attempt - 1 else 0);
    if doubled < 60 then doubled else 60
  }

  function AfterFailure(c: Config, row: Row, attempt: nat, error: string, now: int): Row {
    var dead := row.attempts >= c.maxAttempts;
    row.(status := if dead then DeadLetter else Failed,
         nextAttemptAt := if dead then None else Some(now + 60 * BackoffMinutes(attempt)),
         lastError := Prefix(error, 2000),
         updatedAt := now)
  }

  function Prefix(s: string, n: nat): string { if |s| <= n then s else s[..n] }

  function AfterSent(row: Row, now: int): Row {
    row.(status := Sent, sentAt := Some(now), nextAttemptAt := None, lastError := "", updatedAt := now)
  }

  function AfterSkip(c: Config, row: Row, now: int): Row {
    row.(status := Skipped,
         lastError := if c.channel == InApp then NO_PORTAL else NO_RECIPIENT,
         updatedAt := now)
  }

  function AfterRetry(row: Row, statusRead: Status, now: int): Row {
    if statusRead == Sent then row
    else row.(status := Queued, nextAttemptAt := None, lastError := "", updatedAt := now)
  }

  /** What a send reports; exceptions carry their text. */
  datatype Delivery = Accepted | Raised(error: string)

  /** The stored row and the functions that write it. */
  class ParentNotification {
    const config: Config
    var status: Status
    var attempts: nat
    var nextAttemptAt: Option<int>
    var sentAt: Option<int>
    var lastError: string
    var updatedAt: int

    constructor (config: Config, now: int)
      ensures this.config == config
      ensures Stored() == Row(Queued, 0, None, None, "", now)
    {
      this.config := config;
      status, attempts, nextAttemptAt := Queued, 0, None;
      sentAt, lastError, updatedAt := None, "", now;
    }

    function Stored(): Row
      reads this
    {
      Row(status, attempts, nextAttemptAt, sentAt, lastError, updatedAt)
    }

    method Claim(now: int) returns (claimed: bool)
      modifies this
      ensures claimed <==> ClaimGranted(config, old(Stored()), now)
      ensures Stored() == AfterClaim(config, old(Stored()), now)
    {
      if status == Sent || status == Skipped || status == DeadLetter {
        return false;
      }
      if status == Processing && updatedAt >= now - config.StaleAfter() {
        return false;
      }
      if nextAttemptAt.Some? && nextAttemptAt.value > now {
        return false;
      }
      if attempts >= config.maxAttempts {
        status := DeadLetter;
        if lastError == "" {
          lastError := EXHAUSTED;
        }
        updatedAt := now;
        return false;
      }
      status := Processing;
      attempts := attempts + 1;
      nextAttemptAt := None;
      updatedAt := now;
      return true;
    }

    /** The handler of a failed send; `attempt` is the counter of the claimed copy, the
        status is decided from the row as it is now. */
    method RecordFailure(attempt: nat, error: string, now: int)
      modifies this
      ensures Stored() == AfterFailure(config, old(Stored()), attempt, error, now)
    {
      var delayMinutes := BackoffMinutes(attempt);
      status := if attempts >= config.maxAttempts then DeadLetter else Failed;
      nextAttemptAt := if status == DeadLetter then None else Some(now + 60 * delayMinutes);
      lastError := Prefix(error, 2000);
      updatedAt := now;
    }

    method MarkSent(now: int)
      modifies this
      ensures Stored() == AfterSent(old(Stored()), now)
    {
      status := Sent;
      sentAt := Some(now);
      nextAttemptAt := None;
      lastError := "";
      updatedAt := now;
    }

    /** One dispatch that nothing interrupts: the claim and the outcome are two writes. */
    method Dispatch(claimTime: int, delivery: Delivery, outcomeTime: int)
      modifies this
      ensures !ClaimGranted(config, old(Stored()), claimTime)
          ==> Stored() == AfterClaim(config, old(Stored()), claimTime)
      ensures ClaimGranted(config, old(Stored()), claimTime)
          ==> var claimed := AfterClaim(config, old(Stored()), claimTime);
              Stored() == if !config.Deliverable() then AfterSkip(config, claimed, outcomeTime)
                          else match delivery
                               case Accepted => AfterSent(claimed, outcomeTime)
                               case Raised(e) => AfterFailure(config, claimed, claimed.attempts, e, outcomeTime)
    {
      var claimed := Claim(claimTime);
      if !claimed {
        return;
      }
      if config.channel == InApp {
        status := Skipped;
        lastError := NO_PORTAL;
        updatedAt := outcomeTime;
        return;
      }
      if config.recipient == "" {
        status := Skipped;
        lastError := NO_RECIPIENT;
        updatedAt := outcomeTime;
        return;
      }
      match delivery {
        case Accepted => MarkSent(outcomeTime);
        case Raised(error) => RecordFailure(attempts, error, outcomeTime);
      }
    }

    /** The manual retry: it reads the status first and writes without a lock. */
    method Retry(statusRead: Status, now: int)
      modifies this
      ensures Stored() == AfterRetry(old(Stored()), statusRead, now)
    {
      if statusRead == Sent {
        return;
      }
      status := Queued;
      nextAttemptAt := None;
      lastError := "";
      updatedAt := now;
    }
  }

  // ---------------------------------------------------------------- all interleavings

  /** Where the worker of one claim is.  `Errored` and `Delivered` still have to write. */
  datatype Phase = Claimed | Sending | Delivered | Errored | Done

  /** `started` and `delivered` record what its send did; they are never cleared. */
  datatype Worker = Worker(phase: Phase, claimedAt: int, started: bool, delivered: bool)

  /** Every successful claim has its own attempt number, so worker `i` holds attempt `i + 1`.
      `seen` holds the statuses read by retries that have not written yet. */
  datatype State = State(now: int, row: Row, workers: seq<Worker>, seen: map<nat, Status>)

  datatype Event =
    | Tick(to: int)
    | Claim
    | Skip(w: nat)
    | Begin(w: nat)
    | Accept(w: nat)
    | Reject(w: nat)
    | WriteSent(w: nat)
    | WriteFailure(w: nat, error: string)
    | Crash(w: nat)
    | RetryRead(user: nat)
    | RetryWrite(user: nat)

  predicate At(s: State, w: nat, phase: Phase) {
    w < |s.workers| && s.workers[w].phase == phase
  }

  function Move(s: State, w: nat, phase: Phase): State
    requires w < |s.workers|
  {
    s.(workers := s.workers[w := s.workers[w].(phase := phase)])
  }

  /** One event; an event that is not possible leaves the state as it is. */
  function Next(c: Config, s: State, e: Event): State {
    match e
    case Tick(to) => if to > s.now then s.(now := to) else s
    case Claim =>
      s.(row := AfterClaim(c, s.row, s.now),
         workers := if ClaimGranted(c, s.row, s.now)
                    then s.workers + [Worker(Claimed, s.now, false, false)] else s.workers)
    case Skip(w) =>
      if At(s, w, Claimed) && !c.Deliverable()
      then Move(s, w, Done).(row := AfterSkip(c, s.row, s.now)) else s
    case Begin(w) =>
      if At(s, w, Claimed) && c.Deliverable()
      then s.(workers := s.workers[w := s.workers[w].(phase := Sending, started := true)]) else s
    case Accept(w) =>
      if At(s, w, Sending)
      then s.(workers := s.workers[w := s.workers[w].(phase := Delivered, delivered := true)]) else s
    case Reject(w) => if At(s, w, Sending) then Move(s, w, Errored) else s
    case WriteSent(w) =>
      if At(s, w, Delivered) then Move(s, w, Done).(row := AfterSent(s.row, s.now)) else s
    case WriteFailure(w, error) =>
      if At(s, w, Errored)
      then Move(s, w, Done).(row := AfterFailure(c, s.row, w + 1, error, s.now)) else s
    case Crash(w) => if w < |s.workers| then Move(s, w, Done) else s
    case RetryRead(user) => s.(seen := s.seen[user := s.row.status])
    case RetryWrite(user) =>
      if user in s.seen
      then s.(row := AfterRetry(s.row, s.seen[user], s.now), seen := s.seen - {user}) else s
  }

  function Run(c: Config, s: State, events: seq<Event>): State
    decreases |events|
  {
    if events == [] then s else Run(c, Next(c, s, events[0]), events[1..])
  }

  function Fresh(now: int): State {
    State(now, Row(Queued, 0, None, None, "", now), [], map[])
  }

  function SendsStarted(workers: seq<Worker>): nat {
    if workers == [] then 0
    else SendsStarted(workers[..|workers| - 1]) + (if workers[|workers| - 1].started then 1 else 0)
  }

  lemma {:induction false} SendsAtMostClaims(workers: seq<Worker>)
    ensures SendsStarted(workers) <= |workers|
  {
    if workers != [] {
      SendsAtMostClaims(workers[..|workers| - 1]);
    }
  }

  /** Holds in every reachable state, whatever the timing. */
  predicate Bounded(c: Config, s: State) {
    && |s.workers| == s.row.attempts <= c.maxAttempts
    && (s.row.status == Failed ==> s.row.attempts < c.maxAttempts && s.row.nextAttemptAt.Some?)
    && (s.row.status == DeadLetter ==> s.row.attempts == c.maxAttempts)
  }

  lemma BoundedStep(c: Config, s: State, e: Event)
    requires Bounded(c, s)
    ensures Bounded(c, Next(c, s, e))
    ensures s.row.attempts <= Next(c, s, e).row.attempts
  {
  }

  /** In every interleaving of claims, stale reclaims, failures, crashes and retries: sends
      started never exceed the claims, nor the claims the limit; a failed row can be tried
      again and has a time for it; a dead letter has used every attempt. */
  lemma {:induction false} AttemptsBounded(c: Config, s: State, events: seq<Event>)
    requires Bounded(c, s)
    ensures var t := Run(c, s, events);
            && SendsStarted(t.workers) <= t.row.attempts <= c.maxAttempts
            && (t.row.status == Failed ==> t.row.attempts < c.maxAttempts && t.row.nextAttemptAt.Some?)
            && (t.row.status == DeadLetter ==> t.row.attempts == c.maxAttempts)
            && s.row.attempts <= t.row.attempts
    decreases |events|
  {
    if events == [] {
      SendsAtMostClaims(s.workers);
    } else {
      BoundedStep(c, s, events[0]);
      AttemptsBounded(c, Next(c, s, events[0]), events[1..]);
    }
  }

  /** The same for a notification from its creation on. */
  lemma FreshRunsAreBounded(c: Config, now: int, events: seq<Event>)
    ensures var t := Run(c, Fresh(now), events);
            && SendsStarted(t.workers) <= t.row.attempts <= c.maxAttempts
            && (t.row.status == Failed ==> t.row.attempts < c.maxAttempts && t.row.nextAttemptAt.Some?)
            && (t.row.status == DeadLetter ==> t.row.attempts == c.maxAttempts)
  {
    AttemptsBounded(c, Fresh(now), events);
  }

  // ---------------------------------------------------------------- timely runs

  /** The timing hypothesis.  No worker is still busy when its claim becomes stale, a worker
      whose send was accepted does not crash before it writes, and a retry that writes finds
      the row neither PROCESSING nor SENT. */
  predicate Timely(c: Config, s: State, e: Event) {
    match e
    case Tick(to) =>
      forall w :: 0 <= w < |s.workers| && s.workers[w].phase != Done
              ==> to <= s.workers[w].claimedAt + c.StaleAfter()
    case Crash(w) => !At(s, w, Delivered)
    case RetryWrite(user) =>
      user in s.seen && s.seen[user] != Sent ==> s.row.status != Processing && s.row.status != Sent
    case _ => true
  }

  predicate TimelyRun(c: Config, s: State, events: seq<Event>)
    decreases |events|
  {
    events == [] || (Timely(c, s, events[0]) && TimelyRun(c, Next(c, s, events[0]), events[1..]))
  }

  /** Only the latest worker can be busy or have delivered.  If it is busy the row is
      PROCESSING under its claim; if it delivered, the row is SENT or about to be. */
  predicate Exclusive(c: Config, s: State) {
    && (forall w :: 0 <= w < |s.workers| - 1 ==> s.workers[w].phase == Done && !s.workers[w].delivered)
    && (s.workers != [] ==>
          var last := s.workers[|s.workers| - 1];
          && (last.phase != Done ==>
                && s.row.status == Processing
                && s.row.updatedAt == last.claimedAt
                && s.now <= last.claimedAt + c.StaleAfter())
          && (last.delivered <==> last.phase == Delivered || s.row.status == Sent))
    && (s.workers == [] ==> s.row.status != Sent)
  }

  lemma ExclusiveStep(c: Config, s: State, e: Event)
    requires Exclusive(c, s) && Timely(c, s, e)
    ensures Exclusive(c, Next(c, s, e))
    ensures s.row.status == Sent ==> Next(c, s, e).row.status == Sent
    ensures s.row.status == Sent ==> Next(c, s, e).row.sentAt == s.row.sentAt
  {
    if e.Claim? {
      ExclusiveClaim(c, s);
    } else if e.Tick? || e.RetryRead? || e.RetryWrite? {
      ExclusiveOutside(c, s, e);
    } else {
      ExclusiveWork(c, s, e);
    }
  }

  lemma ExclusiveClaim(c: Config, s: State)
    requires Exclusive(c, s) && Timely(c, s, Claim)
    ensures Exclusive(c, Next(c, s, Claim))
    ensures s.row.status == Sent ==> Next(c, s, Claim).row == s.row
  {
  }

  lemma ExclusiveOutside(c: Config, s: State, e: Event)
    requires Exclusive(c, s) && Timely(c, s, e) && (e.Tick? || e.RetryRead? || e.RetryWrite?)
    ensures Exclusive(c, Next(c, s, e))
    ensures s.row.status == Sent ==> Next(c, s, e).row.status == Sent && Next(c, s, e).row.sentAt == s.row.sentAt
  {
  }

  lemma ExclusiveWork(c: Config, s: State, e: Event)
    requires Exclusive(c, s) && Timely(c, s, e) && !e.Claim? && !e.Tick? && !e.RetryRead? && !e.RetryWrite?
    ensures Exclusive(c, Next(c, s, e))
    ensures s.row.status == Sent ==> Next(c, s, e).row == s.row
  {
  }

  /** In every timely interleaving at most one worker is busy, at most one send is accepted,
      and a row that is SENT stays SENT with its time. */
  lemma {:induction false} AtMostOneDelivery(c: Config, s: State, events: seq<Event>)
    requires Exclusive(c, s) && TimelyRun(c, s, events)
    ensures Exclusive(c, Run(c, s, events))
    ensures s.row.status == Sent
        ==> Run(c, s, events).row.status == Sent && Run(c, s, events).row.sentAt == s.row.sentAt
    decreases |events|
  {
    if events != [] {
      ExclusiveStep(c, s, events[0]);
      AtMostOneDelivery(c, Next(c, s, events[0]), events[1..]);
    }
  }

  predicate AtMostOne(workers: seq<Worker>, p: Worker -> bool) {
    forall v, w :: 0 <= v < |workers| && 0 <= w < |workers| && p(workers[v]) && p(workers[w]) ==> v == w
  }

  /** The same for a notification from its creation on, with the state at any earlier
      moment of the run for comparison. */
  lemma TimelyDispatch(c: Config, now: int, before: seq<Event>, after: seq<Event>)
    requires TimelyRun(c, Fresh(now), before) && TimelyRun(c, Run(c, Fresh(now), before), after)
    ensures var s := Run(c, Fresh(now), before);
            var t := Run(c, s, after);
            && AtMostOne(t.workers, (w: Worker) => w.phase != Done)
            && AtMostOne(t.workers, (w: Worker) => w.delivered)
            && (s.row.status == Sent ==> t.row.status == Sent && t.row.sentAt == s.row.sentAt)
  {
    AtMostOneDelivery(c, Fresh(now), before);
    AtMostOneDelivery(c, Run(c, Fresh(now), before), after);
  }

  // ---------------------------------------------------------------- without the hypothesis

  /** SENT is not absorbing in general: exactly three writes take a row out of it. */
  lemma SentIsLeftBy(c: Config, s: State, e: Event)
    requires s.row.status == Sent
    ensures Next(c, s, e).row.status != Sent <==>
            || (e.WriteFailure? && At(s, e.w, Errored))
            || (e.Skip? && At(s, e.w, Claimed) && !c.Deliverable())
            || (e.RetryWrite? && e.user in s.seen && s.seen[e.user] != Sent)
  {
  }

  lemma RunFirst(c: Config, s: State, events: seq<Event>)
    requires events != []
    ensures Run(c, s, events) == Run(c, Next(c, s, events[0]), events[1..])
  {
  }

  lemma RunTwo(c: Config, s: State, e1: Event, e2: Event)
    ensures Run(c, s, [e1, e2]) == Next(c, Next(c, s, e1), e2)
  {
    RunFirst(c, s, [e1, e2]);
    assert [e1, e2][1..] == [e2];
    RunFirst(c, Next(c, s, e1), [e2]);
  }

  lemma RunAppend(c: Config, s: State, events: seq<Event>, more: seq<Event>)
    ensures Run(c, s, events + more) == Run(c, Run(c, s, events), more)
    decreases |events|
  {
    if events == [] {
      assert events + more == more;
    } else {
      assert (events + more)[1..] == events[1..] + more;
      RunAppend(c, Next(c, s, events[0]), events[1..], more);
    }
  }

  /** Two more events after a run that leads to `t`. */
  lemma RunTwoMore(c: Config, s: State, events: seq<Event>, t: State, e1: Event, e2: Event)
    requires Run(c, s, events) == t
    ensures Run(c, s, events + [e1, e2]) == Next(c, Next(c, t, e1), e2)
  {
    RunAppend(c, s, events, [e1, e2]);
    RunTwo(c, t, e1, e2);
  }

  /** The row of a new notification after its first claim at time 0. */
  const CLAIMED_ROW := Row(Processing, 1, None, None, "", 0)

  lemma FirstSendBegins(c: Config)
    requires c.Deliverable() && c.maxAttempts >= 1
    ensures Run(c, Fresh(0), [Claim, Begin(0)]) == State(0, CLAIMED_ROW, [Worker(Sending, 0, true, false)], map[])
  {
    RunTwo(c, Fresh(0), Claim, Begin(0));
  }

  /** A second worker takes over the row when it is stale. */
  lemma RowIsReclaimed(c: Config) returns (events: seq<Event>)
    requires c.Deliverable() && c.maxAttempts > 1
    ensures var late := c.StaleAfter() + 1;
            Run(c, Fresh(0), events)
              == State(late, Row(Processing, 2, None, None, "", late),
                       [Worker(Sending, 0, true, false), Worker(Claimed, late, false, false)], map[])
  {
    var late := c.StaleAfter() + 1;
    var s := State(0, CLAIMED_ROW, [Worker(Sending, 0, true, false)], map[]);
    FirstSendBegins(c);
    RunTwoMore(c, Fresh(0), [Claim, Begin(0)], s, Tick(late), Claim);
    assert Next(c, s, Tick(late)) == s.(now := late);
    events := [Claim, Begin(0)] + [Tick(late), Claim];
  }

  /** The events that let a second worker deliver while the first is still sending. */
  lemma OvertakenSend(c: Config) returns (events: seq<Event>)
    requires c.Deliverable() && c.maxAttempts > 2
    ensures var s := Run(c, Fresh(0), events);
            && s.row.status == Sent && s.row.attempts == |s.workers| == 2 && s.workers[0].phase == Sending
  {
    var late := c.StaleAfter() + 1;
    events := RowIsReclaimed(c);
    var s := Run(c, Fresh(0), events);
    RunTwoMore(c, Fresh(0), events, s, Begin(1), Accept(1));
    events := events + [Begin(1), Accept(1)];
    var t := s.(workers := [Worker(Sending, 0, true, false), Worker(Delivered, late, true, true)]);
    assert Run(c, Fresh(0), events) == t;
    RunTwoMore(c, Fresh(0), events, t, WriteSent(1), Tick(0));
    events := events + [WriteSent(1), Tick(0)];
  }

  /** Without timeliness the claim fails: a worker whose claim went stale fails late, and
      the notification that a second worker delivered ends as FAILED. */
  lemma LateFailureOverwritesSent(c: Config)
    requires c.Deliverable() && c.maxAttempts > 2
    ensures exists before, after ::
              && Run(c, Fresh(0), before).row.status == Sent
              && Run(c, Run(c, Fresh(0), before), after).row.status == Failed
  {
    var before := OvertakenSend(c);
    RunTwo(c, Run(c, Fresh(0), before), Reject(0), WriteFailure(0, ""));
    assert Run(c, Run(c, Fresh(0), before), [Reject(0), WriteFailure(0, "")]).row.status == Failed;
  }

  /** A retry puts the row back in the queue while its worker is still sending. */
  lemma RetryDuringSend(c: Config) returns (events: seq<Event>)
    requires c.Deliverable() && c.maxAttempts > 1
    ensures Run(c, Fresh(0), events) == State(0, CLAIMED_ROW.(status := Queued), [Worker(Sending, 0, true, false)], map[])
  {
    var s := State(0, CLAIMED_ROW, [Worker(Sending, 0, true, false)], map[]);
    FirstSendBegins(c);
    RunTwoMore(c, Fresh(0), [Claim, Begin(0)], s, RetryRead(0), RetryWrite(0));
    assert Next(c, s, RetryRead(0)) == s.(seen := map[0 := Processing]);
    assert map[0 := Processing] - {0} == map[];
    events := [Claim, Begin(0)] + [RetryRead(0), RetryWrite(0)];
  }

  /** And a retry of a PROCESSING row lets two sends of one notification be accepted. */
  lemma RetryDuringSendDeliversTwice(c: Config)
    requires c.Deliverable() && c.maxAttempts > 1
    ensures exists events ::
              var t := Run(c, Fresh(0), events);
              |t.workers| == 2 && t.workers[0].delivered && t.workers[1].delivered
  {
    var events := RetryDuringSend(c);
    var s := Run(c, Fresh(0), events);
    RunTwoMore(c, Fresh(0), events, s, Claim, Begin(1));
    events := events + [Claim, Begin(1)];
    var t := State(0, Row(Processing, 2, None, None, "", 0), [Worker(Sending, 0, true, false), Worker(Sending, 0, true, false)], map[]);
    assert Run(c, Fresh(0), events) == t;
    RunTwoMore(c, Fresh(0), events, t, Accept(0), Accept(1));
    var u := Run(c, Fresh(0), events + [Accept(0), Accept(1)]);
    assert |u.workers| == 2 && u.workers[0].delivered && u.workers[1].delivered;
  }

  lemma SendAfterRetryRead(c: Config) returns (events: seq<Event>)
    requires c.Deliverable() && c.maxAttempts >= 1
    ensures Run(c, Fresh(0), events) == State(0, CLAIMED_ROW, [Worker(Sending, 0, true, false)], map[0 := Queued])
  {
    var s := State(0, CLAIMED_ROW, [Worker(Claimed, 0, false, false)], map[0 := Queued]);
    RunTwo(c, Fresh(0), RetryRead(0), Claim);
    assert Run(c, Fresh(0), [RetryRead(0), Claim]) == s;
    RunTwoMore(c, Fresh(0), [RetryRead(0), Claim], s, Begin(0), Tick(0));
    events := [RetryRead(0), Claim] + [Begin(0), Tick(0)];
  }

  /** Every outcome is written in time and no retry meets a PROCESSING row when it writes,
      yet SENT is left: the retry read the status before the row was claimed.  Hence the
      last condition of `Timely`. */
  lemma RetryReadBeforeClaimUndoesSent(c: Config) returns (before: seq<Event>)
    requires c.Deliverable() && c.maxAttempts >= 1
    ensures var s := Run(c, Fresh(0), before);
            && s.row.status == Sent && s.now == 0 && |s.workers| == 1 && s.workers[0].phase == Done
            && Run(c, s, [RetryWrite(0)]).row.status == Queued
  {
    before := SendAfterRetryRead(c);
    var s := Run(c, Fresh(0), before);
    RunTwoMore(c, Fresh(0), before, s, Accept(0), WriteSent(0));
    before := before + [Accept(0), WriteSent(0)];
    RunFirst(c, Run(c, Fresh(0), before), [RetryWrite(0)]);
  }

  // ---------------------------------------------------------------- when runs go wrong, exactly

  /** No worker will write anything but success, and no retry holds an earlier status. */
  predicate Settled(s: State) {
    && s.row.status == Sent
    && (forall w :: 0 <= w < |s.workers| ==> s.workers[w].phase == Done || s.workers[w].phase == Delivered)
    && (forall user :: user in s.seen ==> s.seen[user] == Sent)
  }

  lemma SettledStep(c: Config, s: State, e: Event)
    requires Settled(s)
    ensures Settled(Next(c, s, e))
  {
  }

  lemma {:induction false} SettledRun(c: Config, s: State, events: seq<Event>)
    requires Settled(s)
    ensures Settled(Run(c, s, events))
    decreases |events|
  {
    if events != [] {
      SettledStep(c, s, events[0]);
      SettledRun(c, Next(c, s, events[0]), events[1..]);
    }
  }

  /** The events by which a worker that may still fail takes the row out of SENT. */
  function FailingEvents(c: Config, s: State, w: nat): seq<Event>
    requires w < |s.workers|
  {
    match s.workers[w].phase
    case Claimed => if c.Deliverable() then [Begin(w), Reject(w), WriteFailure(w, "")] else [Skip(w)]
    case Sending => [Reject(w), WriteFailure(w, "")]
    case _ => [WriteFailure(w, "")]
  }

  lemma ErroredWorkerLeaves(c: Config, s: State, w: nat)
    requires At(s, w, Errored)
    ensures Run(c, s, [WriteFailure(w, "")]).row.status != Sent
  {
    RunFirst(c, s, [WriteFailure(w, "")]);
  }

  lemma SendingWorkerLeaves(c: Config, s: State, w: nat)
    requires At(s, w, Sending)
    ensures Run(c, s, [Reject(w), WriteFailure(w, "")]).row.status != Sent
  {
    RunTwo(c, s, Reject(w), WriteFailure(w, ""));
  }

  lemma ClaimedWorkerLeaves(c: Config, s: State, w: nat)
    requires At(s, w, Claimed)
    ensures Run(c, s, FailingEvents(c, s, w)).row.status != Sent
  {
    RunFirst(c, s, FailingEvents(c, s, w));
    if c.Deliverable() {
      assert FailingEvents(c, s, w)[1..] == [Reject(w), WriteFailure(w, "")];
      SendingWorkerLeaves(c, Next(c, s, Begin(w)), w);
    }
  }

  /** A worker that is neither done nor about to write its success can fail. */
  lemma BusyWorkerLeaves(c: Config, s: State, w: nat)
    requires w < |s.workers| && s.workers[w].phase != Done && s.workers[w].phase != Delivered
    ensures Run(c, s, FailingEvents(c, s, w)).row.status != Sent
  {
    match s.workers[w].phase {
      case Claimed => ClaimedWorkerLeaves(c, s, w);
      case Sending => SendingWorkerLeaves(c, s, w);
      case Errored => ErroredWorkerLeaves(c, s, w);
      case _ =>
    }
  }

  /** A sent row stays SENT in every continuation exactly when every worker is done or about
      to write its success and every status that a retry has read is SENT. */
  lemma SentIsKeptExactly(c: Config, s: State)
    requires s.row.status == Sent
    ensures (forall events :: Run(c, s, events).row.status == Sent) <==> Settled(s)
  {
    if Settled(s) {
      forall events ensures Run(c, s, events).row.status == Sent {
        SettledRun(c, s, events);
      }
    } else if w :| 0 <= w < |s.workers| && s.workers[w].phase != Done && s.workers[w].phase != Delivered {
      BusyWorkerLeaves(c, s, w);
    } else {
      var user :| user in s.seen && s.seen[user] != Sent;
      RunFirst(c, s, [RetryWrite(user)]);
      assert Run(c, s, [RetryWrite(user)]).row.status == Queued;
    }
  }

  /** Without a deliverable channel nothing is sent, and without a claim nothing is SENT. */
  predicate OnlyDeliverableSends(c: Config, s: State) {
    && (!c.Deliverable() ==>
          s.row.status != Sent
          && forall w :: 0 <= w < |s.workers| ==> !s.workers[w].delivered && (s.workers[w].phase == Claimed || s.workers[w].phase == Done))
    && (s.workers == [] ==> s.row.status != Sent)
  }

  lemma OnlyDeliverableSendsStep(c: Config, s: State, e: Event)
    requires OnlyDeliverableSends(c, s)
    ensures OnlyDeliverableSends(c, Next(c, s, e))
  {
  }

  lemma {:induction false} OnlyDeliverableSendsRun(c: Config, s: State, events: seq<Event>)
    requires OnlyDeliverableSends(c, s)
    ensures OnlyDeliverableSends(c, Run(c, s, events))
    decreases |events|
  {
    if events != [] {
      OnlyDeliverableSendsStep(c, s, events[0]);
      OnlyDeliverableSendsRun(c, Next(c, s, events[0]), events[1..]);
    }
  }

  lemma {:induction false} ClaimsAreBounded(c: Config, s: State, events: seq<Event>)
    requires Bounded(c, s)
    ensures Bounded(c, Run(c, s, events))
    decreases |events|
  {
    if events != [] {
      BoundedStep(c, s, events[0]);
      ClaimsAreBounded(c, Next(c, s, events[0]), events[1..]);
    }
  }

  ghost predicate DeliversTwice(c: Config, events: seq<Event>) {
    var t := Run(c, Fresh(0), events);
    exists v, w :: 0 <= v < w < |t.workers| && t.workers[v].delivered && t.workers[w].delivered
  }

  /** Two sends of one notification can be accepted exactly when something can be sent at
      all and two attempts are allowed. */
  lemma DeliversTwiceExactly(c: Config)
    ensures (exists events :: DeliversTwice(c, events)) <==> c.Deliverable() && c.maxAttempts >= 2
  {
    if events :| DeliversTwice(c, events) {
      OnlyDeliverableSendsRun(c, Fresh(0), events);
      ClaimsAreBounded(c, Fresh(0), events);
    }
    if c.Deliverable() && c.maxAttempts >= 2 {
      RetryDuringSendDeliversTwice(c);
      var events :| var t := Run(c, Fresh(0), events);
                    |t.workers| == 2 && t.workers[0].delivered && t.workers[1].delivered;
      assert DeliversTwice(c, events);
    }
  }

  ghost predicate LeavesSent(c: Config, before: seq<Event>, after: seq<Event>) {
    Run(c, Fresh(0), before).row.status == Sent && Run(c, Run(c, Fresh(0), before), after).row.status != Sent
  }

  /** SENT can be left exactly when something can be sent at all. */
  lemma LeavesSentExactly(c: Config)
    ensures (exists before, after :: LeavesSent(c, before, after)) <==> c.Deliverable() && c.maxAttempts >= 1
  {
    if before, after :| LeavesSent(c, before, after) {
      OnlyDeliverableSendsRun(c, Fresh(0), before);
      ClaimsAreBounded(c, Fresh(0), before);
    }
    if c.Deliverable() && c.maxAttempts >= 1 {
      var before := RetryReadBeforeClaimUndoesSent(c);
      assert LeavesSent(c, before, [RetryWrite(0)]);
    }
  }

  // ---------------------------------------------------------------- backoff and exhaustion

  /** While a failed row waits and nobody retries it, no event claims it. */
  predicate Waiting(s: State, until: int) {
    && s.row.status == Failed && s.row.nextAttemptAt == Some(until) && s.now < until
    && s.seen == map[]
    && (forall w :: 0 <= w < |s.workers| ==> s.workers[w].phase == Done)
  }

  predicate Patient(e: Event, until: int) {
    !e.RetryRead? && (e.Tick? ==> e.to < until)
  }

  lemma {:induction false} BackoffIsKept(c: Config, s: State, until: int, events: seq<Event>)
    requires Waiting(s, until)
    requires forall i :: 0 <= i < |events| ==> Patient(events[i], until)
    ensures Run(c, s, events).row == s.row
    decreases |events|
  {
    if events != [] {
      assert Patient(events[0], until);
      BackoffIsKept(c, Next(c, s, events[0]), until, events[1..]);
    }
  }

  /** A failure written for attempt `attempt` waits 1, 2, 4, ..., 32 and then 60 minutes. */
  lemma {:induction false} BackoffDoublesUpToAnHour(attempt: nat)
    requires attempt >= 1
    ensures BackoffMinutes(1) == 1
    ensures BackoffMinutes(attempt) <= BackoffMinutes(attempt + 1) <= 60
    ensures BackoffMinutes(attempt + 1) == 2 * BackoffMinutes(attempt) || BackoffMinutes(attempt + 1) == 60
    ensures attempt >= 7 ==> BackoffMinutes(attempt) == 60
  {
    assert Power2(6) == 64;
    if attempt >= 7 {
      Power2Grows(6, attempt - 1);
    }
  }

  lemma {:induction false} Power2Grows(a: nat, b: nat)
    requires a <= b
    ensures Power2(a) <= Power2(b)
    decreases b
  {
    if a < b {
      Power2Grows(a, b - 1);
    }
  }

  /** Once every attempt is used no further claim is granted, retried or not. */
  lemma {:induction false} ExhaustedNeverClaims(c: Config, s: State, events: seq<Event>)
    requires Bounded(c, s) && s.row.attempts == c.maxAttempts
    ensures |Run(c, s, events).workers| == |s.workers|
    ensures Run(c, s, events).row.attempts == c.maxAttempts
    decreases |events|
  {
    if events != [] {
      BoundedStep(c, s, events[0]);
      ExhaustedNeverClaims(c, Next(c, s, events[0]), events[1..]);
    }
  }
}
