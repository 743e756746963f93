/** When a stored notification can be claimed, what each write leaves, and that the protocol's
    events, taken in a row, are one dispatch. */
module NotificationLaws {
  import opened Options
  import opened Notifications

  // ---------------------------------------------------------------- claiming

  /** A claim is granted exactly to a row with attempts left that is queued or failed and not
      to be tried later, or was taken longer ago than the stale time; it takes one attempt. */
  lemma ClaimExactly(c: Config, row: Row, now: int)
    ensures ClaimGranted(c, row, now)
       <==> && row.attempts < c.maxAttempts
            && (row.nextAttemptAt.Some? ==> row.nextAttemptAt.value <= now)
            && (row.status.Queued? || row.status.Failed? || (row.status.Processing? && row.updatedAt + 60 * c.staleMinutes < now))
    ensures ClaimGranted(c, row, now) ==>
              AfterClaim(c, row, now)
                == Row(Processing, row.attempts + 1, None, row.sentAt, row.lastError, now)
  {
  }

  /** A claim that is not granted changes a row only when it finds one that could be claimed
      but has no attempt left: a dead letter, which keeps the last error if there is one. */
  lemma ClaimBuriesExactly(c: Config, row: Row, now: int)
    ensures var could := && (row.nextAttemptAt.Some? ==> row.nextAttemptAt.value <= now)
                         && (row.status.Queued? || row.status.Failed?
                             || (row.status.Processing? && row.updatedAt + 60 * c.staleMinutes < now));
            !ClaimGranted(c, row, now) ==>
              AfterClaim(c, row, now)
                == if could && row.attempts >= c.maxAttempts
                   then Row(DeadLetter, row.attempts, row.nextAttemptAt, row.sentAt,
                            if row.lastError != "" then row.lastError else EXHAUSTED, now)
                   else row
  {
  }

  /** The minutes to wait after the first failure, the second, and so on. */
  const WAITS: seq<nat> := [1, 2, 4, 8, 16, 32, 60]

  lemma WaitsAreListed(attempt: nat)
    requires attempt >= 1
    ensures BackoffMinutes(attempt) == WAITS[if attempt >= 7 then 6 else attempt - 1]
  {
    assert Power2(0) == 1 && Power2(1) == 2 && Power2(2) == 4 && Power2(3) == 8;
    assert Power2(4) == 16 && Power2(5) == 32 && Power2(6) == 64;
    if attempt >= 7 {
      Power2Grows(6, attempt - 1);
    }
  }

  /** A failure with attempts left can be tried again exactly from the listed waiting time
      on; with none left the row is a dead letter and never claimed. */
  lemma FailureIsTriedAgainFrom(c: Config, row: Row, attempt: nat, error: string, at: int, now: int)
    requires attempt >= 1
    ensures var failed := AfterFailure(c, row, attempt, error, at);
            && failed == Row(if row.attempts < c.maxAttempts then Failed else DeadLetter, row.attempts, failed.nextAttemptAt,
                             row.sentAt, failed.lastError, at)
            && (ClaimGranted(c, failed, now)
                <==> row.attempts < c.maxAttempts && now >= at + 60 * WAITS[if attempt >= 7 then 6 else attempt - 1])
            && (row.attempts >= c.maxAttempts ==> failed.nextAttemptAt.None?)
            && failed.lastError <= error
            && |failed.lastError| == if |error| <= 2000 then |error| else 2000
  {
    WaitsAreListed(attempt);
  }

  /** A row that was taken is free again exactly when more than the stale time has passed. */
  lemma ClaimGoesStaleAfter(c: Config, row: Row, at: int, now: int)
    requires ClaimGranted(c, row, at)
    ensures ClaimGranted(c, AfterClaim(c, row, at), now)
       <==> row.attempts + 1 < c.maxAttempts && now > at + 60 * c.staleMinutes
  {
  }

  /** A sent or skipped row is never claimed; a retried one at once, as long as attempts are
      left; a retry that read SENT does nothing. */
  lemma OutcomesExactly(c: Config, row: Row, read: Status, at: int, now: int)
    ensures var sent, skipped, retried := AfterSent(row, at), AfterSkip(c, row, at), AfterRetry(row, read, at);
            && sent == Row(Sent, row.attempts, None, Some(at), "", at)
            && skipped == Row(Skipped, row.attempts, row.nextAttemptAt, row.sentAt,
                              if c.channel.InApp? then NO_PORTAL else NO_RECIPIENT, at)
            && !ClaimGranted(c, sent, now) && !ClaimGranted(c, skipped, now)
            && AfterClaim(c, sent, now) == sent && AfterClaim(c, skipped, now) == skipped
            && (read.Sent? ==> retried == row)
            && (!read.Sent? ==>
                  && retried == Row(Queued, row.attempts, None, row.sentAt, "", at)
                  && (ClaimGranted(c, retried, now) <==> row.attempts < c.maxAttempts))
  {
  }

  /** A new notification is claimed at its first claim when it may be tried at all. */
  lemma FreshIsClaimable(c: Config, now: int, later: int)
    ensures ClaimGranted(c, Fresh(now).row, later) <==> c.maxAttempts >= 1
  {
  }

  // ---------------------------------------------------------------- protocol and dispatch

  /** The row after one dispatch that nothing interrupts, started and ended at `now`. */
  function Dispatched(c: Config, row: Row, delivery: Delivery, now: int): Row {
    if !ClaimGranted(c, row, now) then AfterClaim(c, row, now)
    else
      var claimed := AfterClaim(c, row, now);
      if c.channel.InApp? || c.recipient == "" then AfterSkip(c, claimed, now)
      else match delivery
           case Accepted => AfterSent(claimed, now)
           case Raised(e) => AfterFailure(c, claimed, claimed.attempts, e, now)
  }

  /** The events of one worker from its claim to its outcome. */
  function EventsOf(c: Config, w: nat, delivery: Delivery): seq<Event> {
    if !c.Deliverable() then [Skip(w)]
    else if delivery.Accepted? then [Begin(w), Accept(w), WriteSent(w)]
    else [Begin(w), Reject(w), WriteFailure(w, delivery.error)]
  }

  lemma RunThree(c: Config, s: State, e1: Event, e2: Event, e3: Event)
    ensures Run(c, s, [e1, e2, e3]) == Next(c, Next(c, Next(c, s, e1), e2), e3)
  {
    RunFirst(c, s, [e1, e2, e3]);
    assert [e1, e2, e3][1..] == [e2, e3];
    RunTwo(c, Next(c, s, e1), e2, e3);
  }

  lemma WorkerEnds(c: Config, s: State, w: nat, delivery: Delivery)
    requires At(s, w, Claimed)
    ensures var t := Run(c, s, EventsOf(c, w, delivery));
            && |t.workers| == |s.workers| && At(t, w, Done) && t.now == s.now
            && t.row == if c.channel.InApp? || c.recipient == "" then AfterSkip(c, s.row, s.now)
                        else match delivery
                             case Accepted => AfterSent(s.row, s.now)
                             case Raised(e) => AfterFailure(c, s.row, w + 1, e, s.now)
  {
    if !c.Deliverable() {
      RunFirst(c, s, [Skip(w)]);
    } else if delivery.Accepted? {
      RunThree(c, s, Begin(w), Accept(w), WriteSent(w));
    } else {
      RunThree(c, s, Begin(w), Reject(w), WriteFailure(w, delivery.error));
    }
  }

  /** A claim followed by the events of its worker is one dispatch of the stored row, in
      every reachable state and whatever the send reports. */
  lemma EventsInARowAreOneDispatch(c: Config, s: State, delivery: Delivery)
    requires Bounded(c, s)
    ensures ClaimGranted(c, s.row, s.now) ==>
              Run(c, s, [Claim] + EventsOf(c, |s.workers|, delivery)).row == Dispatched(c, s.row, delivery, s.now)
    ensures !ClaimGranted(c, s.row, s.now) ==> Run(c, s, [Claim]).row == Dispatched(c, s.row, delivery, s.now)
  {
    var events := EventsOf(c, |s.workers|, delivery);
    RunFirst(c, s, [Claim]);
    RunFirst(c, s, [Claim] + events);
    assert ([Claim] + events)[1..] == events;
    if ClaimGranted(c, s.row, s.now) {
      WorkerEnds(c, Next(c, s, Claim), |s.workers|, delivery);
    }
  }
}
