/** The timers of one DHCP client in time: pending timers fire in the order of their deadlines, and messages, link
    associations and timeouts interleave as they like. */
module DhcpTimers {
  import opened Options
  import opened DhcpMessages
  import opened DhcpServerModel
  import opened DhcpClientModel

  /** An ACK confirms an address, and its times are in order. */
  predicate Timely(m: Msg) {
    m.kind == Ack ==> m.yiaddr != 0 && 0.0 < m.renewalTime < m.rebindTime < m.leaseTime
  }

  /** The server's acknowledgements are like that if its lease time is positive, and only then. */
  lemma ServerIsTimely(cfg: Config, lease: Lease)
    requires lease.ip != 0
    ensures Timely(AckFor(cfg, lease)) <==> cfg.leaseTime > 0.0
  {
  }

  predicate Offers(m: Msg) {
    m.kind == Offer ==> m.yiaddr != 0
  }

  // ---------- Lives ----------

  /** What can happen to a client and its node. */
  datatype Happening =
    | Received(m: Msg, xid: nat)
    | Strayed
    | Expired(timer: Timer, xid: nat)
    | Linked(xid: nat)
    | Deleted
    | Started
    | Halted
    | Deconfigured

  predicate Before(now: real, deadline: Option<real>) {
    deadline.Some? ==> now <= deadline.value
  }

  /** No deadline has passed. */
  predicate NoneOverdue(c: Client, now: real) {
    Before(now, c.start) && Before(now, c.to) && Before(now, c.t1) && Before(now, c.t2) && Before(now, c.leaseEnd)
  }

  /** What may happen at time now. Packets reach a client only through a socket that is open. */
  predicate CanHappen(c: Client, h: Happening, now: real) {
    && NoneOverdue(c, now)
    && match h
       case Received(m, _) => c.socket && Timely(m) && Offers(m)
       case Strayed => c.socket
       case Expired(timer, _) => c.up && TimerOf(c, timer) == Some(now)
       case Linked(_) => true
       case Deleted => true
       case Started => !c.up
       case Halted => c.up
       case Deconfigured => !c.up
  }

  function After(startTime: real, c: Client, h: Happening, now: real): Outcome {
    match h
    case Received(m, xid) => OnArrival(c, Packet(m), now, xid)
    case Strayed => OnArrival(c, OtherPacket, now, c.xid)
    case Expired(timer, xid) => OnArrival(c, SelfMessage(timer), now, xid)
    case Linked(xid) => OnNotice(c, LinkAssociated(true), now, xid)
    case Deleted => OnNotice(c, InterfaceDeleted, now, c.xid)
    case Started => OnStart(c, startTime, now)
    case Halted => Done(Stopped(c), None)
    case Deconfigured => Done(c.(addr := 0), None)
  }

  predicate Step(startTime: real, c: Client, h: Happening, now: real, c': Client) {
    && CanHappen(c, h, now)
    && var o := After(startTime, c, h, now);
       o.Done? && o.c == c'
  }

  /** The life of a client from its initialization on, starts, stops and crashes included: cs[i] is its state after i
      happenings, and hs[i] happens at ts[i]. startTime is configured. */
  predicate Life(startTime: real, cs: seq<Client>, hs: seq<Happening>, ts: seq<real>) {
    && |cs| == |hs| + 1 == |ts| + 1
    && cs[0] == Initialized(cs[0].mac, cs[0].up, startTime)
    && (forall i, j | 0 <= i < j < |ts| :: ts[i] <= ts[j])
    && forall i | 0 <= i < |hs| :: Step(startTime, cs[i], hs[i], ts[i], cs[i + 1])
  }

  // ---------- The discipline ----------

  predicate NoLeaseTimers(c: Client) {
    c.t1.None? && c.t2.None? && c.leaseEnd.None?
  }

  /** T1, T2 and the lease's end are pending and will come in that order. */
  predicate LeaseTimers(c: Client) {
    c.t1.Some? && c.t2.Some? && c.leaseEnd.Some? && c.t1.value < c.t2.value < c.leaseEnd.value
  }

  predicate OnlyTo(c: Client, kind: Wait) {
    c.to.Some? && c.toKind == kind && NoLeaseTimers(c)
  }

  /** Which timers are pending in which state. */
  predicate Disciplined(c: Client) {
    && c.socket && c.start.None?
    && match c.state
       case Selecting => OnlyTo(c, WaitOffer)
       case Requesting | Rebooting | Rebinding => OnlyTo(c, WaitAck)
       case Bound => c.to.None? && LeaseTimers(c)
       case Renewing =>
         && c.to.Some? && c.toKind == WaitAck && c.t1.None? && c.t2.Some? && c.leaseEnd.Some?
         && c.t2.value < c.leaseEnd.value
       case _ => false
  }

  /** A restart in the very moment in which an ACK of before the stop came in: the client asks for its address again
      while the timers of its lease are pending. */
  predicate Overlapping(c: Client) {
    c.socket && c.start.None? && c.state == Rebooting && c.to.Some? && c.toKind == WaitAck && LeaseTimers(c)
  }

  /** Between a restart and its start timer, which is due at once: whatever else is pending is due later. */
  predicate Restarting(c: Client, now: real) {
    && c.start.Some? && c.start.value <= now
    && (c.to.Some? ==> c.start.value < c.to.value)
    && (NoLeaseTimers(c) || (c.state == Bound && LeaseTimers(c) && c.start.value < c.t1.value))
  }

  /** A client that has never started DHCP. */
  predicate Unstarted(c: Client) {
    c.state == Idle && c.lease.None? && c.to.None? && NoLeaseTimers(c)
  }

  predicate LeaseKnown(c: Client) {
    && (AwaitsAck(c.state) || c.state == Bound ==> c.lease.Some?)
    && (c.lease.Some? ==> c.lease.value.ip != 0)
    && c.state != Idle && c.state != Init && c.state != InitReboot
  }

  /** What holds after every happening of a life. */
  predicate Orderly(startTime: real, c: Client, now: real) {
    && (if c.socket then startTime <= now && LeaseKnown(c) else Unstarted(c))
    && if !c.up then c.start.None? && c.to.None? && NoLeaseTimers(c)
       else if c.start.None? then Disciplined(c) || Overlapping(c)
       else if c.socket then Restarting(c, now)
       else startTime <= c.start.value
  }

  /** A client fails when, while its node is up, a packet comes in that is no DHCP message, an interface is deleted, or
      a link is associated before DHCP has started for the first time, and when it is started on an interface that has
      an address. */
  predicate Fails(c: Client, h: Happening) {
    (c.up && (h.Strayed? || h.Deleted? || (h.Linked? && !c.socket))) || (h.Started? && c.addr != 0)
  }

  lemma DisciplineIsKept(startTime: real, c: Client, h: Happening, now: real)
    requires Disciplined(c) && LeaseKnown(c) && c.up && CanHappen(c, h, now) && !h.Halted? && !Fails(c, h)
    ensures var o := After(startTime, c, h, now); o.Done? && Disciplined(o.c) && LeaseKnown(o.c) && o.c.up
    ensures h.Expired? ==> h.timer != LeaseTimer && (h.timer == T2Timer ==> c.state == Renewing)
  {
    hide RequestFrom;
  }

  /** An overlapping restart ends in the discipline: T1 comes first, if nothing comes before it. */
  lemma OverlapEnds(startTime: real, c: Client, h: Happening, now: real)
    requires Overlapping(c) && LeaseKnown(c) && c.up && CanHappen(c, h, now) && !h.Halted? && !Fails(c, h)
    ensures var o := After(startTime, c, h, now);
            o.Done? && (Overlapping(o.c) || Disciplined(o.c)) && LeaseKnown(o.c) && o.c.up
    ensures h.Expired? ==> h.timer != LeaseTimer && h.timer != T2Timer
  {
  }

  /** Nothing but the start can end the wait for it. */
  lemma RestartWaits(startTime: real, c: Client, h: Happening, last: real, now: real)
    requires c.up && c.socket && LeaseKnown(c) && Restarting(c, last) && last <= now
    requires CanHappen(c, h, now) && !h.Halted? && !Fails(c, h) && (h.Expired? ==> h.timer != StartTimer)
    ensures var o := After(startTime, c, h, now);
            o.Done? && o.c.up && o.c.socket && LeaseKnown(o.c) && Restarting(o.c, now)
    ensures !h.Expired?
  {
    hide OnTimer, RequestFrom;
  }

  lemma RestartEnds(startTime: real, c: Client, now: real, xid: nat)
    requires c.up && c.socket && LeaseKnown(c) && c.start.Some? && (NoLeaseTimers(c) || LeaseTimers(c))
    ensures var o := After(startTime, c, Expired(StartTimer, xid), now);
            && o.Done? && o.c.up && o.c.socket && LeaseKnown(o.c) && o.c.start.None?
            && (Disciplined(o.c) || Overlapping(o.c))
  {
  }

  /** One happening of a life. */
  lemma StepIsOrderly(startTime: real, c: Client, h: Happening, last: real, now: real)
    requires Orderly(startTime, c, last) && last <= now && CanHappen(c, h, now)
    ensures var o := After(startTime, c, h, now);
            && (o.Failed? <==> Fails(c, h))
            && (o.Done? ==> Orderly(startTime, o.c, now))
    ensures h.Expired? ==> h.timer != LeaseTimer && (h.timer == T2Timer ==> c.state == Renewing)
  {
    hide After, Disciplined, Overlapping, Restarting;
    if c.up && (h.Strayed? || h.Deleted?) {
      Stops(startTime, c, h, now);
    } else if c.up && c.start.None? && !h.Halted? {
      StartIsOver(startTime, c, h, now);
      if Disciplined(c) {
        DisciplineIsKept(startTime, c, h, now);
      } else {
        OverlapEnds(startTime, c, h, now);
      }
    } else if c.up && c.socket && !h.Halted? {
      RestartOrWait(startTime, c, h, last, now);
    } else {
      StartsAndStops(startTime, c, h, last, now);
    }
  }

  lemma Stops(startTime: real, c: Client, h: Happening, now: real)
    requires c.up && (h.Strayed? || h.Deleted?)
    ensures After(startTime, c, h, now).Failed? && Fails(c, h)
  {
  }

  lemma RestartOrWait(startTime: real, c: Client, h: Happening, last: real, now: real)
    requires c.up && c.socket && LeaseKnown(c) && Restarting(c, last) && startTime <= last <= now
    requires CanHappen(c, h, now) && !h.Halted? && !Fails(c, h)
    ensures var o := After(startTime, c, h, now); o.Done? && Orderly(startTime, o.c, now)
    ensures h.Expired? ==> h.timer == StartTimer
  {
    hide After, Disciplined, Overlapping, LeaseTimers, NoLeaseTimers, LeaseKnown;
    if h.Expired? && h.timer == StartTimer {
      RestartEnds(startTime, c, now, h.xid);
    } else {
      RestartWaits(startTime, c, h, last, now);
    }
  }

  lemma StartIsOver(startTime: real, c: Client, h: Happening, now: real)
    requires (Disciplined(c) || Overlapping(c)) && c.up && CanHappen(c, h, now)
    requires !h.Halted? && !h.Strayed? && !h.Deleted?
    ensures var o := After(startTime, c, h, now); c.socket && (o.Done? ==> o.c.socket && o.c.start.None?)
  {
  }

  lemma StartsAndStops(startTime: real, c: Client, h: Happening, last: real, now: real)
    requires Orderly(startTime, c, last) && last <= now && CanHappen(c, h, now)
    requires !c.up || h.Halted? || (c.start.Some? && !c.socket)
    ensures var o := After(startTime, c, h, now);
            && (o.Failed? <==> Fails(c, h))
            && (o.Done? ==> Orderly(startTime, o.c, now))
    ensures h.Expired? ==> h.timer == StartTimer
  {
  }

  lemma {:induction false} LifeIsOrderly(startTime: real, cs: seq<Client>, hs: seq<Happening>, ts: seq<real>, n: nat)
    requires Life(startTime, cs, hs, ts) && n < |cs|
    ensures Orderly(startTime, cs[n], if n > 0 then ts[n - 1] else if |ts| > 0 then ts[0] else 0.0)
  {
    hide After, CanHappen;
    if n > 0 {
      LifeIsOrderly(startTime, cs, hs, ts, n - 1);
      hide Orderly;
      assert Step(startTime, cs[n - 1], hs[n - 1], ts[n - 1], cs[n]);
      StepIsOrderly(startTime, cs[n - 1], hs[n - 1], if n > 1 then ts[n - 2] else ts[0], ts[n - 1]);
    }
  }

  /** What may come after the first n happenings of a life. */
  predicate CanFollow(startTime: real, cs: seq<Client>, hs: seq<Happening>, ts: seq<real>, n: nat, h: Happening,
                      now: real)
  {
    Life(startTime, cs, hs, ts) && n < |cs| && CanHappen(cs[n], h, now) && (n > 0 ==> ts[n - 1] <= now)
  }

  lemma Following(startTime: real, cs: seq<Client>, hs: seq<Happening>, ts: seq<real>, n: nat, h: Happening, now: real)
    returns (last: real)
    requires CanFollow(startTime, cs, hs, ts, n, h, now)
    ensures last <= now && Orderly(startTime, cs[n], last)
  {
    hide CanHappen;
    if n == 0 {
      last := now;
    } else {
      LifeIsOrderly(startTime, cs, hs, ts, n);
      last := ts[n - 1];
    }
  }

  /** In the whole life of a client, with packets, links, stops, crashes and restarts in whatever order, it fails
      exactly as Fails says. So T2 never finds it in a wrong state. The lease timer never fires either, for T2 comes
      before it and cancels it. */
  lemma T2IsNeverWrong(startTime: real, cs: seq<Client>, hs: seq<Happening>, ts: seq<real>, n: nat, h: Happening,
                       now: real)
    requires CanFollow(startTime, cs, hs, ts, n, h, now)
    ensures After(startTime, cs[n], h, now).Failed? <==> Fails(cs[n], h)
    ensures After(startTime, cs[n], h, now) != Failed(T2InWrongState)
    ensures h.Expired? && h.timer == T2Timer ==> cs[n].state == Renewing
    ensures h.Expired? ==> h.timer != LeaseTimer
  {
    hide Life, After, CanHappen, Orderly;
    var last := Following(startTime, cs, hs, ts, n, h, now);
    StepIsOrderly(startTime, cs[n], h, last, now);
    FailureIsNotT2(startTime, cs[n], h, now);
  }

  lemma FailureIsNotT2(startTime: real, c: Client, h: Happening, now: real)
    ensures Fails(c, h) ==> After(startTime, c, h, now) != Failed(T2InWrongState)
  {
  }

  /** A client that is up always has a timer pending, and while no start is, its pending timers are determined by its
      state, but for a restart in the moment in which an ACK came in. */
  lemma SomeTimerIsPending(startTime: real, cs: seq<Client>, hs: seq<Happening>, ts: seq<real>, n: nat)
    requires Life(startTime, cs, hs, ts) && n < |cs| && cs[n].up
    ensures exists timer :: TimerOf(cs[n], timer).Some?
    ensures cs[n].start.None? ==> Disciplined(cs[n]) || Overlapping(cs[n])
  {
    LifeIsOrderly(startTime, cs, hs, ts, n);
    hide Life, Orderly;
    var c := cs[n];
    assert TimerOf(c, StartTimer).Some? || TimerOf(c, ToTimer).Some? || TimerOf(c, T1Timer).Some?;
  }

  /** Starting leads into the discipline if and only if there is no lease or none of its timers is pending. */
  lemma StartIsClean(c: Client, now: real, xid: nat)
    requires c.start.Some?
    ensures OnTimer(c, StartTimer, now, xid).Done?
    ensures Disciplined(OnTimer(c, StartTimer, now, xid).c) <==> (c.lease.None? || NoLeaseTimers(c))
  {
  }

  /** A node that went down and comes up again starts clean, if nothing comes before the start. */
  lemma RestartIsClean(c: Client, startTime: real, now: real, later: real, xid: nat)
    requires Stopped(c).addr == 0
    ensures var up := OnStart(Stopped(c), startTime, now);
            up.Done? && Disciplined(OnTimer(up.c, StartTimer, later, xid).c)
  {
  }

  // ---------- The end of a lease ----------

  /** A refusal that the client acts upon by giving up its address. */
  predicate Refuses(c: Client, h: Happening) {
    && c.up && h.Received? && h.m.op == BootReply && h.m.xid == c.xid && h.m.kind == Nak
    && (c.state == Renewing || c.state == Rebinding)
  }

  /** In its whole life a client loses its address if and only if a NAK refuses to renew or rebind the lease, or the
      interface of a node that is down is cleared; never because the lease has ended. */
  lemma LosesAddressExactlyWhen(startTime: real, cs: seq<Client>, hs: seq<Happening>, ts: seq<real>, n: nat,
                                h: Happening,
                                now: real)
    requires CanFollow(startTime, cs, hs, ts, n, h, now) && cs[n].addr != 0 && After(startTime, cs[n], h, now).Done?
    ensures After(startTime, cs[n], h, now).c.addr == 0 <==> Refuses(cs[n], h) || h.Deconfigured?
  {
    hide Life, Refuses, After, CanHappen, LeaseKnown, Disciplined, Overlapping, Restarting, Unstarted;
    var last := Following(startTime, cs, hs, ts, n, h, now);
    T2IsNeverWrong(startTime, cs, hs, ts, n, h, now);
    LosesAddress(startTime, cs[n], h, now);
  }

  lemma LosesAddress(startTime: real, c: Client, h: Happening, now: real)
    requires (c.socket ==> LeaseKnown(c)) && CanHappen(c, h, now) && c.addr != 0 && After(startTime, c, h, now).Done?
    requires h.Expired? ==> h.timer != LeaseTimer
    ensures After(startTime, c, h, now).c.addr == 0 <==> Refuses(c, h) || h.Deconfigured?
  {
    if h.Received? && c.up {
      hide LeaseKnown;
      MessageLosesAddress(c, h, now);
    } else if h.Expired? {
      hide LeaseKnown;
      TimerKeepsAddress(c, h.timer, now, h.xid);
    }
  }

  lemma MessageLosesAddress(c: Client, h: Happening, now: real)
    requires LeaseKnown(c) && c.up && h.Received? && c.addr != 0 && OnMessage(c, h.m, now, h.xid).Done?
    ensures OnMessage(c, h.m, now, h.xid).c.addr == 0 <==> Refuses(c, h)
  {
  }

  lemma TimerKeepsAddress(c: Client, timer: Timer, now: real, xid: nat)
    requires timer != LeaseTimer && OnTimer(c, timer, now, xid).Done?
    ensures OnTimer(c, timer, now, xid).c.addr == c.addr
  {
  }

  /** The timer that fires next if nothing else happens. */
  function NextTimer(c: Client): (timer: Timer)
    requires Disciplined(c)
    ensures TimerOf(c, timer).Some? && NoneOverdue(c, TimerOf(c, timer).value)
  {
    if c.state == Bound then T1Timer
    else if c.state == Renewing && c.t2.value < c.to.value then T2Timer
    else ToTimer
  }

  function NextTime(c: Client): real
    requires Disciplined(c)
  {
    TimerOf(c, NextTimer(c)).value
  }

  /** A client that nobody answers, after n more of its timers have fired. */
  function Unanswered(c: Client, xid: nat, n: nat): (d: Client)
    requires Disciplined(c) && LeaseKnown(c) && c.up
    ensures Disciplined(d) && LeaseKnown(d) && d.up
  {
    if n == 0 then c
    else
      var before := Unanswered(c, xid, n - 1);
      var h := Expired(NextTimer(before), xid);
      DisciplineIsKept(0.0, before, h, NextTime(before));
      After(0.0, before, h, NextTime(before)).c
  }

  /** Every step of that is one of a life. */
  lemma UnansweredSteps(startTime: real, c: Client, xid: nat, n: nat)
    requires Disciplined(c) && LeaseKnown(c) && c.up
    ensures var d := Unanswered(c, xid, n);
            Step(startTime, d, Expired(NextTimer(d), xid), NextTime(d), Unanswered(c, xid, n + 1))
  {
    hide Disciplined, LeaseKnown;
    var d := Unanswered(c, xid, n);
    DisciplineIsKept(startTime, d, Expired(NextTimer(d), xid), NextTime(d));
  }

  /** Such a client has its address after whatever time. */
  lemma {:induction false} UnansweredKeepsAddress(c: Client, xid: nat, n: nat)
    requires Disciplined(c) && LeaseKnown(c) && c.up && c.state == Bound
    ensures var d := Unanswered(c, xid, n);
            d.addr == c.addr && (n == 0 ==> d == c) && (n == 1 ==> d.state == Renewing)
    ensures n >= 1 ==> NextTime(Unanswered(c, xid, n)) >= c.t1.value + 60.0 * (n - 1) as real
    ensures n >= 2 ==> Unanswered(c, xid, n).state in {Rebinding, Selecting}
  {
    hide Disciplined, LeaseKnown, NextTimer;
    if n > 0 {
      UnansweredKeepsAddress(c, xid, n - 1);
      OneMoreUnanswered(Unanswered(c, xid, n - 1), xid);
      BoundUntilT1(c);
    }
  }

  lemma BoundUntilT1(c: Client)
    requires Disciplined(c) && c.state == Bound
    ensures c.t1 == Some(NextTime(c))
  {
  }

  /** When a timer fires and nobody answers, the client goes on to the next state and waits for at least another minute,
      but for T1, after which T2 may come at once. */
  lemma OneMoreUnanswered(d: Client, xid: nat)
    requires Disciplined(d) && LeaseKnown(d) && d.up
    ensures var o := After(0.0, d, Expired(NextTimer(d), xid), NextTime(d));
            && o.Done? && Disciplined(o.c) && o.c.addr == d.addr && NextTime(o.c) >= NextTime(d)
            && (if d.state == Bound then o.c.state == Renewing
                else (o.c.state == Rebinding || o.c.state == Selecting) && NextTime(o.c) == NextTime(d) + 60.0)
  {
  }

  // ---------- The end of a lease in a life ----------

  /** While T1 or T2 is pending, and in BOUND, RENEWING and REBINDING, the address of the lease is configured. */
  predicate Configured(c: Client) {
    || c.t1.Some? || c.t2.Some?
    || (c.up && c.start.None? && (c.state == Bound || c.state == Renewing || c.state == Rebinding))
    ==> c.lease.Some? && c.lease.value.ip != 0 && c.addr == c.lease.value.ip
  }

  /** While the node is down or the client waits for offers neither T1 nor T2 is pending, and a lease has an address. */
  predicate LeaseAtRest(c: Client) {
    && (!c.up || c.state == Selecting ==> c.t1.None? && c.t2.None?)
    && (c.lease.Some? ==> c.lease.value.ip != 0)
  }

  lemma OrderlyAtRest(startTime: real, c: Client, last: real)
    requires Orderly(startTime, c, last)
    ensures LeaseAtRest(c)
  {
  }

  lemma MessageKeepsConfigured(c: Client, m: Msg, now: real, xid: nat)
    requires LeaseAtRest(c) && c.up && Configured(c) && OnMessage(c, m, now, xid).Done?
    ensures Configured(OnMessage(c, m, now, xid).c)
  {
    hide RequestFrom;
  }

  lemma TimerKeepsConfigured(c: Client, timer: Timer, now: real, xid: nat)
    requires LeaseAtRest(c) && c.up && Configured(c) && OnTimer(c, timer, now, xid).Done? && TimerOf(c, timer).Some?
    ensures Configured(OnTimer(c, timer, now, xid).c)
  {
    hide RequestFrom;
  }

  lemma StepKeepsConfigured(startTime: real, c: Client, h: Happening, last: real, now: real, c': Client)
    requires Orderly(startTime, c, last) && Step(startTime, c, h, now, c') && Configured(c)
    ensures Configured(c')
  {
    OrderlyAtRest(startTime, c, last);
    hide Orderly, OnMessage, OnTimer, LeaseAtRest;
    if c.up && h.Received? {
      MessageKeepsConfigured(c, h.m, now, h.xid);
    } else if c.up && h.Expired? {
      TimerKeepsConfigured(c, h.timer, now, h.xid);
    } else {
      OtherKeepsConfigured(startTime, c, h, now, c');
    }
  }

  lemma OtherKeepsConfigured(startTime: real, c: Client, h: Happening, now: real, c': Client)
    requires LeaseAtRest(c) && Step(startTime, c, h, now, c') && Configured(c)
    requires !c.up || (!h.Received? && !h.Expired?)
    ensures Configured(c')
  {
    hide OnMessage, OnTimer;
  }

  lemma {:induction false} LifeIsConfigured(startTime: real, cs: seq<Client>, hs: seq<Happening>, ts: seq<real>, n: nat)
    requires Life(startTime, cs, hs, ts) && n < |cs|
    ensures Configured(cs[n])
  {
    if n > 0 {
      LifeIsConfigured(startTime, cs, hs, ts, n - 1);
      LifeIsOrderly(startTime, cs, hs, ts, n - 1);
      hide Orderly, Configured, Step;
      assert Step(startTime, cs[n - 1], hs[n - 1], ts[n - 1], cs[n]);
      StepKeepsConfigured(startTime, cs[n - 1], hs[n - 1], if n > 1 then ts[n - 2] else ts[0], ts[n - 1], cs[n]);
    }
  }

  lemma MessageSetsLater(c: Client, m: Msg, now: real, xid: nat)
    requires NoneOverdue(c, now) && Timely(m) && OnMessage(c, m, now, xid).Done?
    ensures NoneOverdue(OnMessage(c, m, now, xid).c, now)
  {
    hide RequestFrom;
  }

  lemma TimerSetsLater(c: Client, timer: Timer, now: real, xid: nat)
    requires NoneOverdue(c, now) && OnTimer(c, timer, now, xid).Done?
    ensures NoneOverdue(OnTimer(c, timer, now, xid).c, now)
  {
    hide RequestFrom;
  }

  /** A timer that is set is set for later. */
  lemma NothingIsOverdue(startTime: real, c: Client, h: Happening, now: real, c': Client)
    requires Step(startTime, c, h, now, c')
    ensures NoneOverdue(c', now)
  {
    if c.up && h.Received? {
      MessageSetsLater(c, h.m, now, h.xid);
    } else if c.up && h.Expired? {
      TimerSetsLater(c, h.timer, now, h.xid);
    } else {
      hide OnMessage, OnTimer;
    }
  }

  lemma NextIsNotOverdue(c: Client, now: real)
    requires Disciplined(c) && NoneOverdue(c, now)
    ensures now <= NextTime(c)
  {
  }

  predicate LastBefore(ts: seq<real>, now: real) {
    |ts| > 0 ==> ts[|ts| - 1] <= now
  }

  lemma LifeGoesOn(startTime: real, cs: seq<Client>, hs: seq<Happening>, ts: seq<real>, h: Happening, now: real,
                   c: Client)
    requires Life(startTime, cs, hs, ts) && LastBefore(ts, now) && Step(startTime, cs[|hs|], h, now, c)
    ensures Life(startTime, cs + [c], hs + [h], ts + [now])
  {
    hide Step;
    var cs', hs', ts' := cs + [c], hs + [h], ts + [now];
    forall i | 0 <= i < |hs'|
      ensures Step(startTime, cs'[i], hs'[i], ts'[i], cs'[i + 1])
    {
      assert i < |hs| ==> Step(startTime, cs[i], hs[i], ts[i], cs[i + 1]);
    }
  }

  lemma NothingPassed(startTime: real, cs: seq<Client>, hs: seq<Happening>, ts: seq<real>)
    requires Life(startTime, cs, hs, ts) && Disciplined(cs[|hs|])
    ensures LastBefore(ts, NextTime(cs[|hs|]))
  {
    hide Disciplined, Step, NextTime;
    var n := |hs|;
    if n > 0 {
      assert Step(startTime, cs[n - 1], hs[n - 1], ts[n - 1], cs[n]);
      NothingIsOverdue(startTime, cs[n - 1], hs[n - 1], ts[n - 1], cs[n]);
      NextIsNotOverdue(cs[n], ts[n - 1]);
    }
  }

  /** The n timers that fire next if nobody answers, as part of the client's life. */
  lemma {:induction false} LifeUnanswered(startTime: real, cs: seq<Client>, hs: seq<Happening>, ts: seq<real>, xid: nat,
                                          n: nat)
    returns (cs': seq<Client>, hs': seq<Happening>, ts': seq<real>)
    requires Life(startTime, cs, hs, ts)
    requires Disciplined(cs[|hs|]) && LeaseKnown(cs[|hs|]) && cs[|hs|].up
    ensures Life(startTime, cs', hs', ts') && |hs'| == |hs| + n && cs <= cs' && hs <= hs' && ts <= ts'
    ensures forall i | |hs| <= i < |hs'| :: hs'[i].Expired?
    ensures cs'[|hs'|] == Unanswered(cs[|hs|], xid, n) && LastBefore(ts', NextTime(cs'[|hs'|]))
  {
    hide Disciplined, LeaseKnown, NextTimer;
    var c := cs[|hs|];
    cs', hs', ts' := cs, hs, ts;
    if n > 0 {
      cs', hs', ts' := LifeUnanswered(startTime, cs, hs, ts, xid, n - 1);
      var d := cs'[|hs'|];
      hide Life, Step;
      UnansweredSteps(startTime, c, xid, n - 1);
      LifeGoesOn(startTime, cs', hs', ts', Expired(NextTimer(d), xid), NextTime(d), Unanswered(c, xid, n));
      cs', hs', ts' := cs' + [Unanswered(c, xid, n)], hs' + [Expired(NextTimer(d), xid)], ts' + [NextTime(d)];
    }
    NothingPassed(startTime, cs', hs', ts');
  }

  /** Enough timers for the clock to go from one time past another. */
  function TimersPast(from: real, time: real): (n: nat)
    ensures n >= 1 && from + 60.0 * (n - 1) as real > time
  {
    if time < from then 1 else 2 + ((time - from) / 60.0).Floor
  }

  /** The lease is not given up at its end: any life in which the client is bound goes on, if nobody answers, with
      timers alone until any given time has passed, that of the lease's end included, and the client still has the
      address of its lease then. */
  lemma AddressOutlivesLease(startTime: real, cs: seq<Client>, hs: seq<Happening>, ts: seq<real>, xid: nat, time: real)
    returns (cs': seq<Client>, hs': seq<Happening>, ts': seq<real>, now: real)
    requires Life(startTime, cs, hs, ts)
    requires cs[|hs|].up && cs[|hs|].start.None? && cs[|hs|].state == Bound
    ensures Life(startTime, cs', hs', ts') && cs <= cs' && hs <= hs' && ts <= ts'
    ensures forall i | |hs| <= i < |hs'| :: hs'[i].Expired?
    ensures var c, d := cs[|hs|], cs'[|hs'|];
            c.lease.Some? && c.leaseEnd.Some? && d.addr == c.addr == c.lease.value.ip != 0
    ensures NoneOverdue(cs'[|hs'|], now) && LastBefore(ts', now) && now > time
  {
    SomeTimerIsPending(startTime, cs, hs, ts, |hs|);
    LifeIsConfigured(startTime, cs, hs, ts, |hs|);
    LifeIsOrderly(startTime, cs, hs, ts, |hs|);
    var c := cs[|hs|];
    var n := TimersPast(c.t1.value, time);
    cs', hs', ts' := LifeUnanswered(startTime, cs, hs, ts, xid, n);
    hide Life, Unanswered, Orderly;
    UnansweredKeepsAddress(c, xid, n);
    now := NextTime(cs'[|hs'|]);
  }
}
