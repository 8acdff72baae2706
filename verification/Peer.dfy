/** One remote peer as the mesh manager keeps it: read-only information, probe and catch-up status,
    and its tunnel. Catch-ups are retried with a quadratic back-off. Times are nanoseconds. */
module Peer {
  import opened Bytes
  import T = Tunnel

  type PeerID = T.PeerID

  const PROBE_INTERVAL := 600 * T.SECOND
  const CATCHUP_INTERVAL := 30 * T.SECOND

  datatype Info = Info(id: PeerID, ipv4: string, serverID: nat)
  datatype Probe = Probe(lastRequestAt: int, lastResponseAt: int, online: bool)
  datatype Catchup = Catchup(lastSendAt: int, completedAt: int, done: bool, noAck: nat)

  /** A tunnel by value: its link and its state. */
  datatype Wire = Wire(link: T.Link, state: T.State)
  datatype Record = Record(info: Info, probe: Probe, catchup: Catchup, tunnel: Option<Wire>)

  const NO_CATCHUP := Catchup(T.ZERO_TIME, T.ZERO_TIME, false, 0)

  ghost function NewRecord(info: Info): Record {
    Record(info, Probe(T.ZERO_TIME, T.ZERO_TIME, false), NO_CATCHUP, None)
  }

  ghost function ClosedRecord(r: Record): Record {
    if r.tunnel.None? then r
    else r.(tunnel := Some(r.tunnel.value.(state := r.tunnel.value.state.(closed := true))))
  }

  /** Elapsed time, clamped to the range of a Duration. */
  function Since(now: int, t: int): int {
    var d := now - t;
    if d >= 0x8000_0000_0000_0000 then 0x7FFF_FFFF_FFFF_FFFF
    else if d < -0x8000_0000_0000_0000 then -0x8000_0000_0000_0000
    else d
  }

  function RetryCatchupInterval(noAck: nat): int {
    Wrap64((noAck + 1) * (noAck + 1) * CATCHUP_INTERVAL)
  }

  predicate NeedsCatchup(c: Catchup, now: int) {
    !c.done && Since(now, c.lastSendAt) > RetryCatchupInterval(c.noAck)
  }

  function CatchupSent(c: Catchup, at: int): Catchup {
    c.(lastSendAt := at, noAck := c.noAck + 1)
  }

  function CatchupCompleted(c: Catchup, at: int): Catchup {
    c.(done := true, noAck := 0, completedAt := at)
  }

  class Peer {
    const info: Info
    var probe: Probe
    var catchup: Catchup
    var tunnel: T.Tunnel?

    ghost function Value(): Record
      reads this, tunnel
    {
      Record(info, probe, catchup, if tunnel == null then None else Some(Wire(tunnel.link, tunnel.Value())))
    }

    constructor (info: Info)
      ensures Value() == NewRecord(info) && this.info == info && tunnel == null
    {
      this.info := info;
      probe, catchup, tunnel := Probe(T.ZERO_TIME, T.ZERO_TIME, false), NO_CATCHUP, null;
    }

    method SetProbeStatus(online: bool, now: int)
      modifies `probe
      ensures Value() == old(Value()).(probe := old(probe).(online := online, lastResponseAt := now))
    {
      probe := probe.(online := online, lastResponseAt := now);
    }

    method SetLastProbeRequestAt(at: int)
      modifies `probe
      ensures Value() == old(Value()).(probe := old(probe).(lastRequestAt := at))
    {
      probe := probe.(lastRequestAt := at);
    }

    predicate IsNeedProbe(now: int)
      reads this
    {
      Since(now, probe.lastRequestAt) > PROBE_INTERVAL
    }

    predicate IsNeedCatchup(now: int)
      reads this
    {
      NeedsCatchup(catchup, now)
    }

    method SetLastSendCatchupAt(at: int)
      modifies `catchup
      ensures Value() == old(Value()).(catchup := CatchupSent(old(catchup), at))
    {
      catchup := catchup.(noAck := catchup.noAck + 1);
      catchup := catchup.(lastSendAt := at);
    }

    method SetCatchupAt(now: int)
      modifies `catchup
      ensures Value() == old(Value()).(catchup := CatchupCompleted(old(catchup), now))
    {
      catchup := catchup.(done := true);
      catchup := catchup.(noAck := 0);
      catchup := catchup.(completedAt := now);
    }

    /** The previous tunnel, if any, is closed before it is replaced. */
    method SetTunnel(t: T.Tunnel)
      requires t != tunnel
      modifies `tunnel, tunnel
      ensures tunnel == t && Value() == old(Value()).(tunnel := Some(old(Wire(t.link, t.Value()))))
      ensures old(tunnel) != null ==> old(tunnel).Value() == old(tunnel.Value()).(closed := true)
    {
      if tunnel != null {
        tunnel.Close();
      }
      tunnel := t;
    }

    /** A peer that never got a tunnel is a nil dereference in the source, which panics: `ok` is false. */
    method Close() returns (ok: bool)
      modifies tunnel
      ensures ok == (tunnel != null)
      ensures ok ==> tunnel.Value() == old(tunnel.Value()).(closed := true)
    {
      if tunnel == null {
        return false;
      }
      tunnel.Close();
      ok := true;
    }
  }

  // ---- the catch-up back-off of one record ----

  /** An online probe result naming the peer once: the check, and if it passes a send that is recorded
      unless it fails. */
  datatype Event = ProbedOnline(checkedAt: int, sentAt: int, sent: bool) | CaughtUp(at: int)

  datatype History = History(c: Catchup, sentAt: seq<int>)

  ghost function Step(c: Catchup, e: Event): Catchup {
    match e
    case ProbedOnline(checkedAt, sentAt, sent) => if NeedsCatchup(c, checkedAt) && sent then CatchupSent(c, sentAt) else c
    case CaughtUp(at) => CatchupCompleted(c, at)
  }

  ghost function After(es: seq<Event>): History {
    if es == [] then History(NO_CATCHUP, [])
    else
      var h := After(es[..|es| - 1]);
      var e := es[|es| - 1];
      History(Step(h.c, e),
              if e.ProbedOnline? && NeedsCatchup(h.c, e.checkedAt) && e.sent then h.sentAt + [e.sentAt] else h.sentAt)
  }

  ghost function Gap(k: nat): nat {
    (k + 1) * (k + 1) * CATCHUP_INTERVAL
  }

  /** Sends k and k+1, counted from one, are more than 30(k+1)^2 seconds apart. */
  ghost predicate Spaced(sentAt: seq<int>) {
    forall i :: 0 <= i < |sentAt| - 1 ==> sentAt[i + 1] > sentAt[i] + Gap(i + 1)
  }

  lemma {:induction false} SpacedSpan(sentAt: seq<int>)
    requires Spaced(sentAt) && sentAt != []
    ensures sentAt[|sentAt| - 1] - sentAt[0] >= (T.Squares(|sentAt|) - 1) * CATCHUP_INTERVAL
    ensures |sentAt| >= 2 ==> sentAt[|sentAt| - 1] - sentAt[0] > (T.Squares(|sentAt|) - 1) * CATCHUP_INTERVAL
  {
    var n := |sentAt|;
    if n > 1 {
      SpacedSpan(sentAt[..n - 1]);
      assert sentAt[n - 2 + 1] > sentAt[n - 2] + Gap(n - 1);
      assert (T.Squares(n) - 1) * CATCHUP_INTERVAL == n * n * CATCHUP_INTERVAL + (T.Squares(n - 1) - 1) * CATCHUP_INTERVAL;
    }
  }

  lemma SmallCounter(n: nat)
    requires n >= 1 ==> (T.Squares(n) - 1) * CATCHUP_INTERVAL < 0x8000_0000_0000_0000
    ensures Gap(n) < 0x8000_0000_0000_0000
  {
    if n >= 17_000 {
      T.SquareMonotone(17_000, n);
      T.SquareMonotone(16_999, n - 1);
      T.SquaresTop(n);
      assert false;
    }
    T.SquareMonotone(n + 1, 17_000);
  }

  /** The events lie within the range of a Duration; a send is recorded after its check. */
  ghost predicate Timely(es: seq<Event>, from: int) {
    forall i :: 0 <= i < |es| && es[i].ProbedOnline? ==>
      es[i].checkedAt <= es[i].sentAt && from <= es[i].sentAt < from + 0x8000_0000_0000_0000
  }

  ghost predicate BackoffInv(h: History, from: int) {
    Spaced(h.sentAt)
    && (forall i :: 0 <= i < |h.sentAt| ==> from <= h.sentAt[i] < from + 0x8000_0000_0000_0000)
    && (!h.c.done ==> |h.sentAt| == h.c.noAck)
    && (!h.c.done ==> h.c.lastSendAt == if h.sentAt == [] then T.ZERO_TIME else h.sentAt[|h.sentAt| - 1])
  }

  lemma IntervalFits(sentAt: seq<int>, from: int)
    requires Spaced(sentAt) && sentAt != []
    requires forall i :: 0 <= i < |sentAt| ==> from <= sentAt[i] < from + 0x8000_0000_0000_0000
    ensures RetryCatchupInterval(|sentAt|) == Gap(|sentAt|)
  {
    hide Wrap64, T.Squares, Spaced;
    SpacedSpan(sentAt);
    SmallCounter(|sentAt|);
    T.NoWrap(Gap(|sentAt|));
  }

  lemma SpacedSnoc(sentAt: seq<int>, at: int)
    requires Spaced(sentAt) && (sentAt != [] ==> at > sentAt[|sentAt| - 1] + Gap(|sentAt|))
    ensures Spaced(sentAt + [at])
  {
    hide Gap;
  }

  lemma {:induction false} RunBackoff(es: seq<Event>, from: int)
    requires Timely(es, from)
    ensures BackoffInv(After(es), from)
  {
    hide RetryCatchupInterval, Gap, Spaced;
    if es == [] {
      NothingSent(from);
    } else {
      var h, e := After(es[..|es| - 1]), es[|es| - 1];
      RunBackoff(es[..|es| - 1], from);
      if e.ProbedOnline? && NeedsCatchup(h.c, e.checkedAt) && e.sent {
        if h.sentAt != [] {
          IntervalFits(h.sentAt, from);
        }
        SpacedSnoc(h.sentAt, e.sentAt);
      }
    }
  }

  lemma NothingSent(from: int)
    ensures BackoffInv(History(NO_CATCHUP, []), from)
  {
  }

  /** Unacknowledged sends k and k+1 are more than 30(k+1)^2 seconds apart, so n >= 2 of them span
      more than 30(n(n+1)(2n+1)/6 - 1) seconds. */
  lemma CatchupRate(es: seq<Event>, from: int)
    requires Timely(es, from)
    ensures Spaced(After(es).sentAt)
    ensures var sentAt := After(es).sentAt;
            var n := |sentAt|;
            n >= 2 ==> 6 * (sentAt[n - 1] - sentAt[0]) > (n * (n + 1) * (2 * n + 1) - 6) * CATCHUP_INTERVAL
  {
    hide After, Spaced;
    RunBackoff(es, from);
    var sentAt := After(es).sentAt;
    var n := |sentAt|;
    if n >= 2 {
      SpacedSpan(sentAt);
      T.SquaresClosedForm(n);
      assert 6 * ((T.Squares(n) - 1) * CATCHUP_INTERVAL) == (n * (n + 1) * (2 * n + 1) - 6) * CATCHUP_INTERVAL;
    }
  }

  /** Once the peer has caught up, nothing is sent again, whatever follows. */
  lemma {:induction false} NoSendAfterCatchup(es: seq<Event>, at: int, more: seq<Event>)
    ensures var h := After(es + [CaughtUp(at)] + more);
            h.c.done && h.sentAt == After(es).sentAt
  {
    var prefix := es + [CaughtUp(at)];
    if more == [] {
      assert prefix[..|es|] == es && prefix + more == prefix;
    } else {
      var init := more[..|more| - 1];
      NoSendAfterCatchup(es, at, init);
      assert (prefix + more)[..|prefix + more| - 1] == prefix + init;
    }
  }

  // ---- and when it does send ----

  ghost predicate Completed(es: seq<Event>) {
    exists i :: 0 <= i < |es| && es[i].CaughtUp?
  }

  lemma {:induction false} DoneIff(es: seq<Event>)
    ensures After(es).c.done <==> Completed(es)
  {
    hide NeedsCatchup;
    if es != [] {
      var init := es[..|es| - 1];
      DoneIff(init);
      assert Completed(es) <==> Completed(init) || es[|es| - 1].CaughtUp? by {
        if i :| 0 <= i < |init| && init[i].CaughtUp? {
          assert es[i].CaughtUp?;
        }
        if i :| 0 <= i < |es| && es[i].CaughtUp? && i < |init| {
          assert init[i].CaughtUp?;
        }
      }
    }
  }

  lemma SinceExceeds(now: int, t: int, d: int)
    requires 0 <= d < 0x7FFF_FFFF_FFFF_FFFF
    ensures Since(now, t) > d <==> now - t > d
  {
  }

  /** After sends at `sentAt`, more than 30(k+1)^2 seconds have passed since the k-th, or, before any,
      more than 30 seconds since the zero time. */
  ghost predicate Overdue(sentAt: seq<int>, now: int) {
    var k := |sentAt|;
    var last := if k == 0 then -62_135_596_800_000_000_000 else sentAt[k - 1];
    now - last > (k + 1) * (k + 1) * 30_000_000_000
  }

  lemma IntervalOf(sentAt: seq<int>, from: int)
    requires Spaced(sentAt) && forall i :: 0 <= i < |sentAt| ==> from <= sentAt[i] < from + 0x8000_0000_0000_0000
    ensures RetryCatchupInterval(|sentAt|) == Gap(|sentAt|) < 0x7FFF_FFFF_FFFF_FFFF
  {
    hide Spaced, T.Squares;
    if sentAt != [] {
      IntervalFits(sentAt, from);
      SpacedSpan(sentAt);
      SmallCounter(|sentAt|);
      assert Gap(|sentAt|) % 2 == 0;
    }
  }

  lemma DueIff(es: seq<Event>, from: int, now: int)
    requires Timely(es, from)
    ensures NeedsCatchup(After(es).c, now) <==> !Completed(es) && Overdue(After(es).sentAt, now)
  {
    hide RetryCatchupInterval, Spaced, After, Completed;
    RunBackoff(es, from);
    DoneIff(es);
    var h := After(es);
    IntervalOf(h.sentAt, from);
    if !h.c.done {
      SinceExceeds(now, h.c.lastSendAt, Gap(|h.sentAt|));
    }
  }

  /** Exactly when a probed record sends again: an accepted send is recorded as the next one if and only if
      nothing completed and the back-off since the previous send is over. */
  lemma SendIff(es: seq<Event>, from: int, checkedAt: int, sentAt: int, sent: bool)
    requires Timely(es, from)
    ensures After(es + [ProbedOnline(checkedAt, sentAt, sent)]).sentAt ==
            After(es).sentAt + if sent && !Completed(es) && Overdue(After(es).sentAt, checkedAt) then [sentAt] else []
  {
    hide NeedsCatchup, Overdue, Completed;
    DueIff(es, from, checkedAt);
    assert (es + [ProbedOnline(checkedAt, sentAt, sent)])[..|es|] == es;
  }
}
