/** The leader lock: one row whose statements the database runs one after another at
    non-decreasing times (server/store.go). NOW() and DATETIME carry whole seconds only. */
module Lease {
  import opened ConfigTypes

  /** NOW() at an instant. */
  function DbNow(at: Time): int {
    at / SECOND
  }

  lemma NextSecond(earlier: Time, later: Time)
    requires later >= earlier + SECOND
    ensures DbNow(later) > DbNow(earlier)
  {
  }

  /** ceil(ttl in seconds), at least one. */
  function LeaseSeconds(ttl: Time): int {
    var seconds := -((-ttl) / SECOND);
    if seconds < 1 then 1 else seconds
  }

  datatype LeaseRow = LeaseRow(owner: string, expireAt: int)

  datatype LeaseOp = Acquire(owner: string, ttl: Time) | Renew(owner: string, ttl: Time) | Release(owner: string)

  datatype LeaseEvent = LeaseEvent(at: Time, op: LeaseOp)

  /** The WHERE clause of a statement. */
  predicate Matches(row: LeaseRow, e: LeaseEvent) {
    match e.op
    case Acquire(_, _) => row.expireAt < DbNow(e.at)
    case Renew(owner, _) => row.owner == owner
    case Release(owner) => row.owner == owner
  }

  function Execute(row: LeaseRow, e: LeaseEvent): LeaseRow {
    if !Matches(row, e) then row
    else
      match e.op
      case Acquire(owner, ttl) => LeaseRow(owner, DbNow(e.at) + LeaseSeconds(ttl))
      case Renew(_, ttl) => row.(expireAt := DbNow(e.at) + LeaseSeconds(ttl))
      case Release(_) => row.(expireAt := DbNow(e.at))
  }

  /** The server counts a row as affected only when the statement changed it. */
  predicate RowAffected(row: LeaseRow, e: LeaseEvent) {
    Execute(row, e) != row
  }

  lemma LeaseCoversTtl(ttl: Time)
    ensures LeaseSeconds(ttl) >= 1 && LeaseSeconds(ttl) * SECOND >= ttl
    ensures LeaseSeconds(ttl) > 1 ==> (LeaseSeconds(ttl) - 1) * SECOND < ttl
  {
  }

  /** An acquire reports success exactly when it took the lease. */
  lemma AcquireReportsTaking(row: LeaseRow, e: LeaseEvent)
    requires e.op.Acquire?
    ensures RowAffected(row, e) <==> Matches(row, e)
  {
    LeaseCoversTtl(e.op.ttl);
  }

  // ----- runs -----

  ghost predicate Ordered(events: seq<LeaseEvent>) {
    forall i, j :: 0 <= i <= j < |events| ==> events[i].at <= events[j].at
  }

  function RowAt(row: LeaseRow, events: seq<LeaseEvent>, k: nat): LeaseRow
    requires k <= |events|
  {
    if k == 0 then row else Execute(RowAt(row, events, k - 1), events[k - 1])
  }

  /** The row depends on the statements so far only. */
  lemma {:induction false} RowAtOfMore(row: LeaseRow, events: seq<LeaseEvent>, more: seq<LeaseEvent>, k: nat)
    requires k <= |events|
    ensures RowAt(row, events + more, k) == RowAt(row, events, k)
  {
    if k > 0 {
      RowAtOfMore(row, events, more, k - 1);
      assert (events + more)[k - 1] == events[k - 1];
    }
  }

  /** The owner's attempts to take or extend the lease, all with its configured ttl. */
  predicate Extends(e: LeaseEvent, owner: string, ttl: Time) {
    e.op == Acquire(owner, ttl) || e.op == Renew(owner, ttl)
  }

  /** Between i and j the owner neither releases nor changes its ttl. */
  ghost predicate KeepsLease(events: seq<LeaseEvent>, owner: string, ttl: Time, i: int, j: int) {
    forall k :: i < k < j && 0 <= k < |events| ==>
      && events[k].op != Release(owner)
      && (!events[k].op.Release? && events[k].op.owner == owner ==> events[k].op.ttl == ttl)
  }

  /** The owner's statements that certainly extend its lease: the first one, and renewals. */
  predicate Grants(e: LeaseEvent, owner: string, ttl: Time, first: bool) {
    Extends(e, owner, ttl) && (first || e.op.Renew?)
  }

  /** Every statement after i, up to and including j, comes at most ttl after an earlier
      grant at or after i. */
  ghost predicate Covered(events: seq<LeaseEvent>, owner: string, ttl: Time, i: nat, j: int) {
    forall k: nat :: i < k <= j && k < |events| ==> CoveredAt(events, owner, ttl, i, k)
  }

  ghost predicate CoveredAt(events: seq<LeaseEvent>, owner: string, ttl: Time, i: nat, k: nat)
    requires k < |events|
  {
    exists g :: i <= g < k && Grants(events[g], owner, ttl, g == i) && events[k].at <= events[g].at + ttl
  }

  /** One statement while the newest attempt is at most ttl old: the owner keeps the row, and
      an extension never ends before the leases of earlier attempts. */
  lemma CoveredStep(row: LeaseRow, e: LeaseEvent, owner: string, ttl: Time, at: Time)
    requires row.owner == owner && row.expireAt >= DbNow(at) + LeaseSeconds(ttl)
    requires e.at <= at + ttl && e.op != Release(owner)
    requires !e.op.Release? && e.op.owner == owner ==> e.op.ttl == ttl
    ensures !(e.op.Acquire? && Matches(row, e))
    ensures Execute(row, e).owner == owner
    ensures Execute(row, e) == row || Execute(row, e).expireAt == DbNow(e.at) + LeaseSeconds(ttl)
    ensures Extends(e, owner, ttl) && e.op.Renew? ==> Execute(row, e).expireAt == DbNow(e.at) + LeaseSeconds(ttl)
    ensures Extends(e, owner, ttl) && e.op.Acquire? ==> row.expireAt >= DbNow(e.at)
  {
    LeaseCoversTtl(ttl);
    assert DbNow(e.at) <= DbNow(at) + LeaseSeconds(ttl);
  }

  /** While covered, the owner keeps the row, and the expiry is at least that of any earlier
      grant g: of the taking at i or of a renewal since. */
  lemma {:induction false} CoveredOwnerStays(
    row: LeaseRow, events: seq<LeaseEvent>, owner: string, ttl: Time, i: nat, k: nat, g: nat)
    requires Ordered(events) && i <= g < k <= |events|
    requires Extends(events[i], owner, ttl) && Matches(RowAt(row, events, i), events[i])
    requires KeepsLease(events, owner, ttl, i, k) && Covered(events, owner, ttl, i, k - 1)
    requires Grants(events[g], owner, ttl, g == i)
    ensures RowAt(row, events, k).owner == owner
    ensures RowAt(row, events, k).expireAt >= DbNow(events[g].at) + LeaseSeconds(ttl)
  {
    if k > i + 1 {
      var e := events[k - 1];
      assert CoveredAt(events, owner, ttl, i, k - 1);
      var cover :| i <= cover < k - 1 && Grants(events[cover], owner, ttl, cover == i) && e.at <= events[cover].at + ttl;
      CoveredOwnerStays(row, events, owner, ttl, i, k - 1, cover);
      CoveredStep(RowAt(row, events, k - 1), e, owner, ttl, events[cover].at);
      assert events[g].at <= e.at;
      if g < k - 1 {
        CoveredOwnerStays(row, events, owner, ttl, i, k - 1, g);
      }
    }
  }

  /** A chain of attempts, none more than ttl after the one before, keeps every other owner
      out for as long as it lasts, although NOW() drops the fraction of the second. */
  lemma RenewalChainExcludes(row: LeaseRow, events: seq<LeaseEvent>, owner: string, ttl: Time, i: nat, j: nat)
    requires Ordered(events) && i < j < |events|
    requires Extends(events[i], owner, ttl) && Matches(RowAt(row, events, i), events[i])
    requires KeepsLease(events, owner, ttl, i, j) && Covered(events, owner, ttl, i, j)
    requires events[j].op.Acquire?
    ensures !RowAffected(RowAt(row, events, j), events[j])
  {
    assert CoveredAt(events, owner, ttl, i, j);
    var g :| i <= g < j && Grants(events[g], owner, ttl, g == i) && events[j].at <= events[g].at + ttl;
    CoveredOwnerStays(row, events, owner, ttl, i, j, g);
    LeaseCoversTtl(ttl);
    assert DbNow(events[j].at) <= DbNow(events[g].at) + LeaseSeconds(ttl);
  }

  /** After an owner takes or extends the lease at t, no acquire succeeds up to and including
      t + ttl unless that owner releases in between. */
  lemma LeaseExcludes(row: LeaseRow, events: seq<LeaseEvent>, owner: string, ttl: Time, i: nat, j: nat)
    requires Ordered(events) && i < j < |events|
    requires Extends(events[i], owner, ttl) && Matches(RowAt(row, events, i), events[i])
    requires KeepsLease(events, owner, ttl, i, j)
    requires events[j].op.Acquire? && events[j].at <= events[i].at + ttl
    ensures !RowAffected(RowAt(row, events, j), events[j])
  {
    forall k: nat | i < k <= j ensures CoveredAt(events, owner, ttl, i, k)
    {
      assert Grants(events[i], owner, ttl, true) && events[k].at <= events[i].at + ttl;
    }
    RenewalChainExcludes(row, events, owner, ttl, i, j);
  }

  /** However many renewals and releases of other owners arrive late, the row stays as the
      present owner left it. */
  lemma {:induction false} DisplacedOwnersChangeNothing(row: LeaseRow, events: seq<LeaseEvent>, i: nat, j: nat)
    requires i <= j <= |events|
    requires forall k :: i <= k < j ==> !events[k].op.Acquire? && events[k].op.owner != RowAt(row, events, i).owner
    ensures RowAt(row, events, j) == RowAt(row, events, i)
  {
    if i < j {
      DisplacedOwnersChangeNothing(row, events, i, j - 1);
    }
  }

  lemma {:induction false} IdleStatementsKeepRow(row: LeaseRow, events: seq<LeaseEvent>, i: nat, j: nat)
    requires i <= j <= |events|
    requires forall k :: i <= k < j ==> !RowAffected(RowAt(row, events, k), events[k])
    ensures RowAt(row, events, j) == RowAt(row, events, i)
  {
    if i < j {
      IdleStatementsKeepRow(row, events, i, j - 1);
    }
  }

  /** What a release is for: once the owner has released at an instant, any other acquire takes
      the row exactly from the next database second on. */
  lemma ReleaseFreesNextSecond(row: LeaseRow, at: Time, e: LeaseEvent)
    requires e.op.Acquire?
    ensures
      var released := Execute(row, LeaseEvent(at, Release(row.owner)));
      released == LeaseRow(row.owner, DbNow(at)) && (RowAffected(released, e) <==> DbNow(e.at) > DbNow(at))
  {
    AcquireReportsTaking(Execute(row, LeaseEvent(at, Release(row.owner))), e);
  }

  /** Over runs, with any statements without effect in between: the first acquire in a later
      second takes the lease, and none in the second of the release does. */
  lemma {:induction false} ReleasedLeaseIsTaken(row: LeaseRow, events: seq<LeaseEvent>, released: nat, j: nat)
    requires released < j < |events|
    requires events[released].op == Release(RowAt(row, events, released).owner)
    requires forall k :: released < k < j ==> !RowAffected(RowAt(row, events, k), events[k])
    requires events[j].op.Acquire?
    ensures RowAffected(RowAt(row, events, j), events[j]) <==> DbNow(events[j].at) > DbNow(events[released].at)
    ensures RowAffected(RowAt(row, events, j), events[j]) ==>
      RowAt(row, events, j + 1) == LeaseRow(events[j].op.owner, DbNow(events[j].at) + LeaseSeconds(events[j].op.ttl))
  {
    IdleStatementsKeepRow(row, events, released + 1, j);
    ReleaseFreesNextSecond(RowAt(row, events, released), events[released].at, events[j]);
    assert RowAt(row, events, released + 1) == Execute(RowAt(row, events, released), events[released]);
    assert RowAt(row, events, j + 1) == Execute(RowAt(row, events, j), events[j]);
  }

  /** The lock row after a stray renewal: that of one lease. */
  lemma {:induction false} StrayRenewLeavesOneLease(
    row: LeaseRow, events: seq<LeaseEvent>, owner: string, ttl: Time, released: nat, stray: nat, j: nat)
    requires released < stray < j <= |events|
    requires RowAt(row, events, released).owner == owner
    requires events[released].op == Release(owner) && events[stray].op == Renew(owner, ttl)
    requires forall k :: released < k < j && k != stray ==> !RowAffected(RowAt(row, events, k), events[k])
    ensures RowAt(row, events, j) == LeaseRow(owner, DbNow(events[stray].at) + LeaseSeconds(ttl))
  {
    IdleStatementsKeepRow(row, events, released + 1, stray);
    assert RowAt(row, events, released + 1) == Execute(RowAt(row, events, released), events[released]);
    assert RowAt(row, events, stray + 1) == Execute(RowAt(row, events, stray), events[stray]);
    IdleStatementsKeepRow(row, events, stray + 1, j);
  }

  lemma TakesAfterLease(row: LeaseRow, e: LeaseEvent, start: Time, ttl: Time)
    requires row.expireAt == DbNow(start) + LeaseSeconds(ttl) && e.op.Acquire?
    ensures RowAffected(row, e) <==> DbNow(e.at) > DbNow(start) + LeaseSeconds(ttl)
    ensures e.at >= start + (LeaseSeconds(ttl) + 1) * SECOND ==> RowAffected(row, e)
  {
    AcquireReportsTaking(row, e);
  }

  /** A renewal that arrives after its owner's release delays the next takeover by one lease
      only: whatever other statements came meanwhile without effect, failed acquires included,
      the row is that lease, and an acquire takes it exactly when it is over. */
  lemma {:induction false} StrayRenewDelaysOneLease(
    row: LeaseRow, events: seq<LeaseEvent>, owner: string, ttl: Time, released: nat, stray: nat, j: nat)
    requires released < stray < j < |events|
    requires RowAt(row, events, released).owner == owner
    requires events[released].op == Release(owner) && events[stray].op == Renew(owner, ttl)
    requires forall k :: released < k < j && k != stray ==> !RowAffected(RowAt(row, events, k), events[k])
    requires events[j].op.Acquire?
    ensures RowAt(row, events, j) == LeaseRow(owner, DbNow(events[stray].at) + LeaseSeconds(ttl))
    ensures RowAffected(RowAt(row, events, j), events[j])
       <==> DbNow(events[j].at) > DbNow(events[stray].at) + LeaseSeconds(ttl)
    ensures events[j].at >= events[stray].at + (LeaseSeconds(ttl) + 1) * SECOND
       ==> RowAffected(RowAt(row, events, j), events[j])
  {
    StrayRenewLeavesOneLease(row, events, owner, ttl, released, stray, j);
    TakesAfterLease(RowAt(row, events, j), events[j], events[stray].at, ttl);
  }

  // ----- the renewal cadence -----

  /** The ticker's period: a third of the ttl, or a second when that is nothing. */
  function RenewInterval(ttl: Time): Time {
    if ttl / 3 <= 0 then SECOND else ttl / 3
  }

  /** Three ticks fit into the rounded lease exactly when the ttl is at least three
      nanoseconds; below that the one-second fallback period is as long as the lease. */
  lemma ThreeTicksFit(ttl: Time)
    requires ttl > 0
    ensures 3 * RenewInterval(ttl) <= LeaseSeconds(ttl) * SECOND <==> ttl >= 3
  {
    LeaseCoversTtl(ttl);
  }

  /** Right after the owner took or extended the lease at t0, its renewal at t1 is reported
      as successful exactly when the two fall into different seconds. */
  lemma RenewReportsExactly(row: LeaseRow, first: LeaseEvent, second: LeaseEvent, owner: string, ttl: Time)
    requires Extends(first, owner, ttl) && Matches(row, first)
    requires second.op == Renew(owner, ttl)
    ensures RowAffected(Execute(row, first), second) <==> DbNow(second.at) != DbNow(first.at)
    ensures second.at >= first.at + SECOND ==> RowAffected(Execute(row, first), second)
  {
  }

  /** The loop's first renewal after an acquire at t0, one interval later. */
  function FirstTick(owner: string, ttl: Time, t0: Time): LeaseEvent {
    LeaseEvent(t0 + RenewInterval(ttl), Renew(owner, ttl))
  }

  /** Whenever the lease is taken, its first renewal is reported. */
  ghost predicate FirstTickAlwaysReported(owner: string, ttl: Time) {
    forall row, t0 :: Matches(row, LeaseEvent(t0, Acquire(owner, ttl))) ==>
      RowAffected(Execute(row, LeaseEvent(t0, Acquire(owner, ttl))), FirstTick(owner, ttl, t0))
  }

  /** That holds exactly for a ttl of at least three seconds, and below three nanoseconds,
      where the period falls back to a second. For any other ttl the renewal of some acquire
      falls into its second, changes nothing, and the loop takes that for a lost lease. */
  lemma FirstTickReportedExactly(owner: string, ttl: Time)
    ensures FirstTickAlwaysReported(owner, ttl) <==> ttl >= 3 * SECOND || ttl < 3
  {
    if ttl >= 3 * SECOND || ttl < 3 {
      forall row, t0 | Matches(row, LeaseEvent(t0, Acquire(owner, ttl)))
        ensures RowAffected(Execute(row, LeaseEvent(t0, Acquire(owner, ttl))), FirstTick(owner, ttl, t0))
      {
        NextSecond(t0, t0 + RenewInterval(ttl));
      }
    } else {
      var row := LeaseRow("", -1);
      assert Matches(row, LeaseEvent(0, Acquire(owner, ttl)));
      assert DbNow(RenewInterval(ttl)) == DbNow(0);
      assert !RowAffected(Execute(row, LeaseEvent(0, Acquire(owner, ttl))), FirstTick(owner, ttl, 0));
    }
  }

  /** With the clock at 100 seconds and a ttl of two. */
  lemma ShortTtlStopsRenewing()
    ensures
      var ttl := 2 * SECOND;
      var acquired := Execute(LeaseRow("", 0), LeaseEvent(100 * SECOND, Acquire("a", ttl)));
      var tick := FirstTick("a", ttl, 100 * SECOND);
      acquired == LeaseRow("a", 102) && Matches(acquired, tick) && !RowAffected(acquired, tick)
  {
  }
}
