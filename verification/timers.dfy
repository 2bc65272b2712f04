/** `setTimeout` / `clearTimeout` on a logical clock. A component's live
    timers are a table from handle to deadline (in milliseconds); handles
    are handed out fresh and are never 0, so a stored handle is always
    truthy. Every timer in these components runs the same kind of callback,
    one that hides something, so the table only records when each fires. */
module Timers {

  datatype Queue = Queue(live: map<nat, nat>, nextId: nat)

  /** No timer scheduled yet. */
  const NoTimers: Queue := Queue(map[], 1)

  /** Handles are positive and every live one was handed out already. */
  predicate Valid(q: Queue) {
    0 < q.nextId && forall id :: id in q.live ==> 0 < id < q.nextId
  }

  /** The set of deadlines still to fire. */
  function Deadlines(q: Queue): set<nat> {
    q.live.Values
  }

  /** `setTimeout(callback, delay)` at time `now`: a fresh handle whose
      callback fires at `now + delay`. */
  function Schedule(q: Queue, now: nat, delay: nat): (r: (Queue, nat))
    ensures r.0.live == q.live[r.1 := now + delay]
    ensures Valid(q) ==> Valid(r.0) && r.1 !in q.live && 0 < r.1
  {
    var id := q.nextId;
    (Queue(q.live[id := now + delay], id + 1), id)
  }

  /** `clearTimeout(id)`: the timer no longer fires; clearing a handle that
      already fired or was cleared does nothing. */
  function Cancel(q: Queue, id: nat): (r: Queue)
    ensures r.live.Keys == q.live.Keys - {id}
    ensures forall k :: k in r.live ==> r.live[k] == q.live[k]
    ensures Valid(q) ==> Valid(r)
  {
    q.(live := q.live - {id})
  }

  /** The handles whose deadline has been reached by time `now`. */
  function Due(q: Queue, now: nat): (r: set<nat>)
    ensures forall id :: id in r <==> id in q.live && q.live[id] <= now
  {
    set id | id in q.live && q.live[id] <= now
  }

  /** Advancing the clock to `now`: every due timer fires and leaves the
      table, the others stay as they were. */
  function Expire(q: Queue, now: nat): (r: Queue)
    ensures r.live.Keys == q.live.Keys - Due(q, now)
    ensures forall id :: id in r.live ==> r.live[id] == q.live[id] > now
    ensures Valid(q) ==> Valid(r)
  {
    q.(live := map id | id in q.live && q.live[id] > now :: q.live[id])
  }

  /** A flag that a show raises and a later timer lowers, with hides that
      are never cancelled: the success toast of the contact form and the
      "Email Copied!" label of the profile card both work like this. */
  datatype Flash = Flash(shown: bool, hides: Queue)

  const Hidden: Flash := Flash(false, NoTimers)

  /** Raise the flag at time `now` and schedule its hide `delay` ms later.
      Hides already due by `now` have run before the show; every later hide
      from an earlier show stays in place. */
  function Show(f: Flash, now: nat, delay: nat): (r: Flash)
    ensures r.shown
    ensures now + delay in Deadlines(r.hides)
    ensures forall d :: d in Deadlines(r.hides) ==> d == now + delay || (d in Deadlines(f.hides) && d > now)
    ensures Valid(f.hides) ==>
              && Valid(r.hides)
              && forall d :: d in Deadlines(f.hides) && d > now ==> d in Deadlines(r.hides)
  {
    var pending := Expire(f.hides, now);
    var (q, id) := Schedule(pending, now, delay);
    assert q.live[id] == now + delay;
    assert forall d :: d in Deadlines(q) ==> d == now + delay || (d in Deadlines(f.hides) && d > now) by {
      forall d | d in Deadlines(q)
        ensures d == now + delay || (d in Deadlines(f.hides) && d > now)
      {
        var k :| k in q.live && q.live[k] == d;
        if k != id {
          assert k in pending.live;
          assert f.hides.live[k] == d;
        }
      }
    }
    assert Valid(f.hides) ==> forall d :: d in Deadlines(f.hides) && d > now ==> d in Deadlines(q) by {
      if Valid(f.hides) {
        forall d | d in Deadlines(f.hides) && d > now
          ensures d in Deadlines(q)
        {
          var k :| k in f.hides.live && f.hides.live[k] == d;
          assert k in pending.live && k != id;
          assert q.live[k] == d;
        }
      }
    }
    Flash(true, q)
  }

  /** The clock reaches `now`: if any hide is due the flag drops. */
  function Tick(f: Flash, now: nat): (r: Flash)
    ensures r.shown <==> f.shown && Due(f.hides, now) == {}
    ensures forall d :: d in Deadlines(r.hides) <==> d in Deadlines(f.hides) && d > now
    ensures Valid(f.hides) ==> Valid(r.hides)
  {
    var q := Expire(f.hides, now);
    assert forall d :: d in Deadlines(f.hides) && d > now ==> d in Deadlines(q) by {
      forall d | d in Deadlines(f.hides) && d > now
        ensures d in Deadlines(q)
      {
        var id :| id in f.hides.live && f.hides.live[id] == d;
        assert id in q.live;
      }
    }
    Flash(f.shown && Due(f.hides, now) == {}, q)
  }

  /** A flag shown at `now` stays up until `now + delay` when no earlier
      hide falls strictly inside that interval, and is down from then on. */
  lemma ShowLastsItsDelay(f: Flash, now: nat, delay: nat, t: nat)
    requires forall d :: d in Deadlines(f.hides) ==> d <= now || d >= now + delay
    ensures Tick(Show(f, now, delay), t).shown <==> t < now + delay
  {
    var g := Show(f, now, delay);
    if t < now + delay {
      forall k | k in g.hides.live
        ensures g.hides.live[k] > t
      {
        assert g.hides.live[k] in Deadlines(g.hides);
      }
    } else {
      var k :| k in g.hides.live && g.hides.live[k] == now + delay;
      assert k in Due(g.hides, t);
    }
  }

  /** Because a show never cancels the hide an earlier show scheduled, that
      older hide still fires and lowers the flag before the new show's own
      delay has elapsed. */
  lemma StaleHideCutsShowShort(f: Flash, now: nat, delay: nat, d: nat)
    requires Valid(f.hides)
    requires d in Deadlines(f.hides) && now < d < now + delay
    ensures !Tick(Show(f, now, delay), d).shown
  {
  }
}
