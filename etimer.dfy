// The event-timer list: caller-owned timers linked into one list, the next
// expiry computed in wrapping 32-bit clock arithmetic, and the poll that
// unlinks expired timers and calls their callbacks.

module Etimer {
  import opened Common

  /** The address of a caller-owned `struct etimer`. */
  type Id = nat

  /** `clock_time_t` arithmetic: a 32-bit unsigned tick count. */
  function Wrap(x: int): (w: nat)
    ensures w < U32
  {
    x % U32
  }

  /** `struct timer`: when it was set and for how long. */
  datatype Timer = Timer(start: nat, interval: nat)

  /** The function an expired timer calls (`NULL` is `None`). */
  datatype Fn = EtimerCallback | UserFn(addr: nat)

  /** `f` and `ptr` of a `struct etimer`. */
  datatype Callback = Callback(f: Option<Fn>, ptr: nat)

  /** The host timer behind the list (`etimer_timer`). */
  datatype HostTimer = Stopped | Armed(ticks: nat)

  /** `timer_expired`: more than `interval` ticks have passed since `start`, counted modulo 2^32. */
  predicate Expired(t: Timer, now: nat) {
    t.interval < Wrap(Wrap(now - t.start) + 1)
  }

  /** Ticks from `now` to the timer's deadline, modulo 2^32. */
  function Dist(t: Timer, now: nat): nat {
    Wrap(t.start + t.interval - now)
  }

  // ---------------------------------------------------------------- list functions

  /** No timer appears twice. */
  predicate NoDup(s: seq<Id>) {
    forall i, j :: 0 <= i < j < |s| ==> s[i] != s[j]
  }

  /** `add_timer`'s list: unchanged if the timer is on it, else the timer in front. */
  function Added(s: seq<Id>, id: Id): seq<Id> {
    if id in s then s else [id] + s
  }

  /** Adding keeps every timer once, and adds exactly `id`. */
  lemma AddedNoDup(s: seq<Id>, id: Id)
    requires NoDup(s)
    ensures NoDup(Added(s, id))
    ensures forall x :: x in Added(s, id) <==> x in s || x == id
    ensures id !in s ==> Added(s, id)[1..] == s
  {
    if id !in s {
      var a := Added(s, id);
      forall i, j | 0 <= i < j < |a| ensures a[i] != a[j] {
        if i == 0 {
          assert a[j] == s[j - 1];
        } else {
          assert a[i] == s[i - 1] && a[j] == s[j - 1];
        }
      }
    }
  }

  /** `etimer_stop`'s list: `id` unlinked, the others in their order. */
  function Without(s: seq<Id>, id: Id): (r: seq<Id>)
    ensures |r| <= |s|
  {
    if s == [] then []
    else (if s[0] == id then [] else [s[0]]) + Without(s[1..], id)
  }

  /** Unlinking the timer at `k` of a list without duplicates is `Without`. */
  lemma {:induction false} WithoutAt(s: seq<Id>, k: nat)
    requires NoDup(s) && k < |s|
    ensures Without(s, s[k]) == s[..k] + s[k + 1..]
    decreases |s|
  {
    if k == 0 {
      WithoutAbsent(s[1..], s[0]);
      assert s[..0] + s[1..] == s[1..];
    } else {
      assert NoDup(s[1..]) by {
        forall i, j | 0 <= i < j < |s[1..]| ensures s[1..][i] != s[1..][j] {
          assert s[1..][i] == s[i + 1] && s[1..][j] == s[j + 1];
        }
      }
      WithoutAt(s[1..], k - 1);
      assert s[1..][k - 1] == s[k];
      assert s[0] != s[k];
      assert s[..k] == [s[0]] + s[1..][..k - 1];
      assert s[k + 1..] == s[1..][k..];
    }
  }

  lemma {:induction false} WithoutAbsent(s: seq<Id>, id: Id)
    requires id !in s
    ensures Without(s, id) == s
    decreases |s|
  {
    if s != [] {
      WithoutAbsent(s[1..], id);
      assert [s[0]] + s[1..] == s;
    }
  }

  /** Unlinking keeps the others once each and drops `id`. */
  lemma {:induction false} WithoutNoDup(s: seq<Id>, id: Id)
    requires NoDup(s)
    ensures NoDup(Without(s, id))
    ensures forall x :: x in Without(s, id) <==> x in s && x != id
    decreases |s|
  {
    if s != [] {
      assert NoDup(s[1..]) by {
        forall i, j | 0 <= i < j < |s[1..]| ensures s[1..][i] != s[1..][j] {
          assert s[1..][i] == s[i + 1] && s[1..][j] == s[j + 1];
        }
      }
      WithoutNoDup(s[1..], id);
      var r := Without(s, id);
      var t := Without(s[1..], id);
      assert forall x :: x in s <==> x == s[0] || x in s[1..];
      if s[0] != id {
        assert r == [s[0]] + t;
        assert s[0] !in s[1..] by {
          forall i | 0 <= i < |s[1..]| ensures s[1..][i] != s[0] {
            assert s[1..][i] == s[i + 1];
          }
        }
        forall i, j | 0 <= i < j < |r| ensures r[i] != r[j] {
          if i == 0 {
            assert r[j] == t[j - 1];
          } else {
            assert r[i] == t[i - 1] && r[j] == t[j - 1];
          }
        }
      } else {
        assert r == t;
      }
    }
  }

  /** Timer `id` is known and has expired at `now`. */
  predicate IsDue(clocks: map<Id, Timer>, id: Id, now: nat) {
    id in clocks && Expired(clocks[id], now)
  }

  /** The timers of `s` still running at `now`, in list order. */
  function Kept(s: seq<Id>, clocks: map<Id, Timer>, now: nat): (r: seq<Id>)
    ensures |r| <= |s|
  {
    if s == [] then []
    else (if IsDue(clocks, s[0], now) then [] else [s[0]]) + Kept(s[1..], clocks, now)
  }

  /** The timers of `s` expired at `now`, in list order. */
  function Due(s: seq<Id>, clocks: map<Id, Timer>, now: nat): (r: seq<Id>)
    ensures |r| <= |s|
  {
    if s == [] then []
    else (if IsDue(clocks, s[0], now) then [s[0]] else []) + Due(s[1..], clocks, now)
  }

  /** The timers kept are exactly those of the list not expired. */
  lemma {:induction false} KeptMembers(s: seq<Id>, clocks: map<Id, Timer>, now: nat)
    ensures forall x :: x in Kept(s, clocks, now) <==> x in s && !IsDue(clocks, x, now)
    decreases |s|
  {
    if s != [] {
      KeptMembers(s[1..], clocks, now);
      assert forall x :: x in s <==> x == s[0] || x in s[1..];
    }
  }

  /** The timers removed are exactly those of the list expired. */
  lemma {:induction false} DueMembers(s: seq<Id>, clocks: map<Id, Timer>, now: nat)
    ensures forall x :: x in Due(s, clocks, now) <==> x in s && IsDue(clocks, x, now)
    decreases |s|
  {
    if s != [] {
      DueMembers(s[1..], clocks, now);
      assert forall x :: x in s <==> x == s[0] || x in s[1..];
    }
  }

  /** Kept and removed timers together are the list: nothing lost, nothing doubled. */
  lemma {:induction false} PollPartition(s: seq<Id>, clocks: map<Id, Timer>, now: nat)
    ensures multiset(Kept(s, clocks, now)) + multiset(Due(s, clocks, now)) == multiset(s)
    decreases |s|
  {
    if s != [] {
      PollPartition(s[1..], clocks, now);
      assert s == [s[0]] + s[1..];
    }
  }

  lemma {:induction false} KeptAppend(a: seq<Id>, b: seq<Id>, clocks: map<Id, Timer>, now: nat)
    ensures Kept(a + b, clocks, now) == Kept(a, clocks, now) + Kept(b, clocks, now)
    decreases |a|
  {
    if a == [] {
      assert a + b == b;
    } else {
      assert (a + b)[1..] == a[1..] + b;
      KeptAppend(a[1..], b, clocks, now);
    }
  }

  lemma {:induction false} DueAppend(a: seq<Id>, b: seq<Id>, clocks: map<Id, Timer>, now: nat)
    ensures Due(a + b, clocks, now) == Due(a, clocks, now) + Due(b, clocks, now)
    decreases |a|
  {
    if a == [] {
      assert a + b == b;
    } else {
      assert (a + b)[1..] == a[1..] + b;
      DueAppend(a[1..], b, clocks, now);
    }
  }

  /** A list none of whose timers has expired is kept whole. */
  lemma {:induction false} NoneExpired(s: seq<Id>, clocks: map<Id, Timer>, now: nat)
    requires forall j :: 0 <= j < |s| ==> !IsDue(clocks, s[j], now)
    ensures Kept(s, clocks, now) == s && Due(s, clocks, now) == []
    decreases |s|
  {
    if s != [] {
      assert !IsDue(clocks, s[0], now);
      NoneExpired(s[1..], clocks, now);
      assert [s[0]] + s[1..] == s;
    }
  }

  /** Timer `id` is known and has a function to call. */
  predicate HasFn(cbs: map<Id, Callback>, id: Id) {
    id in cbs && cbs[id].f.Some?
  }

  /** The callbacks an expired list calls, in order; a `NULL` function is skipped. */
  function CallsOf(s: seq<Id>, cbs: map<Id, Callback>): seq<Callback> {
    if s == [] then []
    else (if HasFn(cbs, s[0]) then [cbs[s[0]]] else []) + CallsOf(s[1..], cbs)
  }

  lemma {:induction false} CallsOfAppend(a: seq<Id>, b: seq<Id>, cbs: map<Id, Callback>)
    ensures CallsOf(a + b, cbs) == CallsOf(a, cbs) + CallsOf(b, cbs)
    decreases |a|
  {
    if a == [] {
      assert a + b == b;
    } else {
      assert (a + b)[1..] == a[1..] + b;
      CallsOfAppend(a[1..], b, cbs);
    }
  }

  /** Removing the first expired timer changes neither what is kept nor, after it, what is due. */
  lemma PollRemove(s: seq<Id>, i: nat, clocks: map<Id, Timer>, now: nat)
    requires i < |s|
    requires forall j :: 0 <= j < i ==> !IsDue(clocks, s[j], now)
    requires IsDue(clocks, s[i], now)
    ensures Kept(s[..i] + s[i + 1..], clocks, now) == Kept(s, clocks, now)
    ensures Due(s, clocks, now) == [s[i]] + Due(s[..i] + s[i + 1..], clocks, now)
  {
    var p, q := s[..i], s[i + 1..];
    assert forall j :: 0 <= j < |p| ==> p[j] == s[j];
    assert s == p + ([s[i]] + q);
    RemoveAfterKept(p, s[i], q, clocks, now);
  }

  lemma RemoveAfterKept(p: seq<Id>, x: Id, q: seq<Id>, clocks: map<Id, Timer>, now: nat)
    requires forall j :: 0 <= j < |p| ==> !IsDue(clocks, p[j], now)
    requires IsDue(clocks, x, now)
    ensures Kept(p + q, clocks, now) == Kept(p + ([x] + q), clocks, now)
    ensures Due(p + ([x] + q), clocks, now) == [x] + Due(p + q, clocks, now)
  {
    NoneExpired(p, clocks, now);
    KeptAppend(p, [x] + q, clocks, now);
    DueAppend(p, [x] + q, clocks, now);
    KeptAppend(p, q, clocks, now);
    DueAppend(p, q, clocks, now);
    assert ([x] + q)[1..] == q;
  }

  /** The bookkeeping of one removal of the poll, on values. */
  lemma SweepStep(removed: seq<Id>, t: Id, due: seq<Id>, calls0: seq<Callback>, calls1: seq<Callback>,
                  cbs: map<Id, Callback>, active0: set<Id>, active1: set<Id>)
    requires calls1 == calls0 + CallsOf(removed, cbs)
    requires active1 == active0 - set x | x in removed
    ensures calls1 + CallsOf([t], cbs) == calls0 + CallsOf(removed + [t], cbs)
    ensures active1 - {t} == active0 - set x | x in removed + [t]
    ensures removed + ([t] + due) == (removed + [t]) + due
  {
    CallsOfAppend(removed, [t], cbs);
    assert (set x | x in removed + [t]) == (set x | x in removed) + {t};
  }

  /** The loop of `update_time`: the smallest distance to a deadline over a non-empty list. */
  function MinDist(s: seq<Id>, clocks: map<Id, Timer>, now: nat): nat
    requires s != [] && forall x :: x in s ==> x in clocks
  {
    if |s| == 1 then Dist(clocks[s[0]], now)
    else
      var m := MinDist(s[..|s| - 1], clocks, now);
      var d := Dist(clocks[s[|s| - 1]], now);
      if d < m then d else m
  }

  /** The minimum is the distance of some timer on the list and no timer is nearer. */
  lemma {:induction false} MinDistIsMin(s: seq<Id>, clocks: map<Id, Timer>, now: nat)
    requires s != [] && forall x :: x in s ==> x in clocks
    ensures forall j :: 0 <= j < |s| ==> MinDist(s, clocks, now) <= Dist(clocks[s[j]], now)
    ensures exists j :: 0 <= j < |s| && MinDist(s, clocks, now) == Dist(clocks[s[j]], now)
    ensures MinDist(s, clocks, now) < U32
    decreases |s|
  {
    if |s| == 1 {
      assert MinDist(s, clocks, now) == Dist(clocks[s[0]], now);
    } else {
      var p := s[..|s| - 1];
      assert forall x :: x in p ==> x in s;
      MinDistIsMin(p, clocks, now);
      var j :| 0 <= j < |p| && MinDist(p, clocks, now) == Dist(clocks[p[j]], now);
      assert p[j] == s[j];
      var last := |s| - 1;
      if Dist(clocks[s[last]], now) < MinDist(p, clocks, now) {
        assert MinDist(s, clocks, now) == Dist(clocks[s[last]], now);
      } else {
        assert MinDist(s, clocks, now) == Dist(clocks[s[j]], now);
      }
      forall k | 0 <= k < |s| ensures MinDist(s, clocks, now) <= Dist(clocks[s[k]], now) {
        if k < |s| - 1 {
          assert p[k] == s[k];
        }
      }
    }
  }

  /**
   * `update_time` sets the next expiry to the earliest deadline on the list:
   * no deadline is nearer to `now`, counted modulo 2^32, and one is that near.
   */
  lemma NextIsEarliest(s: seq<Id>, clocks: map<Id, Timer>, now: nat)
    requires now < U32 && s != [] && forall x :: x in s ==> x in clocks
    ensures var next := Wrap(now + MinDist(s, clocks, now));
            && (forall j :: 0 <= j < |s| ==> Wrap(next - now) <= Dist(clocks[s[j]], now))
            && (exists j :: 0 <= j < |s| && Wrap(next - now) == Dist(clocks[s[j]], now))
  {
    MinDistIsMin(s, clocks, now);
    var m := MinDist(s, clocks, now);
    WrapBack(now, m);
  }

  lemma WrapBack(now: nat, m: nat)
    requires now < U32 && m < U32
    ensures Wrap(Wrap(now + m) - now) == m
  {
    if now + m >= U32 {
      assert Wrap(now + m) == now + m - U32;
    }
  }

  /** What `update_time` leaves: the next expiry and the host timer, or nothing while polling. */
  function Refreshed(s: seq<Id>, clocks: map<Id, Timer>, now: nat, polling: bool,
                     next: nat, host: HostTimer): (r: (nat, HostTimer))
    requires forall x :: x in s ==> x in clocks
  {
    if polling then (next, host)
    else if s == [] then (0, Stopped)
    else
      var d := MinDist(s, clocks, now);
      (Wrap(now + d), Armed(d))
  }

  /** A list of known, active timers, each once. */
  predicate Linked(s: seq<Id>, clocks: map<Id, Timer>, cbs: map<Id, Callback>, active: set<Id>) {
    NoDup(s) && forall x :: x in s ==> x in clocks && x in cbs && x in active
  }

  /** Unlinking a timer and clearing its `active` flag keeps the list well linked. */
  lemma LinkedWithout(s: seq<Id>, t: Id, clocks: map<Id, Timer>, cbs: map<Id, Callback>, active: set<Id>)
    requires Linked(s, clocks, cbs, active)
    ensures Linked(Without(s, t), clocks, cbs, active - {t})
  {
    WithoutNoDup(s, t);
  }

  /** Linking a known timer and setting its `active` flag keeps the list well linked. */
  lemma LinkedAdded(s: seq<Id>, t: Id, clocks: map<Id, Timer>, cbs: map<Id, Callback>, active: set<Id>)
    requires Linked(s, clocks, cbs, active) && t in clocks && t in cbs
    ensures Linked(Added(s, t), clocks, cbs, active + {t})
  {
    AddedNoDup(s, t);
  }

  // ---------------------------------------------------------------- the list

  /**
   * The module's state: `timerlist`, `next_expiration`, `polling` and
   * `etimer_timer`, with the caller-owned `struct etimer`s keyed by address:
   * each one's `struct timer`, its `active` flag and its callback. `calls`
   * records every callback the poll makes.
   */
  class EtimerList {
    var timerlist: seq<Id>
    var clocks: map<Id, Timer>
    var active: set<Id>
    var callbacks: map<Id, Callback>
    var nextExpiration: nat
    var polling: bool
    var host: HostTimer
    var calls: seq<Callback>

    /** Every listed timer is known, active, and listed once. */
    ghost predicate Valid()
      reads this
    {
      && Linked(timerlist, clocks, callbacks, active)
      && (forall x :: x in clocks ==> clocks[x].start < U32 && clocks[x].interval < U32)
      && nextExpiration < U32
    }

    /** `etimer_init`: an empty list, a stopped host timer, not polling. */
    constructor ()
      ensures Valid() && timerlist == [] && !polling && host == Stopped && calls == []
      ensures clocks == map[] && callbacks == map[] && active == {}
    {
      timerlist := [];
      clocks := map[];
      active := {};
      callbacks := map[];
      nextExpiration := 0;
      polling := false;
      host := Stopped;
      calls := [];
    }

    /** `update_time`. */
    method UpdateTime(now: nat)
      requires Valid() && now < U32
      modifies this
      ensures Valid()
      ensures (nextExpiration, host) == Refreshed(timerlist, clocks, now, polling, old(nextExpiration), old(host))
      ensures timerlist == old(timerlist) && clocks == old(clocks) && active == old(active)
      ensures callbacks == old(callbacks) && polling == old(polling) && calls == old(calls)
    {
      if polling {
        return;
      }
      if timerlist == [] {
        nextExpiration := 0;
        host := Stopped;
      } else {
        var tdist := Dist(clocks[timerlist[0]], now);
        var j := 1;
        while j < |timerlist|
          invariant 1 <= j <= |timerlist|
          invariant tdist == MinDist(timerlist[..j], clocks, now)
        {
          var d := Dist(clocks[timerlist[j]], now);
          assert timerlist[..j + 1][..j] == timerlist[..j];
          if d < tdist {
            tdist := d;
          }
          j := j + 1;
        }
        assert timerlist[..j] == timerlist;
        nextExpiration := Wrap(now + tdist);
        host := Armed(tdist);
      }
    }

    /** The search of `add_timer`: is `id` on the list? */
    method Find(id: Id) returns (found: bool)
      requires Valid()
      ensures found <==> id in timerlist
    {
      var i := 0;
      while i < |timerlist|
        invariant 0 <= i <= |timerlist|
        invariant id !in timerlist[..i]
      {
        if timerlist[i] == id {
          return true;
        }
        assert timerlist[..i + 1] == timerlist[..i] + [timerlist[i]];
        i := i + 1;
      }
      assert timerlist[..i] == timerlist;
      return false;
    }

    /** `add_timer`: the timer becomes active and is put in front, unless already listed. */
    method AddTimer(id: Id, now: nat)
      requires Valid() && now < U32 && id in clocks && id in callbacks
      modifies this
      ensures Valid()
      ensures timerlist == Added(old(timerlist), id) && active == old(active) + {id}
      ensures clocks == old(clocks) && callbacks == old(callbacks) && calls == old(calls) && polling == old(polling)
      ensures (nextExpiration, host) == Refreshed(timerlist, clocks, now, polling, old(nextExpiration), old(host))
    {
      if id in active {
        var found := Find(id);
        if found {
          UpdateTime(now);
          return;
        }
      }
      LinkedAdded(timerlist, id, clocks, callbacks, active);
      active := active + {id};
      timerlist := [id] + timerlist;
      UpdateTime(now);
    }

    /** `etimer_set`: the default callback with the timer itself as argument, set from `now`. */
    method Set(id: Id, interval: nat, now: nat)
      requires Valid() && now < U32 && interval < U32
      modifies this
      ensures Valid()
      ensures clocks == old(clocks)[id := Timer(now, interval)]
      ensures callbacks == old(callbacks)[id := Callback(Some(EtimerCallback), id)]
      ensures timerlist == Added(old(timerlist), id) && active == old(active) + {id}
      ensures calls == old(calls) && polling == old(polling)
      ensures (nextExpiration, host) == Refreshed(timerlist, clocks, now, polling, old(nextExpiration), old(host))
    {
      callbacks := callbacks[id := Callback(Some(EtimerCallback), id)];
      clocks := clocks[id := Timer(now, interval)];
      AddTimer(id, now);
    }

    /** `etimer_set_callback`: the same with a caller's function and argument. */
    method SetCallback(id: Id, interval: nat, f: Option<Fn>, ptr: nat, now: nat)
      requires Valid() && now < U32 && interval < U32
      modifies this
      ensures Valid()
      ensures clocks == old(clocks)[id := Timer(now, interval)]
      ensures callbacks == old(callbacks)[id := Callback(f, ptr)]
      ensures timerlist == Added(old(timerlist), id) && active == old(active) + {id}
      ensures calls == old(calls) && polling == old(polling)
      ensures (nextExpiration, host) == Refreshed(timerlist, clocks, now, polling, old(nextExpiration), old(host))
    {
      callbacks := callbacks[id := Callback(f, ptr)];
      clocks := clocks[id := Timer(now, interval)];
      AddTimer(id, now);
    }

    /** `etimer_adjust`: the start moved by `timediff` ticks, modulo 2^32. */
    method Adjust(id: Id, timediff: int, now: nat)
      requires Valid() && now < U32 && id in clocks
      modifies this
      ensures Valid()
      ensures clocks == old(clocks)[id := old(clocks[id]).(start := Wrap(old(clocks[id]).start + timediff))]
      ensures timerlist == old(timerlist) && active == old(active) && callbacks == old(callbacks)
      ensures calls == old(calls) && polling == old(polling)
      ensures (nextExpiration, host) == Refreshed(timerlist, clocks, now, polling, old(nextExpiration), old(host))
    {
      clocks := clocks[id := clocks[id].(start := Wrap(clocks[id].start + timediff))];
      UpdateTime(now);
    }

    /**
     * The scan of `etimer_stop` for the timer whose `next` is `id`: its
     * position, or the length of the list when no timer precedes `id`.
     */
    method Predecessor(id: Id) returns (t: nat)
      requires Valid() && (timerlist == [] || timerlist[0] != id)
      ensures t <= |timerlist|
      ensures forall j :: 0 <= j <= t && j < |timerlist| ==> timerlist[j] != id
      ensures t < |timerlist| ==> t + 1 < |timerlist| && timerlist[t + 1] == id
    {
      t := 0;
      while t < |timerlist| && (t + 1 >= |timerlist| || timerlist[t + 1] != id)
        invariant 0 <= t <= |timerlist|
        invariant forall j :: 0 <= j <= t && j < |timerlist| ==> timerlist[j] != id
      {
        t := t + 1;
      }
    }

    /**
     * `etimer_stop`: unlinked if listed (and the expiry recomputed), always
     * inactive. The flag is cleared before the recomputation, which does not
     * read it.
     */
    method Stop(id: Id, now: nat)
      requires Valid() && now < U32
      modifies this
      ensures Valid()
      ensures timerlist == Without(old(timerlist), id) && active == old(active) - {id}
      ensures clocks == old(clocks) && callbacks == old(callbacks) && calls == old(calls) && polling == old(polling)
      ensures id in old(timerlist) ==>
                (nextExpiration, host) == Refreshed(timerlist, clocks, now, polling, old(nextExpiration), old(host))
      ensures id !in old(timerlist) ==> nextExpiration == old(nextExpiration) && host == old(host)
    {
      ghost var s := timerlist;
      var k: nat := 0;
      if timerlist == [] || timerlist[0] != id {
        var t := Predecessor(id);
        k := if t < |timerlist| then t + 1 else |timerlist|;
      }
      if k < |timerlist| {
        assert Without(s, id) == s[..k] + s[k + 1..] && Linked(Without(s, id), clocks, callbacks, active - {id}) by {
          LinkedWithout(s, id, clocks, callbacks, active);
          WithoutAt(s, k);
        }
        timerlist := timerlist[..k] + timerlist[k + 1..];
        active := active - {id};
        UpdateTime(now);
      } else {
        assert Without(s, id) == s && Linked(s, clocks, callbacks, active - {id}) by {
          assert id !in s;
          LinkedWithout(s, id, clocks, callbacks, active);
          WithoutAbsent(s, id);
        }
        active := active - {id};
      }
    }

    /**
     * `etimer_request_poll`: nothing unless the host timer has fired; then,
     * with the clock at `now`, every expired timer is unlinked, made inactive
     * and its callback called, the others stay in order, and the expiry is
     * recomputed.
     */
    method RequestPoll(now: nat, fired: bool)
      requires Valid() && now < U32 && !polling
      modifies this
      ensures Valid() && !polling && clocks == old(clocks) && callbacks == old(callbacks)
      ensures !fired ==> timerlist == old(timerlist) && active == old(active) && calls == old(calls)
                         && nextExpiration == old(nextExpiration) && host == old(host)
      ensures fired ==>
                && timerlist == Kept(old(timerlist), clocks, now)
                && active == old(active) - set x | x in Due(old(timerlist), clocks, now)
                && calls == old(calls) + CallsOf(Due(old(timerlist), clocks, now), callbacks)
                && (nextExpiration, host) == Refreshed(timerlist, clocks, now, false, old(nextExpiration), old(host))
    {
      if !fired {
        return;
      }
      polling := true;
      Sweep(now);
      polling := false;
      UpdateTime(now);
    }

    /** The `goto again` loop of the poll: restart from the head after every removal. */
    method Sweep(now: nat)
      requires Valid() && polling
      modifies this
      ensures Valid() && polling && clocks == old(clocks) && callbacks == old(callbacks)
      ensures nextExpiration == old(nextExpiration) && host == old(host)
      ensures timerlist == Kept(old(timerlist), clocks, now)
      ensures active == old(active) - set x | x in Due(old(timerlist), clocks, now)
      ensures calls == old(calls) + CallsOf(Due(old(timerlist), clocks, now), callbacks)
    {
      ghost var removed: seq<Id> := [];
      var i := 0;
      while i < |timerlist|
        invariant Valid() && polling && clocks == old(clocks) && callbacks == old(callbacks)
        invariant 0 <= i <= |timerlist|
        invariant forall j :: 0 <= j < i ==> !IsDue(clocks, timerlist[j], now)
        invariant Kept(timerlist, clocks, now) == Kept(old(timerlist), clocks, now)
        invariant removed + Due(timerlist, clocks, now) == Due(old(timerlist), clocks, now)
        invariant active == old(active) - set x | x in removed
        invariant calls == old(calls) + CallsOf(removed, callbacks)
        invariant nextExpiration == old(nextExpiration) && host == old(host)
        decreases |timerlist|, |timerlist| - i
      {
        var t := timerlist[i];
        if IsDue(clocks, t, now) {
          ghost var before := (active, calls);
          Unlink(i, now);
          SweepStep(removed, t, Due(timerlist, clocks, now), old(calls), before.1, callbacks, old(active), before.0);
          removed := removed + [t];
          i := 0;
        } else {
          i := i + 1;
        }
      }
      NoneExpired(timerlist, clocks, now);
      assert removed == Due(old(timerlist), clocks, now);
    }

    /** One step of the poll: the first expired timer, at `i`, is unlinked, made inactive and called. */
    method Unlink(i: nat, now: nat)
      requires Valid() && polling && i < |timerlist|
      requires forall j :: 0 <= j < i ==> !IsDue(clocks, timerlist[j], now)
      requires IsDue(clocks, timerlist[i], now)
      modifies this
      ensures Valid() && polling && clocks == old(clocks) && callbacks == old(callbacks)
      ensures nextExpiration == old(nextExpiration) && host == old(host)
      ensures timerlist == Without(old(timerlist), old(timerlist)[i]) && |timerlist| == |old(timerlist)| - 1
      ensures Kept(timerlist, clocks, now) == Kept(old(timerlist), clocks, now)
      ensures Due(old(timerlist), clocks, now) == [old(timerlist)[i]] + Due(timerlist, clocks, now)
      ensures active == old(active) - {old(timerlist)[i]}
      ensures calls == old(calls) + CallsOf([old(timerlist)[i]], callbacks)
    {
      var t := timerlist[i];
      ghost var s, r := timerlist, timerlist[..i] + timerlist[i + 1..];
      assert && Without(s, t) == r && |r| == |s| - 1 && Linked(r, clocks, callbacks, active - {t})
             && Kept(r, clocks, now) == Kept(s, clocks, now)
             && Due(s, clocks, now) == [t] + Due(r, clocks, now) by {
        PollRemove(s, i, clocks, now);
        WithoutAt(s, i);
        LinkedWithout(s, t, clocks, callbacks, active);
      }
      timerlist := timerlist[..i] + timerlist[i + 1..];
      active := active - {t};
      if HasFn(callbacks, t) {
        calls := calls + [callbacks[t]];
      }
    }

    /** `etimer_expired`: a timer has expired exactly when it is not active. */
    function IsExpired(id: Id): (r: bool)
      reads this
      ensures r <==> id !in active
    {
      id !in active
    }

    /** `etimer_expiration_time`: start plus interval, modulo 2^32. */
    function ExpirationTime(id: Id): (r: nat)
      requires id in clocks
      reads this
      ensures r < U32 && r == Wrap(clocks[id].start + clocks[id].interval)
    {
      Wrap(clocks[id].start + clocks[id].interval)
    }

    /** `etimer_start_time`. */
    function StartTime(id: Id): nat
      requires id in clocks
      reads this
    {
      clocks[id].start
    }

    /** `etimer_pending`: some timer is listed. */
    function Pending(): (r: bool)
      reads this
      ensures r <==> |timerlist| > 0
    {
      timerlist != []
    }

    /** `etimer_next_expiration_time`: 0 when nothing is pending. */
    function NextExpirationTime(): (r: nat)
      reads this
      ensures timerlist == [] ==> r == 0
      ensures timerlist != [] ==> r == nextExpiration
    {
      if Pending() then nextExpiration else 0
    }
  }
}
