/**
  The selection rule of one cycle of the cleanup sweep: which sessions and
  which users the two `filter` conditions pick for deletion, given the time
  each `datetime.now()` call returns.
 */
module Cleanup {
  import opened Records

  /** One day in microseconds, the resolution of `datetime` and `timedelta`. */
  const Day: int := 86400 * 1000000

  /** `SESSION_LIFE`, seven days */
  const SessionLife: int := 7 * Day

  /** `INVITE_LIFE`, two days */
  const InviteLife: int := 2 * Day

  /**
    `Session.created_at < datetime.now() - SESSION_LIFE`. On a NULL column
    SQL's `<` is unknown, and `filter` keeps only rows where it is true.
   */
  predicate SessionExpired(s: Session, now: Timestamp) {
    s.createdAt.Some? && s.createdAt.value < now - SessionLife
  }

  /**
    `User.invited_at < datetime.now() - INVITE_LIFE`, false on NULL: neither
    `activated` nor `invite_code` is looked at.
   */
  predicate InviteExpired(u: User, now: Timestamp) {
    u.invitedAt.Some? && u.invitedAt.value < now - InviteLife
  }

  /**
    The rows of `xs` that satisfy `keep`: what a query's `filter(...).all()`
    returns. SQL gives such a query no order; the model keeps table order.
   */
  function Filter<T(==,!new)>(xs: seq<T>, keep: T -> bool): (r: seq<T>)
    ensures |r| <= |xs|
    ensures forall x :: x in r <==> x in xs && keep(x)
    ensures forall x :: multiset(r)[x] == if keep(x) then multiset(xs)[x] else 0
  {
    if xs == [] then []
    else
      assert xs == [xs[0]] + xs[1..];
      (if keep(xs[0]) then [xs[0]] else []) + Filter(xs[1..], keep)
  }

  /** The sessions the first query selects. */
  function SelectSessions(sessions: seq<Session>, now: Timestamp): (r: seq<Session>)
    ensures forall s :: s in r <==> s in sessions && SessionExpired(s, now)
    ensures forall s :: multiset(r)[s] == if SessionExpired(s, now) then multiset(sessions)[s] else 0
  {
    Filter(sessions, s => SessionExpired(s, now))
  }

  /** The users the second query selects. */
  function SelectUsers(users: seq<User>, now: Timestamp): (r: seq<User>)
    ensures forall u :: u in r <==> u in users && InviteExpired(u, now)
    ensures forall u :: multiset(r)[u] == if InviteExpired(u, now) then multiset(users)[u] else 0
  {
    Filter(users, u => InviteExpired(u, now))
  }

  /**
    One cycle's selection. The source reads the clock once per query, so the
    session query sees `sessionNow` and the user query `userNow`.
   */
  function SweepSelection(store: Store, sessionNow: Timestamp, userNow: Timestamp): (sel: Store)
    ensures forall s :: s in sel.sessions <==> s in store.sessions && SessionExpired(s, sessionNow)
    ensures forall u :: u in sel.users <==> u in store.users && InviteExpired(u, userNow)
    ensures |sel.sessions| <= |store.sessions| && |sel.users| <= |store.users|
  {
    Store(SelectUsers(store.users, userNow), SelectSessions(store.sessions, sessionNow))
  }

  /** A record exactly as old as its lifetime is kept; one microsecond more and it is selected. */
  lemma ExpiryIsStrict(s: Session, u: User)
    ensures s.createdAt.Some? ==>
              !SessionExpired(s, s.createdAt.value + SessionLife) && SessionExpired(s, s.createdAt.value + SessionLife + 1)
    ensures u.invitedAt.Some? ==>
              !InviteExpired(u, u.invitedAt.value + InviteLife) && InviteExpired(u, u.invitedAt.value + InviteLife + 1)
  {
  }

  /** A row whose timestamp is NULL is never selected, however late the cycle runs. */
  lemma NullTimestampNeverSelected(store: Store, sessionNow: Timestamp, userNow: Timestamp)
    ensures forall s :: s in SweepSelection(store, sessionNow, userNow).sessions ==> s.createdAt.Some?
    ensures forall u :: u in SweepSelection(store, sessionNow, userNow).users ==> u.invitedAt.Some?
  {
  }

  /** Filtering by a stronger condition after a weaker one is filtering by the stronger one alone. */
  lemma {:induction false} FilterNarrows<T(!new)>(xs: seq<T>, strong: T -> bool, weak: T -> bool)
    requires forall x :: strong(x) ==> weak(x)
    ensures Filter(Filter(xs, weak), strong) == Filter(xs, strong)
  {
    if xs != [] {
      FilterNarrows(xs[1..], strong, weak);
      var rest := Filter(xs[1..], weak);
      if weak(xs[0]) {
        assert Filter(xs, weak) == [xs[0]] + rest;
        assert ([xs[0]] + rest)[1..] == rest;
      } else {
        assert Filter(xs, weak) == rest;
      }
    }
  }

  /**
    Selection is monotone in time: what is selected at `now` is, in the same
    order and with the same multiplicities, part of what is selected at any
    later time.
   */
  lemma SelectionIsMonotone(store: Store, now: Timestamp, later: Timestamp)
    requires now <= later
    ensures SelectSessions(SelectSessions(store.sessions, later), now) == SelectSessions(store.sessions, now)
    ensures SelectUsers(SelectUsers(store.users, later), now) == SelectUsers(store.users, now)
    ensures multiset(SelectSessions(store.sessions, now)) <= multiset(SelectSessions(store.sessions, later))
    ensures multiset(SelectUsers(store.users, now)) <= multiset(SelectUsers(store.users, later))
  {
    FilterNarrows(store.sessions, s => SessionExpired(s, now), s => SessionExpired(s, later));
    FilterNarrows(store.users, u => InviteExpired(u, now), u => InviteExpired(u, later));
  }

  /** The same user with every invitation redeemed: activated, with the code cleared. */
  function Activated(u: User): User
  {
    u.(activated := true, inviteCode := "")
  }

  function ActivateAll(users: seq<User>): (r: seq<User>)
    ensures |r| == |users|
    ensures forall i :: 0 <= i < |users| ==> r[i] == Activated(users[i])
  {
    if users == [] then [] else [Activated(users[0])] + ActivateAll(users[1..])
  }

  lemma {:induction false} ActivateAllConcat(xs: seq<User>, ys: seq<User>)
    ensures ActivateAll(xs + ys) == ActivateAll(xs) + ActivateAll(ys)
  {
    if xs == [] {
      assert xs + ys == ys;
    } else {
      assert (xs + ys)[1..] == xs[1..] + ys;
      ActivateAllConcat(xs[1..], ys);
    }
  }

  /**
    The user query ignores the lifecycle columns: activating every user selects
    the same users, activated, in the same order.
   */
  lemma {:induction false} SelectionIgnoresActivation(users: seq<User>, now: Timestamp)
    ensures SelectUsers(ActivateAll(users), now) == ActivateAll(SelectUsers(users, now))
  {
    var keep := (u: User) => InviteExpired(u, now);
    if users != [] {
      var a, t := users[0], users[1..];
      var act := ActivateAll(users);
      assert act[0] == Activated(a) && act[1..] == ActivateAll(t);
      var head := if keep(a) then [a] else [];
      assert ActivateAll(head) == (if keep(Activated(a)) then [Activated(a)] else []);
      assert Filter(users, keep) == head + Filter(t, keep);
      calc {
        Filter(act, keep);
        (if keep(Activated(a)) then [Activated(a)] else []) + Filter(ActivateAll(t), keep);
        { SelectionIgnoresActivation(t, now); }
        ActivateAll(head) + ActivateAll(Filter(t, keep));
        { ActivateAllConcat(head, Filter(t, keep)); }
        ActivateAll(head + Filter(t, keep));
        ActivateAll(Filter(users, keep));
      }
    }
  }

  // ---------------------------------------------------------------------
  // The cycle as written, and as evidently intended
  // ---------------------------------------------------------------------

  /**
    The tables after one cycle as written. `map(db.delete, ...)` builds a lazy
    iterator that is never consumed, so `db.delete` is never called, and no
    `commit` follows either: every selected record survives the cycle.
   */
  function SweepAsWritten(store: Store, sessionNow: Timestamp, userNow: Timestamp): (after: Store)
    ensures forall s :: s in SweepSelection(store, sessionNow, userNow).sessions ==> s in after.sessions
    ensures forall u :: u in SweepSelection(store, sessionNow, userNow).users ==> u in after.users
  {
    store
  }

  /** A session created eight days ago is selected and yet still there after the cycle. */
  lemma ExpiredSessionSurvivesSweep()
    ensures var s := Session(1, "TOKEN0TOKEN0TOKE", Some(0));
            var store := Store([], [s]);
            s in SweepSelection(store, 8 * Day, 8 * Day).sessions
            && s in SweepAsWritten(store, 8 * Day, 8 * Day).sessions
  {
    var s := Session(1, "TOKEN0TOKEN0TOKE", Some(0));
    assert s in [s];
  }

  /** A user who redeemed the invitation three days ago is selected like a pending one. */
  lemma ActivatedUserIsSelected()
    ensures var u := User(1, true, "", Some(0));
            u in SelectUsers([u], 3 * Day) && u !in SelectPendingInvites([u], 3 * Day)
  {
    var u := User(1, true, "", Some(0));
    assert u in [u];
  }

  /** The evidently intended user query: expired invitations of users not yet activated. */
  function SelectPendingInvites(users: seq<User>, now: Timestamp): (r: seq<User>)
    ensures forall u :: u in r <==> u in users && !u.activated && InviteExpired(u, now)
    ensures forall u :: u in r ==> u in SelectUsers(users, now)
  {
    Filter(users, (u: User) => !u.activated && InviteExpired(u, now))
  }

  /** The keys of the users the intended cycle removes. */
  function RemovedUserIds(users: seq<User>, now: Timestamp): set<int>
  {
    set u | u in SelectPendingInvites(users, now) :: u.id
  }

  /**
    The tables after one cycle as evidently intended: expired sessions are
    deleted, then users whose invitation expired unredeemed, and the database
    cascade removes the sessions those users still owned.
   */
  function SweepIntended(store: Store, sessionNow: Timestamp, userNow: Timestamp): (after: Store)
    ensures forall u :: u in after.users <==> u in store.users && !(!u.activated && InviteExpired(u, userNow))
    ensures forall s :: s in after.sessions <==>
      s in store.sessions && !SessionExpired(s, sessionNow) && s.user !in RemovedUserIds(store.users, userNow)
  {
    var removed := RemovedUserIds(store.users, userNow);
    Store(Filter(store.users, (u: User) => !(!u.activated && InviteExpired(u, userNow))),
          Filter(store.sessions, s => !SessionExpired(s, sessionNow) && s.user !in removed))
  }

  /**
    After the intended cycle no selected record is left, every activated user
    is kept, and the owner of every surviving session, if it was in the users
    table, is still there.
   */
  lemma IntendedSweepRemovesSelection(store: Store, sessionNow: Timestamp, userNow: Timestamp)
    ensures var after := SweepIntended(store, sessionNow, userNow);
            (forall s :: s in after.sessions ==> !SessionExpired(s, sessionNow))
            && (forall u :: u in after.users ==> u !in SelectPendingInvites(store.users, userNow))
            && (forall u :: u in store.users && u.activated ==> u in after.users)
            && (forall s, u :: s in after.sessions && u in store.users && u.id == s.user
                  ==> u in after.users)
  {
  }
}
