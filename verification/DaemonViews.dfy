/** The daemon's bookkeeping of connections, on the contents of its lists: which lists a
    connection is on, the order of the list of normal timeouts, and deadlines. */
module DaemonViews {
  import opened ConnectionLists
  import opened DaemonLinks
  import opened CStrings

  /** What a connection records about itself. */
  datatype Flags = Flags(timeout: nat, suspended: bool, inCleanup: bool, inEready: bool)

  ghost function FlagsOf(c: Connection): Flags
    reads c`timeout, c`suspended, c`inCleanup, c`inEready
  {
    Flags(c.timeout, c.suspended, c.inCleanup, c.inEready)
  }

  ghost predicate Recorded(r: map<Connection, Flags>)
    reads r.Keys`timeout, r.Keys`suspended, r.Keys`inCleanup, r.Keys`inEready
  {
    forall c :: c in r ==> FlagsOf(c) == r[c]
  }

  lemma RecordedWith(r: map<Connection, Flags>, c: Connection)
    requires Recorded(r - {c})
    ensures Recorded(r[c := FlagsOf(c)])
  {
  }

  lemma RecordedWithout(r: map<Connection, Flags>, c: Connection)
    requires Recorded(r)
    ensures Recorded(r - {c}) && (c in r ==> r[c] == FlagsOf(c))
  {
  }

  // ---- which lists a connection is on ----

  /** The flags and the timeout of a connection say which lists it is on: an open one
      is on the timeout list that its timeout selects, a suspended one on no timeout
      list, and one that waits for its disposal may still be marked ready. */
  ghost predicate InPlace(c: Connection, f: Flags, v: View, timeout: nat) {
    && (c in v.connections <==> !f.suspended && !f.inCleanup)
    && (c in v.suspended <==> f.suspended)
    && (c in v.cleanup <==> f.inCleanup)
    && (c in v.normal <==> c in v.connections && f.timeout == timeout)
    && (c in v.manual <==> c in v.connections && f.timeout != timeout)
    && (c in v.eready <==> f.inEready)
    && (f.suspended ==> !f.inCleanup && !f.inEready)
  }

  ghost predicate Within(s: seq<Connection>, r: map<Connection, Flags>) {
    forall c :: c in s ==> c in r
  }

  ghost predicate Placed(v: View, r: map<Connection, Flags>, timeout: nat) {
    && (forall c :: c in r ==> InPlace(c, r[c], v, timeout))
    && Within(v.connections, r) && Within(v.suspended, r) && Within(v.cleanup, r)
    && Within(v.normal, r) && Within(v.manual, r) && Within(v.eready, r)
    && Distinct(v.connections) && Distinct(v.suspended) && Distinct(v.cleanup)
    && Distinct(v.normal) && Distinct(v.manual) && Distinct(v.eready)
  }

  /** s and t have the same elements, except perhaps c. */
  ghost predicate SameBut(c: Connection, s: seq<Connection>, t: seq<Connection>) {
    && Distinct(t)
    && (forall d :: d in s && d != c ==> d in t) && (forall d :: d in t && d != c ==> d in s)
  }

  lemma PrependedIsSame(c: Connection, s: seq<Connection>)
    requires Distinct(s) && c !in s
    ensures SameBut(c, s, [c] + s) && c in [c] + s
  {
  }

  lemma WithoutIsSame(c: Connection, s: seq<Connection>)
    requires Distinct(s) && c in s
    ensures SameBut(c, s, Without(s, c)) && c !in Without(s, c)
  {
    WithoutMembers(s, c);
  }

  lemma PlacedMoves(v: View, r: map<Connection, Flags>, timeout: nat, c: Connection, f: Flags, w: View)
    requires Placed(v, r, timeout) && InPlace(c, f, w, timeout)
    requires SameBut(c, v.connections, w.connections) && SameBut(c, v.suspended, w.suspended)
    requires SameBut(c, v.cleanup, w.cleanup) && SameBut(c, v.normal, w.normal)
    requires SameBut(c, v.manual, w.manual) && SameBut(c, v.eready, w.eready)
    ensures Placed(w, r[c := f], timeout)
  {
    hide Distinct;
  }

  lemma ScheduledIsSame(v: View, c: Connection, own: bool)
    requires Distinct(v.normal) && Distinct(v.manual) && c !in TimeoutList(v, own)
    ensures var w := Scheduled(v, c, own);
            && SameBut(c, v.normal, w.normal) && SameBut(c, v.manual, w.manual)
            && (c in w.normal <==> own || c in v.normal) && (c in w.manual <==> !own || c in v.manual)
  {
    PrependedIsSame(c, TimeoutList(v, own));
  }

  lemma UnscheduledIsSame(v: View, c: Connection, own: bool)
    requires Distinct(v.normal) && Distinct(v.manual) && c in TimeoutList(v, own)
    ensures var w := Unscheduled(v, c, own);
            && SameBut(c, v.normal, w.normal) && SameBut(c, v.manual, w.manual)
            && (c in w.normal <==> !own && c in v.normal) && (c in w.manual <==> own && c in v.manual)
  {
    WithoutIsSame(c, TimeoutList(v, own));
  }

  /** c taken off the list of ready connections if it is marked as being on it. */
  function Unready(v: View, c: Connection, marked: bool): View
    requires marked ==> c in v.eready
  {
    if marked then v.(eready := Without(v.eready, c)) else v
  }

  // What each operation makes of the lists.

  function Opened(v: View, c: Connection): View {
    Scheduled(v, c, true).(connections := [c] + v.connections)
  }

  function Suspended(v: View, c: Connection, own: bool, marked: bool): View
    requires c in v.connections && c in TimeoutList(v, own) && (marked ==> c in v.eready)
  {
    Unready(Unscheduled(v, c, own), c, marked).(connections := Without(v.connections, c), suspended := [c] + v.suspended)
  }

  function Resumed(v: View, c: Connection, own: bool, epoll: bool): View
    requires c in v.suspended
  {
    Scheduled(v, c, own).(suspended := Without(v.suspended, c), connections := [c] + v.connections,
                          eready := if epoll then [c] + v.eready else v.eready)
  }

  function Rescheduled(v: View, c: Connection, before: bool, after: bool): View
    requires c in TimeoutList(v, before)
  {
    Scheduled(Unscheduled(v, c, before), c, after)
  }

  function Closed(v: View, c: Connection, suspended: bool, own: bool): View
    requires if suspended then c in v.suspended else c in v.connections && c in TimeoutList(v, own)
  {
    (if suspended then v.(suspended := Without(v.suspended, c))
     else Unscheduled(v, c, own).(connections := Without(v.connections, c))).(cleanup := [c] + v.cleanup)
  }

  lemma ResumedInSteps(v: View, c: Connection, own: bool, epoll: bool)
    requires c in v.suspended
    ensures var u := v.(suspended := Without(v.suspended, c), connections := [c] + v.connections);
            Resumed(v, c, own, epoll) == Scheduled(u, c, own).(eready := if epoll then [c] + u.eready else u.eready)
  {
  }

  lemma SuspendedInSteps(v: View, c: Connection, own: bool, marked: bool)
    requires c in v.connections && c in TimeoutList(v, own) && (marked ==> c in v.eready)
    ensures var t := Unscheduled(v, c, own);
            && t.connections == v.connections && t.suspended == v.suspended && t.eready == v.eready
            && var u := t.(connections := Without(t.connections, c), suspended := [c] + t.suspended);
               Suspended(v, c, own, marked) == Unready(u, c, marked)
  {
  }

  lemma OpenedIsPlaced(v: View, r: map<Connection, Flags>, timeout: nat, c: Connection)
    requires Placed(v, r, timeout) && c !in r
    ensures Placed(Opened(v, c), r[c := Flags(timeout, false, false, false)], timeout)
  {
    ScheduledIsSame(v, c, true);
    PrependedIsSame(c, v.connections);
    PlacedMoves(v, r, timeout, c, Flags(timeout, false, false, false), Opened(v, c));
  }

  lemma SuspendedIsPlaced(v: View, r: map<Connection, Flags>, timeout: nat, c: Connection)
    requires Placed(v, r, timeout) && c in v.connections && InPlace(c, r[c], v, timeout)
    ensures Placed(Suspended(v, c, r[c].timeout == timeout, r[c].inEready),
                   r[c := r[c].(suspended := true, inEready := false)], timeout)
  {
    hide Without, Distinct;
    var f := r[c];
    UnscheduledIsSame(v, c, f.timeout == timeout);
    WithoutIsSame(c, v.connections);
    PrependedIsSame(c, v.suspended);
    if f.inEready {
      WithoutIsSame(c, v.eready);
    }
    PlacedMoves(v, r, timeout, c, f.(suspended := true, inEready := false),
      Suspended(v, c, f.timeout == timeout, f.inEready));
  }

  lemma ResumedIsPlaced(v: View, r: map<Connection, Flags>, timeout: nat, c: Connection, epoll: bool)
    requires Placed(v, r, timeout) && c in v.suspended && InPlace(c, r[c], v, timeout)
    ensures Placed(Resumed(v, c, r[c].timeout == timeout, epoll),
                   r[c := r[c].(suspended := false, inEready := epoll)], timeout)
  {
    hide Without, Distinct;
    var f := r[c];
    ScheduledIsSame(v, c, f.timeout == timeout);
    WithoutIsSame(c, v.suspended);
    PrependedIsSame(c, v.connections);
    if epoll {
      PrependedIsSame(c, v.eready);
    }
    PlacedMoves(v, r, timeout, c, f.(suspended := false, inEready := epoll),
      Resumed(v, c, f.timeout == timeout, epoll));
  }

  lemma RescheduledIsPlaced(v: View, r: map<Connection, Flags>, timeout: nat, c: Connection, t: nat)
    requires Placed(v, r, timeout) && c in v.connections && InPlace(c, r[c], v, timeout)
    ensures Placed(Rescheduled(v, c, r[c].timeout == timeout, t == timeout), r[c := r[c].(timeout := t)], timeout)
  {
    hide Without, Distinct;
    var u := Unscheduled(v, c, r[c].timeout == timeout);
    UnscheduledIsSame(v, c, r[c].timeout == timeout);
    ScheduledIsSame(u, c, t == timeout);
    PlacedMoves(v, r, timeout, c, r[c].(timeout := t), Rescheduled(v, c, r[c].timeout == timeout, t == timeout));
  }

  lemma RetimedIsPlaced(v: View, r: map<Connection, Flags>, timeout: nat, c: Connection, t: nat)
    requires Placed(v, r, timeout) && c in v.suspended && InPlace(c, r[c], v, timeout)
    ensures Placed(v, r[c := r[c].(timeout := t)], timeout)
  {
  }

  lemma ClosedIsPlaced(v: View, r: map<Connection, Flags>, timeout: nat, c: Connection)
    requires Placed(v, r, timeout) && c in r && !r[c].inCleanup && InPlace(c, r[c], v, timeout)
    ensures Placed(Closed(v, c, r[c].suspended, r[c].timeout == timeout),
                   r[c := r[c].(suspended := false, inCleanup := true)], timeout)
  {
    hide Without, Distinct;
    var f := r[c];
    if f.suspended {
      WithoutIsSame(c, v.suspended);
    } else {
      UnscheduledIsSame(v, c, f.timeout == timeout);
      WithoutIsSame(c, v.connections);
    }
    PrependedIsSame(c, v.cleanup);
    PlacedMoves(v, r, timeout, c, f.(suspended := false, inCleanup := true),
      Closed(v, c, f.suspended, f.timeout == timeout));
  }

  /** An open connection, told by its flags. */
  lemma OpenIsScheduled(v: View, r: map<Connection, Flags>, timeout: nat, c: Connection)
    requires Placed(v, r, timeout) && (c in v.connections || c in v.suspended)
    ensures c in r && InPlace(c, r[c], v, timeout)
    ensures c in v.connections <==> !r[c].suspended
    ensures c in v.suspended ==> c !in v.normal
    ensures c in v.connections ==> c !in v.suspended && c !in v.cleanup
    ensures c in v.connections ==> c in TimeoutList(v, r[c].timeout == timeout)
    ensures r[c].timeout != timeout ==> c !in v.normal
    ensures c in v.connections ==> c !in TimeoutList(v, r[c].timeout != timeout)
    ensures Distinct(v.normal) && Distinct(v.manual) && (c in v.eready <==> r[c].inEready)
  {
  }

  function Disposed(v: View, c: Connection, marked: bool): View
    requires c in v.cleanup && (marked ==> c in v.eready)
  {
    Unready(v, c, marked).(cleanup := Without(v.cleanup, c))
  }

  lemma DisposedIsPlaced(v: View, r: map<Connection, Flags>, timeout: nat, c: Connection)
    requires Placed(v, r, timeout) && c in v.cleanup
    ensures c in r && (c in v.eready <==> r[c].inEready)
    ensures var w := Disposed(v, c, r[c].inEready);
            && Placed(w, r - {c}, timeout)
            && c !in w.connections && c !in w.suspended && c !in w.cleanup
            && c !in w.normal && c !in w.manual && c !in w.eready
  {
    hide Without, Distinct;
    WithoutIsSame(c, v.cleanup);
    if r[c].inEready {
      WithoutIsSame(c, v.eready);
    }
  }

  lemma MarkedIsPlaced(v: View, r: map<Connection, Flags>, timeout: nat, c: Connection)
    requires Placed(v, r, timeout) && (c in v.connections || c in v.cleanup)
    ensures c in r && (c in v.eready <==> r[c].inEready)
    ensures var w := if r[c].inEready then v else v.(eready := [c] + v.eready);
            Placed(w, r[c := r[c].(inEready := true)], timeout)
  {
    hide Without, Distinct;
    var w := if r[c].inEready then v else v.(eready := [c] + v.eready);
    if !r[c].inEready {
      PrependedIsSame(c, v.eready);
    }
    PlacedMoves(v, r, timeout, c, r[c].(inEready := true), w);
  }

  lemma UnmarkedIsPlaced(v: View, r: map<Connection, Flags>, timeout: nat, c: Connection)
    requires Placed(v, r, timeout) && c in r
    ensures (c in v.eready <==> r[c].inEready) && (r[c].suspended ==> !r[c].inEready)
    ensures Placed(Unready(v, c, r[c].inEready), r[c := r[c].(inEready := false)], timeout)
  {
    hide Without, Distinct;
    if r[c].inEready {
      WithoutIsSame(c, v.eready);
    }
    PlacedMoves(v, r, timeout, c, r[c].(inEready := false), Unready(v, c, r[c].inEready));
  }

  lemma PlacedIsInside(v: View, r: map<Connection, Flags>, timeout: nat)
    requires Placed(v, r, timeout)
    ensures Inside(v.connections, r.Keys) && Inside(v.suspended, r.Keys) && Inside(v.cleanup, r.Keys)
    ensures Inside(v.normal, r.Keys) && Inside(v.manual, r.Keys) && Inside(v.eready, r.Keys)
  {
  }

  lemma SuspendedIsElsewhere(v: View, r: map<Connection, Flags>, timeout: nat, c: Connection)
    requires Placed(v, r, timeout) && c in v.suspended
    ensures c !in v.connections && c !in v.cleanup && c !in v.normal && c !in v.manual && c !in v.eready
  {
  }

  lemma UnknownIsNowhere(v: View, r: map<Connection, Flags>, timeout: nat, c: Connection)
    requires Placed(v, r, timeout) && c !in r
    ensures c !in v.connections && c !in v.suspended && c !in v.cleanup && c !in v.normal && c !in v.manual
    ensures c !in v.eready
  {
  }

  lemma KnownIsPlaced(v: View, r: map<Connection, Flags>, timeout: nat, c: Connection)
    requires Placed(v, r, timeout) && c in r
    ensures InPlace(c, r[c], v, timeout) && Distinct(v.normal)
    ensures r[c].suspended ==> c in v.suspended
    ensures !r[c].suspended && !r[c].inCleanup ==> c in v.connections && c in TimeoutList(v, r[c].timeout == timeout)
    ensures r[c].timeout != timeout ==> c !in v.normal
  {
  }

  /** The elements that are in a set, or those that are not, in their order. */
  ghost function Select(s: seq<Connection>, p: set<Connection>, chosen: bool): seq<Connection> {
    if s == [] then []
    else (if (s[0] in p) == chosen then [s[0]] else []) + Select(s[1..], p, chosen)
  }

  lemma SelectOne(s: seq<Connection>, i: nat, p: set<Connection>)
    requires i < |s|
    ensures Select(s[i..], p, true) == (if s[i] in p then [s[i]] else []) + Select(s[i + 1..], p, true)
    ensures Select(s[i..], p, false) == (if s[i] in p then [] else [s[i]]) + Select(s[i + 1..], p, false)
  {
    assert s[i..][0] == s[i] && s[i..][1..] == s[i + 1..];
  }

  lemma WithoutMiddle(a: seq<Connection>, c: Connection, b: seq<Connection>)
    requires Distinct(a + [c] + b)
    ensures c in a + [c] + b && Without(a + [c] + b, c) == a + b
  {
    var s := a + [c] + b;
    assert s[|a|] == c;
    assert Position(s, c) == |a|;
  }

  lemma DistinctAt(s: seq<Connection>, i: nat)
    requires Distinct(s) && i < |s|
    ensures forall j :: 0 <= j < |s| && j != i ==> s[j] != s[i]
  {
  }

  /** Position i joins the part that has been split by selection; an element that is
      selected moves from the one list to the head of the other. */
  lemma SelectStep(s: seq<Connection>, i: nat, p: set<Connection>, open: seq<Connection>)
    requires i < |s|
    ensures var t, u := s[..i + 1] + Select(s[i + 1..], p, false), s[..i] + Select(s[i..], p, false);
            s[i] !in p ==> t == u && Select(s[i + 1..], p, true) + open == Select(s[i..], p, true) + open
    ensures var t, u := s[..i + 1] + Select(s[i + 1..], p, false), s[..i] + Select(s[i..], p, false);
            s[i] in p && Distinct(t) ==>
              && s[i] in t && Without(t, s[i]) == u
              && [s[i]] + (Select(s[i + 1..], p, true) + open) == Select(s[i..], p, true) + open
  {
    hide Without, Distinct;
    SelectOne(s, i, p);
    assert s[..i + 1] == s[..i] + [s[i]];
    var rest := Select(s[i + 1..], p, false);
    if s[i] in p {
      if Distinct(s[..i + 1] + rest) {
        WithoutMiddle(s[..i], s[i], rest);
      }
    } else {
      assert s[..i + 1] + rest == s[..i] + ([s[i]] + rest);
    }
  }

  // ---- the order of the list of normal timeouts ----

  /** Most recent activity first. */
  ghost predicate Sorted(s: seq<Connection>)
    reads s`lastActivity
  {
    forall i, j :: 0 <= i < j < |s| ==> s[i].lastActivity >= s[j].lastActivity
  }

  ghost predicate UpTo(known: set<Connection>, now: nat)
    reads known`lastActivity
  {
    forall c :: c in known ==> c.lastActivity <= now
  }

  lemma UpToWith(known: set<Connection>, c: Connection, now: nat)
    requires UpTo(known, now) && c.lastActivity <= now
    ensures UpTo(known + {c}, now)
  {
  }

  ghost predicate NotAfter(s: seq<Connection>, now: nat)
    reads s`lastActivity
  {
    forall i :: 0 <= i < |s| ==> s[i].lastActivity <= now
  }

  lemma WithoutKeepsOrder(s: seq<Connection>, e: Connection, now: nat)
    requires e in s && Distinct(s)
    ensures var t := Without(s, e);
            && (Sorted(s) ==> Sorted(t)) && (NotAfter(s, now) ==> NotAfter(t, now))
            && forall i :: 0 <= i < |t| ==> t[i] != e
  {
  }

  lemma PrependedIsSorted(c: Connection, s: seq<Connection>)
    ensures Sorted([c] + s) <==> Sorted(s) && (s == [] || c.lastActivity >= s[0].lastActivity)
  {
    var t := [c] + s;
    assert forall i :: 0 <= i < |s| ==> s[i] == t[i + 1];
    if Sorted(t) && s != [] {
      assert t[0].lastActivity >= t[1].lastActivity;
    }
  }

  // ---- deadlines ----

  /** When an idle connection expires. */
  function Deadline(c: Connection): nat
    reads c`lastActivity, c`timeout
  {
    c.lastActivity + c.timeout
  }

  /** The milliseconds from now to a deadline, or the largest number if they are more. */
  function Wait(deadline: nat, now: nat): nat {
    var ms := if now < deadline then 1000 * (deadline - now) else 0;
    if ms <= UINT64_MAX then ms else UINT64_MAX
  }

  /** The comparisons of the program avoid the overflow of the product. */
  lemma WaitIs(deadline: nat, now: nat)
    ensures Wait(deadline, now) ==
              if deadline < now then 0
              else if deadline - now > UINT64_MAX / 1000 then UINT64_MAX
              else 1000 * (deadline - now)
  {
  }

  /** The smallest deadline among the connections of s that have a timeout. */
  ghost predicate IsEarliest(s: seq<Connection>, have: bool, earliest: nat)
    reads s`lastActivity, s`timeout
  {
    && (!have ==> forall c :: c in s ==> c.timeout == 0)
    && (have ==> exists c :: c in s && c.timeout != 0 && earliest == Deadline(c))
    && (have ==> forall c :: c in s && c.timeout != 0 ==> earliest <= Deadline(c))
  }

  ghost predicate WaitsForEarliest(s: seq<Connection>, now: nat, wait: Option<nat>)
    reads s`lastActivity, s`timeout
  {
    match wait
    case None => forall c :: c in s ==> c.timeout == 0
    case Some(w) =>
      && (exists c :: c in s && c.timeout != 0 && w == Wait(Deadline(c), now))
      && (forall c :: c in s && c.timeout != 0 ==> w <= Wait(Deadline(c), now))
  }

  lemma NothingIsEarliest(s: seq<Connection>)
    requires s == []
    ensures IsEarliest(s, false, 0)
  {
  }

  lemma NothingHasNoDeadline(s: seq<Connection>, have: bool, earliest: nat)
    requires IsEarliest(s, have, earliest)
    ensures s == [] ==> !have
  {
  }

  lemma EarliestWithOne(c: Connection, s: seq<Connection>, h: bool, e: nat, have: bool, earliest: nat)
    requires IsEarliest(s, h, e)
    requires have == (h || c.timeout != 0)
    requires earliest == if c.timeout != 0 && (!h || e > Deadline(c)) then Deadline(c) else e
    ensures IsEarliest([c] + s, have, earliest)
  {
    if have {
      if c.timeout != 0 && (!h || e > Deadline(c)) {
        assert c in [c] + s;
      } else {
        var d :| d in s && d.timeout != 0 && e == Deadline(d);
        assert d in [c] + s;
      }
    }
  }

  /** In a sorted list with one timeout the last connection expires first. */
  lemma TailIsEarliest(s: seq<Connection>, timeout: nat)
    requires s != [] && timeout != 0 && Sorted(s)
    requires forall c :: c in s ==> c.timeout == timeout
    ensures IsEarliest(s, true, Deadline(s[|s| - 1]))
  {
    var last := s[|s| - 1];
    assert last in s;
    forall c | c in s
      ensures Deadline(last) <= Deadline(c)
    {
      var i :| 0 <= i < |s| && s[i] == c;
    }
  }

  /** The connections that the search for the earliest deadline looks at: the tail of the
      normal list, and all with a timeout of their own. */
  function Visited(normal: seq<Connection>, manual: seq<Connection>): seq<Connection> {
    if normal == [] then manual else [normal[|normal| - 1]] + manual
  }

  /** No connection of the normal list expires before its tail, unless one with a timeout
      of its own expires no later. */
  ghost predicate TailSuffices(normal: seq<Connection>, manual: seq<Connection>, timeout: nat)
    reads normal`lastActivity, normal`timeout, manual`lastActivity, manual`timeout
  {
    timeout != 0 ==>
      forall c :: c in normal ==>
        || normal[|normal| - 1].lastActivity <= c.lastActivity
        || exists d :: d in manual && d.timeout != 0 && Deadline(d) <= Deadline(c)
  }

  /** The same of the times to wait, which do not tell deadlines that have passed. */
  ghost predicate TailWaits(normal: seq<Connection>, manual: seq<Connection>, timeout: nat, now: nat)
    reads normal`lastActivity, normal`timeout, manual`lastActivity, manual`timeout
  {
    timeout != 0 ==>
      forall c :: c in normal ==>
        || Wait(Deadline(normal[|normal| - 1]), now) <= Wait(Deadline(c), now)
        || exists d :: d in manual && d.timeout != 0 && Wait(Deadline(d), now) <= Wait(Deadline(c), now)
  }

  ghost predicate Timeouts(normal: seq<Connection>, manual: seq<Connection>, all: seq<Connection>, timeout: nat)
    reads normal`timeout
  {
    && (forall c :: c in normal ==> c.timeout == timeout && c in all)
    && (forall c :: c in manual ==> c in all)
    && (forall c :: c in all ==> c in normal || c in manual)
  }

  lemma VisitedMembers(normal: seq<Connection>, manual: seq<Connection>)
    ensures forall c :: c in Visited(normal, manual) <==> c in manual || (normal != [] && c == normal[|normal| - 1])
  {
  }

  lemma TailCovers(normal: seq<Connection>, manual: seq<Connection>, all: seq<Connection>, timeout: nat,
                   earliest: nat, c: Connection)
    requires Timeouts(normal, manual, all, timeout) && TailSuffices(normal, manual, timeout)
    requires forall d :: d in Visited(normal, manual) && d.timeout != 0 ==> earliest <= Deadline(d)
    requires c in all && c.timeout != 0
    ensures earliest <= Deadline(c)
  {
    hide Visited;
    VisitedMembers(normal, manual);
    if c !in manual {
      var tail := normal[|normal| - 1];
      assert tail in normal && tail.timeout == timeout == c.timeout;
    }
  }

  /** The earliest deadline of those looked at is that of all exactly if the tail
      suffices. */
  lemma VisitedSufficeExactly(normal: seq<Connection>, manual: seq<Connection>, all: seq<Connection>, timeout: nat,
                              have: bool, earliest: nat)
    requires Timeouts(normal, manual, all, timeout) && IsEarliest(Visited(normal, manual), have, earliest)
    ensures IsEarliest(all, have, earliest) <==> TailSuffices(normal, manual, timeout)
  {
    hide Visited;
    VisitedMembers(normal, manual);
    if have {
      var e :| e in Visited(normal, manual) && e.timeout != 0 && earliest == Deadline(e);
      assert e in all;
      if IsEarliest(all, have, earliest) && timeout != 0 {
        forall c | c in normal
          ensures normal[|normal| - 1].lastActivity <= c.lastActivity || (e in manual && Deadline(e) <= Deadline(c))
        {
          assert earliest <= Deadline(c);
        }
      }
      if TailSuffices(normal, manual, timeout) {
        forall c | c in all && c.timeout != 0
          ensures earliest <= Deadline(c)
        {
          TailCovers(normal, manual, all, timeout, earliest, c);
        }
      }
    } else if normal != [] {
      assert normal[|normal| - 1] in normal && normal[|normal| - 1] in Visited(normal, manual);
    }
  }

  lemma VisitedWaitExactly(normal: seq<Connection>, manual: seq<Connection>, all: seq<Connection>, timeout: nat,
                           now: nat, wait: Option<nat>)
    requires Timeouts(normal, manual, all, timeout) && WaitsForEarliest(Visited(normal, manual), now, wait)
    ensures WaitsForEarliest(all, now, wait) <==> TailWaits(normal, manual, timeout, now)
  {
    hide Visited, Wait;
    VisitedMembers(normal, manual);
    if wait.Some? {
      var e :| e in Visited(normal, manual) && e.timeout != 0 && wait.value == Wait(Deadline(e), now);
      assert e in all;
      if WaitsForEarliest(all, now, wait) && timeout != 0 {
        forall c | c in normal
          ensures Wait(Deadline(normal[|normal| - 1]), now) <= Wait(Deadline(c), now) ||
                  (e in manual && Wait(Deadline(e), now) <= Wait(Deadline(c), now))
        {
          assert wait.value <= Wait(Deadline(c), now);
        }
      }
    } else if normal != [] {
      assert normal[|normal| - 1] in normal && normal[|normal| - 1] in Visited(normal, manual);
    }
  }

  lemma LaterWaitsLonger(d: nat, e: nat, now: nat)
    requires d <= e
    ensures Wait(d, now) <= Wait(e, now)
  {
  }

  /** In a sorted list the tail suffices, and then it does for the time to wait. */
  lemma OrderSuffices(normal: seq<Connection>, manual: seq<Connection>, timeout: nat, now: nat)
    requires (timeout != 0 ==> Sorted(normal)) && forall c :: c in normal ==> c.timeout == timeout
    ensures TailSuffices(normal, manual, timeout) && TailWaits(normal, manual, timeout, now)
  {
    hide Wait;
    if normal != [] && timeout != 0 {
      TailIsEarliest(normal, timeout);
      forall c | c in normal
        ensures normal[|normal| - 1].lastActivity <= c.lastActivity
        ensures Wait(Deadline(normal[|normal| - 1]), now) <= Wait(Deadline(c), now)
      {
        assert normal[|normal| - 1] in normal;
        LaterWaitsLonger(Deadline(normal[|normal| - 1]), Deadline(c), now);
      }
    }
  }

  lemma EarliestIsWait(s: seq<Connection>, have: bool, earliest: nat, now: nat)
    requires IsEarliest(s, have, earliest)
    ensures WaitsForEarliest(s, now, if have then Some(Wait(earliest, now)) else None)
  {
    if have {
      var d :| d in s && d.timeout != 0 && earliest == Deadline(d);
      assert Wait(earliest, now) == Wait(Deadline(d), now);
    }
  }

  /** The deadline has passed; without a timeout there is none. */
  predicate Expired(c: Connection, now: nat)
    reads c`lastActivity, c`timeout
  {
    c.timeout != 0 && Deadline(c) < now
  }

  /** Whoever has expired is not waited for. */
  lemma ExpiredIsNotWaitedFor(c: Connection, now: nat)
    requires Expired(c, now)
    ensures Wait(Deadline(c), now) == 0
  {
  }

  /** Those of s from position i on that have expired and were not gone before, and no
      others. */
  ghost predicate ClosedFrom(closed: seq<Connection>, s: seq<Connection>, i: nat, gone: set<Connection>, now: nat)
    requires i <= |s|
    reads s`lastActivity, s`timeout
  {
    && (forall c :: c in closed ==> c in s[i..] && c in s && c !in gone && Expired(c, now))
    && (forall k :: i <= k < |s| && s[k] !in gone && Expired(s[k], now) ==> s[k] in closed)
  }

  lemma NothingIsClosed(s: seq<Connection>, gone: set<Connection>, now: nat)
    ensures ClosedFrom([], s, |s|, gone, now)
  {
  }

  lemma ClosedNext(closed: seq<Connection>, s: seq<Connection>, i: nat, gone: set<Connection>, now: nat)
    requires i < |s| && ClosedFrom(closed, s, i + 1, gone, now)
    ensures ClosedFrom(if s[i] !in gone && Expired(s[i], now) then closed + [s[i]] else closed, s, i, gone, now)
  {
    assert s[i..] == [s[i]] + s[i + 1..];
  }

  /** The scan of a list goes on behind every connection from position i on. */
  ghost predicate ShutFrom(s: seq<Connection>, i: nat, gone: set<Connection>, now: nat)
    reads s`lastActivity, s`timeout
  {
    forall k :: i <= k < |s| ==> s[k] in gone || Expired(s[k], now)
  }

  lemma NothingIsShut(s: seq<Connection>, gone: set<Connection>, now: nat)
    ensures ShutFrom(s, |s|, gone, now)
  {
  }

  lemma ShutNext(s: seq<Connection>, i: nat, gone: set<Connection>, now: nat)
    requires i < |s| && ShutFrom(s, i + 1, gone, now)
    ensures ShutFrom(s, i, gone, now) <==> s[i] in gone || Expired(s[i], now)
  {
  }

  /** No connection that the scan has to close is nearer the head than one that stays
      open. */
  ghost predicate NoneHidden(s: seq<Connection>, gone: set<Connection>, now: nat)
    reads s`lastActivity, s`timeout
  {
    forall i, j :: 0 <= i < j < |s| && s[i] !in gone && Expired(s[i], now) ==> s[j] in gone || Expired(s[j], now)
  }

  /** The scan stops at position i: at the head, or at the first connection that stays
      open. */
  ghost predicate Stops(s: seq<Connection>, i: nat, gone: set<Connection>, now: nat)
    reads s`lastActivity, s`timeout
  {
    || (i == 0 && ShutFrom(s, 0, gone, now))
    || (i < |s| && s[i] !in gone && !Expired(s[i], now) && ShutFrom(s, i + 1, gone, now))
  }

  /** A scan that has stopped at position i has closed all that have expired exactly if
      none was hidden. */
  lemma StoppedExactly(closed: seq<Connection>, s: seq<Connection>, i: nat, gone: set<Connection>, now: nat)
    requires Distinct(s) && i <= |s| && ClosedFrom(closed, s, i, gone, now)
    requires Stops(s, i, gone, now)
    ensures ClosedFrom(closed, s, 0, gone, now) <==> NoneHidden(s, gone, now)
  {
    assert s[0..] == s;
    if i > 0 && ClosedFrom(closed, s, 0, gone, now) {
      assert forall k :: 0 <= k < i ==> s[k] !in s[i..];
    }
  }

  lemma ClosedOfBoth(closed: seq<Connection>, more: seq<Connection>, manual: seq<Connection>, normal: seq<Connection>,
                     all: seq<Connection>, timeout: nat, stop: nat, gone: set<Connection>, now: nat)
    requires Timeouts(normal, manual, all, timeout) && stop <= |normal| && forall c :: c in manual ==> c !in normal
    requires ClosedFrom(closed, manual, 0, gone, now) && ClosedFrom(more, normal, stop, gone, now)
    ensures forall c :: c in closed + more ==> c in all && c !in gone && Expired(c, now)
    ensures ClosedFrom(more, normal, 0, gone, now) <==>
              forall c :: c in all && c !in gone && Expired(c, now) ==> c in closed + more
  {
    assert normal[0..] == normal;
    forall c | c in closed
      ensures c !in normal
    {
    }
    if forall c :: c in all && c !in gone && Expired(c, now) ==> c in closed + more {
      forall k | 0 <= k < |normal| && normal[k] !in gone && Expired(normal[k], now)
        ensures normal[k] in more
      {
        assert normal[k] in normal;
      }
    }
    if ClosedFrom(more, normal, 0, gone, now) {
      forall c | c in all && c !in gone && Expired(c, now)
        ensures c in closed + more
      {
      }
    }
  }

  ghost predicate InOrder(s: seq<Connection>, timeout: nat)
    reads s`lastActivity, s`timeout
  {
    (forall i :: 0 <= i < |s| ==> s[i].timeout == timeout) && (timeout != 0 ==> Sorted(s))
  }

  /** In a list in order, what is nearer the head than a connection that has not expired
      has not expired either. */
  lemma EarlierIsFresh(s: seq<Connection>, i: nat, timeout: nat, now: nat)
    requires i < |s| && !Expired(s[i], now) && InOrder(s, timeout)
    ensures forall k :: 0 <= k <= i ==> !Expired(s[k], now)
  {
  }

  lemma OrderHidesNone(s: seq<Connection>, timeout: nat, gone: set<Connection>, now: nat)
    requires InOrder(s, timeout)
    ensures NoneHidden(s, gone, now)
  {
    hide InOrder;
    forall i, j | 0 <= i < j < |s| && Expired(s[i], now)
      ensures Expired(s[j], now)
    {
      if !Expired(s[j], now) {
        EarlierIsFresh(s, j, timeout, now);
      }
    }
  }
}
