/** The daemon's operations on its six lists, on the heap: which lists a connection is on,
    and the order of the list of normal timeouts on which the polling timeout relies.

    This is the mode in which all connections of a daemon share the lists.  Each method is
    one critical section of the C code, or a part of one; the clock is a parameter.  The
    parameter `all` of a part is the set of the connections that the daemon knows. */
module DaemonLists {
  import opened ConnectionLists
  import opened CStrings
  import opened DaemonLinks
  import opened DaemonViews

  class Daemon {
    const timeout: nat
    const epoll: bool
    const links: Links
    /** Some connection may have to be resumed. */
    var resuming: bool
    /** Every connection that the daemon knows, with its flags. */
    ghost var known: map<Connection, Flags>

    ghost function Contents(): View
      reads links.connections, links.suspended, links.cleanup, links.normal, links.manual, links.eready
    {
      links.Contents()
    }

    ghost predicate Valid()
      reads this`known, links.connections, links.suspended, links.cleanup, links.normal, links.manual, links.eready
      reads known.Keys
    {
      && links.Apart() && links.Valid(known.Keys) && Recorded(known) && Placed(Contents(), known, timeout)
      && (!epoll ==> links.eready.nodes == [])
    }

    /** The order that the scans of the normal timeouts rely on.  Without a default
        timeout these scans do nothing. */
    ghost predicate Ordered()
      reads links.normal`nodes, links.normal.nodes`lastActivity
    {
      timeout != 0 ==> Sorted(links.normal.nodes)
    }

    /** No activity lies in the future. */
    ghost predicate Clock(now: nat)
      reads this`known, known.Keys`lastActivity
    {
      UpTo(known.Keys, now)
    }

    lemma ClockBoundsNormal(now: nat)
      requires Valid()
      ensures Clock(now) ==> NotAfter(links.normal.nodes, now)
    {
      hide Placed, Recorded;
    }

    constructor (timeout: nat, epoll: bool)
      ensures Valid() && Ordered() && Contents() == View([], [], [], [], [], []) && known == map[]
      ensures this.timeout == timeout && this.epoll == epoll
      ensures fresh(links)
      ensures fresh({links.connections, links.suspended, links.cleanup, links.normal, links.manual, links.eready})
    {
      this.timeout, this.epoll := timeout, epoll;
      links := new Links();
      resuming := false;
      known := map[];
    }

    /** Brings the record of one connection up to date. */
    ghost method Record(c: Connection)
      requires Recorded(known - {c})
      modifies this`known
      ensures known == old(known)[c := FlagsOf(c)] && Recorded(known) && known.Keys == old(known.Keys) + {c}
    {
      RecordedWith(known, c);
      known := known[c := FlagsOf(c)];
    }

    /** No connection of the list of normal timeouts is more recent than c. */
    ghost predicate Newest(c: Connection)
      reads links.normal, links.normal.nodes`lastActivity, c`lastActivity
    {
      links.normal.nodes == [] || c.lastActivity >= links.normal.nodes[0].lastActivity
    }

    method Schedule(c: Connection, ghost all: set<Connection>)
      requires links.Apart() && links.Valid(all) && c in all && c !in links.normal.nodes && c !in links.manual.nodes
      modifies links.normal, links.manual, all`nextX, all`prevX
      ensures links.Valid(all) && Contents() == Scheduled(old(Contents()), c, c.timeout == timeout)
      ensures old(Ordered()) ==> (Ordered() <==> timeout == 0 || c.timeout != timeout || old(Newest(c)))
    {
      hide Links.Valid, Sorted;
      PrependedIsSorted(c, links.normal.nodes);
      ghost var s := links.normal.nodes;
      links.InsertTimeout(c, c.timeout == timeout, all);
      assert links.normal.nodes == if c.timeout == timeout then [c] + s else s;
    }

    method Enroll(c: Connection, ghost all: set<Connection>)
      requires links.Apart() && links.Valid(all) && c in all && c.timeout == timeout
      requires var v := Contents();
               c !in v.connections && c !in v.suspended && c !in v.cleanup && c !in v.normal && c !in v.manual
      modifies links.connections, links.normal, links.manual, all`next, all`prev, all`nextX, all`prevX
      ensures links.Valid(all) && Contents() == Opened(old(Contents()), c)
      ensures old(Ordered()) ==> (Ordered() <==> timeout == 0 || old(Newest(c)))
    {
      hide Links.Valid, Sorted, Ordered;
      Schedule(c, all);
      links.InsertOpen(c, all);
    }

    /** A connection with this stamp may head the list of normal timeouts. */
    ghost predicate InTurn(now: nat)
      reads links.normal, links.normal.nodes`lastActivity
    {
      timeout == 0 || links.normal.nodes == [] || links.normal.nodes[0].lastActivity <= now
    }

    /** Puts a connection that the daemon does not know on its lists. */
    method Admit(c: Connection, now: nat)
      requires Valid() && c !in known && FlagsOf(c) == Flags(timeout, false, false, false) && c.lastActivity == now
      modifies this`known, links.connections, links.suspended, links.cleanup, links.normal, links.manual, links.eready
      modifies known.Keys`next, known.Keys`prev, known.Keys`nextX, known.Keys`prevX, known.Keys`nextE, known.Keys`prevE
      modifies c`next, c`prev, c`nextX, c`prevX
      ensures Valid() && Contents() == Opened(old(Contents()), c) && known.Keys == old(known.Keys) + {c}
      ensures old(Clock(now)) ==> Clock(now)
      ensures old(Ordered()) ==> (Ordered() <==> old(InTurn(now))) && (old(Clock(now)) ==> Ordered())
    {
      hide Without, Placed, InPlace, Distinct, Recorded, UpTo, Links.Valid, Sorted, Ordered, Opened;
      ClockBoundsNormal(now);
      ghost var v, r := Contents(), known;
      if Clock(now) {
        UpToWith(r.Keys, c, now);
      }
      OpenedIsPlaced(v, r, timeout, c);
      UnknownIsNowhere(v, r, timeout, c);
      RecordedWithout(r, c);
      links.Grow(known.Keys, c);
      Enroll(c, known.Keys + {c});
      Record(c);
    }

    /** A new connection starts with the daemon's timeout.  It gets its stamp before the
        critical section, so another thread may have stamped and added a connection in
        the meantime; the order survives exactly if the stamp is not older than the head's. */
    method AddConnection(now: nat) returns (c: Connection)
      requires Valid()
      modifies this`known, links.connections, links.suspended, links.cleanup, links.normal, links.manual, links.eready
      modifies known.Keys`next, known.Keys`prev, known.Keys`nextX, known.Keys`prevX, known.Keys`nextE, known.Keys`prevE
      ensures Valid() && fresh(c) && c.timeout == timeout && c.lastActivity == now && !c.suspended
      ensures Contents() == Opened(old(Contents()), c) && known.Keys == old(known.Keys) + {c}
      ensures old(Clock(now)) ==> Clock(now)
      ensures old(Ordered()) ==> (Ordered() <==> old(InTurn(now))) && (old(Clock(now)) ==> Ordered())
    {
      hide Valid, Clock, Ordered, InTurn, Contents, Opened;
      c := new Connection(timeout, now);
      Admit(c, now);
    }

    /** The list of normal timeouts without c. */
    ghost function Others(c: Connection): seq<Connection>
      reads links.normal
    {
      if c in links.normal.nodes then Without(links.normal.nodes, c) else links.normal.nodes
    }

    /** c would be in order at the head of the list of normal timeouts. */
    ghost predicate FitsHead(c: Connection)
      reads links.normal, Others(c)`lastActivity, c`lastActivity
    {
      timeout != 0 ==> Sorted([c] + Others(c))
    }

    method Stamp(c: Connection, now: nat)
      requires Distinct(links.normal.nodes)
      modifies c`lastActivity
      ensures c.lastActivity == now && (old(Clock(now)) ==> Clock(now))
      ensures old(Ordered() && NotAfter(links.normal.nodes, now)) ==>
                if c in links.normal.nodes then FitsHead(c) else Ordered()
    {
      if c in links.normal.nodes {
        WithoutKeepsOrder(links.normal.nodes, c, now);
      }
      c.lastActivity := now;
      PrependedIsSorted(c, Others(c));
    }

    /** Remove and insert, on the X links. */
    method MoveToHead(c: Connection, ghost all: set<Connection>)
      requires links.Apart() && links.Valid(all) && c in all && c in links.normal.nodes && c !in links.manual.nodes
      requires Distinct(links.normal.nodes)
      modifies links.normal, links.manual, all`nextX, all`prevX
      ensures links.Valid(all) && Contents() == Rescheduled(old(Contents()), c, true, true)
      ensures old(FitsHead(c)) ==> Ordered()
    {
      hide Links.Valid, Without, Distinct;
      WithoutMembers(links.normal.nodes, c);
      links.RemoveTimeout(c, true, all);
      links.InsertTimeout(c, true, all);
    }

    method UpdateLastActivity(c: Connection, now: nat)
      requires Valid() && (c in links.connections.nodes || c in links.suspended.nodes)
      modifies this`known, links.connections, links.suspended, links.cleanup, links.normal, links.manual, links.eready
      modifies known.Keys`next, known.Keys`prev, known.Keys`nextX, known.Keys`prevX, known.Keys`nextE, known.Keys`prevE
      modifies c`lastActivity
      ensures Valid()
      ensures var v := old(Contents());
              if c.timeout == 0 || c.suspended then Contents() == v && c.lastActivity == old(c.lastActivity)
              else
                && c.lastActivity == now
                && (c.timeout == timeout ==> c in v.normal)
                && Contents() == if c.timeout == timeout then Rescheduled(v, c, true, true) else v
      ensures known == old(known) && (old(Clock(now)) ==> Clock(now))
      ensures old(Ordered() && Clock(now)) ==> Ordered()
    {
      hide Without, Placed, InPlace, Distinct, Recorded, Sorted, NotAfter, Others, UpTo, Links.Valid, Ordered, FitsHead;
      ClockBoundsNormal(now);
      if c.timeout == 0 || c.suspended {
        return;
      }
      ghost var v, r := Contents(), known;
      RecordedWithout(r, c);
      OpenIsScheduled(v, r, timeout, c);
      Stamp(c, now);
      if c.timeout != timeout {
        return;
      }
      MoveToHead(c, known.Keys);
      RescheduledIsPlaced(v, r, timeout, c, timeout);
      assert r[c := r[c].(timeout := timeout)] == r;
    }

    method Unschedule(c: Connection, ghost all: set<Connection>)
      requires links.Apart() && links.Valid(all) && c in TimeoutList(Contents(), c.timeout == timeout)
      requires Distinct(links.normal.nodes)
      requires c.timeout != timeout ==> c !in links.normal.nodes
      modifies links.normal, links.manual, all`nextX, all`prevX
      ensures links.Valid(all) && Contents() == Unscheduled(old(Contents()), c, c.timeout == timeout)
      ensures var s := links.normal.nodes;
              s == old(Others(c)) && (s == [] || (s[0] != c && s[0] in old(links.normal.nodes)))
      ensures old(Ordered()) ==> Ordered()
    {
      hide Without, Links.Valid;
      if c.timeout == timeout {
        WithoutKeepsOrder(links.normal.nodes, c, 0);
        WithoutMembers(links.normal.nodes, c);
        links.RemoveTimeout(c, true, all);
      } else {
        links.RemoveTimeout(c, false, all);
      }
    }

    method RestartTimer(c: Connection, now: nat)
      requires c !in links.normal.nodes
      modifies c`lastActivity
      ensures old(Clock(now)) ==> Clock(now)
      ensures c.lastActivity == if c.timeout != 0 then now else old(c.lastActivity)
      ensures old(Ordered()) ==> Ordered()
      ensures old(NotAfter(links.normal.nodes, now)) && c.timeout != 0 ==> Newest(c)
    {
      if c.timeout != 0 {
        c.lastActivity := now;
      }
    }

    method TakeReady(c: Connection, ghost all: set<Connection>)
      requires links.Apart() && links.Valid(all) && (c.inEready ==> epoll && c in links.eready.nodes)
      modifies links.eready, all`nextE, all`prevE, c`inEready
      ensures links.Valid(all) && !c.inEready
      ensures Contents() == Unready(old(Contents()), c, old(c.inEready))
    {
      hide Without, Links.Valid;
      if epoll {
        if c.inEready {
          links.RemoveReady(c, all);
          c.inEready := false;
        }
      }
    }

    method PutReady(c: Connection, ghost all: set<Connection>)
      requires links.Apart() && links.Valid(all) && c in all && c !in links.eready.nodes
      modifies links.eready, all`nextE, all`prevE, c`inEready
      ensures links.Valid(all) && c.inEready == (epoll || old(c.inEready))
      ensures var v := old(Contents()); Contents() == if epoll then v.(eready := [c] + v.eready) else v
    {
      hide Links.Valid;
      if epoll {
        links.InsertReady(c, all);
        c.inEready := true;
      }
    }

    /** The list and flag statements of suspending an open connection. */
    method MoveAway(c: Connection, ghost all: set<Connection>)
      requires links.Apart() && links.Valid(all) && c in all && Distinct(links.normal.nodes)
      requires c !in links.suspended.nodes
      requires c in links.connections.nodes && c in TimeoutList(Contents(), c.timeout == timeout)
      requires c.timeout != timeout ==> c !in links.normal.nodes
      requires c.inEready ==> epoll && c in links.eready.nodes
      modifies links.connections, links.suspended, links.normal, links.manual, links.eready
      modifies all`next, all`prev, all`nextX, all`prevX, all`nextE, all`prevE
      modifies c`suspended, c`inEready
      ensures links.Valid(all) && c.suspended && !c.inEready
      ensures Contents() == Suspended(old(Contents()), c, c.timeout == timeout, old(c.inEready))
      ensures old(Ordered()) ==> Ordered()
    {
      hide Without, Links.Valid, Distinct, Ordered, Others, Unscheduled, Unready, Suspended;
      SuspendedInSteps(Contents(), c, c.timeout == timeout, c.inEready);
      Unschedule(c, all);
      links.Suspend(c, all);
      c.suspended := true;
      TakeReady(c, all);
    }

    /** A connection whose resumption is pending only loses that request. */
    method Suspend(c: Connection)
      requires Valid() && c in known && (c.resuming || c in links.connections.nodes)
      modifies this`known, links.connections, links.suspended, links.cleanup, links.normal, links.manual, links.eready
      modifies known.Keys`next, known.Keys`prev, known.Keys`nextX, known.Keys`prevX, known.Keys`nextE, known.Keys`prevE
      modifies c`resuming, c`suspended, c`inEready
      ensures Valid() && !c.resuming && known.Keys == old(known.Keys)
      ensures var v := old(Contents());
              if old(c.resuming) then Contents() == v && c.suspended == old(c.suspended) && c.inEready == old(c.inEready)
              else
                && c.suspended && !c.inEready && c in TimeoutList(v, c.timeout == timeout)
                && c in v.connections && (old(c.inEready) ==> c in v.eready)
                && Contents() == Suspended(v, c, c.timeout == timeout, old(c.inEready))
      ensures old(Ordered()) ==> Ordered()
    {
      hide Without, Placed, InPlace, Distinct, Recorded, Sorted, Ordered, Links.Valid;
      if c.resuming {
        c.resuming := false;
        return;
      }
      ghost var v, r := Contents(), known;
      RecordedWithout(r, c);
      OpenIsScheduled(v, r, timeout, c);
      SuspendedIsPlaced(v, r, timeout, c);
      MoveAway(c, known.Keys);
      Record(c);
      assert known.Keys == r.Keys;
    }

    /** On the timeout list that its timeout selects, and on the list of ready ones. */
    method Relist(c: Connection, ghost all: set<Connection>)
      requires links.Apart() && links.Valid(all) && c in all
      requires c !in links.normal.nodes && c !in links.manual.nodes && c !in links.eready.nodes
      modifies links.normal, links.manual, links.eready, all`nextX, all`prevX, all`nextE, all`prevE, c`inEready
      ensures links.Valid(all) && c.inEready == (epoll || old(c.inEready))
      ensures var v := old(Contents());
              Contents() == Scheduled(v, c, c.timeout == timeout).(eready := if epoll then [c] + v.eready else v.eready)
      ensures old(Ordered() && (c.timeout == timeout && timeout != 0 ==> Newest(c))) ==> Ordered()
    {
      hide Ordered, Newest, Links.Valid;
      Schedule(c, all);
      PutReady(c, all);
    }

    /** Back on the list of open connections, with the timer restarted. */
    method Reopen(c: Connection, now: nat, ghost all: set<Connection>)
      requires links.Apart() && links.Valid(all) && c in links.suspended.nodes && c !in links.normal.nodes
      modifies links.connections, links.suspended, all`next, all`prev, c`suspended, c`lastActivity
      ensures links.Valid(all) && !c.suspended
      ensures var v := old(Contents());
              Contents() == v.(suspended := Without(v.suspended, c), connections := [c] + v.connections)
      ensures c.lastActivity == if c.timeout != 0 then now else old(c.lastActivity)
      ensures old(Ordered()) ==> Ordered()
      ensures old(NotAfter(links.normal.nodes, now)) && c.timeout != 0 ==> Newest(c)
      ensures old(Clock(now)) ==> Clock(now)
    {
      hide Without, NotAfter, Clock, Ordered, Newest, Links.Valid;
      links.Resume(c, all);
      c.suspended := false;
      RestartTimer(c, now);
    }

    /** The body of the loop over the suspended connections, for one whose resumption
        is pending: the list and flag statements. */
    method MoveBack(c: Connection, now: nat, ghost all: set<Connection>)
      requires links.Apart() && links.Valid(all) && c in all && c in links.suspended.nodes
      requires c !in links.normal.nodes && c !in links.manual.nodes && c !in links.eready.nodes
      modifies links.connections, links.suspended, links.normal, links.manual, links.eready
      modifies all`next, all`prev, all`nextX, all`prevX, all`nextE, all`prevE
      modifies c`resuming, c`suspended, c`inEready, c`lastActivity
      ensures links.Valid(all) && !c.resuming && !c.suspended && c.inEready == (epoll || old(c.inEready))
      ensures c.lastActivity == if c.timeout != 0 then now else old(c.lastActivity)
      ensures Contents() == Resumed(old(Contents()), c, c.timeout == timeout, epoll)
      ensures old(Ordered() && NotAfter(links.normal.nodes, now)) ==> Ordered()
      ensures old(Clock(now)) ==> Clock(now)
    {
      hide Without, NotAfter, Clock, Ordered, Newest, Links.Valid, Scheduled, Resumed;
      ResumedInSteps(Contents(), c, c.timeout == timeout, epoll);
      Reopen(c, now, all);
      Relist(c, all);
      c.resuming := false;
    }

    /** The same with the invariant: the timer is restarted, and the connection was not
        on the list of ready connections already. */
    method Resume(c: Connection, now: nat)
      requires Valid() && c in links.suspended.nodes && c.resuming
      modifies this`known, links.connections, links.suspended, links.cleanup, links.normal, links.manual, links.eready
      modifies known.Keys`next, known.Keys`prev, known.Keys`nextX, known.Keys`prevX, known.Keys`nextE, known.Keys`prevE
      modifies c`resuming, c`suspended, c`inEready, c`lastActivity
      ensures Valid() && !c.resuming && !c.suspended && c.inEready == epoll && c !in old(links.eready.nodes)
      ensures c.lastActivity == if c.timeout != 0 then now else old(c.lastActivity)
      ensures Contents() == Resumed(old(Contents()), c, c.timeout == timeout, epoll)
      ensures known.Keys == old(known.Keys) && (old(Clock(now)) ==> Clock(now))
      ensures old(Ordered() && Clock(now)) ==> Ordered()
    {
      hide Without, Placed, InPlace, Distinct, Recorded, Sorted, NotAfter, UpTo, Ordered, Links.Valid;
      ClockBoundsNormal(now);
      ghost var v, r := Contents(), known;
      RecordedWithout(r, c);
      OpenIsScheduled(v, r, timeout, c);
      SuspendedIsElsewhere(v, r, timeout, c);
      ResumedIsPlaced(v, r, timeout, c, epoll);
      MoveBack(c, now, known.Keys);
      Record(c);
      assert known.Keys == r.Keys;
    }

    /** `MHD_resume_connection`: the resumption itself is left to the event loop. */
    method RequestResume(c: Connection)
      requires Valid() && c in known
      modifies this`resuming, c`resuming
      ensures Valid() && c.resuming && resuming && Contents() == old(Contents())
    {
      hide Placed, Recorded, Links.Valid;
      c.resuming := true;
      resuming := true;
    }

    /** What the links say of the list of suspended connections. */
    lemma SuspendedList()
      requires Valid()
      ensures var s := links.suspended.nodes;
              && Distinct(s) && links.suspended.tail == (if s == [] then null else s[|s| - 1])
              && (forall i :: 0 <= i < |s| ==> s[i].prev == Before(s, i))
              && (forall i :: 0 <= i < |s| ==> s[i] in known)
    {
      hide Placed, Recorded;
    }

    /** The loop over the suspended connections s is about to look at position i - 1: those
        from i on that were asked for have been resumed. */
    ghost predicate Walked(s: seq<Connection>, i: nat, asked: set<Connection>, open: seq<Connection>)
      requires i <= |s|
      reads links.suspended, links.connections, s`resuming
    {
      && Distinct(s)
      && links.suspended.nodes == s[..i] + Select(s[i..], asked, false)
      && links.connections.nodes == Select(s[i..], asked, true) + open
      && (forall j :: 0 <= j < i ==> (s[j].resuming <==> s[j] in asked))
      && (forall j :: i <= j < |s| ==> !s[j].resuming)
    }

    lemma WalkStarts(s: seq<Connection>, asked: set<Connection>, open: seq<Connection>)
      requires Distinct(s) && links.suspended.nodes == s && links.connections.nodes == open
      requires forall j :: 0 <= j < |s| ==> (s[j].resuming <==> s[j] in asked)
      ensures Walked(s, |s|, asked, open)
    {
      assert s[..|s|] == s && s[|s|..] == [] && s + [] == s && [] + open == open;
    }

    lemma WalkEnds(s: seq<Connection>, asked: set<Connection>, open: seq<Connection>)
      requires Walked(s, 0, asked, open)
      ensures links.suspended.nodes == Select(s, asked, false)
      ensures links.connections.nodes == Select(s, asked, true) + open
      ensures forall j :: 0 <= j < |s| ==> !s[j].resuming
    {
      assert s[..0] == [] && s[0..] == s;
    }

    /** The connection at the next position, and what `prev` says about it. */
    lemma WalkAt(s: seq<Connection>, i: nat, asked: set<Connection>, open: seq<Connection>)
      requires Valid() && i < |s| && Walked(s, i + 1, asked, open)
      ensures s[i] in links.suspended.nodes && s[i] in known && s[i].prev == Before(s, i)
      ensures s[i].resuming <==> s[i] in asked
    {
      hide Valid, Distinct, Select;
      SuspendedList();
      var t := links.suspended.nodes;
      assert s[..i + 1][i] == s[i] && t[i] == s[i];
      if i > 0 {
        assert s[..i + 1][i - 1] == s[i - 1] && t[i - 1] == s[i - 1];
      }
    }

    /** One turn of the loop, for the connection at position i. */
    method ResumeIfAsked(pos: Connection, now: nat, ghost i: nat, ghost s: seq<Connection>,
                         ghost asked: set<Connection>, ghost open: seq<Connection>)
      requires Valid() && i < |s| && s[i] == pos && Walked(s, i + 1, asked, open)
      modifies this`known, links.connections, links.suspended, links.cleanup, links.normal, links.manual, links.eready
      modifies known.Keys`next, known.Keys`prev, known.Keys`nextX, known.Keys`prevX, known.Keys`nextE, known.Keys`prevE
      modifies pos`resuming, pos`suspended, pos`inEready, pos`lastActivity
      ensures Valid() && known.Keys == old(known.Keys) && Walked(s, i, asked, open)
      ensures old(Clock(now)) ==> Clock(now)
      ensures old(Ordered() && Clock(now)) ==> Ordered()
    {
      hide Without, Ordered, Clock, Valid, Distinct, Select;
      WalkAt(s, i, asked, open);
      SuspendedList();
      SelectStep(s, i, asked, open);
      if pos.resuming {
        Resume(pos, now);
        assert links.suspended.nodes == s[..i] + Select(s[i..], asked, false);
        assert forall j :: 0 <= j < |s| && j != i ==> s[j] != pos by {
          DistinctAt(s, i);
        }
      }
    }

    /** The loop: the walk goes along `prev`, while the connections it resumes leave the
        list. */
    method WalkSuspended(now: nat, ghost s: seq<Connection>, ghost asked: set<Connection>, ghost open: seq<Connection>)
      requires Valid() && links.suspended.nodes == s && Walked(s, |s|, asked, open)
      modifies this`known, links.connections, links.suspended, links.cleanup, links.normal, links.manual, links.eready
      modifies known.Keys`next, known.Keys`prev, known.Keys`nextX, known.Keys`prevX, known.Keys`nextE, known.Keys`prevE
      modifies known.Keys`resuming, known.Keys`suspended, known.Keys`inEready, known.Keys`lastActivity
      ensures Valid() && known.Keys == old(known.Keys) && Walked(s, 0, asked, open)
      ensures old(Clock(now)) ==> Clock(now)
      ensures old(Ordered() && Clock(now)) ==> Ordered()
    {
      hide Ordered, Clock, Valid, Distinct, Walked, Contents;
      SuspendedList();
      var prev := links.suspended.tail;
      ghost var i := |s|;
      while prev != null
        invariant 0 <= i <= |s| && prev == (if i > 0 then s[i - 1] else null)
        invariant Valid() && known.Keys == old(known.Keys) && Walked(s, i, asked, open)
        invariant old(Clock(now)) ==> Clock(now)
        invariant old(Ordered() && Clock(now)) ==> Ordered()
        decreases i
      {
        var pos := prev;
        i := i - 1;
        WalkAt(s, i, asked, open);
        prev := pos.prev;
        ResumeIfAsked(pos, now, i, s, asked, open);
      }
    }

    /** Resumes exactly the suspended connections for which it was requested, keeping
        their order and that of the others, and forgets the requests. */
    method ResumeSuspended(now: nat)
      requires Valid()
      modifies this`known, links.connections, links.suspended, links.cleanup, links.normal, links.manual, links.eready
      modifies known.Keys`next, known.Keys`prev, known.Keys`nextX, known.Keys`prevX, known.Keys`nextE, known.Keys`prevE
      modifies this`resuming, known.Keys`resuming, known.Keys`suspended, known.Keys`inEready, known.Keys`lastActivity
      ensures Valid() && !resuming && known.Keys == old(known.Keys)
      ensures !old(resuming) ==> Contents() == old(Contents())
      ensures old(resuming) ==>
                var s := old(links.suspended.nodes);
                var asked := old(set c <- links.suspended.nodes | c.resuming);
                && links.suspended.nodes == Select(s, asked, false)
                && links.connections.nodes == Select(s, asked, true) + old(links.connections.nodes)
                && forall i :: 0 <= i < |s| ==> !s[i].resuming
      ensures old(Clock(now)) ==> Clock(now)
      ensures old(Ordered() && Clock(now)) ==> Ordered()
    {
      hide Ordered, Clock, Valid, Distinct, Walked, Select;
      ghost var s, open := links.suspended.nodes, links.connections.nodes;
      ghost var asked := set c <- s | c.resuming;
      if !resuming {
        return;
      }
      resuming := false;
      SuspendedList();
      WalkStarts(s, asked, open);
      WalkSuspended(now, s, asked, open);
      WalkEnds(s, asked, open);
    }

    method StartTimer(c: Connection, now: nat)
      requires c in links.normal.nodes && timeout != 0 ==> c.timeout != 0
      modifies c`lastActivity
      ensures old(Clock(now)) ==> Clock(now)
      ensures c.lastActivity == if c.timeout == 0 then now else old(c.lastActivity)
      ensures old(Ordered()) ==> Ordered()
    {
      if c.timeout == 0 {
        c.lastActivity := now;
      }
    }

    /** The list statements of setting the timeout of an open connection. */
    method Move(c: Connection, t: nat, ghost all: set<Connection>)
      requires links.Apart() && links.Valid(all) && c in all && Distinct(links.normal.nodes)
      requires Distinct(links.manual.nodes)
      requires c in TimeoutList(Contents(), c.timeout == timeout) && c !in TimeoutList(Contents(), c.timeout != timeout)
      modifies links.normal, links.manual, all`nextX, all`prevX
      modifies c`timeout
      ensures links.Valid(all) && c.timeout == t
      ensures Contents() == Rescheduled(old(Contents()), c, old(c.timeout) == timeout, t == timeout)
      ensures old(Ordered()) ==> (Ordered() <==> timeout == 0 || t != timeout || old(Leads(c)))
    {
      hide Without, Distinct, Sorted, Links.Valid, Ordered;
      TakenOff(c, c.timeout == timeout);
      Unschedule(c, all);
      c.timeout := t;
      Schedule(c, all);
    }

    /** No other connection of the list of normal timeouts is more recent than c. */
    ghost predicate Leads(c: Connection)
      reads links.normal, links.normal.nodes`lastActivity, c`lastActivity
    {
      var s := Others(c);
      s == [] || s[0].lastActivity <= c.lastActivity
    }

    lemma OthersLack(c: Connection)
      requires Distinct(links.normal.nodes)
      ensures var s := Others(c); s == [] || (s[0] != c && s[0] in links.normal.nodes)
    {
      hide Without;
      if c in links.normal.nodes {
        WithoutMembers(links.normal.nodes, c);
      }
    }

    lemma TakenOff(c: Connection, own: bool)
      requires links.Apart() && Distinct(links.normal.nodes) && Distinct(links.manual.nodes)
      requires c in TimeoutList(Contents(), own)
      requires c !in TimeoutList(Contents(), !own)
      ensures var v := Unscheduled(Contents(), c, own); c !in v.normal && c !in v.manual
    {
      hide Without;
      UnscheduledIsSame(Contents(), c, own);
    }

    /** Setting the timeout of c keeps the order of the list of normal timeouts: c does not
        go to its head, or no other connection of that list was active later. */
    ghost predicate OrderSurvives(c: Connection, t: nat, now: nat)
      reads links.normal, links.normal.nodes`lastActivity, c`lastActivity, c`timeout, c`suspended
    {
      timeout == 0 || t != timeout || c.suspended ||
      var s := Others(c);
      s == [] || s[0].lastActivity <= if c.timeout == 0 then now else c.lastActivity
    }

    method ChangeTimeout(c: Connection, t: nat, now: nat, ghost all: set<Connection>)
      requires links.Apart() && links.Valid(all) && c in all && Distinct(links.normal.nodes)
      requires Distinct(links.manual.nodes)
      requires !c.suspended ==>
                 c in TimeoutList(Contents(), c.timeout == timeout) && c !in TimeoutList(Contents(), c.timeout != timeout)
      requires c.suspended || c.timeout != timeout ==> c !in links.normal.nodes
      modifies links.normal, links.manual, all`nextX, all`prevX
      modifies c`timeout, c`lastActivity
      ensures links.Valid(all) && c.timeout == t
      ensures c.lastActivity == if old(c.timeout) == 0 then now else old(c.lastActivity)
      ensures var v, own := old(Contents()), old(c.timeout) == timeout;
              Contents() == if c.suspended then v else Rescheduled(v, c, own, t == timeout)
      ensures old(Clock(now)) ==> Clock(now)
      ensures old(Ordered()) ==> (Ordered() <==> old(OrderSurvives(c, t, now)))
    {
      hide Without, Distinct, Sorted, Ordered, Clock, Others, Links.Valid;
      OthersLack(c);
      StartTimer(c, now);
      if c.suspended {
        c.timeout := t;
      } else {
        Move(c, t, all);
      }
    }

    /** Sets the timeout of one connection.  A connection that gets the default timeout
        goes to the head of the list of normal timeouts with the time of its last
        activity unchanged, so the order survives exactly if no other connection of
        that list was active later. */
    method SetTimeout(c: Connection, t: nat, now: nat)
      requires Valid() && (c in links.connections.nodes || c in links.suspended.nodes)
      modifies this`known, links.connections, links.suspended, links.cleanup, links.normal, links.manual, links.eready
      modifies known.Keys`next, known.Keys`prev, known.Keys`nextX, known.Keys`prevX, known.Keys`nextE, known.Keys`prevE
      modifies c`timeout, c`lastActivity
      ensures Valid() && c.timeout == t && known.Keys == old(known.Keys) && (old(Clock(now)) ==> Clock(now))
      ensures c.lastActivity == if old(c.timeout) == 0 then now else old(c.lastActivity)
      ensures var v, own := old(Contents()), old(c.timeout) == timeout;
              if c.suspended then Contents() == v
              else c in TimeoutList(v, own) && Contents() == Rescheduled(v, c, own, t == timeout)
      ensures old(Ordered()) ==> (Ordered() <==> old(OrderSurvives(c, t, now)))
    {
      hide Without, Placed, InPlace, Distinct, Recorded, UpTo, Ordered, OrderSurvives, Links.Valid;
      ghost var v, r := Contents(), known;
      RecordedWithout(r, c);
      OpenIsScheduled(v, r, timeout, c);
      if c.suspended {
        RetimedIsPlaced(v, r, timeout, c, t);
      } else {
        RescheduledIsPlaced(v, r, timeout, c, t);
      }
      ChangeTimeout(c, t, now, known.Keys);
      Record(c);
      assert known.Keys == r.Keys;
    }

    /** The list and flag statements of moving a connection to those that wait for their
        disposal. */
    method PutAway(c: Connection, ghost all: set<Connection>)
      requires links.Apart() && links.Valid(all) && Distinct(links.normal.nodes)
      requires if c.suspended then c in links.suspended.nodes
               else c in links.connections.nodes && c in TimeoutList(Contents(), c.timeout == timeout)
      requires c.timeout != timeout ==> c !in links.normal.nodes
      modifies links.connections, links.suspended, links.cleanup, links.normal, links.manual
      modifies all`next, all`prev, all`nextX, all`prevX
      modifies c`suspended, c`resuming
      ensures links.Valid(all) && !c.suspended && !c.resuming
      ensures Contents() == Closed(old(Contents()), c, old(c.suspended), c.timeout == timeout)
      ensures old(Ordered()) ==> Ordered()
    {
      hide Without, Distinct, Sorted, Links.Valid, Ordered, Others;
      if c.suspended {
        links.Cleanup(c, true, all);
        c.suspended := false;
      } else {
        Unschedule(c, all);
        links.Cleanup(c, false, all);
      }
      c.resuming := false;
    }

    /** Moves a connection to the list of those that wait for their disposal, once. */
    method Cleanup(c: Connection)
      requires Valid() && c in known
      modifies this`known, links.connections, links.suspended, links.cleanup, links.normal, links.manual, links.eready
      modifies known.Keys`next, known.Keys`prev, known.Keys`nextX, known.Keys`prevX, known.Keys`nextE, known.Keys`prevE
      modifies c`inCleanup, c`suspended, c`resuming
      ensures Valid() && c.inCleanup && known.Keys == old(known.Keys)
      ensures var v := old(Contents());
              if old(c.inCleanup) then Contents() == v && c.suspended == old(c.suspended) && c.resuming == old(c.resuming)
              else
                && !c.suspended && !c.resuming
                && (if old(c.suspended) then c in v.suspended else c in v.connections && c in TimeoutList(v, c.timeout == timeout))
                && Contents() == Closed(v, c, old(c.suspended), c.timeout == timeout)
      ensures old(Ordered()) ==> Ordered()
    {
      hide Without, Placed, InPlace, Distinct, Recorded, Sorted, UpTo, Ordered, Others, Links.Valid;
      ghost var v, r := Contents(), known;
      RecordedWithout(r, c);
      KnownIsPlaced(v, r, timeout, c);
      if c.inCleanup {
        return;
      }
      c.inCleanup := true;
      ClosedIsPlaced(v, r, timeout, c);
      PutAway(c, known.Keys);
      Record(c);
      assert known.Keys == r.Keys;
    }

    /** An event on a connection puts it on the list of ready connections, once. */
    method MarkReady(c: Connection)
      requires Valid() && epoll && (c in links.connections.nodes || c in links.cleanup.nodes)
      modifies this`known, links.connections, links.suspended, links.cleanup, links.normal, links.manual, links.eready
      modifies known.Keys`next, known.Keys`prev, known.Keys`nextX, known.Keys`prevX, known.Keys`nextE, known.Keys`prevE
      modifies c`inEready
      ensures Valid() && c.inEready && known.Keys == old(known.Keys)
      ensures var v := old(Contents());
              Contents() == if old(c.inEready) then v else v.(eready := [c] + v.eready)
      ensures c in old(links.eready.nodes) <==> old(c.inEready)
      ensures old(Ordered()) ==> Ordered()
    {
      hide Without, Placed, InPlace, Distinct, Recorded, Sorted, UpTo, Ordered, Links.Valid;
      ghost var v, r := Contents(), known;
      RecordedWithout(r, c);
      MarkedIsPlaced(v, r, timeout, c);
      if !c.inEready {
        links.InsertReady(c, known.Keys);
        c.inEready := true;
      }
      Record(c);
      assert known.Keys == r.Keys;
    }

    /** In turbo mode a new connection is marked ready at once. */
    method AddReadyConnection(now: nat) returns (c: Connection)
      requires Valid() && epoll
      modifies this`known, links.connections, links.suspended, links.cleanup, links.normal, links.manual, links.eready
      modifies known.Keys`next, known.Keys`prev, known.Keys`nextX, known.Keys`prevX, known.Keys`nextE, known.Keys`prevE
      ensures Valid() && fresh(c) && c.timeout == timeout && c.lastActivity == now && !c.suspended && c.inEready
      ensures var v := Opened(old(Contents()), c); Contents() == v.(eready := [c] + v.eready)
      ensures known.Keys == old(known.Keys) + {c}
      ensures old(Clock(now)) ==> Clock(now)
      ensures old(Ordered()) ==> (Ordered() <==> old(InTurn(now))) && (old(Clock(now)) ==> Ordered())
    {
      hide Valid, UpTo, Ordered, InTurn;
      c := AddConnection(now);
      NewIsUnmarked(c);
      MarkReady(c);
    }

    lemma NewIsUnmarked(c: Connection)
      requires Valid() && c in links.connections.nodes && c !in links.eready.nodes
      ensures !c.inEready
    {
      hide Links.Valid;
    }

    /** After its events have been handled a connection stays on the list of ready ones
        unless it has nothing left to do; the flag says whether it was on it. */
    method LeaveReady(c: Connection, idle: bool)
      requires Valid() && epoll && c in known
      modifies this`known, links.connections, links.suspended, links.cleanup, links.normal, links.manual, links.eready
      modifies known.Keys`next, known.Keys`prev, known.Keys`nextX, known.Keys`prevX, known.Keys`nextE, known.Keys`prevE
      modifies c`inEready
      ensures Valid() && known.Keys == old(known.Keys)
      ensures c.inEready == (old(c.inEready) && !idle)
      ensures old(c.inEready) <==> c in old(links.eready.nodes)
      ensures Contents() == Unready(old(Contents()), c, old(c.inEready) && idle)
      ensures old(Ordered()) ==> Ordered()
    {
      hide Without, Placed, InPlace, Distinct, Recorded, Sorted, UpTo, Ordered, Links.Valid;
      ghost var v, r := Contents(), known;
      RecordedWithout(r, c);
      UnmarkedIsPlaced(v, r, timeout, c);
      if !c.suspended && c.inEready {
        if idle {
          links.RemoveReady(c, known.Keys);
          c.inEready := false;
          Record(c);
          assert known.Keys == r.Keys;
        }
      }
    }

    /** The list and flag statements of disposing of a connection. */
    method TakeOut(c: Connection, ghost all: set<Connection>)
      requires links.Apart() && links.Valid(all) && c in links.cleanup.nodes
      requires c.inEready ==> epoll && c in links.eready.nodes
      modifies links.cleanup, links.eready, all`next, all`prev, all`nextE, all`prevE, c`inEready
      ensures links.Valid(all) && !c.inEready
      ensures Contents() == Disposed(old(Contents()), c, old(c.inEready))
    {
      hide Without, Links.Valid;
      links.RemoveCleanup(c, all);
      TakeReady(c, all);
    }

    /** Takes the connection that has waited longest for its disposal off all lists. */
    method Dispose() returns (c: Connection)
      requires Valid() && links.cleanup.nodes != []
      modifies this`known, links.connections, links.suspended, links.cleanup, links.normal, links.manual, links.eready
      modifies known.Keys`next, known.Keys`prev, known.Keys`nextX, known.Keys`prevX, known.Keys`nextE, known.Keys`prevE
      modifies known.Keys`inEready
      ensures Valid() && c == old(links.cleanup.nodes[|links.cleanup.nodes| - 1])
      ensures !c.inEready && known.Keys == old(known.Keys) - {c}
      ensures old(c.inEready) ==> c in old(links.eready.nodes)
      ensures Contents() == Disposed(old(Contents()), c, old(c.inEready))
      ensures var v := Contents();
              c !in v.connections && c !in v.suspended && c !in v.cleanup && c !in v.normal && c !in v.manual && c !in v.eready
      ensures old(Ordered()) ==> Ordered()
    {
      hide Without, Placed, InPlace, Distinct, Recorded, Sorted, UpTo, Ordered, Links.Valid;
      ghost var v, r := Contents(), known;
      CleanupTail();
      c := links.cleanup.tail;
      RecordedWithout(r, c);
      DisposedIsPlaced(v, r, timeout, c);
      TakeOut(c, known.Keys);
      PlacedIsInside(Contents(), r - {c}, timeout);
      links.ValidOver(known.Keys, (r - {c}).Keys);
      known := r - {c};
    }

    lemma CleanupTail()
      requires Valid() && links.cleanup.nodes != []
      ensures links.cleanup.tail == links.cleanup.nodes[|links.cleanup.nodes| - 1]
    {
      hide Placed, Recorded;
    }

    /** The two timeout lists together hold exactly the open connections. */
    lemma TimeoutListsCoverConnections()
      requires Valid()
      ensures var v := Contents();
              && (forall c :: c in v.connections ==> c in v.normal || c in v.manual)
              && (forall c :: c in v.normal ==> c in v.connections && c.timeout == timeout)
              && (forall c :: c in v.manual ==> c in v.connections && c.timeout != timeout)
    {
      hide Links.Valid;
      forall c | c in known
        ensures InPlace(c, FlagsOf(c), Contents(), timeout)
      {
      }
    }

    /** What the links say of a timeout list. */
    lemma TimeoutsLinked(own: bool)
      requires Valid()
      ensures Xdll(if own then links.normal else links.manual)
    {
      hide Placed, Recorded;
    }

    /** The scan of a list of connections with a timeout of their own, from the tail. */
    static method EarliestOn(l: List) returns (have: bool, earliest: nat)
      requires Xdll(l)
      ensures IsEarliest(l.nodes, have, earliest)
    {
      hide IsEarliest, Distinct;
      ghost var s := l.nodes;
      have, earliest := false, 0;
      NothingIsEarliest(s[|s|..]);
      var pos := l.tail;
      ghost var i := |s|;
      while pos != null
        invariant 0 <= i <= |s| && pos == (if i > 0 then s[i - 1] else null)
        invariant IsEarliest(s[i..], have, earliest)
        decreases i
      {
        var c := pos;
        i := i - 1;
        assert s[i..] == [c] + s[i + 1..];
        if c.timeout != 0 && (!have || earliest - c.lastActivity > c.timeout) {
          EarliestWithOne(c, s[i + 1..], have, earliest, true, Deadline(c));
          earliest := c.lastActivity + c.timeout;
        } else {
          EarliestWithOne(c, s[i + 1..], have, earliest, have || c.timeout != 0, earliest);
        }
        if c.timeout != 0 {
          have := true;
        }
        assert s[i].prevX == Before(s, i);
        pos := c.prevX;
      }
      assert s[0..] == s;
    }

    /** The earliest deadline, of the normal list judged by its tail only.  It is that of
        all open connections exactly if the tail suffices, as it does in a list in order. */
    method EarliestDeadline() returns (have: bool, earliest: nat)
      requires Valid()
      ensures IsEarliest(Visited(links.normal.nodes, links.manual.nodes), have, earliest)
      ensures IsEarliest(links.connections.nodes, have, earliest) <==>
                TailSuffices(links.normal.nodes, links.manual.nodes, timeout)
      ensures Ordered() ==> IsEarliest(links.connections.nodes, have, earliest)
    {
      hide Valid, Distinct, IsEarliest, Sorted, TailSuffices, TailWaits, Timeouts;
      TimeoutsLinked(true);
      TimeoutsLinked(false);
      ghost var normal, manual := links.normal.nodes, links.manual.nodes;
      have, earliest := EarliestOn(links.manual);
      ghost var h, e := have, earliest;
      var pos := links.normal.tail;
      if pos != null {
        if pos.timeout != 0 {
          if !have || earliest - pos.timeout > pos.lastActivity {
            earliest := pos.lastActivity + pos.timeout;
          }
          have := true;
        }
        EarliestWithOne(pos, manual, h, e, have, earliest);
      }
      OpenTimeouts();
      VisitedSufficeExactly(normal, manual, links.connections.nodes, timeout, have, earliest);
      if Ordered() {
        NormalSuffices(0);
      }
    }

    lemma OpenTimeouts()
      requires Valid()
      ensures Timeouts(links.normal.nodes, links.manual.nodes, links.connections.nodes, timeout)
    {
      hide Valid;
      TimeoutListsCoverConnections();
      var v := Contents();
      assert v.normal == links.normal.nodes && v.manual == links.manual.nodes;
      assert v.connections == links.connections.nodes;
    }

    lemma NormalSuffices(now: nat)
      requires Valid() && Ordered()
      ensures TailSuffices(links.normal.nodes, links.manual.nodes, timeout)
      ensures TailWaits(links.normal.nodes, links.manual.nodes, timeout, now)
    {
      hide Valid, Sorted;
      TimeoutListsCoverConnections();
      OrderSuffices(links.normal.nodes, links.manual.nodes, timeout, now);
    }

    /** How long the event loop may sleep: until the earliest deadline of the connections
        that are looked at.  That is the earliest one of all open connections exactly if
        the tail of the normal list suffices, as it does in a list in order. */
    method GetTimeout(now: nat, pending: bool) returns (wait: Option<nat>)
      requires Valid()
      ensures pending || (epoll && links.eready.nodes != []) ==> wait == Some(0)
      ensures !pending && !(epoll && links.eready.nodes != []) ==>
                && WaitsForEarliest(Visited(links.normal.nodes, links.manual.nodes), now, wait)
                && (WaitsForEarliest(links.connections.nodes, now, wait) <==>
                    TailWaits(links.normal.nodes, links.manual.nodes, timeout, now))
                && (Ordered() ==> WaitsForEarliest(links.connections.nodes, now, wait))
    {
      hide Valid, Distinct, Ordered, IsEarliest, WaitsForEarliest, Visited, TailSuffices, TailWaits, Timeouts, Wait;
      if pending {
        return Some(0);
      }
      ReadyHead();
      if epoll && links.eready.head != null {
        return Some(0);
      }
      var have, earliest := EarliestDeadline();
      ghost var normal, manual := links.normal.nodes, links.manual.nodes;
      EarliestIsWait(Visited(normal, manual), have, earliest, now);
      WaitIs(earliest, now);
      if !have {
        wait := None;
      } else if earliest < now {
        wait := Some(0);
      } else if earliest - now > UINT64_MAX / 1000 {
        wait := Some(UINT64_MAX);
      } else {
        wait := Some(1000 * (earliest - now));
      }
      OpenTimeouts();
      VisitedWaitExactly(normal, manual, links.connections.nodes, timeout, now, wait);
      if Ordered() {
        NormalSuffices(now);
      }
    }

    lemma ReadyHead()
      requires Valid()
      ensures links.eready.head == null <==> links.eready.nodes == []
    {
      hide Placed, Recorded;
    }

    // ---- closing idle connections ----

    /** Every connection of `open` is still open, or it was gone and waits for its
        disposal. */
    ghost predicate Accounted(open: seq<Connection>, gone: set<Connection>)
      reads links.connections, links.cleanup
    {
      forall c :: c in open ==> c in links.connections.nodes || (c in gone && c in links.cleanup.nodes)
    }

    /** What the idle handler does to one open connection: one that is closed already, or
        whose socket fails, is moved away; one that has been idle for too long is closed. */
    method HandleIdle(c: Connection, own: bool, now: nat, gone: set<Connection>, ghost open: seq<Connection>)
      returns (shut: bool)
      requires Valid() && c in TimeoutList(Contents(), own) && Accounted(open, gone)
      modifies this`known, links.connections, links.suspended, links.cleanup, links.normal, links.manual, links.eready
      modifies known.Keys`next, known.Keys`prev, known.Keys`nextX, known.Keys`prevX, known.Keys`nextE, known.Keys`prevE
      modifies c`inCleanup, c`suspended, c`resuming
      ensures Valid() && known.Keys == old(known.Keys) && Accounted(open, gone)
      ensures shut <==> c in gone || Expired(c, now)
      ensures var s, t := old(TimeoutList(Contents(), own)), old(TimeoutList(Contents(), !own));
              && TimeoutList(Contents(), own) == (if c in gone then Without(s, c) else s)
              && TimeoutList(Contents(), !own) == t
      ensures old(Ordered()) ==> Ordered()
    {
      hide Without, Valid, Distinct, Ordered;
      if c in gone {
        ScheduledIsOpen(c, own);
        Cleanup(c);
        MovedIsAccounted(old(Contents()), Contents(), c);
        return true;
      }
      return c.timeout != 0 && c.timeout < now - c.lastActivity;
    }

    lemma ScheduledIsOpen(c: Connection, own: bool)
      requires Valid() && c in TimeoutList(Contents(), own)
      ensures c in known && c in links.connections.nodes && !c.suspended && !c.inCleanup
      ensures (c.timeout == timeout <==> own)
      ensures Distinct(links.connections.nodes)
    {
      hide Links.Valid;
    }

    lemma MovedIsAccounted(v: View, w: View, c: Connection)
      requires c in v.connections && Distinct(v.connections)
      requires w.connections == Without(v.connections, c) && w.cleanup == [c] + v.cleanup
      ensures forall d :: d in v.connections && d != c ==> d in w.connections
      ensures c in w.cleanup && forall d :: d in v.cleanup ==> d in w.cleanup
    {
      hide Without;
      WithoutMembers(v.connections, c);
    }

    /** The scan of the timeout list s has come to position i: of the positions from i on
        exactly those that were gone have left the list. */
    ghost predicate Scanned(own: bool, s: seq<Connection>, i: nat, gone: set<Connection>)
      requires i <= |s|
      reads links.connections, links.suspended, links.cleanup, links.normal, links.manual, links.eready
    {
      Distinct(s) && TimeoutList(Contents(), own) == s[..i] + Select(s[i..], gone, false)
    }

    lemma ScanStarts(own: bool, gone: set<Connection>)
      requires Valid()
      ensures var s := TimeoutList(Contents(), own); Scanned(own, s, |s|, gone)
    {
      hide Placed, Recorded;
      var s := TimeoutList(Contents(), own);
      TimeoutsLinked(own);
      assert s[..|s|] == s && s[|s|..] == [] && s + [] == s;
    }

    /** The connection at the next position, and what `prevX` says about it. */
    lemma ScanAt(own: bool, s: seq<Connection>, i: nat, gone: set<Connection>)
      requires Valid() && i < |s| && Scanned(own, s, i + 1, gone)
      ensures s[i] in TimeoutList(Contents(), own) && s[i] in known && s[i].prevX == Before(s, i)
    {
      hide Valid, Distinct, Select;
      TimeoutsLinked(own);
      var l := if own then links.normal else links.manual;
      assert s[..i + 1][i] == s[i] && l.nodes[i] == s[i];
      assert l.nodes[i].prevX == Before(l.nodes, i);
      if i > 0 {
        assert s[..i + 1][i - 1] == s[i - 1] && l.nodes[i - 1] == s[i - 1];
      }
      ScheduledIsOpen(s[i], own);
    }

    /** One turn of either loop, for the connection at position i. */
    method ScanOne(pos: Connection, own: bool, now: nat, gone: set<Connection>,
                   ghost i: nat, ghost s: seq<Connection>, ghost open: seq<Connection>)
      returns (shut: bool)
      requires Valid() && i < |s| && s[i] == pos && Scanned(own, s, i + 1, gone) && Accounted(open, gone)
      modifies this`known, links.connections, links.suspended, links.cleanup, links.normal, links.manual, links.eready
      modifies known.Keys`next, known.Keys`prev, known.Keys`nextX, known.Keys`prevX, known.Keys`nextE, known.Keys`prevE
      modifies pos`inCleanup, pos`suspended, pos`resuming
      ensures Valid() && known.Keys == old(known.Keys) && Accounted(open, gone) && Scanned(own, s, i, gone)
      ensures shut <==> pos in gone || Expired(pos, now)
      ensures TimeoutList(Contents(), !own) == old(TimeoutList(Contents(), !own))
      ensures old(Ordered()) ==> Ordered()
    {
      hide Without, Ordered, Valid, Select, Accounted;
      ScanAt(own, s, i, gone);
      SelectStep(s, i, gone, []);
      TimeoutsLinked(own);
      shut := HandleIdle(pos, own, now, gone, open);
    }

    lemma NormalIsInOrder()
      requires Valid() && Ordered()
      ensures InOrder(links.normal.nodes, timeout)
    {
      hide Valid, Sorted;
      TimeoutListsCoverConnections();
    }

    /** All connections with a timeout of their own are looked at. */
    method ScanManual(now: nat, gone: set<Connection>, ghost open: seq<Connection>) returns (closed: seq<Connection>)
      requires Valid() && Accounted(open, gone)
      modifies this`known, links.connections, links.suspended, links.cleanup, links.normal, links.manual, links.eready
      modifies known.Keys`next, known.Keys`prev, known.Keys`nextX, known.Keys`prevX, known.Keys`nextE, known.Keys`prevE
      modifies known.Keys`inCleanup, known.Keys`suspended, known.Keys`resuming
      ensures Valid() && known.Keys == old(known.Keys) && Accounted(open, gone)
      ensures links.manual.nodes == Select(old(links.manual.nodes), gone, false)
      ensures links.normal.nodes == old(links.normal.nodes) && (old(Ordered()) ==> Ordered())
      ensures ClosedFrom(closed, old(links.manual.nodes), 0, gone, now)
    {
      hide Ordered, Valid, Scanned, Accounted, Select, ClosedFrom, Distinct, InOrder;
      ghost var s := links.manual.nodes;
      ScanStarts(false, gone);
      TimeoutsLinked(false);
      closed := [];
      NothingIsClosed(s, gone, now);
      var prev := links.manual.tail;
      ghost var i := |s|;
      while prev != null
        invariant 0 <= i <= |s| && prev == (if i > 0 then s[i - 1] else null)
        invariant Valid() && known.Keys == old(known.Keys) && Accounted(open, gone) && Scanned(false, s, i, gone)
        invariant links.normal.nodes == old(links.normal.nodes) && (old(Ordered()) ==> Ordered())
        invariant ClosedFrom(closed, s, i, gone, now)
        decreases i
      {
        var pos := prev;
        i := i - 1;
        ScanAt(false, s, i, gone);
        prev := pos.prevX;
        var shut := ScanOne(pos, false, now, gone, i, s, open);
        ClosedNext(closed, s, i, gone, now);
        if shut && pos !in gone {
          closed := closed + [pos];
        }
      }
      ScanEnds(false, s, gone);
    }

    lemma ScanEnds(own: bool, s: seq<Connection>, gone: set<Connection>)
      requires Scanned(own, s, 0, gone)
      ensures TimeoutList(Contents(), own) == Select(s, gone, false)
    {
      assert s[..0] == [] && s[0..] == s;
    }

    /** The walk over the list of normal timeouts, up to the first connection that stays
        open. */
    method WalkNormal(now: nat, gone: set<Connection>, ghost open: seq<Connection>)
      returns (closed: seq<Connection>, ghost stop: nat)
      requires Valid() && Accounted(open, gone)
      modifies this`known, links.connections, links.suspended, links.cleanup, links.normal, links.manual, links.eready
      modifies known.Keys`next, known.Keys`prev, known.Keys`nextX, known.Keys`prevX, known.Keys`nextE, known.Keys`prevE
      modifies known.Keys`inCleanup, known.Keys`suspended, known.Keys`resuming
      ensures Valid() && known.Keys == old(known.Keys) && Accounted(open, gone)
      ensures links.manual.nodes == old(links.manual.nodes) && (old(Ordered()) ==> Ordered())
      ensures stop <= |old(links.normal.nodes)| && Scanned(true, old(links.normal.nodes), stop, gone)
      ensures ClosedFrom(closed, old(links.normal.nodes), stop, gone, now)
      ensures Stops(old(links.normal.nodes), stop, gone, now)
    {
      hide Ordered, Valid, Scanned, Accounted, Select, ClosedFrom, ShutFrom, Distinct;
      ghost var s := links.normal.nodes;
      ScanStarts(true, gone);
      TimeoutsLinked(true);
      closed := [];
      NothingIsClosed(s, gone, now);
      NothingIsShut(s, gone, now);
      var prev := links.normal.tail;
      stop := |s|;
      while prev != null
        invariant 0 <= stop <= |s| && prev == (if stop > 0 then s[stop - 1] else null)
        invariant Valid() && known.Keys == old(known.Keys) && Accounted(open, gone) && Scanned(true, s, stop, gone)
        invariant links.manual.nodes == old(links.manual.nodes) && (old(Ordered()) ==> Ordered())
        invariant ClosedFrom(closed, s, stop, gone, now) && ShutFrom(s, stop, gone, now)
        decreases stop
      {
        var pos := prev;
        stop := stop - 1;
        ScanAt(true, s, stop, gone);
        prev := pos.prevX;
        var shut := ScanOne(pos, true, now, gone, stop, s, open);
        ClosedNext(closed, s, stop, gone, now);
        ShutNext(s, stop, gone, now);
        if !shut {
          break;
        }
        if pos !in gone {
          closed := closed + [pos];
        }
      }
    }

    /** Of the normal timeouts only those from the tail to the first connection that stays
        open are looked at.  These are all that have expired exactly if none of them is
        hidden behind one that stays open; in a list in order none is. */
    method ScanNormal(now: nat, gone: set<Connection>, ghost open: seq<Connection>)
      returns (closed: seq<Connection>, ghost stop: nat)
      requires Valid() && Accounted(open, gone)
      modifies this`known, links.connections, links.suspended, links.cleanup, links.normal, links.manual, links.eready
      modifies known.Keys`next, known.Keys`prev, known.Keys`nextX, known.Keys`prevX, known.Keys`nextE, known.Keys`prevE
      modifies known.Keys`inCleanup, known.Keys`suspended, known.Keys`resuming
      ensures Valid() && known.Keys == old(known.Keys) && Accounted(open, gone)
      ensures links.manual.nodes == old(links.manual.nodes) && (old(Ordered()) ==> Ordered())
      ensures stop <= |old(links.normal.nodes)| && Scanned(true, old(links.normal.nodes), stop, gone)
      ensures ClosedFrom(closed, old(links.normal.nodes), stop, gone, now)
      ensures ClosedFrom(closed, old(links.normal.nodes), 0, gone, now) <==>
                NoneHidden(old(links.normal.nodes), gone, now)
      ensures old(Ordered()) ==> NoneHidden(old(links.normal.nodes), gone, now)
    {
      hide Ordered, Valid, Scanned, Accounted, Select, ClosedFrom, NoneHidden, Stops, Distinct, InOrder;
      ghost var s := links.normal.nodes;
      TimeoutsLinked(true);
      if Ordered() {
        NormalIsInOrder();
        OrderHidesNone(s, timeout, gone, now);
      }
      closed, stop := WalkNormal(now, gone, open);
      StoppedExactly(closed, s, stop, gone, now);
    }

    lemma NoTimeoutTwice()
      requires Valid()
      ensures forall c :: c in links.manual.nodes ==> c !in links.normal.nodes
    {
      hide Valid;
      TimeoutListsCoverConnections();
      var v := Contents();
      assert v.normal == links.normal.nodes && v.manual == links.manual.nodes;
    }

    /** The connections that the event loop closes because they were idle for too long:
        all that have expired, although the scan of the normal list stops at the first
        one that is still open, exactly if that one hides none.  Those that were gone are moved away on the way. */
    method ScanExpired(now: nat, gone: set<Connection>) returns (closed: seq<Connection>, ghost stop: nat)
      requires Valid()
      modifies this`known, links.connections, links.suspended, links.cleanup, links.normal, links.manual, links.eready
      modifies known.Keys`next, known.Keys`prev, known.Keys`nextX, known.Keys`prevX, known.Keys`nextE, known.Keys`prevE
      modifies known.Keys`inCleanup, known.Keys`suspended, known.Keys`resuming
      ensures Valid() && known.Keys == old(known.Keys) && (old(Ordered()) ==> Ordered())
      ensures forall c :: c in closed ==> c in old(links.connections.nodes) && c !in gone && Expired(c, now)
      ensures old(Ordered()) ==>
                forall c :: c in old(links.connections.nodes) && c !in gone && Expired(c, now) ==> c in closed
      ensures NoneHidden(old(links.normal.nodes), gone, now) <==>
                forall c :: c in old(links.connections.nodes) && c !in gone && Expired(c, now) ==> c in closed
      ensures links.manual.nodes == Select(old(links.manual.nodes), gone, false)
      ensures var s := old(links.normal.nodes);
              stop <= |s| && links.normal.nodes == s[..stop] + Select(s[stop..], gone, false)
      ensures Accounted(old(links.connections.nodes), gone)
    {
      hide Valid, Select, Ordered, ClosedFrom, NoneHidden, Timeouts;
      OpenTimeouts();
      NoTimeoutTwice();
      ghost var manual, normal := links.manual.nodes, links.normal.nodes;
      ghost var open := links.connections.nodes;
      closed := ScanManual(now, gone, open);
      var more;
      more, stop := ScanNormal(now, gone, open);
      ClosedOfBoth(closed, more, manual, normal, open, timeout, stop, gone, now);
      closed := closed + more;
    }
  }

  lemma WithoutSecond(a: Connection, b: Connection)
    requires a != b
    ensures Without([a, b], b) == [a]
  {
    assert Position([a, b], b) == 1;
  }

  method OneConnection(stamp: nat, later: nat) returns (daemon: Daemon, c: Connection)
    requires stamp <= later
    ensures fresh(daemon) && fresh(daemon.known.Keys) && daemon.Valid() && daemon.Ordered() && daemon.Clock(later)
    ensures var l := daemon.links;
            fresh({l, l.connections, l.suspended, l.cleanup, l.normal, l.manual, l.eready}) && fresh(c)
    ensures daemon.timeout == 10 && !daemon.epoll && daemon.Contents() == View([c], [], [], [c], [], [])
    ensures !c.suspended && c.timeout == 10 && c.lastActivity == stamp
  {
    hide Daemon.Valid, Daemon.Ordered;
    daemon := new Daemon(10, false);
    c := daemon.AddConnection(stamp);
    assert daemon.Clock(later);
  }

  /** A connection with an older stamp than the head has expired, and the event loop
      still sleeps. */
  method OlderStampIsOverslept() returns (daemon: Daemon, late: Connection, wait: Option<nat>)
    ensures fresh(daemon) && daemon.Valid() && !daemon.Ordered()
    ensures late in daemon.links.connections.nodes && Expired(late, 14) && wait == Some(1000)
  {
    hide Daemon.Valid, Daemon.Ordered, Daemon.Clock, IsEarliest, WaitsForEarliest, TailWaits;
    var first;
    daemon, first := OneConnection(5, 5);
    late := daemon.AddConnection(3);
    wait := daemon.GetTimeout(14, false);
    OneWait(Visited([late, first], []), first, 14, wait);
  }

  lemma OneWait(s: seq<Connection>, c: Connection, now: nat, wait: Option<nat>)
    requires s == [c] && c.timeout != 0 && WaitsForEarliest(s, now, wait)
    ensures wait == Some(Wait(Deadline(c), now))
  {
    assert c in s;
  }

  /** Two connections, the first idle since time 0 and the second since time 5. */
  method TwoConnections() returns (daemon: Daemon, idle: Connection, other: Connection)
    ensures fresh(daemon) && fresh(daemon.known.Keys) && daemon.Valid() && daemon.Ordered()
    ensures var l := daemon.links;
            fresh({l, l.connections, l.suspended, l.cleanup, l.normal, l.manual, l.eready}) && fresh(idle) && fresh(other)
    ensures daemon.timeout == 10 && !daemon.epoll
    ensures daemon.links.normal.nodes == [other, idle] && daemon.links.manual.nodes == []
    ensures daemon.links.connections.nodes == [other, idle] && idle != other && !idle.suspended
    ensures idle.timeout == 10 == other.timeout && idle.lastActivity == 0 && other.lastActivity == 5
  {
    hide Daemon.Valid, Daemon.Ordered, Daemon.Clock;
    daemon, idle := OneConnection(0, 5);
    other := daemon.AddConnection(5);
  }

  /** Setting the default timeout again on the connection that has been idle longest
      hides it behind the others: it has expired, and the event loop still sleeps. */
  method ExpiredConnectionIsOverslept() returns (daemon: Daemon, idle: Connection, wait: Option<nat>)
    ensures fresh(daemon) && daemon.Valid() && !daemon.Ordered()
    ensures idle in daemon.links.connections.nodes && Expired(idle, 12) && wait == Some(3000)
  {
    hide Placed, Recorded, Without, Distinct, UpTo, Sorted, Daemon.Ordered, Daemon.Valid, IsEarliest,
      WaitsForEarliest, TailWaits;
    var other;
    daemon, idle, other := TwoConnections();
    WithoutSecond(other, idle);
    daemon.SetTimeout(idle, 10, 6);
    assert daemon.links.normal.nodes == [idle] + Without([other, idle], idle);
    wait := daemon.GetTimeout(12, false);
    OneWait(Visited([idle, other], []), other, 12, wait);
  }
}
