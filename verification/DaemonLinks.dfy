/** The six lists of a daemon on the heap: three of the DLL kind that share the links
    `next` and `prev`, two of the XDLL kind that share `nextX` and `prevX`, and one of the
    EDLL kind.  Each method is one or two of the list macros; it is proved to change the
    contents of its own lists as a `View` says and to keep all six well linked. */
module DaemonLinks {
  import opened ConnectionLists

  /** The contents of the six lists of a daemon. */
  datatype View = View(connections: seq<Connection>, suspended: seq<Connection>, cleanup: seq<Connection>,
                       normal: seq<Connection>, manual: seq<Connection>, eready: seq<Connection>)

  function TimeoutList(v: View, own: bool): seq<Connection> {
    if own then v.normal else v.manual
  }

  /** c put at the head of the list that its timeout selects, or taken off it. */
  function Scheduled(v: View, c: Connection, own: bool): View {
    if own then v.(normal := [c] + v.normal) else v.(manual := [c] + v.manual)
  }

  function Unscheduled(v: View, c: Connection, own: bool): View
    requires c in TimeoutList(v, own)
  {
    if own then v.(normal := Without(v.normal, c)) else v.(manual := Without(v.manual, c))
  }

  ghost predicate Disjoint(s: seq<Connection>, t: seq<Connection>) {
    forall i, j :: 0 <= i < |s| && 0 <= j < |t| ==> s[i] != t[j]
  }

  ghost predicate Inside(s: seq<Connection>, all: set<Connection>) {
    forall i :: 0 <= i < |s| ==> s[i] in all
  }

  lemma WithoutStays(s: seq<Connection>, c: Connection, t: seq<Connection>, all: set<Connection>)
    requires c in s && Distinct(s)
    ensures Disjoint(s, t) ==> Disjoint(Without(s, c), t)
    ensures Disjoint(t, s) ==> Disjoint(t, Without(s, c))
    ensures Inside(s, all) ==> Inside(Without(s, c), all)
    ensures Disjoint(Without(s, c), [c])
  {
    WithoutMembers(s, c);
  }

  lemma PrependedStays(c: Connection, s: seq<Connection>, t: seq<Connection>, all: set<Connection>)
    ensures Disjoint(s, t) && c !in t ==> Disjoint([c] + s, t)
    ensures Disjoint(t, s) && c !in t ==> Disjoint(t, [c] + s)
    ensures Inside(s, all) && c in all ==> Inside([c] + s, all)
  {
  }

  class Links {
    const connections: List
    const suspended: List
    const cleanup: List
    const normal: List
    const manual: List
    const eready: List

    ghost function Contents(): View
      reads connections, suspended, cleanup, normal, manual, eready
    {
      View(connections.nodes, suspended.nodes, cleanup.nodes, normal.nodes, manual.nodes, eready.nodes)
    }

    /** All head and tail pointers are in different places. */
    ghost predicate Apart() {
      && connections != suspended && connections != cleanup && suspended != cleanup
      && normal != connections && normal != suspended && normal != cleanup
      && manual != connections && manual != suspended && manual != cleanup && manual != normal
      && eready != connections && eready != suspended && eready != cleanup && eready != normal && eready != manual
    }

    ghost predicate States(all: set<Connection>)
      reads connections, suspended, cleanup, all`next, all`prev
    {
      && Inside(connections.nodes, all) && Inside(suspended.nodes, all) && Inside(cleanup.nodes, all)
      && Disjoint(connections.nodes, suspended.nodes) && Disjoint(connections.nodes, cleanup.nodes)
      && Disjoint(suspended.nodes, cleanup.nodes)
      && Dll(connections) && Dll(suspended) && Dll(cleanup)
    }

    ghost predicate Timeouts(all: set<Connection>)
      reads normal, manual, all`nextX, all`prevX
    {
      && Inside(normal.nodes, all) && Inside(manual.nodes, all) && Disjoint(normal.nodes, manual.nodes)
      && Xdll(normal) && Xdll(manual)
    }

    ghost predicate Ready(all: set<Connection>)
      reads eready, all`nextE, all`prevE
    {
      Inside(eready.nodes, all) && Edll(eready)
    }

    /** All six lists are well linked, over connections of a given set. */
    ghost predicate Valid(all: set<Connection>)
      reads connections, suspended, cleanup, normal, manual, eready
      reads all`next, all`prev, all`nextX, all`prevX, all`nextE, all`prevE
    {
      Apart() && States(all) && Timeouts(all) && Ready(all)
    }

    constructor ()
      ensures Valid({}) && Contents() == View([], [], [], [], [], [])
      ensures fresh({connections, suspended, cleanup, normal, manual, eready})
    {
      connections := new List();
      suspended := new List();
      cleanup := new List();
      normal := new List();
      manual := new List();
      eready := new List();
    }

    // ---- the timeout lists ----

    method InsertTimeout(c: Connection, own: bool, ghost all: set<Connection>)
      requires Valid(all) && c in all && c !in normal.nodes && c !in manual.nodes
      modifies normal, manual, all`nextX, all`prevX
      ensures Valid(all) && Contents() == Scheduled(old(Contents()), c, own)
    {
      hide Dll, Edll, States, Ready;
      PrependedStays(c, normal.nodes, manual.nodes, all);
      PrependedStays(c, manual.nodes, normal.nodes, all);
      if own {
        XdllInsert(normal, c);
      } else {
        XdllInsert(manual, c);
      }
    }

    method RemoveTimeout(c: Connection, own: bool, ghost all: set<Connection>)
      requires Valid(all) && c in TimeoutList(Contents(), own)
      modifies normal, manual, all`nextX, all`prevX
      ensures Valid(all) && Contents() == Unscheduled(old(Contents()), c, own)
    {
      hide Dll, Xdll, Edll, States, Ready, Without;
      if own {
        RemoveFrom(normal, manual, c, all);
      } else {
        RemoveFrom(manual, normal, c, all);
      }
    }

    static method RemoveFrom(l: List, other: List, c: Connection, ghost all: set<Connection>)
      requires l != other && Xdll(l) && Xdll(other) && c in l.nodes && Inside(l.nodes, all)
      requires Disjoint(l.nodes, other.nodes) && Disjoint(other.nodes, l.nodes)
      modifies l, all`nextX, all`prevX
      ensures Xdll(l) && Xdll(other) && Inside(l.nodes, all) && l.nodes == Without(old(l.nodes), c)
      ensures Disjoint(l.nodes, other.nodes) && Disjoint(other.nodes, l.nodes)
    {
      hide Without;
      WithoutStays(l.nodes, c, other.nodes, all);
      XdllRemove(l, c);
    }

    // ---- the lists of states ----

    method InsertOpen(c: Connection, ghost all: set<Connection>)
      requires Valid(all) && c in all && c !in connections.nodes && c !in suspended.nodes && c !in cleanup.nodes
      modifies connections, all`next, all`prev
      ensures Valid(all)
      ensures var v := old(Contents()); Contents() == v.(connections := [c] + v.connections)
    {
      hide Xdll, Edll, Timeouts, Ready;
      PrependedStays(c, connections.nodes, suspended.nodes, all);
      PrependedStays(c, connections.nodes, cleanup.nodes, all);
      DllInsert(connections, c);
    }

    /** A connection goes from one list to another that uses the same links; a third list
        with these links stays as it is. */
    static method Transfer(from: List, to: List, third: List, c: Connection, ghost all: set<Connection>)
      requires from != to && from != third && to != third
      requires Dll(from) && Dll(to) && Dll(third) && c in from.nodes
      requires Inside(from.nodes, all) && Inside(to.nodes, all) && Inside(third.nodes, all)
      requires Disjoint(from.nodes, to.nodes) && Disjoint(from.nodes, third.nodes) && Disjoint(to.nodes, third.nodes)
      modifies from, to, all`next, all`prev
      ensures Dll(from) && Dll(to) && Dll(third) && third.nodes == old(third.nodes)
      ensures from.nodes == Without(old(from.nodes), c) && to.nodes == [c] + old(to.nodes)
      ensures Inside(from.nodes, all) && Inside(to.nodes, all)
      ensures Disjoint(from.nodes, to.nodes) && Disjoint(from.nodes, third.nodes) && Disjoint(to.nodes, third.nodes)
    {
      hide Dll, Without;
      ThereOnly(from, to, third, c, all);
      DllRemove(from, c);
      DllInsert(to, c);
    }

    static lemma ThereOnly(from: List, to: List, third: List, c: Connection, all: set<Connection>)
      requires Dll(from) && c in from.nodes && Inside(from.nodes, all)
      requires Disjoint(from.nodes, to.nodes) && Disjoint(from.nodes, third.nodes) && Disjoint(to.nodes, third.nodes)
      requires Inside(to.nodes, all)
      ensures c in all && c !in to.nodes && c !in third.nodes
      ensures var s, t := Without(from.nodes, c), [c] + to.nodes;
              && Inside(s, all) && Inside(t, all)
              && (forall i :: 0 <= i < |s| ==> s[i] != c)
              && Disjoint(s, to.nodes) && Disjoint(s, t) && Disjoint(s, third.nodes) && Disjoint(t, third.nodes)
    {
      hide Without;
      WithoutStays(from.nodes, c, to.nodes, all);
      WithoutStays(from.nodes, c, third.nodes, all);
      PrependedStays(c, to.nodes, third.nodes, all);
      PrependedStays(c, to.nodes, Without(from.nodes, c), all);
      WithoutMembers(from.nodes, c);
    }

    method Suspend(c: Connection, ghost all: set<Connection>)
      requires Valid(all) && c in connections.nodes
      modifies connections, suspended, all`next, all`prev
      ensures Valid(all)
      ensures var v := old(Contents());
              Contents() == v.(connections := Without(v.connections, c), suspended := [c] + v.suspended)
    {
      hide Dll, Xdll, Edll, Timeouts, Ready, Without;
      Transfer(connections, suspended, cleanup, c, all);
    }

    method Resume(c: Connection, ghost all: set<Connection>)
      requires Valid(all) && c in suspended.nodes
      modifies connections, suspended, all`next, all`prev
      ensures Valid(all)
      ensures var v := old(Contents());
              Contents() == v.(suspended := Without(v.suspended, c), connections := [c] + v.connections)
    {
      hide Dll, Xdll, Edll, Timeouts, Ready, Without;
      Reversed();
      Transfer(suspended, connections, cleanup, c, all);
      Reversed();
    }

    /** A connection that waits for its disposal comes from either of the other lists. */
    method Cleanup(c: Connection, wasSuspended: bool, ghost all: set<Connection>)
      requires Valid(all) && c in (if wasSuspended then suspended.nodes else connections.nodes)
      modifies connections, suspended, cleanup, all`next, all`prev
      ensures Valid(all)
      ensures var v := old(Contents());
              Contents() ==
              if wasSuspended then v.(suspended := Without(v.suspended, c), cleanup := [c] + v.cleanup)
              else v.(connections := Without(v.connections, c), cleanup := [c] + v.cleanup)
    {
      hide Dll, Xdll, Edll, Timeouts, Ready, Without;
      Reversed();
      if wasSuspended {
        Transfer(suspended, cleanup, connections, c, all);
      } else {
        Transfer(connections, cleanup, suspended, c, all);
      }
      Reversed();
    }

    /** Being disjoint does not depend on the order. */
    lemma Reversed()
      ensures Disjoint(connections.nodes, suspended.nodes) <==> Disjoint(suspended.nodes, connections.nodes)
      ensures Disjoint(connections.nodes, cleanup.nodes) <==> Disjoint(cleanup.nodes, connections.nodes)
      ensures Disjoint(suspended.nodes, cleanup.nodes) <==> Disjoint(cleanup.nodes, suspended.nodes)
    {
    }

    method RemoveCleanup(c: Connection, ghost all: set<Connection>)
      requires Valid(all) && c in cleanup.nodes
      modifies cleanup, all`next, all`prev
      ensures Valid(all)
      ensures var v := old(Contents()); Contents() == v.(cleanup := Without(v.cleanup, c))
    {
      hide Xdll, Edll, Timeouts, Ready, Without;
      WithoutStays(cleanup.nodes, c, connections.nodes, all);
      WithoutStays(cleanup.nodes, c, suspended.nodes, all);
      DllRemove(cleanup, c);
    }

    // ---- the list of ready connections ----

    method InsertReady(c: Connection, ghost all: set<Connection>)
      requires Valid(all) && c in all && c !in eready.nodes
      modifies eready, all`nextE, all`prevE
      ensures Valid(all)
      ensures var v := old(Contents()); Contents() == v.(eready := [c] + v.eready)
    {
      hide Dll, Xdll, States, Timeouts;
      EdllInsert(eready, c);
    }

    method RemoveReady(c: Connection, ghost all: set<Connection>)
      requires Valid(all) && c in eready.nodes
      modifies eready, all`nextE, all`prevE
      ensures Valid(all)
      ensures var v := old(Contents()); Contents() == v.(eready := Without(v.eready, c))
    {
      hide Dll, Xdll, States, Timeouts, Without;
      WithoutStays(eready.nodes, c, [], all);
      EdllRemove(eready, c);
    }

    /** The lists stay well linked over a larger set, and over a smaller one that still
        has all their connections. */
    lemma ValidOver(all: set<Connection>, some: set<Connection>)
      requires Valid(all)
      requires Inside(connections.nodes, some) && Inside(suspended.nodes, some) && Inside(cleanup.nodes, some)
      requires Inside(normal.nodes, some) && Inside(manual.nodes, some) && Inside(eready.nodes, some)
      ensures Valid(some)
    {
      hide Dll, Xdll, Edll;
    }

    lemma Grow(all: set<Connection>, c: Connection)
      requires Valid(all)
      ensures Valid(all + {c})
    {
      hide Dll, Xdll, Edll;
      ValidOver(all, all + {c});
    }
  }
}
