/** The intrusive doubly linked lists of internal.h: `DLL_insert`, `DLL_remove` and
    their XDLL and EDLL forms.

    A connection carries three pairs of links, so that it can be on one list of
    each kind at the same time.  A list is a head and a tail pointer; the ghost
    sequence `nodes` is what it contains, head first.  The three kinds differ only
    in the fields they use: an operation of one kind leaves every list of the other
    kinds alone because it does not touch their fields. */
module ConnectionLists {

  class Connection {
    var next: Connection?
    var prev: Connection?
    var nextX: Connection?
    var prevX: Connection?
    var nextE: Connection?
    var prevE: Connection?
    var lastActivity: nat
    var timeout: nat
    var suspended: bool
    var resuming: bool
    var inEready: bool
    var inCleanup: bool

    constructor (timeout: nat, now: nat)
      ensures next == null && prev == null && nextX == null && prevX == null && nextE == null && prevE == null
      ensures lastActivity == now && this.timeout == timeout
      ensures !suspended && !resuming && !inEready && !inCleanup
    {
      next, prev, nextX, prevX, nextE, prevE := null, null, null, null, null, null;
      lastActivity, this.timeout := now, timeout;
      suspended, resuming, inEready, inCleanup := false, false, false, false;
    }
  }

  /** The head and the tail pointer of one list. */
  class List {
    var head: Connection?
    var tail: Connection?
    ghost var nodes: seq<Connection>

    constructor ()
      ensures head == null && tail == null && nodes == []
    {
      head, tail, nodes := null, null, [];
    }
  }

  ghost predicate Distinct(s: seq<Connection>) {
    forall i, j :: 0 <= i < j < |s| ==> s[i] != s[j]
  }

  /** What follows position i in a sequence, or null. */
  ghost function After(s: seq<Connection>, i: nat): Connection?
    requires i < |s|
  {
    if i + 1 < |s| then s[i + 1] else null
  }

  ghost function Before(s: seq<Connection>, i: nat): Connection?
    requires i < |s|
  {
    if i > 0 then s[i - 1] else null
  }

  ghost predicate Ends(l: List)
    reads l
  {
    && Distinct(l.nodes)
    && l.head == (if l.nodes == [] then null else l.nodes[0])
    && l.tail == (if l.nodes == [] then null else l.nodes[|l.nodes| - 1])
  }

  function RemoveAt(s: seq<Connection>, k: nat): (t: seq<Connection>)
    requires k < |s|
    ensures |t| == |s| - 1
    ensures forall i :: 0 <= i < |t| ==> t[i] == if i < k then s[i] else s[i + 1]
  {
    s[..k] + s[k + 1..]
  }

  function Position(s: seq<Connection>, e: Connection): (k: nat)
    requires e in s
    ensures k < |s| && s[k] == e
  {
    if s[0] == e then 0 else 1 + Position(s[1..], e)
  }

  /** The sequence without one of its elements, in the same order. */
  function Without(s: seq<Connection>, e: Connection): seq<Connection>
    requires e in s
  {
    RemoveAt(s, Position(s, e))
  }

  /** The neighbours in a sequence without position k: only those of k itself
      have changed. */
  lemma NeighboursWithout(s: seq<Connection>, k: nat)
    requires k < |s| && Distinct(s)
    ensures var t := RemoveAt(s, k);
            && Distinct(t) && s[k] !in t
            && forall i :: 0 <= i < |t| ==>
                 var j := if i < k then i else i + 1;
                 && After(t, i) == (if j + 1 == k then After(s, k) else After(s, j))
                 && Before(t, i) == (if j == k + 1 then Before(s, k) else Before(s, j))
  {
  }

  lemma WithoutMembers(s: seq<Connection>, e: Connection)
    requires e in s && Distinct(s)
    ensures Distinct(Without(s, e))
    ensures forall c :: c in Without(s, e) <==> c in s && c != e
    ensures forall i :: 0 <= i < |Without(s, e)| ==> Without(s, e)[i] in s
  {
    var k, t := Position(s, e), Without(s, e);
    NeighboursWithout(s, k);
    forall c | c in s && c != e
      ensures c in t
    {
      var j := Position(s, c);
      assert c == t[if j < k then j else j - 1];
    }
  }

  // ---- DLL: the links `next` and `prev` ----

  /** The links of the elements spell out the list. */
  ghost predicate Dll(l: List)
    reads l, l.nodes`next, l.nodes`prev
  {
    && Ends(l)
    && forall i {:trigger l.nodes[i].next} {:trigger l.nodes[i].prev} :: 0 <= i < |l.nodes| ==>
         l.nodes[i].next == After(l.nodes, i) && l.nodes[i].prev == Before(l.nodes, i)
  }

  method DllInsert(l: List, e: Connection)
    requires Dll(l) && e !in l.nodes
    modifies l, e`next, e`prev, l.nodes`prev
    ensures Dll(l) && l.nodes == [e] + old(l.nodes)
  {
    e.next := l.head;
    e.prev := null;
    if l.tail == null {
      l.tail := e;
    } else {
      l.head.prev := e;
    }
    l.head := e;
    l.nodes := [e] + l.nodes;
  }

  /** The links once the element at position k has been bypassed. */
  ghost predicate DllBypassed(s: seq<Connection>, k: nat)
    requires k < |s|
    reads s`next, s`prev
  {
    forall j {:trigger s[j].next} {:trigger s[j].prev} :: 0 <= j < |s| && j != k ==>
      && s[j].next == (if j + 1 == k then After(s, k) else After(s, j))
      && s[j].prev == (if j == k + 1 then Before(s, k) else Before(s, j))
  }

  lemma DllIsBypassed(l: List, s: seq<Connection>, k: nat)
    requires k < |s| && Distinct(s) && l.nodes == RemoveAt(s, k)
    requires DllBypassed(s, k)
    requires l.head == if k == 0 then After(s, k) else s[0]
    requires l.tail == if k + 1 == |s| then Before(s, k) else s[|s| - 1]
    ensures Dll(l)
  {
    hide Distinct;
    NeighboursWithout(s, k);
    ghost var t := RemoveAt(s, k);
    forall i | 0 <= i < |t|
      ensures t[i].next == After(t, i) && t[i].prev == Before(t, i)
    {
      var j := if i < k then i else i + 1;
      assert t[i] == s[j];
    }
  }

  method DllRemove(l: List, e: Connection)
    requires Dll(l) && e in l.nodes
    modifies l, l.nodes`next, l.nodes`prev
    ensures Dll(l) && l.nodes == Without(old(l.nodes), e)
    ensures e.next == null && e.prev == null
  {
    hide RemoveAt;
    ghost var s := l.nodes;
    ghost var k := Position(s, e);
    assert e.next != null || e == l.tail;
    assert e.prev != null || e == l.head;
    if e.prev == null {
      l.head := e.next;
    } else {
      e.prev.next := e.next;
    }
    if e.next == null {
      l.tail := e.prev;
    } else {
      e.next.prev := e.prev;
    }
    e.next := null;
    e.prev := null;
    l.nodes := RemoveAt(s, k);
    DllIsBypassed(l, s, k);
  }

  /** Following `next` from c meets exactly the elements of s, in order. */
  ghost predicate DllForward(c: Connection?, s: seq<Connection>)
    reads s`next
  {
    if s == [] then c == null else c == s[0] && DllForward(s[0].next, s[1..])
  }

  /** Following `prev` from c meets exactly the elements of s, from the last one. */
  ghost predicate DllBackward(c: Connection?, s: seq<Connection>)
    reads s`prev
  {
    if s == [] then c == null
    else c == s[|s| - 1] && DllBackward(s[|s| - 1].prev, s[..|s| - 1])
  }

  lemma {:induction false} DllForwardFrom(l: List, i: nat)
    requires Dll(l) && i <= |l.nodes|
    ensures DllForward(if i < |l.nodes| then l.nodes[i] else null, l.nodes[i..])
    decreases |l.nodes| - i
  {
    var s := l.nodes;
    if i == |s| {
    } else {
      DllForwardFrom(l, i + 1);
      assert s[i..][0] == s[i] && s[i..][1..] == s[i + 1..];
      assert s[i].next == After(s, i);
    }
  }

  lemma {:induction false} DllBackwardFrom(l: List, i: nat)
    requires Dll(l) && i <= |l.nodes|
    ensures DllBackward(if i > 0 then l.nodes[i - 1] else null, l.nodes[..i])
  {
    var s := l.nodes;
    if i == 0 {
    } else {
      DllBackwardFrom(l, i - 1);
      assert s[..i][i - 1] == s[i - 1] && s[..i][..i - 1] == s[..i - 1];
      assert s[i - 1].prev == Before(s, i - 1);
    }
  }

  /** Walking the list from either end meets the same elements, in opposite order. */
  lemma DllTraversalsAgree(l: List)
    requires Dll(l)
    ensures DllForward(l.head, l.nodes) && DllBackward(l.tail, l.nodes)
    ensures l.head == null <==> l.tail == null
  {
    DllForwardFrom(l, 0);
    DllBackwardFrom(l, |l.nodes|);
    assert l.nodes[0..] == l.nodes && l.nodes[..|l.nodes|] == l.nodes;
  }

  // ---- XDLL: the links `nextX` and `prevX` ----

  /** The links of the elements spell out the list. */
  ghost predicate Xdll(l: List)
    reads l, l.nodes`nextX, l.nodes`prevX
  {
    && Ends(l)
    && forall i {:trigger l.nodes[i].nextX} {:trigger l.nodes[i].prevX} :: 0 <= i < |l.nodes| ==>
         l.nodes[i].nextX == After(l.nodes, i) && l.nodes[i].prevX == Before(l.nodes, i)
  }

  method XdllInsert(l: List, e: Connection)
    requires Xdll(l) && e !in l.nodes
    modifies l, e`nextX, e`prevX, l.nodes`prevX
    ensures Xdll(l) && l.nodes == [e] + old(l.nodes)
  {
    e.nextX := l.head;
    e.prevX := null;
    if l.tail == null {
      l.tail := e;
    } else {
      l.head.prevX := e;
    }
    l.head := e;
    l.nodes := [e] + l.nodes;
  }

  /** The links once the element at position k has been bypassed. */
  ghost predicate XdllBypassed(s: seq<Connection>, k: nat)
    requires k < |s|
    reads s`nextX, s`prevX
  {
    forall j {:trigger s[j].nextX} {:trigger s[j].prevX} :: 0 <= j < |s| && j != k ==>
      && s[j].nextX == (if j + 1 == k then After(s, k) else After(s, j))
      && s[j].prevX == (if j == k + 1 then Before(s, k) else Before(s, j))
  }

  lemma XdllIsBypassed(l: List, s: seq<Connection>, k: nat)
    requires k < |s| && Distinct(s) && l.nodes == RemoveAt(s, k)
    requires XdllBypassed(s, k)
    requires l.head == if k == 0 then After(s, k) else s[0]
    requires l.tail == if k + 1 == |s| then Before(s, k) else s[|s| - 1]
    ensures Xdll(l)
  {
    hide Distinct;
    NeighboursWithout(s, k);
    ghost var t := RemoveAt(s, k);
    forall i | 0 <= i < |t|
      ensures t[i].nextX == After(t, i) && t[i].prevX == Before(t, i)
    {
      var j := if i < k then i else i + 1;
      assert t[i] == s[j];
    }
  }

  method XdllRemove(l: List, e: Connection)
    requires Xdll(l) && e in l.nodes
    modifies l, l.nodes`nextX, l.nodes`prevX
    ensures Xdll(l) && l.nodes == Without(old(l.nodes), e)
    ensures e.nextX == null && e.prevX == null
  {
    hide RemoveAt;
    ghost var s := l.nodes;
    ghost var k := Position(s, e);
    assert e.nextX != null || e == l.tail;
    assert e.prevX != null || e == l.head;
    if e.prevX == null {
      l.head := e.nextX;
    } else {
      e.prevX.nextX := e.nextX;
    }
    if e.nextX == null {
      l.tail := e.prevX;
    } else {
      e.nextX.prevX := e.prevX;
    }
    e.nextX := null;
    e.prevX := null;
    l.nodes := RemoveAt(s, k);
    XdllIsBypassed(l, s, k);
  }

  /** Following `nextX` from c meets exactly the elements of s, in order. */
  ghost predicate XdllForward(c: Connection?, s: seq<Connection>)
    reads s`nextX
  {
    if s == [] then c == null else c == s[0] && XdllForward(s[0].nextX, s[1..])
  }

  /** Following `prevX` from c meets exactly the elements of s, from the last one. */
  ghost predicate XdllBackward(c: Connection?, s: seq<Connection>)
    reads s`prevX
  {
    if s == [] then c == null
    else c == s[|s| - 1] && XdllBackward(s[|s| - 1].prevX, s[..|s| - 1])
  }

  lemma {:induction false} XdllForwardFrom(l: List, i: nat)
    requires Xdll(l) && i <= |l.nodes|
    ensures XdllForward(if i < |l.nodes| then l.nodes[i] else null, l.nodes[i..])
    decreases |l.nodes| - i
  {
    var s := l.nodes;
    if i == |s| {
    } else {
      XdllForwardFrom(l, i + 1);
      assert s[i..][0] == s[i] && s[i..][1..] == s[i + 1..];
      assert s[i].nextX == After(s, i);
    }
  }

  lemma {:induction false} XdllBackwardFrom(l: List, i: nat)
    requires Xdll(l) && i <= |l.nodes|
    ensures XdllBackward(if i > 0 then l.nodes[i - 1] else null, l.nodes[..i])
  {
    var s := l.nodes;
    if i == 0 {
    } else {
      XdllBackwardFrom(l, i - 1);
      assert s[..i][i - 1] == s[i - 1] && s[..i][..i - 1] == s[..i - 1];
      assert s[i - 1].prevX == Before(s, i - 1);
    }
  }

  /** Walking the list from either end meets the same elements, in opposite order. */
  lemma XdllTraversalsAgree(l: List)
    requires Xdll(l)
    ensures XdllForward(l.head, l.nodes) && XdllBackward(l.tail, l.nodes)
    ensures l.head == null <==> l.tail == null
  {
    XdllForwardFrom(l, 0);
    XdllBackwardFrom(l, |l.nodes|);
    assert l.nodes[0..] == l.nodes && l.nodes[..|l.nodes|] == l.nodes;
  }

  // ---- EDLL: the links `nextE` and `prevE` ----

  /** The links of the elements spell out the list. */
  ghost predicate Edll(l: List)
    reads l, l.nodes`nextE, l.nodes`prevE
  {
    && Ends(l)
    && forall i {:trigger l.nodes[i].nextE} {:trigger l.nodes[i].prevE} :: 0 <= i < |l.nodes| ==>
         l.nodes[i].nextE == After(l.nodes, i) && l.nodes[i].prevE == Before(l.nodes, i)
  }

  method EdllInsert(l: List, e: Connection)
    requires Edll(l) && e !in l.nodes
    modifies l, e`nextE, e`prevE, l.nodes`prevE
    ensures Edll(l) && l.nodes == [e] + old(l.nodes)
  {
    e.nextE := l.head;
    e.prevE := null;
    if l.tail == null {
      l.tail := e;
    } else {
      l.head.prevE := e;
    }
    l.head := e;
    l.nodes := [e] + l.nodes;
  }

  /** The links once the element at position k has been bypassed. */
  ghost predicate EdllBypassed(s: seq<Connection>, k: nat)
    requires k < |s|
    reads s`nextE, s`prevE
  {
    forall j {:trigger s[j].nextE} {:trigger s[j].prevE} :: 0 <= j < |s| && j != k ==>
      && s[j].nextE == (if j + 1 == k then After(s, k) else After(s, j))
      && s[j].prevE == (if j == k + 1 then Before(s, k) else Before(s, j))
  }

  lemma EdllIsBypassed(l: List, s: seq<Connection>, k: nat)
    requires k < |s| && Distinct(s) && l.nodes == RemoveAt(s, k)
    requires EdllBypassed(s, k)
    requires l.head == if k == 0 then After(s, k) else s[0]
    requires l.tail == if k + 1 == |s| then Before(s, k) else s[|s| - 1]
    ensures Edll(l)
  {
    hide Distinct;
    NeighboursWithout(s, k);
    ghost var t := RemoveAt(s, k);
    forall i | 0 <= i < |t|
      ensures t[i].nextE == After(t, i) && t[i].prevE == Before(t, i)
    {
      var j := if i < k then i else i + 1;
      assert t[i] == s[j];
    }
  }

  method EdllRemove(l: List, e: Connection)
    requires Edll(l) && e in l.nodes
    modifies l, l.nodes`nextE, l.nodes`prevE
    ensures Edll(l) && l.nodes == Without(old(l.nodes), e)
    ensures e.nextE == null && e.prevE == null
  {
    hide RemoveAt;
    ghost var s := l.nodes;
    ghost var k := Position(s, e);
    if e.prevE == null {
      l.head := e.nextE;
    } else {
      e.prevE.nextE := e.nextE;
    }
    if e.nextE == null {
      l.tail := e.prevE;
    } else {
      e.nextE.prevE := e.prevE;
    }
    e.nextE := null;
    e.prevE := null;
    l.nodes := RemoveAt(s, k);
    EdllIsBypassed(l, s, k);
  }

  /** Following `nextE` from c meets exactly the elements of s, in order. */
  ghost predicate EdllForward(c: Connection?, s: seq<Connection>)
    reads s`nextE
  {
    if s == [] then c == null else c == s[0] && EdllForward(s[0].nextE, s[1..])
  }

  /** Following `prevE` from c meets exactly the elements of s, from the last one. */
  ghost predicate EdllBackward(c: Connection?, s: seq<Connection>)
    reads s`prevE
  {
    if s == [] then c == null
    else c == s[|s| - 1] && EdllBackward(s[|s| - 1].prevE, s[..|s| - 1])
  }

  lemma {:induction false} EdllForwardFrom(l: List, i: nat)
    requires Edll(l) && i <= |l.nodes|
    ensures EdllForward(if i < |l.nodes| then l.nodes[i] else null, l.nodes[i..])
    decreases |l.nodes| - i
  {
    var s := l.nodes;
    if i == |s| {
    } else {
      EdllForwardFrom(l, i + 1);
      assert s[i..][0] == s[i] && s[i..][1..] == s[i + 1..];
      assert s[i].nextE == After(s, i);
    }
  }

  lemma {:induction false} EdllBackwardFrom(l: List, i: nat)
    requires Edll(l) && i <= |l.nodes|
    ensures EdllBackward(if i > 0 then l.nodes[i - 1] else null, l.nodes[..i])
  {
    var s := l.nodes;
    if i == 0 {
    } else {
      EdllBackwardFrom(l, i - 1);
      assert s[..i][i - 1] == s[i - 1] && s[..i][..i - 1] == s[..i - 1];
      assert s[i - 1].prevE == Before(s, i - 1);
    }
  }

  /** Walking the list from either end meets the same elements, in opposite order. */
  lemma EdllTraversalsAgree(l: List)
    requires Edll(l)
    ensures EdllForward(l.head, l.nodes) && EdllBackward(l.tail, l.nodes)
    ensures l.head == null <==> l.tail == null
  {
    EdllForwardFrom(l, 0);
    EdllBackwardFrom(l, |l.nodes|);
    assert l.nodes[0..] == l.nodes && l.nodes[..|l.nodes|] == l.nodes;
  }

  /** A connection that is on a list of each kind moves to the head of its timeout
      list; the other two lists do not change. */
  method MoveToHead(x: List, c: Connection, l: List, r: List)
    requires Xdll(x) && Dll(l) && Edll(r) && x != l && x != r
    requires c in x.nodes && c in l.nodes && c in r.nodes
    modifies x, x.nodes`nextX, x.nodes`prevX
    ensures Xdll(x) && x.nodes == [c] + Without(old(x.nodes), c)
    ensures Dll(l) && Edll(r) && l.nodes == old(l.nodes) && r.nodes == old(r.nodes)
  {
    hide Dll, Edll, Without;
    WithoutMembers(x.nodes, c);
    XdllRemove(x, c);
    XdllInsert(x, c);
  }
}
