/** What the equipment manager of equipmentMgr.c promises its HTTP handlers, over every
    interleaving of the handlers with the manager's thread.

    The handlers and the manager meet in a queue guarded by a mutex; what happens while
    the mutex is held is one step.  The manager takes a request in one step and serves it
    in a later one, during which handlers may add more. */
module TerminalService {
  import opened CStrings

  /** The id that stands for all terminals. */
  const ALL: int := -1

  /** A C string without its terminator. */
  type Text = s: string | NUL !in s witness ""

  datatype Request = Request(kind: Text, json: Text, termId: int)

  // ---- the texts ----

  /** `%d` of a number that is not negative. */
  function Decimal(n: nat): (s: Text)
    ensures |s| > 0
  {
    (if n < 10 then "" else Decimal(n / 10)) + [(48 + n % 10) as char]
  }

  function Number(s: string): nat {
    if s == "" then 0
    else
      var c := s[|s| - 1] as int;
      10 * Number(s[..|s| - 1]) + if 48 <= c < 58 then c - 48 else 0
  }

  /** An id is read back from its decimal digits. */
  lemma {:induction false} DecimalReadsBack(n: nat)
    ensures Number(Decimal(n)) == n
  {
    var s := Decimal(n);
    assert s[..|s| - 1] == (if n < 10 then "" else Decimal(n / 10));
    assert s[|s| - 1] as int == 48 + n % 10;
    if n >= 10 {
      DecimalReadsBack(n / 10);
    }
  }

  lemma {:induction false} DecimalHasNoLeadingZero(n: nat)
    ensures n > 0 ==> Decimal(n)[0] != '0'
    ensures forall i :: 0 <= i < |Decimal(n)| ==> '0' <= Decimal(n)[i] <= '9'
  {
    if n < 10 {
      assert Decimal(n) == [(48 + n) as char];
    } else {
      DecimalHasNoLeadingZero(n / 10);
      assert Decimal(n)[0] == Decimal(n / 10)[0];
    }
  }

  function Wrapped(text: Text): Text {
    "{ \"Response\": { " + text + " } }"
  }

  function NewId(id: nat): Text {
    "\"terminalID\": " + Decimal(id)
  }

  function Entry(id: nat, body: Text): Text {
    "\"terminalID\": " + Decimal(id) + ", \"transactions\": [ " + body + " ]"
  }

  /** The entries of the terminals with the ids from `id` on, separated by commas. */
  function Entries(bodies: seq<Text>, id: nat): Text {
    if |bodies| == 0 then ""
    else if |bodies| == 1 then Entry(id, bodies[0])
    else Entry(id, bodies[0]) + ", " + Entries(bodies[1..], id + 1)
  }

  /** The list of all terminals starts with two more spaces than other answers: those
      of the frame that the entries are written into. */
  function Listing(bodies: seq<Text>): Text {
    "{ \"Response\": {   " + Entries(bodies, 1) + " } }"
  }

  const NO_SUCH_TERMINAL: Text := "{ \"error\": { No such terminal in DB } }"

  // ---- what the texts say ----

  /** The part of a text between two positions counted from its ends. */
  lemma Between(before: string, inside: string, after: string)
    ensures var t := before + inside + after; t[|before|..|t| - |after|] == inside
  {
  }

  lemma {:induction false} DigitsEnd(m: nat, n: nat, s: string, t: string)
    requires s != "" && t != "" && !('0' <= s[0] <= '9') && !('0' <= t[0] <= '9')
    requires Decimal(m) + s == Decimal(n) + t
    ensures m == n && s == t
  {
    hide Decimal;
    var a, b := Decimal(m), Decimal(n);
    DecimalHasNoLeadingZero(m);
    DecimalHasNoLeadingZero(n);
    var u := a + s;
    assert u[..|a|] == a && u[|a|..] == s;
    assert u[..|b|] == b && u[|b|..] == t;
    assert u[|a|] == s[0] && u[|b|] == t[0];
    DecimalReadsBack(m);
    DecimalReadsBack(n);
  }

  /** An entry reports its id and its body: equal entries have equal ones. */
  lemma EntryDetermines(i: nat, b: Text, j: nat, c: Text)
    requires Entry(i, b) == Entry(j, c)
    ensures i == j && b == c
  {
    hide Decimal;
    var key, mid := "\"terminalID\": ", ", \"transactions\": [ ";
    var s, t := mid + b + " ]", mid + c + " ]";
    assert Entry(i, b) == key + (Decimal(i) + s) && Entry(j, c) == key + (Decimal(j) + t);
    assert Entry(i, b)[|key|..] == Decimal(i) + s && Entry(j, c)[|key|..] == Decimal(j) + t;
    DigitsEnd(i, j, s, t);
    Between(mid, b, " ]");
    Between(mid, c, " ]");
  }

  lemma WrappedDetermines(s: Text, t: Text)
    requires Wrapped(s) == Wrapped(t)
    ensures s == t
  {
    var before, after := "{ \"Response\": { ", " } }";
    assert Wrapped(s) == before + s + after && Wrapped(t) == before + t + after;
    Between(before, s, after);
    Between(before, t, after);
  }

  /** So an answer about one terminal tells which one, and its body. */
  lemma AnswerDetermines(i: nat, b: Text, j: nat, c: Text)
    requires Wrapped(Entry(i, b)) == Wrapped(Entry(j, c))
    ensures i == j && b == c
  {
    hide Entry, Wrapped;
    WrappedDetermines(Entry(i, b), Entry(j, c));
    EntryDetermines(i, b, j, c);
  }

  lemma Inserted(first: string, before: string, inside: string, after: string)
    ensures first + ", " + (before + inside + after) == (first + ", " + before) + inside + after
  {
  }

  /** Where the entry of a terminal stands in the list of those from an id on. */
  lemma {:induction false} EntriesReport(bodies: seq<Text>, id: nat, i: nat) returns (before: string, after: string)
    requires i < |bodies|
    ensures Entries(bodies, id) == before + Entry(id + i, bodies[i]) + after
    ensures i == 0 ==> before == ""
    ensures if i == |bodies| - 1 then after == "" else ", " <= after
  {
    hide Entry;
    if |bodies| == 1 {
      before, after := "", "";
    } else if i == 0 {
      before, after := "", ", " + Entries(bodies[1..], id + 1);
    } else {
      var b;
      b, after := EntriesReport(bodies[1..], id + 1, i - 1);
      before := Entry(id, bodies[0]) + ", " + b;
      Inserted(Entry(id, bodies[0]), b, Entry(id + i, bodies[i]), after);
    }
  }

  /** The listing holds the entry of every terminal, in order. */
  lemma ListingReports(store: seq<Text>, id: nat) returns (before: string, after: string)
    requires 1 <= id <= |store|
    ensures Listing(store) ==
              before + ("\"terminalID\": " + Decimal(id) + ", \"transactions\": [ " + store[id - 1] + " ]") + after
    ensures id == 1 ==> before == "{ \"Response\": {   "
    ensures if id == |store| then after == " } }" else ", " <= after
  {
    var b, a := EntriesReport(store, 1, id - 1);
    EntryText(id, store[id - 1]);
    before, after := ListingAround(store, Entry(id, store[id - 1]), b, a);
  }

  lemma EntryText(id: nat, body: Text)
    ensures Entry(id, body) == "\"terminalID\": " + Decimal(id) + ", \"transactions\": [ " + body + " ]"
  {
    hide Decimal;
  }

  lemma ListingAround(store: seq<Text>, entry: string, b: string, a: string) returns (before: string, after: string)
    requires Entries(store, 1) == b + entry + a
    ensures Listing(store) == before + entry + after
    ensures b == "" ==> before == "{ \"Response\": {   "
    ensures if a == "" then after == " } }" else a <= after
  {
    hide Entries;
    before, after := "{ \"Response\": {   " + b, a + " } }";
    Framed("{ \"Response\": {   ", b, entry, a, " } }");
  }

  lemma Framed(open: string, b: string, entry: string, a: string, close: string)
    ensures open + (b + entry + a) + close == (open + b) + entry + (a + close)
  {
  }

  /** A body in which no list ends can be told from what follows it. */
  lemma BodyEnds(b: string, c: string, s: string, t: string)
    requires ']' !in b && ']' !in c && b + (" ]" + s) == c + (" ]" + t)
    ensures b == c && s == t
  {
    var u, v := b + (" ]" + s), c + (" ]" + t);
    assert u[|b|] == ' ' && u[|b| + 1] == ']' && v[|c|] == ' ' && v[|c| + 1] == ']';
    assert (forall k :: 0 <= k < |b| ==> u[k] == b[k]) && (forall k :: 0 <= k < |c| ==> v[k] == c[k]);
    assert u[|b| + 2..] == s && v[|c| + 2..] == t;
    assert u[..|b|] == b && v[..|c|] == c;
  }

  ghost predicate NoListEnds(bodies: seq<Text>) {
    forall i :: 0 <= i < |bodies| ==> ']' !in bodies[i]
  }

  /** The text of the first entry and of what follows it. */
  lemma EntriesStep(bodies: seq<Text>, id: nat)
    requires bodies != []
    ensures Entries(bodies, id) ==
              ("\"terminalID\": " + Decimal(id) + ", \"transactions\": [ ") +
              (bodies[0] + (" ]" + if |bodies| == 1 then "" else ", " + Entries(bodies[1..], id + 1)))
  {
    hide Decimal;
  }

  lemma {:induction false} EntriesDetermine(a: seq<Text>, b: seq<Text>, id: nat)
    requires NoListEnds(a) && NoListEnds(b) && Entries(a, id) == Entries(b, id)
    ensures a == b
    decreases |a|
  {
    hide Entries, Decimal;
    if a == [] || b == [] {
      EntriesAreText(a, id);
      EntriesAreText(b, id);
    } else {
      var head := "\"terminalID\": " + Decimal(id) + ", \"transactions\": [ ";
      var s := if |a| == 1 then "" else ", " + Entries(a[1..], id + 1);
      var t := if |b| == 1 then "" else ", " + Entries(b[1..], id + 1);
      EntriesStep(a, id);
      EntriesStep(b, id);
      assert Entries(a, id)[|head|..] == a[0] + (" ]" + s) && Entries(b, id)[|head|..] == b[0] + (" ]" + t);
      BodyEnds(a[0], b[0], s, t);
      assert a == [a[0]] + a[1..] && b == [b[0]] + b[1..];
      if |a| > 1 {
        assert Entries(a[1..], id + 1) == s[2..] == t[2..] == Entries(b[1..], id + 1);
        EntriesDetermine(a[1..], b[1..], id + 1);
      }
    }
  }

  lemma EntriesAreText(bodies: seq<Text>, id: nat)
    ensures Entries(bodies, id) == "" <==> bodies == []
  {
    hide Decimal;
    if bodies != [] {
      EntriesStep(bodies, id);
    }
  }

  /** A listing tells the whole store, if no body has a ']'. */
  lemma ListingDetermines(a: seq<Text>, b: seq<Text>)
    requires NoListEnds(a) && NoListEnds(b) && Listing(a) == Listing(b)
    ensures a == b
  {
    hide Entries;
    var before, after := "{ \"Response\": {   ", " } }";
    assert Listing(a) == before + Entries(a, 1) + after && Listing(b) == before + Entries(b, 1) + after;
    Between(before, Entries(a, 1), after);
    Between(before, Entries(b, 1), after);
    EntriesDetermine(a, b, 1);
  }

  // ---- one request ----

  /** The store holds the bodies of the POST requests; the id of a terminal is its
      position, counted from one. */
  function Answer(store: seq<Text>, r: Request): Text {
    if r.kind == "GET" then
      if r.termId == ALL then (if store == [] then NO_SUCH_TERMINAL else Listing(store))
      else if 1 <= r.termId <= |store| then Wrapped(Entry(r.termId, store[r.termId - 1]))
      else NO_SUCH_TERMINAL
    else if r.kind == "POST" then Wrapped(NewId(|store| + 1))
    else r.json
  }

  function Stored(store: seq<Text>, r: Request): seq<Text> {
    if r.kind == "POST" then store + [r.json] else store
  }

  /** The store after requests served one by one from an empty one. */
  function StoreAfter(rs: seq<Request>): (store: seq<Text>)
    ensures |store| <= |rs|
  {
    if rs == [] then [] else Stored(StoreAfter(rs[..|rs| - 1]), rs[|rs| - 1])
  }

  // ---- the threads ----

  datatype State = State(
    enqueued: seq<Request>,
    queue: seq<Request>,
    held: Option<Request>,
    store: seq<Text>,
    served: seq<(Request, Text)>)

  const INIT: State := State([], [], None, [], [])

  datatype Step = Enqueue(r: Request) | Take | Serve

  predicate Enabled(s: State, step: Step) {
    match step
    case Enqueue(_) => true
    case Take => s.held.None?
    case Serve => s.held.Some?
  }

  /** Taking from an empty queue leaves everything as it is. */
  function Next(s: State, step: Step): State
    requires Enabled(s, step)
  {
    match step
    case Enqueue(r) => s.(enqueued := s.enqueued + [r], queue := s.queue + [r])
    case Take => if s.queue == [] then s else s.(held := Some(s.queue[0]), queue := s.queue[1..])
    case Serve =>
      var r := s.held.value;
      s.(held := None, store := Stored(s.store, r), served := s.served + [(r, Answer(s.store, r))])
  }

  /** The states that an interleaving goes through. */
  predicate IsRun(states: seq<State>, steps: seq<Step>) {
    && |states| == |steps| + 1 && states[0] == INIT
    && forall i :: 0 <= i < |steps| ==> Enabled(states[i], steps[i]) && states[i + 1] == Next(states[i], steps[i])
  }

  function Held(s: State): seq<Request> {
    if s.held.Some? then [s.held.value] else []
  }

  /** Everything enqueued is served, held or queued, in this order, and each answer is
      the one of a service that handles the requests one by one as they were enqueued. */
  ghost predicate InOrder(s: State) {
    && |s.served| <= |s.enqueued|
    && (forall i :: 0 <= i < |s.served| ==>
          s.served[i] == (s.enqueued[i], Answer(StoreAfter(s.enqueued[..i]), s.enqueued[i])))
    && s.enqueued[|s.served|..] == Held(s) + s.queue
    && s.store == StoreAfter(s.enqueued[..|s.served|])
  }

  lemma EnqueueKeepsOrder(s: State, r: Request)
    requires InOrder(s)
    ensures InOrder(Next(s, Enqueue(r)))
  {
    hide StoreAfter, Answer;
    var n, e := |s.served|, s.enqueued + [r];
    assert e[n..] == s.enqueued[n..] + [r];
    assert e[..n] == s.enqueued[..n];
    assert forall i :: 0 <= i < n ==> e[..i] == s.enqueued[..i];
  }

  lemma TakeKeepsOrder(s: State)
    requires InOrder(s) && s.held.None?
    ensures InOrder(Next(s, Take))
  {
    hide StoreAfter, Answer;
    if s.queue != [] {
      assert s.queue == [s.queue[0]] + s.queue[1..];
    }
  }

  lemma StoreAfterOne(rs: seq<Request>, n: nat)
    requires n < |rs|
    ensures StoreAfter(rs[..n + 1]) == Stored(StoreAfter(rs[..n]), rs[n])
  {
    assert rs[..n + 1][..n] == rs[..n];
  }

  lemma ServeKeepsOrder(s: State)
    requires InOrder(s) && s.held.Some?
    ensures InOrder(Next(s, Serve))
  {
    hide Answer, Stored, StoreAfter;
    var n, e := |s.served|, s.enqueued;
    assert e[n] == e[n..][0] == s.held.value;
    assert e[n + 1..] == e[n..][1..] == s.queue;
    StoreAfterOne(e, n);
  }

  /** In every state of every interleaving. */
  lemma {:induction false} EveryRunIsInOrder(states: seq<State>, steps: seq<Step>, k: nat)
    requires IsRun(states, steps) && k < |states|
    ensures InOrder(states[k])
  {
    if k == 0 {
    } else {
      var s := states[k - 1];
      EveryRunIsInOrder(states, steps, k - 1);
      match steps[k - 1]
      case Enqueue(r) => EnqueueKeepsOrder(s, r);
      case Take => TakeKeepsOrder(s);
      case Serve => ServeKeepsOrder(s);
    }
  }

  function Served(s: State): seq<Request> {
    seq(|s.served|, i requires 0 <= i < |s.served| => s.served[i].0)
  }

  /** Nothing is lost, repeated or overtaken: what was enqueued is what was served, what
      the manager holds and what is queued. */
  lemma NothingIsLost(states: seq<State>, steps: seq<Step>, k: nat)
    requires IsRun(states, steps) && k < |states|
    ensures states[k].enqueued == Served(states[k]) + Held(states[k]) + states[k].queue
  {
    var s := states[k];
    EveryRunIsInOrder(states, steps, k);
    assert s.enqueued == s.enqueued[..|s.served|] + s.enqueued[|s.served|..];
    assert s.enqueued[..|s.served|] == Served(s);
  }

  // ---- what a client sees ----

  lemma {:induction false} StoreGrows(rs: seq<Request>, j: nat, i: nat)
    requires j <= i <= |rs|
    ensures StoreAfter(rs[..j]) <= StoreAfter(rs[..i])
  {
    if j < i {
      StoreGrows(rs, j, i - 1);
      assert rs[..i][..i - 1] == rs[..i - 1];
    }
  }

  /** A GET served after the POST whose answer gave the client an id reports the body of
      that POST, whatever was enqueued in between. */
  lemma GetReportsPost(states: seq<State>, steps: seq<Step>, k: nat, j: nat, i: nat, id: nat)
    requires IsRun(states, steps) && k < |states| && j < i < |states[k].served|
    requires var (post, answer) := states[k].served[j];
             post.kind == "POST" && answer == Wrapped(NewId(id))
    requires var (get, _) := states[k].served[i];
             get.kind == "GET" && get.termId == id
    ensures states[k].served[i].1 == Wrapped(Entry(id, states[k].served[j].0.json))
    ensures states[k].served[i].1 ==
              "{ \"Response\": { \"terminalID\": " + Decimal(id) + ", \"transactions\": [ " +
              states[k].served[j].0.json + " ] } }"
  {
    hide Wrapped, Entry, NewId;
    var s := states[k];
    EveryRunIsInOrder(states, steps, k);
    var before := StoreAfter(s.enqueued[..j]);
    NewIdIsId(|before| + 1, id);
    assert s.enqueued[..j + 1][..j] == s.enqueued[..j];
    StoreGrows(s.enqueued, j + 1, i);
    assert StoreAfter(s.enqueued[..j + 1])[id - 1] == s.enqueued[j].json;
    AnswerText(id, s.enqueued[j].json);
  }

  /** The answers as a client reads them. */
  lemma AnswerText(id: nat, body: Text)
    ensures Wrapped(Entry(id, body)) ==
              "{ \"Response\": { \"terminalID\": " + Decimal(id) + ", \"transactions\": [ " + body + " ] } }"
    ensures Wrapped(NewId(id)) == "{ \"Response\": { \"terminalID\": " + Decimal(id) + " } }"
  {
    hide Decimal;
    var open, key, mid := "{ \"Response\": { ", "\"terminalID\": ", ", \"transactions\": [ ";
    EntryInFrame(open, key, Decimal(id), mid, body, " ]", " } }");
    IdInFrame(open, key, Decimal(id), " } }");
    assert open + key == "{ \"Response\": { \"terminalID\": ";
    assert " ]" + " } }" == " ] } }";
  }

  lemma EntryInFrame(open: string, key: string, id: string, mid: string, body: string, end: string, close: string)
    ensures open + (key + id + mid + body + end) + close == (open + key) + id + mid + body + (end + close)
  {
  }

  lemma IdInFrame(open: string, key: string, id: string, close: string)
    ensures open + (key + id) + close == (open + key) + id + close
  {
  }

  /** A POST to a service that has served these requests is answered with one more than
      the number of the POST requests among them. */
  lemma {:induction false} PostIsCounted(rs: seq<Request>, r: Request)
    requires r.kind == "POST"
    ensures Answer(StoreAfter(rs), r) == "{ \"Response\": { \"terminalID\": " + Decimal(Posts(rs) + 1) + " } }"
  {
    hide Decimal, Wrapped;
    StoreHasPosts(rs);
    AnswerText(Posts(rs) + 1, "");
  }

  function Posts(rs: seq<Request>): nat {
    if rs == [] then 0 else Posts(rs[1..]) + if rs[0].kind == "POST" then 1 else 0
  }

  lemma {:induction false} PostsAppend(rs: seq<Request>, r: Request)
    ensures Posts(rs + [r]) == Posts(rs) + if r.kind == "POST" then 1 else 0
  {
    if rs == [] {
      assert (rs + [r])[1..] == [];
    } else {
      assert (rs + [r])[1..] == rs[1..] + [r];
      PostsAppend(rs[1..], r);
    }
  }

  lemma {:induction false} StoreHasPosts(rs: seq<Request>)
    ensures |StoreAfter(rs)| == Posts(rs)
  {
    if rs == [] {
    } else {
      var n := |rs| - 1;
      StoreHasPosts(rs[..n]);
      assert rs == rs[..n] + [rs[n]];
      PostsAppend(rs[..n], rs[n]);
    }
  }

  /** Two answers to POST requests are different. */
  lemma NewIdIsId(m: nat, n: nat)
    requires Wrapped(NewId(m)) == Wrapped(NewId(n))
    ensures m == n
  {
    var a, b := NewId(m), NewId(n);
    assert Wrapped(a)[16..16 + |a|] == a && Wrapped(b)[16..16 + |b|] == b;
    assert a[14..] == Decimal(m) && b[14..] == Decimal(n);
    DecimalReadsBack(m);
    DecimalReadsBack(n);
  }

  /** The j-th request served was a POST, and its answer gave this id. */
  ghost predicate GotId(s: State, j: nat, id: int) {
    && j < |s.served| && id >= 0
    && s.served[j].0.kind == "POST" && s.served[j].1 == Wrapped(NewId(id))
  }

  lemma GotIdIsStored(s: State, j: nat, i: nat, id: int)
    requires InOrder(s) && j < i < |s.served| && GotId(s, j, id)
    ensures 1 <= id <= |StoreAfter(s.enqueued[..i])|
  {
    hide Wrapped, NewId;
    NewIdIsId(|StoreAfter(s.enqueued[..j])| + 1, id);
    assert s.enqueued[..j + 1][..j] == s.enqueued[..j];
    StoreGrows(s.enqueued, j + 1, i);
  }

  lemma StoredIdWasGot(s: State, i: nat, id: int) returns (j: nat)
    requires InOrder(s) && i < |s.served| && 1 <= id <= |StoreAfter(s.enqueued[..i])|
    ensures j < i && GotId(s, j, id)
  {
    hide Wrapped, NewId, StoreAfter;
    j := Poster(s.enqueued, i, id);
  }

  lemma EntryIsNoRefusal(id: nat, body: Text)
    ensures Wrapped(Entry(id, body)) != NO_SUCH_TERMINAL
  {
    assert Wrapped(Entry(id, body))[3] == 'R';
  }

  /** A GET of one terminal is refused exactly if no POST served before it was answered
      with that id. */
  lemma RefusedExactly(states: seq<State>, steps: seq<Step>, k: nat, i: nat)
    requires IsRun(states, steps) && k < |states| && i < |states[k].served|
    requires states[k].served[i].0.kind == "GET" && states[k].served[i].0.termId != ALL
    ensures states[k].served[i].1 == NO_SUCH_TERMINAL <==>
            !exists j :: 0 <= j < i && GotId(states[k], j, states[k].served[i].0.termId)
  {
    hide Wrapped, Entry, GotId, InOrder, IsRun;
    var s := states[k];
    EveryRunIsInOrder(states, steps, k);
    var id := s.served[i].0.termId;
    var store := StoreAfter(s.enqueued[..i]);
    AnswerAt(s, i);
    if 1 <= id <= |store| {
      EntryIsNoRefusal(id, store[id - 1]);
      var j := StoredIdWasGot(s, i, id);
    } else {
      forall j | 0 <= j < i
        ensures !GotId(s, j, id)
      {
        if GotId(s, j, id) {
          GotIdIsStored(s, j, i, id);
        }
      }
    }
  }

  lemma AnswerAt(s: State, i: nat)
    requires InOrder(s) && i < |s.served|
    ensures i < |s.enqueued|
    ensures s.served[i] == (s.enqueued[i], Answer(StoreAfter(s.enqueued[..i]), s.enqueued[i]))
  {
  }

  /** The request that made the terminal with a given id. */
  lemma {:induction false} Poster(rs: seq<Request>, i: nat, id: nat) returns (j: nat)
    requires i <= |rs| && 1 <= id <= |StoreAfter(rs[..i])|
    ensures j < i && rs[j].kind == "POST" && |StoreAfter(rs[..j])| + 1 == id
  {
    assert rs[..i][..i - 1] == rs[..i - 1];
    if id <= |StoreAfter(rs[..i - 1])| {
      j := Poster(rs, i - 1, id);
    } else {
      j := i - 1;
    }
  }
}
