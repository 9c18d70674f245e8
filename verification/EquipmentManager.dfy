/** The equipment manager of equipmentMgr.c: the list of terminals, the queue of requests
    and the loop that serves them, proved against TerminalService.

    A `char` array of a request or of a terminal is modelled as its text; the array in
    which the listing of all terminals is assembled is modelled as an array. */
module EquipmentManager {
  import opened TerminalService
  import opened CStrings

  /** The size of the buffers. */
  const DATASIZE: nat := 1024

  class Terminal {
    var id: int
    var transactions: Text
    var next: Terminal?

    constructor (id: int, transactions: Text)
      ensures this.id == id && this.transactions == transactions && next == null
    {
      this.id, this.transactions, next := id, transactions, null;
    }
  }

  class RequestItem {
    const kind: Text
    var json: Text
    const termId: int
    var isResponseReady: bool
    var next: RequestItem?

    constructor (json: Text, kind: Text, termId: int)
      ensures Value() == Request(kind, json, termId) && !isResponseReady && next == null
    {
      this.kind, this.json, this.termId := kind, json, termId;
      isResponseReady, next := false, null;
    }

    function Value(): Request
      reads this`json
    {
      Request(kind, json, termId)
    }
  }

  // ---- writing text into a buffer ----

  /** `sprintf` of a text at a position of a buffer. */
  method Sprintf(buf: array<char>, at: nat, text: Text) returns (len: nat)
    requires at + |text| + 1 <= buf.Length
    modifies buf
    ensures len == |text| && buf[..at + len] == old(buf[..at]) + text
    ensures buf[at + len] == NUL
  {
    var i := 0;
    while i < |text|
      invariant i <= |text| && buf[..at + i] == old(buf[..at]) + text[..i]
    {
      buf[at + i] := text[i];
      i := i + 1;
    }
    assert text[..|text|] == text;
    buf[at + |text|] := NUL;
    return |text|;
  }

  /** The entries from an id on, each followed by a separator: what the loop writes. */
  function Separated(bodies: seq<Text>, id: nat): Text {
    if |bodies| == 0 then "" else Entry(id, bodies[0]) + ", " + Separated(bodies[1..], id + 1)
  }

  /** Backing up over the last separator leaves the entries joined by separators. */
  lemma {:induction false} SeparatedIsEntries(bodies: seq<Text>, id: nat)
    requires |bodies| > 0
    ensures Separated(bodies, id) == Entries(bodies, id) + ", "
  {
    hide Entry;
    if |bodies| > 1 {
      SeparatedIsEntries(bodies[1..], id + 1);
    } else {
      assert Separated(bodies[1..], id + 1) == "";
    }
  }

  lemma ListingIsFramed(store: seq<Text>)
    requires |store| > 0
    ensures |Wrapped(" ")| == 21 < |Listing(store)|
    ensures var t := Wrapped(" ")[..18] + Separated(store, 1);
            |t| == |Listing(store)| - 2 && t[..|t| - 2] + " } }" == Listing(store)
  {
    hide Entry, Entries, Separated;
    SeparatedIsEntries(store, 1);
    assert Wrapped(" ")[..18] == "{ \"Response\": {   ";
  }

  // The three kinds of requests.

  lemma AnswerToGet(store: seq<Text>, r: Request)
    ensures r.kind == "GET" ==> Answer(store, r) == Answer(store, Request("GET", "", r.termId)) && Stored(store, r) == store
  {
  }

  lemma AnswerToPost(store: seq<Text>, r: Request)
    ensures r.kind == "POST" ==> Answer(store, r) == Wrapped(NewId(|store| + 1)) && Stored(store, r) == store + [r.json]
  {
  }

  lemma AnswerToOther(store: seq<Text>, r: Request)
    ensures r.kind != "GET" && r.kind != "POST" ==> Answer(store, r) == r.json && Stored(store, r) == store
  {
  }

  /** What follows position i in a sequence, or null. */
  ghost function AfterTerminal(s: seq<Terminal>, i: nat): Terminal?
    requires i < |s|
  {
    if i + 1 < |s| then s[i + 1] else null
  }

  ghost function AfterItem(s: seq<RequestItem>, i: nat): RequestItem?
    requires i < |s|
  {
    if i + 1 < |s| then s[i + 1] else null
  }

  class Manager {
    var termList: Terminal?
    var termListTail: Terminal?
    var globalTermCtr: int
    var requestQueueList: RequestItem?
    var requestQueueTail: RequestItem?

    ghost var terminals: seq<Terminal>
    ghost var queue: seq<RequestItem>
    /** The request that the manager has taken off the queue and not yet served. */
    ghost var held: RequestItem?
    /** The state of the service that the lists implement. */
    ghost var state: State

    /** The terminals 1 to n in order, with these transactions. */
    ghost predicate Stores(store: seq<Text>)
      reads this`termList, this`termListTail, this`terminals, terminals
    {
      && |terminals| == |store|
      && termList == (if terminals == [] then null else terminals[0])
      && termListTail == (if terminals == [] then null else terminals[|terminals| - 1])
      && forall i {:trigger terminals[i].next} {:trigger terminals[i].id} {:trigger terminals[i].transactions} ::
           0 <= i < |terminals| ==>
           && terminals[i].next == AfterTerminal(terminals, i) && terminals[i].id == i + 1
           && terminals[i].transactions == store[i]
    }

    /** The queue holds these requests. */
    ghost predicate Queues(requests: seq<Request>)
      reads this`requestQueueList, this`requestQueueTail, this`queue, queue
    {
      && |queue| == |requests|
      && (forall i, j :: 0 <= i < j < |queue| ==> queue[i] != queue[j])
      && requestQueueList == (if queue == [] then null else queue[0])
      && requestQueueTail == (if queue == [] then null else queue[|queue| - 1])
      && forall i {:trigger queue[i].next} {:trigger requests[i]} :: 0 <= i < |queue| ==>
           queue[i].next == AfterItem(queue, i) && queue[i].Value() == requests[i]
    }

    ghost predicate Holds(request: Option<Request>)
      reads this`held, this`queue, held
    {
      match request
      case None => held == null
      case Some(r) => held != null && held.Value() == r && forall i :: 0 <= i < |queue| ==> queue[i] != held
    }

    ghost predicate Valid()
      reads this, terminals, queue, held
    {
      Stores(state.store) && Queues(state.queue) && Holds(state.held) && globalTermCtr == |terminals| && InOrder(state)
    }

    /** `mgrInit`. */
    constructor ()
      ensures Valid() && state == INIT
    {
      termList, termListTail, globalTermCtr := null, null, 0;
      requestQueueList, requestQueueTail := null, null;
      terminals, queue, held, state := [], [], null, INIT;
    }

    // ---- the queue ----

    method AddRequestToQueue(item: RequestItem)
      requires Valid() && item !in queue && item != held
      modifies this`requestQueueList, this`requestQueueTail, this`queue, this`state, item`next, queue`next
      ensures Valid() && queue == old(queue) + [item]
      ensures state == Next(old(state), Enqueue(item.Value()))
    {
      hide InOrder;
      EnqueueKeepsOrder(state, item.Value());
      if requestQueueTail == null {
        item.next := null;
        requestQueueList := item;
        requestQueueTail := requestQueueList;
      } else {
        item.next := null;
        requestQueueTail.next := item;
        requestQueueTail := requestQueueTail.next;
      }
      state := Next(state, Enqueue(item.Value()));
      queue := queue + [item];
    }

    /** Without a request to serve the manager finds the queue empty. */
    method CheckQueueAndGetRequest() returns (item: RequestItem?)
      requires Valid() && held == null
      modifies this`requestQueueList, this`requestQueueTail, this`queue, this`state, this`held
      ensures Valid() && state == Next(old(state), Take)
      ensures item == held && (item == null <==> old(queue) == [])
      ensures item != null ==> item == old(queue)[0] && queue == old(queue)[1..]
    {
      hide InOrder;
      item := requestQueueList;
      TakeKeepsOrder(state);
      state := Next(state, Take);
      if requestQueueList == null {
        return;
      }
      if requestQueueList == requestQueueTail {
        requestQueueTail := requestQueueList.next;
        requestQueueList := requestQueueTail;
      } else {
        requestQueueList := requestQueueList.next;
      }
      queue := queue[1..];
      held := item;
    }

    // ---- the terminals ----

    method CreateNode(transData: Text) returns (node: Terminal)
      modifies this`globalTermCtr
      ensures globalTermCtr == old(globalTermCtr) + 1
      ensures fresh(node) && node.id == globalTermCtr && node.transactions == transData
    {
      globalTermCtr := globalTermCtr + 1;
      node := new Terminal(globalTermCtr, transData);
    }

    method CreateTerminalFromJson(json: Text) returns (node: Terminal)
      modifies this`globalTermCtr
      ensures globalTermCtr == old(globalTermCtr) + 1
      ensures fresh(node) && node.id == globalTermCtr && node.transactions == json
    {
      node := CreateNode("");
      node.transactions := json;
    }

    method AddNodeToList(node: Terminal, ghost store: seq<Text>) returns (id: int)
      requires Stores(store) && node !in terminals && node.id == |terminals| + 1
      modifies this`termList, this`termListTail, this`terminals, node`next, terminals`next
      ensures Stores(store + [node.transactions]) && terminals == old(terminals) + [node]
      ensures id == |terminals|
    {
      if termListTail == null {
        node.next := null;
        termListTail := node;
        termList := termListTail;
      } else {
        node.next := null;
        termListTail.next := node;
        termListTail := node;
      }
      terminals := terminals + [node];
      return node.id;
    }

    method GetTerminalById(id: int) returns (node: Terminal?)
      requires Stores(state.store)
      ensures node == if 1 <= id <= |terminals| then terminals[id - 1] else null
    {
      ghost var i := 0;
      node := termList;
      while node != null
        invariant i <= |terminals| && node == (if i < |terminals| then terminals[i] else null)
        invariant 1 <= id <= |terminals| ==> i < id
        decreases |terminals| - i
      {
        if node.id == id {
          return;
        }
        node := node.next;
        i := i + 1;
      }
    }

    /** Stores the body of a POST; the answer tells its id. */
    method WriteToDb(json: Text) returns (answer: Text)
      requires Stores(state.store) && globalTermCtr == |terminals|
      modifies this`globalTermCtr, this`termList, this`termListTail, this`terminals, terminals`next
      ensures Stores(state.store + [json]) && globalTermCtr == |terminals|
      ensures old(terminals) <= terminals && fresh(terminals[|old(terminals)|..])
      ensures answer == Wrapped(NewId(|state.store| + 1))
    {
      hide Wrapped, NewId;
      var node := CreateTerminalFromJson(json);
      var id := AddNodeToList(node, state.store);
      answer := Wrapped(NewId(id));
    }

    /** The loop over the list of terminals, writing from `lastIndex` on. */
    method WriteEntries(respJson: array<char>, lastIndex: nat) returns (last: nat)
      requires Stores(state.store)
      requires lastIndex + |Separated(state.store, 1)| < respJson.Length
      modifies respJson
      ensures last < respJson.Length
      ensures respJson[..last] == old(respJson[..lastIndex]) + Separated(state.store, 1)
    {
      hide Entry;
      ghost var store, done := state.store, respJson[..lastIndex];
      ghost var i := 0;
      last := lastIndex;
      var runner := termList;
      assert store[0..] == store;
      while runner != null
        invariant i <= |terminals| && runner == (if i < |terminals| then terminals[i] else null)
        invariant last + |Separated(store[i..], i + 1)| < respJson.Length
        invariant respJson[..last] + Separated(store[i..], i + 1) == done + Separated(store, 1)
        decreases |terminals| - i
      {
        ghost var before := respJson[..last];
        assert store[i..][0] == runner.transactions && store[i..][1..] == store[i + 1..];
        var len := Sprintf(respJson, last, Entry(runner.id, runner.transactions));
        last := last + len;
        len := Sprintf(respJson, last, ", ");
        last := last + len;
        Associates(before, Entry(runner.id, runner.transactions) + ", ", Separated(store[i + 1..], i + 2));
        Associates(before, Entry(runner.id, runner.transactions), ", ");
        runner := runner.next;
        i := i + 1;
      }
      assert store[|terminals|..] == [];
      assert respJson[..last] + "" == respJson[..last];
    }

    /** The answer about one terminal, or about all of them: the frame is written first,
        the entries over its end, and the closing brackets over the last separator. */
    method CreateJsonFromList(terms: Terminal, termId: int, respJson: array<char>)
      requires Stores(state.store) && terms in terminals && terms.id >= 0
      requires |if termId != ALL then Wrapped(Entry(terms.id, terms.transactions)) else Listing(state.store)| < respJson.Length
      modifies respJson
      ensures StringAt(respJson[..], 0) ==
              if termId != ALL then Wrapped(Entry(terms.id, terms.transactions)) else Listing(state.store)
    {
      hide Entry, Entries, Separated, StringAt, Wrapped, Listing;
      var len: nat;
      if termId != ALL {
        var temp := Entry(terms.id, terms.transactions);
        len := Sprintf(respJson, 0, Wrapped(temp));
        BufferHolds(respJson[..], Wrapped(temp));
      } else {
        ListingIsFramed(state.store);
        ghost var t := Wrapped(" ")[..18] + Separated(state.store, 1);
        len := Sprintf(respJson, 0, Wrapped(" "));
        var lastIndex := len - 3;
        assert respJson[..len][..lastIndex] == respJson[..lastIndex];
        lastIndex := WriteEntries(respJson, lastIndex);
        assert respJson[..lastIndex][..lastIndex - 2] == respJson[..lastIndex - 2];
        assert respJson[..lastIndex] == t;
        len := Sprintf(respJson, lastIndex - 2, " } }");
        BufferHolds(respJson[..], Listing(state.store));
      }
    }

    /** Fails if there is no such terminal, or none at all. */
    method ReadFromDb(termId: int) returns (success: bool, respJson: Text, errMsg: Text)
      requires Stores(state.store)
      requires |Answer(state.store, Request("GET", "", termId))| < DATASIZE
      ensures success <==> if termId == ALL then state.store != [] else 1 <= termId <= |state.store|
      ensures (if success then respJson else errMsg) == Answer(state.store, Request("GET", "", termId))
    {
      hide Listing, Wrapped, Entry, StringAt;
      respJson, errMsg := "", "";
      var terms: Terminal?;
      if termId == ALL {
        terms := termList;
      } else {
        terms := GetTerminalById(termId);
      }
      if terms == null {
        return false, respJson, NO_SUCH_TERMINAL;
      }
      var buf := new char[DATASIZE];
      CreateJsonFromList(terms, termId, buf);
      return true, StringAt(buf[..], 0), errMsg;
    }

    // ---- the manager's thread ----

    /** Serves the request that was taken: outside the mutex, while handlers may enqueue. */
    method HandleRequest(newRequest: RequestItem)
      requires Valid() && newRequest == held
      requires |Answer(state.store, newRequest.Value())| < DATASIZE
      modifies this, newRequest`json, newRequest`isResponseReady, terminals`next
      ensures Valid() && held == null && queue == old(queue)
      ensures state == Next(old(state), Serve)
      ensures newRequest.isResponseReady && newRequest.json == Answer(old(state.store), old(newRequest.Value()))
    {
      hide InOrder, Answer, Stored, Stores, Queues;
      ServeKeepsOrder(state);
      AnswerToGet(state.store, newRequest.Value());
      AnswerToPost(state.store, newRequest.Value());
      AnswerToOther(state.store, newRequest.Value());
      if newRequest.kind == "GET" {
        var success, respJson, errMsg := ReadFromDb(newRequest.termId);
        newRequest.json := if success then respJson else errMsg;
      } else if newRequest.kind == "POST" {
        var response := WriteToDb(newRequest.json);
        newRequest.json := response;
      }
      newRequest.isResponseReady := true;
      held := null;
      state := Next(state, Serve);
    }

    /** One round of the manager's loop, when no handler comes in between. */
    method MgrRound()
      requires Valid() && held == null
      requires queue != [] ==> |Answer(state.store, state.queue[0])| < DATASIZE
      modifies this, queue`json, queue`isResponseReady, terminals`next
      ensures Valid() && held == null && queue == old(if queue == [] then [] else queue[1..])
      ensures state == if old(queue) == [] then old(state) else Next(Next(old(state), Take), Serve)
      ensures old(queue) != [] ==>
                var item := old(queue)[0];
                item.isResponseReady && item.json == Answer(old(state.store), old(state.queue[0]))
    {
      hide InOrder, Answer, Stored, Stores;
      var newRequest := CheckQueueAndGetRequest();
      if newRequest != null {
        HandleRequest(newRequest);
      }
    }
  }
}
