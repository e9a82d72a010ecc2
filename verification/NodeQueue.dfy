/** Large responses waiting for a link's one outgoing resource slot. */
module NodeQueue {

  type Link = nat

  datatype Form = Page | File(name: string)

  /** A large response: the request it answers, its bytes and the wire form they go out in. */
  datatype Response = Response(request: nat, bytes: seq<int>, form: Form)

  datatype Item = Item(link: Link, response: Response)

  /** How a send ends: accepted, refused because the slot is taken, or failed for another reason. */
  datatype SendResult = Accepted | TransferInProgress | Failed

  /** The queues, and where every response that left them went. */
  datatype Node = Node(
    pending: map<Link, seq<Response>>,
    sent: multiset<Item>, failed: multiset<Item>, discarded: multiset<Item>)

  const EMPTY: Node := Node(map[], multiset{}, multiset{}, multiset{})

  function QueueOf(n: Node, link: Link): seq<Response> {
    if link in n.pending then n.pending[link] else []
  }

  function Sending(n: Node, link: Link, r: Response, result: SendResult): Node {
    match result
    case Accepted => n.(sent := n.sent + multiset{Item(link, r)})
    case TransferInProgress => n.(pending := n.pending[link := QueueOf(n, link) + [r]])
    case Failed => n.(failed := n.failed + multiset{Item(link, r)})
  }

  function Dequeued(n: Node, link: Link): Node
    requires QueueOf(n, link) != []
  {
    var q := n.pending[link][1..];
    n.(pending := if q == [] then n.pending - {link} else n.pending[link := q])
  }

  function Draining(n: Node, link: Link, result: SendResult): Node {
    if link !in n.pending then n
    else if n.pending[link] == [] then n.(pending := n.pending - {link})
    else Sending(Dequeued(n, link), link, n.pending[link][0], result)
  }

  function Items(link: Link, q: seq<Response>): multiset<Item> {
    if q == [] then multiset{} else Items(link, q[..|q| - 1]) + multiset{Item(link, q[|q| - 1])}
  }

  function Closing(n: Node, link: Link): Node {
    n.(pending := n.pending - {link}, discarded := n.discarded + Items(link, QueueOf(n, link)))
  }

  class BlogNode {
    var pending: map<Link, seq<Response>>
    ghost var sent: multiset<Item>
    ghost var failed: multiset<Item>
    ghost var discarded: multiset<Item>

    ghost function Model(): Node
      reads this
    {
      Node(pending, sent, failed, discarded)
    }

    constructor ()
      ensures Model() == EMPTY
    {
      pending := map[];
      sent, failed, discarded := multiset{}, multiset{}, multiset{};
    }

    /** `result` is what the transport answers to the send. */
    method SendLarge(link: Link, r: Response, result: SendResult)
      modifies this
      ensures Model() == Sending(old(Model()), link, r, result)
    {
      match result {
        case Accepted =>
          sent := sent + multiset{Item(link, r)};
        case TransferInProgress =>
          var queue := if link in pending then pending[link] else [];
          pending := pending[link := queue + [r]];
        case Failed =>
          failed := failed + multiset{Item(link, r)};
      }
    }

    method DrainPending(link: Link, result: SendResult)
      modifies this
      ensures Model() == Draining(old(Model()), link, result)
    {
      if link !in pending {
        return;
      }
      var queue := pending[link];
      if queue == [] {
        pending := pending - {link};
        return;
      }
      var r := queue[0];
      queue := queue[1..];
      if queue == [] {
        pending := pending - {link};
      } else {
        pending := pending[link := queue];
      }
      SendLarge(link, r, result);
    }

    method LinkClosed(link: Link)
      modifies this
      ensures Model() == Closing(old(Model()), link)
    {
      discarded := discarded + Items(link, if link in pending then pending[link] else []);
      pending := pending - {link};
    }
  }

  // ----- The node and the transport under it

  /** `busy`: links with a resource in flight. `freed`: slot-free events not yet handled. */
  datatype World = World(node: Node, busy: set<Link>, freed: multiset<Link>)

  datatype Event =
    | Request(link: Link, response: Response, result: SendResult)
    | TransferEnds(link: Link)
    | SegmentEnds(link: Link)
    | HandleFree(link: Link, result: SendResult)
    | Close(link: Link)

  /** The transport refuses a second transfer on a link exactly while one is in flight. */
  predicate Answers(w: World, link: Link, result: SendResult) {
    result.TransferInProgress? <==> link in w.busy
  }

  predicate Enabled(w: World, e: Event) {
    match e
    case Request(link, _, result) => Answers(w, link, result)
    case TransferEnds(link) => link in w.busy
    case SegmentEnds(link) => link in w.busy
    case HandleFree(link, result) => link in w.freed && Answers(w, link, result)
    case Close(_) => true
  }

  /** A send occupies the slot when it is accepted. */
  function Occupied(w: World, link: Link, result: SendResult, sends: bool): set<Link> {
    if sends && result.Accepted? then w.busy + {link} else w.busy
  }

  function Next(w: World, e: Event): World
    requires Enabled(w, e)
  {
    match e
    case Request(link, r, result) =>
      World(Sending(w.node, link, r, result), Occupied(w, link, result, true), w.freed)
    case TransferEnds(link) => w.(busy := w.busy - {link}, freed := w.freed + multiset{link})
    case SegmentEnds(link) => w.(freed := w.freed + multiset{link})
    case HandleFree(link, result) =>
      var busy := Occupied(w, link, result, QueueOf(w.node, link) != []);
      World(Draining(w.node, link, result), busy, w.freed - multiset{link})
    case Close(link) => w.(node := Closing(w.node, link), busy := w.busy - {link})
  }

  predicate CanRun(w: World, es: seq<Event>)
    decreases |es|
  {
    es == [] || (Enabled(w, es[0]) && CanRun(Next(w, es[0]), es[1..]))
  }

  function Run(w: World, es: seq<Event>): World
    requires CanRun(w, es)
    decreases |es|
  {
    if es == [] then w else Run(Next(w, es[0]), es[1..])
  }

  const START: World := World(EMPTY, {}, multiset{})

  // ----- Every response is in exactly one place

  ghost predicate NoEmptyQueue(n: Node) {
    forall link :: link in n.pending ==> n.pending[link] != []
  }

  /** How often `i` waits in a queue. */
  function Waiting(n: Node, i: Item): nat {
    multiset(QueueOf(n, i.link))[i.response]
  }

  /** How often `i` is anywhere. */
  function Accounted(n: Node, i: Item): nat {
    n.sent[i] + n.failed[i] + n.discarded[i] + Waiting(n, i)
  }

  lemma {:induction false} ItemsCount(link: Link, q: seq<Response>, i: Item)
    ensures Items(link, q)[i] == if i.link == link then multiset(q)[i.response] else 0
  {
    if q != [] {
      var n := |q| - 1;
      ItemsCount(link, q[..n], i);
      assert q == q[..n] + [q[n]];
    }
  }

  lemma SendAccounts(n: Node, link: Link, r: Response, result: SendResult, i: Item)
    requires NoEmptyQueue(n)
    ensures var m := Sending(n, link, r, result);
            NoEmptyQueue(m) && Accounted(m, i) == Accounted(n, i) + (if i == Item(link, r) then 1 else 0)
  {
    assert multiset(QueueOf(n, link) + [r]) == multiset(QueueOf(n, link)) + multiset{r};
  }

  lemma DequeueAccounts(n: Node, link: Link, i: Item)
    requires NoEmptyQueue(n) && QueueOf(n, link) != []
    ensures var m := Dequeued(n, link);
            && NoEmptyQueue(m) && QueueOf(m, link) == n.pending[link][1..]
            && Accounted(m, i) + (if i == Item(link, n.pending[link][0]) then 1 else 0) == Accounted(n, i)
  {
    var q := n.pending[link];
    assert q == [q[0]] + q[1..];
    assert multiset(q) == multiset{q[0]} + multiset(q[1..]);
  }

  lemma DrainAccounts(n: Node, link: Link, result: SendResult, i: Item)
    requires NoEmptyQueue(n)
    ensures NoEmptyQueue(Draining(n, link, result)) && Accounted(Draining(n, link, result), i) == Accounted(n, i)
  {
    if link in n.pending {
      DequeueAccounts(n, link, i);
      SendAccounts(Dequeued(n, link), link, n.pending[link][0], result, i);
    }
  }

  lemma CloseAccounts(n: Node, link: Link, i: Item)
    requires NoEmptyQueue(n)
    ensures NoEmptyQueue(Closing(n, link)) && Accounted(Closing(n, link), i) == Accounted(n, i)
  {
    ItemsCount(link, QueueOf(n, link), i);
  }

  function Requested(es: seq<Event>, i: Item): nat {
    if es == [] then 0
    else Requested(es[1..], i) + (if es[0].Request? && i == Item(es[0].link, es[0].response) then 1 else 0)
  }

  /** Over every interleaving: no queue is kept empty, and each large response, with the form it was queued
      in, is in exactly one place: sent, queued, logged as failed, or discarded by its link's close. */
  lemma {:induction false} EachResponseOnce(w: World, es: seq<Event>, i: Item)
    requires CanRun(w, es) && NoEmptyQueue(w.node)
    ensures NoEmptyQueue(Run(w, es).node)
    ensures Accounted(Run(w, es).node, i) == Accounted(w.node, i) + Requested(es, i)
    decreases |es|
  {
    hide Accounted, Sending, Draining, Closing, NoEmptyQueue;
    if es != [] {
      match es[0] {
        case Request(link, r, result) => SendAccounts(w.node, link, r, result, i);
        case HandleFree(link, result) => DrainAccounts(w.node, link, result, i);
        case Close(link) => CloseAccounts(w.node, link, i);
        case _ =>
      }
      EachResponseOnce(Next(w, es[0]), es[1..], i);
    }
  }

  // ----- Nothing waits for nothing

  /** A queue that is not empty has something coming: a transfer in flight, or a slot-free event to handle. */
  ghost predicate Served(w: World) {
    forall link :: link in w.node.pending ==> link in w.busy || link in w.freed
  }

  /** The one step that strands a queue: its last event is spent on a send that fails outright. */
  predicate Strands(w: World, e: Event) {
    e.HandleFree? && e.result.Failed? && |QueueOf(w.node, e.link)| >= 2 && w.freed[e.link] == 1
  }

  lemma ServedStep(w: World, e: Event)
    requires Enabled(w, e) && NoEmptyQueue(w.node) && Served(w)
    ensures Served(Next(w, e)) <==> !Strands(w, e)
  {
    var t := Next(w, e);
    if Strands(w, e) {
      assert e.link in t.node.pending && e.link !in t.busy && e.link !in t.freed;
    } else {
      forall link | link in t.node.pending ensures link in t.busy || link in t.freed {
        if e.HandleFree? && link == e.link {
          assert link in w.node.pending ==> t.freed[link] == w.freed[link] - 1;
        }
      }
    }
  }

  /** While sends fail only because the slot is taken, no queue is ever stranded. */
  lemma {:induction false} AlwaysServed(w: World, es: seq<Event>)
    requires CanRun(w, es) && NoEmptyQueue(w.node) && Served(w)
    requires forall k :: 0 <= k < |es| && es[k].HandleFree? ==> !es[k].result.Failed?
    ensures Served(Run(w, es))
    decreases |es|
  {
    hide Served, NoEmptyQueue, Next;
    if es != [] {
      ServedStep(w, es[0]);
      EachResponseOnce(w, [es[0]], Item(0, Response(0, [], Page)));
      assert Run(w, [es[0]]) == Next(w, es[0]);
      AlwaysServed(Next(w, es[0]), es[1..]);
    }
  }

  /** A refused response goes to the back of its queue. */
  lemma DrainOrder(n: Node, link: Link, result: SendResult)
    requires QueueOf(n, link) != []
    ensures var q := QueueOf(n, link);
            QueueOf(Draining(n, link, result), link) ==
            if result.TransferInProgress? then q[1..] + [q[0]] else q[1..]
  {
  }

  /** A reachable stall: one transfer in flight, two responses queued behind it, and the first send after
      it fails outright; the second response then waits with nothing to wake it. */
  lemma StallIsReachable(link: Link, a: Response, b: Response, c: Response)
    ensures var es := [Request(link, a, Accepted), Request(link, b, TransferInProgress),
                       Request(link, c, TransferInProgress), TransferEnds(link), HandleFree(link, Failed)];
            && CanRun(START, es)
            && Run(START, es).node.pending == map[link := [c]]
            && Run(START, es).busy == {} && Run(START, es).freed == multiset{}
  {
    var e1, e2 := Request(link, a, Accepted), Request(link, b, TransferInProgress);
    var e3, e4, e5 := Request(link, c, TransferInProgress), TransferEnds(link), HandleFree(link, Failed);
    var w1 := Next(START, e1);
    var w2 := Next(w1, e2);
    assert [] + [b] == [b] && w2.node.pending == map[link := [b]];
    var w3 := Next(w2, e3);
    assert [b] + [c] == [b, c] && w3.node.pending == map[link := [b, c]];
    var w4 := Next(w3, e4);
    assert w4.busy == {} && w4.freed == multiset{link};
    var w5 := Next(w4, e5);
    assert [b, c][1..] == [c] && w5.node.pending == map[link := [c]];
    RunStep(w4, e5, []);
    RunStep(w3, e4, [e5]);
    RunStep(w2, e3, [e4, e5]);
    RunStep(w1, e2, [e3, e4, e5]);
    RunStep(START, e1, [e2, e3, e4, e5]);
  }

  lemma RunStep(w: World, e: Event, rest: seq<Event>)
    requires Enabled(w, e) && CanRun(Next(w, e), rest)
    ensures CanRun(w, [e] + rest) && Run(w, [e] + rest) == Run(Next(w, e), rest)
  {
    assert ([e] + rest)[1..] == rest;
  }
}
