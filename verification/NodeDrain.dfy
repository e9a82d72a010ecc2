/** A link's queue empties once requests stop, and need not while they go on. */
module NodeDrain {
  import opened NodeQueue
  import opened NodeOrder

  /** What is left to do on a link: each queued response has a send, a transfer and its event before it. */
  function Work(w: World, link: Link): nat {
    3 * |QueueOf(w.node, link)| + (if link in w.busy then 2 else 0) + w.freed[link]
  }

  /** A transfer that ends, or a slot-free event that is handled. */
  predicate Works(e: Event, link: Link) {
    (e.TransferEnds? || e.HandleFree?) && e.link == link
  }

  function Segments(es: seq<Event>, link: Link): nat {
    if es == [] then 0 else (if es[0] == SegmentEnds(link) then 1 else 0) + Segments(es[1..], link)
  }

  function Steps(es: seq<Event>, link: Link): nat {
    if es == [] then 0 else (if Works(es[0], link) then 1 else 0) + Steps(es[1..], link)
  }

  predicate NoRequests(es: seq<Event>, link: Link) {
    forall i :: 0 <= i < |es| ==> !(es[i].Request? && es[i].link == link)
  }

  lemma QueueAfter(w: World, e: Event, link: Link)
    requires Enabled(w, e) && NoEmptyQueue(w.node) && !(e.Request? && e.link == link)
    ensures var (n, m) := (|QueueOf(w.node, link)|, |QueueOf(Next(w, e).node, link)|);
            && m <= n
            && (e.HandleFree? && e.link == link && n > 0 && !e.result.TransferInProgress? ==> m == n - 1)
  {
    if e.HandleFree? && e.link == link && QueueOf(w.node, link) != [] {
      DrainOrder(w.node, link, e.result);
    } else if !(e.Close? && e.link == link) {
      assert QueueOf(Next(w, e).node, link) == QueueOf(w.node, link);
    }
  }

  /** Without a new request, working on a link lowers what is left, and only a segment's event raises it. */
  lemma WorkStep(w: World, e: Event, link: Link)
    requires Enabled(w, e) && NoEmptyQueue(w.node) && !(e.Request? && e.link == link)
    ensures Work(Next(w, e), link) + (if Works(e, link) then 1 else 0) <=
            Work(w, link) + (if e == SegmentEnds(link) then 1 else 0)
  {
    hide Sending, Draining, Closing, QueueOf;
    QueueAfter(w, e, link);
  }

  /** Over every run without requests on a link, the steps that work on it are at most what was left to do and
      one for each segment. */
  lemma {:induction false} WorkIsBounded(w: World, es: seq<Event>, link: Link)
    requires CanRun(w, es) && NoEmptyQueue(w.node) && NoRequests(es, link)
    ensures Work(Run(w, es), link) + Steps(es, link) <= Work(w, link) + Segments(es, link)
    decreases |es|
  {
    hide Work, Next, NoEmptyQueue;
    if es != [] {
      WorkStep(w, es[0], link);
      EachResponseOnce(w, [es[0]], Item(0, Response(0, [], Page)));
      assert Run(w, [es[0]]) == Next(w, es[0]);
      assert forall i :: 0 <= i < |es[1..]| ==> es[1..][i] == es[i + 1];
      WorkIsBounded(Next(w, es[0]), es[1..], link);
    }
  }

  /** In every run without requests on a link and without failed drains, work on it stays possible until the
      run has nothing left to do there, and then its queue is empty. */
  lemma QueueEmpties(w: World, es: seq<Event>, link: Link)
    requires CanRun(w, es) && NoEmptyQueue(w.node) && Served(w) && NoRequests(es, link)
    requires forall k :: 0 <= k < |es| && es[k].HandleFree? ==> !es[k].result.Failed?
    ensures var t := Run(w, es);
            && Steps(es, link) <= Work(w, link) + Segments(es, link)
            && (Work(t, link) > 0 ==>
                  exists e :: Works(e, link) && Enabled(t, e) && (e.HandleFree? ==> !e.result.Failed?))
            && (Work(t, link) == 0 ==> link !in t.node.pending)
  {
    hide Run, CanRun, Next;
    WorkIsBounded(w, es, link);
    AlwaysServed(w, es);
    EachResponseOnce(w, es, Item(0, Response(0, [], Page)));
    var t := Run(w, es);
    if link in t.busy {
      assert Works(TransferEnds(link), link) && Enabled(t, TransferEnds(link));
    } else if link in t.freed {
      assert Works(HandleFree(link, Accepted), link) && Enabled(t, HandleFree(link, Accepted));
    }
  }

  // ----- While requests go on

  /** A transfer ends, a new request takes the slot, and only then is the slot-free event handled. */
  function Round(link: Link, c: Response): seq<Event> {
    [TransferEnds(link), Request(link, c, Accepted), HandleFree(link, TransferInProgress)]
  }

  function Rounds(link: Link, c: Response, n: nat): seq<Event> {
    if n == 0 then [] else Round(link, c) + Rounds(link, c, n - 1)
  }

  lemma OneRound(w: World, link: Link, b: Response, c: Response, log: seq<Response>)
    requires Busy(w, link, [b])
    ensures CanRun(w, Round(link, c)) && Busy(Run(w, Round(link, c)), link, [b])
    ensures LogOf(w, Round(link, c), link, log) == log + [c]
  {
    hide Run, CanRun, LogOf;
    var e1, e2, e3 := TransferEnds(link), Request(link, c, Accepted), HandleFree(link, TransferInProgress);
    assert Round(link, c) == [e1] + ([e2] + ([e3] + []));
    var w1 := Next(w, e1);
    var w2 := Next(w1, e2);
    assert w1.busy == {} && w1.freed == multiset{link} && w2.busy == {link};
    DrainOrder(w2.node, link, TransferInProgress);
    assert [b][1..] + [b] == [b];
    EmptyRun(Next(w2, e3), link, log + [c]);
    LogStep(w2, e3, [], link, log + [c]);
    LogStep(w1, e2, [e3] + [], link, log);
    LogStep(w, e1, [e2] + ([e3] + []), link, log);
  }

  /** However many later requests are sent, `b` may still be waiting, with every slot-free event handled. */
  lemma {:induction false} Starves(w: World, link: Link, b: Response, c: Response, n: nat, log: seq<Response>)
    requires Busy(w, link, [b])
    ensures CanRun(w, Rounds(link, c, n)) && Busy(Run(w, Rounds(link, c, n)), link, [b])
    ensures LogOf(w, Rounds(link, c, n), link, log) == log + seq(n, i => c)
    decreases n
  {
    hide Run, CanRun, LogOf, Round, Busy;
    if n == 0 {
      EmptyRun(w, link, log);
      assert log + seq(0, i => c) == log;
    } else {
      OneRound(w, link, b, c, log);
      var t := Run(w, Round(link, c));
      Starves(t, link, b, c, n - 1, log + [c]);
      RunConcat(w, Round(link, c), Rounds(link, c, n - 1), link, log);
      assert log + [c] + seq(n - 1, i => c) == log + seq(n, i => c);
    }
  }
}
