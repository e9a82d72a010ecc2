/** The order in which a link's large responses leave, and that they leave at all. */
module NodeOrder {
  import opened NodeQueue

  // ----- When order is kept

  /** The responses `link` has sent, in order, once `e` has happened. */
  function LogAfter(w: World, e: Event, link: Link, log: seq<Response>): seq<Response> {
    match e
    case Request(l, r, Accepted) => if l == link then log + [r] else log
    case HandleFree(l, Accepted) =>
      if l == link && QueueOf(w.node, l) != [] then log + [QueueOf(w.node, l)[0]] else log
    case _ => log
  }

  function LogOf(w: World, es: seq<Event>, link: Link, log: seq<Response>): seq<Response>
    requires CanRun(w, es)
    decreases |es|
  {
    if es == [] then log else LogOf(Next(w, es[0]), es[1..], link, LogAfter(w, es[0], link, log))
  }

  /** Over every run the log holds exactly what the node counts as sent on the link. */
  lemma {:induction false} LogIsSent(w: World, es: seq<Event>, link: Link, log: seq<Response>, r: Response)
    requires CanRun(w, es) && w.node.sent[Item(link, r)] == multiset(log)[r]
    ensures Run(w, es).node.sent[Item(link, r)] == multiset(LogOf(w, es, link, log))[r]
    decreases |es|
  {
    hide Next, LogAfter;
    if es != [] {
      SentStep(w, es[0], link, log, r);
      LogIsSent(Next(w, es[0]), es[1..], link, LogAfter(w, es[0], link, log), r);
    }
  }

  lemma SentStep(w: World, e: Event, link: Link, log: seq<Response>, r: Response)
    requires Enabled(w, e) && w.node.sent[Item(link, r)] == multiset(log)[r]
    ensures Next(w, e).node.sent[Item(link, r)] == multiset(LogAfter(w, e, link, log))[r]
  {
    if e.Request? || e.HandleFree? {
      var q := QueueOf(w.node, e.link);
      var x := if e.Request? then e.response else if q != [] then q[0] else r;
      assert multiset(log + [x]) == multiset(log) + multiset{x};
    }
  }

  /** `request` numbers a link's requests in the order they arrive. */
  predicate Increasing(s: seq<Response>) {
    forall i, j :: 0 <= i < j < |s| ==> s[i].request < s[j].request
  }

  predicate AllBelow(s: seq<Response>, floor: nat) {
    forall x :: x in s ==> x.request < floor
  }

  /** What was sent and what is still queued are, together, in the order of arrival. */
  predicate InOrder(w: World, link: Link, log: seq<Response>) {
    Increasing(log + QueueOf(w.node, link))
  }

  predicate Numbered(w: World, link: Link, log: seq<Response>, floor: nat) {
    AllBelow(log + QueueOf(w.node, link), floor)
  }

  /** A request that finds the slot free, before the event that freed it is handled, goes before the queue. */
  predicate Overtakes(w: World, e: Event, link: Link) {
    e.Request? && e.link == link && e.result.Accepted? && QueueOf(w.node, link) != []
  }

  /** A drain that is refused sends the front of the queue to its back. */
  predicate Rotates(w: World, e: Event, link: Link) {
    e.HandleFree? && e.link == link && e.result.TransferInProgress? && |QueueOf(w.node, link)| >= 2
  }

  lemma IncreasingSnoc(s: seq<Response>, r: Response)
    requires Increasing(s) && AllBelow(s, r.request)
    ensures Increasing(s + [r])
  {
    assert forall i :: 0 <= i < |s| ==> s[i] in s;
  }

  lemma IncreasingWithout(log: seq<Response>, q: seq<Response>)
    requires Increasing(log + q) && q != []
    ensures Increasing(log + q[1..])
  {
    var s, t := log + q, log + q[1..];
    assert forall i :: 0 <= i < |t| ==> t[i] == s[if i < |log| then i else i + 1];
  }

  lemma RequestOrder(w: World, e: Event, link: Link, log: seq<Response>)
    requires Enabled(w, e) && e.Request? && e.link == link
    requires InOrder(w, link, log) && Numbered(w, link, log, e.response.request)
    ensures InOrder(Next(w, e), link, LogAfter(w, e, link, log)) <==> !Overtakes(w, e, link)
  {
    var q, r := QueueOf(w.node, link), e.response;
    IncreasingSnoc(log + q, r);
    if e.result.TransferInProgress? {
      assert log + (q + [r]) == log + q + [r];
    } else if e.result.Accepted? && q == [] {
      assert log + q == log && log + [r] + [] == log + q + [r];
    } else if e.result.Accepted? {
      var s := log + [r] + q;
      assert s[|log|] == r && s[|log| + 1] == q[0] && (log + q)[|log|] == q[0];
    }
  }

  lemma DrainKeepsOrder(w: World, e: Event, link: Link, log: seq<Response>)
    requires Enabled(w, e) && e.HandleFree? && e.link == link && NoEmptyQueue(w.node) && InOrder(w, link, log)
    ensures InOrder(Next(w, e), link, LogAfter(w, e, link, log)) <==> !Rotates(w, e, link)
  {
    hide Increasing;
    var q := QueueOf(w.node, link);
    if q != [] {
      DrainOrder(w.node, link, e.result);
      IncreasingWithout(log, q);
      assert q == [q[0]] + q[1..];
      if e.result.Accepted? {
        assert log + [q[0]] + q[1..] == log + q;
      } else if e.result.TransferInProgress? {
        RotatedQueue(log, q);
      }
    }
  }

  lemma RotatedQueue(log: seq<Response>, q: seq<Response>)
    requires Increasing(log + q) && q != []
    ensures Increasing(log + (q[1..] + [q[0]])) <==> |q| < 2
  {
    var s, t := log + q, log + (q[1..] + [q[0]]);
    if |q| < 2 {
      assert t == s;
    } else {
      assert t[|log|] == q[1] == s[|log| + 1] && t[|t| - 1] == q[0] == s[|log|];
    }
  }

  lemma OtherOrder(w: World, e: Event, link: Link, log: seq<Response>)
    requires Enabled(w, e) && InOrder(w, link, log) && (e.link == link ==> !e.Request? && !e.HandleFree?)
    ensures InOrder(Next(w, e), link, LogAfter(w, e, link, log))
  {
    if e.Close? && e.link == link {
      assert forall i :: 0 <= i < |log| ==> (log + QueueOf(w.node, link))[i] == log[i];
      assert log + [] == log;
    } else {
      assert QueueOf(Next(w, e).node, link) == QueueOf(w.node, link);
    }
  }

  /** From every state in order, a step keeps a link's order if and only if it neither overtakes nor rotates. */
  lemma OrderStep(w: World, e: Event, link: Link, log: seq<Response>)
    requires Enabled(w, e) && NoEmptyQueue(w.node) && InOrder(w, link, log)
    requires e.Request? && e.link == link ==> Numbered(w, link, log, e.response.request)
    ensures InOrder(Next(w, e), link, LogAfter(w, e, link, log)) <==> !Overtakes(w, e, link) && !Rotates(w, e, link)
  {
    hide InOrder, Next, LogAfter, Numbered, NoEmptyQueue;
    if e.link == link && e.Request? {
      RequestOrder(w, e, link, log);
    } else if e.link == link && e.HandleFree? {
      DrainKeepsOrder(w, e, link, log);
    } else {
      OtherOrder(w, e, link, log);
    }
  }

  // ----- Over whole runs

  /** Every request on the link has a higher number than all before it, and at least `floor`. */
  predicate RisingFrom(es: seq<Event>, link: Link, floor: nat)
    decreases |es|
  {
    es == [] ||
    if es[0].Request? && es[0].link == link
    then es[0].response.request >= floor && RisingFrom(es[1..], link, es[0].response.request + 1)
    else RisingFrom(es[1..], link, floor)
  }

  /** In order now and after every step. */
  predicate AlwaysInOrder(w: World, es: seq<Event>, link: Link, log: seq<Response>)
    requires CanRun(w, es)
    decreases |es|
  {
    && InOrder(w, link, log)
    && (es == [] || AlwaysInOrder(Next(w, es[0]), es[1..], link, LogAfter(w, es[0], link, log)))
  }

  /** No step overtakes or rotates. */
  predicate Undisturbed(w: World, es: seq<Event>, link: Link)
    requires CanRun(w, es)
    decreases |es|
  {
    es == [] ||
    (!Overtakes(w, es[0], link) && !Rotates(w, es[0], link) && Undisturbed(Next(w, es[0]), es[1..], link))
  }

  lemma NumberedStep(w: World, e: Event, link: Link, log: seq<Response>, floor: nat, next: nat)
    requires Enabled(w, e) && Numbered(w, link, log, floor) && next >= floor
    requires e.Request? && e.link == link ==> next > e.response.request
    ensures Numbered(Next(w, e), link, LogAfter(w, e, link, log), next)
  {
    var q, q' := QueueOf(w.node, link), QueueOf(Next(w, e).node, link);
    assert forall x :: x in log || x in q ==> x in log + q;
    if e.HandleFree? && e.link == link && q != [] {
      DrainOrder(w.node, link, e.result);
      assert forall x :: x in q[1..] ==> x in q;
      assert q[0] in q && forall x :: x in q' ==> x in q;
    } else {
      assert forall x :: x in q' ==> x in q || (e.Request? && e.link == link && x == e.response);
    }
  }

  /** For every run from a state in order: a link's responses leave in the order they arrived, at every point,
      if and only if no step of the run overtakes the queue or rotates it. */
  lemma {:induction false} OrderKeptIffUndisturbed(w: World, es: seq<Event>, link: Link, log: seq<Response>, floor: nat)
    requires CanRun(w, es) && NoEmptyQueue(w.node) && InOrder(w, link, log)
    requires Numbered(w, link, log, floor) && RisingFrom(es, link, floor)
    ensures AlwaysInOrder(w, es, link, log) <==> Undisturbed(w, es, link)
    decreases |es|
  {
    hide InOrder, Next, LogAfter, Numbered, NoEmptyQueue, Overtakes, Rotates;
    if es != [] {
      var e := es[0];
      var above := if e.Request? && e.link == link then e.response.request + 1 else floor;
      if e.Request? && e.link == link {
        FloorRises(w, link, log, floor, e.response.request);
      }
      OrderStep(w, e, link, log);
      NumberedStep(w, e, link, log, floor, above);
      EachResponseOnce(w, [e], Item(0, Response(0, [], Page)));
      assert Run(w, [e]) == Next(w, e);
      var log' := LogAfter(w, e, link, log);
      if InOrder(Next(w, e), link, log') {
        OrderKeptIffUndisturbed(Next(w, e), es[1..], link, log', above);
      }
    }
  }

  lemma FloorRises(w: World, link: Link, log: seq<Response>, floor: nat, above: nat)
    requires Numbered(w, link, log, floor) && floor <= above
    ensures Numbered(w, link, log, above)
  {
  }

  // ----- And the two ways it is lost

  lemma LogStep(w: World, e: Event, rest: seq<Event>, link: Link, log: seq<Response>)
    requires Enabled(w, e) && CanRun(Next(w, e), rest)
    ensures CanRun(w, [e] + rest) && Run(w, [e] + rest) == Run(Next(w, e), rest)
    ensures LogOf(w, [e] + rest, link, log) == LogOf(Next(w, e), rest, link, LogAfter(w, e, link, log))
  {
    assert ([e] + rest)[1..] == rest;
  }

  /** A link with one transfer in flight and `q` queued behind it. */
  predicate Busy(w: World, link: Link, q: seq<Response>) {
    w.busy == {link} && w.freed == multiset{} && QueueOf(w.node, link) == q
  }

  lemma FirstTwo(link: Link, a: Response, b: Response)
    ensures var es := [Request(link, a, Accepted), Request(link, b, TransferInProgress)];
            CanRun(START, es) && Busy(Run(START, es), link, [b]) && LogOf(START, es, link, []) == [a]
  {
    var e1, e2 := Request(link, a, Accepted), Request(link, b, TransferInProgress);
    var w1 := Next(START, e1);
    assert w1.busy == {link} && [] + [b] == [b] && [] + [a] == [a];
    LogStep(w1, e2, [], link, [a]);
    LogStep(START, e1, [e2], link, []);
    assert [e1] + [e2] == [e1, e2] && [e2] + [] == [e2];
  }

  lemma {:induction false} RunConcat(w: World, a: seq<Event>, b: seq<Event>, link: Link, log: seq<Response>)
    requires CanRun(w, a) && CanRun(Run(w, a), b)
    ensures CanRun(w, a + b) && Run(w, a + b) == Run(Run(w, a), b)
    ensures LogOf(w, a + b, link, log) == LogOf(Run(w, a), b, link, LogOf(w, a, link, log))
    decreases |a|
  {
    hide Next, LogAfter;
    if a == [] {
      assert a + b == b;
    } else {
      assert (a + b)[1..] == a[1..] + b && (a + b)[0] == a[0];
      RunConcat(Next(w, a[0]), a[1..], b, link, LogAfter(w, a[0], link, log));
    }
  }

  /** A reachable overtaking: `b` waits behind `a`; `a` ends, and `c` is requested and sent before the node has
      handled the event that would have sent `b`. */
  lemma OvertakingIsReachable(link: Link, a: Response, b: Response, c: Response)
    ensures var es := [Request(link, a, Accepted), Request(link, b, TransferInProgress)]
                      + [TransferEnds(link), Request(link, c, Accepted)];
            && CanRun(START, es) && LogOf(START, es, link, []) == [a, c]
            && QueueOf(Run(START, es).node, link) == [b]
  {
    hide Run, CanRun, LogOf;
    var first := [Request(link, a, Accepted), Request(link, b, TransferInProgress)];
    FirstTwo(link, a, b);
    var w := Run(START, first);
    var e1, e2 := TransferEnds(link), Request(link, c, Accepted);
    var w1 := Next(w, e1);
    EmptyRun(Next(w1, e2), link, [a, c]);
    assert [a] + [c] == [a, c];
    assert [e1] + [e2] == [e1, e2] && [e2] + [] == [e2];
    LogStep(w1, e2, [], link, [a]);
    LogStep(w, e1, [e2], link, [a]);
    RunConcat(START, first, [e1, e2], link, []);
  }

  lemma EmptyRun(w: World, link: Link, log: seq<Response>)
    ensures CanRun(w, []) && Run(w, []) == w && LogOf(w, [], link, log) == log
  {
  }

  /** A reachable rotation: `b` and `c` wait behind `a`; a segment of `a` ends, the drain is refused, and `c`
      stands before `b`. */
  lemma RotationIsReachable(link: Link, a: Response, b: Response, c: Response)
    ensures var es := [Request(link, a, Accepted), Request(link, b, TransferInProgress)]
                      + [Request(link, c, TransferInProgress), SegmentEnds(link), HandleFree(link, TransferInProgress)];
            && CanRun(START, es) && LogOf(START, es, link, []) == [a]
            && QueueOf(Run(START, es).node, link) == [c, b]
  {
    hide Run, CanRun, LogOf;
    var first := [Request(link, a, Accepted), Request(link, b, TransferInProgress)];
    FirstTwo(link, a, b);
    var w := Run(START, first);
    var e1, e2, e3 := Request(link, c, TransferInProgress), SegmentEnds(link), HandleFree(link, TransferInProgress);
    var w1 := Next(w, e1);
    assert [b] + [c] == [b, c] && QueueOf(w1.node, link) == [b, c];
    var w2 := Next(w1, e2);
    DrainOrder(w2.node, link, TransferInProgress);
    assert [b, c][1..] + [b] == [c, b];
    EmptyRun(Next(w2, e3), link, [a]);
    assert [e1] + [e2, e3] == [e1, e2, e3] && [e2] + [e3] == [e2, e3] && [e3] + [] == [e3];
    LogStep(w2, e3, [], link, [a]);
    LogStep(w1, e2, [e3], link, [a]);
    LogStep(w, e1, [e2, e3], link, [a]);
    RunConcat(START, first, [e1, e2, e3], link, []);
  }
}
