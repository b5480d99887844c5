/** Gateway and device over two channels that may lose frames: which receipts can be trusted. */
module Requests {
  import opened Bytes
  import opened Framing
  import opened Device
  import opened Gateway

  const WRAP: nat := 0x1_0000

  datatype Request = Request(attempt: nat, frame: Frame)

  datatype Response = Response(attempt: nat, ok: bool, frame: Frame)

  datatype Served = Served(attempt: nat, frame: Frame, ok: bool)

  /** What the device does with a request: its new state, and whether the request was carried out. */
  type Handler<!S> = (S, Frame) -> (S, bool)

  /** Attempts are counted without wrapping, for the statements only; the protocol sees 16-bit numbers. */
  datatype World<S> = World(
    gateway: GatewayState, pending: Option<nat>, started: seq<Frame>,
    requests: seq<Request>, responses: seq<Response>,
    device: S, answered: u16, served: seq<Served>, receipts: seq<nat>)

  datatype Event =
    | Start(request: Frame, sent: bool) | Serve | Receive | GiveUp | LoseRequest(at: nat) | LoseResponse(at: nat)

  function Beginning<S>(initial: u16, device: S): World<S> {
    World(GatewayState(initial, 0, 0, 0, None), None, [], [], [], device, 0, [], [])
  }

  function Without<T>(s: seq<T>, at: nat): (r: seq<T>)
    ensures |r| <= |s| && forall x :: x in r ==> x in s
  {
    if at < |s| then s[..at] + s[at + 1..] else s
  }

  function Started<S>(w: World<S>, request: Frame, sent: bool): World<S> {
    var k := |w.started|;
    var frame := AnyFrame.Frame(request.messageType, w.gateway.nextSequence, request.payload);
    var g := Advanced(w.gateway);
    if sent then
      w.(gateway := g.(sent := g.sent + 1), pending := Some(k), started := w.started + [frame],
         requests := w.requests + [Request(k, frame)])
    else w.(gateway := g, started := w.started + [frame])
  }

  function ServedFirst<S>(w: World<S>, handle: Handler<S>): World<S>
    requires w.requests != []
  {
    var q := w.requests[0];
    var (device, ok) := handle(w.device, q.frame);
    w.(requests := w.requests[1..], device := device, answered := (w.answered + 1) % WRAP,
       served := w.served + [Served(q.attempt, q.frame, ok)],
       responses := w.responses + [Response(q.attempt, ok, Answer(q.frame.sequence, ok, w.answered))])
  }

  function ReceivedFirst<S>(w: World<S>): World<S>
    requires w.responses != [] && w.pending.Some? && w.pending.value < |w.started|
  {
    var k := w.pending.value;
    var (g, r) := Finished(w.gateway, w.started[k].sequence, w.started[k].messageType, GotFrame(w.responses[0].frame));
    w.(gateway := g, pending := None, responses := w.responses[1..],
       receipts := if r.Ok? then w.receipts + [k] else w.receipts)
  }

  /** Events that cannot happen change nothing. */
  function Step<S>(w: World<S>, e: Event, handle: Handler<S>): World<S> {
    match e
    case Start(request, sent) => if w.pending.Some? then w else Started(w, request, sent)
    case Serve => if w.requests == [] then w else ServedFirst(w, handle)
    case Receive =>
      if w.responses == [] || w.pending.None? || w.pending.value >= |w.started| then w else ReceivedFirst(w)
    case GiveUp => w.(pending := None)
    case LoseRequest(at) => w.(requests := Without(w.requests, at))
    case LoseResponse(at) => w.(responses := Without(w.responses, at))
  }

  function State<S>(initial: u16, device: S, handle: Handler<S>, run: seq<Event>, i: nat): World<S>
    requires i <= |run|
  {
    if i == 0 then Beginning(initial, device) else Step(State(initial, device, handle, run, i - 1), run[i - 1], handle)
  }

  // ---- What always holds

  predicate Numbered<S>(w: World<S>, initial: u16) {
    && w.gateway.nextSequence == (initial + |w.started|) % WRAP
    && forall k :: 0 <= k < |w.started| ==> w.started[k].sequence == (initial + k) % WRAP
  }

  predicate Known<S>(w: World<S>, attempt: nat, frame: Frame) {
    attempt < |w.started| && frame == w.started[attempt]
  }

  predicate Traced<S>(w: World<S>) {
    && (w.pending.Some? ==> w.pending.value == |w.started| - 1)
    && (forall q :: q in w.requests ==> Known(w, q.attempt, q.frame))
    && (forall s :: s in w.served ==> Known(w, s.attempt, s.frame))
    && (forall p :: p in w.responses ==> Backed(w, p))
  }

  /** The response is the answer to a request that the device served with that outcome. */
  predicate Backed<S>(w: World<S>, p: Response) {
    && p.attempt < |w.started|
    && Served(p.attempt, w.started[p.attempt], p.ok) in w.served
    && p.frame == Answer(w.started[p.attempt].sequence, p.ok, p.frame.sequence)
  }

  predicate Counted<S>(w: World<S>) {
    && w.gateway.acknowledged == |w.receipts|
    && w.gateway.acknowledged + w.gateway.rejected + (if w.pending.Some? then 1 else 0) <= w.gateway.sent
  }

  predicate Sane<S>(w: World<S>, initial: u16) {
    Numbered(w, initial) && Traced(w) && Counted(w)
  }

  lemma StartIsSane<S>(w: World<S>, request: Frame, sent: bool, initial: u16)
    requires Sane(w, initial) && w.pending.None?
    ensures Sane(Started(w, request, sent), initial)
  {
    var v := Started(w, request, sent);
    assert forall p :: p in w.responses ==> Backed(w, p) ==> Backed(v, p);
  }

  lemma ServeIsSane<S>(w: World<S>, handle: Handler<S>, initial: u16)
    requires Sane(w, initial) && w.requests != []
    ensures Sane(ServedFirst(w, handle), initial)
  {
    var v := ServedFirst(w, handle);
    assert w.requests[0] in w.requests;
    assert forall p :: p in w.responses ==> Backed(w, p) ==> Backed(v, p);
  }

  lemma ReceiveIsSane<S>(w: World<S>, initial: u16)
    requires Sane(w, initial) && w.responses != [] && w.pending.Some?
    ensures Sane(ReceivedFirst(w), initial)
    ensures var k, p := w.pending.value, w.responses[0];
      p.attempt < |w.started|
      && (ReceivedFirst(w).receipts == if w.started[k].sequence == w.started[p.attempt].sequence && p.ok
                                       then w.receipts + [k] else w.receipts)
  {
    var k, p := w.pending.value, w.responses[0];
    assert p in w.responses && Backed(w, p);
    FinishedWithAnswer(w.gateway, w.started[k].sequence, w.started[k].messageType, w.started[p.attempt].sequence, p.ok,
                       p.frame.sequence);
    var v := ReceivedFirst(w);
    assert forall q :: q in v.responses ==> q in w.responses;
    assert forall q :: q in w.responses ==> Backed(w, q) ==> Backed(v, q);
  }

  lemma StepIsSane<S>(w: World<S>, e: Event, handle: Handler<S>, initial: u16)
    requires Sane(w, initial)
    ensures Sane(Step(w, e, handle), initial)
  {
    match e
    case Start(request, sent) =>
      if w.pending.None? {
        StartIsSane(w, request, sent, initial);
      }
    case Serve =>
      if w.requests != [] {
        ServeIsSane(w, handle, initial);
      }
    case Receive =>
      if w.responses != [] && w.pending.Some? {
        ReceiveIsSane(w, initial);
      }
    case _ =>
  }

  /** In every run: numbers are attempts modulo 2^16, and no more outcomes are counted than requests were sent. */
  lemma {:induction false} EveryWorldIsSane<S>(initial: u16, device: S, handle: Handler<S>, run: seq<Event>, i: nat)
    requires i <= |run|
    ensures Sane(State(initial, device, handle, run, i), initial)
  {
    if i > 0 {
      EveryWorldIsSane(initial, device, handle, run, i - 1);
      StepIsSane(State(initial, device, handle, run, i - 1), run[i - 1], handle, initial);
    }
  }

  // ---- Receipts

  /** The device carried out exactly the request of this attempt. */
  predicate Genuine<S>(w: World<S>, attempt: nat) {
    attempt < |w.started| && Served(attempt, w.started[attempt], true) in w.served
  }

  predicate AllGenuine<S>(w: World<S>) {
    forall k :: k in w.receipts ==> Genuine(w, k)
  }

  predicate Reads<S>(w: World<S>, e: Event) {
    e.Receive? && w.responses != [] && w.pending.Some? && w.pending.value < |w.started|
  }

  /** The response about to be read is less than 2^16 attempts old. */
  predicate Recent<S>(w: World<S>)
    requires w.responses != [] && w.pending.Some?
  {
    w.pending.value - w.responses[0].attempt < WRAP
  }

  lemma SameNumber(initial: u16, k: nat, j: nat)
    requires j <= k && (initial + k) % WRAP == (initial + j) % WRAP
    ensures k - j < WRAP ==> k == j
  {
  }

  /** A response is credited to the request it answers if and only if it is less than 2^16 attempts old. */
  lemma CreditedExactly<S>(w: World<S>, initial: u16)
    requires Sane(w, initial) && w.responses != [] && w.pending.Some?
    ensures ReceivedFirst(w).receipts != w.receipts ==>
      (w.responses[0].attempt == w.pending.value <==> Recent(w))
    ensures ReceivedFirst(w).receipts != w.receipts && Recent(w) ==> Genuine(w, w.pending.value)
    ensures w.responses[0].attempt == w.pending.value && w.responses[0].ok ==>
      ReceivedFirst(w).receipts == w.receipts + [w.pending.value]
  {
    ReceiveIsSane(w, initial);
    var k, p := w.pending.value, w.responses[0];
    assert p in w.responses && Backed(w, p);
    if w.started[k].sequence == w.started[p.attempt].sequence {
      SameNumber(initial, k, p.attempt);
    }
  }

  predicate TimelyAt<S>(initial: u16, device: S, handle: Handler<S>, run: seq<Event>, n: nat)
    requires n < |run|
  {
    var w := State(initial, device, handle, run, n);
    Reads(w, run[n]) ==> Recent(w)
  }

  /** No response is read 2^16 or more attempts after its request. */
  predicate Timely<S>(initial: u16, device: S, handle: Handler<S>, run: seq<Event>) {
    forall n :: 0 <= n < |run| ==> TimelyAt(initial, device, handle, run, n)
  }

  lemma GenuineStays<S>(w: World<S>, e: Event, handle: Handler<S>, k: nat)
    requires Genuine(w, k)
    ensures Genuine(Step(w, e, handle), k)
  {
  }

  lemma ReceiptStep<S>(w: World<S>, e: Event, handle: Handler<S>, initial: u16)
    requires Sane(w, initial) && (Reads(w, e) ==> Recent(w))
    requires AllGenuine(w)
    ensures AllGenuine(Step(w, e, handle))
  {
    forall k | k in Step(w, e, handle).receipts
      ensures Genuine(w, k)
    {
      if k !in w.receipts {
        CreditedExactly(w, initial);
      }
    }
    forall k | Genuine(w, k)
      ensures Genuine(Step(w, e, handle), k)
    {
      GenuineStays(w, e, handle, k);
    }
  }

  /** Then every receipt stands for a request the device carried out, whatever was lost, late or given up. */
  lemma {:induction false} ReceiptsAreGenuine<S>(initial: u16, device: S, handle: Handler<S>, run: seq<Event>, i: nat)
    requires i <= |run| && Timely(initial, device, handle, run)
    ensures AllGenuine(State(initial, device, handle, run, i))
  {
    if i > 0 {
      ReceiptsAreGenuine(initial, device, handle, run, i - 1);
      EveryWorldIsSane(initial, device, handle, run, i - 1);
      assert TimelyAt(initial, device, handle, run, i - 1);
      ReceiptStep(State(initial, device, handle, run, i - 1), run[i - 1], handle, initial);
    }
  }

  // ---- Without losses

  predicate Lossless(e: Event) {
    !e.LoseRequest? && !e.LoseResponse? && (e.Start? ==> e.sent)
  }

  function InFlight<S>(w: World<S>): nat {
    |w.responses| + |w.requests|
  }

  /** What is in flight are the last attempts, in order, the responses first. */
  predicate InLine<S>(w: World<S>) {
    && InFlight(w) <= |w.started|
    && (forall i :: 0 <= i < |w.responses| ==> w.responses[i].attempt == |w.started| - InFlight(w) + i)
    && (forall i :: 0 <= i < |w.requests| ==>
          w.requests[i].attempt == |w.started| - InFlight(w) + |w.responses| + i)
  }

  lemma StepKeepsLine<S>(w: World<S>, e: Event, handle: Handler<S>)
    requires InLine(w) && Lossless(e)
    ensures InLine(Step(w, e, handle))
  {
  }

  lemma {:induction false} LosslessInLine<S>(initial: u16, device: S, handle: Handler<S>, run: seq<Event>, i: nat)
    requires i <= |run| && forall e :: e in run ==> Lossless(e)
    ensures InLine(State(initial, device, handle, run, i))
  {
    if i > 0 {
      LosslessInLine(initial, device, handle, run, i - 1);
      StepKeepsLine(State(initial, device, handle, run, i - 1), run[i - 1], handle);
    }
  }

  /** With nothing lost, it is enough that at most 2^16 requests are unserved or have their response unread. */
  lemma LosslessReceiptsAreGenuine<S>(initial: u16, device: S, handle: Handler<S>, run: seq<Event>)
    requires forall e :: e in run ==> Lossless(e)
    requires forall i :: 0 <= i <= |run| ==> InFlight(State(initial, device, handle, run, i)) <= WRAP
    ensures AllGenuine(State(initial, device, handle, run, |run|))
  {
    forall n | 0 <= n < |run|
      ensures TimelyAt(initial, device, handle, run, n)
    {
      var w := State(initial, device, handle, run, n);
      EveryWorldIsSane(initial, device, handle, run, n);
      LosslessInLine(initial, device, handle, run, n);
    }
    ReceiptsAreGenuine(initial, device, handle, run, |run|);
  }

  // ---- Which requests get a receipt

  /** The first response in line answers a request whose number is that of the outstanding one, and says it was done. */
  predicate Fits<S>(w: World<S>)
    requires w.responses != [] && w.pending.Some?
  {
    (w.pending.value - w.responses[0].attempt) % WRAP == 0 && w.responses[0].ok
  }

  lemma SameNumberExactly(initial: u16, k: nat, j: nat)
    ensures (initial + k) % WRAP == (initial + j) % WRAP <==> (k - j) % WRAP == 0
  {
  }

  lemma ReceiptStepExactly<S>(w: World<S>, initial: u16)
    requires Sane(w, initial) && w.responses != [] && w.pending.Some?
    ensures ReceivedFirst(w).receipts == if Fits(w) then w.receipts + [w.pending.value] else w.receipts
  {
    ReceiveIsSane(w, initial);
    SameNumberExactly(initial, w.pending.value, w.responses[0].attempt);
  }

  /** In every run, a request that reads a response gets its receipt if and only if that response fits. */
  lemma ReceiptExactly<S>(initial: u16, device: S, handle: Handler<S>, run: seq<Event>, n: nat)
    requires n < |run| && Reads(State(initial, device, handle, run, n), run[n])
    ensures var w, v := State(initial, device, handle, run, n), State(initial, device, handle, run, n + 1);
      v.receipts == if Fits(w) then w.receipts + [w.pending.value] else w.receipts
  {
    EveryWorldIsSane(initial, device, handle, run, n);
    ReceiptStepExactly(State(initial, device, handle, run, n), initial);
  }

  predicate GivesUp<S>(w: World<S>, e: Event) {
    e.GiveUp? && w.pending.Some?
  }

  /** Requests given up so far: their responses, if not read since, come before those of later requests. */
  function GivenUp<S>(initial: u16, device: S, handle: Handler<S>, run: seq<Event>, i: nat): nat
    requires i <= |run|
  {
    if i == 0 then 0
    else
      GivenUp(initial, device, handle, run, i - 1)
      + if GivesUp(State(initial, device, handle, run, i - 1), run[i - 1]) then 1 else 0
  }

  /** What is in flight: one for each request given up, and one for the outstanding one. */
  predicate Lags<S>(w: World<S>, givenUp: nat) {
    InFlight(w) == givenUp + if w.pending.Some? then 1 else 0
  }

  lemma LagStep<S>(w: World<S>, e: Event, handle: Handler<S>, initial: u16, givenUp: nat)
    requires Sane(w, initial) && Lags(w, givenUp) && Lossless(e)
    ensures Lags(Step(w, e, handle), givenUp + if GivesUp(w, e) then 1 else 0)
  {
  }

  lemma {:induction false} EveryWorldLags<S>(initial: u16, device: S, handle: Handler<S>, run: seq<Event>, i: nat)
    requires i <= |run| && forall e :: e in run ==> Lossless(e)
    ensures Lags(State(initial, device, handle, run, i), GivenUp(initial, device, handle, run, i))
  {
    if i > 0 {
      EveryWorldLags(initial, device, handle, run, i - 1);
      EveryWorldIsSane(initial, device, handle, run, i - 1);
      LagStep(State(initial, device, handle, run, i - 1), run[i - 1], handle, initial,
              GivenUp(initial, device, handle, run, i - 1));
    }
  }

  /**
   With nothing lost, every request reads the response of the request as many attempts before it as were given up so
   far. So it gets a receipt if and only if that number is a multiple of 2^16 and the older request was carried out.
   */
  lemma ReceiptWithoutLossExactly<S>(initial: u16, device: S, handle: Handler<S>, run: seq<Event>, n: nat)
    requires n < |run| && (forall e :: e in run ==> Lossless(e))
    requires Reads(State(initial, device, handle, run, n), run[n])
    ensures var w, v := State(initial, device, handle, run, n), State(initial, device, handle, run, n + 1);
      var late := GivenUp(initial, device, handle, run, n);
      && w.responses[0].attempt == w.pending.value - late
      && v.receipts == if late % WRAP == 0 && w.responses[0].ok then w.receipts + [w.pending.value] else w.receipts
  {
    ReceiptExactly(initial, device, handle, run, n);
    EveryWorldLags(initial, device, handle, run, n);
    EveryWorldIsSane(initial, device, handle, run, n);
    LosslessInLine(initial, device, handle, run, n);
    FirstInLine(State(initial, device, handle, run, n), initial, GivenUp(initial, device, handle, run, n));
  }

  lemma FirstInLine<S>(w: World<S>, initial: u16, late: nat)
    requires Sane(w, initial) && InLine(w) && Lags(w, late) && w.responses != [] && w.pending.Some?
    ensures w.responses[0].attempt == w.pending.value - late
    ensures Fits(w) <==> late % WRAP == 0 && w.responses[0].ok
  {
  }

  lemma OnlyReadsGiveReceipts<S>(initial: u16, device: S, handle: Handler<S>, run: seq<Event>, n: nat)
    requires n < |run| && !Reads(State(initial, device, handle, run, n), run[n])
    ensures State(initial, device, handle, run, n + 1).receipts == State(initial, device, handle, run, n).receipts
  {
  }

  /** Some, but fewer than 2^16, requests have been given up. */
  predicate Late<S>(initial: u16, device: S, handle: Handler<S>, run: seq<Event>, n: nat)
    requires n <= |run|
  {
    0 < GivenUp(initial, device, handle, run, n) < WRAP
  }

  lemma NoReceiptWhileLate<S>(initial: u16, device: S, handle: Handler<S>, run: seq<Event>, n: nat)
    requires n < |run| && (forall e :: e in run ==> Lossless(e)) && Late(initial, device, handle, run, n)
    ensures State(initial, device, handle, run, n + 1).receipts == State(initial, device, handle, run, n).receipts
  {
    if Reads(State(initial, device, handle, run, n), run[n]) {
      ReceiptWithoutLossExactly(initial, device, handle, run, n);
      NotAMultiple(GivenUp(initial, device, handle, run, n));
    } else {
      OnlyReadsGiveReceipts(initial, device, handle, run, n);
    }
  }

  lemma NotAMultiple(n: nat)
    requires 0 < n < WRAP
    ensures n % WRAP != 0
  {
  }

  lemma {:induction false} GivenUpGrows<S>(initial: u16, device: S, handle: Handler<S>, run: seq<Event>, i: nat, k: nat)
    requires i <= k <= |run|
    ensures GivenUp(initial, device, handle, run, i) <= GivenUp(initial, device, handle, run, k)
    decreases k
  {
    if k > i {
      GivenUpGrows(initial, device, handle, run, i, k - 1);
      GivenUpStep(initial, device, handle, run, k - 1);
    }
  }

  lemma GivenUpStep<S>(initial: u16, device: S, handle: Handler<S>, run: seq<Event>, n: nat)
    requires n < |run|
    ensures GivenUp(initial, device, handle, run, n) <= GivenUp(initial, device, handle, run, n + 1)
  {
  }

  lemma {:induction false} NoReceiptsWhileLate<S>(initial: u16, device: S, handle: Handler<S>, run: seq<Event>,
                                                  i: nat, k: nat)
    requires i <= k <= |run| && forall e :: e in run ==> Lossless(e)
    requires forall n :: i <= n < k ==> Late(initial, device, handle, run, n)
    ensures State(initial, device, handle, run, k).receipts == State(initial, device, handle, run, i).receipts
    decreases k
  {
    if k > i {
      NoReceiptsWhileLate(initial, device, handle, run, i, k - 1);
      NoReceiptWhileLate(initial, device, handle, run, k - 1);
    }
  }

  /** Once a request is given up, no later one gets a receipt until 2^16 have been. */
  lemma LateResponseCostsAll<S>(initial: u16, device: S, handle: Handler<S>, run: seq<Event>, i: nat, k: nat)
    requires i <= k <= |run| && forall e :: e in run ==> Lossless(e)
    requires 0 < GivenUp(initial, device, handle, run, i) && GivenUp(initial, device, handle, run, k) < WRAP
    ensures State(initial, device, handle, run, k).receipts == State(initial, device, handle, run, i).receipts
  {
    forall n | i <= n < k
      ensures Late(initial, device, handle, run, n)
    {
      GivenUpGrows(initial, device, handle, run, i, n);
      GivenUpGrows(initial, device, handle, run, n, k);
    }
    NoReceiptsWhileLate(initial, device, handle, run, i, k);
  }

  // ---- With losses one unread response is enough

  function Repeated(e: Event, n: nat): (s: seq<Event>)
    ensures |s| == n
  {
    seq(n, _ => e)
  }

  /** One late response, then 65535 requests the transport refuses, then the request that reads it. */
  function StaleRun(f: Frame): seq<Event> {
    [Start(f, true), Serve, GiveUp] + Repeated(Start(f, false), WRAP - 1) + [Start(f, true), Receive]
  }

  /** After n refused requests the first one's response is still the only thing in flight. */
  predicate OneUnread<S>(w: World<S>, n: nat) {
    && w.pending.None? && |w.started| == n + 1 && w.requests == [] && |w.responses| == 1 && w.receipts == []
    && w.responses[0].attempt == 0 && w.responses[0].ok
    && |w.served| == 1 && w.served[0].attempt == 0
  }

  lemma FirstIsUnread<S>(initial: u16, device: S, handle: Handler<S>, f: Frame, run: seq<Event>)
    requires |run| >= 3 && run[0] == Start(f, true) && run[1] == Serve && run[2] == GiveUp
    requires handle(device, AnyFrame.Frame(f.messageType, initial, f.payload)).1
    ensures OneUnread(State(initial, device, handle, run, 3), 0)
  {
    var w0 := Beginning(initial, device);
    var w1 := Started(w0, f, true);
    assert State(initial, device, handle, run, 0) == w0;
    assert State(initial, device, handle, run, 1) == w1;
    var w2 := ServedFirst(w1, handle);
    assert State(initial, device, handle, run, 2) == w2;
    assert w1.requests[0].frame == AnyFrame.Frame(f.messageType, initial, f.payload);
  }

  lemma {:induction false} StillUnread<S>(initial: u16, device: S, handle: Handler<S>, f: Frame, run: seq<Event>,
                                          n: nat)
    requires 3 + n <= |run| && OneUnread(State(initial, device, handle, run, 3), 0)
    requires forall i :: 3 <= i < 3 + n ==> run[i] == Start(f, false)
    ensures OneUnread(State(initial, device, handle, run, 3 + n), n)
  {
    if n > 0 {
      StillUnread(initial, device, handle, f, run, n - 1);
      assert run[2 + n] == Start(f, false);
    }
  }

  /** The receipt is then for a request that the device has not even seen. */
  lemma StaleResponseIsCredited<S>(initial: u16, device: S, handle: Handler<S>, f: Frame)
    requires handle(device, AnyFrame.Frame(f.messageType, initial, f.payload)).1
    ensures var w := State(initial, device, handle, StaleRun(f), |StaleRun(f)|);
      w.receipts == [WRAP] && !Genuine(w, WRAP)
  {
    var run := StaleRun(f);
    var n := WRAP + 2;
    assert forall i :: 3 <= i < n ==> run[i] == Start(f, false);
    assert run[n] == Start(f, true) && run[n + 1] == Receive && |run| == n + 2;
    FirstIsUnread(initial, device, handle, f, run);
    StillUnread(initial, device, handle, f, run, WRAP - 1);
    EveryWorldIsSane(initial, device, handle, run, n);
    LastTwo(initial, device, handle, f, run, State(initial, device, handle, run, n));
  }

  lemma LastTwo<S>(initial: u16, device: S, handle: Handler<S>, f: Frame, run: seq<Event>, w: World<S>)
    requires Sane(w, initial) && OneUnread(w, WRAP - 1)
    requires |run| == WRAP + 4 && run[WRAP + 2] == Start(f, true) && run[WRAP + 3] == Receive
    requires w == State(initial, device, handle, run, WRAP + 2)
    ensures var v := State(initial, device, handle, run, |run|);
      v.receipts == [WRAP] && !Genuine(v, WRAP)
  {
    var u := Started(w, f, true);
    assert State(initial, device, handle, run, WRAP + 3) == u;
    StartIsSane(w, f, true, initial);
    StaleCredit(u, initial);
    assert State(initial, device, handle, run, WRAP + 4) == ReceivedFirst(u);
  }

  /** The request after a full wrap reads the first one's response. */
  lemma StaleCredit<S>(u: World<S>, initial: u16)
    requires Sane(u, initial) && u.pending == Some(WRAP) && |u.started| == WRAP + 1 && u.receipts == []
    requires |u.responses| == 1 && u.responses[0].attempt == 0 && u.responses[0].ok
    requires |u.served| == 1 && u.served[0].attempt == 0
    ensures ReceivedFirst(u).receipts == [WRAP] && !Genuine(ReceivedFirst(u), WRAP)
  {
    ReceiveIsSane(u, initial);
    assert u.started[WRAP].sequence == u.started[0].sequence;
  }
}
