/**
  `EventData` and the part of `HttpServer` without coroutines (src/http_server.cc,
  src/include/http_server.hh) as objects that are updated in place, proved against `HttpServerSpec`.
  What the kernel and the registered handlers answer are parameters.
 */
module HttpServers {
  import opened Common
  import opened HttpMessageSpec
  import opened HttpMessages
  import opened HttpServerSpec

  /** Copies a text to the front of a buffer. */
  method CopyText(dst: array<char>, s: string)
    requires |s| <= dst.Length
    modifies dst
    ensures dst[..] == s + old(dst[..])[|s|..]
  {
    for i := 0 to |s|
      invariant forall k :: 0 <= k < i ==> dst[k] == s[k]
      invariant forall k :: i <= k < dst.Length ==> dst[k] == old(dst[k])
    {
      dst[i] := s[i];
    }
  }

  class EventData {
    ghost const id: nat
    var fd: int
    var length: nat
    var cursor: nat
    const buf: array<char>
    var keepAlive: bool

    function Val(): Event
      reads this, buf
    {
      Event(fd, length, cursor, buf[..], keepAlive)
    }

    constructor (fd: int, ghost id: nat)
      ensures Val() == NewRequest(fd) && this.id == id && fresh(buf)
    {
      this.id := id;
      this.fd, length, cursor, keepAlive := fd, 0, 0, true;
      buf := new char[BUFFER_SIZE](_ => '\0');
      new;
      assert buf[..] == Zeros(BUFFER_SIZE);
    }
  }

  /** What `epoll_ctl` stores for a socket, and what `epoll_wait` returns. */
  datatype Registration = Registration(out: bool, data: EventData)

  datatype EpollEvent = EpollEvent(mask: Mask, data: EventData)

  /** The outcome of `recv` or `send`; with the bytes of a request comes what a handler for it would do. */
  datatype Net = Bytes(bytes: string, handler: Handler) | Other(io: Io)

  /** The text is the response printed with its headers in some order. */
  ghost predicate IsPrinted(reply: string, res: Response, sendContent: bool) {
    exists hs :: Iterates(hs, res.headers) && reply == PrintResponse(res, hs, sendContent)
  }

  ghost predicate Fits(res: Response, sendContent: bool) {
    forall hs :: Iterates(hs, res.headers) ==> |PrintResponse(res, hs, sendContent)| <= BUFFER_SIZE
  }

  lemma PrintedFits(text: string, res: Response, sendContent: bool)
    requires Fits(res, sendContent)
    requires exists hs :: Iterates(hs, res.headers) && text == PrintResponse(res, hs, sendContent)
    ensures IsPrinted(text, res, sendContent) && |text| <= BUFFER_SIZE
  {
  }

  /** The label for an outcome: a request is answered as `Answer` says. */
  ghost predicate Means(net: Net, io: Io, routes: map<string, set<Method>>) {
    match net
    case Bytes(bytes, handler) =>
      var (res, send, keepAlive) := Answer(routes, bytes, handler);
      io.Received? && io.bytes == bytes && io.keepAlive == keepAlive && IsPrinted(io.reply, res, send)
    case Other(other) => io == other
  }

  /** The text is what some handler's answer to the request is printed as, and `keep` says whether the request
      as it is parsed asks to keep the connection. */
  ghost predicate AnswersTo(routes: map<string, set<Method>>, request: string, reply: string, keep: bool) {
    && (exists h: Handler :: var (res, send, _) := Answer(routes, request, h); IsPrinted(reply, res, send))
    && keep == KeepsAlive(HttpMessageSpec.FromString(FRESH, request).0)
  }

  ghost function Answerer(routes: map<string, set<Method>>): (string, string, bool) -> bool {
    (request, reply, keep) => AnswersTo(routes, request, reply, keep)
  }

  lemma MeansAnswers(net: Net, io: Io, w: nat, routes: map<string, set<Method>>)
    requires io.Received? ==> net.Bytes? && Means(net, io, routes)
    ensures Answering(Handle(w, io), Answerer(routes))
  {
    if io.Received? {
      var (res, send, _) := Answer(routes, io.bytes, net.handler);
      assert IsPrinted(io.reply, res, send);
    }
  }

  ghost predicate NetFits(net: Net, routes: map<string, set<Method>>) {
    net.Bytes? ==>
      var (res, send, _) := Answer(routes, net.bytes, net.handler);
      0 < |net.bytes| <= BUFFER_SIZE && Fits(res, send)
  }

  class HttpServer {
    const routes: map<string, set<Method>>
    var epolls: seq<map<int, Registration>>
    var events: seq<seq<EpollEvent>>
    var workerIdx: nat
    /** Every record that was ever allocated, and the value that the objects represent. */
    ghost var all: seq<EventData>
    ghost var view: Server

    ghost predicate Known(d: EventData)
      reads this
    {
      d.id < |all| && all[d.id] == d
    }

    ghost predicate DataOk(k: nat)
      requires k < |all|
      reads this, all[k], all[k].buf
    {
      k < |view.data| && all[k].id == k && all[k].Val() == view.data[k] && all[k].buf.Length == BUFFER_SIZE
    }

    ghost predicate EpollOk(w: nat)
      requires w < |epolls|
      reads this
    {
      && w < |view.epolls| && epolls[w].Keys == view.epolls[w].Keys
      && forall fd :: fd in epolls[w] ==>
           Known(epolls[w][fd].data) && view.epolls[w][fd] == Reg(epolls[w][fd].out, epolls[w][fd].data.id)
    }

    ghost predicate BatchTied(w: nat)
      requires w < |events|
      reads this
    {
      && w < |view.batches| && |events[w]| == |view.batches[w]|
      && forall i :: 0 <= i < |events[w]| ==>
           Known(events[w][i].data) && view.batches[w][i] == Ready(events[w][i].mask, events[w][i].data.id)
    }

    ghost predicate ListsOk()
      reads this
    {
      && |all| == |view.data| && |epolls| == |view.epolls| == |events| == |view.batches| == WORKERS
      && (forall w :: 0 <= w < WORKERS ==> EpollOk(w))
      && (forall w :: 0 <= w < WORKERS ==> BatchTied(w))
    }

    /** The objects are what `view` says. */
    ghost predicate Tied()
      reads this, all, set d | d in all :: d.buf
    {
      && ListsOk() && workerIdx == view.workerIdx < WORKERS
      && (forall k :: 0 <= k < |all| ==> DataOk(k))
      && (forall j, k :: 0 <= j < k < |all| ==> all[j].buf != all[k].buf)
    }

    ghost predicate Valid()
      reads this, all, set d | d in all :: d.buf
    {
      Tied() && Inv(view)
    }

    /** The i-th response on every connection is the printed answer to the i-th request. */
    ghost predicate Truthful()
      reads this
    {
      AllPaired(view, Answerer(routes))
    }

    constructor (routes: map<string, set<Method>>)
      ensures Valid() && view == START && all == [] && Truthful()
    {
      this.routes := routes;
      epolls, events, workerIdx := seq(WORKERS, _ => map[]), seq(WORKERS, _ => []), 0;
      all, view := [], START;
      new;
      StartOk();
    }

    // ----- pieces of the steps -----

    /** `new EventData`. */
    method Allocate(fd: int) returns (d: EventData)
      requires Tied()
      modifies this`all, this`view
      ensures Tied() && fresh(d) && fresh(d.buf) && d.id == |old(all)| && all == old(all) + [d]
      ensures view == old(view).(data := old(view).data + [NewRequest(fd)], live := old(view).live + {d.id})
    {
      d := new EventData(fd, |all|);
      all := all + [d];
      view := view.(data := view.data + [NewRequest(fd)], live := view.live + {d.id});
      forall k | 0 <= k < |all| ensures DataOk(k) {
        if k < |old(all)| { assert old(DataOk(k)); }
      }
      forall w | 0 <= w < WORKERS ensures EpollOk(w) && BatchTied(w) {
        assert old(EpollOk(w)) && old(BatchTied(w));
      }
    }

    /** `ControlEpollEvent` with EPOLL_CTL_MOD or EPOLL_CTL_ADD. */
    method Control(w: nat, fd: int, out: bool, d: EventData)
      requires Tied() && w < WORKERS && Known(d)
      modifies this`epolls, this`view
      ensures Tied()
      ensures view == old(view).(epolls := old(view).epolls[w := old(view).epolls[w][fd := Reg(out, d.id)]])
    {
      epolls := epolls[w := epolls[w][fd := Registration(out, d)]];
      view := view.(epolls := view.epolls[w := view.epolls[w][fd := Reg(out, d.id)]]);
      forall k | 0 <= k < |all| ensures DataOk(k) {
        assert old(DataOk(k));
      }
      forall v | 0 <= v < WORKERS ensures EpollOk(v) && BatchTied(v) {
        assert old(EpollOk(v)) && old(BatchTied(v));
      }
    }

    /** EPOLL_CTL_DEL, `close` and `delete`. */
    method End(w: nat, d: EventData, ghost ending: Ending)
      requires Tied() && w < WORKERS && Known(d) && EndConn(view, w, d.id, ending).Some?
      modifies this`epolls, this`view
      ensures Tied() && EndConn(old(view), w, d.id, ending) == Some(view)
    {
      assert DataOk(d.id);
      epolls := epolls[w := epolls[w] - {d.fd}];
      view := EndConn(view, w, d.id, ending).value;
      forall k | 0 <= k < |all| ensures DataOk(k) {
        assert old(DataOk(k));
      }
      forall v | 0 <= v < WORKERS ensures EpollOk(v) && BatchTied(v) {
        assert old(EpollOk(v)) && old(BatchTied(v));
      }
    }

    /** Notes a change of one record, which the caller has made. */
    ghost method Note(d: EventData)
      requires ListsOk() && workerIdx == view.workerIdx < WORKERS && Known(d) && d.buf.Length == BUFFER_SIZE
      requires forall k :: 0 <= k < |all| && k != d.id ==> DataOk(k)
      requires forall j, k :: 0 <= j < k < |all| ==> all[j].buf != all[k].buf
      modifies this`view
      ensures Tied() && view == old(view).(data := old(view).data[d.id := d.Val()])
    {
      view := view.(data := view.data[d.id := d.Val()]);
      forall k | 0 <= k < |all| ensures DataOk(k) {
        if k != d.id { assert old(DataOk(k)); }
      }
      forall w | 0 <= w < WORKERS ensures EpollOk(w) && BatchTied(w) {
        assert old(EpollOk(w)) && old(BatchTied(w));
      }
    }

    /** Notes what no object holds. */
    ghost method Adopt(s: Server)
      requires Tied() && s.data == view.data && s.epolls == view.epolls && s.batches == view.batches
      requires s.workerIdx == view.workerIdx
      modifies this`view
      ensures Tied() && view == s
    {
      view := s;
      forall k | 0 <= k < |all| ensures DataOk(k) {
        assert old(DataOk(k));
      }
      forall w | 0 <= w < WORKERS ensures EpollOk(w) && BatchTied(w) {
        assert old(EpollOk(w)) && old(BatchTied(w));
      }
    }

    // ----- the listener -----

    method NextWorker(ghost s: Server)
      requires Tied() && s.data == view.data && s.epolls == view.epolls && s.batches == view.batches
      requires s.workerIdx == (view.workerIdx + 1) % WORKERS
      modifies this`workerIdx, this`view
      ensures Tied() && view == s
    {
      workerIdx := (workerIdx + 1) % WORKERS;
      view := s;
      forall k | 0 <= k < |all| ensures DataOk(k) {
        assert old(DataOk(k));
      }
      forall w | 0 <= w < WORKERS ensures EpollOk(w) && BatchTied(w) {
        assert old(EpollOk(w)) && old(BatchTied(w));
      }
    }

    /** One round of `ListenClient`; `clientFd` is what `accept4` returned. */
    method ListenClient(clientFd: int)
      requires Valid() && (clientFd >= 0 ==> Possible(view, Accept(clientFd)))
      modifies this`all, this`view, this`epolls, this`workerIdx
      ensures Valid() && (clientFd < 0 ==> view == old(view))
      ensures clientFd >= 0 ==>
                var s := Step(old(view), Accept(clientFd)).value;
                && |s.epolls| == |s.batches| == WORKERS && s.workerIdx < WORKERS
                && Possible(s, Register) && Step(s, Register) == Some(view)
      ensures old(Truthful()) ==> Truthful()
    {
      if clientFd < 0 {
        return;
      }
      StepKeepsInv(view, Accept(clientFd));
      if Truthful() {
        ListenKeepsPaired(view, clientFd, Answerer(routes));
      }
      Adopt(Step(view, Accept(clientFd)).value);
      ghost var s := view;
      RegisterKeepsInv(s);
      hide Inv, EpollOk, DataOk, BatchTied;
      var data := Allocate(clientFd);
      Control(workerIdx, clientFd, false, data);
      NextWorker(Step(s, Register).value);
    }

    // ----- requests and responses -----

    /** `HandleRequestMessage`: what the handler for the path and the method does. */
    method HandleRequestMessage(request: HttpRequest, handler: Handler) returns (h: Handler)
      ensures h == HttpMessageSpec.Dispatch(routes, request.Val(), handler)
    {
      var path := Route(request.path);
      if path !in routes {
        return Replies(HttpMessageSpec.NewResponse(404));
      }
      if request.verb !in routes[path] {
        return Replies(HttpMessageSpec.NewResponse(405));
      }
      return handler;
    }

    /** The `try` of `HandleRequestData` and its handlers. */
    method ParseAndHandle(text: string, handler: Handler) returns (req: HttpRequest, res: HttpResponse)
      ensures fresh(req) && fresh(res) && req.Val() == HttpMessageSpec.FromString(FRESH, text).0
      ensures (res.Val(), req.verb != HEAD, KeepsAlive(req.Val())) == Answer(routes, text, handler)
    {
      hide HttpMessageSpec.FromString, HttpMessageSpec.Dispatch;
      req := new HttpRequest();
      res := new HttpResponse(HttpMessageSpec.NewResponse(200));
      var outcome := req.FromString(text);
      var done := match outcome
                  case Parsed => handler
                  case Invalid(what) => ThrowsInvalid(what)
                  case Unsupported(what) => ThrowsLogic(what);
      if outcome == Parsed {
        done := HandleRequestMessage(req, handler);
      }
      match done
      case Replies(r) => res := new HttpResponse(r);
      case ThrowsInvalid(what) =>
        res.SetStatusCode(400);
        res.SetContent(what);
      case ThrowsLogic(what) =>
        res.SetStatusCode(505);
        res.SetContent(what);
      case Throws(what) =>
        res.SetStatusCode(500);
        res.SetContent(what);
    }

    method HandleRequestData(request: EventData, response: EventData, handler: Handler) returns (ghost reply: string)
      requires request.length <= request.buf.Length && response.buf.Length == BUFFER_SIZE
      requires request != response && request.buf != response.buf
      requires var (res, send, _) := Answer(routes, request.buf[..request.length], handler); Fits(res, send)
      modifies response`length, response`keepAlive, response.buf
      ensures var (res, send, keepAlive) := Answer(routes, request.buf[..request.length], handler);
              IsPrinted(reply, res, send) && response.keepAlive == keepAlive
      ensures response.length == |reply| <= BUFFER_SIZE && response.buf[..] == reply + old(response.buf[..])[|reply|..]
    {
      hide Answer, PrintResponse, Iterates, Fits;
      var req, res := ParseAndHandle(request.buf[..request.length], handler);
      var text := res.ToString(req.verb != HEAD);
      PrintedFits(text, res.Val(), req.verb != HEAD);
      var keepAlive := "Connection" in req.headers && req.headers["Connection"] == "keep-alive";
      hide IsPrinted, HttpMessageSpec.FromString;
      Store(response, text, keepAlive);
      reply := text;
    }

    method Store(response: EventData, text: string, keepAlive: bool)
      requires |text| <= response.buf.Length
      modifies response`length, response`keepAlive, response.buf
      ensures response.length == |text| && response.keepAlive == keepAlive
      ensures response.buf[..] == text + old(response.buf[..])[|text|..]
    {
      CopyText(response.buf, text);
      response.length := |text|;
      response.keepAlive := keepAlive;
    }

    // ----- the workers -----

    /** `recv` into the buffer of a request. */
    method Recv(d: EventData, bytes: string)
      requires Tied() && Known(d) && |bytes| <= BUFFER_SIZE
      modifies this`view, d`length, d.buf
      ensures Tied() && d.id < |old(view).data| && |old(view).data[d.id].buf| == BUFFER_SIZE
      ensures var e := old(view).data[d.id];
              view == old(view).(data := old(view).data[d.id := e.(length := |bytes|, buf := bytes + e.buf[|bytes|..])])
      ensures d.length == |bytes| && d.buf.Length == BUFFER_SIZE && d.buf[..|bytes|] == bytes
    {
      assert DataOk(d.id);
      label before:
      CopyText(d.buf, bytes);
      d.length := |bytes|;
      assert d.buf[..|bytes|] == bytes;
      forall k | 0 <= k < |all| && k != d.id ensures DataOk(k) {
        assert old@before(DataOk(k));
      }
      Note(d);
    }

    /** The response to a request in `d`, in a record of its own. */
    method Respond(d: EventData, bytes: string, handler: Handler) returns (response: EventData, ghost io: Io)
      requires Tied() && Known(d) && d.length == |bytes| && d.buf.Length == BUFFER_SIZE && |bytes| <= BUFFER_SIZE
      requires d.buf[..|bytes|] == bytes && NetFits(Bytes(bytes, handler), routes)
      modifies this`view, this`all
      ensures Tied() && Known(response) && response.id == |old(view).data| && Means(Bytes(bytes, handler), io, routes)
      ensures fresh(response) && fresh(response.buf) && all == old(all) + [response]
      ensures RecvResult(io) && io.Received? && io.bytes == bytes
      ensures view == old(view).(data := old(view).data + [HttpServerSpec.NewResponse(d.fd, io.reply, io.keepAlive)],
                                 live := old(view).live + {response.id})
    {
      hide Answer;
      assert d.buf[..d.length] == bytes;
      response := Allocate(d.fd);
      assert DataOk(response.id);
      label before:
      ghost var reply := HandleRequestData(d, response, handler);
      io := Received(bytes, reply, response.keepAlive);
      assert Zeros(BUFFER_SIZE)[|reply|..] == Zeros(BUFFER_SIZE - |reply|);
      assert response.Val() == HttpServerSpec.NewResponse(d.fd, reply, response.keepAlive);
      forall k | 0 <= k < |all| && k != response.id ensures DataOk(k) {
        assert old@before(DataOk(k));
      }
      Note(response);
    }

    /** Stores a request and generates its response. */
    method RecvAndRespond(d: EventData, bytes: string, handler: Handler) returns (response: EventData, ghost io: Io)
      requires Tied() && Known(d) && NetFits(Bytes(bytes, handler), routes)
      modifies this`view, this`all, d`length, d.buf
      ensures Tied() && Known(response) && response.id == |old(view).data| && Means(Bytes(bytes, handler), io, routes)
      ensures fresh(response) && fresh(response.buf) && all == old(all) + [response]
      ensures RecvResult(io) && io.Received? && io.bytes == bytes
      ensures d.id < |old(view).data| && |old(view).data[d.id].buf| == BUFFER_SIZE
      ensures var e := old(view).data[d.id];
              view == old(view).(data := old(view).data[d.id := e.(length := |bytes|, buf := bytes + e.buf[|bytes|..])]
                                         + [HttpServerSpec.NewResponse(d.fd, io.reply, io.keepAlive)],
                                 live := old(view).live + {response.id})
    {
      hide Answer, Fits, DataOk, EpollOk, BatchTied;
      Recv(d, bytes);
      response, io := Respond(d, bytes, handler);
    }

    /** A request has arrived: its response is generated and registered for writing. */
    method Serve(w: nat, d: EventData, bytes: string, handler: Handler) returns (ghost io: Io)
      requires Tied() && Known(d) && Current(view, w, d.fd, d.id) && !view.epolls[w][d.fd].out
      requires NetFits(Bytes(bytes, handler), routes)
      modifies this`view, this`all, this`epolls, d`length, d.buf
      ensures old(all) <= all && forall k :: |old(all)| <= k < |all| ==> fresh(all[k]) && fresh(all[k].buf)
      ensures Valid() && Means(Bytes(bytes, handler), io, routes) && RecvResult(io)
      ensures HttpServerSpec.Receive(old(view), w, d.id, io) == Some(view)
    {
      ghost var s, fd := view, d.fd;
      assert |s.epolls| == WORKERS;
      hide Answer, Inv, Current, Tied, Means, NetFits, HttpServerSpec.Receive, RecvResult;
      var response;
      response, io := RecvAndRespond(d, bytes, handler);
      Control(w, d.fd, true, response);
      AfterReceived(s, w, fd, d.id, io);
      ReceiveKeepsInv(s, w, fd, d.id, io);
      Adopt(HttpServerSpec.Receive(s, w, d.id, io).value);
    }

    /** The EPOLLIN half of `HandleEpollEvent`. */
    method Receive(w: nat, d: EventData, net: Net) returns (ghost io: Io)
      requires Tied() && Known(d) && Current(view, w, d.fd, d.id) && !view.epolls[w][d.fd].out
      requires NetFits(net, routes) && (net.Other? ==> RecvResult(net.io) && !net.io.Received?)
      modifies this`view, this`all, this`epolls, d`length, d.buf
      ensures old(all) <= all && forall k :: |old(all)| <= k < |all| ==> fresh(all[k]) && fresh(all[k].buf)
      ensures Valid() && Means(net, io, routes) && RecvResult(io)
      ensures HttpServerSpec.Receive(old(view), w, d.id, io) == Some(view)
    {
      hide Answer;
      match net
      case Bytes(bytes, handler) => io := Serve(w, d, bytes, handler);
      case Other(other) =>
        assert DataOk(d.id);
        io := other;
        ReceiveKeepsInv(view, w, d.fd, d.id, io);
        if other == Again {
          Control(w, d.fd, false, d);
        } else {
          End(w, d, if other == Zero then ClientClosed else Failed);
        }
    }

    /** The bytes that `send` took are noted in the record. */
    method Sent(d: EventData, n: nat)
      requires Tied() && Known(d) && n <= d.length
      modifies this`view, d`cursor, d`length
      ensures Tied() && d.id < |old(view).data| && n <= old(view).data[d.id].length
      ensures var e := old(view).data[d.id];
              view == old(view).(data := old(view).data[d.id := e.(cursor := e.cursor + n, length := e.length - n)])
    {
      assert DataOk(d.id);
      d.cursor := d.cursor + n;
      d.length := d.length - n;
      forall k | 0 <= k < |all| && k != d.id ensures DataOk(k) {
        assert old(DataOk(k));
      }
      Note(d);
    }

    /** The other half of `HandleEpollEvent`. */
    method Transmit(w: nat, d: EventData, io: Io)
      requires Tied() && Known(d) && Current(view, w, d.fd, d.id) && view.epolls[w][d.fd].out
      requires SendResult(d.length, io)
      modifies this`view, this`all, this`epolls, d`cursor, d`length
      ensures old(all) <= all && forall k :: |old(all)| <= k < |all| ==> fresh(all[k]) && fresh(all[k].buf)
      ensures Valid() && HttpServerSpec.Transmit(old(view), w, d.id, io) == Some(view)
    {
      assert DataOk(d.id);
      ghost var s, fd := view, d.fd;
      TransmitKeepsInv(s, w, fd, d.id, io);
      match io
      case Sent(n) =>
        hide Inv, DataOk, EpollOk, BatchTied;
        Sent(d, n);
        Control(w, d.fd, true, d);
        Adopt(HttpServerSpec.Transmit(s, w, d.id, io).value);
      case Zero =>
        if d.keepAlive {
          hide Inv, DataOk, EpollOk, BatchTied;
          var request := Allocate(d.fd);
          Control(w, d.fd, false, request);
          Adopt(HttpServerSpec.Transmit(s, w, d.id, io).value);
        } else {
          End(w, d, Completed);
        }
      case Again => Control(w, d.fd, true, d);
      case Broken => End(w, d, Failed);
    }

    /** What the kernel may answer about an event. */
    ghost predicate NetPossible(e: EpollEvent, net: Net)
      reads this
    {
      && (!e.mask.hup && e.mask.inn ==> NetFits(net, routes) && (net.Other? ==>
          RecvResult(net.io) && !net.io.Received?))
      && (!e.mask.hup && !e.mask.inn && e.mask.out ==>
            net.Other? && e.data.id < |view.data| && SendResult(view.data[e.data.id].length, net.io))
    }

    /** Takes the next event of the batch. */
    method Take(w: nat) returns (e: EpollEvent)
      requires Valid() && w < WORKERS && events[w] != []
      modifies this`events, this`view
      ensures e == old(events[w][0]) && old(view).batches[w] != [] && view == Taken(old(view), w)
      ensures Tied() && Known(e.data) && old(view).batches[w][0] == Ready(e.mask, e.data.id)
      ensures events[w] == old(events[w])[1..]
    {
      assert BatchTied(w);
      e := events[w][0];
      events := events[w := events[w][1..]];
      view := Taken(view, w);
      forall k | 0 <= k < |all| ensures DataOk(k) {
        assert old(DataOk(k));
      }
      forall v | 0 <= v < WORKERS ensures EpollOk(v) && BatchTied(v) {
        assert old(EpollOk(v)) && old(BatchTied(v));
      }
    }

    method HandleEpollEvent(w: nat, mask: Mask, d: EventData, net: Net) returns (ghost io: Io)
      requires Tied() && Known(d) && Current(view, w, d.fd, d.id) && !mask.hup && (mask.inn || mask.out)
      requires if view.epolls[w][d.fd].out then !mask.inn else !mask.out
      requires mask.inn ==> NetFits(net, routes) && (net.Other? ==> RecvResult(net.io) && !net.io.Received?)
      requires !mask.inn ==> net.Other? && SendResult(d.length, net.io)
      modifies this`view, this`all, this`epolls, d, d.buf
      ensures old(all) <= all && forall k :: |old(all)| <= k < |all| ==> fresh(all[k]) && fresh(all[k].buf)
      ensures Valid() && Means(net, io, routes) && (if mask.inn then RecvResult(io) else io == net.io)
      ensures HttpServerSpec.Dispatch(old(view), w, Ready(mask, d.id), io) == Some(view)
    {
      if mask.inn {
        io := Receive(w, d, net);
      } else {
        io := net.io;
        Transmit(w, d, net.io);
      }
      hide *;
    }

    /** One round of the loop in `EventLoop`: it touches only the record of its event. */
    method Dispatch(w: nat, net: Net) returns (ghost io: Io)
      requires Valid() && w < WORKERS && events[w] != [] && NetPossible(events[w][0], net)
      modifies this`view, this`all, this`epolls, this`events, events[w][0].data, events[w][0].data.buf
      ensures Valid() && Possible(old(view), Handle(w, io)) && Step(old(view), Handle(w, io)) == Some(view)
      ensures var e := old(events[w][0]);
              !e.mask.hup && (e.mask.inn || e.mask.out) ==> Means(net, io, routes)
      ensures io.Received? ==> net.Bytes? && Means(net, io, routes)
      ensures events[w] == old(events[w])[1..] && old(all) <= all
      ensures forall k :: |old(all)| <= k < |all| ==> fresh(all[k]) && fresh(all[k].buf)
    {
      ghost var s := view;
      assert BatchTied(w);
      TakenIsCurrent(s, w);
      var e := Take(w);
      assert DataOk(e.data.id);
      assert e.data.fd == s.data[e.data.id].fd && e.data.length == s.data[e.data.id].length;
      hide Tied, Inv, Current, DataOk, NetFits, Answer, EndConn, HttpServerSpec.Receive, HttpServerSpec.Transmit;
      if !e.mask.hup && (e.mask.inn || e.mask.out) {
        io := HandleEpollEvent(w, e.mask, e.data, net);
      } else {
        io := Again;
        HandleKeepsInv(s, w, io);
        End(w, e.data, Failed);
      }
      assert io.Received? ==> net.Bytes?;
      hide Step, NetPossible, Means;
      HandleIs(s, w, io);
    }

    lemma RegisteredAs(w: nat, fd: int)
      requires w < |epolls| && EpollOk(w) && fd in view.epolls[w]
      ensures fd in epolls[w] && Known(epolls[w][fd].data)
      ensures view.epolls[w][fd] == Reg(epolls[w][fd].out, epolls[w][fd].data.id)
    {
      assert fd in view.epolls[w].Keys;
      assert fd in epolls[w];
    }

    /** `epoll_wait`. */
    method EpollWait(w: nat, ready: seq<(int, Mask)>)
      requires Valid() && Possible(view, Wait(w, ready))
      modifies this`events, this`view
      ensures Valid() && Step(old(view), Wait(w, ready)) == Some(view) && (old(Truthful()) ==> Truthful())
      ensures |events[w]| == |ready| && forall i :: 0 <= i < |ready| ==>
                events[w][i].mask == ready[i].1 && ready[i].0 in epolls[w]
                    && events[w][i].data == epolls[w][ready[i].0].data
    {
      WaitKeepsInv(view, w, ready);
      assert EpollOk(w);
      var epoll := epolls[w];
      forall i | 0 <= i < |ready| ensures ready[i].0 in epoll && Known(epoll[ready[i].0].data) {
        RegisteredAs(w, ready[i].0);
      }
      events := events[w := seq(|ready|, i requires 0 <= i < |ready| => EpollEvent(ready[i].1,
          epoll[ready[i].0].data))];
      view := Step(view, Wait(w, ready)).value;
      forall k | 0 <= k < |all| ensures DataOk(k) {
        assert old(DataOk(k));
      }
      forall v | 0 <= v < WORKERS ensures EpollOk(v) {
        assert old(EpollOk(v));
      }
      forall v | 0 <= v < WORKERS ensures BatchTied(v) {
        assert old(BatchTied(v));
        if v == w {
          assert view.batches[w] == Batch(old(view).epolls[w], ready);
          forall i | 0 <= i < |ready| ensures view.batches[w][i] == Ready(events[w][i].mask, events[w][i].data.id) {
            RegisteredAs(w, ready[i].0);
          }
        }
      }
    }

    /** The loop over a batch in `EventLoop` is a run of the specification, one step an event. */
    method HandleBatch(w: nat, nets: seq<Net>) returns (ghost ios: seq<Io>)
      requires Valid() && w < WORKERS && |nets| == |events[w]|
      requires forall i :: 0 <= i < |nets| ==> NetPossible(events[w][i], nets[i])
      modifies this, all, set d | d in all :: d.buf
      ensures Valid() && |ios| == |nets| && events[w] == []
      ensures Feasible(old(view), Handles(w, ios)) && Run(old(view), Handles(w, ios)) == Some(view)
      ensures old(Truthful()) ==> Truthful()
    {
      ios := [];
      ghost var batch := events[w];
      for i := 0 to |nets|
        invariant Valid() && |ios| == i && events[w] == batch[i..] && (old(Truthful()) ==> Truthful())
        invariant forall k :: 0 <= k < |all| ==> all[k] in old(all) || (fresh(all[k]) && fresh(all[k].buf))
        invariant forall j :: i <= j < |nets| ==> NetPossible(batch[j], nets[j])
        invariant Feasible(old(view), Handles(w, ios)) && Run(old(view), Handles(w, ios)) == Some(view)
      {
        HeadKnown(w);
        hide *;
        assert all[batch[i].data.id] == batch[i].data;
        ghost var s := view;
        ghost var io := DispatchOne(w, nets[i], nets[i + 1..]);
        HandledOneMore(old(view), w, ios, io, view);
        ios := ios + [io];
        forall j | i + 1 <= j < |nets| ensures NetPossible(batch[j], nets[j]) {
          assert events[w][j - i - 1] == batch[j] && nets[i + 1..][j - i - 1] == nets[j];
        }
      }
    }

    lemma HeadKnown(w: nat)
      requires Valid() && w < WORKERS && events[w] != []
      ensures Known(events[w][0].data)
    {
      assert BatchTied(w) && ListsOk();
    }

    /** `Dispatch` does not change what the kernel may answer about the events that follow. */
    method DispatchOne(w: nat, net: Net, ghost nets: seq<Net>) returns (ghost io: Io)
      requires Valid() && w < WORKERS && events[w] != [] && NetPossible(events[w][0], net)
      requires |nets| == |events[w]| - 1 && forall i :: 0 <= i < |nets| ==> NetPossible(events[w][i + 1], nets[i])
      modifies this`view, this`all, this`epolls, this`events, events[w][0].data, events[w][0].data.buf
      ensures Valid() && Possible(old(view), Handle(w, io)) && Step(old(view), Handle(w, io)) == Some(view)
      ensures events[w] == old(events[w])[1..] && old(all) <= all
      ensures forall k :: |old(all)| <= k < |all| ==> fresh(all[k]) && fresh(all[k].buf)
      ensures forall i :: 0 <= i < |nets| ==> NetPossible(events[w][i], nets[i])
      ensures old(Truthful()) ==> Truthful()
    {
      DistinctEvents(w);
      ghost var s, batch := view, events[w];
      hide Inv, Answer, NetFits, EpollOk, DataOk, BatchTied;
      assert s.batches[w] != [] && s.batches[w][0].ptr == batch[0].data.id;
      hide Tied, Step, Possible;
      io := Dispatch(w, net);
      forall i | 0 <= i < |nets| ensures NetPossible(events[w][i], nets[i]) {
        HandleLeavesOthers(s, w, io, batch[i + 1].data.id);
      }
      MeansAnswers(net, io, w, routes);
      if AllPaired(s, Answerer(routes)) {
        hide *;
        StepKeepsPaired(s, Handle(w, io), Answerer(routes));
      }
    }

    lemma DistinctEvents(w: nat)
      requires Valid() && w < WORKERS
      ensures forall i, j :: 0 <= i < j < |events[w]| ==> events[w][i].data.id != events[w][j].data.id
      ensures |view.batches[w]| == |events[w]|
      ensures forall i :: 0 <= i < |events[w]| ==> view.batches[w][i].ptr == events[w][i].data.id < |view.data|
    {
      assert BatchTied(w) && BatchOk(view, w);
      forall i | 0 <= i < |events[w]| ensures view.batches[w][i].ptr == events[w][i].data.id < |view.data| {
        assert ReadyOk(view, w, view.batches[w][i]);
      }
    }
  }

  lemma ListenKeepsPaired(s: Server, fd: int, answers: (string, string, bool) -> bool)
    requires Inv(s) && Possible(s, Accept(fd)) && AllPaired(s, answers)
    ensures var s1 := Step(s, Accept(fd)).value;
            && Inv(s1) && Possible(s1, Register) && Step(s1, Register).Some?
            && AllPaired(Step(s1, Register).value, answers)
  {
    StepKeepsInv(s, Accept(fd));
    StepKeepsPaired(s, Accept(fd), answers);
    var s1 := Step(s, Accept(fd)).value;
    StepKeepsInv(s1, Register);
    StepKeepsPaired(s1, Register, answers);
  }

  lemma HandledOneMore(s: Server, w: nat, ios: seq<Io>, io: Io, u: Server)
    requires Inv(s) && Feasible(s, Handles(w, ios)) && Run(s, Handles(w, ios)).Some?
    requires var t := Run(s, Handles(w, ios)).value;
             Inv(t) && Possible(t, Handle(w, io)) && Step(t, Handle(w, io)) == Some(u)
    ensures Feasible(s, Handles(w, ios + [io])) && Run(s, Handles(w, ios + [io])) == Some(u)
  {
    RunOneMore(s, Handles(w, ios), Handle(w, io), u);
    assert Handles(w, ios + [io]) == Handles(w, ios) + [Handle(w, io)];
  }

  ghost function Handles(w: nat, ios: seq<Io>): seq<Label> {
    seq(|ios|, i requires 0 <= i < |ios| => Handle(w, ios[i]))
  }
}
