/**
  The HTTP server without coroutines as a state machine over values: the listener and the five
  workers of src/http_server.cc, with the kernel's answers as labels. An `EventData` is named by the
  order in which it was allocated.
 */
module HttpServerSpec {
  import opened Arithmetic
  import opened Common

  const WORKERS: nat := 5
  const BUFFER_SIZE: nat := 4096

  datatype Event = Event(fd: int, length: nat, cursor: nat, buf: string, keepAlive: bool)

  /** What `epoll_ctl` has been told about a socket: EPOLLOUT or EPOLLIN, and the pointer. */
  datatype Reg = Reg(out: bool, ptr: nat)

  /** The flags of an `epoll_event`; `hup` stands for EPOLLHUP or EPOLLERR. */
  datatype Mask = Mask(hup: bool, inn: bool, out: bool)

  datatype Ready = Ready(mask: Mask, ptr: nat)

  /** An open connection: the worker it is registered with, the requests received on it so far, the
      responses generated for them, whether each request asked to keep the connection, and the bytes
      sent on it so far. */
  datatype Conn = Conn(worker: Option<nat>, requests: seq<string>, responses: seq<string>, asked: seq<bool>, sent: string)

  datatype Ending = Completed | ClientClosed | Failed

  /** `live` are the `EventData` not deleted yet; `batches` is what each worker has got from
      `epoll_wait` and not looked at yet; `accepted` is the socket that the listener has accepted and
      not registered yet; the keys of `conns` are the open sockets. */
  datatype Server = Server(data: seq<Event>, live: set<nat>, epolls: seq<map<int, Reg>>, batches: seq<seq<Ready>>,
                           accepted: Option<int>, workerIdx: nat, conns: map<int, Conn>, ended: seq<(Conn, Ending)>)

  const START := Server([], {}, seq(WORKERS, _ => map[]), seq(WORKERS, _ => []), None, 0, map[], [])

  /** The outcome of `recv` or `send`. A received request comes with the response that the handlers
      generate for it, and with its keep-alive flag. */
  datatype Io = Received(bytes: string, reply: string, keepAlive: bool) | Sent(n: nat) | Zero | Again | Broken

  datatype Label = Accept(fd: int) | Register | Wait(w: nat, ready: seq<(int, Mask)>) | Handle(w: nat, io: Io)

  function Zeros(n: nat): (s: string)
    ensures |s| == n
  {
    seq(n, _ => '\0')
  }

  function NewRequest(fd: int): Event {
    Event(fd, 0, 0, Zeros(BUFFER_SIZE), true)
  }

  function NewResponse(fd: int, reply: string, keepAlive: bool): Event
    requires |reply| <= BUFFER_SIZE
  {
    Event(fd, |reply|, 0, reply + Zeros(BUFFER_SIZE - |reply|), keepAlive)
  }

  /** EPOLL_CTL_DEL, `close` and `delete`. `None` stands for a failed `epoll_ctl`, or for a pointer
      that has been deleted before. */
  function EndConn(s: Server, w: nat, ptr: nat, ending: Ending): Option<Server>
    requires w < |s.epolls|
  {
    if ptr !in s.live || ptr >= |s.data| then None else
    var fd := s.data[ptr].fd;
    if fd !in s.epolls[w] || fd !in s.conns then None else
    Some(s.(epolls := s.epolls[w := s.epolls[w] - {fd}], conns := s.conns - {fd}, live := s.live - {ptr},
            ended := s.ended + [(s.conns[fd], ending)]))
  }

  /** EPOLL_CTL_MOD. */
  function Rearm(s: Server, w: nat, fd: int, reg: Reg): Option<Server>
    requires w < |s.epolls|
  {
    if fd !in s.epolls[w] then None else Some(s.(epolls := s.epolls[w := s.epolls[w][fd := reg]]))
  }

  function WithAnswer(c: Conn, bytes: string, reply: string, keepAlive: bool): Conn {
    c.(requests := c.requests + [bytes], responses := c.responses + [reply], asked := c.asked + [keepAlive])
  }

  /** The EPOLLIN half of `HandleEpollEvent`. The record of the request is not deleted. */
  function Receive(s: Server, w: nat, ptr: nat, io: Io): Option<Server>
    requires w < |s.epolls|
  {
    if ptr !in s.live || ptr >= |s.data| then None else
    var request := s.data[ptr];
    var fd := request.fd;
    match io
    case Received(bytes, reply, keepAlive) =>
      if |bytes| > |request.buf| || |reply| > BUFFER_SIZE || fd !in s.conns then None else
      var request' := request.(length := |bytes|, buf := bytes + request.buf[|bytes|..]);
      var conn := s.conns[fd];
      var s' := s.(data := s.data[ptr := request'] + [NewResponse(fd, reply, keepAlive)], live := s.live + {|s.data|},
                   conns := s.conns[fd := WithAnswer(conn, bytes, reply, keepAlive)]);
      Rearm(s', w, fd, Reg(true, |s.data|))
    case Zero => EndConn(s, w, ptr, ClientClosed)
    case Again => Rearm(s, w, fd, Reg(false, ptr))
    case _ => EndConn(s, w, ptr, Failed)
  }

  /** The other half: `send` has taken the next bytes of the response. */
  function Transmit(s: Server, w: nat, ptr: nat, io: Io): Option<Server>
    requires w < |s.epolls|
  {
    if ptr !in s.live || ptr >= |s.data| then None else
    var response := s.data[ptr];
    var fd := response.fd;
    match io
    case Sent(n) =>
      if n > response.length || response.cursor + n > |response.buf| || fd !in s.conns then None else
      var conn := s.conns[fd];
      var s' := s.(data := s.data[ptr := response.(cursor := response.cursor + n, length := response.length - n)],
                   conns := s.conns[fd := conn.(sent := conn.sent + response.buf[response.cursor..response.cursor + n])]);
      Rearm(s', w, fd, Reg(true, ptr))
    case Zero =>
      if response.keepAlive then
        Rearm(s.(data := s.data + [NewRequest(fd)], live := s.live - {ptr} + {|s.data|}), w, fd, Reg(false, |s.data|))
      else
        EndConn(s, w, ptr, Completed)
    case Again => Rearm(s, w, fd, Reg(true, ptr))
    case _ => EndConn(s, w, ptr, Failed)
  }

  /** One round of the loop in `EventLoop`. */
  function Dispatch(s: Server, w: nat, e: Ready, io: Io): Option<Server>
    requires w < |s.epolls|
  {
    if e.mask.hup then EndConn(s, w, e.ptr, Failed)
    else if e.mask.inn then Receive(s, w, e.ptr, io)
    else if e.mask.out then Transmit(s, w, e.ptr, io)
    else EndConn(s, w, e.ptr, Failed)
  }

  /** The events of `epoll_wait` for registered sockets. */
  function Batch(epoll: map<int, Reg>, ready: seq<(int, Mask)>): (r: seq<Ready>)
    requires forall i :: 0 <= i < |ready| ==> ready[i].0 in epoll
    ensures |r| == |ready| && forall i :: 0 <= i < |r| ==> r[i] == Ready(ready[i].1, epoll[ready[i].0].ptr)
  {
    seq(|ready|, i requires 0 <= i < |ready| => Ready(ready[i].1, epoll[ready[i].0].ptr))
  }

  /** What the kernel promises: descriptors in use are not handed out again, `epoll_wait` reports
      each registered socket at most once and only what it is registered for (or a hangup), `recv` and
      `send` stay within their buffers, and `send` takes nothing only if there is nothing to send.
      Besides, responses fit into the buffer. */
  predicate Possible(s: Server, l: Label)
    requires |s.epolls| == |s.batches| == WORKERS
  {
    match l
    case Accept(fd) => fd >= 0 && s.accepted == None && fd !in s.conns
    case Register => s.accepted.Some?
    case Wait(w, ready) =>
      w < WORKERS && s.batches[w] == [] && Reported(s.epolls[w], ready)
    case Handle(w, io) =>
      && w < WORKERS && s.batches[w] != []
      && var e := s.batches[w][0];
      && (e.ptr < |s.data| && !e.mask.hup && e.mask.inn ==> RecvResult(io))
      && (e.ptr < |s.data| && !e.mask.hup && !e.mask.inn && e.mask.out ==> SendResult(s.data[e.ptr].length, io))
  }

  predicate Reported(epoll: map<int, Reg>, ready: seq<(int, Mask)>) {
    && (forall i :: 0 <= i < |ready| ==> ready[i].0 in epoll)
    && (forall i :: 0 <= i < |ready| ==> if epoll[ready[i].0].out then !ready[i].1.inn else !ready[i].1.out)
    && (forall i, j :: 0 <= i < j < |ready| ==> ready[i].0 != ready[j].0)
  }

  predicate RecvResult(io: Io) {
    match io
    case Received(bytes, reply, _) => 0 < |bytes| <= BUFFER_SIZE && |reply| <= BUFFER_SIZE
    case Sent(_) => false
    case _ => true
  }

  predicate SendResult(length: nat, io: Io) {
    match io
    case Received(_, _, _) => false
    case Sent(n) => 0 < n <= length
    case Zero => length == 0
    case _ => true
  }

  function Step(s: Server, l: Label): Option<Server>
    requires |s.epolls| == |s.batches| == WORKERS && s.workerIdx < WORKERS && Possible(s, l)
  {
    match l
    case Accept(fd) => Some(s.(accepted := Some(fd), conns := s.conns[fd := Conn(None, [], [], [], "")]))
    case Register =>
      var fd, w := s.accepted.value, s.workerIdx;
      if fd in s.epolls[w] || fd !in s.conns then None else
      Some(s.(data := s.data + [NewRequest(fd)], live := s.live + {|s.data|},
              epolls := s.epolls[w := s.epolls[w][fd := Reg(false, |s.data|)]],
              accepted := None, workerIdx := (w + 1) % WORKERS,
              conns := s.conns[fd := s.conns[fd].(worker := Some(w))]))
    case Wait(w, ready) => Some(s.(batches := s.batches[w := Batch(s.epolls[w], ready)]))
    case Handle(w, io) =>
      Dispatch(s.(batches := s.batches[w := s.batches[w][1..]]), w, s.batches[w][0], io)
  }

  // ----- the invariant -----

  function Concat(rs: seq<string>): string {
    if rs == [] then "" else Concat(rs[..|rs| - 1]) + rs[|rs| - 1]
  }

  /** The first `n` requests asked to keep the connection. */
  ghost predicate AskedFirst(c: Conn, n: nat) {
    |c.asked| == |c.responses| && n <= |c.asked| && forall i :: 0 <= i < n ==> c.asked[i]
  }

  /** Between responses everything has been sent, and everybody asked to stay. */
  ghost predicate ReadingOk(e: Event, c: Conn) {
    c.sent == Concat(c.responses) && AskedFirst(c, |c.responses|)
  }

  /** The current response is the last one; `cursor_` says how much of it has been sent, and
      `keep_alive_` whether its request asked to stay. */
  ghost predicate WritingOk(e: Event, c: Conn) {
    && c.responses != [] && AskedFirst(c, |c.responses| - 1) && e.keepAlive == c.asked[|c.responses| - 1]
    && var n := |c.responses| - 1;
    && var current := c.responses[n];
    && e.cursor + e.length == |current| <= |e.buf| && e.buf[..|current|] == current
    && c.sent == Concat(c.responses[..n]) + current[..e.cursor]
  }

  ghost predicate RegOk(s: Server, w: nat, fd: int)
    requires w < |s.epolls|
  {
    fd in s.epolls[w] ==>
      && fd in s.conns && s.conns[fd].worker == Some(w)
      && var reg := s.epolls[w][fd];
      && reg.ptr in s.live && reg.ptr < |s.data| && s.data[reg.ptr].fd == fd
      && |s.data[reg.ptr].buf| == BUFFER_SIZE
      && if reg.out then WritingOk(s.data[reg.ptr], s.conns[fd]) else ReadingOk(s.data[reg.ptr], s.conns[fd])
  }

  ghost predicate ConnOk(s: Server, fd: int)
    requires |s.epolls| == WORKERS
  {
    fd in s.conns ==>
      match s.conns[fd].worker
      case None =>
        s.accepted == Some(fd) && s.conns[fd].responses == [] && s.conns[fd].asked == [] && s.conns[fd].sent == ""
      case Some(w) => s.accepted != Some(fd) && w < WORKERS && fd in s.epolls[w]
  }

  /** An event that a worker has still to look at points to the record of a registered socket. */
  ghost predicate ReadyOk(s: Server, w: nat, e: Ready)
    requires w < |s.epolls|
  {
    && e.ptr in s.live && e.ptr < |s.data|
    && var fd := s.data[e.ptr].fd;
    && fd in s.epolls[w] && s.epolls[w][fd].ptr == e.ptr
    && if s.epolls[w][fd].out then !e.mask.inn else !e.mask.out
  }

  ghost predicate BatchOk(s: Server, w: nat)
    requires w < |s.epolls| && w < |s.batches|
  {
    && (forall i :: 0 <= i < |s.batches[w]| ==> ReadyOk(s, w, s.batches[w][i]))
    && (forall i, j :: 0 <= i < j < |s.batches[w]| ==> s.batches[w][i].ptr != s.batches[w][j].ptr)
  }

  /** All requests but the last have asked to stay, and the last one according to the ending: the server
      completes only connections whose last request did not ask, and the client closes only others. */
  ghost predicate StayOk(c: Conn, ending: Ending) {
    && |c.asked| == |c.responses|
    && (c.responses != [] ==> AskedFirst(c, |c.responses| - 1))
    && (ending == Completed ==> c.responses != [] && !c.asked[|c.asked| - 1])
    && (ending == ClientClosed ==> AskedFirst(c, |c.responses|))
  }

  ghost predicate EndingOk(c: Conn, ending: Ending) {
    c.sent <= Concat(c.responses) && (ending != Failed ==> c.sent == Concat(c.responses)) && StayOk(c, ending)
  }

  ghost predicate Inv(s: Server) {
    && |s.epolls| == |s.batches| == WORKERS && s.workerIdx < WORKERS
    && (forall p :: p in s.live ==> p < |s.data|)
    && (forall w, fd :: 0 <= w < WORKERS ==> RegOk(s, w, fd))
    && (forall fd :: ConnOk(s, fd))
    && (s.accepted.Some? ==> s.accepted.value in s.conns)
    && (forall w :: 0 <= w < WORKERS ==> BatchOk(s, w))
    && (forall i :: 0 <= i < |s.ended| ==> EndingOk(s.ended[i].0, s.ended[i].1))
  }

  lemma StartOk()
    ensures Inv(START)
  {
  }

  // ----- every step keeps it -----

  lemma AcceptKeepsInv(s: Server, fd: int)
    requires Inv(s) && Possible(s, Accept(fd))
    ensures Inv(Step(s, Accept(fd)).value)
  {
    var s' := Step(s, Accept(fd)).value;
    forall w, f | 0 <= w < WORKERS ensures RegOk(s', w, f) {
      assert RegOk(s, w, f);
    }
    forall f ensures ConnOk(s', f) {
      assert ConnOk(s, f);
    }
    forall w | 0 <= w < WORKERS ensures BatchOk(s', w) {
      assert BatchOk(s, w);
      forall i | 0 <= i < |s'.batches[w]| ensures ReadyOk(s', w, s'.batches[w][i]) {
        assert ReadyOk(s, w, s.batches[w][i]);
      }
    }
  }

  lemma RegisterKeepsInv(s: Server)
    requires Inv(s) && Possible(s, Register)
    ensures Step(s, Register).Some? && Inv(Step(s, Register).value)
  {
    var fd, w := s.accepted.value, s.workerIdx;
    assert ConnOk(s, fd) && RegOk(s, w, fd);
    var s' := Step(s, Register).value;
    forall v, f | 0 <= v < WORKERS ensures RegOk(s', v, f) {
      assert RegOk(s, v, f);
    }
    forall f ensures ConnOk(s', f) {
      assert ConnOk(s, f);
    }
    forall v | 0 <= v < WORKERS ensures BatchOk(s', v) {
      assert BatchOk(s, v);
      forall i | 0 <= i < |s'.batches[v]| ensures ReadyOk(s', v, s'.batches[v][i]) {
        assert ReadyOk(s, v, s.batches[v][i]);
        assert RegOk(s, v, fd);
      }
    }
  }

  lemma WaitKeepsInv(s: Server, w: nat, ready: seq<(int, Mask)>)
    requires Inv(s) && Possible(s, Wait(w, ready))
    ensures Inv(Step(s, Wait(w, ready)).value)
  {
    var s' := Step(s, Wait(w, ready)).value;
    forall v, f | 0 <= v < WORKERS ensures RegOk(s', v, f) {
      assert RegOk(s, v, f);
    }
    forall f ensures ConnOk(s', f) {
      assert ConnOk(s, f);
    }
    forall v | 0 <= v < WORKERS ensures BatchOk(s', v) {
      assert BatchOk(s, v);
      forall i | 0 <= i < |s'.batches[v]| ensures ReadyOk(s', v, s'.batches[v][i]) {
        if v == w { assert RegOk(s, w, ready[i].0); } else { assert ReadyOk(s, v, s.batches[v][i]); }
      }
      if v == w {
        forall i, j | 0 <= i < j < |ready| ensures s'.batches[w][i].ptr != s'.batches[w][j].ptr {
          assert RegOk(s, w, ready[i].0) && RegOk(s, w, ready[j].0);
        }
      }
    }
  }

  /** Two states that differ only in what concerns one socket of one worker, whose event has just
      been taken from the batch. */
  ghost predicate OnlyAt(s: Server, w: nat, fd: int, ptr: nat, s': Server)
    requires w < |s.epolls|
  {
    && |s'.epolls| == |s.epolls| && s'.batches == s.batches && s'.accepted == s.accepted && s'.workerIdx == s.workerIdx
    && |s.data| <= |s'.data|
    && (forall p :: p in s'.live ==> p < |s'.data|)
    && (forall p :: 0 <= p < |s.data| && p != ptr ==> s'.data[p] == s.data[p] && (p in s.live <==> p in s'.live))
    && (forall v :: 0 <= v < |s.epolls| && v != w ==> s'.epolls[v] == s.epolls[v])
    && (forall f :: f != fd ==> (f in s'.epolls[w] <==> f in s.epolls[w]))
    && (forall f :: f != fd ==> (f in s'.conns <==> f in s.conns))
    && (forall f :: f != fd && f in s.epolls[w] ==> s'.epolls[w][f] == s.epolls[w][f])
    && (forall f :: f != fd && f in s.conns ==> s'.conns[f] == s.conns[f])
  }

  /** The socket itself: registered with the same worker, or closed. */
  ghost predicate AtOk(s: Server, w: nat, fd: int)
    requires |s.epolls| == WORKERS && w < WORKERS
  {
    && RegOk(s, w, fd) && ConnOk(s, fd) && (fd in s.conns <==> fd in s.epolls[w])
    && s.accepted != Some(fd)
  }

  lemma OnlyAtKeepsInv(s: Server, w: nat, fd: int, ptr: nat, s': Server)
    requires Inv(s) && w < WORKERS && fd in s.epolls[w] && s.epolls[w][fd].ptr == ptr && ptr < |s.data|
        && s.data[ptr].fd == fd
    requires forall i :: 0 <= i < |s.batches[w]| ==> s.batches[w][i].ptr != ptr
    requires OnlyAt(s, w, fd, ptr, s') && AtOk(s', w, fd)
    requires forall i :: 0 <= i < |s'.ended| ==> EndingOk(s'.ended[i].0, s'.ended[i].1)
    ensures Inv(s')
  {
    hide WritingOk, ReadingOk, EndingOk;
    assert RegOk(s, w, fd);
    forall v, f | 0 <= v < WORKERS ensures RegOk(s', v, f) {
      assert RegOk(s, v, f);
    }
    forall f ensures ConnOk(s', f) {
      assert ConnOk(s, f);
    }
    forall v | 0 <= v < WORKERS ensures BatchOk(s', v) {
      assert BatchOk(s, v);
      forall i | 0 <= i < |s'.batches[v]| ensures ReadyOk(s', v, s'.batches[v][i]) {
        assert RegOk(s, v, fd);
        OtherEvent(s, w, fd, ptr, s', v, s.batches[v][i]);
      }
    }
    if s.accepted.Some? {
      assert s.accepted.value != fd && s.accepted.value in s'.conns;
    }
  }

  lemma OtherEvent(s: Server, w: nat, fd: int, ptr: nat, s': Server, v: nat, e: Ready)
    requires |s.epolls| == WORKERS && w < WORKERS && v < WORKERS
    requires fd in s.epolls[w] && s.epolls[w][fd].ptr == ptr && ptr < |s.data| && s.data[ptr].fd == fd
    requires RegOk(s, w, fd) && RegOk(s, v, fd) && ReadyOk(s, v, e) && (v == w ==> e.ptr != ptr)
    requires OnlyAt(s, w, fd, ptr, s')
    ensures ReadyOk(s', v, e)
  {
    hide WritingOk, ReadingOk;
  }

  /** The state in which a worker has taken the first event of its batch. */
  function Taken(s: Server, w: nat): Server
    requires w < |s.batches| && s.batches[w] != []
  {
    s.(batches := s.batches[w := s.batches[w][1..]])
  }

  /** What is known about the event taken: its pointer is live, and registered for its socket. */
  ghost predicate Current(s: Server, w: nat, fd: int, ptr: nat) {
    && Inv(s) && w < WORKERS && ptr in s.live && ptr < |s.data| && s.data[ptr].fd == fd
    && fd in s.epolls[w] && s.epolls[w][fd].ptr == ptr && fd in s.conns && s.conns[fd].worker == Some(w)
    && s.accepted != Some(fd)
    && |s.data[ptr].buf| == BUFFER_SIZE
    && (forall i :: 0 <= i < |s.batches[w]| ==> s.batches[w][i].ptr != ptr)
    && if s.epolls[w][fd].out then WritingOk(s.data[ptr], s.conns[fd]) else ReadingOk(s.data[ptr], s.conns[fd])
  }

  lemma TakenIsCurrent(s: Server, w: nat)
    requires Inv(s) && w < WORKERS && s.batches[w] != []
    ensures var e := s.batches[w][0];
            && e.ptr < |s.data| && var fd := s.data[e.ptr].fd;
            && Current(Taken(s, w), w, fd, e.ptr)
            && if s.epolls[w][fd].out then !e.mask.inn else !e.mask.out
  {
    var s', e := Taken(s, w), s.batches[w][0];
    assert BatchOk(s, w) && ReadyOk(s, w, e);
    var fd := s.data[e.ptr].fd;
    assert RegOk(s, w, fd) && ConnOk(s, fd);
    hide WritingOk, ReadingOk, EndingOk;
    forall v, f | 0 <= v < WORKERS ensures RegOk(s', v, f) {
      assert RegOk(s, v, f);
    }
    forall f ensures ConnOk(s', f) {
      assert ConnOk(s, f);
    }
    forall v | 0 <= v < WORKERS ensures BatchOk(s', v) {
      assert BatchOk(s, v);
      forall i | 0 <= i < |s'.batches[v]| ensures ReadyOk(s', v, s'.batches[v][i]) {
        assert ReadyOk(s, v, s.batches[v][if v == w then i + 1 else i]);
      }
    }
  }

  lemma EndKeepsInv(s: Server, w: nat, fd: int, ptr: nat, ending: Ending)
    requires Current(s, w, fd, ptr) && EndingOk(s.conns[fd], ending)
    ensures EndConn(s, w, ptr, ending).Some? && Inv(EndConn(s, w, ptr, ending).value)
  {
    hide WritingOk, ReadingOk, EndingOk;
    OnlyAtKeepsInv(s, w, fd, ptr, EndConn(s, w, ptr, ending).value);
  }

  /** A response under way is a prefix of the responses. */
  lemma SentPrefix(e: Event, c: Conn)
    requires WritingOk(e, c) || ReadingOk(e, c)
    ensures EndingOk(c, Failed) && (ReadingOk(e, c) ==> EndingOk(c, ClientClosed))
    ensures WritingOk(e, c) && e.length == 0 ==> c.sent == Concat(c.responses)
    ensures WritingOk(e, c) && e.length == 0 && !e.keepAlive ==> EndingOk(c, Completed)
    ensures WritingOk(e, c) && e.length == 0 && e.keepAlive ==> ReadingOk(e, c)
  {
    if WritingOk(e, c) {
      var n := |c.responses| - 1;
      assert e.length == 0 ==> c.responses[n][..e.cursor] == c.responses[n];
    }
  }

  /** The new response is under way with no bytes sent. */
  lemma ResponseStarts(c: Conn, fd: int, bytes: string, reply: string, keepAlive: bool)
    requires c.sent == Concat(c.responses) && AskedFirst(c, |c.responses|) && |reply| <= BUFFER_SIZE
    ensures WritingOk(NewResponse(fd, reply, keepAlive), WithAnswer(c, bytes, reply, keepAlive))
  {
    assert (c.responses + [reply])[..|c.responses|] == c.responses;
    assert c.sent == Concat(c.responses) + reply[..0];
  }

  lemma ReceiveKeepsInv(s: Server, w: nat, fd: int, ptr: nat, io: Io)
    requires Current(s, w, fd, ptr) && !s.epolls[w][fd].out && RecvResult(io)
    ensures Receive(s, w, ptr, io).Some? && Inv(Receive(s, w, ptr, io).value)
  {
    var e, c := s.data[ptr], s.conns[fd];
    SentPrefix(e, c);
    match io
    case Received(bytes, reply, keepAlive) =>
      ResponseStarts(c, fd, bytes, reply, keepAlive);
      hide WritingOk, ReadingOk, EndingOk;
      OnlyAtKeepsInv(s, w, fd, ptr, Receive(s, w, ptr, io).value);
    case Again =>
      hide WritingOk, ReadingOk, EndingOk;
      OnlyAtKeepsInv(s, w, fd, ptr, Receive(s, w, ptr, io).value);
    case Zero => EndKeepsInv(s, w, fd, ptr, ClientClosed);
    case Broken => EndKeepsInv(s, w, fd, ptr, Failed);
  }

  /** What a received request changes, piece by piece. */
  lemma AfterReceived(s: Server, w: nat, fd: int, ptr: nat, io: Io)
    requires Current(s, w, fd, ptr) && RecvResult(io) && io.Received?
    ensures var r := Receive(s, w, ptr, io);
            var e := s.data[ptr];
            && r.Some? && r.value.batches == s.batches && r.value.workerIdx == s.workerIdx
            && |e.buf| == BUFFER_SIZE && |io.bytes| <= BUFFER_SIZE && |io.reply| <= BUFFER_SIZE
            && r.value.data == s.data[ptr := e.(length := |io.bytes|, buf := io.bytes + e.buf[|io.bytes|..])]
                               + [NewResponse(fd, io.reply, io.keepAlive)]
            && r.value.epolls == s.epolls[w := s.epolls[w][fd := Reg(true, |s.data|)]]
  {
  }

  lemma SendAdvances(e: Event, c: Conn, n: nat)
    requires WritingOk(e, c) && n <= e.length
    ensures e.cursor + n <= |e.buf|
    ensures WritingOk(e.(cursor := e.cursor + n, length := e.length - n),
        c.(sent := c.sent + e.buf[e.cursor..e.cursor + n]))
  {
    var current := c.responses[|c.responses| - 1];
    SliceOfPrefix(e.buf, |current|, e.cursor, e.cursor + n);
    assert current[..e.cursor + n] == current[..e.cursor] + current[e.cursor..e.cursor + n];
  }

  lemma SliceOfPrefix(s: string, k: nat, i: nat, j: nat)
    requires i <= j <= k <= |s|
    ensures s[..k][i..j] == s[i..j]
  {
  }

  lemma SendKeepsInv(s: Server, w: nat, fd: int, ptr: nat, n: nat)
    requires Current(s, w, fd, ptr) && s.epolls[w][fd].out && 0 < n <= s.data[ptr].length
    ensures Transmit(s, w, ptr, Sent(n)).Some? && Inv(Transmit(s, w, ptr, Sent(n)).value)
  {
    SendAdvances(s.data[ptr], s.conns[fd], n);
    hide WritingOk, ReadingOk, EndingOk;
    OnlyAtKeepsInv(s, w, fd, ptr, Transmit(s, w, ptr, Sent(n)).value);
  }

  lemma TransmitKeepsInv(s: Server, w: nat, fd: int, ptr: nat, io: Io)
    requires Current(s, w, fd, ptr) && s.epolls[w][fd].out && SendResult(s.data[ptr].length, io)
    ensures Transmit(s, w, ptr, io).Some? && Inv(Transmit(s, w, ptr, io).value)
  {
    var e, c := s.data[ptr], s.conns[fd];
    SentPrefix(e, c);
    match io
    case Sent(n) => SendKeepsInv(s, w, fd, ptr, n);
    case Zero =>
      if e.keepAlive {
        assert ReadingOk(NewRequest(fd), c);
        hide WritingOk, ReadingOk, EndingOk;
        OnlyAtKeepsInv(s, w, fd, ptr, Transmit(s, w, ptr, io).value);
      } else {
        EndKeepsInv(s, w, fd, ptr, Completed);
      }
    case Again =>
      hide WritingOk, ReadingOk, EndingOk;
      OnlyAtKeepsInv(s, w, fd, ptr, Transmit(s, w, ptr, io).value);
    case Broken => EndKeepsInv(s, w, fd, ptr, Failed);
  }

  lemma HandleKeepsInv(s: Server, w: nat, io: Io)
    requires Inv(s) && Possible(s, Handle(w, io))
    ensures Step(s, Handle(w, io)).Some? && Inv(Step(s, Handle(w, io)).value)
  {
    TakenIsCurrent(s, w);
    var e := s.batches[w][0];
    var fd := s.data[e.ptr].fd;
    var t := Taken(s, w);
    if !e.mask.hup && e.mask.inn {
      ReceiveKeepsInv(t, w, fd, e.ptr, io);
    } else if !e.mask.hup && e.mask.out {
      TransmitKeepsInv(t, w, fd, e.ptr, io);
    } else {
      SentPrefix(t.data[e.ptr], t.conns[fd]);
      EndKeepsInv(t, w, fd, e.ptr, Failed);
    }
  }

  /** Whatever the kernel answers, no step uses or deletes an `EventData` that has been deleted, no
      `epoll_ctl` fails, and the invariant holds again. */
  lemma StepKeepsInv(s: Server, l: Label)
    requires Inv(s) && Possible(s, l)
    ensures Step(s, l).Some? && Inv(Step(s, l).value)
  {
    match l
    case Accept(fd) => AcceptKeepsInv(s, fd);
    case Register => RegisterKeepsInv(s);
    case Wait(w, ready) => WaitKeepsInv(s, w, ready);
    case Handle(w, io) => HandleKeepsInv(s, w, io);
  }

  lemma HandleIs(s: Server, w: nat, io: Io)
    requires |s.epolls| == |s.batches| == WORKERS && s.workerIdx < WORKERS && Possible(s, Handle(w, io))
    ensures Step(s, Handle(w, io)) == Dispatch(Taken(s, w), w, s.batches[w][0], io)
  {
  }

  /** Handling an event takes it from the batch, and changes no record but its own. */
  lemma HandleLeavesOthers(s: Server, w: nat, io: Io, p: nat)
    requires Inv(s) && Possible(s, Handle(w, io)) && p < |s.data| && p != s.batches[w][0].ptr
    ensures var r := Step(s, Handle(w, io));
            && r.Some? && |r.value.batches| == WORKERS && r.value.batches[w] == s.batches[w][1..]
            && p < |r.value.data| && r.value.data[p] == s.data[p]
  {
    HandleKeepsInv(s, w, io);
  }

  // ----- runs -----

  /** A run of the listener and the workers, interleaved in any way, that the kernel can produce. */
  ghost predicate Feasible(s: Server, ls: seq<Label>)
    requires |s.epolls| == |s.batches| == WORKERS && s.workerIdx < WORKERS
    decreases |ls|
  {
    ls != [] ==>
      && Possible(s, ls[0])
      && (Step(s, ls[0]).Some? ==>
            var s' := Step(s, ls[0]).value;
            |s'.epolls| == |s'.batches| == WORKERS && s'.workerIdx < WORKERS && Feasible(s', ls[1..]))
  }

  ghost function Run(s: Server, ls: seq<Label>): (r: Option<Server>)
    requires |s.epolls| == |s.batches| == WORKERS && s.workerIdx < WORKERS && Feasible(s, ls)
    decreases |ls|
  {
    if ls == [] then Some(s)
    else if Step(s, ls[0]) == None then None
    else Run(Step(s, ls[0]).value, ls[1..])
  }

  lemma {:induction false} RunKeepsInv(s: Server, ls: seq<Label>)
    requires Inv(s) && Feasible(s, ls)
    ensures Run(s, ls).Some? && Inv(Run(s, ls).value)
    decreases |ls|
  {
    if ls != [] {
      StepKeepsInv(s, ls[0]);
      hide Inv, Step, Possible;
      RunKeepsInv(Step(s, ls[0]).value, ls[1..]);
    }
  }

  lemma {:induction false} RunOneMore(s: Server, ls: seq<Label>, l: Label, u: Server)
    requires Inv(s) && Feasible(s, ls)
    requires Run(s, ls).Some? && Inv(Run(s, ls).value) && Possible(Run(s, ls).value, l)
        && Step(Run(s, ls).value, l) == Some(u)
    ensures Feasible(s, ls + [l]) && Run(s, ls + [l]) == Some(u)
    decreases |ls|
  {
    var more := ls + [l];
    if ls == [] {
      StepKeepsInv(s, l);
      assert more[0] == l && more[1..] == [];
    } else {
      StepKeepsInv(s, ls[0]);
      assert more[0] == ls[0] && more[1..] == ls[1..] + [l];
      var s' := Step(s, ls[0]).value;
      assert |s'.epolls| == |s'.batches| == WORKERS && s'.workerIdx < WORKERS;
      hide Inv, Step, Possible;
      RunOneMore(s', ls[1..], l, u);
    }
  }

  // ----- what holds in every reachable state -----

  ghost predicate Registered(s: Server, w: nat, fd: int)
    requires w < |s.epolls|
  {
    && fd in s.epolls[w]
    && var ptr := s.epolls[w][fd].ptr;
    && ptr in s.live && ptr < |s.data| && s.data[ptr].fd == fd
  }

  /** Every open socket, except one that the listener is just about to register, is registered with
      exactly one worker, with a pointer to a live record that carries it; closed sockets and that one
      are registered nowhere. */
  lemma RegistrationLiveness(ls: seq<Label>, fd: int)
    requires Feasible(START, ls)
    ensures Run(START, ls).Some?
    ensures var s := Run(START, ls).value;
            && |s.epolls| == WORKERS
            && (fd in s.conns && s.accepted != Some(fd) ==>
                  exists w ::
                    && 0 <= w < WORKERS && Registered(s, w, fd)
                    && forall v :: 0 <= v < WORKERS && fd in s.epolls[v] ==> v == w)
            && (fd !in s.conns || s.accepted == Some(fd) ==> forall v :: 0 <= v < WORKERS ==> fd !in s.epolls[v])
  {
    StartOk();
    RunKeepsInv(START, ls);
    var s := Run(START, ls).value;
    assert ConnOk(s, fd);
    forall v | 0 <= v < WORKERS && fd in s.epolls[v] ensures fd in s.conns && s.conns[fd].worker == Some(v) {
      assert RegOk(s, v, fd);
    }
    if fd in s.conns && s.accepted != Some(fd) {
      var w := s.conns[fd].worker.value;
      assert RegOk(s, w, fd);
      assert Registered(s, w, fd);
    }
  }

  /** The bytes sent on a connection are all responses but the last in order, and of the last one as
      much as `cursor_` says while it is being written, or else all. A connection that the server has
      completed, or the client has closed, has got every response whole. */
  lemma ClientSeesWholeResponses(ls: seq<Label>)
    requires Feasible(START, ls)
    ensures Run(START, ls).Some?
    ensures var s := Run(START, ls).value;
            && |s.epolls| == WORKERS
            && (forall w, fd :: 0 <= w < WORKERS && fd in s.epolls[w] ==>
                  && fd in s.conns && s.epolls[w][fd].ptr < |s.data|
                  && var c, e, n := s.conns[fd], s.data[s.epolls[w][fd].ptr], |s.conns[fd].responses| - 1;
                  if s.epolls[w][fd].out then
                    n >= 0 && e.cursor + e.length == |c.responses[n]|
                        && c.sent == Concat(c.responses[..n]) + c.responses[n][..e.cursor]
                  else
                    c.sent == Concat(c.responses))
            && (forall i :: 0 <= i < |s.ended| ==>
                  var (c, ending) := s.ended[i];
                  c.sent <= Concat(c.responses) && (ending != Failed ==> c.sent == Concat(c.responses)))
  {
    StartOk();
    RunKeepsInv(START, ls);
    var s := Run(START, ls).value;
    forall w, fd | 0 <= w < WORKERS && fd in s.epolls[w] ensures RegOk(s, w, fd) {
    }
    forall i | 0 <= i < |s.ended| ensures EndingOk(s.ended[i].0, s.ended[i].1) {
    }
  }

  /** In every run: a connection is registered for EPOLLIN again only if all its requests so far have asked to
      stay; and of the requests of an ended connection all but the last have asked, and the last one has not
      if the server completed the connection, and has if the client closed it. */
  lemma KeepAliveDecides(ls: seq<Label>)
    requires Feasible(START, ls)
    ensures Run(START, ls).Some?
    ensures var s := Run(START, ls).value;
            && |s.epolls| == WORKERS
            && (forall w, fd :: 0 <= w < WORKERS && fd in s.epolls[w] ==>
                  && fd in s.conns && |s.conns[fd].asked| == |s.conns[fd].responses|
                  && var n := |s.conns[fd].asked| - if s.epolls[w][fd].out then 1 else 0;
                  n >= 0 && forall i :: 0 <= i < n ==> s.conns[fd].asked[i])
            && (forall i :: 0 <= i < |s.ended| ==>
                  var (c, ending) := s.ended[i];
                  var n := |c.asked|;
                  && n == |c.responses| && (forall j :: 0 <= j < n - 1 ==> c.asked[j])
                  && (ending == Completed ==> n > 0 && !c.asked[n - 1])
                  && (ending == ClientClosed && n > 0 ==> c.asked[n - 1]))
  {
    StartOk();
    RunKeepsInv(START, ls);
    var s := Run(START, ls).value;
    forall w, fd | 0 <= w < WORKERS && fd in s.epolls[w] ensures RegOk(s, w, fd) {
    }
    forall i | 0 <= i < |s.ended| ensures StayOk(s.ended[i].0, s.ended[i].1) {
      assert EndingOk(s.ended[i].0, s.ended[i].1);
    }
  }

  /** How an event ends its connection: a hangup, or flags that nobody asked for, `recv` of nothing, `send` of
      nothing for a request that did not ask to stay, and errors. */
  function EndingOf(mask: Mask, io: Io, asked: bool): Option<Ending> {
    if mask.hup || (!mask.inn && !mask.out) then Some(Failed)
    else if io == Broken then Some(Failed)
    else if mask.inn && io == Zero then Some(ClientClosed)
    else if !mask.inn && io == Zero && !asked then Some(Completed)
    else None
  }

  ghost predicate LastAsked(c: Conn) {
    c.asked != [] && c.asked[|c.asked| - 1]
  }

  /** What every event does to its connection, in every state that meets the invariant: it is closed exactly if `EndingOf` says
      so, with the requests and responses it had; else it stays with its worker, and waits for EPOLLOUT if a
      request was received, or `send` took some of the response or none of it for now, and for EPOLLIN if
      there was nothing to receive yet, or the response was complete. */
  lemma EventDecides(s: Server, w: nat, io: Io)
    requires Inv(s) && Possible(s, Handle(w, io))
    ensures var e, r := s.batches[w][0], Step(s, Handle(w, io));
            && r.Some? && |r.value.epolls| == WORKERS && e.ptr < |s.data|
            && var s', fd := r.value, s.data[e.ptr].fd;
            && fd in s.conns && fd in s.epolls[w]
            && var ending := EndingOf(e.mask, io, LastAsked(s.conns[fd]));
            && (fd !in s'.conns <==> ending.Some?) && (fd !in s'.epolls[w] <==> ending.Some?)
            && s'.ended == s.ended + (if ending.Some? then [(s.conns[fd], ending.value)] else [])
            && (ending == None ==> (s'.epolls[w][fd].out <==> if e.mask.inn then io.Received? else io != Zero))
  {
    HandleKeepsInv(s, w, io);
    TakenIsCurrent(s, w);
    HandleIs(s, w, io);
    var e := s.batches[w][0];
    var fd := s.data[e.ptr].fd;
    var t := Taken(s, w);
    hide Inv, Step;
    assert t.conns == s.conns && t.epolls == s.epolls && t.ended == s.ended && t.data == s.data;
    AskedIsNoted(t, w, fd, e.ptr);
    EventOf(t, w, fd, e, io);
  }

  lemma AskedIsNoted(s: Server, w: nat, fd: int, ptr: nat)
    requires Current(s, w, fd, ptr)
    ensures s.epolls[w][fd].out ==> (s.data[ptr].keepAlive <==> LastAsked(s.conns[fd]))
  {
  }

  lemma EventOf(s: Server, w: nat, fd: int, e: Ready, io: Io)
    requires Current(s, w, fd, e.ptr) && (if s.epolls[w][fd].out then !e.mask.inn else !e.mask.out)
    requires !e.mask.hup && e.mask.inn ==> RecvResult(io)
    requires !e.mask.hup && !e.mask.inn && e.mask.out ==> SendResult(s.data[e.ptr].length, io)
    requires s.epolls[w][fd].out ==> (s.data[e.ptr].keepAlive <==> LastAsked(s.conns[fd]))
    ensures var r, ending := Dispatch(s, w, e, io), EndingOf(e.mask, io, LastAsked(s.conns[fd]));
            && r.Some? && |r.value.epolls| == |s.epolls|
            && (fd !in r.value.conns <==> ending.Some?) && (fd !in r.value.epolls[w] <==> ending.Some?)
            && r.value.ended == s.ended + (if ending.Some? then [(s.conns[fd], ending.value)] else [])
            && (ending == None ==> (r.value.epolls[w][fd].out <==> if e.mask.inn then io.Received? else io != Zero))
  {
    if !e.mask.hup && !e.mask.inn && e.mask.out {
      TransmitKeepsInv(s, w, fd, e.ptr, io);
    }
    hide Inv, WritingOk, ReadingOk, LastAsked;
  }

  /** The other connections, and what they wait for, are not touched. */
  lemma EventLeavesOthers(s: Server, w: nat, io: Io, f: int)
    requires Inv(s) && Possible(s, Handle(w, io)) && s.batches[w][0].ptr < |s.data| && f != s.data[s.batches[w][0].ptr].fd
    ensures var r := Step(s, Handle(w, io));
            && r.Some? && |r.value.epolls| == WORKERS && (f in r.value.conns <==> f in s.conns)
            && (f in s.conns ==> r.value.conns[f] == s.conns[f])
            && forall v :: 0 <= v < WORKERS ==>
                 && (f in r.value.epolls[v] <==> f in s.epolls[v])
                 && (f in s.epolls[v] ==> r.value.epolls[v][f] == s.epolls[v][f])
  {
    HandleKeepsInv(s, w, io);
    TakenIsCurrent(s, w);
    HandleIs(s, w, io);
    hide Inv, Step;
  }

  /** When a worker turns to an EPOLLOUT event, `send` can return 0, which leads to the next request or
      to an orderly close, exactly if the current response has been sent whole. When it turns to an
      EPOLLIN event, every response has been sent whole. */
  lemma CompletionExactlyWhenSent(ls: seq<Label>, w: nat)
    requires Feasible(START, ls)
    ensures Run(START, ls).Some? && Inv(Run(START, ls).value)
    ensures var s := Run(START, ls).value;
            w < WORKERS && s.batches[w] != [] && !s.batches[w][0].mask.hup ==>
              var e := s.batches[w][0];
              && e.ptr in s.live && e.ptr < |s.data| && s.data[e.ptr].fd in s.conns
              && var c := s.conns[s.data[e.ptr].fd];
              && (e.mask.inn ==> c.sent == Concat(c.responses))
              && (!e.mask.inn && e.mask.out ==> (Possible(s, Handle(w, Zero)) <==> c.sent == Concat(c.responses)))
  {
    StartOk();
    RunKeepsInv(START, ls);
    var s := Run(START, ls).value;
    if w < WORKERS && s.batches[w] != [] && !s.batches[w][0].mask.hup {
      TakenIsCurrent(s, w);
      var e := s.data[s.batches[w][0].ptr];
      SentPrefix(e, s.conns[e.fd]);
      SentLength(e, s.conns[e.fd]);
    }
  }

  lemma SentLength(e: Event, c: Conn)
    requires WritingOk(e, c) || ReadingOk(e, c)
    ensures WritingOk(e, c) ==> |c.sent| + e.length == |Concat(c.responses)|
  {
  }

  function Turn(idx: nat, n: nat): nat {
    (idx + n) % WORKERS
  }

  lemma TurnTwice(idx: nat, a: nat, b: nat)
    ensures Turn(Turn(idx, a), b) == Turn(idx, a + b)
  {
    ModAdd(idx + a, b, WORKERS);
  }

  lemma StepTurns(s: Server, l: Label)
    requires Inv(s) && Possible(s, l) && Step(s, l).Some?
    ensures Step(s, l).value.workerIdx == Turn(s.workerIdx, if l == Register then 1 else 0)
  {
  }

  lemma {:induction false} Turns(s: Server, ls: seq<Label>)
    requires Inv(s) && Feasible(s, ls)
    ensures Run(s, ls).Some?
    ensures Run(s, ls).value.workerIdx == Turn(s.workerIdx, Registrations(ls))
    decreases |ls|
  {
    if ls == [] {
      assert Turn(s.workerIdx, 0) == s.workerIdx;
    } else {
      StepKeepsInv(s, ls[0]);
      StepTurns(s, ls[0]);
      TurnTwice(s.workerIdx, if ls[0] == Register then 1 else 0, Registrations(ls[1..]));
      hide Inv, Step, Possible, Turn;
      Turns(Step(s, ls[0]).value, ls[1..]);
    }
  }

  function Registrations(ls: seq<Label>): nat {
    if ls == [] then 0 else (if ls[0] == Register then 1 else 0) + Registrations(ls[1..])
  }

  /** The connections are given to the workers in turn: the one registered after `k` others goes to worker
      `k` modulo 5. */
  lemma RoundRobin(ls: seq<Label>)
    requires Feasible(START, ls) && Run(START, ls).Some?
    requires var s := Run(START, ls).value; |s.epolls| == |s.batches| == WORKERS && Possible(s, Register)
    ensures Feasible(START, ls + [Register]) && Run(START, ls + [Register]).Some?
    ensures var s, s' := Run(START, ls).value, Run(START, ls + [Register]).value;
            var fd, w := s.accepted.value, Registrations(ls) % WORKERS;
            && |s'.epolls| == WORKERS && fd in s'.epolls[w] && fd in s'.conns && s'.conns[fd].worker == Some(w)
            && forall v :: 0 <= v < WORKERS && v != w ==> fd !in s'.epolls[v]
  {
    StartOk();
    RunKeepsInv(START, ls);
    Turns(START, ls);
    var s := Run(START, ls).value;
    StepKeepsInv(s, Register);
    var s' := Step(s, Register).value;
    RunOneMore(START, ls, Register, s');
    assert RegOk(s', s.workerIdx, s.accepted.value);
    forall v | 0 <= v < WORKERS && v != s.workerIdx ensures s.accepted.value !in s'.epolls[v] {
      assert RegOk(s', v, s.accepted.value);
    }
    hide Run, Feasible, Possible;
  }

  /** A connection stays with its worker while it is open. */
  lemma WorkerStays(s: Server, l: Label, fd: int)
    requires Inv(s) && Possible(s, l) && Step(s, l).Some?
    requires fd in s.conns && fd in Step(s, l).value.conns && s.conns[fd].worker.Some?
    ensures Step(s, l).value.conns[fd].worker == s.conns[fd].worker
  {
    assert ConnOk(s, fd);
    if l.Handle? {
      TakenIsCurrent(s, l.w);
    }
  }

  // ----- requests and responses -----

  /** The responses of a connection answer its requests, one by one, and what is noted of these is so. */
  ghost predicate Paired(c: Conn, answers: (string, string, bool) -> bool) {
    && |c.requests| == |c.responses| == |c.asked|
    && forall i :: 0 <= i < |c.requests| ==> answers(c.requests[i], c.responses[i], c.asked[i])
  }

  ghost predicate AllPaired(s: Server, answers: (string, string, bool) -> bool) {
    && (forall fd :: fd in s.conns ==> Paired(s.conns[fd], answers))
    && (forall i :: 0 <= i < |s.ended| ==> Paired(s.ended[i].0, answers))
  }

  /** What is received in the step comes with an answer to it. */
  predicate Answering(l: Label, answers: (string, string, bool) -> bool) {
    l.Handle? && l.io.Received? ==> answers(l.io.bytes, l.io.reply, l.io.keepAlive)
  }

  lemma StepKeepsPaired(s: Server, l: Label, answers: (string, string, bool) -> bool)
    requires Inv(s) && Possible(s, l) && Step(s, l).Some? && AllPaired(s, answers) && Answering(l, answers)
    ensures AllPaired(Step(s, l).value, answers)
  {
    hide Inv;
  }

  lemma {:induction false} RunKeepsPaired(s: Server, ls: seq<Label>, answers: (string, string, bool) -> bool)
    requires Inv(s) && Feasible(s, ls) && AllPaired(s, answers)
    requires forall i :: 0 <= i < |ls| ==> Answering(ls[i], answers)
    ensures Run(s, ls).Some? && AllPaired(Run(s, ls).value, answers)
    decreases |ls|
  {
    if ls != [] {
      StepKeepsInv(s, ls[0]);
      StepKeepsPaired(s, ls[0], answers);
      hide Inv, Step, Possible, AllPaired;
      RunKeepsPaired(Step(s, ls[0]).value, ls[1..], answers);
    }
  }

  /** If every request that is received is given an answer to it, then on every connection, open or ended, the
      i-th response answers the i-th request, and there are as many of them. */
  lemma ResponsesAnswerRequests(ls: seq<Label>, answers: (string, string, bool) -> bool)
    requires Feasible(START, ls) && forall i :: 0 <= i < |ls| ==> Answering(ls[i], answers)
    ensures Run(START, ls).Some? && AllPaired(Run(START, ls).value, answers)
  {
    StartOk();
    RunKeepsPaired(START, ls, answers);
  }

  // ----- the records that are never deleted -----

  /** The step answers a request. */
  predicate Answers(s: Server, l: Label) {
    l.Handle? && l.io.Received? && l.w < |s.batches| && s.batches[l.w] != [] &&
    !s.batches[l.w][0].mask.hup && s.batches[l.w][0].mask.inn
  }

  ghost function AnsweredIn(s: Server, ls: seq<Label>): nat
    requires |s.epolls| == |s.batches| == WORKERS && s.workerIdx < WORKERS && Feasible(s, ls)
    decreases |ls|
  {
    if ls == [] || Step(s, ls[0]) == None then 0
    else (if Answers(s, ls[0]) then 1 else 0) + AnsweredIn(Step(s, ls[0]).value, ls[1..])
  }

  function InUse(s: Server): int {
    |s.conns.Keys| - if s.accepted.Some? then 1 else 0
  }

  lemma EndFreesOne(s: Server, w: nat, fd: int, ptr: nat, ending: Ending)
    requires Current(s, w, fd, ptr)
    ensures var r := EndConn(s, w, ptr, ending); r.Some? && |r.value.live| - InUse(r.value) == |s.live| - InUse(s)
  {
    var s' := EndConn(s, w, ptr, ending).value;
    assert s'.conns.Keys == s.conns.Keys - {fd};
  }

  lemma ReceiveLeaks(s: Server, w: nat, fd: int, ptr: nat, io: Io)
    requires Current(s, w, fd, ptr) && RecvResult(io)
    ensures var r := Receive(s, w, ptr, io);
            r.Some? && |r.value.live| - InUse(r.value) == |s.live| - InUse(s) + if io.Received? then 1 else 0
  {
    EndFreesOne(s, w, fd, ptr, Failed);
    EndFreesOne(s, w, fd, ptr, ClientClosed);
    if io.Received? {
      var s' := Receive(s, w, ptr, io).value;
      assert s'.conns.Keys == s.conns.Keys;
      assert |s.data| !in s.live;
    }
  }

  lemma TransmitBalances(s: Server, w: nat, fd: int, ptr: nat, io: Io)
    requires Current(s, w, fd, ptr) && SendResult(s.data[ptr].length, io) && s.epolls[w][fd].out
    ensures var r := Transmit(s, w, ptr, io); r.Some? && |r.value.live| - InUse(r.value) == |s.live| - InUse(s)
  {
    EndFreesOne(s, w, fd, ptr, Failed);
    EndFreesOne(s, w, fd, ptr, Completed);
    TransmitKeepsInv(s, w, fd, ptr, io);
    if io.Sent? {
      assert Transmit(s, w, ptr, io).value.conns.Keys == s.conns.Keys;
    }
    assert |s.data| !in s.live;
  }

  lemma HandleLeaks(s: Server, w: nat, io: Io)
    requires Inv(s) && Possible(s, Handle(w, io))
    ensures var r := Step(s, Handle(w, io));
            r.Some? && |r.value.live| - InUse(r.value) == |s.live| - InUse(s) + if Answers(s, Handle(w, io))
                then 1 else 0
  {
    TakenIsCurrent(s, w);
    var e := s.batches[w][0];
    var fd := s.data[e.ptr].fd;
    var t := Taken(s, w);
    assert |t.live| - InUse(t) == |s.live| - InUse(s);
    hide Inv, EndConn, Receive, Transmit, InUse;
    if !e.mask.hup && e.mask.inn {
      ReceiveLeaks(t, w, fd, e.ptr, io);
    } else if !e.mask.hup && e.mask.out {
      TransmitBalances(t, w, fd, e.ptr, io);
    } else {
      EndFreesOne(t, w, fd, e.ptr, Failed);
    }
  }

  lemma RegisterBalances(s: Server)
    requires Inv(s) && Possible(s, Register)
    ensures var r := Step(s, Register); r.Some? && |r.value.live| - InUse(r.value) == |s.live| - InUse(s)
  {
    RegisterKeepsInv(s);
    assert |s.data| !in s.live;
    assert Step(s, Register).value.conns.Keys == s.conns.Keys;
  }

  lemma StepLeaks(s: Server, l: Label)
    requires Inv(s) && Possible(s, l)
    ensures var r := Step(s, l);
            r.Some? && |r.value.live| - InUse(r.value) == |s.live| - InUse(s) + if Answers(s, l) then 1 else 0
  {
    match l
    case Accept(fd) => assert Step(s, l).value.conns.Keys == s.conns.Keys + {fd};
    case Register => RegisterBalances(s);
    case Wait(_, _) =>
    case Handle(w, io) => HandleLeaks(s, w, io);
  }

  /** Every registered connection has one record; besides them, exactly one record stays allocated for
      ever for every request that was answered, since nobody deletes the record of the request. */
  lemma {:induction false} OneRecordLeaksPerRequest(s: Server, ls: seq<Label>)
    requires Inv(s) && Feasible(s, ls)
    ensures Run(s, ls).Some?
    ensures var s' := Run(s, ls).value;
            |s'.live| - InUse(s') == |s.live| - InUse(s) + AnsweredIn(s, ls)
    decreases |ls|
  {
    if ls != [] {
      StepKeepsInv(s, ls[0]);
      StepLeaks(s, ls[0]);
      hide Inv, Step, Possible, InUse, Answers;
      OneRecordLeaksPerRequest(Step(s, ls[0]).value, ls[1..]);
    }
  }
}
