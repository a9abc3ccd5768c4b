/** The relay server's event loop: the registry of connected client
    descriptors, what one readiness event does to it, and the frames it
    forwards. System calls (epoll_wait, accept, fcntl, epoll_ctl, read, send)
    are replaced by their outcomes, passed in with each event. */
module Server {
  import opened Frame

  /** The byte count the loop passes to read() as written: kBufferSize. */
  const ReadRequestAsWritten: nat := BufferSize
  /** The largest read that both the NUL store and the forwarded frame fit. */
  const ReadLimit: nat := BufferSize - IdSize

  /** One send() the broadcast issues: the target descriptor and the bytes. */
  datatype Send = Send(target: int, frame: seq<Byte>)

  /** What accepting on the listening socket produced: the descriptor accept
      returned (-1 on failure), whether making it non-blocking succeeded and
      whether epoll_ctl registered it. */
  datatype AcceptResult = AcceptResult(fd: int, nonBlockOk: bool, ctlOk: bool)

  /** One descriptor epoll_wait reported ready, with the outcome of the calls
      its branch makes: `accept` for the listening socket, `valread` and the
      delivered `data` for a client connection. */
  datatype Ready = Ready(fd: int, accept: AcceptResult, valread: int, data: seq<Byte>)

  /** One return of epoll_wait: failure, or the ready events in order. */
  datatype Wakeup = WaitFailed | Woke(events: seq<Ready>)

  /** The registry after an event and the sends the event issued, in order. */
  datatype Outcome = Outcome(fds: seq<int>, sends: seq<Send>)

  /** The read outcome is one read() can give when asked for at most
      ReadLimit bytes: valread bytes delivered when it is positive. */
  predicate ReadFits(e: Ready)
  {
    e.valread <= ReadLimit && (e.valread > 0 ==> |e.data| == e.valread)
  }

  /** Whether a read of `valread` bytes fits both stores the loop makes with
      it: the NUL at buffer[valread] and the frame of valread + 4 bytes in
      message[kBufferSize]. */
  predicate StoresFit(valread: int)
  {
    0 < valread < BufferSize && valread + IdSize <= BufferSize
  }

  /** As written, read() may return as many bytes as it was asked for,
      kBufferSize: then the NUL store is one past the buffer, and any count
      above kBufferSize - 4 already overflows the forwarded message. */
  lemma ReadRequestOverflows()
    ensures !StoresFit(ReadRequestAsWritten)
    ensures ReadLimit < 1021 <= ReadRequestAsWritten && !StoresFit(1021)
  {
  }

  /** Asking read() for at most ReadLimit bytes makes every positive count
      fit, and no larger request would. */
  lemma ReadLimitFits(valread: int)
    ensures 0 < valread <= ReadLimit ==> StoresFit(valread)
    ensures StoresFit(valread) ==> valread <= ReadLimit
  {
  }

  predicate Distinct(s: seq<int>)
  {
    forall i, j :: 0 <= i < j < |s| ==> s[i] != s[j]
  }

  // ---------------------------------------------------------------------------
  // Registry operations
  // ---------------------------------------------------------------------------

  /** `fds` with every occurrence of `fd` taken out, the rest in order
      (std::remove followed by erase; also the broadcast target list). */
  function Without(fds: seq<int>, fd: int): (r: seq<int>)
    ensures |r| <= |fds|
    ensures forall x :: x in r <==> x in fds && x != fd
  {
    if fds == [] then []
    else (if fds[0] == fd then [] else [fds[0]]) + Without(fds[1..], fd)
  }

  /** Removal keeps relative order: the survivors of a prefix come before
      the survivors of what follows it. */
  lemma {:induction false} WithoutAppend(a: seq<int>, b: seq<int>, fd: int)
    ensures Without(a + b, fd) == Without(a, fd) + Without(b, fd)
  {
    if a == [] {
      assert a + b == b;
    } else {
      assert (a + b)[0] == a[0];
      assert (a + b)[1..] == a[1..] + b;
      WithoutAppend(a[1..], b, fd);
    }
  }

  /** Removing a descriptor that is not registered changes nothing. */
  lemma {:induction false} WithoutAbsent(fds: seq<int>, fd: int)
    requires fd !in fds
    ensures Without(fds, fd) == fds
  {
    if fds != [] {
      assert fds[0] in fds;
      assert forall x :: x in fds[1..] ==> x in fds;
      WithoutAbsent(fds[1..], fd);
    }
  }

  /** Removal keeps a registry free of duplicates. */
  lemma {:induction false} WithoutDistinct(fds: seq<int>, fd: int)
    requires Distinct(fds)
    ensures Distinct(Without(fds, fd))
  {
    if fds != [] {
      assert forall i, j :: 0 <= i < j < |fds[1..]| ==> fds[1..][i] == fds[i + 1] && fds[1..][j] == fds[j + 1];
      WithoutDistinct(fds[1..], fd);
      var rest := Without(fds[1..], fd);
      assert fds[0] !in fds[1..];
      assert fds[0] !in rest;
    }
  }

  /** The sends of a broadcast: one per registered descriptor other than the
      origin, in registry order, each carrying the whole frame. */
  function Broadcast(fds: seq<int>, origin: int, frame: seq<Byte>): seq<Send>
  {
    var targets := Without(fds, origin);
    seq(|targets|, i requires 0 <= i < |targets| => Send(targets[i], frame))
  }

  function Targets(sends: seq<Send>): (ts: seq<int>)
    ensures |ts| == |sends|
  {
    seq(|sends|, i requires 0 <= i < |sends| => sends[i].target)
  }

  /** A broadcast reaches exactly the registered descriptors other than the
      origin, in order, never the origin, and every send carries the frame. */
  lemma BroadcastSpec(fds: seq<int>, origin: int, frame: seq<Byte>)
    ensures Targets(Broadcast(fds, origin, frame)) == Without(fds, origin)
    ensures forall s :: s in Broadcast(fds, origin, frame) ==> s.frame == frame && s.target != origin
    ensures forall t :: t in Targets(Broadcast(fds, origin, frame)) <==> t in fds && t != origin
  {
    var b := Broadcast(fds, origin, frame);
    assert Targets(b) == Without(fds, origin);
  }

  lemma BroadcastAppend(a: seq<int>, fd: int, origin: int, frame: seq<Byte>)
    ensures Broadcast(a + [fd], origin, frame)
         == Broadcast(a, origin, frame) + (if fd == origin then [] else [Send(fd, frame)])
  {
    WithoutAppend(a, [fd], origin);
    assert Without([fd], origin) == (if fd == origin then [] else [fd]) by {
      assert [fd][1..] == [];
    }
  }

  // ---------------------------------------------------------------------------
  // One readiness event, a batch of events, the whole loop
  // ---------------------------------------------------------------------------

  predicate AcceptSucceeds(a: AcceptResult)
  {
    a.fd != -1 && a.nonBlockOk && a.ctlOk
  }

  /** What one ready descriptor does to the registry and which sends it makes. */
  function Dispatch(fds: seq<int>, serverFd: int, e: Ready): Outcome
  {
    if e.fd == serverFd then
      if AcceptSucceeds(e.accept) then Outcome(fds + [e.accept.fd], []) else Outcome(fds, [])
    else if e.valread <= 0 then Outcome(Without(fds, e.fd), [])
    else Outcome(fds, Broadcast(fds, e.fd, Encode(e.fd, e.data)))
  }

  /** The events of one epoll_wait return, handled in order. */
  function DispatchAll(fds: seq<int>, serverFd: int, events: seq<Ready>): Outcome
    decreases |events|
  {
    if events == [] then Outcome(fds, [])
    else
      var prev := DispatchAll(fds, serverFd, events[..|events| - 1]);
      var o := Dispatch(prev.fds, serverFd, events[|events| - 1]);
      Outcome(o.fds, prev.sends + o.sends)
  }

  /** Successive epoll_wait returns, each batch handled in order; a failed
      epoll_wait breaks out of the loop, so nothing after it is handled. */
  function RunAll(fds: seq<int>, serverFd: int, ws: seq<Wakeup>): Outcome
    decreases |ws|
  {
    if ws == [] then Outcome(fds, [])
    else if FirstFailure(ws) < |ws| then RunAll(fds, serverFd, ws[..FirstFailure(ws)])
    else
      var prev := RunAll(fds, serverFd, ws[..|ws| - 1]);
      var o := DispatchAll(prev.fds, serverFd, ws[|ws| - 1].events);
      Outcome(o.fds, prev.sends + o.sends)
  }

  /** The number of epoll_wait returns the loop serves: all of them up to
      the first failure, which ends it. */
  function FirstFailure(ws: seq<Wakeup>): (k: nat)
    ensures k <= |ws|
    ensures forall i :: 0 <= i < k ==> ws[i].Woke?
    ensures k < |ws| ==> ws[k].WaitFailed?
  {
    if ws == [] || ws[0].WaitFailed? then 0 else 1 + FirstFailure(ws[1..])
  }

  /** The loop stops at the first failed epoll_wait, or at the end. */
  lemma FirstFailureAt(ws: seq<Wakeup>, k: nat)
    requires k <= |ws|
    requires forall i :: 0 <= i < k ==> ws[i].Woke?
    requires k < |ws| ==> ws[k].WaitFailed?
    ensures FirstFailure(ws) == k
  {
  }

  // ---------------------------------------------------------------------------
  // Properties of one event
  // ---------------------------------------------------------------------------

  /** Nothing an event sends goes back to the descriptor it came from. */
  lemma NoEcho(fds: seq<int>, serverFd: int, e: Ready)
    ensures forall s :: s in Dispatch(fds, serverFd, e).sends ==> s.target != e.fd
  {
    if e.fd != serverFd && e.valread > 0 {
      BroadcastSpec(fds, e.fd, Encode(e.fd, e.data));
    }
  }

  /** A positive read forwards htonl(origin) followed by exactly the bytes
      read, valread + 4 of them, to every other registered descriptor in
      registry order, and leaves the registry unchanged. */
  lemma ReadBroadcasts(fds: seq<int>, serverFd: int, e: Ready)
    requires e.fd != serverFd && e.valread > 0 && ReadFits(e)
    ensures Dispatch(fds, serverFd, e).fds == fds
    ensures Targets(Dispatch(fds, serverFd, e).sends) == Without(fds, e.fd)
    ensures forall s :: s in Dispatch(fds, serverFd, e).sends ==>
              |s.frame| == e.valread + IdSize
              && s.frame[..IdSize] == BigEndian(ToU32(e.fd)) && s.frame[IdSize..] == e.data
  {
    BroadcastSpec(fds, e.fd, Encode(e.fd, e.data));
  }

  /** A read of zero or an error removes every occurrence of the descriptor,
      keeps the others in order, and sends nothing. */
  lemma ReadEndRemoves(fds: seq<int>, serverFd: int, e: Ready)
    requires e.fd != serverFd && e.valread <= 0
    ensures e.fd !in Dispatch(fds, serverFd, e).fds
    ensures forall x :: x in Dispatch(fds, serverFd, e).fds <==> x in fds && x != e.fd
    ensures forall a, b :: fds == a + b ==> Dispatch(fds, serverFd, e).fds == Without(a, e.fd) + Without(b, e.fd)
    ensures Dispatch(fds, serverFd, e).sends == []
  {
    forall a, b | fds == a + b
      ensures Dispatch(fds, serverFd, e).fds == Without(a, e.fd) + Without(b, e.fd)
    {
      WithoutAppend(a, b, e.fd);
    }
  }

  /** An event on the listening socket appends the new descriptor exactly
      when accept, the non-blocking setup and the registration all succeed;
      any failure leaves the registry as it was. It never sends. */
  lemma AcceptAppends(fds: seq<int>, serverFd: int, e: Ready)
    requires e.fd == serverFd
    ensures Dispatch(fds, serverFd, e).sends == []
    ensures AcceptSucceeds(e.accept) <==> Dispatch(fds, serverFd, e).fds == fds + [e.accept.fd]
    ensures !AcceptSucceeds(e.accept) <==> Dispatch(fds, serverFd, e).fds == fds
  {
    assert |fds + [e.accept.fd]| != |fds|;
  }

  /** With the kernel handing out a descriptor not already registered, no
      event introduces a duplicate into the registry. */
  lemma DispatchDistinct(fds: seq<int>, serverFd: int, e: Ready)
    requires Distinct(fds)
    requires e.fd == serverFd ==> e.accept.fd !in fds
    ensures Distinct(Dispatch(fds, serverFd, e).fds)
  {
    if e.fd != serverFd && e.valread <= 0 {
      WithoutDistinct(fds, e.fd);
    }
  }

  // ---------------------------------------------------------------------------
  // Properties of batches
  // ---------------------------------------------------------------------------

  /** A descriptor that is not registered, and that no event in the batch
      accepts again, is never sent to and stays unregistered. */
  lemma {:induction false} AbsentNeverTargeted(fds: seq<int>, serverFd: int, events: seq<Ready>, fd: int)
    requires fd !in fds
    requires forall e :: e in events && e.fd == serverFd ==> e.accept.fd != fd
    ensures fd !in DispatchAll(fds, serverFd, events).fds
    ensures forall s :: s in DispatchAll(fds, serverFd, events).sends ==> s.target != fd
  {
    if events != [] {
      var init := events[..|events| - 1];
      var e := events[|events| - 1];
      assert forall x :: x in init ==> x in events;
      AbsentNeverTargeted(fds, serverFd, init, fd);
      var prev := DispatchAll(fds, serverFd, init);
      if e.fd != serverFd && e.valread > 0 {
        BroadcastSpec(prev.fds, e.fd, Encode(e.fd, e.data));
      }
    }
  }

  /** Once a read of zero (or an error) has removed a descriptor, the rest
      of the batch never sends to it unless it is accepted again. */
  lemma DisconnectedNeverTargeted(fds: seq<int>, serverFd: int, e: Ready, rest: seq<Ready>)
    requires e.fd != serverFd && e.valread <= 0
    requires forall r :: r in rest && r.fd == serverFd ==> r.accept.fd != e.fd
    ensures forall s :: s in DispatchAll(fds, serverFd, [e] + rest).sends ==> s.target != e.fd
  {
    var after := Dispatch(fds, serverFd, e);
    assert DispatchAll(fds, serverFd, [e]) == after by {
      assert [e][..0] == [];
    }
    DispatchAllAppend(fds, serverFd, [e], rest);
    AbsentNeverTargeted(after.fds, serverFd, rest, e.fd);
  }

  /** Every accept in the batch yields a descriptor that is not registered
      at that point of the batch (the kernel does not hand out an open
      descriptor twice). */
  ghost predicate AcceptsFresh(fds: seq<int>, serverFd: int, events: seq<Ready>)
  {
    forall k :: 0 <= k < |events| && events[k].fd == serverFd ==>
      events[k].accept.fd !in DispatchAll(fds, serverFd, events[..k]).fds
  }

  /** A whole batch keeps the registry free of duplicates. */
  lemma {:induction false} DispatchAllDistinct(fds: seq<int>, serverFd: int, events: seq<Ready>)
    requires Distinct(fds) && AcceptsFresh(fds, serverFd, events)
    ensures Distinct(DispatchAll(fds, serverFd, events).fds)
    decreases |events|
  {
    if events != [] {
      var n := |events| - 1;
      var init := events[..n];
      assert AcceptsFresh(fds, serverFd, init) by {
        forall k | 0 <= k < |init| && init[k].fd == serverFd
          ensures init[k].accept.fd !in DispatchAll(fds, serverFd, init[..k]).fds
        {
          assert init[..k] == events[..k];
        }
      }
      DispatchAllDistinct(fds, serverFd, init);
      DispatchDistinct(DispatchAll(fds, serverFd, init).fds, serverFd, events[n]);
    }
  }

  /** Every batch the loop serves satisfies AcceptsFresh from the registry
      it starts with. */
  ghost predicate RunFresh(fds: seq<int>, serverFd: int, ws: seq<Wakeup>)
  {
    forall i :: 0 <= i < FirstFailure(ws) ==>
      AcceptsFresh(RunAll(fds, serverFd, ws[..i]).fds, serverFd, ws[i].events)
  }

  /** The loop keeps the registry free of duplicates across epoll_wait
      returns. */
  lemma {:induction false} RunAllDistinct(fds: seq<int>, serverFd: int, ws: seq<Wakeup>)
    requires Distinct(fds) && RunFresh(fds, serverFd, ws)
    ensures Distinct(RunAll(fds, serverFd, ws).fds)
    decreases |ws|
  {
    if ws == [] {
    } else if FirstFailure(ws) < |ws| {
      var k := FirstFailure(ws);
      var p := ws[..k];
      FirstFailureAt(p, k);
      assert RunFresh(fds, serverFd, p) by {
        forall i | 0 <= i < k
          ensures AcceptsFresh(RunAll(fds, serverFd, p[..i]).fds, serverFd, p[i].events)
        {
          assert p[..i] == ws[..i];
        }
      }
      RunAllDistinct(fds, serverFd, p);
    } else {
      var n := |ws| - 1;
      var p := ws[..n];
      FirstFailureAt(p, n);
      assert RunFresh(fds, serverFd, p) by {
        forall i | 0 <= i < n
          ensures AcceptsFresh(RunAll(fds, serverFd, p[..i]).fds, serverFd, p[i].events)
        {
          assert p[..i] == ws[..i];
        }
      }
      RunAllDistinct(fds, serverFd, p);
      DispatchAllDistinct(RunAll(fds, serverFd, p).fds, serverFd, ws[n].events);
    }
  }

  /** A descriptor that is not registered, and that no served batch accepts
      again, is never sent to by the loop and stays unregistered. */
  lemma {:induction false} RunAbsentNeverTargeted(fds: seq<int>, serverFd: int, ws: seq<Wakeup>, fd: int)
    requires fd !in fds
    requires forall i, e :: 0 <= i < |ws| && ws[i].Woke? && e in ws[i].events && e.fd == serverFd ==> e.accept.fd != fd
    ensures fd !in RunAll(fds, serverFd, ws).fds
    ensures forall s :: s in RunAll(fds, serverFd, ws).sends ==> s.target != fd
    decreases |ws|
  {
    if ws == [] {
    } else if FirstFailure(ws) < |ws| {
      RunAbsentNeverTargeted(fds, serverFd, ws[..FirstFailure(ws)], fd);
    } else {
      var n := |ws| - 1;
      RunAbsentNeverTargeted(fds, serverFd, ws[..n], fd);
      AbsentNeverTargeted(RunAll(fds, serverFd, ws[..n]).fds, serverFd, ws[n].events, fd);
    }
  }

  /** Handling a batch in two parts is handling it in one. */
  lemma {:induction false} DispatchAllAppend(fds: seq<int>, serverFd: int, a: seq<Ready>, b: seq<Ready>)
    ensures DispatchAll(fds, serverFd, a + b).fds
         == DispatchAll(DispatchAll(fds, serverFd, a).fds, serverFd, b).fds
    ensures DispatchAll(fds, serverFd, a + b).sends
         == DispatchAll(fds, serverFd, a).sends + DispatchAll(DispatchAll(fds, serverFd, a).fds, serverFd, b).sends
    decreases |b|
  {
    if b == [] {
      assert a + b == a;
    } else {
      assert (a + b)[..|a + b| - 1] == a + b[..|b| - 1];
      assert (a + b)[|a + b| - 1] == b[|b| - 1];
      DispatchAllAppend(fds, serverFd, a, b[..|b| - 1]);
    }
  }

  /** Three clients A, B, C are registered; A sends "hello". B and C each get
      a frame that decodes to A's descriptor and "hello"; A gets nothing. */
  lemma ThreeClients(serverFd: int, a: int, b: int, c: int, accept: AcceptResult)
    requires Distinct([a, b, c]) && 0 <= a < TwoTo31 && a != serverFd
    ensures var hello: seq<Byte> := [104, 101, 108, 108, 111];
            var o := Dispatch([a, b, c], serverFd, Ready(a, accept, 5, hello));
            o.fds == [a, b, c]
            && o.sends == [Send(b, Encode(a, hello)), Send(c, Encode(a, hello))]
            && Decode(Encode(a, hello)) == Some(Header(a, hello))
  {
    var hello: seq<Byte> := [104, 101, 108, 108, 111];
    assert Without([a, b, c], a) == [b, c] by {
      assert [a, b, c][0] != [a, b, c][1] && [a, b, c][0] != [a, b, c][2];
      assert [c][1..] == [];
      assert Without([c], a) == [c];
      assert [b, c][1..] == [c];
      assert Without([b, c], a) == [b, c];
      assert [a, b, c][1..] == [b, c];
    }
    DecodeEncode(a, hello);
  }

  // ---------------------------------------------------------------------------
  // The loop as the source runs it
  // ---------------------------------------------------------------------------

  /** Server::loop's state: the listening descriptor, the registry and the
      shared read buffer. */
  class ChatServer {
    const serverFd: int
    var clientFds: seq<int>
    const buffer: array<Byte>

    ghost predicate Valid()
    {
      buffer.Length == BufferSize
    }

    constructor (serverFd: int)
      ensures Valid() && fresh(buffer)
      ensures this.serverFd == serverFd && clientFds == []
    {
      this.serverFd := serverFd;
      clientFds := [];
      buffer := new Byte[BufferSize](i => 0);
    }

    /** The for loop over client_fds that sends the frame to every
        descriptor but the origin; send results are ignored. */
    method BroadcastExcept(origin: int, frame: seq<Byte>) returns (sends: seq<Send>)
      ensures sends == Broadcast(clientFds, origin, frame)
    {
      sends := [];
      var i := 0;
      while i < |clientFds|
        invariant i <= |clientFds|
        invariant sends == Broadcast(clientFds[..i], origin, frame)
      {
        var fd := clientFds[i];
        if fd != origin {
          sends := sends + [Send(fd, frame)];
        }
        assert clientFds[..i + 1] == clientFds[..i] + [fd];
        BroadcastAppend(clientFds[..i], fd, origin, frame);
        i := i + 1;
      }
      assert clientFds[..i] == clientFds;
    }

    /** One ready descriptor of one epoll_wait return. */
    method HandleReady(e: Ready) returns (sends: seq<Send>)
      requires Valid() && ReadFits(e)
      modifies this`clientFds, buffer
      ensures Outcome(clientFds, sends) == Dispatch(old(clientFds), serverFd, e)
    {
      sends := [];
      if e.fd == serverFd {
        if e.accept.fd == -1 {
          return;                                 // accept failed: continue
        }
        if !e.accept.nonBlockOk {
          return;                                 // SetNonBlocking threw: close, continue
        }
        if !e.accept.ctlOk {
          return;                                 // epoll_ctl failed: close, continue
        }
        clientFds := clientFds + [e.accept.fd];
      } else if e.valread <= 0 {
        clientFds := Without(clientFds, e.fd);    // close, then erase(remove(...))
      } else {
        var n := e.valread;
        forall i | 0 <= i < n {
          buffer[i] := e.data[i];                 // what read() delivered
        }
        buffer[n] := 0;
        var message := new Byte[BufferSize];
        var id := BigEndian(ToU32(e.fd));
        forall i | 0 <= i < IdSize {
          message[i] := id[i];
        }
        forall i | 0 <= i < n {
          message[IdSize + i] := buffer[i];
        }
        assert message[..n + IdSize] == Encode(e.fd, e.data) by {
          assert buffer[..n] == e.data;
          assert message[..IdSize] == id;
          assert message[IdSize..n + IdSize] == e.data;
          assert message[..n + IdSize] == message[..IdSize] + message[IdSize..n + IdSize];
        }
        sends := BroadcastExcept(e.fd, message[..n + IdSize]);
      }
    }

    /** The for loop over the events one epoll_wait returned: each is
        handled in order against the registry the previous ones left. */
    method HandleWakeup(events: seq<Ready>) returns (sends: seq<Send>)
      requires Valid()
      requires forall j :: 0 <= j < |events| ==> ReadFits(events[j])
      modifies this`clientFds, buffer
      ensures Outcome(clientFds, sends) == DispatchAll(old(clientFds), serverFd, events)
    {
      sends := [];
      var i := 0;
      assert events[..0] == [];
      while i < |events|
        invariant i <= |events|
        invariant Outcome(clientFds, sends) == DispatchAll(old(clientFds), serverFd, events[..i])
      {
        var more := HandleReady(events[i]);
        assert events[..i + 1][..i] == events[..i];
        sends := sends + more;
        i := i + 1;
      }
      assert events[..i] == events;
    }

    /** The while (true) loop over epoll_wait returns: every batch is handled
        in order, and only a failed epoll_wait ends the loop. */
    method Loop(wakeups: seq<Wakeup>) returns (sends: seq<Send>, served: nat)
      requires Valid()
      requires forall k, j :: 0 <= k < |wakeups| && wakeups[k].Woke? && 0 <= j < |wakeups[k].events| ==>
                 ReadFits(wakeups[k].events[j])
      modifies this`clientFds, buffer
      ensures served == FirstFailure(wakeups)
      ensures Outcome(clientFds, sends) == RunAll(old(clientFds), serverFd, wakeups)
    {
      sends := [];
      served := 0;
      assert wakeups[..0] == [];
      while served < |wakeups| && wakeups[served].Woke?
        invariant served <= |wakeups|
        invariant forall k :: 0 <= k < served ==> wakeups[k].Woke?
        invariant Outcome(clientFds, sends) == RunAll(old(clientFds), serverFd, wakeups[..served])
      {
        var more := HandleWakeup(wakeups[served].events);
        assert wakeups[..served + 1][..served] == wakeups[..served];
        FirstFailureAt(wakeups[..served + 1], served + 1);
        sends := sends + more;
        served := served + 1;
      }
      FirstFailureAt(wakeups, served);
      if served == |wakeups| {
        assert wakeups[..served] == wakeups;
      }
    }
  }
}
