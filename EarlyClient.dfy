/** The earlier chat client without reconnection or logging: a send loop that
    forwards every input line, and a receive loop that prints
    "user <id>: <text>" for each receive until the connection ends. */
module EarlyClient {
  import opened Frame

  /** The start of every line the receive loop prints. */
  const EarlyPrefix: string := "user "

  /** One recv() of at most kBufferSize - 1 bytes: the count it returned and
      the bytes it delivered. */
  datatype RecvResult = RecvResult(valread: int, data: seq<Byte>)

  predicate RecvFits(r: RecvResult)
  {
    r.valread <= BufferSize - 1 && (r.valread > 0 ==> |r.data| == r.valread)
  }

  /** How many receives the loop handles: all up to the first that returned
      zero (server closed) or less (recv failed), which ends it. */
  function FirstEnd(rs: seq<RecvResult>): (k: nat)
    ensures k <= |rs|
    ensures forall j :: 0 <= j < k ==> rs[j].valread > 0
    ensures k < |rs| ==> rs[k].valread <= 0
  {
    if rs == [] || rs[0].valread <= 0 then 0 else 1 + FirstEnd(rs[1..])
  }

  /** The receive buffer after the first `k` receives, starting from the
      zeroed buffer: each positive receive lands at the start and is
      NUL-terminated, the rest keeps what earlier receives left. */
  function BufferAfter(rs: seq<RecvResult>, k: nat): (b: seq<Byte>)
    requires k <= |rs|
    ensures |b| == BufferSize
  {
    if k == 0 then Zeros()
    else if 1 <= |rs[k - 1].data| < BufferSize then Received(BufferAfter(rs, k - 1), rs[k - 1].data)
    else BufferAfter(rs, k - 1)
  }

  /** The id and text of the lines printed for the first `k` receives, in
      order: one line per receive, read out of the buffer as it stands after
      that receive, with no check that four bytes arrived. Each is printed
      as DisplayLine(EarlyPrefix, h). */
  function ShownFor(rs: seq<RecvResult>, k: nat): (hs: seq<Header>)
    requires k <= |rs|
    ensures |hs| == k
  {
    if k == 0 then [] else ShownFor(rs, k - 1) + [ShownAsWritten(BufferAfter(rs, k))]
  }

  /** One more receive that fits lands in the buffer and adds the line read
      back out of it. */
  lemma ShownForStep(rs: seq<RecvResult>, k: nat)
    requires k < |rs| && 1 <= |rs[k].data| < BufferSize
    ensures BufferAfter(rs, k + 1) == Received(BufferAfter(rs, k), rs[k].data)
    ensures ShownFor(rs, k + 1) == ShownFor(rs, k) + [ShownAsWritten(BufferAfter(rs, k + 1))]
  {
  }

  /** RecvThread: every receive goes through the same zero-initialised
      buffer and prints a line, however few bytes arrived; the first receive
      of zero or less (server closed, recv failed) ends the loop. */
  method RecvLoop(results: seq<RecvResult>) returns (shown: seq<Header>, handled: nat)
    requires forall j :: 0 <= j < |results| ==> RecvFits(results[j])
    ensures handled == FirstEnd(results)
    ensures shown == ShownFor(results, handled)
  {
    var buffer := NewBuffer();
    shown := [];
    handled := 0;
    while handled < |results| && results[handled].valread > 0
      invariant handled <= FirstEnd(results)
      invariant buffer[..] == BufferAfter(results, handled)
      invariant shown == ShownFor(results, handled)
    {
      ShownForStep(results, handled);
      var h := ReceiveInto(buffer, results[handled].data);
      shown := shown + [h];
      handled := handled + 1;
    }
  }

  /** The frames the server relays, each arriving whole in one recv(), in
      order: frame `j` carries origins[j] and payloads[j]. */
  function Relayed(origins: seq<int>, payloads: seq<seq<Byte>>): (rs: seq<RecvResult>)
    requires |origins| == |payloads|
    ensures |rs| == |origins|
    ensures forall j :: 0 <= j < |rs| ==> rs[j].data == Encode(origins[j], payloads[j]) && rs[j].valread == |rs[j].data|
  {
    seq(|origins|, j requires 0 <= j < |origins| => RecvResult(|payloads[j]| + IdSize, Encode(origins[j], payloads[j])))
  }

  /** A server frame that arrives whole after the first `k` receives adds
      its origin and payload to what is shown. */
  lemma FrameShownNext(rs: seq<RecvResult>, k: nat, origin: int, payload: seq<Byte>)
    requires k < |rs| && rs[k].data == Encode(origin, payload)
    requires 0 <= origin < TwoTo31 && 0 !in payload && |payload| < BufferSize - IdSize
    ensures ShownFor(rs, k + 1) == ShownFor(rs, k) + [Header(origin, payload)]
  {
    ShownForStep(rs, k);
    ReceivedEncodeShown(BufferAfter(rs, k), origin, payload);
  }

  /** The origin and payload of each of the first `k` relayed frames. */
  function Sent(origins: seq<int>, payloads: seq<seq<Byte>>, k: nat): (hs: seq<Header>)
    requires k <= |origins| == |payloads|
    ensures |hs| == k
    ensures forall j :: 0 <= j < k ==> hs[j] == Header(origins[j], payloads[j])
  {
    if k == 0 then [] else Sent(origins, payloads, k - 1) + [Header(origins[k - 1], payloads[k - 1])]
  }

  /** Every frame the server relayed before the connection ended is printed
      with its origin and its payload, in the order the server sent them,
      whatever earlier frames left in the buffer. */
  lemma {:induction false} ServerFramesShown(origins: seq<int>, payloads: seq<seq<Byte>>, k: nat)
    requires |origins| == |payloads| && k <= |origins|
    requires forall j :: 0 <= j < |origins| ==>
               0 <= origins[j] < TwoTo31 && 0 !in payloads[j] && |payloads[j]| < BufferSize - IdSize
    ensures ShownFor(Relayed(origins, payloads), k) == Sent(origins, payloads, k)
  {
    if k > 0 {
      ServerFramesShown(origins, payloads, k - 1);
      FrameShownNext(Relayed(origins, payloads), k - 1, origins[k - 1], payloads[k - 1]);
    }
  }

  /** Positions of the sends that failed, in order. */
  function FailedAt(results: seq<int>): seq<nat>
    decreases |results|
  {
    if results == [] then []
    else FailedAt(results[..|results| - 1]) + (if results[|results| - 1] < 0 then [|results| - 1] else [])
  }

  /** Every reported position is that of a failed send. */
  lemma {:induction false} FailedAtSound(results: seq<int>)
    ensures forall k :: 0 <= k < |FailedAt(results)| ==>
              FailedAt(results)[k] < |results| && results[FailedAt(results)[k]] < 0
    decreases |results|
  {
    if results != [] {
      var last := |results| - 1;
      var init := results[..last];
      FailedAtSound(init);
      var p := FailedAt(init);
      assert FailedAt(results) == p + (if results[last] < 0 then [last] else []);
      forall k | 0 <= k < |p|
        ensures FailedAt(results)[k] < |results| && results[FailedAt(results)[k]] < 0
      {
        assert results[p[k]] == init[p[k]];
      }
    }
  }

  /** Every failed send is reported. */
  lemma {:induction false} FailedAtComplete(results: seq<int>)
    ensures forall j :: 0 <= j < |results| && results[j] < 0 ==> j in FailedAt(results)
    decreases |results|
  {
    if results != [] {
      var last := |results| - 1;
      var init := results[..last];
      FailedAtComplete(init);
      var p := FailedAt(init);
      assert FailedAt(results) == p + (if results[last] < 0 then [last] else []);
      forall j | 0 <= j < |results| && results[j] < 0
        ensures j in FailedAt(results)
      {
        if j < last {
          assert init[j] == results[j];
          assert j in p;
        }
      }
    }
  }

  /** The reports come in increasing order, so none is repeated. */
  lemma {:induction false} FailedAtIncreasing(results: seq<int>)
    ensures forall k, l :: 0 <= k < l < |FailedAt(results)| ==> FailedAt(results)[k] < FailedAt(results)[l]
    decreases |results|
  {
    if results != [] {
      var last := |results| - 1;
      var init := results[..last];
      FailedAtIncreasing(init);
      FailedAtSound(init);
      var p := FailedAt(init);
      assert FailedAt(results) == p + (if results[last] < 0 then [last] else []);
    }
  }

  /** SendThread: every input line is sent as it is; a failed send is
      reported and the loop goes on to the next line. */
  method SendLoop(lines: seq<string>, results: seq<int>) returns (sent: seq<string>, reported: seq<nat>)
    requires |results| == |lines|
    ensures sent == lines
    ensures reported == FailedAt(results)
  {
    sent, reported := [], [];
    var i := 0;
    while i < |lines|
      invariant i <= |lines|
      invariant sent == lines[..i]
      invariant reported == FailedAt(results[..i])
    {
      sent := sent + [lines[i]];
      if results[i] < 0 {
        reported := reported + [i];               // "Send failed: ..."
      }
      assert results[..i + 1][..i] == results[..i];
      i := i + 1;
    }
    assert results[..i] == results;
  }
}
