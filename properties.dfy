/**
  What the discovery state machine promises, stated over `Process`: the effect of
  each state on well-formed and malformed input, the order in which drivers see
  descriptors, the state invariant on (n, m), progress, and a whole enumeration.
 */
module DiscoveryProperties {
  import opened Descriptor
  import opened Host
  import opened Discovery

  /** The descriptors driver `j` received, in the order it received them. */
  function ReceivedBy(notes: seq<Notification>, j: nat): (frames: seq<Frame>)
    ensures |frames| <= |notes|
  {
    if notes == [] then []
    else
      (if notes[0].driver == j then [Frame(notes[0].descriptorType, notes[0].data)] else [])
      + ReceivedBy(notes[1..], j)
  }

  lemma {:induction false} ReceivedByAppend(a: seq<Notification>, b: seq<Notification>, j: nat)
    ensures ReceivedBy(a + b, j) == ReceivedBy(a, j) + ReceivedBy(b, j)
  {
    if a != [] {
      assert (a + b)[1..] == a[1..] + b;
      ReceivedByAppend(a[1..], b, j);
    } else {
      assert a + b == b;
    }
  }

  /** One broadcast reaches each registered driver exactly once, and no one else. */
  lemma {:induction false} ReceivedByBroadcast(count: nat, addr: DeviceAddress, f: Frame, j: nat)
    ensures ReceivedBy(Broadcast(count, addr, f), j) == if j < count then [f] else []
  {
    if count > 0 {
      var last := [Notification(count - 1, addr, f.descriptorType, f.data)];
      ReceivedByAppend(Broadcast(count - 1, addr, f), last, j);
      ReceivedByBroadcast(count - 1, addr, f, j);
      assert ReceivedBy(last, j) == if j == count - 1 then [f] else [];
    }
  }

  /**
    Broadcasting frames one after the other: every registered driver receives
    exactly those frames, once each, in their order.
   */
  lemma {:induction false} BroadcastAllPerDriver(count: nat, addr: DeviceAddress, fs: seq<Frame>, j: nat)
    ensures ReceivedBy(BroadcastAll(count, addr, fs), j) == if j < count then fs else []
  {
    if fs != [] {
      var head := Broadcast(count, addr, fs[0]);
      var tail := BroadcastAll(count, addr, fs[1..]);
      assert BroadcastAll(count, addr, fs) == head + tail;
      ReceivedByAppend(head, tail, j);
      ReceivedByBroadcast(count, addr, fs[0], j);
      BroadcastAllPerDriver(count, addr, fs[1..], j);
      if j < count {
        assert ReceivedBy(head, j) + ReceivedBy(tail, j) == [fs[0]] + fs[1..] == fs;
      } else {
        assert ReceivedBy(head, j) + ReceivedBy(tail, j) == [];
      }
    }
  }

  /** Broadcasting k frames makes k notifications per driver, each naming the device. */
  lemma {:induction false} BroadcastAllShape(count: nat, addr: DeviceAddress, fs: seq<Frame>)
    ensures |BroadcastAll(count, addr, fs)| == |fs| * count
    ensures forall i :: 0 <= i < |BroadcastAll(count, addr, fs)| ==>
              BroadcastAll(count, addr, fs)[i].addr == addr && BroadcastAll(count, addr, fs)[i].driver < count
  {
    if fs != [] {
      var head := Broadcast(count, addr, fs[0]);
      var tail := BroadcastAll(count, addr, fs[1..]);
      BroadcastAllShape(count, addr, fs[1..]);
      assert |fs| * count == count + (|fs| - 1) * count;
      assert BroadcastAll(count, addr, fs) == head + tail;
      var all: seq<Notification> := head + tail;
      forall i | 0 <= i < |all|
        ensures all[i].addr == addr && all[i].driver < count
      {
        if i >= |head| {
          assert all[i] == tail[i - |head|];
        }
      }
    }
  }

  /** A bundle of k well-formed frames is walked completely, each frame broadcast in buffer order. */
  lemma {:induction false} WalkFrames(fs: seq<Frame>, addr: DeviceAddress, count: nat)
    requires fs != []
    requires forall i :: 0 <= i < |fs| ==> Encodable(fs[i])
    ensures Walk(EncodeFrames(fs), addr, count) == Walked(true, BroadcastAll(count, addr, fs))
  {
    var tail := EncodeFrames(fs[1..]);
    ParseEncode(fs[0], tail);
    if |fs| == 1 {
      assert tail == [];
    } else {
      WalkFrames(fs[1..], addr, count);
    }
  }

  /**
    A malformed frame after well-formed ones stops the walk as a failure, and the
    frames before it have been broadcast.
   */
  lemma {:induction false} WalkStopsAtMalformed(fs: seq<Frame>, bad: seq<byte>, addr: DeviceAddress, count: nat)
    requires forall i :: 0 <= i < |fs| ==> Encodable(fs[i])
    requires bad != [] && AnyDescriptor(bad).Malformed?
    ensures Walk(EncodeFrames(fs) + bad, addr, count) == Walked(false, BroadcastAll(count, addr, fs))
  {
    if fs != [] {
      var tail := EncodeFrames(fs[1..]) + bad;
      assert EncodeFrames(fs) + bad == EncodeFrame(fs[0]) + tail;
      ParseEncode(fs[0], tail);
      WalkStopsAtMalformed(fs[1..], bad, addr, count);
    }
  }

  /**
    Every buffer splits into a run of well-formed frames followed by a remainder
    that is empty or starts with a malformed frame.
   */
  lemma {:induction false} SplitFrames(data: seq<byte>) returns (fs: seq<Frame>, bad: seq<byte>)
    ensures forall i :: 0 <= i < |fs| ==> Encodable(fs[i])
    ensures data == EncodeFrames(fs) + bad
    ensures bad == [] || AnyDescriptor(bad).Malformed?
    decreases |data|
  {
    match AnyDescriptor(data)
    case Malformed =>
      fs, bad := [], data;
    case Parsed(rest, f) =>
      var more, tail := SplitFrames(rest);
      fs, bad := [f] + more, tail;
      assert fs[1..] == more;
  }

  /**
    The walk of any buffer: it succeeds exactly when the buffer is a non-empty run
    of well-formed frames, and in every case it has broadcast the frames before the
    first malformed one.
   */
  lemma WalkCovers(data: seq<byte>, addr: DeviceAddress, count: nat) returns (fs: seq<Frame>, bad: seq<byte>)
    ensures forall i :: 0 <= i < |fs| ==> Encodable(fs[i])
    ensures data == EncodeFrames(fs) + bad
    ensures bad == [] || AnyDescriptor(bad).Malformed?
    ensures Walk(data, addr, count) == Walked(fs != [] && bad == [], BroadcastAll(count, addr, fs))
  {
    fs, bad := SplitFrames(data);
    if bad == [] {
      assert data == EncodeFrames(fs);
      if fs != [] {
        WalkFrames(fs, addr, count);
      }
    } else {
      WalkStopsAtMalformed(fs, bad, addr, count);
    }
  }

  /**
    DeviceDesc with a well-formed device descriptor reporting m configurations:
    every driver receives that descriptor once, the 9-byte header of configuration 0
    is requested, and the state becomes ConfigDescLen(0, m).
   */
  lemma DeviceDescWellFormed(ev: Event, addr: DeviceAddress, received: seq<byte>, count: nat,
                             f: Frame, rest: seq<byte>, m: byte)
    requires ev.ControlInData? && ev.length as int <= |received|
    requires Encodable(f) && received[..ev.length] == EncodeFrame(f) + rest
    requires DeviceConfigCount(f.data) == Some(m)
    ensures Process(ev, addr, DeviceDesc, received, count)
         == Outcome(ConfigDescLen(0, m), Some(Request(addr, TYPE_CONFIGURATION, 0, 9)), Broadcast(count, addr, f))
    ensures forall j :: 0 <= j < count ==>
              ReceivedBy(Process(ev, addr, DeviceDesc, received, count).notes, j) == [f]
  {
    ParseEncode(f, rest);
    forall j | 0 <= j < count
      ensures ReceivedBy(Process(ev, addr, DeviceDesc, received, count).notes, j) == [f]
    {
      ReceivedByBroadcast(count, addr, f, j);
    }
  }

  /**
    DeviceDesc with a well-formed frame whose payload is not a device descriptor:
    the frame has already reached every driver, no request is issued, ParseError.
   */
  lemma DeviceDescBadPayload(ev: Event, addr: DeviceAddress, received: seq<byte>, count: nat,
                             f: Frame, rest: seq<byte>)
    requires ev.ControlInData? && ev.length as int <= |received|
    requires Encodable(f) && received[..ev.length] == EncodeFrame(f) + rest
    requires DeviceConfigCount(f.data) == None
    ensures Process(ev, addr, DeviceDesc, received, count) == Outcome(ParseError, None, Broadcast(count, addr, f))
  {
    ParseEncode(f, rest);
  }

  /**
    ConfigDescLen(n, m) with a well-formed configuration header declaring total
    length L: no driver is notified, configuration n is requested with length L,
    and the state becomes ConfigDesc(n, m).
   */
  lemma ConfigDescLenWellFormed(ev: Event, addr: DeviceAddress, received: seq<byte>, count: nat,
                                n: byte, m: byte, f: Frame, rest: seq<byte>, total: u16)
    requires ev.ControlInData? && ev.length as int <= |received|
    requires Encodable(f) && received[..ev.length] == EncodeFrame(f) + rest
    requires ConfigTotalLength(f.data) == Some(total)
    ensures Process(ev, addr, ConfigDescLen(n, m), received, count)
         == Outcome(ConfigDesc(n, m), Some(Request(addr, TYPE_CONFIGURATION, n, total)), [])
  {
    ParseEncode(f, rest);
  }

  /** A header frame whose payload is too short for wTotalLength ends in ParseError with no request. */
  lemma ConfigDescLenBadPayload(ev: Event, addr: DeviceAddress, received: seq<byte>, count: nat,
                                n: byte, m: byte, f: Frame, rest: seq<byte>)
    requires ev.ControlInData? && ev.length as int <= |received|
    requires Encodable(f) && received[..ev.length] == EncodeFrame(f) + rest
    requires |f.data| < 2
    ensures Process(ev, addr, ConfigDescLen(n, m), received, count) == Outcome(ParseError, None, [])
  {
    ParseEncode(f, rest);
  }

  /**
    ConfigDesc(n, m) with a bundle of k well-formed frames: each driver receives the
    k frames once each in buffer order; then either the header of configuration n+1
    is requested and the state is ConfigDescLen(n+1, m), or, after the last
    configuration, nothing is requested and the state is Done.
   */
  lemma ConfigDescBundle(ev: Event, addr: DeviceAddress, received: seq<byte>, count: nat,
                         n: byte, m: byte, fs: seq<Frame>)
    requires ev.ControlInData? && ev.length as int <= |received| && n < 0xFF
    requires fs != [] && forall i :: 0 <= i < |fs| ==> Encodable(fs[i])
    requires received[..ev.length] == EncodeFrames(fs)
    ensures var o := Process(ev, addr, ConfigDesc(n, m), received, count);
      && o.notes == BroadcastAll(count, addr, fs)
      && (n as int + 1 < m as int ==>
            o.next == ConfigDescLen(n + 1, m) && o.request == Some(Request(addr, TYPE_CONFIGURATION, n + 1, 9)))
      && (n as int + 1 >= m as int ==> o.next == Done && o.request == None)
    ensures forall j :: 0 <= j < count ==>
              ReceivedBy(Process(ev, addr, ConfigDesc(n, m), received, count).notes, j) == fs
  {
    WalkFrames(fs, addr, count);
    forall j | 0 <= j < count
      ensures ReceivedBy(Process(ev, addr, ConfigDesc(n, m), received, count).notes, j) == fs
    {
      BroadcastAllPerDriver(count, addr, fs, j);
    }
  }

  /**
    ConfigDesc(n, m) with well-formed frames followed by a malformed one: the earlier
    frames have been broadcast, no request is issued, and the state is ParseError.
    With no well-formed frames at all this is a garbled first frame; the empty
    buffer is EmptyBufferFails.
   */
  lemma ConfigDescMalformedTail(ev: Event, addr: DeviceAddress, received: seq<byte>, count: nat,
                                n: byte, m: byte, fs: seq<Frame>, bad: seq<byte>)
    requires ev.ControlInData? && ev.length as int <= |received| && n < 0xFF
    requires forall i :: 0 <= i < |fs| ==> Encodable(fs[i])
    requires bad != [] && AnyDescriptor(bad).Malformed?
    requires received[..ev.length] == EncodeFrames(fs) + bad
    ensures Process(ev, addr, ConfigDesc(n, m), received, count)
         == Outcome(ParseError, None, BroadcastAll(count, addr, fs))
  {
    WalkStopsAtMalformed(fs, bad, addr, count);
  }

  /** An empty buffer fails the first frame parse in every state: ParseError, nothing issued, nobody notified. */
  lemma EmptyBufferFails(src: Option<DeviceAddress>, addr: DeviceAddress, state: DiscoveryState,
                         received: seq<byte>, count: nat)
    requires !state.IsTerminal() && NoOverflow(state)
    ensures Process(ControlInData(src, 0), addr, state, received, count) == Outcome(ParseError, None, [])
  {
    assert received[..0] == [];
  }

  /**
    In every non-terminal state, a transfer whose first frame is malformed gives
    ParseError, with no request and no notification.
   */
  lemma MalformedFirstFrameFails(ev: Event, addr: DeviceAddress, state: DiscoveryState,
                                 received: seq<byte>, count: nat)
    requires !state.IsTerminal() && NoOverflow(state)
    requires ev.ControlInData? && ev.length as int <= |received|
    requires AnyDescriptor(received[..ev.length]).Malformed?
    ensures Process(ev, addr, state, received, count) == Outcome(ParseError, None, [])
  {
  }

  /** A truncated frame (bLength 5, two bytes received) is one such transfer. */
  lemma TruncatedFrameFails(addr: DeviceAddress, state: DiscoveryState, count: nat)
    requires !state.IsTerminal() && NoOverflow(state)
    ensures Process(ControlInData(Some(addr), 2), addr, state, [5, 1], count) == Outcome(ParseError, None, [])
  {
    MalformedFirstFrameFails(ControlInData(Some(addr), 2), addr, state, [5, 1], count);
  }

  /**
    The (n, m) invariant: n < m, or n = 0 = m when the device reports no
    configuration at all.
   */
  predicate Inv(state: DiscoveryState) {
    (state.ConfigDescLen? || state.ConfigDesc?) ==> state.n < state.m || state.n == 0 == state.m
  }

  /** Every state satisfying the invariant can be processed without the 8-bit counter overflowing. */
  lemma InvNoOverflow(state: DiscoveryState)
    requires Inv(state)
    ensures NoOverflow(state)
  {
  }

  /**
    Processing keeps the invariant; m never changes once read from the device
    descriptor, and n grows by exactly one, only on ConfigDesc -> ConfigDescLen.
   */
  lemma ProcessPreservesInv(ev: Event, addr: DeviceAddress, state: DiscoveryState, received: seq<byte>, count: nat)
    requires !state.IsTerminal() && Inv(state)
    requires ev.ControlInData? ==> ev.length as int <= |received|
    ensures NoOverflow(state)
    ensures var next := Process(ev, addr, state, received, count).next;
      && Inv(next)
      && ((state.ConfigDescLen? || state.ConfigDesc?) && (next.ConfigDescLen? || next.ConfigDesc?) ==> next.m == state.m)
      && (state.ConfigDescLen? && next.ConfigDesc? ==> next.n == state.n)
      && (state.ConfigDesc? && next.ConfigDescLen? ==> next.n as int == state.n as int + 1)
  {
    InvNoOverflow(state);
  }

  /** A measure of the work left: every data event strictly lowers it. */
  function Rank(state: DiscoveryState): nat
    requires Inv(state)
  {
    match state
    case DeviceDesc => 2 * 0x100 + 3
    case ConfigDescLen(n, m) => 2 * (m as int - n as int) + 2
    case ConfigDesc(n, m) => 2 * (m as int - n as int) + 1
    case Done => 0
    case ParseError => 0
  }

  /** Every data event moves discovery strictly closer to a terminal state. */
  lemma DataEventMakesProgress(ev: Event, addr: DeviceAddress, state: DiscoveryState, received: seq<byte>, count: nat)
    requires ev.ControlInData? && ev.length as int <= |received|
    requires !state.IsTerminal() && Inv(state)
    ensures NoOverflow(state)
    ensures Inv(Process(ev, addr, state, received, count).next)
    ensures Rank(Process(ev, addr, state, received, count).next) < Rank(state)
  {
    ProcessPreservesInv(ev, addr, state, received, count);
  }

  /** The effects of a run of data events, one per received buffer. */
  datatype Trace = Trace(final: DiscoveryState, requests: seq<Request>, notes: seq<Notification>)

  /**
    Feeds each buffer of `buffers` to the machine as a complete control-in
    transfer, stopping at a terminal state.
   */
  function Run(addr: DeviceAddress, state: DiscoveryState, buffers: seq<seq<byte>>, count: nat): (t: Trace)
    requires Inv(state)
    requires forall i :: 0 <= i < |buffers| ==> |buffers[i]| < 0x1_0000
    ensures Inv(t.final)
    ensures state.IsTerminal() ==> t == Trace(state, [], [])
    decreases |buffers|
  {
    if buffers == [] || state.IsTerminal() then Trace(state, [], [])
    else
      var ev := ControlInData(None, |buffers[0]| as u16);
      ProcessPreservesInv(ev, addr, state, buffers[0], count);
      var o := Process(ev, addr, state, buffers[0], count);
      var t := Run(addr, o.next, buffers[1..], count);
      Trace(t.final, Issued(o.request) + t.requests, o.notes + t.notes)
  }

  /** One step of a run: the first buffer's transition, followed by the run of the rest. */
  lemma RunStep(addr: DeviceAddress, state: DiscoveryState, buffers: seq<seq<byte>>, count: nat)
    requires Inv(state) && !state.IsTerminal() && buffers != []
    requires forall i :: 0 <= i < |buffers| ==> |buffers[i]| < 0x1_0000
    ensures NoOverflow(state)
    ensures Inv(Process(ControlInData(None, |buffers[0]| as u16), addr, state, buffers[0], count).next)
    ensures var o := Process(ControlInData(None, |buffers[0]| as u16), addr, state, buffers[0], count);
      var t := Run(addr, o.next, buffers[1..], count);
      Run(addr, state, buffers, count) == Trace(t.final, Issued(o.request) + t.requests, o.notes + t.notes)
  {
    ProcessPreservesInv(ControlInData(None, |buffers[0]| as u16), addr, state, buffers[0], count);
  }

  /**
    What a device answers for one configuration: the header frame, which declares
    wTotalLength `total`, and the frames of the whole configuration bundle.
   */
  datatype Round = Round(header: Frame, total: u16, bundle: seq<Frame>)

  /** A header that parses to its declared length, and a bundle of at least one frame that fits one transfer. */
  predicate WellFormedRound(r: Round) {
    && Encodable(r.header) && ConfigTotalLength(r.header.data) == Some(r.total)
    && r.bundle != [] && (forall i :: 0 <= i < |r.bundle| ==> Encodable(r.bundle[i]))
    && |EncodeFrames(r.bundle)| < 0x1_0000
  }

  /** The transfers a device answers with, configuration by configuration: the header, then the bundle. */
  function RoundBuffers(rs: seq<Round>): (bs: seq<seq<byte>>)
    requires forall i :: 0 <= i < |rs| ==> WellFormedRound(rs[i])
    ensures |bs| == 2 * |rs|
    ensures forall i :: 0 <= i < |bs| ==> |bs[i]| < 0x1_0000
  {
    if rs == [] then []
    else
      assert WellFormedRound(rs[0]);
      var later := RoundBuffers(rs[1..]);
      var bs := [EncodeFrame(rs[0].header), EncodeFrames(rs[0].bundle)] + later;
      assert |bs[0]| < 0x100 && |bs[1]| < 0x1_0000;
      assert forall i :: 2 <= i < |bs| ==> bs[i] == later[i - 2];
      bs
  }

  /** Every bundle's frames, in order. */
  function BundleFrames(rs: seq<Round>): seq<Frame> {
    if rs == [] then [] else rs[0].bundle + BundleFrames(rs[1..])
  }

  /**
    The requests of the configuration rounds from index n on: each configuration's
    full length, and the next configuration's 9-byte header unless it was the last.
   */
  function RoundRequests(addr: DeviceAddress, n: nat, rs: seq<Round>): seq<Request>
    requires n + |rs| <= 0x100
    decreases |rs|
  {
    if rs == [] then []
    else
      [Request(addr, TYPE_CONFIGURATION, n as byte, rs[0].total)]
      + (if |rs| > 1 then [Request(addr, TYPE_CONFIGURATION, (n + 1) as byte, 9)] else [])
      + RoundRequests(addr, n + 1, rs[1..])
  }

  lemma {:induction false} BroadcastAllAppend(count: nat, addr: DeviceAddress, a: seq<Frame>, b: seq<Frame>)
    ensures BroadcastAll(count, addr, a + b) == BroadcastAll(count, addr, a) + BroadcastAll(count, addr, b)
  {
    if a == [] {
      assert a + b == b;
    } else {
      assert (a + b)[1..] == a[1..] + b;
      BroadcastAllAppend(count, addr, a[1..], b);
    }
  }

  /** The header answer of a round: ConfigDescLen(n, m) -> ConfigDesc(n, m), requesting the full length. */
  lemma HeaderStep(addr: DeviceAddress, count: nat, n: byte, m: byte, r: Round, tail: seq<seq<byte>>)
    requires Inv(ConfigDescLen(n, m)) && WellFormedRound(r)
    requires forall i :: 0 <= i < |tail| ==> |tail[i]| < 0x1_0000
    ensures var bs := [EncodeFrame(r.header)] + tail;
      && (forall i :: 0 <= i < |bs| ==> |bs[i]| < 0x1_0000)
      && Inv(ConfigDesc(n, m))
      && Run(addr, ConfigDescLen(n, m), bs, count)
         == Trace(Run(addr, ConfigDesc(n, m), tail, count).final,
                  [Request(addr, TYPE_CONFIGURATION, n, r.total)] + Run(addr, ConfigDesc(n, m), tail, count).requests,
                  Run(addr, ConfigDesc(n, m), tail, count).notes)
  {
    var h := EncodeFrame(r.header);
    var bs := [h] + tail;
    assert forall i :: 1 <= i < |bs| ==> bs[i] == tail[i - 1];
    assert bs[1..] == tail;
    var e := ControlInData(None, |h| as u16);
    assert h[..e.length] == h + [];
    ConfigDescLenWellFormed(e, addr, h, count, n, m, r.header, [], r.total);
    RunStep(addr, ConfigDescLen(n, m), bs, count);
  }

  /** The bundle answer of a round: ConfigDesc(n, m) -> the next round or Done, broadcasting the bundle. */
  lemma BundleStep(addr: DeviceAddress, count: nat, n: byte, m: byte, r: Round, later: seq<seq<byte>>)
    requires Inv(ConfigDesc(n, m)) && WellFormedRound(r)
    requires forall i :: 0 <= i < |later| ==> |later[i]| < 0x1_0000
    ensures var next := if n as int + 1 < m as int then ConfigDescLen(n + 1, m) else Done;
      var bs := [EncodeFrames(r.bundle)] + later;
      && (forall i :: 0 <= i < |bs| ==> |bs[i]| < 0x1_0000)
      && Inv(next)
      && Run(addr, ConfigDesc(n, m), bs, count)
         == Trace(Run(addr, next, later, count).final,
                  (if next.Done? then [] else [Request(addr, TYPE_CONFIGURATION, n + 1, 9)])
                  + Run(addr, next, later, count).requests,
                  BroadcastAll(count, addr, r.bundle) + Run(addr, next, later, count).notes)
  {
    var fs := EncodeFrames(r.bundle);
    var bs := [fs] + later;
    assert forall i :: 1 <= i < |bs| ==> bs[i] == later[i - 1];
    assert bs[1..] == later;
    var e := ControlInData(None, |fs| as u16);
    assert fs[..e.length] == fs;
    InvNoOverflow(ConfigDesc(n, m));
    ConfigDescBundle(e, addr, fs, count, n, m, r.bundle);
    RunStep(addr, ConfigDesc(n, m), bs, count);
  }

  /**
    One configuration round from ConfigDescLen(n, m): the header answer leads to
    ConfigDesc(n, m) and a request for the full length, the bundle answer
    broadcasts its frames and leads to the next round or to Done.
   */
  lemma OneRound(addr: DeviceAddress, count: nat, n: byte, m: byte, r: Round, later: seq<seq<byte>>)
    requires Inv(ConfigDescLen(n, m)) && WellFormedRound(r)
    requires forall i :: 0 <= i < |later| ==> |later[i]| < 0x1_0000
    ensures var next := if n as int + 1 < m as int then ConfigDescLen(n + 1, m) else Done;
      var bs := [EncodeFrame(r.header), EncodeFrames(r.bundle)] + later;
      && (forall i :: 0 <= i < |bs| ==> |bs[i]| < 0x1_0000)
      && Inv(next)
      && Run(addr, ConfigDescLen(n, m), bs, count)
         == Trace(Run(addr, next, later, count).final,
                  [Request(addr, TYPE_CONFIGURATION, n, r.total)]
                  + (if next.Done? then [] else [Request(addr, TYPE_CONFIGURATION, n + 1, 9)])
                  + Run(addr, next, later, count).requests,
                  BroadcastAll(count, addr, r.bundle) + Run(addr, next, later, count).notes)
  {
    var tail := [EncodeFrames(r.bundle)] + later;
    assert [EncodeFrame(r.header), EncodeFrames(r.bundle)] + later == [EncodeFrame(r.header)] + tail;
    BundleStep(addr, count, n, m, r, later);
    HeaderStep(addr, count, n, m, r, tail);
  }

  /**
    The configuration rounds from ConfigDescLen(n, m) to the end: with well-formed
    answers for configurations n .. m-1 (configuration 0 alone when the device
    reports none), discovery ends in Done, issues the round requests, and
    broadcasts every bundle's frames in order.
   */
  lemma {:induction false} Rounds(addr: DeviceAddress, count: nat, n: byte, m: byte, rs: seq<Round>)
    requires |rs| >= 1
    requires n as int + |rs| == m as int || (n == 0 == m && |rs| == 1)
    requires forall i :: 0 <= i < |rs| ==> WellFormedRound(rs[i])
    ensures Inv(ConfigDescLen(n, m)) && n as int + |rs| <= 0x100
    ensures Run(addr, ConfigDescLen(n, m), RoundBuffers(rs), count)
         == Trace(Done, RoundRequests(addr, n as nat, rs), BroadcastAll(count, addr, BundleFrames(rs)))
    decreases |rs|
  {
    assert WellFormedRound(rs[0]);
    var later := RoundBuffers(rs[1..]);
    assert RoundBuffers(rs) == [EncodeFrame(rs[0].header), EncodeFrames(rs[0].bundle)] + later;
    var here := [Request(addr, TYPE_CONFIGURATION, n, rs[0].total)];
    var sent := BroadcastAll(count, addr, rs[0].bundle);
    BroadcastAllAppend(count, addr, rs[0].bundle, BundleFrames(rs[1..]));
    assert BroadcastAll(count, addr, BundleFrames(rs)) == sent + BroadcastAll(count, addr, BundleFrames(rs[1..]));
    if |rs| > 1 {
      var next := ConfigDescLen(n + 1, m);
      Rounds(addr, count, n + 1, m, rs[1..]);
      var t := Run(addr, next, later, count);
      assert t == Trace(Done, RoundRequests(addr, n as nat + 1, rs[1..]), BroadcastAll(count, addr, BundleFrames(rs[1..])));
      assert RoundRequests(addr, n as nat, rs)
          == here + [Request(addr, TYPE_CONFIGURATION, n + 1, 9)] + RoundRequests(addr, n as nat + 1, rs[1..]);
      assert Run(addr, ConfigDescLen(n, m), RoundBuffers(rs), count)
          == Trace(t.final, here + [Request(addr, TYPE_CONFIGURATION, n + 1, 9)] + t.requests, sent + t.notes) by {
        OneRound(addr, count, n, m, rs[0], later);
      }
    } else {
      assert later == [] && BundleFrames(rs[1..]) == [];
      assert RoundRequests(addr, n as nat, rs) == here + [] + [];
      assert Run(addr, ConfigDescLen(n, m), RoundBuffers(rs), count) == Trace(Done, here + [] + [], sent + []) by {
        OneRound(addr, count, n, m, rs[0], later);
        assert Run(addr, Done, later, count) == Trace(Done, [], []);
      }
    }
  }

  /**
    A whole enumeration: a device whose descriptor reports m configurations, and
    that answers each request with a well-formed descriptor, is walked to Done.
    The requests after the initial one are the header of configuration 0 and then
    the rounds; every driver receives the device descriptor and then every frame of
    every bundle, in order, and nothing else.
   */
  lemma Enumeration(addr: DeviceAddress, count: nat, dev: Frame, m: byte, rs: seq<Round>)
    requires Encodable(dev) && DeviceConfigCount(dev.data) == Some(m)
    requires |rs| == if m == 0 then 1 else m as int
    requires forall i :: 0 <= i < |rs| ==> WellFormedRound(rs[i])
    ensures |rs| <= 0x100
    ensures var t := Run(addr, DeviceDesc, [EncodeFrame(dev)] + RoundBuffers(rs), count);
      && t.final == Done
      && t.requests == [Request(addr, TYPE_CONFIGURATION, 0, 9)] + RoundRequests(addr, 0, rs)
      && (forall j :: 0 <= j < count ==> ReceivedBy(t.notes, j) == [dev] + BundleFrames(rs))
      && (forall j :: count <= j ==> ReceivedBy(t.notes, j) == [])
  {
    var b := EncodeFrame(dev);
    var bs := [b] + RoundBuffers(rs);
    assert bs[0] == b && bs[1..] == RoundBuffers(rs);
    var e := ControlInData(None, |b| as u16);
    assert b[..e.length] == b + [];
    DeviceDescWellFormed(e, addr, b, count, dev, [], m);
    RunStep(addr, DeviceDesc, bs, count);
    Rounds(addr, count, 0, m, rs);
    var t := Run(addr, DeviceDesc, bs, count);
    var n0 := Broadcast(count, addr, dev);
    var rest := BroadcastAll(count, addr, BundleFrames(rs));
    assert t.notes == n0 + rest;
    forall j: nat
      ensures ReceivedBy(t.notes, j) == if j < count then [dev] + BundleFrames(rs) else []
    {
      ReceivedByBroadcast(count, addr, dev, j);
      BroadcastAllPerDriver(count, addr, BundleFrames(rs), j);
      ReceivedByAppend(n0, rest, j);
    }
  }
}
