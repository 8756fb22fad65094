/**
  The USB enumeration state machine: starting from a freshly addressed device it
  requests the device descriptor, then for each configuration first the 9-byte
  configuration header (to learn wTotalLength) and then the whole configuration
  bundle, forwarding every descriptor it parses to every driver.

  `Process` is the transition as a value: the next state, the request issued (at
  most one) and the notifications delivered, in order. `StartDiscovery` and
  `ProcessDiscovery` are the operations themselves, acting on the host and the
  drivers. `ProcessDiscovery`'s postcondition ties its effect to `Process`;
  `Dispatch` and `DispatchBundle` are proved equal to `Broadcast` and `Walk`,
  which `Process` uses; `StartDiscovery` states its single request outright.
 */
module Discovery {
  import opened Descriptor
  import opened Host

  datatype DiscoveryState =
    | DeviceDesc                      // awaiting the device descriptor
    | ConfigDescLen(n: byte, m: byte) // awaiting the header of configuration n of m
    | ConfigDesc(n: byte, m: byte)    // awaiting the whole configuration n of m
    | Done                            // every configuration walked
    | ParseError                      // a descriptor could not be parsed
  {
    /** No transfer is outstanding and no further event may be processed. */
    predicate IsTerminal() {
      Done? || ParseError?
    }
  }

  /** The events this machine consumes; `Other` stands for every other host event. */
  datatype Event =
    | ControlInData(source: Option<DeviceAddress>, length: u16)
    | Other

  /** What one transition does: the next state, the request issued and the notifications made. */
  datatype Outcome = Outcome(next: DiscoveryState, request: Option<Request>, notes: seq<Notification>)

  /** What walking a configuration bundle does: whether every frame parsed, and the notifications made. */
  datatype Walked = Walked(ok: bool, notes: seq<Notification>)

  const DEVICE_DESCRIPTOR_LENGTH: u16 := 18
  const CONFIGURATION_HEADER_LENGTH: u16 := 9

  /** The request log entries for an optional request. */
  function Issued(request: Option<Request>): seq<Request>
  {
    if request.Some? then [request.value] else []
  }

  /** Frame `f` delivered to drivers 0 .. count-1, in that order. */
  function Broadcast(count: nat, addr: DeviceAddress, f: Frame): (notes: seq<Notification>)
    ensures |notes| == count
    ensures forall j :: 0 <= j < count ==>
              notes[j] == Notification(j, addr, f.descriptorType, f.data)
  {
    if count == 0 then [] else Broadcast(count - 1, addr, f) + [Notification(count - 1, addr, f.descriptorType, f.data)]
  }

  /** Frames `fs` delivered one after the other, each to every driver. */
  function BroadcastAll(count: nat, addr: DeviceAddress, fs: seq<Frame>): (notes: seq<Notification>)
  {
    if fs == [] then [] else Broadcast(count, addr, fs[0]) + BroadcastAll(count, addr, fs[1..])
  }

  /**
    The dispatch loop of the ConfigDesc state: parse a frame, deliver it to every
    driver, and go on with the remainder until it is empty. A malformed frame stops
    the walk; what was delivered before it stays delivered.
   */
  function Walk(data: seq<byte>, addr: DeviceAddress, count: nat): (r: Walked)
    ensures data == [] ==> r == Walked(false, [])
    ensures forall i :: 0 <= i < |r.notes| ==> r.notes[i].driver < count && r.notes[i].addr == addr
    decreases |data|
  {
    match AnyDescriptor(data)
    case Malformed => Walked(false, [])
    case Parsed(rest, f) =>
      var here := Broadcast(count, addr, f);
      if |rest| == 0 then Walked(true, here)
      else
        var w := Walk(rest, addr, count);
        Walked(w.ok, here + w.notes)
  }

  /** `n + 1` in the state does not overflow the source's 8-bit counter. */
  predicate NoOverflow(state: DiscoveryState) {
    state.ConfigDesc? ==> state.n < 0xFF
  }

  /**
    One transition for device `addr` in `state`, on event `ev`, with `received`
    the host's receive buffer and `count` registered drivers.
   */
  function Process(ev: Event, addr: DeviceAddress, state: DiscoveryState, received: seq<byte>, count: nat): (r: Outcome)
    requires !state.IsTerminal() && NoOverflow(state)
    requires ev.ControlInData? ==> ev.length as int <= |received|
    ensures ev.Other? ==> r == Outcome(state, None, [])
    ensures ev.ControlInData? ==> (r.request.Some? <==> !r.next.IsTerminal())
    ensures r.request.Some? ==> r.request.value.addr == addr && r.request.value.descriptorType == TYPE_CONFIGURATION
  {
    match ev
    case Other => Outcome(state, None, [])
    case ControlInData(_, length) =>
      var data := received[..length];
      match state
      case DeviceDesc =>
        (match AnyDescriptor(data)
         case Malformed => Outcome(ParseError, None, [])
         case Parsed(_, f) =>
           var notes := Broadcast(count, addr, f);
           match DeviceConfigCount(f.data)
           case None => Outcome(ParseError, None, notes)
           case Some(m) =>
             Outcome(ConfigDescLen(0, m), Some(Request(addr, TYPE_CONFIGURATION, 0, CONFIGURATION_HEADER_LENGTH)), notes))
      case ConfigDescLen(n, m) =>
        (match AnyDescriptor(data)
         case Malformed => Outcome(ParseError, None, [])
         case Parsed(_, f) =>
           match ConfigTotalLength(f.data)
           case None => Outcome(ParseError, None, [])
           case Some(total) => Outcome(ConfigDesc(n, m), Some(Request(addr, TYPE_CONFIGURATION, n, total)), []))
      case ConfigDesc(n, m) =>
        var w := Walk(data, addr, count);
        if !w.ok then Outcome(ParseError, None, w.notes)
        else if n + 1 < m then
          Outcome(ConfigDescLen(n + 1, m), Some(Request(addr, TYPE_CONFIGURATION, n + 1, CONFIGURATION_HEADER_LENGTH)), w.notes)
        else Outcome(Done, None, w.notes)
  }

  /** Begins discovery of device `addr` by requesting its 18-byte device descriptor. */
  method StartDiscovery(addr: DeviceAddress, host: UsbHost) returns (state: DiscoveryState)
    requires host.idle
    modifies host`idle, host`requests
    ensures state == DeviceDesc
    ensures !host.idle
    ensures host.requests == old(host.requests) + [Request(addr, TYPE_DEVICE, 0, DEVICE_DESCRIPTOR_LENGTH)]
  {
    host.GetDescriptor(addr, TYPE_DEVICE, 0, DEVICE_DESCRIPTOR_LENGTH);
    state := DeviceDesc;
  }

  /** Delivers frame `f` of device `addr` to every driver, in slice order. */
  method Dispatch(drivers: Drivers, addr: DeviceAddress, f: Frame)
    modifies drivers`log
    ensures drivers.log == old(drivers.log) + Broadcast(drivers.count, addr, f)
  {
    for i := 0 to drivers.count
      invariant drivers.log == old(drivers.log) + Broadcast(i, addr, f)
    {
      drivers.Notify(i, addr, f.descriptorType, f.data);
    }
  }

  /**
    The dispatch loop of the ConfigDesc state: delivers every frame of `data` to
    every driver until the remainder is empty; false when a frame is malformed.
   */
  method DispatchBundle(drivers: Drivers, addr: DeviceAddress, data: seq<byte>) returns (ok: bool)
    modifies drivers`log
    ensures ok == Walk(data, addr, drivers.count).ok
    ensures drivers.log == old(drivers.log) + Walk(data, addr, drivers.count).notes
  {
    var rest := data;
    ghost var sent: seq<Notification> := [];
    while true
      invariant drivers.log == old(drivers.log) + sent
      invariant Walk(data, addr, drivers.count).ok == Walk(rest, addr, drivers.count).ok
      invariant Walk(data, addr, drivers.count).notes == sent + Walk(rest, addr, drivers.count).notes
      decreases |rest|
    {
      var frame := AnyDescriptor(rest);
      if frame.Malformed? {
        return false;
      }
      Dispatch(drivers, addr, frame.value);
      ghost var here := Broadcast(drivers.count, addr, frame.value);
      if |frame.rest| > 0 {
        ghost var later := Walk(frame.rest, addr, drivers.count);
        assert Walk(rest, addr, drivers.count) == Walked(later.ok, here + later.notes);
        assert sent + (here + later.notes) == (sent + here) + later.notes;
      } else {
        assert Walk(rest, addr, drivers.count) == Walked(true, here);
      }
      sent := sent + here;
      if |frame.rest| > 0 {
        rest := frame.rest;
      } else {
        break;
      }
    }
    ok := true;
  }

  /**
    Handles one event for device `addr` in `state`: parses what was received,
    notifies the drivers, issues at most one request and returns the next state.
   */
  method ProcessDiscovery(ev: Event, addr: DeviceAddress, state: DiscoveryState, drivers: Drivers, host: UsbHost)
    returns (next: DiscoveryState)
    requires !state.IsTerminal() && NoOverflow(state)
    requires ev.ControlInData? ==> host.idle && ev.length as int <= |host.received|
    modifies drivers`log, host`idle, host`requests
    ensures var o := Process(ev, addr, state, host.received, drivers.count);
      && next == o.next
      && drivers.log == old(drivers.log) + o.notes
      && host.requests == old(host.requests) + Issued(o.request)
      && host.idle == (old(host.idle) && o.request.None?)
  {
    match state
    case DeviceDesc =>
      match ev {
      case ControlInData(_, length) =>
        var data := host.ReceivedData(length);
        var frame := AnyDescriptor(data);
        if frame.Malformed? {
          return ParseError;
        }
        Dispatch(drivers, addr, frame.value);
        var configs := DeviceConfigCount(frame.value.data);
        if configs.None? {
          return ParseError;
        }
        host.GetDescriptor(addr, TYPE_CONFIGURATION, 0, CONFIGURATION_HEADER_LENGTH);
        next := ConfigDescLen(0, configs.value);
      case Other =>
        next := state;
      }
    case ConfigDescLen(n, m) =>
      match ev {
      case ControlInData(_, length) =>
        var data := host.ReceivedData(length);
        var frame := AnyDescriptor(data);
        if frame.Malformed? {
          return ParseError;
        }
        var total := ConfigTotalLength(frame.value.data);
        if total.None? {
          return ParseError;
        }
        host.GetDescriptor(addr, TYPE_CONFIGURATION, n, total.value);
        next := ConfigDesc(n, m);
      case Other =>
        next := state;
      }
    case ConfigDesc(n, m) =>
      match ev {
      case ControlInData(_, length) =>
        var data := host.ReceivedData(length);
        var ok := DispatchBundle(drivers, addr, data);
        if !ok {
          return ParseError;
        }
        if n + 1 < m {
          host.GetDescriptor(addr, TYPE_CONFIGURATION, n + 1, CONFIGURATION_HEADER_LENGTH);
          next := ConfigDescLen(n + 1, m);
        } else {
          next := Done;
        }
      case Other =>
        next := state;
      }
  }
}
