# USB device discovery state machine

A Dafny model of the enumeration state machine of the `usbh` USB host stack. After
a device has been addressed, the machine walks it through GET_DESCRIPTOR control
transfers (section 9.4.3 of the USB 2.0 specification):

1. `StartDiscovery` requests the 18-byte device descriptor and returns `DeviceDesc`.
2. In `DeviceDesc`, the received device descriptor is forwarded to every driver.
   Its bNumConfigurations `m` is read, and the 9-byte header of configuration 0 is
   requested. The next state is `ConfigDescLen(0, m)`.
3. In `ConfigDescLen(n, m)`, wTotalLength `L` is read from the header, and
   configuration `n` is requested with length `L`. The next state is `ConfigDesc(n, m)`.
4. In `ConfigDesc(n, m)`, every descriptor frame of the bundle is forwarded to
   every driver until no bytes remain. Then the header of configuration `n + 1` is
   requested (`ConfigDescLen(n + 1, m)`), or, after the last configuration, nothing
   is requested (`Done`).
5. Any malformed frame or field leads to `ParseError`, and no request is issued.

Files:

- `descriptor.dfy` (module `Descriptor`): bytes, descriptor frames, and the frame
  and field parsers the machine calls. These follow sections 9.5, 9.6.1 and 9.6.3
  of USB 2.0. The frame parser comes with its encoder and a round-trip lemma.
- `host.dfy` (module `Host`): what the machine sees of its collaborators.
  `UsbHost` has an idle flag, the receive buffer and the log of requests issued.
  `Drivers` has the number of registered drivers and the ordered log of the
  descriptor notifications they received.
- `discovery.dfy` (module `Discovery`): `DiscoveryState`, `Event`, and `Process`,
  the transition as a value (next state, at most one request, the notifications
  in order). It also holds the operations themselves (`StartDiscovery`,
  `ProcessDiscovery`, with the per-frame `Dispatch` and the bundle loop
  `DispatchBundle`). `ProcessDiscovery`'s postcondition ties its effect on the
  host and the drivers to `Process`. `Dispatch` and `DispatchBundle` are proved
  equal to `Broadcast` and `Walk`, which `Process` uses. `StartDiscovery` states
  its single request outright.
- `properties.dfy` (module `DiscoveryProperties`): what each state does with
  well-formed and malformed input, and per-driver delivery order. It also holds
  the (n, m) invariant, progress, and a whole enumeration of a device with any
  number of configurations, via `Run`, which feeds a sequence of received buffers
  to `Process`.

## Model

| member | source | states |
|---|---|---|
| `Discovery.StartDiscovery` | src/discovery.rs:24-40 | exactly one request, GET_DESCRIPTOR(Device, index 0, length 18), is appended to the host's log; the bus is then busy; the result is `DeviceDesc` |
| `Discovery.Process` | src/discovery.rs:42-159 | a non-data event returns the state unchanged, with no request and no notification; after a data event a request is issued exactly when the next state is non-terminal (so `Done` and `ParseError` leave the bus idle); every request goes to the device being discovered and asks for a configuration descriptor |
| `Discovery.ProcessDiscovery` | src/discovery.rs:42-159 | the returned state, the notifications appended to the drivers' log and the requests appended to the host's log (at most one) are those of `Process`; the bus becomes busy exactly when a request was issued; terminal states are excluded by precondition (`unreachable!()`) |
| `Discovery.Dispatch` | src/discovery.rs:58-60 | the frame is delivered to drivers 0 .. count-1, once each, in slice order |
| `Discovery.DispatchBundle` | src/discovery.rs:115-133 | the loop delivers the frames of the bundle one after the other, each to every driver, and stops with success when the remainder is empty or with failure at the first malformed frame; earlier deliveries are kept; it terminates because each parse shortens the data |
| `Discovery.Broadcast` | src/discovery.rs:121-127 | one notification per driver, the j-th going to driver j with the frame's type and payload |
| `Discovery.Walk` | src/discovery.rs:116-133 | an empty buffer fails; every notification of the walk names the device and a registered driver |
| `Host.UsbHost.ReceivedData` | src/discovery.rs:53 | the data handed to the parser is exactly the first `length` bytes of the receive buffer |
| `Host.Drivers.Notify` | src/discovery.rs:58-60 | one descriptor callback appends exactly one notification, naming the driver, the device, the descriptor type and the payload, after all earlier ones |
| `Descriptor.DeviceConfigCount` | src/discovery.rs:61-64 | bNumConfigurations is found exactly when the device payload holds at least 16 bytes, and it is payload byte 15 (offset 17 of the descriptor) |
| `Descriptor.ConfigTotalLength` | src/discovery.rs:91-94 | wTotalLength is found exactly when the header payload holds at least 2 bytes; its value is given by `ConfigTotalLengthDecodes` |
| `Host.UsbHost.GetDescriptor` | src/discovery.rs:66-76 | a request may only be issued while the bus is idle; it is appended to the log and the bus becomes busy |
| `Descriptor.AnyDescriptor` | src/discovery.rs:117-120 | the frame parse fails exactly when bLength is below 2 or runs past the input; on success the remainder is strictly shorter and the input is the frame's encoding followed by the remainder |
| `Descriptor.ParseEncode` | src/discovery.rs:116-120 | parsing an encoded frame returns that frame and exactly the bytes after it |
| `Descriptor.ConfigTotalLengthDecodes` | src/discovery.rs:91 | wTotalLength written little-endian at the head of a header payload is read back unchanged |
| `DiscoveryProperties.ReceivedByBroadcast` | src/discovery.rs:58-60 | one broadcast reaches every registered driver exactly once with that frame, and no other driver |
| `DiscoveryProperties.BroadcastAllPerDriver` | src/discovery.rs:121-127 | when frames are broadcast in sequence, each registered driver receives exactly those frames, in their order |
| `DiscoveryProperties.BroadcastAllShape` | src/discovery.rs:116-133 | k frames broadcast to `count` drivers make k * count notifications, each naming the device and a registered driver |
| `DiscoveryProperties.WalkFrames` | src/discovery.rs:116-133 | a buffer of k well-formed frames (k at least 1) is walked to the end with success, and the frames are broadcast in buffer order |
| `DiscoveryProperties.WalkStopsAtMalformed` | src/discovery.rs:117-120 | a malformed frame after well-formed ones ends the walk with failure, after the earlier frames were broadcast |
| `DiscoveryProperties.SplitFrames` | src/discovery.rs:116-133 | every buffer is a run of well-formed frames followed by a remainder that is empty or begins with a malformed frame |
| `DiscoveryProperties.WalkCovers` | src/discovery.rs:116-133 | for any buffer, the walk succeeds exactly when the buffer is a non-empty run of well-formed frames, and it broadcasts, in order, the frames before the first malformed one |
| `DiscoveryProperties.DeviceDescWellFormed` | src/discovery.rs:50-78 | `DeviceDesc` with a well-formed device descriptor reporting m configurations: every driver receives that descriptor once, GET_DESCRIPTOR(Configuration, 0, 9) is issued, and the next state is `ConfigDescLen(0, m)` |
| `DiscoveryProperties.DeviceDescBadPayload` | src/discovery.rs:58-64 | a frame that parses but is not a device descriptor has already reached every driver; the result is `ParseError` with no request |
| `DiscoveryProperties.ConfigDescLenWellFormed` | src/discovery.rs:83-107 | `ConfigDescLen(n, m)` with a header declaring total length L: no driver is notified, GET_DESCRIPTOR(Configuration, n, L) is issued, and the next state is `ConfigDesc(n, m)` |
| `DiscoveryProperties.ConfigDescLenBadPayload` | src/discovery.rs:91-94 | a header frame too short to hold wTotalLength gives `ParseError`, with no request and no notification |
| `DiscoveryProperties.ConfigDescBundle` | src/discovery.rs:112-152 | `ConfigDesc(n, m)` with k well-formed frames: each driver receives the k frames in buffer order; if n + 1 < m then GET_DESCRIPTOR(Configuration, n + 1, 9) is issued and the next state is `ConfigDescLen(n + 1, m)`, otherwise nothing is issued and the state is `Done` |
| `DiscoveryProperties.ConfigDescMalformedTail` | src/discovery.rs:115-120 | `ConfigDesc(n, m)` with well-formed frames followed by a malformed one: the earlier frames have been broadcast, no request is issued, and the state is `ParseError` |
| `DiscoveryProperties.EmptyBufferFails` | src/discovery.rs:54-57 | in every non-terminal state an empty transfer gives `ParseError`, with no request and no notification |
| `DiscoveryProperties.MalformedFirstFrameFails` | src/discovery.rs:54-57 | in `DeviceDesc`, `ConfigDescLen` and `ConfigDesc`, a transfer whose first frame is malformed (too short, bLength below 2, or bLength past the data) gives `ParseError`, with no request and no notification |
| `DiscoveryProperties.TruncatedFrameFails` | src/discovery.rs:87-90 | a two-byte transfer whose bLength claims 5 bytes gives `ParseError` with no request and no notification, in every non-terminal state |
| `DiscoveryProperties.InvNoOverflow` | src/discovery.rs:134 | under the invariant "n < m, or n = 0 = m", the 8-bit `n + 1` cannot overflow |
| `DiscoveryProperties.ProcessPreservesInv` | src/discovery.rs:78-147 | the invariant is kept; m never changes after `DeviceDesc`; n is kept by `ConfigDescLen` to `ConfigDesc` and grows by exactly one from `ConfigDesc` to `ConfigDescLen` |
| `DiscoveryProperties.DataEventMakesProgress` | src/discovery.rs:49-159 | every data event strictly lowers a measure of the remaining work, so discovery reaches a terminal state after a bounded number of data events |
| `DiscoveryProperties.Run` | src/discovery.rs:42-159 | feeding received buffers in order keeps the invariant, and nothing happens once a terminal state is reached |
| `DiscoveryProperties.RunStep` | src/discovery.rs:42-159 | a run is its first transition followed by the run of the remaining buffers |
| `DiscoveryProperties.HeaderStep` | src/discovery.rs:83-107 | within a run, a well-formed header answer to `ConfigDescLen(n, m)` issues GET_DESCRIPTOR(Configuration, n, L) and continues in `ConfigDesc(n, m)` without notifying any driver |
| `DiscoveryProperties.BundleStep` | src/discovery.rs:112-152 | within a run, a well-formed bundle answer to `ConfigDesc(n, m)` broadcasts the bundle, then issues the next header request and continues in `ConfigDescLen(n + 1, m)`, or continues in `Done` with no request |
| `DiscoveryProperties.OneRound` | src/discovery.rs:83-152 | one configuration round (header answer, then bundle answer) issues the full-length request, then the next header request unless it was the last, and broadcasts the bundle |
| `DiscoveryProperties.Rounds` | src/discovery.rs:83-152 | the rounds from `ConfigDescLen(n, m)` with well-formed answers end in `Done`, issue the round requests in order, and broadcast every bundle's frames in order |
| `DiscoveryProperties.Enumeration` | src/discovery.rs:24-159 | a device reporting m configurations that answers every request well-formed is walked to `Done`; the requests are the configuration-0 header and then the rounds; every driver receives the device descriptor and then every bundle frame in order, and unregistered drivers receive nothing (the two-configuration walk with bundles of 3 and 2 frames is the instance m = 2) |

## Left out

- `descriptor::parse` (`any_descriptor`, `device_descriptor`, `configuration_descriptor_length`) is not part of this model. `Descriptor` stands in for it using the USB 2.0 layouts. A frame needs 2 <= bLength <= the available bytes. Its payload is the bytes after the two header bytes. The device payload must hold at least 16 bytes, and bNumConfigurations is payload byte 15. The header payload must hold at least 2 bytes, and wTotalLength is payload bytes 0-1, little-endian. The real parser may accept or reject other inputs.
- `HostBus` and `received_data`: hardware I/O. The receive buffer is the sequence `UsbHost.received`. `Host.UsbHost.ReceivedData` requires that the event's length not exceed it; the hardware reports no more than it received.
- `UsbHost::get_descriptor` internals: it is reduced to appending to a request log. Its `.ok().unwrap()` panic on a busy bus becomes the precondition "bus idle".
- `Driver` implementations: foreign trait objects. They appear only as the ordered notification log, in which each entry records the driver's place in the slice.
- `defmt::trace!` logging has no behavioural effect and is omitted.
- The `Recipient::Device` and `None` sub-address arguments are constants passed through; `Request` omits them.
- `Event` variants other than `ControlInData` collapse into `Other`. The source ignores the address carried by `ControlInData` and uses its `dev_addr` argument, and so does the model.
- `Discovery.Process`: calling it on `Done` or `ParseError` hits `unreachable!()`, so non-terminal states are a precondition. It also requires `n < 255` in `ConfigDesc`, because `n + 1` is 8-bit arithmetic in the source. `DiscoveryProperties.InvNoOverflow` shows that every state satisfying the invariant meets this.
- When the device reports zero configurations, the code still fetches configuration 0 (`ConfigDescLen(0, 0)`, then `ConfigDesc(0, 0)`, then `Done`). The model follows the code, not a description that promises n < m in every configuration state. Hence the invariant is "n < m, or n = 0 = m". The code moves to `Done` whenever n + 1 >= m, not only when n + 1 = m.
- Address assignment, other event meanings, hot-plug and retries are not in this code. Concurrency is left to the caller, which serialises events per device.
