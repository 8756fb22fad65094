/**
  The two collaborators the discovery state machine acts on, reduced to what it
  can observe of them: the host's control channel (an idle flag, the last
  received buffer and the log of GET_DESCRIPTOR requests issued) and the set of
  registered drivers (the ordered log of descriptor notifications they received).
 */
module Host {
  import opened Descriptor

  /** Identifies one device on the bus; passed through, never interpreted. */
  datatype DeviceAddress = DeviceAddress(id: byte)

  /** A GET_DESCRIPTOR control-in request to the device recipient. */
  datatype Request = Request(addr: DeviceAddress, descriptorType: byte, index: byte, length: u16)

  /** One call of a driver's descriptor callback; `driver` is its place in the driver slice. */
  datatype Notification = Notification(driver: nat, addr: DeviceAddress, descriptorType: byte, data: seq<byte>)

  class UsbHost {
    /** No control transfer is outstanding. */
    var idle: bool
    /** The data of the most recent control-in transfer. */
    var received: seq<byte>
    /** Every request issued so far, oldest first. */
    var requests: seq<Request>

    constructor (received: seq<byte>)
      ensures idle && this.received == received && requests == []
    {
      idle := true;
      this.received := received;
      requests := [];
    }

    /** The first `length` bytes of the received buffer. */
    function ReceivedData(length: u16): (data: seq<byte>)
      reads this
      requires length as int <= |received|
      ensures |data| == length as int && received == data + received[length..]
    {
      received[..length]
    }

    /**
      Starts one control-in transfer. Starting one while another is outstanding is
      a contract violation (the source unwraps the error), hence the precondition.
     */
    method GetDescriptor(addr: DeviceAddress, descriptorType: byte, index: byte, length: u16)
      requires idle
      modifies this`idle, this`requests
      ensures !idle
      ensures requests == old(requests) + [Request(addr, descriptorType, index, length)]
    {
      requests := requests + [Request(addr, descriptorType, index, length)];
      idle := false;
    }
  }

  class Drivers {
    /** How many drivers are registered. */
    const count: nat
    /** Every notification delivered so far, in delivery order. */
    var log: seq<Notification>

    constructor (count: nat)
      ensures this.count == count && log == []
    {
      this.count := count;
      log := [];
    }

    /** Calls the descriptor callback of driver number `driver`. */
    method Notify(driver: nat, addr: DeviceAddress, descriptorType: byte, data: seq<byte>)
      requires driver < count
      modifies this`log
      ensures log == old(log) + [Notification(driver, addr, descriptorType, data)]
    {
      log := log + [Notification(driver, addr, descriptorType, data)];
    }
  }
}
