/**
 * The serial transport of the client: an abstract serial port (what pyserial's
 * `Serial` object does for the client) and `SerialConnection`, which gates every
 * operation on being connected and reads variable-length Paradox frames.
 *
 * Time is counted in poll intervals: bytes the panel sends arrive in chunks, one
 * chunk for each interval the client sleeps through. A read returns what has
 * already arrived.
 */
module Connection {
  import opened Wrappers
  import opened Protocol

  // ---------------------------------------------------------------------------
  // Pure model of the link
  // ---------------------------------------------------------------------------

  /** Everything a `SerialConnection` and its port hold. */
  datatype Link = Link(
    connected: bool,             // `_connected`
    open: bool,                  // `serial.is_open`
    timeout: real,               // `serial.timeout`
    rx: seq<byte>,               // received and not yet read: `serial.in_waiting` bytes
    arrivals: seq<seq<byte>>,    // what the panel will still send, one chunk per poll interval
    written: seq<seq<byte>>,     // every frame written, in order
    faulty: bool)                // every read and write on the port raises

  /** `is_connected`: the flag and an open port. */
  predicate Connected(l: Link) {
    l.connected && l.open
  }

  /** One poll interval passes (`time.sleep`): the next chunk the panel sends is received. */
  function Tick(l: Link): (t: Link)
    ensures t.written == l.written && t.connected == l.connected && t.open == l.open && t.timeout == l.timeout
    ensures t.faulty == l.faulty
    ensures l.arrivals == [] ==> t == l
    ensures l.arrivals != [] ==> t.rx == l.rx + l.arrivals[0] && t.arrivals == l.arrivals[1..]
  {
    if l.arrivals == [] then l else l.(rx := l.rx + l.arrivals[0], arrivals := l.arrivals[1..])
  }

  /** How many of the `n` requested bytes a read gets: what has arrived, at most `n`, none for `n <= 0`. */
  function Take(rx: seq<byte>, n: int): (k: nat)
    ensures k <= |rx| && (n >= 0 ==> k <= n)
    ensures k == |rx| || k == n || (n < 0 && k == 0)
  {
    if n <= 0 then 0 else if n < |rx| then n else |rx|
  }

  /** The first byte of a frame above 4 is its length, clamped to `maxLength`; otherwise a frame is 37 bytes. */
  function FrameLength(first: byte, maxLength: int): int {
    if first > 4 then (if first > maxLength then maxLength else first) else 37
  }

  /**
   * `write(data)`: it succeeds exactly on a connected, working port, then returns the length
   * and logs the data; only the log changes, and a failed write changes nothing.
   */
  function Send(l: Link, data: seq<byte>): (res: (Result<nat>, Link))
    ensures res.0.Ok? <==> Connected(l) && !l.faulty
    ensures res.0.Ok? ==> res.0.value == |data| && res.1.written == l.written + [data]
    ensures res.1 == l.(written := res.1.written)
    ensures res.0.Err? ==> res.1 == l
  {
    if !Connected(l) then (Err(NotConnected), l)
    else if l.faulty then (Err(PortFailure), l)
    else (Ok(|data|), l.(written := l.written + [data]))
  }

  /**
   * `read(length)`: on a connected, working port, the first `length` received bytes (all of
   * them when fewer have arrived), removed from the front of the buffer; nothing else changes.
   */
  function Receive(l: Link, length: int): (res: (Result<seq<byte>>, Link))
    ensures res.0.Ok? <==> Connected(l) && !l.faulty
    ensures res.0.Ok? ==> res.0.value + res.1.rx == l.rx && |res.0.value| == Take(l.rx, length)
    ensures res.1 == l.(rx := res.1.rx)
    ensures res.0.Err? ==> res.1 == l
  {
    if !Connected(l) then (Err(NotConnected), l)
    else if l.faulty then (Err(PortFailure), l)
    else
      var k := Take(l.rx, length);
      (Ok(l.rx[..k]), l.(rx := l.rx[k..]))
  }

  /** `read_variable_length(max_length, initial_timeout)`: the timeout it changes is back as it was. */
  function ReadFrame(l: Link, maxLength: int): (res: (Result<seq<byte>>, Link))
    ensures res.0.Ok? <==> Connected(l) && !l.faulty
    ensures res.0.Ok? ==> res.0.value + res.1.rx == l.rx
    ensures res.1 == l.(rx := res.1.rx)
    ensures res.0.Err? ==> res.1 == l
  {
    if !Connected(l) then (Err(NotConnected), l)
    else if l.faulty then (Err(PortFailure), l)
    else if l.rx == [] then (Ok([]), l)
    else
      var k := 1 + Take(l.rx[1..], FrameLength(l.rx[0], maxLength) - 1);
      (Ok(l.rx[..k]), l.(rx := l.rx[k..]))
  }

  /** `available()`: how many bytes have been received, none without a connection. */
  function Pending(l: Link): (n: nat)
    ensures n <= |l.rx|
    ensures Connected(l) ==> n == |l.rx|
    ensures !Connected(l) ==> n == 0
  {
    if Connected(l) then |l.rx| else 0
  }

  /** `flush_input()`: on a connection the received bytes are dropped; nothing else changes. */
  function Flush(l: Link): (t: Link)
    ensures Connected(l) ==> t.rx == []
    ensures t == l.(rx := t.rx)
    ensures !Connected(l) ==> t == l
  {
    if Connected(l) then l.(rx := []) else l
  }

  /** `disconnect()`: the flag is cleared only when there is an open port to close. */
  function Hangup(l: Link): (t: Link)
    ensures !Connected(t)
    ensures !l.open ==> t == l
    ensures t.connected == (l.connected && !l.open)
    ensures t == l.(open := t.open, connected := t.connected)
  {
    if l.open then l.(open := false, connected := false) else l
  }

  // ---------------------------------------------------------------------------
  // Properties of the link
  // ---------------------------------------------------------------------------

  /** The length rule: above 4 the first byte, never more than `maxLength`; 37 otherwise, whatever `maxLength` is. */
  lemma FrameLengthRule(first: byte, maxLength: int)
    ensures first > 4 ==> FrameLength(first, maxLength) == (if first < maxLength then first else maxLength)
    ensures first > 4 ==> FrameLength(first, maxLength) <= maxLength
    ensures first <= 4 ==> FrameLength(first, maxLength) == 37
    ensures 1 <= maxLength ==> 1 <= FrameLength(first, maxLength)
  {
  }

  /**
   * A frame read is the first received byte followed by at most target-1 more, taken from the
   * front of what was received and removed from it; nothing else changes.
   */
  lemma ReadFrameShape(l: Link, maxLength: int)
    requires Connected(l) && !l.faulty
    ensures var (r, l') := ReadFrame(l, maxLength);
      r.Ok? && r.value + l'.rx == l.rx
      && (r.value == [] <==> l.rx == [])
      && (l.rx != [] ==> r.value[0] == l.rx[0]
                         && 1 <= |r.value| <= (if FrameLength(l.rx[0], maxLength) < 1 then 1 else FrameLength(l.rx[0], maxLength)))
      && l' == l.(rx := l'.rx)
  {
    var (r, l') := ReadFrame(l, maxLength);
    if l.rx != [] {
      var k := 1 + Take(l.rx[1..], FrameLength(l.rx[0], maxLength) - 1);
      assert r.value + l'.rx == l.rx[..k] + l.rx[k..];
    }
  }

  /** With enough bytes received, a frame read returns exactly the target length. */
  lemma ReadFrameFull(l: Link, maxLength: int)
    requires Connected(l) && !l.faulty && l.rx != [] && 1 <= maxLength
    requires |l.rx| >= FrameLength(l.rx[0], maxLength)
    ensures ReadFrame(l, maxLength).0 == Ok(l.rx[..FrameLength(l.rx[0], maxLength)])
    ensures ReadFrame(l, maxLength).1 == l.(rx := l.rx[FrameLength(l.rx[0], maxLength)..])
  {
  }

  /**
   * The login acknowledgement 0x10 is above 4, so it is taken for a length: out of a
   * 37-byte response the reader returns 16 bytes and leaves 21 received.
   */
  lemma AcknowledgementReadAsLength(l: Link)
    requires Connected(l) && !l.faulty && |l.rx| == 37 && l.rx[0] == 0x10
    ensures |ReadFrame(l, 37).0.value| == 16 && |ReadFrame(l, 37).1.rx| == 21
  {
  }

  /** A large first byte is clamped to the maximum: 0xE2 reads 37 bytes with the default maximum. */
  lemma LargeFirstByteClamped(l: Link)
    requires Connected(l) && !l.faulty && |l.rx| >= 37 && l.rx[0] == 0xE2
    ensures ReadFrame(l, 37).0 == Ok(l.rx[..37])
  {
  }

  /** Without a connection nothing is read, written or flushed, and nothing changes. */
  lemma DisconnectedIsInert(l: Link, data: seq<byte>, length: int, maxLength: int)
    requires !Connected(l)
    ensures Send(l, data) == (Err(NotConnected), l)
    ensures Receive(l, length) == (Err(NotConnected), l)
    ensures ReadFrame(l, maxLength) == (Err(NotConnected), l)
    ensures Pending(l) == 0 && Flush(l) == l
  {
  }



  // ---------------------------------------------------------------------------
  // The port and the connection
  // ---------------------------------------------------------------------------

  /** The serial port device, as the client uses it. */
  class Port {
    var isOpen: bool
    var timeout: real
    var rx: seq<byte>
    var arrivals: seq<seq<byte>>
    var written: seq<seq<byte>>
    const faulty: bool

    /** A closed port over which the panel will send `arrivals`. */
    constructor (arrivals: seq<seq<byte>>, faulty: bool)
      ensures !isOpen && timeout == 0.0 && rx == [] && this.arrivals == arrivals && written == []
      ensures this.faulty == faulty
    {
      isOpen := false;
      timeout := 0.0;
      rx := [];
      this.arrivals := arrivals;
      written := [];
      this.faulty := faulty;
    }

    /** `serial.Serial(..., timeout=timeout)`: the port opens with an empty input buffer. */
    method Open(timeout: real)
      modifies this
      ensures isOpen && this.timeout == timeout && rx == []
      ensures arrivals == old(arrivals) && written == old(written)
    {
      isOpen := true;
      this.timeout := timeout;
      rx := [];
    }

    method Close()
      modifies this
      ensures !isOpen
      ensures timeout == old(timeout) && rx == old(rx) && arrivals == old(arrivals) && written == old(written)
    {
      isOpen := false;
    }

    /** `serial.read(size)`: at most `size` of the bytes already received. */
    method Read(size: int) returns (r: Result<seq<byte>>)
      modifies this
      ensures !isOpen || faulty ==> r == Err(PortFailure) && rx == old(rx)
      ensures isOpen && !faulty ==> r == Ok(old(rx)[..Take(old(rx), size)]) && rx == old(rx)[Take(old(rx), size)..]
      ensures isOpen == old(isOpen) && timeout == old(timeout) && arrivals == old(arrivals) && written == old(written)
    {
      if !isOpen || faulty {
        return Err(PortFailure);
      }
      var k := Take(rx, size);
      r := Ok(rx[..k]);
      rx := rx[k..];
    }

    /** `serial.write(data)` followed by `serial.flush()`. */
    method Write(data: seq<byte>) returns (r: Result<nat>)
      modifies this
      ensures !isOpen || faulty ==> r == Err(PortFailure) && written == old(written)
      ensures isOpen && !faulty ==> r == Ok(|data|) && written == old(written) + [data]
      ensures isOpen == old(isOpen) && timeout == old(timeout) && rx == old(rx) && arrivals == old(arrivals)
    {
      if !isOpen || faulty {
        return Err(PortFailure);
      }
      written := written + [data];
      return Ok(|data|);
    }

    /** `serial.reset_input_buffer()`. */
    method ResetInputBuffer()
      modifies this
      ensures rx == []
      ensures isOpen == old(isOpen) && timeout == old(timeout) && arrivals == old(arrivals) && written == old(written)
    {
      rx := [];
    }

    /** `time.sleep` for one poll interval: the next chunk the panel sends is received. */
    method Elapse()
      modifies this
      ensures old(arrivals) == [] ==> rx == old(rx) && arrivals == []
      ensures old(arrivals) != [] ==> rx == old(rx) + old(arrivals)[0] && arrivals == old(arrivals)[1..]
      ensures isOpen == old(isOpen) && timeout == old(timeout) && written == old(written)
    {
      if arrivals != [] {
        rx := rx + arrivals[0];
        arrivals := arrivals[1..];
      }
    }
  }

  class SerialConnection {
    const serial: Port
    const timeout: real
    var connected: bool

    /** The whole state of the connection and its port. */
    ghost function View(): Link
      reads this, serial
    {
      Link(connected, serial.isOpen, serial.timeout, serial.rx, serial.arrivals, serial.written, serial.faulty)
    }

    /** `SerialConnection(port, timeout=timeout)`: not yet connected. */
    constructor (serial: Port, timeout: real)
      ensures this.serial == serial && this.timeout == timeout && !connected
    {
      this.serial := serial;
      this.timeout := timeout;
      connected := false;
    }

    /** `connect()`: opens the port with the configured timeout. */
    method Connect() returns (ok: bool)
      modifies this, serial
      ensures ok && Connected(View())
      ensures View() == old(View()).(connected := true, open := true, timeout := timeout, rx := [])
    {
      serial.Open(timeout);
      connected := true;
      return true;
    }

    /** `disconnect()`. */
    method Disconnect()
      modifies this, serial
      ensures View() == Hangup(old(View()))
    {
      if serial.isOpen {
        serial.Close();
        connected := false;
      }
    }

    /** `is_connected()`. */
    predicate IsConnected()
      reads this, serial
      ensures IsConnected() == Connected(View())
    {
      connected && serial.isOpen
    }

    /** `write(data)`. */
    method Write(data: seq<byte>) returns (r: Result<nat>)
      modifies serial
      ensures (r, View()) == Send(old(View()), data)
    {
      if !IsConnected() {
        return Err(NotConnected);
      }
      r := serial.Write(data);
    }

    /** `read(length)`. */
    method Read(length: int) returns (r: Result<seq<byte>>)
      modifies serial
      ensures (r, View()) == Receive(old(View()), length)
    {
      if !IsConnected() {
        return Err(NotConnected);
      }
      r := serial.Read(length);
    }

    /**
     * `read_variable_length(max_length, initial_timeout)`: the port timeout is set to
     * `initial_timeout` for the first byte and restored on every way out.
     */
    method ReadVariableLength(maxLength: int, initialTimeout: Option<real>) returns (r: Result<seq<byte>>)
      modifies serial
      ensures (r, View()) == ReadFrame(old(View()), maxLength)
    {
      if !IsConnected() {
        return Err(NotConnected);
      }
      var original := serial.timeout;
      if initialTimeout.Some? {
        serial.timeout := initialTimeout.value;
      }
      var first := serial.Read(1);
      if first.Err? {
        serial.timeout := original;
        return Err(first.error);
      }
      if |first.value| == 0 {
        serial.timeout := original;
        return Ok([]);
      }
      serial.timeout := original;
      var rest := serial.Read(FrameLength(first.value[0], maxLength) - 1);
      // the port has just read one byte, so it is open and not faulty: this read cannot raise
      assert rest.Ok?;
      assert first.value + rest.value == old(serial.rx)[..1 + |rest.value|];
      return Ok(first.value + rest.value);
    }

    /** `available()`. */
    function Available(): (n: nat)
      reads this, serial
      ensures n == Pending(View())
    {
      if IsConnected() then |serial.rx| else 0
    }

    /** `flush_input()`. */
    method FlushInput()
      modifies serial
      ensures View() == Flush(old(View()))
    {
      if IsConnected() {
        serial.ResetInputBuffer();
      }
    }
  }
}
