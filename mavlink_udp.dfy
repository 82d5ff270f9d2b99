/** The MAVLink-over-UDP transport of src/mavlink_udp.c: one process-wide
    connection (socket, local and destination addresses, system id) and the
    operations that open it, retarget it, close it and send packed messages
    through it.

    The operating system and the MAVLink codec are not modelled; what they
    report back to the transport is passed in as a parameter:
    - `socket()` returns the descriptor `socketResult`;
    - `bind()` succeeds or not (`bindOk`);
    - `mavlink_msg_to_send_buffer()` reports the length `encodedLen`;
    - `sendto()` reports `bytesSent`;
    - `GetSystemTimeAsFileTime()` reads the FILETIME `now`.
    `inet_addr(ip)` is kept symbolic as `InetAddr(ip)`. */
module MavlinkUdp {
  import opened CTypes

  const AF_INET: int := 2
  const INVALID_SOCKET: int := -1
  const MAV_COMP_ID_ALL: u8 := 0
  /** Microseconds from 1601-01-01 (the FILETIME epoch) to 1970-01-01. */
  const FILETIME_TO_UNIX_US: u64 := 11644473600000000

  /** The `sin_addr` of a `sockaddr_in`. `INADDR_ANY` is address 0. */
  datatype InAddr = InaddrAny | InetAddr(text: string)

  /** A `sockaddr_in`, field by field, in host byte order. */
  datatype SockAddr = SockAddr(family: int, port: u16, addr: InAddr)

  /** A `static struct sockaddr_in` before anything is written to it. */
  const ZERO_ADDR: SockAddr := SockAddr(0, 0, InaddrAny)

  /** A `float`, forwarded only, so kept by its bit pattern. */
  datatype Float32 = Float32(bits: u32)

  /** `float q[4]` as handed to the mocap packer. */
  datatype Quaternion = Quaternion(q0: Float32, q1: Float32, q2: Float32, q3: Float32)

  /** What a packer was given; the wire encoding itself belongs to the codec. */
  datatype Message =
    | Heartbeat(systemId: u8, componentId: u8, mavType: u8, autopilot: u8,
                baseMode: u8, customMode: u32, systemStatus: u8)
    | AttPosMocap(systemId: u8, componentId: u8, timeUsec: u64,
                  q: Quaternion, x: Float32, y: Float32, z: Float32)

  /** One `sendto` call: socket, destination, the packed message and the
      byte count asked for. */
  datatype Datagram = Datagram(socket: int, to: SockAddr, msg: Message, length: int)

  /** The two 32-bit words of a Windows FILETIME (100 ns ticks since 1601). */
  datatype FileTime = FileTime(high: u32, low: u32)

  /** The part of the connection the send path reads but never writes. */
  datatype LinkState = LinkState(initFlag: int, sockFd: int, currentPort: u16, systemId: u8)

  /** `__address_init(address, dest_ip, port)`: the value written to
      `*address`, or None when the port is rejected (and `*address` is left
      as it was). A NULL `dest_ip` selects the wildcard address. */
  function AddressInit(destIp: Option<string>, port: u16): (r: Option<SockAddr>)
    ensures r.None? <==> port < 1
    ensures r.Some? ==> r.value.family == AF_INET && r.value.port == port
    ensures r.Some? ==> (r.value.addr == InaddrAny <==> destIp.None?)
    ensures r.Some? && destIp.Some? ==> r.value.addr == InetAddr(destIp.value)
  {
    if port < 1 then None
    else Some(SockAddr(AF_INET, port, if destIp.None? then InaddrAny else InetAddr(destIp.value)))
  }

  /** The FILETIME as one 64-bit count of 100 ns ticks. */
  function Ticks(ft: FileTime): nat
  {
    ft.high * TWO_32 + ft.low
  }

  /** `__micros_since_boot()` on the FILETIME it reads, step by step as the
      C code updates `tt`. Its value is the FILETIME in microseconds, minus
      the 1601-to-1970 offset, modulo 2^64: Unix-epoch microseconds, not
      time since boot. */
  function MicrosSinceBoot(ft: FileTime): (r: u64)
    ensures r == (Ticks(ft) / 10 - FILETIME_TO_UNIX_US) % TWO_64
  {
    var tt: u64 := ft.high;
    var tt := ShiftLeft64(tt, 32);
    ShiftHighWord(ft.high);
    Pow2Words();
    BitOrDisjoint(tt, ft.low, 32, ft.high);
    var tt := BitOr64(tt, ft.low);
    assert tt == Ticks(ft);
    var tt := tt / 10;
    Sub64(tt, FILETIME_TO_UNIX_US)
  }

  /** Shifting a 32-bit word left by 32 inside a uint64_t loses no bits. */
  lemma ShiftHighWord(high: u32)
    ensures ShiftLeft64(high, 32) == high * TWO_32
  {
    Pow2Words();
    assert high * TWO_32 < TWO_64;
  }

  /** Reduction modulo 2^64 of a value at most one range away from it. */
  lemma WrapOnce(v: int)
    requires -TWO_64 <= v < TWO_64
    ensures v >= 0 ==> v % TWO_64 == v
    ensures v < 0 ==> v % TWO_64 == v + TWO_64
  {
  }

  /** From 1970 on, no wrap-around happens and later FILETIMEs never give
      smaller timestamps. */
  lemma MicrosMonotone(a: FileTime, b: FileTime)
    requires Ticks(a) / 10 >= FILETIME_TO_UNIX_US
    requires Ticks(a) <= Ticks(b)
    ensures MicrosSinceBoot(a) == Ticks(a) / 10 - FILETIME_TO_UNIX_US
    ensures MicrosSinceBoot(a) <= MicrosSinceBoot(b)
  {
    var ta, tb := Ticks(a), Ticks(b);
    assert ta < TWO_64 && tb < TWO_64;
    assert ta / 10 <= tb / 10;
    WrapOnce(ta / 10 - FILETIME_TO_UNIX_US);
    WrapOnce(tb / 10 - FILETIME_TO_UNIX_US);
  }

  /** Before 1970 the subtraction wraps: the timestamp lands in the top
      11644473600000000 values of the u64 range. */
  lemma MicrosWrapsBefore1970(ft: FileTime)
    requires Ticks(ft) / 10 < FILETIME_TO_UNIX_US
    ensures MicrosSinceBoot(ft) == Ticks(ft) / 10 - FILETIME_TO_UNIX_US + TWO_64
    ensures MicrosSinceBoot(ft) >= TWO_64 - FILETIME_TO_UNIX_US
  {
    WrapOnce(Ticks(ft) / 10 - FILETIME_TO_UNIX_US);
  }

  /** So without the 1970 precondition the conversion is not monotone: the
      FILETIME zero gives a larger timestamp than the FILETIME of the Unix
      epoch itself. */
  lemma MicrosNotMonotoneAcrossWrap(zero: FileTime, epoch: FileTime)
    requires Ticks(zero) == 0 && Ticks(epoch) == 10 * FILETIME_TO_UNIX_US
    ensures MicrosSinceBoot(epoch) == 0
    ensures MicrosSinceBoot(zero) == TWO_64 - FILETIME_TO_UNIX_US
  {
    assert Ticks(zero) / 10 == 0;
    WrapOnce(0 - FILETIME_TO_UNIX_US);
    assert Ticks(epoch) / 10 == FILETIME_TO_UNIX_US;
    WrapOnce(0);
  }

  /** The process-wide connection state: the `static` variables of
      mavlink_udp.c, plus `sendLog`, the `sendto` calls made so far. */
  class Connection {
    var initFlag: int
    var sockFd: int
    var currentPort: u16
    var myAddress: SockAddr
    var destAddress: SockAddr
    var systemId: u8
    var sendLog: seq<Datagram>

    /** Static storage at program start: everything zero, nothing sent. */
    constructor ()
      ensures initFlag == 0 && sockFd == 0 && currentPort == 0 && systemId == 0
      ensures myAddress == ZERO_ADDR && destAddress == ZERO_ADDR
      ensures sendLog == []
      ensures Ready()
    {
      initFlag, sockFd, currentPort, systemId := 0, 0, 0, 0;
      myAddress, destAddress := ZERO_ADDR, ZERO_ADDR;
      sendLog := [];
    }

    function Link(): LinkState
      reads this
    {
      LinkState(initFlag, sockFd, currentPort, systemId)
    }

    /** What a successful `rc_mav_init` establishes and every operation
        keeps: while the flag is set, the stored port is a valid one and the
        stored socket is a valid one, bound to that port on every interface. */
    predicate Ready()
      reads this
    {
      initFlag != 0 ==>
        currentPort >= 1 && sockFd != INVALID_SOCKET && myAddress == SockAddr(AF_INET, currentPort, InaddrAny)
    }

    /** `rc_mav_init(sysid, dest_ip, port)`. */
    method Init(sysid: u8, destIp: Option<string>, port: u16, socketResult: int, bindOk: bool)
      returns (ret: int)
      modifies this
      ensures ret == 0 || ret == -1
      // already initialised, or NULL destination: nothing at all changes
      ensures old(initFlag) != 0 || destIp.None? ==> ret == -1 && unchanged(this)
      ensures ret == 0 <==>
        old(initFlag) == 0 && destIp.Some? && socketResult != INVALID_SOCKET && port >= 1 && bindOk
      // past the guards, the port and the socket are stored whatever follows
      ensures old(initFlag) == 0 && destIp.Some? ==> currentPort == port && sockFd == socketResult
      ensures myAddress ==
        if old(initFlag) == 0 && destIp.Some? && socketResult != INVALID_SOCKET && port >= 1
        then SockAddr(AF_INET, port, InaddrAny) else old(myAddress)
      ensures ret == 0 ==>
        initFlag == 1 && systemId == sysid && destAddress == SockAddr(AF_INET, port, InetAddr(destIp.value))
      ensures ret != 0 ==>
        initFlag == old(initFlag) && systemId == old(systemId) && destAddress == old(destAddress)
      ensures sendLog == old(sendLog)
      ensures old(Ready()) ==> Ready()
    {
      if initFlag != 0 {
        return -1;
      }
      if destIp.None? {
        return -1;
      }
      currentPort := port;
      sockFd := socketResult;
      if sockFd == INVALID_SOCKET {
        return -1;
      }
      var local := AddressInit(None, currentPort);
      if local.None? {
        return -1;
      }
      myAddress := local.value;
      if !bindOk {
        return -1;
      }
      var dest := AddressInit(destIp, currentPort);
      if dest.None? {
        return -1;
      }
      destAddress := dest.value;
      initFlag := 1;
      systemId := sysid;
      return 0;
    }

    /** `rc_mav_set_dest_ip(dest_ip)`: re-address the destination on the
        stored port; nothing else is touched. */
    method SetDestIp(destIp: Option<string>) returns (ret: int)
      modifies this`destAddress
      ensures ret == 0 || ret == -1
      ensures ret == -1 <==> currentPort < 1
      ensures destAddress ==
        if ret == 0 then SockAddr(AF_INET, currentPort, if destIp.None? then InaddrAny else InetAddr(destIp.value))
        else old(destAddress)
      // on a ready, initialised connection the destination is never refused
      ensures old(Ready()) && initFlag != 0 ==> ret == 0
      ensures Ready() == old(Ready())
    {
      var a := AddressInit(destIp, currentPort);
      if a.None? {
        return -1;
      }
      destAddress := a.value;
      return 0;
    }

    /** `rc_mav_set_system_id(sys_id)` as written: `system_id = system_id`,
        so the argument is ignored and nothing changes. */
    method SetSystemId(sysId: u8) returns (ret: int)
      ensures ret == 0
    {
      return 0;
    }

    /** `rc_mav_set_system_id(sys_id)` as evidently intended: the id is stored
        and every later packet carries it. */
    method SetSystemIdIntended(sysId: u8) returns (ret: int)
      modifies this`systemId
      ensures ret == 0 && systemId == sysId
    {
      systemId := sysId;
      return 0;
    }

    /** `rc_mav_cleanup()`: only the flag is cleared; the socket stays open. */
    method Cleanup() returns (ret: int)
      modifies this`initFlag
      ensures ret == 0 && initFlag == 0
      ensures Ready()
    {
      initFlag := 0;
      return 0;
    }

    /** `rc_mav_send_msg(msg)`: one `sendto` of the encoded message to the
        current destination, unless uninitialised or the encoding failed; a
        short or excess send is a failure and is not retried. */
    method SendMsg(msg: Message, encodedLen: int, bytesSent: int) returns (ret: int)
      modifies this`sendLog
      ensures ret == 0 || ret == -1
      ensures ret == 0 <==> old(initFlag) != 0 && encodedLen >= 0 && bytesSent == encodedLen
      ensures sendLog == old(sendLog) +
        (if old(initFlag) != 0 && encodedLen >= 0
         then [Datagram(old(sockFd), old(destAddress), msg, encodedLen)]
         else [])
      ensures Ready() == old(Ready())
    {
      if initFlag == 0 {
        return -1;
      }
      var msgLen := encodedLen;
      if msgLen < 0 {
        return -1;
      }
      sendLog := sendLog + [Datagram(sockFd, destAddress, msg, msgLen)];
      if bytesSent != msgLen {
        return -1;
      }
      return 0;
    }

    /** `rc_mav_send_heartbeat_abbreviated()`: every heartbeat field zero. */
    method SendHeartbeatAbbreviated(encodedLen: int, bytesSent: int) returns (ret: int)
      modifies this`sendLog
      ensures ret == 0 || ret == -1
      ensures ret == 0 <==> old(initFlag) != 0 && encodedLen >= 0 && bytesSent == encodedLen
      ensures sendLog == old(sendLog) +
        (if old(initFlag) != 0 && encodedLen >= 0
         then [Datagram(old(sockFd), old(destAddress), Heartbeat(old(systemId), MAV_COMP_ID_ALL, 0, 0, 0, 0, 0), encodedLen)]
         else [])
      ensures Ready() == old(Ready())
    {
      var msg := Heartbeat(systemId, MAV_COMP_ID_ALL, 0, 0, 0, 0, 0);
      var r := SendMsg(msg, encodedLen, bytesSent);
      if r != 0 {
        return -1;
      }
      return 0;
    }

    /** `rc_mav_send_heartbeat(custom_mode, type, autopilot, base_mode,
        system_status)`: the five fields forwarded unchanged. */
    method SendHeartbeat(customMode: u32, mavType: u8, autopilot: u8, baseMode: u8, systemStatus: u8,
                         encodedLen: int, bytesSent: int) returns (ret: int)
      modifies this`sendLog
      ensures ret == 0 || ret == -1
      ensures ret == 0 <==> old(initFlag) != 0 && encodedLen >= 0 && bytesSent == encodedLen
      ensures sendLog == old(sendLog) +
        (if old(initFlag) != 0 && encodedLen >= 0
         then [Datagram(old(sockFd), old(destAddress),
                        Heartbeat(old(systemId), MAV_COMP_ID_ALL, mavType, autopilot, baseMode, customMode, systemStatus),
                        encodedLen)]
         else [])
      ensures Ready() == old(Ready())
    {
      var msg := Heartbeat(systemId, MAV_COMP_ID_ALL, mavType, autopilot, baseMode, customMode, systemStatus);
      ret := SendMsg(msg, encodedLen, bytesSent);
    }

    /** `rc_mav_send_att_pos_mocap(q, x, y, z)`: the pose stamped with the
        clock reading `now`. */
    method SendAttPosMocap(q: Quaternion, x: Float32, y: Float32, z: Float32, now: FileTime,
                           encodedLen: int, bytesSent: int) returns (ret: int)
      modifies this`sendLog
      ensures ret == 0 || ret == -1
      ensures ret == 0 <==> old(initFlag) != 0 && encodedLen >= 0 && bytesSent == encodedLen
      ensures sendLog == old(sendLog) +
        (if old(initFlag) != 0 && encodedLen >= 0
         then [Datagram(old(sockFd), old(destAddress),
                        AttPosMocap(old(systemId), MAV_COMP_ID_ALL, MicrosSinceBoot(now), q, x, y, z),
                        encodedLen)]
         else [])
      ensures Ready() == old(Ready())
    {
      var timeUsec := MicrosSinceBoot(now);
      var msg := AttPosMocap(systemId, MAV_COMP_ID_ALL, timeUsec, q, x, y, z);
      ret := SendMsg(msg, encodedLen, bytesSent);
    }
  }

  // ---------------------------------------------------------------------
  // Clients: what a caller of the transport can rely on
  // ---------------------------------------------------------------------

  /** `init(1, "127.0.0.1", 14551)` then an abbreviated heartbeat: exactly one
      datagram, to 127.0.0.1:14551, carrying system id 1 and zero fields. */
  method InitThenHeartbeat(fd: int, encodedLen: int) returns (initRet: int, sendRet: int, sent: seq<Datagram>)
    requires fd != INVALID_SOCKET && encodedLen >= 0
    ensures initRet == 0 && sendRet == 0
    ensures sent == [Datagram(fd, SockAddr(AF_INET, 14551, InetAddr("127.0.0.1")),
                              Heartbeat(1, MAV_COMP_ID_ALL, 0, 0, 0, 0, 0), encodedLen)]
  {
    var c := new Connection();
    initRet := c.Init(1, Some("127.0.0.1"), 14551, fd, true);
    sendRet := c.SendHeartbeatAbbreviated(encodedLen, encodedLen);
    sent := c.sendLog;
  }

  /** A second `init` without `cleanup` is refused and the first connection's
      port, socket, destination and system id survive it. */
  method SecondInitRefused(sysA: u8, ipA: string, portA: u16, fdA: int,
                           sysB: u8, ipB: Option<string>, portB: u16, fdB: int, bindB: bool)
    returns (second: int, port: u16, fd: int, dest: SockAddr, sysid: u8)
    requires fdA != INVALID_SOCKET && portA >= 1
    ensures second == -1
    ensures port == portA && fd == fdA && sysid == sysA
    ensures dest == SockAddr(AF_INET, portA, InetAddr(ipA))
  {
    var c := new Connection();
    var first := c.Init(sysA, Some(ipA), portA, fdA, true);
    second := c.Init(sysB, ipB, portB, fdB, bindB);
    port, fd, dest, sysid := c.currentPort, c.sockFd, c.destAddress, c.systemId;
  }

  /** Sends fail closed before `init` and after `cleanup`, with no `sendto`.
      `cleanup` lets the `init` guard pass again, but it never closes the
      first socket: the re-init stores whatever `socket()` now reports
      (`fd2`) even when it fails, and it succeeds exactly when that socket
      is valid and its own `bind` succeeds, which the OS may refuse while
      the first socket still holds the port. */
  method SendsFailWhenClosed(sysid: u8, ip: string, port: u16, fd: int, len: int, fd2: int, bind2: bool)
    returns (beforeInit: int, afterCleanup: int, sent: seq<Datagram>, reinit: int, held: int, flag: int)
    requires fd != INVALID_SOCKET && port >= 1
    ensures beforeInit == -1 && afterCleanup == -1 && sent == []
    ensures reinit == 0 <==> fd2 != INVALID_SOCKET && bind2
    ensures held == fd2
    ensures flag == if reinit == 0 then 1 else 0
  {
    var c := new Connection();
    beforeInit := c.SendHeartbeatAbbreviated(len, len);
    var first := c.Init(sysid, Some(ip), port, fd, true);
    var done := c.Cleanup();
    afterCleanup := c.SendHeartbeat(0, 0, 0, 0, 0, len, len);
    sent := c.sendLog;
    reinit := c.Init(sysid, Some(ip), port, fd2, bind2);
    held, flag := c.sockFd, c.initFlag;
  }

  /** Retargeting between sends: the next datagram goes to the new IP on the
      same port, through the same socket; the local binding is untouched. */
  method DestinationHotSwap(sysid: u8, ipA: string, ipB: string, port: u16, fd: int, len: int)
    returns (sent: seq<Datagram>, local: SockAddr)
    requires fd != INVALID_SOCKET && port >= 1 && len >= 0
    ensures |sent| == 1 && sent[0].socket == fd
    ensures sent[0].to == SockAddr(AF_INET, port, InetAddr(ipB))
    ensures local == SockAddr(AF_INET, port, InaddrAny)
  {
    var c := new Connection();
    var r := c.Init(sysid, Some(ipA), port, fd, true);
    r := c.SetDestIp(Some(ipB));
    r := c.SendHeartbeatAbbreviated(len, len);
    sent, local := c.sendLog, c.myAddress;
  }

  /** A send that moves fewer (or more) bytes than were encoded fails, and is
      attempted exactly once. */
  method PartialSendFails(ip: string, port: u16, fd: int, len: int, short: int)
    returns (ret: int, sent: seq<Datagram>)
    requires fd != INVALID_SOCKET && port >= 1 && len >= 0 && short != len
    ensures ret == -1 && |sent| == 1 && sent[0].length == len
  {
    var c := new Connection();
    var r := c.Init(1, Some(ip), port, fd, true);
    ret := c.SendHeartbeatAbbreviated(len, short);
    sent := c.sendLog;
  }

  /** As written, `rc_mav_set_system_id(7)` after `init(1, ...)` leaves the
      id at 1: the next heartbeat still carries 1. */
  method SystemIdIgnoredAsWritten(ip: string, port: u16, fd: int, len: int) returns (sent: seq<Datagram>)
    requires fd != INVALID_SOCKET && port >= 1 && len >= 0
    ensures |sent| == 1 && sent[0].msg.systemId == 1
  {
    var c := new Connection();
    var r := c.Init(1, Some(ip), port, fd, true);
    r := c.SetSystemId(7);
    r := c.SendHeartbeatAbbreviated(len, len);
    sent := c.sendLog;
  }

  /** With the setter assigning its argument, the next heartbeat carries 7. */
  method SystemIdAppliedWhenFixed(ip: string, port: u16, fd: int, len: int) returns (sent: seq<Datagram>)
    requires fd != INVALID_SOCKET && port >= 1 && len >= 0
    ensures |sent| == 1 && sent[0].msg.systemId == 7
  {
    var c := new Connection();
    var r := c.Init(1, Some(ip), port, fd, true);
    r := c.SetSystemIdIntended(7);
    r := c.SendHeartbeatAbbreviated(len, len);
    sent := c.sendLog;
  }
}
