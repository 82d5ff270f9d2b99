# MAVLink-over-UDP transport and mocap fan-out, modelled in Dafny

This project models the core of a relay that forwards motion-capture poses
(from a Vicon server) to networked vehicles as MAVLink packets over UDP:

- **The transport** (`src/mavlink_udp.c`), module `MavlinkUdp` in
  `mavlink_udp.dfy`. A `Connection` class holds the file's `static`
  variables: `init_flag`, `sock_fd`, `current_port`, `my_address`,
  `dest_address` and `system_id`. It also has a `sendLog` field, the list
  of `sendto` calls made so far (socket, destination, packed message,
  length). The methods model `rc_mav_init`, `rc_mav_set_dest_ip`,
  `rc_mav_set_system_id`, `rc_mav_cleanup` and `rc_mav_send_msg`, plus the
  three send helpers. Their contracts say exactly when they fail and what
  they change. `__address_init` is a function returning the new
  `sockaddr_in`, or nothing when the port is rejected. `__micros_since_boot`
  is a function on the FILETIME words it reads, written with the C
  `uint64_t` operators it uses (`<<`, `|`, `/`, wrapping `-`); these
  operators live in `ctypes.dfy`.
- **The fan-out** (`src/rc_mocap_tracking.cpp`), module `MocapTracking` in
  `mocap_tracking.dfy`:
  - `ParseDestIp` is the `while (iss.good()) getline(iss, ip_string, '@')`
    loop, with `GetLine` as one `getline` call. It is proved to return
    `AfterLastAt(name)`, the text after the last `'@'`.
  - `DispatchFrame` is one pass of the `while (running)` body. For each
    subject in index order, `DispatchSubject` parses the IP, calls
    `SetDestIp`, and sends the pose with `SendAttPosMocap`.
  - The contracts tie the reports and the `sendto` calls to the pure
    specifications `FrameOutcomes` and `FrameDatagrams`. Lemmas about those
    prove ordering, at most one send per subject, and per-subject failure
    isolation.

The operating system and the MAVLink codec are not modelled. What they
report back is a parameter of the operation that calls them:
- `socket()` gives the descriptor `socketResult`;
- `bind()` gives `bindOk`;
- `mavlink_msg_to_send_buffer()` gives the length `encodedLen`;
- `sendto()` gives `bytesSent`;
- `GetSystemTimeAsFileTime()` gives the FILETIME `now`;
- `GetFrame()` gives `frameOk`.

`inet_addr(ip)` is kept symbolic as `InetAddr(ip)`. A C string that may be
NULL is an `Option<string>`.

The model follows what the code does, including where it departs from what
its names and comments suggest:
- A subject name without `'@'` yields the whole name as its IP. It does not yield
  an empty or missing IP. A name ending in `'@'` yields the empty string.
- `rc_mav_set_system_id` ignores its argument (see Findings).
- `rc_mav_cleanup` does not close the socket. `close(sock_fd)` is commented
  out, so `sockFd` keeps its value.
- `__micros_since_boot` returns Unix-epoch wall-clock time in
  microseconds, not time since boot. The conversion wraps around for
  clock readings before 1970, so it is monotone only from 1970 on.
- `rc_mav_init` stores `current_port` and `sock_fd` before the port-0 and
  bind checks. A failed init can therefore leave both changed, and the
  socket it opened is never closed.

## Model

| member | source | states |
|---|---|---|
| `CTypes.BitOrDisjoint` | src/mavlink_udp.c:60-62 | OR of a multiple of 2^k with a value below 2^k is their sum, so `(high << 32) \| low` is `high·2^32 + low` |
| `MavlinkUdp.ShiftHighWord` | src/mavlink_udp.c:60-61 | shifting a 32-bit word left by 32 in a `uint64_t` loses no bits |
| `MavlinkUdp.AddressInit` | src/mavlink_udp.c:70-83 | rejects port 0 (nothing written); otherwise AF_INET on the given port, the wildcard address for a NULL IP, else `inet_addr(ip)` kept symbolic (see the `inet_addr` line under Left out) |
| `CTypes.Sub64` | src/mavlink_udp.c:64 | `uint64_t` subtraction: the plain difference when no borrow occurs, otherwise the difference plus 2^64 |
| `MavlinkUdp.MicrosSinceBoot` | src/mavlink_udp.c:56-66 | the shift, OR, division and wrapping subtraction on `tt`, in source order. Its value is the closed form `((high·2^32 + low) div 10 − 11644473600000000) mod 2^64` |
| `MavlinkUdp.MicrosMonotone` | src/mavlink_udp.c:56-66 | from 1970 on there is no wrap, and a later FILETIME never gives a smaller timestamp |
| `MavlinkUdp.MicrosWrapsBefore1970` | src/mavlink_udp.c:64 | before 1970 the unsigned subtraction wraps, so the timestamp is at least 2^64 − 11644473600000000 |
| `MavlinkUdp.MicrosNotMonotoneAcrossWrap` | src/mavlink_udp.c:64 | FILETIME 0 gives a larger timestamp (2^64 − offset) than the FILETIME of the Unix epoch (0) |
| `MavlinkUdp.Connection.constructor` | src/mavlink_udp.c:36-41 | the static state starts zeroed: flag, socket, port and system id 0, both addresses zero, nothing sent. The readiness invariant `Ready` holds: while the flag is set, the port is valid and the socket is valid and bound to that port |
| `MavlinkUdp.Connection.Init` | src/mavlink_udp.c:92-152 | already initialised or NULL IP: returns -1 with no state changed. Success exactly when the socket is valid, the port is at least 1 and bind succeeds. Past the guards, the port and socket are stored whatever follows. The local address is set once the socket is valid and the port accepted. On success the flag is 1, the system id is stored and the destination is the IP on the port. On failure the flag, system id and destination keep their old values. No send happens. `Ready` is preserved. |
| `MavlinkUdp.Connection.SetDestIp` | src/mavlink_udp.c:154-157 | may change only the destination. Returns -1 exactly when the stored port is below 1, and then changes nothing. Otherwise the destination is AF_INET on the stored port, with the wildcard address for NULL. On a ready, initialised connection it never fails, and `Ready` is preserved |
| `MavlinkUdp.Connection.SetSystemId` | src/mavlink_udp.c:160-164 | as written: returns 0 and changes nothing, whatever id it is given |
| `MavlinkUdp.Connection.SetSystemIdIntended` | src/mavlink_udp.c:160-164 | corrected: returns 0 and stores the given id |
| `MavlinkUdp.Connection.Cleanup` | src/mavlink_udp.c:167-172 | returns 0, clears the flag and touches nothing else (socket, port, addresses, system id stay), so `Ready` holds |
| `MavlinkUdp.Connection.SendMsg` | src/mavlink_udp.c:175-195 | uninitialised or negative length: -1 and no `sendto`. Otherwise exactly one `sendto` of the message to the current destination through the stored socket. Returns 0 exactly when the bytes sent equal the encoded length. No retry. Nothing but the send log changes. |
| `MavlinkUdp.Connection.SendHeartbeatAbbreviated` | src/mavlink_udp.c:202-212 | same outcomes as the send path, for a heartbeat with the stored system id, component 0 and every field zero |
| `MavlinkUdp.Connection.SendHeartbeat` | src/mavlink_udp.c:215-220 | same outcomes as the send path, for a heartbeat carrying the stored system id and the five given fields unchanged |
| `MavlinkUdp.Connection.SendAttPosMocap` | src/mavlink_udp.c:225-231 | same outcomes as the send path, for a mocap message with the stored system id, the given pose and the timestamp of the clock reading |
| `MavlinkUdp.InitThenHeartbeat` | src/mavlink_udp.c:202-212 | `init(1, "127.0.0.1", 14551)`, then an abbreviated heartbeat, sends exactly one datagram to 127.0.0.1:14551 with system id 1 and all fields zero |
| `MavlinkUdp.SecondInitRefused` | src/mavlink_udp.c:96-99 | a second init returns -1 and the first init's port, socket, destination and system id survive |
| `MavlinkUdp.SendsFailWhenClosed` | src/mavlink_udp.c:167-180 | sends before init and after cleanup return -1 with no `sendto`. Cleanup lets init's guard pass again. The re-init succeeds exactly when its own `socket()` result is valid and its own `bind` succeeds; either way it holds the new `socket()` result `fd2` afterwards |
| `MavlinkUdp.DestinationHotSwap` | src/mavlink_udp.c:154-157 | after `set_dest_ip(ipB)` the next datagram goes to ipB on the same port and socket; the local binding is unchanged |
| `MavlinkUdp.PartialSendFails` | src/mavlink_udp.c:188-194 | a short or excess `sendto` makes the send fail after exactly one attempt |
| `MavlinkUdp.SystemIdIgnoredAsWritten` | src/mavlink_udp.c:160-164 | after `init(1, ...)` and `set_system_id(7)`, the next heartbeat still carries system id 1 |
| `MavlinkUdp.SystemIdAppliedWhenFixed` | src/mavlink_udp.c:160-164 | with the corrected setter, the next heartbeat carries system id 7 |
| `MocapTracking.AfterLastAtIsLastSegment` | src/rc_mocap_tracking.cpp:209-213 | the parsed IP is a suffix of the name with no `'@'`. The whole name precedes it, or an `'@'` stands right before it. |
| `MocapTracking.AfterLastAtUnique` | src/rc_mocap_tracking.cpp:209-213 | any suffix with those properties is the parsed IP, so the parse is the text after the last `'@'` |
| `MocapTracking.NoAtYieldsWholeName` | src/rc_mocap_tracking.cpp:209-213 | a name with no `'@'` yields the whole name |
| `MocapTracking.TrailingAtYieldsEmpty` | src/rc_mocap_tracking.cpp:209-213 | a name ending in `'@'` yields the empty string |
| `MocapTracking.AfterLastAtIgnoresPrefix` | src/rc_mocap_tracking.cpp:209-213 | for an IP without `'@'`, `name + "@" + ip` yields `ip`, whatever the name |
| `MocapTracking.ParseDrone7` | src/rc_mocap_tracking.cpp:209-213 | `"drone7@192.168.1.42"` yields `"192.168.1.42"` |
| `MocapTracking.GetLine` | src/rc_mocap_tracking.cpp:212 | one `getline(.., '@')` returns the characters up to the next `'@'` and consumes that `'@'`, or returns the rest of the input and reports end of input; the segment never contains `'@'` |
| `MocapTracking.ParseDestIp` | src/rc_mocap_tracking.cpp:209-214 | the getline loop leaves exactly the text after the last `'@'` in `ip_string`, whatever it held before |
| `MocapTracking.SubjectOutcomeAgrees` | src/rc_mocap_tracking.cpp:224-246 | at most one `sendto` per subject. A refused destination sends nothing. A subject reported as sent made exactly one `sendto`, to the IP in its own name, with its own rotation and the full length. |
| `MocapTracking.FrameOutcomesAt` | src/rc_mocap_tracking.cpp:201-256 | one report per subject, in index order; report i depends only on subject i's own outcomes |
| `MocapTracking.FrameDatagramsAppend` | src/rc_mocap_tracking.cpp:201-256 | the `sendto` calls of two runs of subjects are those of the first run followed by those of the second |
| `MocapTracking.FrameDatagramsAt` | src/rc_mocap_tracking.cpp:201-256 | subject i's `sendto` calls come after those of subjects before i and before those after it, whatever happened to the others |
| `MocapTracking.FrameNeverRefusedOnValidPort` | src/rc_mocap_tracking.cpp:224-227 | with a valid stored port, no subject of a frame is reported as a refused destination |
| `MocapTracking.FrameDatagramsAtMostOneEach` | src/rc_mocap_tracking.cpp:242 | a frame makes at most as many `sendto` calls as it has subjects |
| `MocapTracking.DispatchSubject` | src/rc_mocap_tracking.cpp:206-255 | for one subject: its outcome (destination refused, send failed, sent); the `sendto` calls it adds; the destination it leaves set (its own parsed IP when the port is valid); socket, port, flag, system id and local address unchanged |
| `MocapTracking.DispatchFrame` | src/rc_mocap_tracking.cpp:181-256 | if `GetFrame` failed: no report and no state change. Otherwise the reports are `FrameOutcomes`; the `sendto` calls appended are `FrameDatagrams`; the destination is that of the last subject; socket, port, flag, system id and local address are unchanged. On a ready, initialised connection no subject is reported as a refused destination |
| `MocapTracking.FrameAfterInit` | src/rc_mocap_tracking.cpp:201-256 | after a successful init, a frame reports every subject, none as refused. A subject is reported sent exactly when its send moved the whole encoded message |
| `MocapTracking.IsolationExample` | src/rc_mocap_tracking.cpp:224-246 | with subjects `A@10.0.0.1`, `B@badip`, `C@10.0.0.3` where B's send fails, A and C are still sent, first and last, to 10.0.0.1 and 10.0.0.3 |

## Findings

| source | as written | input that shows it | evidently intended | confidence | as-written member | corrected member |
|---|---|---|---|---|---|---|
| src/mavlink_udp.c:162 | `system_id = system_id;` assigns the stored id to itself; the argument `sys_id` is unused | `init(1, ip, port)`, `set_system_id(7)` and then a heartbeat: the heartbeat carries system id 1 | `system_id = sys_id;`, so later packets carry 7 | high (the argument is otherwise unused); not executed | `MavlinkUdp.Connection.SetSystemId`, shown by `MavlinkUdp.SystemIdIgnoredAsWritten` | `MavlinkUdp.Connection.SetSystemIdIntended`, proved by `MavlinkUdp.SystemIdAppliedWhenFixed` |

## Left out

- WSAStartup and its `exit(EXIT_FAILURE)`: it ends the process and never returns an error, so the model treats it as succeeding.
- `socket`, `bind`, `sendto`, `inet_addr` and `GetSystemTimeAsFileTime`: these are OS calls. Their results are parameters.
- `inet_addr` is symbolic (`InetAddr(text)`). The model cannot tell that `"0.0.0.0"` gives the same address as `INADDR_ANY`, or that a malformed string gives `INADDR_NONE`. Like the code, it forwards such strings unchecked.
- The `address == NULL` test in `__address_init`: every caller passes the address of a static struct, so that branch is unreachable.
- The cast `(long)dest_ip == 0` is a 32-bit `long` on Windows, so it could truncate a pointer. Pointers are not modelled: NULL is `None`.
- The byte layout of `sockaddr_in`, `htons`/`htonl` and the `memset(.., sizeof address)` that clears only a pointer's width: the address is the record `{family, port, addr}` in host order.
- `sock_fd` is an `int` holding a `SOCKET`. The descriptor is modelled as the integer `socket()` reports, invalid when it is -1.
- `current_port` is an `int` in the source. It only ever receives a `uint16_t`, so it is a `u16` here.
- The MAVLink codec: the pack functions, `mavlink_msg_to_send_buffer`, the 512-byte buffer and its contents, the sequence numbers and `mavlink_version`. A message is recorded by the fields and system id handed to the packer; its encoded length is a parameter. The negative-length branch of `rc_mav_send_msg` is kept, although the codec's headers are not part of this model.
- Closing the socket is not modelled because `rc_mav_cleanup` never closes it. Whether a re-init can bind the same port again is decided by the OS; here that is the `bindOk` parameter.
- Float values (quaternion, translation) are opaque bit patterns and are only forwarded. The Euler angles are read only to be printed, so they are left out.
- The error messages that src/mavlink_udp.c writes to stderr on its failure paths (`fprintf`/`perror`) are output only. Every such path is modelled by its return value and its state.
- The Vicon DataStream client is external glue: connecting (the wait loop at src/rc_mocap_tracking.cpp:95-103 never updates `ok`), the enable calls, subject and segment enumeration, `GetFrameNumber`, root segment names and pose retrieval. Console printing is left out too.
- The SIGINT handler and the `running` flag are signal glue. `DispatchFrame` models one iteration of `while (running)`.
- src/rc_test_mavlink_heartbeat.cpp is a draft that does not compile (declarations inside the loop, an undefined call), so it has no behaviour to model.
- DispatchFrame: does not count the `rc_mav_set_dest_ip` calls. Their effect shows in three places: the destination of every datagram, the destination left after the frame, and the `DestIpFailed` reports.
