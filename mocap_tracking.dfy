/** The per-frame fan-out of src/rc_mocap_tracking.cpp: for every subject the
    motion-capture client reports, take the destination IP from the subject's
    name ("<name>@<ip>"), point the connection at it and send the subject's
    pose there. A failure for one subject skips only that subject. */
module MocapTracking {
  import opened CTypes
  import opened MavlinkUdp

  // ---------------------------------------------------------------------
  // The destination IP inside a subject name
  // ---------------------------------------------------------------------

  /** The part of `s` after its last '@'; all of `s` when it has none. */
  function AfterLastAt(s: string): string
  {
    if s == [] then []
    else if s[|s| - 1] == '@' then []
    else AfterLastAt(s[..|s| - 1]) + [s[|s| - 1]]
  }

  /** `AfterLastAt(s)` is the suffix `s[k..]` of `s` that has no '@', where
      either k is 0 or an '@' stands right before position k. */
  lemma {:induction false} AfterLastAtIsLastSegment(s: string) returns (k: nat)
    ensures k <= |s| && AfterLastAt(s) == s[k..]
    ensures '@' !in s[k..]
    ensures k == 0 || s[k - 1] == '@'
    decreases |s|
  {
    if s == [] {
      k := 0;
    } else if s[|s| - 1] == '@' {
      k := |s|;
    } else {
      var init := s[..|s| - 1];
      k := AfterLastAtIsLastSegment(init);
      assert s[k..] == init[k..] + [s[|s| - 1]];
      assert k > 0 ==> s[k - 1] == init[k - 1];
    }
  }

  /** Those three facts pin the result down: any suffix `s[k..]` without '@'
      that is all of `s` or follows an '@' is `AfterLastAt(s)`. */
  lemma {:induction false} AfterLastAtUnique(s: string, k: nat)
    requires k <= |s|
    requires k == 0 || s[k - 1] == '@'
    requires '@' !in s[k..]
    ensures AfterLastAt(s) == s[k..]
    decreases |s|
  {
    if |s| == k {
      assert s[k..] == [];
    } else {
      var init := s[..|s| - 1];
      assert s[|s| - 1] in s[k..];
      assert init[k..] == s[k..|s| - 1];
      AfterLastAtUnique(init, k);
      assert s[k..] == init[k..] + [s[|s| - 1]];
    }
  }

  /** A name without '@' is its own destination. */
  lemma NoAtYieldsWholeName(s: string)
    requires '@' !in s
    ensures AfterLastAt(s) == s
  {
    AfterLastAtUnique(s, 0);
  }

  /** A name ending in '@' yields the empty destination. */
  lemma TrailingAtYieldsEmpty(s: string)
    requires s != [] && s[|s| - 1] == '@'
    ensures AfterLastAt(s) == []
  {
  }

  /** What comes before the last '@' never matters. */
  lemma AfterLastAtIgnoresPrefix(name: string, ip: string)
    requires '@' !in ip
    ensures AfterLastAt(name + "@" + ip) == ip
  {
    var s := name + "@" + ip;
    assert s[|name| + 1..] == ip;
    AfterLastAtUnique(s, |name| + 1);
  }

  lemma ParseDrone7()
    ensures AfterLastAt("drone7@192.168.1.42") == "192.168.1.42"
  {
    assert "drone7" + "@" + "192.168.1.42" == "drone7@192.168.1.42";
    AfterLastAtIgnoresPrefix("drone7", "192.168.1.42");
  }

  /** `std::getline(iss, segment, '@')` on the unread part `input[pos..]`:
      the characters up to the next '@' (which is consumed and dropped), or
      to the end of the input, which sets eofbit. */
  method GetLine(input: string, pos: nat) returns (segment: string, next: nat, atEof: bool)
    requires pos <= |input|
    ensures pos <= next <= |input|
    ensures '@' !in segment
    ensures atEof ==> next == |input| && segment == input[pos..]
    ensures !atEof ==> pos < next && input[next - 1] == '@' && segment == input[pos..next - 1]
  {
    segment := [];
    next := pos;
    while next < |input| && input[next] != '@'
      invariant pos <= next <= |input|
      invariant segment == input[pos..next]
      invariant '@' !in segment
    {
      segment := segment + [input[next]];
      next := next + 1;
    }
    if next < |input| {
      next := next + 1;
      atEof := false;
    } else {
      atEof := true;
    }
  }

  /** The `while (iss.good()) getline(iss, ip_string, '@');` loop over an
      `istringstream` of the subject name. `ipString` enters holding the
      previous subject's value; the loop body always runs, so that value
      never survives. */
  method ParseDestIp(subjectName: string, ipString: string) returns (ip: string)
    ensures ip == AfterLastAt(subjectName)
  {
    ip := ipString;
    var pos: nat := 0;
    var good := true;     // a fresh istringstream is good()
    while good
      invariant pos <= |subjectName|
      invariant good ==> pos == 0 || subjectName[pos - 1] == '@'
      invariant !good ==> ip == AfterLastAt(subjectName)
      decreases |subjectName| - pos + (if good then 1 else 0)
    {
      var start := pos;
      var atEof;
      ip, pos, atEof := GetLine(subjectName, pos);
      if atEof {
        AfterLastAtUnique(subjectName, start);
        good := false;
      }
    }
  }

  // ---------------------------------------------------------------------
  // One frame of the dispatch loop
  // ---------------------------------------------------------------------

  datatype Translation = Translation(x: Float32, y: Float32, z: Float32)

  /** What the motion-capture client reports for one subject in a frame. */
  datatype Subject = Subject(name: string, rotation: Quaternion, translation: Translation)

  /** What the clock, the codec and the socket report while sending one
      subject's pose. */
  datatype SendIo = SendIo(now: FileTime, encodedLen: int, bytesSent: int)

  /** What the loop reports for a subject: "ERROR setting dest ip", "failed
      to send position data", or the printed pose. */
  datatype Outcome = DestIpFailed | SendFailed | Sent

  /** Where a subject's pose is sent. */
  function DestinationOf(name: string, port: u16): SockAddr
  {
    SockAddr(AF_INET, port, InetAddr(AfterLastAt(name)))
  }

  /** What the loop reports for one subject, from the connection it finds. */
  function SubjectOutcome(link: LinkState, io: SendIo): Outcome
  {
    if link.currentPort < 1 then DestIpFailed
    else if link.initFlag != 0 && io.encodedLen >= 0 && io.bytesSent == io.encodedLen then Sent
    else SendFailed
  }

  /** The `sendto` calls made for one subject: none, or one carrying the
      subject's own pose to the subject's own destination. */
  function SubjectDatagrams(link: LinkState, s: Subject, io: SendIo): seq<Datagram>
  {
    if link.currentPort >= 1 && link.initFlag != 0 && io.encodedLen >= 0 then
      [Datagram(link.sockFd, DestinationOf(s.name, link.currentPort),
                AttPosMocap(link.systemId, MAV_COMP_ID_ALL, MicrosSinceBoot(io.now), s.rotation,
                            s.translation.x, s.translation.y, s.translation.z),
                io.encodedLen)]
    else []
  }

  /** The `sendto` calls made for a frame, subject after subject. */
  function FrameDatagrams(link: LinkState, subjects: seq<Subject>, io: seq<SendIo>): seq<Datagram>
    requires |io| == |subjects|
  {
    if subjects == [] then []
    else FrameDatagrams(link, subjects[..|subjects| - 1], io[..|io| - 1])
         + SubjectDatagrams(link, subjects[|subjects| - 1], io[|io| - 1])
  }

  /** A subject whose destination is refused sends nothing; one reported as
      sent made exactly one `sendto`, to the IP in its own name, with its own
      pose; one whose send failed made at most one. */
  lemma SubjectOutcomeAgrees(link: LinkState, s: Subject, io: SendIo)
    ensures |SubjectDatagrams(link, s, io)| <= 1
    ensures SubjectOutcome(link, io) == DestIpFailed ==> SubjectDatagrams(link, s, io) == []
    ensures SubjectOutcome(link, io) == Sent ==>
      |SubjectDatagrams(link, s, io)| == 1
      && SubjectDatagrams(link, s, io)[0].to.addr == InetAddr(AfterLastAt(s.name))
      && SubjectDatagrams(link, s, io)[0].msg.q == s.rotation
      && SubjectDatagrams(link, s, io)[0].length == io.bytesSent
  {
  }

  /** Frames compose: the datagrams of two runs of subjects are those of the
      first followed by those of the second, so what one subject does never
      changes what another subject sends. */
  lemma {:induction false} FrameDatagramsAppend(link: LinkState, s1: seq<Subject>, io1: seq<SendIo>,
                                                s2: seq<Subject>, io2: seq<SendIo>)
    requires |io1| == |s1| && |io2| == |s2|
    ensures FrameDatagrams(link, s1 + s2, io1 + io2)
         == FrameDatagrams(link, s1, io1) + FrameDatagrams(link, s2, io2)
    decreases |s2|
  {
    if s2 == [] {
      assert s1 + s2 == s1 && io1 + io2 == io1;
    } else {
      var s2i, io2i := s2[..|s2| - 1], io2[..|io2| - 1];
      assert (s1 + s2)[..|s1 + s2| - 1] == s1 + s2i;
      assert (io1 + io2)[..|io1 + io2| - 1] == io1 + io2i;
      FrameDatagramsAppend(link, s1, io1, s2i, io2i);
    }
  }

  /** Subject i's datagrams sit between those of subjects 0..i-1 and those of
      subjects i+1.., whatever happened to any of the others. */
  lemma FrameDatagramsAt(link: LinkState, subjects: seq<Subject>, io: seq<SendIo>, i: nat)
    requires |io| == |subjects| && i < |subjects|
    ensures FrameDatagrams(link, subjects, io)
         == FrameDatagrams(link, subjects[..i], io[..i])
            + SubjectDatagrams(link, subjects[i], io[i])
            + FrameDatagrams(link, subjects[i + 1..], io[i + 1..])
  {
    assert subjects == subjects[..i] + [subjects[i]] + subjects[i + 1..];
    assert io == io[..i] + [io[i]] + io[i + 1..];
    FrameDatagramsAppend(link, subjects[..i], io[..i], [subjects[i]], [io[i]]);
    FrameDatagramsAppend(link, subjects[..i] + [subjects[i]], io[..i] + [io[i]], subjects[i + 1..], io[i + 1..]);
    assert FrameDatagrams(link, [subjects[i]], [io[i]]) == SubjectDatagrams(link, subjects[i], io[i]);
  }

  /** What the loop reports for a frame, subject after subject. */
  function FrameOutcomes(link: LinkState, io: seq<SendIo>): seq<Outcome>
  {
    if io == [] then [] else FrameOutcomes(link, io[..|io| - 1]) + [SubjectOutcome(link, io[|io| - 1])]
  }

  /** One report per subject, and report i depends only on subject i. */
  lemma {:induction false} FrameOutcomesAt(link: LinkState, io: seq<SendIo>)
    ensures |FrameOutcomes(link, io)| == |io|
    ensures forall i :: 0 <= i < |io| ==> FrameOutcomes(link, io)[i] == SubjectOutcome(link, io[i])
    decreases |io|
  {
    if io != [] {
      FrameOutcomesAt(link, io[..|io| - 1]);
    }
  }

  /** On a connection with a valid port no subject's destination is refused. */
  lemma {:induction false} FrameNeverRefusedOnValidPort(link: LinkState, io: seq<SendIo>)
    requires link.currentPort >= 1
    ensures DestIpFailed !in FrameOutcomes(link, io)
    decreases |io|
  {
    if io != [] {
      FrameNeverRefusedOnValidPort(link, io[..|io| - 1]);
    }
  }

  /** The datagrams of subjects 0..i are those of 0..i-1 and then subject i's. */
  lemma FrameDatagramsStep(link: LinkState, subjects: seq<Subject>, io: seq<SendIo>, i: nat)
    requires |io| == |subjects| && i < |subjects|
    ensures FrameDatagrams(link, subjects[..i + 1], io[..i + 1])
         == FrameDatagrams(link, subjects[..i], io[..i]) + SubjectDatagrams(link, subjects[i], io[i])
  {
    assert subjects[..i + 1][..i] == subjects[..i] && io[..i + 1][..i] == io[..i];
  }

  /** At most one `sendto` per subject in a frame. */
  lemma {:induction false} FrameDatagramsAtMostOneEach(link: LinkState, subjects: seq<Subject>, io: seq<SendIo>)
    requires |io| == |subjects|
    ensures |FrameDatagrams(link, subjects, io)| <= |subjects|
    decreases |subjects|
  {
    if subjects != [] {
      FrameDatagramsAtMostOneEach(link, subjects[..|subjects| - 1], io[..|io| - 1]);
      SubjectOutcomeAgrees(link, subjects[|subjects| - 1], io[|io| - 1]);
    }
  }

  /** The destination the connection is left pointing at after a frame. */
  function DestAfterFrame(link: LinkState, subjects: seq<Subject>, before: SockAddr): SockAddr
  {
    if subjects != [] && link.currentPort >= 1
    then DestinationOf(subjects[|subjects| - 1].name, link.currentPort)
    else before
  }

  /** The body of the `for (SubjectIndex ...)` loop for one subject; each
      `continue` of the loop is a `return` here. `ipString` is the variable
      that keeps the last parsed IP between subjects. */
  method DispatchSubject(conn: Connection, subject: Subject, io: SendIo, ipString: string)
    returns (outcome: Outcome, ip: string)
    modifies conn
    ensures outcome == SubjectOutcome(old(conn.Link()), io)
    ensures ip == AfterLastAt(subject.name)
    ensures conn.sendLog == old(conn.sendLog) + SubjectDatagrams(old(conn.Link()), subject, io)
    ensures conn.destAddress ==
      if old(conn.currentPort) >= 1 then DestinationOf(subject.name, old(conn.currentPort))
      else old(conn.destAddress)
    ensures conn.Link() == old(conn.Link()) && conn.myAddress == old(conn.myAddress)
  {
    ip := ParseDestIp(subject.name, ipString);
    var r := conn.SetDestIp(Some(ip));
    if r != 0 {
      return DestIpFailed, ip;      // "ERROR setting dest ip"
    }
    var t := subject.translation;
    var ret := conn.SendAttPosMocap(subject.rotation, t.x, t.y, t.z, io.now, io.encodedLen, io.bytesSent);
    if ret == -1 {
      return SendFailed, ip;        // "failed to send position data"
    }
    return Sent, ip;                // the pose is printed
  }

  lemma DestAfterFrameStep(link: LinkState, subjects: seq<Subject>, before: SockAddr, i: nat)
    requires i < |subjects|
    ensures DestAfterFrame(link, subjects[..i + 1], before)
         == if link.currentPort >= 1 then DestinationOf(subjects[i].name, link.currentPort)
            else DestAfterFrame(link, subjects[..i], before)
  {
  }

  /** One pass of the `while (running)` body. `frameOk` is what `GetFrame()`
      reported; `subjects` are the subjects of that frame in index order and
      `io[i]` what the system reports while subject i is sent. */
  method DispatchFrame(conn: Connection, frameOk: bool, subjects: seq<Subject>, io: seq<SendIo>)
    returns (report: seq<Outcome>)
    requires |io| == |subjects|
    modifies conn
    ensures !frameOk ==> report == [] && unchanged(conn)
    ensures frameOk ==> report == FrameOutcomes(old(conn.Link()), io)
    ensures frameOk ==> conn.sendLog == old(conn.sendLog) + FrameDatagrams(old(conn.Link()), subjects, io)
    ensures frameOk ==> conn.destAddress == DestAfterFrame(old(conn.Link()), subjects, old(conn.destAddress))
    ensures conn.Link() == old(conn.Link()) && conn.myAddress == old(conn.myAddress)
    // the program's own situation: the loop runs on an initialised connection
    ensures old(conn.Ready()) && old(conn.initFlag) != 0 ==> DestIpFailed !in report
  {
    report := [];
    if !frameOk {
      return;        // "No new frame received"
    }
    ghost var link, log0, dest0, local0 := conn.Link(), conn.sendLog, conn.destAddress, conn.myAddress;
    // The source's `ip_string` lives across frames; starting each frame from
    // "" loses nothing, since `ParseDestIp` overwrites whatever it held.
    var ipString: string := "";
    for i := 0 to |subjects|
      invariant report == FrameOutcomes(link, io[..i])
      invariant conn.sendLog == log0 + FrameDatagrams(link, subjects[..i], io[..i])
      invariant conn.destAddress == DestAfterFrame(link, subjects[..i], dest0)
      invariant conn.Link() == link && conn.myAddress == local0
    {
      assert io[..i + 1][..i] == io[..i];
      FrameDatagramsStep(link, subjects, io, i);
      DestAfterFrameStep(link, subjects, dest0, i);
      var outcome;
      outcome, ipString := DispatchSubject(conn, subjects[i], io[i], ipString);
      report := report + [outcome];
    }
    assert subjects[..|subjects|] == subjects && io[..|io|] == io;
    if link.currentPort >= 1 {
      FrameNeverRefusedOnValidPort(link, io);
    }
  }

  /** The relay as it runs: after a successful `rc_mav_init`, a frame reports
      every subject, none as refused, and a subject counts as sent exactly
      when its send moved the whole encoded message. */
  method FrameAfterInit(sysid: u8, ip: string, port: u16, fd: int, subjects: seq<Subject>, io: seq<SendIo>)
    returns (report: seq<Outcome>)
    requires fd != INVALID_SOCKET && port >= 1 && |io| == |subjects|
    ensures |report| == |subjects|
    ensures forall i :: 0 <= i < |report| ==>
      report[i] != DestIpFailed
      && (report[i] == Sent <==> io[i].encodedLen >= 0 && io[i].bytesSent == io[i].encodedLen)
  {
    var c := new Connection();
    var r := c.Init(sysid, Some(ip), port, fd, true);
    ghost var link := c.Link();
    report := DispatchFrame(c, true, subjects, io);
    FrameOutcomesAt(link, io);
  }

  /** Three subjects "A@10.0.0.1", "B@badip", "C@10.0.0.3" where B's send
      fails: A and C are still sent, each to its own IP, in index order.
      "badip" is not refused by the destination step; only its send fails. */
  lemma IsolationExample(link: LinkState, a: Subject, b: Subject, c: Subject,
                         ioA: SendIo, ioB: SendIo, ioC: SendIo)
    requires link.currentPort >= 1 && link.initFlag != 0
    requires a.name == "A@10.0.0.1" && b.name == "B@badip" && c.name == "C@10.0.0.3"
    requires ioA.encodedLen >= 0 && ioA.bytesSent == ioA.encodedLen
    requires ioC.encodedLen >= 0 && ioC.bytesSent == ioC.encodedLen
    requires ioB.bytesSent != ioB.encodedLen
    ensures SubjectOutcome(link, ioA) == Sent && SubjectOutcome(link, ioC) == Sent
    ensures SubjectOutcome(link, ioB) == SendFailed
    ensures var d := FrameDatagrams(link, [a, b, c], [ioA, ioB, ioC]);
      2 <= |d| <= 3
      && d[0] == SubjectDatagrams(link, a, ioA)[0]
      && d[0].to.addr == InetAddr("10.0.0.1")
      && d[|d| - 1] == SubjectDatagrams(link, c, ioC)[0]
      && d[|d| - 1].to.addr == InetAddr("10.0.0.3")
  {
    AfterLastAtIgnoresPrefix("A", "10.0.0.1");
    AfterLastAtIgnoresPrefix("C", "10.0.0.3");
    assert "A" + "@" + "10.0.0.1" == a.name;
    assert "C" + "@" + "10.0.0.3" == c.name;
    FrameDatagramsAt(link, [a, b, c], [ioA, ioB, ioC], 0);
    FrameDatagramsAt(link, [a, b, c], [ioA, ioB, ioC], 2);
    SubjectOutcomeAgrees(link, b, ioB);
  }
}

