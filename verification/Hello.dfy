/**
 The HELLO message of `src/server.c`: the line a node prints once and broadcasts, and what the handler
 of another node makes of a datagram.
 */
module Hello {
  import opened Wrappers
  import opened Bytes
  import opened JsonText
  import opened AvlSpec
  import opened Framing
  import opened Tokens
  import opened Requests
  import opened Peers
  import AvlHeap

  const HELLO: bytes := [0x48, 0x45, 0x4C, 0x4C, 0x4F]

  /** The line before `snprintf` cuts it off. */
  function HelloText(name: cstring, ip: cstring, port: int): bytes {
    HELLO + [SPACE] + name + [SPACE] + ip + [SPACE] + IntText(port)
  }

  /** `hello_msg` */
  function HelloLine(name: cstring, ip: cstring, port: int): (r: bytes)
    ensures |r| < BUFFER_LENGTH
  {
    Clipped(HelloText(name, ip, port))
  }

  // ---------- atoi

  predicate IsBlank(c: byte) {
    c == SPACE || TAB <= c <= RETURN
  }

  /** The digits at the front of `s`, behind those that made up `n`. */
  function Leading(s: bytes, n: int): int {
    if s != [] && IsDigit(s[0]) then Leading(s[1..], 10 * n + (s[0] - ZERO)) else n
  }

  /** `atoi`, without a limit on the size of the number. */
  function Atoi(s: bytes): int {
    if s == [] then 0
    else if IsBlank(s[0]) then Atoi(s[1..])
    else if s[0] == MINUS then -Leading(s[1..], 0)
    else if s[0] == PLUS then Leading(s[1..], 0)
    else Leading(s, 0)
  }

  lemma {:induction false} LeadingSnoc(d: bytes, c: byte, n: int)
    requires IsDigit(c) && forall i :: 0 <= i < |d| ==> IsDigit(d[i])
    ensures Leading(d + [c], n) == 10 * Leading(d, n) + (c - ZERO)
  {
    if d == [] {
      assert ([] + [c])[1..] == [];
    } else {
      assert (d + [c])[1..] == d[1..] + [c];
      LeadingSnoc(d[1..], c, 10 * n + (d[0] - ZERO));
    }
  }

  /** The digits of a number are read as it, and with some of them cut off as a smaller one. */
  lemma {:induction false} DigitsLead(n: nat, k: nat)
    requires 1 <= k <= |Digits(n)|
    ensures if k == |Digits(n)| then Leading(Digits(n)[..k], 0) == n else Leading(Digits(n)[..k], 0) < n
  {
    var d := Digits(n);
    if n < 10 {
      LeadingSnoc([], d[0], 0);
      assert d[..k] == [] + [d[0]];
    } else {
      var high := Digits(n / 10);
      assert d[..|high|] == high && high[..|high|] == high;
      if k == |d| {
        DigitsLead(n / 10, |high|);
        LeadingSnoc(high, ZERO + n % 10, 0);
        assert d[..k] == d;
      } else {
        DigitsLead(n / 10, k);
        assert d[..k] == high[..k];
      }
    }
  }

  /** `atoi` inverts `%d`, and what is left when digits are cut off is another number. */
  lemma AtoiIff(n: int, text: bytes)
    requires text <= IntText(n) && text != []
    ensures Atoi(text) == n <==> text == IntText(n)
  {
    var d := Digits(if n < 0 then -n else n);
    if n >= 0 {
      DigitsLead(n, |text|);
      assert text == d[..|text|];
    } else {
      assert text[1..] == d[..|text| - 1];
      if |text| > 1 {
        DigitsLead(-n, |text| - 1);
      }
    }
  }

  lemma {:induction false} LeadingStops(d: bytes, rest: bytes, n: int)
    requires (forall i :: 0 <= i < |d| ==> IsDigit(d[i])) && (rest == [] || !IsDigit(rest[0]))
    ensures Leading(d + rest, n) == Leading(d, n)
  {
    if d == [] {
      assert [] + rest == rest;
    } else {
      assert (d + rest)[1..] == d[1..] + rest;
      LeadingStops(d[1..], rest, 10 * n + (d[0] - ZERO));
    }
  }

  lemma {:induction false} ZerosLead(zeros: bytes, d: bytes)
    requires forall i :: 0 <= i < |zeros| ==> zeros[i] == 0x30
    ensures Leading(zeros + d, 0) == Leading(d, 0)
  {
    if zeros == [] {
      assert [] + d == d;
    } else {
      assert (zeros + d)[1..] == zeros[1..] + d;
      ZerosLead(zeros[1..], d);
    }
  }

  /** `atoi` skips white space, takes a sign and digits, and stops at what comes behind them. */
  lemma {:induction false} AtoiReads(pad: bytes, sign: bytes, zeros: bytes, n: nat, rest: bytes)
    requires forall i :: 0 <= i < |pad| ==> pad[i] == 0x20 || 0x09 <= pad[i] <= 0x0D
    requires sign == [] || sign == [0x2B] || sign == [0x2D]
    requires (forall i :: 0 <= i < |zeros| ==> zeros[i] == 0x30) && (rest == [] || rest[0] < 0x30 || rest[0] > 0x39)
    ensures Atoi(pad + (sign + (zeros + (Digits(n) + rest)))) == if sign == [0x2D] then -(n as int) else n
  {
    var figures := zeros + (Digits(n) + rest);
    var s := pad + (sign + figures);
    if pad != [] {
      assert s[1..] == pad[1..] + (sign + figures);
      AtoiReads(pad[1..], sign, zeros, n, rest);
    } else {
      assert s == sign + figures;
      assert sign != [] ==> s[1..] == figures;
      ZerosLead(zeros, Digits(n) + rest);
      LeadingStops(Digits(n), rest, 0);
      DigitsLead(n, |Digits(n)|);
      assert Digits(n)[..|Digits(n)|] == Digits(n);
      assert figures[0] == if zeros == [] then Digits(n)[0] else 0x30;
      assert IsDigit(figures[0]) && Leading(figures, 0) == n;
      assert s[0] == if sign == [] then figures[0] else sign[0];
      assert sign == [] ==> s == figures;
    }
  }

  // ---------- the handler

  /** The peer that a datagram announces, if it is a HELLO. */
  function Announced(datagram: bytes): Option<Peer> {
    var words := LineWords(datagram);
    NulFree(CString(datagram), 0, []);
    if |words| == 4 && words[0] == HELLO then Some(Peer(words[1], words[2], Atoi(words[3]), 0)) else None
  }

  /** A datagram announces a peer exactly if its words are `HELLO`, spelled like this, name, address and a port. */
  lemma AnnouncedMeans(datagram: bytes, p: Peer, port: bytes)
    requires LineWords(datagram) == [[0x48, 0x45, 0x4C, 0x4C, 0x4F], p.name, p.ip, port]
    ensures Announced(datagram) == Some(p) <==> p.port == Atoi(port) && p.tolerance == 0
  {
  }

  lemma NotAnnounced(datagram: bytes)
    ensures Announced(datagram).None? <==>
              !(|LineWords(datagram)| == 4 && LineWords(datagram)[0] == [0x48, 0x45, 0x4C, 0x4C, 0x4F])
  {
  }

  /** What a datagram does to the table. */
  function StepDatagram(t: Tree<Peer>, datagram: bytes, self: Self): Option<Tree<Peer>> {
    if Announced(datagram).None? then Some(t) else StepTable(t, Event.Hello(Announced(datagram).value), self)
  }

  /** The UDP branch of `main_handler`, for a datagram that the buffer has room for. */
  method ReceiveDatagram(table: PeerTable, datagram: bytes)
    requires table.Valid() && |datagram| < BUFFER_LENGTH
    requires StepDatagram(table.peers.Contents(), datagram, table.self).Some?
    modifies table.peers, AvlHeap.ReprOf(table.peers.root)
    ensures table.Valid()
    ensures Some(table.peers.Contents()) == StepDatagram(old(table.peers.Contents()), datagram, table.self)
  {
    var arr := ParseReceived(datagram);
    NulFree(CString(datagram), 0, []);
    if arr.Some? && |arr.value| == 4 && arr.value[0] == HELLO {
      table.ReceiveHello(arr.value[1], arr.value[2], Atoi(arr.value[3]));
    }
  }

  // ---------- what arrives

  /** The name and the address are words, and the line fits the buffer with its NUL. */
  predicate Sayable(name: cstring, ip: cstring, port: int) {
    IsWord(name) && IsWord(ip) && |HelloText(name, ip, port)| < BUFFER_LENGTH
  }

  ghost function Fields(name: cstring, ip: cstring, port: int): seq<bytes> {
    [HELLO, name, ip, IntText(port)]
  }

  lemma JoinedFour(a: bytes, b: bytes, c: bytes, d: bytes)
    ensures Joined([a, b, c, d]) == a + [SPACE] + b + [SPACE] + c + [SPACE] + d
    ensures Flatten([a, b, c, d]) == a + b + c + d
  {
    assert [a, b, c, d][1..] == [b, c, d];
    assert [b, c, d][1..] == [c, d];
    assert [c, d][1..] == [d];
    assert [d][1..] == [];
    assert Flatten([d]) == d;
    assert Joined([c, d]) == c + [SPACE] + d && Flatten([c, d]) == c + d;
    assert Joined([b, c, d]) == b + [SPACE] + (c + [SPACE] + d) && Flatten([b, c, d]) == b + (c + d);
    assert Joined([a, b, c, d]) == a + [SPACE] + (b + [SPACE] + (c + [SPACE] + d));
    assert Flatten([a, b, c, d]) == a + (b + (c + d));
  }

  lemma FieldsAre(name: cstring, ip: cstring, port: int)
    ensures Joined(Fields(name, ip, port)) == HelloText(name, ip, port)
    ensures AllWords(Fields(name, ip, port)) <==> IsWord(name) && IsWord(ip)
  {
    var f := Fields(name, ip, port);
    NumberIsWord(port);
    JoinedFour(HELLO, name, ip, IntText(port));
    assert SPACE !in HELLO && f[1] in f && f[2] in f;
  }

  lemma HelloHasNoNul(name: cstring, ip: cstring, port: int)
    ensures CString(HelloLine(name, ip, port)) == HelloLine(name, ip, port)
  {
    NumberIsWord(port);
    assert 0 !in HELLO;
    assert 0 !in HelloText(name, ip, port);
    assert 0 !in HelloLine(name, ip, port);
  }

  /** A port that is read back right was not cut off. */
  lemma PortIsWhole(name: cstring, ip: cstring, port: int, last: bytes)
    requires LineWords(HelloLine(name, ip, port)) == [HELLO, name, ip, last] && Atoi(last) == port
    ensures last == IntText(port)
  {
    var words, f, s := [HELLO, name, ip, last], Fields(name, ip, port), HelloLine(name, ip, port);
    HelloHasNoNul(name, ip, port);
    FieldsAre(name, ip, port);
    WordsAreAll(s, 0, []);
    assert words[1] in words && words[2] in words && words[3] in words;
    PrefixWords(f, s);
    JoinedFour(HELLO, name, ip, last);
    JoinedFour(HELLO, name, ip, IntText(port));
    assert Flatten(f)[|HELLO + name + ip|..] == IntText(port);
    assert Flatten(words)[|HELLO + name + ip|..] == last;
    AtoiIff(port, last);
  }

  lemma LineWordsIff(name: cstring, ip: cstring, port: int)
    ensures LineWords(HelloLine(name, ip, port)) == Fields(name, ip, port) <==> Sayable(name, ip, port)
  {
    HelloHasNoNul(name, ip, port);
    FieldsAre(name, ip, port);
    PrefixTokenisesIff(Fields(name, ip, port), HelloLine(name, ip, port));
  }

  /**
   The HELLO a node sends announces exactly its name, address and port if and only if its name and its
   address are words and the line fits.
   */
  lemma AnnouncedIff(name: cstring, ip: cstring, port: int)
    ensures Announced(HelloLine(name, ip, port)) == Some(Peer(name, ip, port, 0)) <==> Sayable(name, ip, port)
  {
    var words := LineWords(HelloLine(name, ip, port));
    LineWordsIff(name, ip, port);
    AtoiIff(port, IntText(port));
    if Announced(HelloLine(name, ip, port)) == Some(Peer(name, ip, port, 0)) {
      assert words == [HELLO, name, ip, words[3]];
      PortIsWhole(name, ip, port, words[3]);
    }
  }

  /**
   Such a HELLO is stored by every node that listens elsewhere with full tolerance, in place of what was under that
   address, and changes nothing else in the table.
   */
  lemma HelloIsStored(t: Tree<Peer>, name: cstring, ip: cstring, port: int, self: Self)
    requires Sound(t) && Sayable(name, ip, port) && !(ip == self.ip && port == self.port)
    requires StepDatagram(t, HelloLine(name, ip, port), self).Some?
    ensures var u := StepDatagram(t, HelloLine(name, ip, port), self).value;
      forall p :: p in Inorder(u) <==>
        p == Peer(name, ip, port, MAX_TOLERANCE) || (p in Inorder(t) && !(p.ip == ip && p.port == port))
  {
    var q := Peer(name, ip, port, MAX_TOLERANCE);
    AnnouncedIff(name, ip, port);
    HelloStores(t, q);
    forall p: Peer ensures PeerCompare(p, q) == 0 <==> p.ip == ip && p.port == port {
      SameKey(p, q);
    }
  }

  /** A datagram that announces this node's own address and port changes nothing, whatever name it gives. */
  lemma OwnHelloIsIgnored(t: Tree<Peer>, name: cstring, ip: cstring, port: int, self: Self)
    requires Sayable(name, ip, port) && ip == self.ip && port == self.port
    ensures StepDatagram(t, HelloLine(name, ip, port), self) == Some(t)
  {
    AnnouncedIff(name, ip, port);
  }

  // ---------- runs

  datatype Packet = Datagram(text: bytes) | Timeout

  /** The table after a run of datagrams and cleanup timeouts; None if an insert met a missing child. */
  function TableOf(packets: seq<Packet>, self: Self): Option<Tree<Peer>> {
    if packets == [] then Some(Leaf)
    else
      match TableOf(packets[..|packets| - 1], self)
      case None => None
      case Some(t) =>
        match packets[|packets| - 1]
        case Datagram(text) => StepDatagram(t, text, self)
        case Timeout => StepTable(t, Cleanup, self)
  }

  /** What goes over the network when these HELLOs are sent. */
  function Sent(events: seq<Event>): (r: seq<Packet>)
    ensures |r| == |events|
  {
    if events == [] then []
    else
      Sent(events[..|events| - 1]) + [match events[|events| - 1]
                                      case Hello(p) => Datagram(HelloLine(p.name, p.ip, p.port))
                                      case Cleanup => Timeout]
  }

  ghost predicate AllSayable(events: seq<Event>) {
    forall e <- events :: e.Hello? ==> Sayable(e.peer.name, e.peer.ip, e.peer.port)
  }

  /** Sending the HELLOs as datagrams leaves the table that the HELLOs themselves do. */
  lemma {:induction false} DatagramsCarryRun(events: seq<Event>, self: Self)
    requires AllSayable(events)
    ensures TableOf(Sent(events), self) == Table(events, self)
  {
    if events != [] {
      var before, e, sent := events[..|events| - 1], events[|events| - 1], Sent(events);
      DatagramsCarryRun(before, self);
      assert sent[..|sent| - 1] == Sent(before) && e in events;
      if e.Hello? {
        AnnouncedIff(e.peer.name, e.peer.ip, e.peer.port);
      }
    }
  }
}
