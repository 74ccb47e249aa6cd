/**
 A whole session on one connection: the client asks for one file after the other, the server reads
 the requests, answers and transfers. Both directions are byte streams, and both ends take their
 steps in any order and in pieces of any size.
 */
module Session {
  import opened Wrappers
  import opened Bytes
  import opened Network
  import opened Framing
  import opened Requests
  import opened Transfer

  type Files = m: map<bytes, bytes> | forall n <- m :: |m[n]| < TWO_32

  /** Reading a request, sending a file, or no longer there: the connection is closed or its record abandoned. */
  datatype Server = Ready(heard: bytes) | Busy(file: bytes, at: Sending) | Gone

  /** Between downloads, sending the rest of a request, or waiting with part of the answer received. */
  datatype Client = Between | Asking(name: cstring, left: bytes) | Waiting(name: cstring, got: bytes)

  datatype State = State(
    server: Server,
    client: Client,
    up: bytes,
    down: bytes,
    todo: seq<cstring>,
    done: seq<(cstring, Download)>)

  datatype Choice =
    | ClientAsks
    | ClientSends(k: nat)
    | ServerTakes(k: nat)
    | ServerMoves(amount: nat, outcome: Outcome)
    | ClientTakes(k: nat)

  /**
   How many bytes the server's next `recv` asks for; 0 when the request is complete. Of a request that is
   too long for the buffer it takes as many bytes as the header had, and goes on to the next.
   */
  function Owed(heard: bytes): (n: nat)
    ensures n == 0 ==> |heard| >= 2
  {
    if |heard| < 2 then 2 - |heard|
    else
      var msgLen := FromBe16(heard[..2]);
      var whole := if msgLen > BUFFER_LENGTH then 4 else 2 + msgLen;
      if |heard| < whole then whole - |heard| else 0
  }

  /** What `main_handler` does with a complete request that is no peek: where it leaves the server, and the reply. */
  ghost function React(heard: bytes, files: Files): (Server, bytes)
    requires |heard| >= 2
  {
    var msgLen, line := FromBe16(heard[..2]), heard[2..];
    if msgLen == 0 then (Gone, [])
    else if msgLen > BUFFER_LENGTH || LineWords(line) == [] then (Ready([]), [])
    else match AskedFor(line)
      case None => (Gone, [])
      case Some(f) => Reply(files, f)
  }

  /** `download_request`. */
  ghost function Reply(files: Files, f: bytes): (Server, bytes) {
    if f in files then (Busy(files[f], Sending(0, 0, 0)), Header(files[f])) else (Ready([]), [FILE_NOT_FOUND])
  }

  /** How many bytes the client's next `recv` asks for; 0 when the answer is complete. */
  function Want(got: bytes): nat {
    if got == [] then 1
    else if got[0] != FILE_FOUND then 0
    else if |got| < 5 then 5 - |got|
    else
      var size, have := FromBe32(got[1..5]), |got| - 5;
      if have >= size then 0 else Least(CHUNK_SIZE - have % CHUNK_SIZE, size - have)
  }

  ghost predicate Enabled(s: State, c: Choice) {
    match c
    case ClientAsks => s.client.Between? && s.todo != []
    case ClientSends(k) => s.client.Asking? && 0 < k <= |s.client.left|
    case ServerTakes(k) => s.server.Ready? && 0 < k <= Owed(s.server.heard) && k <= |s.up|
    case ServerMoves(amount, outcome) =>
      && s.server.Busy? && !outcome.Failure? && s.server.at.Valid(|s.server.file|)
      && (s.server.at.chunkAmountSent == s.server.at.chunkLen ==>
            ReadGives(|s.server.file| - s.server.at.position, amount))
    case ClientTakes(k) => s.client.Waiting? && 0 < k <= Want(s.client.got) && k <= |s.down|
  }

  ghost function Next(s: State, c: Choice, files: Files): State
    requires Enabled(s, c)
  {
    match c
    case ClientAsks =>
      s.(client := Asking(s.todo[0], Request(s.todo[0])), todo := s.todo[1..])
    case ClientSends(k) =>
      var name, left := s.client.name, s.client.left;
      s.(up := s.up + left[..k], client := if k == |left| then Waiting(name, []) else Asking(name, left[k..]))
    case ServerTakes(k) =>
      var heard := s.server.heard + s.up[..k];
      if Owed(heard) > 0 then s.(up := s.up[k..], server := Ready(heard))
      else
        var (server, reply) := React(heard, files);
        s.(up := s.up[k..], server := server, down := s.down + reply)
    case ServerMoves(amount, outcome) =>
      var file, at := s.server.file, s.server.at;
      var (to, status) := Step(at, |file|, amount, outcome);
      StepSends(at, |file|, amount, outcome);
      s.(down := s.down + file[at.Sent()..to.Sent()],
         server := if status == Continue then Ready([]) else Busy(file, to))
    case ClientTakes(k) =>
      var got := s.client.got + s.down[..k];
      if Want(got) == 0 then
        s.(down := s.down[k..], client := Between, done := s.done + [(s.client.name, Receive(got).0)])
      else s.(down := s.down[k..], client := s.client.(got := got))
  }

  ghost function Start(names: seq<cstring>): State {
    State(Ready([]), Between, [], [], names, [])
  }

  // ---------- requests, from the first byte to the last

  /** The file that the server will look for when the client asks for a name. */
  function Asked(name: cstring): Option<bytes> {
    AskedFor(RequestLine(name))
  }

  ghost predicate AllAsked(names: seq<cstring>) {
    forall n <- names :: Asked(n).Some?
  }

  /** The server wants more exactly while it has less than the whole request, and never more than that. */
  lemma OwedOfPrefix(name: cstring, p: bytes)
    requires p <= Request(name)
    ensures Owed(p) == 0 <==> p == Request(name)
    ensures |p| + Owed(p) <= |Request(name)|
  {
    if |p| >= 2 {
      var line := RequestLine(name);
      assert p[..2] == Request(name)[..2] == Be16(|line|);
      Be16RoundTrip(|line|);
      LineNotBlank(name);
    }
  }

  lemma ReactToRequest(name: cstring, files: Files)
    ensures React(Request(name), files) == match Asked(name)
      case None => (Gone, [])
      case Some(f) => Reply(files, f)
  {
    var line := RequestLine(name);
    assert Request(name)[..2] == Be16(|line|) && Request(name)[2..] == line;
    Be16RoundTrip(|line|);
    LineNotBlank(name);
  }

  /**
   What any framed line makes the server do: an empty one ends the connection, one without words or a longer
   one than the buffer holds is passed over, one that asks for a file is answered, any other ends it.
   */
  lemma {:induction false} ReactToLine(line: bytes, files: Files)
    requires |line| < 0x1_0000
    ensures var message := Be16(|line|) + if |line| <= 1024 then line else line[..2];
      && (forall p | p < message :: Owed(p) > 0) && Owed(message) == 0
      && (|line| == 0 ==> React(message, files) == (Gone, []))
      && (|line| > 1024 ==> React(message, files) == (Ready([]), []))
      && (0 < |line| <= 1024 ==>
            && (LineWords(line) == [] ==> React(message, files) == (Ready([]), []))
            && (forall f :: AskedFor(line) == Some(f) ==>
                  React(message, files) == if f in files then (Busy(files[f], Sending(0, 0, 0)), Header(files[f]))
                                           else (Ready([]), [0x00]))
            && (LineWords(line) != [] && AskedFor(line).None? ==> React(message, files) == (Gone, [])))
  {
    var message := Be16(|line|) + if |line| <= 1024 then line else line[..2];
    Be16RoundTrip(|line|);
    assert message[..2] == Be16(|line|);
    assert |line| <= 1024 ==> message[2..] == line;
    forall p | p < message ensures Owed(p) > 0 {
      assert |p| >= 2 ==> p[..2] == message[..2];
    }
  }

  // ---------- what every step keeps

  /** All that the server will ever put on the wire for a file name. */
  ghost function Answer(files: Files, f: bytes): bytes {
    if f in files then Stream(files[f]) else [FILE_NOT_FOUND]
  }

  ghost function Expected(files: Files, f: bytes): Download {
    if f in files then Stored(files[f]) else NotFound
  }

  ghost function AllExpected(files: Files, names: seq<cstring>): (r: seq<(cstring, Download)>)
    requires AllAsked(names)
    ensures |r| == |names|
  {
    if names == [] then []
    else [(names[0], Expected(files, Asked(names[0]).value))] + AllExpected(files, names[1..])
  }

  /** The part of a request that the server has. */
  ghost function Heard(server: Server): bytes {
    if server.Ready? then server.heard else []
  }

  /** The server has nothing left to send, though it may not have seen the end of the file yet. */
  ghost predicate Quiet(server: Server) {
    !server.Gone? && (server.Busy? ==> server.at.Valid(|server.file|) && server.at.Sent() == |server.file|)
  }

  /** Part of the request has not been answered: some of it is in flight or in the server's buffer. */
  ghost predicate Unanswered(s: State) {
    s.up != [] || Heard(s.server) != []
  }

  /** What was received and what is in flight together: the part of the answer sent so far. */
  ghost predicate InFlight(s: State, files: Files, f: bytes, sofar: bytes) {
    if s.server.Busy? then
      && s.server.at.Valid(|s.server.file|)
      && f in files && s.server.file == files[f]
      && sofar == Header(files[f]) + files[f][..s.server.at.Sent()]
    else sofar == Answer(files, f)
  }

  ghost predicate Inv(s: State, files: Files) {
    match s.client
    case Between => s.up == [] && s.down == [] && Quiet(s.server) && Heard(s.server) == []
    case Asking(name, left) =>
      left != [] && s.down == [] && Quiet(s.server) && Heard(s.server) + s.up + left == Request(name)
    case Waiting(name, got) =>
      if s.server.Gone? then Asked(name) == None && s.up == [] && got == [] && s.down == []
      else if Unanswered(s) then
        && got == [] && s.down == [] && Quiet(s.server)
        && Heard(s.server) + s.up == Request(name) && Owed(Heard(s.server)) > 0
      else Asked(name).Some? && Want(got) > 0 && InFlight(s, files, Asked(name).value, got + s.down)
  }

  lemma SizeOfPrefix(file: bytes, p: bytes)
    requires |file| < TWO_32 && p <= Stream(file) && |p| >= 5
    ensures p[0] == FILE_FOUND && FromBe32(p[1..5]) == |file|
  {
    assert p[1..5] == Stream(file)[1..5] == Be32(|file|);
    Be32RoundTrip(|file|);
  }

  /** The client wants more exactly while it has less than the whole answer, and never more than that. */
  lemma {:induction false} WantOfPrefix(file: bytes, p: bytes)
    requires |file| < TWO_32 && p <= Stream(file)
    ensures Want(p) == 0 <==> p == Stream(file)
    ensures |p| + Want(p) <= |Stream(file)|
  {
    if |p| >= 5 {
      SizeOfPrefix(file, p);
    } else if p != [] {
      assert p[0] == FILE_FOUND;
    }
  }

  lemma {:induction false} WantOfAnswer(files: Files, f: bytes, p: bytes)
    requires p <= Answer(files, f)
    ensures Want(p) == 0 <==> p == Answer(files, f)
    ensures |p| + Want(p) <= |Answer(files, f)|
    ensures p == Answer(files, f) ==> Receive(p).0 == Expected(files, f)
  {
    if f in files {
      WantOfPrefix(files[f], p);
      ReceiveStream(files[f], []);
      assert Stream(files[f]) + [] == Stream(files[f]);
      assert files[f][..|files[f]|] == files[f];
    } else {
      assert p == [] || p == [FILE_NOT_FOUND];
    }
  }

  lemma InFlightIsPrefix(s: State, files: Files, f: bytes, sofar: bytes)
    requires InFlight(s, files, f, sofar) && !s.server.Gone?
    ensures sofar <= Answer(files, f)
    ensures sofar == Answer(files, f) ==> Quiet(s.server)
  {
    if s.server.Busy? {
      var file, sent := files[f], s.server.at.Sent();
      assert file == file[..sent] + file[sent..];
      assert sofar == Stream(file)[..5 + sent];
      assert |sofar| == 5 + sent && |Stream(file)| == 5 + |file|;
    }
  }

  lemma {:induction false} AllExpectedSnoc(files: Files, names: seq<cstring>, name: cstring)
    requires AllAsked(names) && Asked(name).Some?
    ensures AllAsked(names + [name])
    ensures AllExpected(files, names + [name])
         == AllExpected(files, names) + [(name, Expected(files, Asked(name).value))]
  {
    if names == [] {
      assert [] + [name] == [name];
    } else {
      assert (names + [name])[1..] == names[1..] + [name];
      AllExpectedSnoc(files, names[1..], name);
    }
  }

  /** The downloads done are the first ones asked for, each with the right result. */
  ghost predicate OnTrack(s: State, files: Files, names: seq<cstring>) {
    var n := |s.done|;
    && n <= |names| && AllAsked(names[..n]) && s.done == AllExpected(files, names[..n])
    && if s.client.Between? then s.todo == names[n..]
       else n < |names| && s.client.name == names[n] && s.todo == names[n + 1..]
  }

  ghost predicate Good(s: State, files: Files, names: seq<cstring>) {
    Inv(s, files) && OnTrack(s, files, names)
  }

  lemma AskKeeps(s: State, files: Files, names: seq<cstring>)
    requires Good(s, files, names) && Enabled(s, ClientAsks)
    ensures Good(Next(s, ClientAsks, files), files, names)
  {
    var request := Request(s.todo[0]);
    assert [] + [] + request == request;
  }

  /** Bytes pass from the front of one stage to the end of the one before it. */
  lemma Passes(first: bytes, second: bytes, third: bytes, k: nat)
    requires k <= |third|
    ensures first + (second + third[..k]) + third[k..] == first + second + third
    ensures k == |third| ==> first + (second + third[..k]) == first + second + third
  {
  }

  lemma {:induction false} SendKeepsInv(s: State, k: nat, files: Files)
    requires Inv(s, files) && Enabled(s, ClientSends(k))
    ensures Inv(Next(s, ClientSends(k), files), files)
  {
    var heard, left := Heard(s.server), s.client.left;
    Passes(heard, s.up, left, k);
    assert heard <= heard + s.up <= Request(s.client.name);
    OwedOfPrefix(s.client.name, heard);
    assert left[..k] != [];
  }

  lemma {:induction false} SendKeeps(s: State, k: nat, files: Files, names: seq<cstring>)
    requires Good(s, files, names) && Enabled(s, ClientSends(k))
    ensures Good(Next(s, ClientSends(k), files), files, names)
  {
    SendKeepsInv(s, k, files);
  }

  /** What the server has after `k` more bytes is still a prefix of the request, and all of it once it wants no more. */
  lemma HearsPrefix(s: State, k: nat, name: cstring)
    requires Enabled(s, ServerTakes(k)) && s.server.heard + s.up <= Request(name)
    ensures var heard := s.server.heard + s.up[..k];
      && heard + s.up[k..] == s.server.heard + s.up
      && (Owed(heard) == 0 ==> heard == s.server.heard + s.up == Request(name) && s.up[k..] == [] && k == |s.up|)
  {
    var heard := s.server.heard + s.up[..k];
    Passes([], s.server.heard, s.up, k);
    assert [] + heard == heard && [] + s.server.heard == s.server.heard;
    assert heard <= heard + s.up[k..] <= Request(name);
    OwedOfPrefix(name, heard);
  }

  lemma {:induction false} HearKeepsAsking(s: State, k: nat, files: Files)
    requires Inv(s, files) && s.client.Asking? && Enabled(s, ServerTakes(k))
    ensures Inv(Next(s, ServerTakes(k), files), files) && Next(s, ServerTakes(k), files).done == s.done
  {
    assert s.server.heard + s.up <= Request(s.client.name);
    HearsPrefix(s, k, s.client.name);
    assert |s.server.heard + s.up| < |Request(s.client.name)|;
  }

  lemma {:induction false} HearKeepsWaiting(s: State, k: nat, files: Files)
    requires Inv(s, files) && s.client.Waiting? && Enabled(s, ServerTakes(k))
    ensures Inv(Next(s, ServerTakes(k), files), files) && Next(s, ServerTakes(k), files).done == s.done
  {
    var name := s.client.name;
    HearsPrefix(s, k, name);
    ReactToRequest(name, files);
    if Owed(s.server.heard + s.up[..k]) == 0 && Asked(name).Some? {
      ReplyStarts(s, k, files);
    }
  }

  lemma {:induction false} HearKeeps(s: State, k: nat, files: Files, names: seq<cstring>)
    requires Good(s, files, names) && Enabled(s, ServerTakes(k))
    ensures Good(Next(s, ServerTakes(k), files), files, names)
  {
    if s.client.Asking? {
      HearKeepsAsking(s, k, files);
    } else {
      HearKeepsWaiting(s, k, files);
    }
  }

  lemma ReplyStarts(s: State, k: nat, files: Files)
    requires Enabled(s, ServerTakes(k)) && s.client.Waiting? && s.client.got == [] && s.down == []
    requires s.server.heard + s.up[..k] == Request(s.client.name) && k == |s.up| && Asked(s.client.name).Some?
    requires Owed(Request(s.client.name)) == 0
    ensures Inv(Next(s, ServerTakes(k), files), files)
  {
    var name, f := s.client.name, Asked(s.client.name).value;
    var u := Next(s, ServerTakes(k), files);
    ReactToRequest(name, files);
    if f in files {
      assert Header(files[f]) + files[f][..0] == Header(files[f]);
    }
    assert [] + u.down == u.down;
  }

  /** With nothing left to send, the turn only finds the end of the file. */
  lemma MoveQuiet(s: State, amount: nat, outcome: Outcome, files: Files)
    requires Enabled(s, ServerMoves(amount, outcome)) && Quiet(s.server)
    ensures var u := Next(s, ServerMoves(amount, outcome), files);
      u.down == s.down && Quiet(u.server) && Heard(u.server) == []
  {
    StepSends(s.server.at, |s.server.file|, amount, outcome);
  }

  lemma MoveSends(s: State, amount: nat, outcome: Outcome, files: Files, f: bytes, got: bytes)
    requires Enabled(s, ServerMoves(amount, outcome)) && InFlight(s, files, f, got + s.down)
    ensures var u := Next(s, ServerMoves(amount, outcome), files);
      !u.server.Gone? && Heard(u.server) == [] && InFlight(u, files, f, got + u.down)
  {
    var file, at := s.server.file, s.server.at;
    StepSends(at, |file|, amount, outcome);
    var to := Step(at, |file|, amount, outcome).0;
    var piece := file[at.Sent()..to.Sent()];
    assert file[..at.Sent()] + piece == file[..to.Sent()];
    Regroup(got, s.down, piece, Header(file), file[..at.Sent()]);
    assert to.Sent() == |file| ==> file[..to.Sent()] == file;
  }

  lemma {:induction false} MoveKeepsInv(s: State, amount: nat, outcome: Outcome, files: Files)
    requires Inv(s, files) && Enabled(s, ServerMoves(amount, outcome))
    ensures var u := Next(s, ServerMoves(amount, outcome), files);
      Inv(u, files) && u.client == s.client && u.todo == s.todo && u.done == s.done
  {
    if s.client.Waiting? && !Unanswered(s) {
      MoveSends(s, amount, outcome, files, Asked(s.client.name).value, s.client.got);
    } else {
      MoveQuiet(s, amount, outcome, files);
    }
  }

  lemma {:induction false} MoveKeeps(s: State, amount: nat, outcome: Outcome, files: Files, names: seq<cstring>)
    requires Good(s, files, names) && Enabled(s, ServerMoves(amount, outcome))
    ensures Good(Next(s, ServerMoves(amount, outcome), files), files, names)
  {
    MoveKeepsInv(s, amount, outcome, files);
  }

  lemma Regroup(got: bytes, down: bytes, piece: bytes, header: bytes, sent: bytes)
    requires got + down == header + sent
    ensures got + (down + piece) == header + (sent + piece)
  {
    assert got + (down + piece) == (got + down) + piece;
  }

  /** What the client has after `k` more bytes is still a prefix of the answer, and all of it once it wants no more. */
  lemma TakesPrefix(s: State, k: nat, files: Files, f: bytes)
    requires Enabled(s, ClientTakes(k)) && InFlight(s, files, f, s.client.got + s.down) && !s.server.Gone?
    ensures var got := s.client.got + s.down[..k];
      && got + s.down[k..] == s.client.got + s.down
      && (Want(got) == 0 ==> Receive(got).0 == Expected(files, f) && s.down[k..] == [] && Quiet(s.server))
  {
    var got, sofar := s.client.got + s.down[..k], s.client.got + s.down;
    assert s.down == s.down[..k] + s.down[k..];
    assert got + s.down[k..] == sofar;
    InFlightIsPrefix(s, files, f, sofar);
    assert got <= sofar;
    WantOfAnswer(files, f, got);
  }

  lemma {:induction false} TakeKeepsInv(s: State, k: nat, files: Files)
    requires Inv(s, files) && Enabled(s, ClientTakes(k))
    ensures Inv(Next(s, ClientTakes(k), files), files)
  {
    TakesPrefix(s, k, files, Asked(s.client.name).value);
  }

  /** The download under way ends with the result that its name should have. */
  lemma {:induction false} TrackDone(s: State, result: Download, files: Files, names: seq<cstring>)
    requires OnTrack(s, files, names) && !s.client.Between? && Asked(s.client.name).Some?
    requires result == Expected(files, Asked(s.client.name).value)
    ensures OnTrack(s.(client := Between, done := s.done + [(s.client.name, result)]), files, names)
  {
    var n := |s.done|;
    AllExpectedSnoc(files, names[..n], s.client.name);
    assert names[..n + 1] == names[..n] + [s.client.name];
  }

  lemma {:induction false} TakeKeepsTrack(s: State, k: nat, files: Files, names: seq<cstring>)
    requires Good(s, files, names) && Enabled(s, ClientTakes(k))
    ensures OnTrack(Next(s, ClientTakes(k), files), files, names)
  {
    var f, got := Asked(s.client.name).value, s.client.got + s.down[..k];
    TakesPrefix(s, k, files, f);
    if Want(got) == 0 {
      TrackDone(s, Receive(got).0, files, names);
    }
  }

  lemma {:induction false} StepKeeps(s: State, c: Choice, files: Files, names: seq<cstring>)
    requires Good(s, files, names) && Enabled(s, c)
    ensures Good(Next(s, c, files), files, names)
  {
    match c
    case ClientAsks => AskKeeps(s, files, names);
    case ClientSends(k) => SendKeeps(s, k, files, names);
    case ServerTakes(k) => HearKeeps(s, k, files, names);
    case ServerMoves(amount, outcome) => MoveKeeps(s, amount, outcome, files, names);
    case ClientTakes(k) =>
      TakeKeepsInv(s, k, files);
      TakeKeepsTrack(s, k, files, names);
  }

  // ---------- whole runs

  ghost predicate RunEnabled(s: State, choices: seq<Choice>, files: Files)
    decreases |choices|
  {
    choices != [] ==> Enabled(s, choices[0]) && RunEnabled(Next(s, choices[0], files), choices[1..], files)
  }

  ghost function Run(s: State, choices: seq<Choice>, files: Files): State
    requires RunEnabled(s, choices, files)
    decreases |choices|
  {
    if choices == [] then s else Run(Next(s, choices[0], files), choices[1..], files)
  }

  lemma {:induction false} RunKeeps(s: State, choices: seq<Choice>, files: Files, names: seq<cstring>)
    requires RunEnabled(s, choices, files) && Good(s, files, names)
    ensures Good(Run(s, choices, files), files, names)
    decreases |choices|
  {
    if choices != [] {
      StepKeeps(s, choices[0], files, names);
      RunKeeps(Next(s, choices[0], files), choices[1..], files, names);
    }
  }

  lemma StartIsGood(names: seq<cstring>, files: Files)
    ensures Good(Start(names), files, names)
  {
    assert names[..0] == [] && names[0..] == names;
  }

  lemma {:induction false} Reached(names: seq<cstring>, choices: seq<Choice>, files: Files) returns (s: State)
    requires RunEnabled(Start(names), choices, files)
    ensures s == Run(Start(names), choices, files) && Good(s, files, names)
  {
    s := Run(Start(names), choices, files);
    StartIsGood(names, files);
    RunKeeps(Start(names), choices, files, names);
  }

  /** Every name asked for is dealt with. */
  ghost predicate Finished(s: State) {
    s.client.Between? && s.todo == []
  }

  /**
   In every reachable state the downloads done so far are the first ones asked for, and each stored
   exactly the file, or found that there is none.
   */
  lemma {:induction false} DownloadsDeliver(names: seq<cstring>, choices: seq<Choice>, files: Files)
    requires RunEnabled(Start(names), choices, files)
    ensures var s := Run(Start(names), choices, files);
      && |s.done| <= |names| && AllAsked(names[..|s.done|]) && s.done == AllExpected(files, names[..|s.done|])
      && (Finished(s) ==> AllAsked(names) && s.done == AllExpected(files, names))
  {
    var s := Reached(names, choices, files);
    if Finished(s) {
      assert names[..|s.done|] == names;
    }
  }

  /**
   While an answer is under way, what arrived and what is in flight are a prefix of it; and while a request
   is, what the server has of it, what is in flight and what the client still holds are all of it.
   */
  lemma WiresArePrefixes(names: seq<cstring>, choices: seq<Choice>, files: Files)
    requires RunEnabled(Start(names), choices, files)
    ensures var s := Run(Start(names), choices, files);
      && (s.client.Asking? ==> s.down == [] && Heard(s.server) + s.up + s.client.left == Request(s.client.name))
      && (s.client.Waiting? && Unanswered(s) ==>
            s.client.got + s.down == [] && Heard(s.server) + s.up == Request(s.client.name))
      && (s.client.Waiting? && !Unanswered(s) && Asked(s.client.name).Some? ==>
            s.client.got + s.down <= Answer(files, Asked(s.client.name).value))
  {
    var s := Reached(names, choices, files);
    if s.client.Waiting? && !Unanswered(s) && Asked(s.client.name).Some? {
      InFlightIsPrefix(s, files, Asked(s.client.name).value, s.client.got + s.down);
    }
  }

  /** Between downloads both ends are at a message boundary: nothing in flight, half read or left to send. */
  lemma {:induction false} EndsInSync(names: seq<cstring>, choices: seq<Choice>, files: Files)
    requires RunEnabled(Start(names), choices, files)
    ensures var s := Run(Start(names), choices, files);
      s.client.Between? ==> s.up == [] && s.down == [] && Heard(s.server) == [] && Quiet(s.server)
  {
    var s := Reached(names, choices, files);
  }

  // ---------- no state is stuck

  /** What a request still costs once it is sent. */
  ghost function AnswerCost(files: Files, name: cstring): nat {
    match Asked(name)
    case None => 0
    case Some(f) => |Answer(files, f)| + if f in files then |files[f]| + 1 else 0
  }

  ghost function TodoCost(files: Files, names: seq<cstring>): nat {
    if names == [] then 0
    else 1 + 2 * |Request(names[0])| + AnswerCost(files, names[0]) + TodoCost(files, names[1..])
  }

  ghost function ClientCost(s: State, files: Files): int {
    match s.client
    case Between => 0
    case Asking(name, left) => 2 * |left| + |s.up| + AnswerCost(files, name)
    case Waiting(name, got) =>
      if s.server.Gone? then 0
      else if Unanswered(s) then |s.up| + AnswerCost(files, name)
      else match Asked(name)
        case None => 0
        case Some(f) => |Answer(files, f)| - |got|
  }

  /** How many bytes and turns a session still takes. */
  ghost function Work(s: State, files: Files): int {
    TodoCost(files, s.todo) + ClientCost(s, files)
    + if s.server.Busy? then |s.server.file| - s.server.at.Sent() + 1 else 0
  }

  /** The client waits for the answer to a request that the server gave up. */
  ghost predicate Abandoned(s: State) {
    s.client.Waiting? && s.server.Gone?
  }

  /** Unless all is done or the server gave up, some step is possible that moves at least one byte or ends a turn. */
  lemma {:induction false} NeverStuck(s: State, files: Files) returns (c: Choice)
    requires Inv(s, files) && !Finished(s) && !Abandoned(s)
    ensures Enabled(s, c) && Work(Next(s, c, files), files) < Work(s, files)
  {
    if s.client.Between? {
      c := ClientAsks;
      AskWorks(s, files);
    } else if s.client.Asking? {
      c := ClientSends(1);
      SendWorks(s, files);
    } else if s.down != [] {
      c := ClientTakes(1);
      TakeWorks(s, files);
    } else if s.server.Busy? {
      c := MoveWorks(s, files);
    } else {
      c := ServerTakes(1);
      HearWorks(s, files);
    }
  }

  lemma AskWorks(s: State, files: Files)
    requires Inv(s, files) && s.client.Between? && s.todo != []
    ensures Enabled(s, ClientAsks) && Work(Next(s, ClientAsks, files), files) < Work(s, files)
  {
  }

  lemma {:induction false} SendWorks(s: State, files: Files)
    requires Inv(s, files) && s.client.Asking?
    ensures Enabled(s, ClientSends(1)) && Work(Next(s, ClientSends(1), files), files) < Work(s, files)
  {
  }

  lemma TakeWorks(s: State, files: Files)
    requires Inv(s, files) && s.client.Waiting? && s.down != []
    ensures Enabled(s, ClientTakes(1)) && Work(Next(s, ClientTakes(1), files), files) < Work(s, files)
  {
    var f, got := Asked(s.client.name).value, s.client.got;
    InFlightIsPrefix(s, files, f, got + s.down);
    assert got <= got + s.down;
    WantOfAnswer(files, f, got);
    assert got + s.down[..1] <= got + s.down;
    WantOfAnswer(files, f, got + s.down[..1]);
  }

  lemma MoveWorks(s: State, files: Files) returns (c: Choice)
    requires Inv(s, files) && s.client.Waiting? && s.server.Busy?
    ensures Enabled(s, c) && Work(Next(s, c, files), files) < Work(s, files)
  {
    var file, at := s.server.file, s.server.at;
    var amount := if at.position == |file| then 0 else 1;
    c := ServerMoves(amount, Amount(1));
    StepSends(at, |file|, amount, Amount(1));
  }

  /** A server that could read on has something to read. */
  lemma {:induction false} RequestComes(s: State, files: Files)
    requires Inv(s, files) && s.client.Waiting? && s.server.Ready? && s.down == []
    ensures Unanswered(s) && s.up != []
  {
    if !Unanswered(s) {
      assert s.client.got + [] == s.client.got;
      WantOfAnswer(files, Asked(s.client.name).value, s.client.got);
      assert false;
    }
    assert s.server.heard <= Request(s.client.name);
    OwedOfPrefix(s.client.name, s.server.heard);
    assert s.server.heard + [] == s.server.heard;
  }

  /** The last byte of a request starts the reply, which was accounted for. */
  lemma ReplyWorks(s: State, files: Files)
    requires s.client.Waiting? && s.client.got == [] && s.down == [] && Enabled(s, ServerTakes(1)) && |s.up| == 1
    requires s.server.heard + s.up[..1] == Request(s.client.name)
    ensures Work(Next(s, ServerTakes(1), files), files) < Work(s, files)
  {
    OwedOfPrefix(s.client.name, Request(s.client.name));
    ReactToRequest(s.client.name, files);
  }

  lemma {:induction false} HearWorks(s: State, files: Files)
    requires Inv(s, files) && s.client.Waiting? && s.server.Ready? && s.down == []
    ensures Enabled(s, ServerTakes(1)) && Work(Next(s, ServerTakes(1), files), files) < Work(s, files)
  {
    RequestComes(s, files);
    HearsPrefix(s, 1, s.client.name);
    if Owed(s.server.heard + s.up[..1]) == 0 {
      ReplyWorks(s, files);
    }
  }

  lemma WorkIsNat(s: State, files: Files)
    requires Inv(s, files)
    ensures Work(s, files) >= 0
  {
    if s.client.Waiting? && !s.server.Gone? && !Unanswered(s) {
      InFlightIsPrefix(s, files, Asked(s.client.name).value, s.client.got + s.down);
    }
  }

  /**
   From every reachable state the session can be brought to its end: all is done, or the server gave up
   the first request it could not make out.
   */
  lemma {:induction false} CanEnd(s: State, files: Files, names: seq<cstring>) returns (choices: seq<Choice>)
    requires Good(s, files, names)
    ensures RunEnabled(s, choices, files)
    ensures var end := Run(s, choices, files); Good(end, files, names) && (Finished(end) || Abandoned(end))
    decreases Work(s, files)
  {
    if Finished(s) || Abandoned(s) {
      choices := [];
    } else {
      var c := NeverStuck(s, files);
      StepKeeps(s, c, files, names);
      WorkIsNat(Next(s, c, files), files);
      var rest := CanEnd(Next(s, c, files), files, names);
      choices := [c] + rest;
      assert choices[1..] == rest;
    }
  }

  /** If the server can make out every name, every reachable state can go on until all is delivered. */
  lemma CanFinish(names: seq<cstring>, choices: seq<Choice>, files: Files) returns (more: seq<Choice>)
    requires RunEnabled(Start(names), choices, files) && AllAsked(names)
    ensures var s := Run(Start(names), choices, files);
      RunEnabled(s, more, files) && Finished(Run(s, more, files))
      && Run(s, more, files).done == AllExpected(files, names)
  {
    var s := Reached(names, choices, files);
    more := CanEnd(s, files, names);
    var end := Run(s, more, files);
    if Finished(end) {
      assert names[..|end.done|] == names;
    } else {
      assert false;
    }
  }

  /** Some run deals with every name if and only if the server can make out every one of them. */
  lemma FinishesIff(names: seq<cstring>, files: Files)
    ensures (exists choices :: RunEnabled(Start(names), choices, files) && Finished(Run(Start(names), choices, files)))
       <==> AllAsked(names)
  {
    if choices :| RunEnabled(Start(names), choices, files) && Finished(Run(Start(names), choices, files)) {
      DownloadsDeliver(names, choices, files);
    }
    if AllAsked(names) {
      var more := CanFinish(names, [], files);
    }
  }

  /** Names that are one word and fit the line get exactly the file shared under that name. */
  lemma ServableNamesDeliver(names: seq<cstring>, choices: seq<Choice>, files: Files, i: nat)
    requires RunEnabled(Start(names), choices, files) && (forall n <- names :: Servable(n))
    requires i < |Run(Start(names), choices, files).done|
    ensures i < |names| && Run(Start(names), choices, files).done[i] == (names[i], Expected(files, names[i]))
  {
    var s := Reached(names, choices, files);
    var first := names[..|s.done|];
    AllExpectedAt(files, first, i);
    assert first[i] == names[i] && names[i] in names;
    AskedForIff(names[i]);
  }

  lemma {:induction false} AllExpectedAt(files: Files, names: seq<cstring>, i: nat)
    requires AllAsked(names) && i < |names|
    ensures names[i] in names
    ensures AllExpected(files, names)[i] == (names[i], Expected(files, Asked(names[i]).value))
  {
    if i > 0 {
      AllExpectedAt(files, names[1..], i - 1);
    }
  }
}
