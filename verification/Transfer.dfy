/**
 A download: `download_request` and `file_transfer` of `src/server.c` on one side of a connection,
 `download_file` of `src/cli.c` on the other.
 */
module Transfer {
  import opened Wrappers
  import opened Bytes
  import opened Network

  const CHUNK_SIZE: nat := 4096
  const FILE_FOUND: byte := 0xff
  const FILE_NOT_FOUND: byte := 0x00
  const TWO_32: int := 0x1_0000_0000

  /** Four bytes in network order. */
  function Be32(n: nat): (r: bytes)
    requires n < TWO_32
    ensures |r| == 4
  {
    [n / 0x100_0000, n / 0x1_0000 % 0x100, n / 0x100 % 0x100, n % 0x100]
  }

  function FromBe32(b: bytes): nat
    requires |b| == 4
  {
    b[0] as int * 0x100_0000 + b[1] as int * 0x1_0000 + b[2] as int * 0x100 + b[3]
  }

  lemma {:induction false} Be32RoundTrip(n: nat)
    requires n < TWO_32
    ensures FromBe32(Be32(n)) == n
  {
    assert n / 0x1_0000 == n / 0x100_0000 * 0x100 + n / 0x1_0000 % 0x100;
    assert n / 0x100 == n / 0x1_0000 * 0x100 + n / 0x100 % 0x100;
  }

  lemma {:induction false} FourBytes(b: bytes, c: bytes)
    requires |b| == 4 && |c| == 4
    ensures Before(b, c) <==>
              b[0] < c[0] || (b[0] == c[0] && (b[1] < c[1] || (b[1] == c[1] &&
                (b[2] < c[2] || (b[2] == c[2] && b[3] < c[3])))))
  {
    BeforeOne(b[3], c[3]);
    BeforeHeads(b[2], [b[3]], c[2], [c[3]]);
    BeforeHeads(b[1], [b[2]] + [b[3]], c[1], [c[2]] + [c[3]]);
    BeforeHeads(b[0], [b[1]] + ([b[2]] + [b[3]]), c[0], [c[1]] + ([c[2]] + [c[3]]));
    assert b == [b[0]] + ([b[1]] + ([b[2]] + [b[3]])) && c == [c[0]] + ([c[1]] + ([c[2]] + [c[3]]));
  }

  /** Network order is the order in which comparing bytes is comparing numbers. */
  lemma {:induction false} Be32IsOrdered(n: nat, m: nat)
    requires n < TWO_32 && m < TWO_32
    ensures n < m <==> Before(Be32(n), Be32(m))
  {
    var b, c := Be32(n), Be32(m);
    FourBytes(b, c);
    Be32RoundTrip(n);
    Be32RoundTrip(m);
    assert FromBe32(b) == n && FromBe32(c) == m;
  }

  /** The answer byte and the size, which is cut to 32 bits. */
  function Header(file: bytes): (r: bytes)
    ensures |r| == 5
  {
    [FILE_FOUND] + Be32(|file| % TWO_32)
  }

  /** What the server puts on the wire for a file, all told. */
  function Stream(file: bytes): bytes {
    Header(file) + file
  }

  // ---------- the client

  datatype Download = NotFound | Stored(content: bytes) | Broken | Ignored

  /** What the client makes of the bytes that will arrive, and how many of them it takes. */
  function Receive(s: bytes): (r: (Download, nat))
    requires s != []
    ensures r.1 <= |s|
  {
    if s[0] == FILE_NOT_FOUND then (NotFound, 1)
    else if s[0] != FILE_FOUND then (Ignored, 1)
    else if |s| < 5 then (Broken, |s|)
    else
      var size := FromBe32(s[1..5]);
      if |s| - 5 < size then (Broken, |s|) else (Stored(s[5..5 + size]), 5 + size)
  }

  /** Of a longer file only the part that the 32-bit size announces is taken off the stream. */
  lemma {:induction false} ReceiveStream(file: bytes, rest: bytes)
    ensures Receive(Stream(file) + rest) == (Stored(file[..|file| % TWO_32]), 5 + |file| % TWO_32)
  {
    var s, size := Stream(file) + rest, |file| % TWO_32;
    assert s[1..5] == Be32(size);
    Be32RoundTrip(size);
    assert s[5..5 + size] == file[..size];
  }

  /** The file is stored, and nothing of it left on the stream, exactly if it is shorter than 2^32 bytes. */
  lemma DeliversIff(file: bytes, rest: bytes)
    ensures Receive(Stream(file) + rest) == (Stored(file), |Stream(file)|) <==> |file| < TWO_32
  {
    ReceiveStream(file, rest);
  }

  /** Of a file of exactly 2^32 bytes nothing arrives: the announced size is 0, and all of it stays on the stream. */
  lemma WrappedFileIsEmpty() returns (file: bytes)
    ensures |file| == TWO_32 && Receive(Stream(file)) == (Stored([]), 5) && Stream(file)[5..] == file
  {
    file := seq(TWO_32, _ => 0);
    assert Stream(file) + [] == Stream(file);
    ReceiveStream(file, []);
  }

  /**
   The client's side after its request: the answer byte, the size, then chunks until the size is
   reached. However the stream arrives, the result is that of `Receive`.
   */
  method DownloadFile(fd: Socket) returns (r: Download)
    requires fd.Valid() && fd.Rest() != [] && NeverFails(fd.outcomes)
    modifies fd`taken, fd`outcomes
    ensures fd.Valid() && NeverFails(fd.outcomes)
    ensures (r, fd.taken - old(fd.taken)) == Receive(old(fd.Rest()))
  {
    ghost var s := fd.Rest();
    ghost var start := fd.taken;
    var nbytes, answer := RecvTcpMessage(fd, 1);
    if answer[0] == FILE_NOT_FOUND {
      return NotFound;
    } else if answer[0] != FILE_FOUND {
      return Ignored;
    }
    var header;
    nbytes, header := RecvTcpMessage(fd, 4);
    if nbytes < 4 {
      return Broken;
    }
    var size := FromBe32(header);
    assert header == s[1..5];
    var total, content := 0, [];
    while total < size
      invariant fd.Valid() && NeverFails(fd.outcomes) && total == |content| <= size
      invariant fd.taken == start + 5 + total && content == fd.incoming[start + 5..fd.taken]
    {
      var want := if size - total < CHUNK_SIZE then size - total else CHUNK_SIZE;
      var buffer;
      nbytes, buffer := RecvTcpMessage(fd, want);
      if nbytes <= 0 {
        return Broken;
      }
      total, content := total + nbytes, content + buffer;
    }
    assert s[5..5 + size] == content;
    r := Stored(content);
  }

  // ---------- the server

  datatype Status = Continue | Download | Error

  /** `struct _transfer_info` with the socket's side of it: the bytes accepted so far. */
  class TransferInfo {
    const file: bytes
    var position: nat
    const chunkBuffer: array<byte>
    var chunkLen: nat
    var chunkAmountSent: nat
    var wire: bytes

    ghost predicate Valid()
      reads this, chunkBuffer
    {
      && position <= |file| && chunkAmountSent <= chunkLen <= chunkBuffer.Length == CHUNK_SIZE
      && chunkLen <= position && chunkBuffer[..chunkLen] == file[position - chunkLen..position]
    }

    ghost function View(): Sending
      reads this
    {
      Sending(position, chunkLen, chunkAmountSent)
    }

    /** The part of `download_request` after the header. */
    constructor (file: bytes, wire: bytes)
      ensures Valid() && this.file == file && this.wire == wire && View() == Sending(0, 0, 0) && fresh(chunkBuffer)
    {
      this.file, this.wire := file, wire;
      position, chunkLen, chunkAmountSent := 0, 0, 0;
      chunkBuffer := new byte[CHUNK_SIZE];
    }

    /** `read` into the chunk buffer. */
    method Read(amount: nat) returns (nbytes: nat)
      requires Valid() && chunkAmountSent == chunkLen && ReadGives(|file| - position, amount)
      modifies this`position, chunkBuffer
      ensures nbytes == amount && position == old(position) + amount <= |file|
      ensures chunkBuffer[..amount] == file[old(position)..position]
    {
      forall i | 0 <= i < amount {
        chunkBuffer[i] := file[position + i];
      }
      position := position + amount;
      nbytes := amount;
    }

    /**
     `file_transfer`: refill the chunk if all of it is sent, stop at the end of the file, else offer
     the rest of the chunk to the socket. `amount` and `outcome` are what `read` and `send` do.
     */
    method FileTransfer(amount: nat, outcome: Outcome) returns (status: Status)
      requires Valid() && (chunkAmountSent == chunkLen ==> ReadGives(|file| - position, amount))
      modifies this`position, this`chunkLen, this`chunkAmountSent, this`wire, chunkBuffer
      ensures Valid() && (View(), status) == Step(old(View()), |file|, amount, outcome)
      ensures wire == old(wire) + file[old(View()).Sent()..View().Sent()]
    {
      if chunkAmountSent == chunkLen {
        var nbytes := Read(amount);
        chunkAmountSent, chunkLen := 0, nbytes;
        if nbytes == 0 {
          return Continue;
        }
      }
      status := SendSome(outcome);
    }

    /** `send` of the rest of the chunk. */
    method SendSome(outcome: Outcome) returns (status: Status)
      requires Valid()
      modifies this`chunkAmountSent, this`wire
      ensures Valid() && (View(), status) == SendStep(old(View()), outcome)
      ensures wire == old(wire) + file[old(View()).Sent()..View().Sent()]
    {
      match outcome {
        case Again => return Download;
        case Failure => return Error;
        case Amount(n) =>
          var accepted := Least(n, chunkLen - chunkAmountSent);
          var piece := chunkBuffer[chunkAmountSent..chunkAmountSent + accepted];
          ghost var chunk := chunkBuffer[..chunkLen];
          SliceOfSlice(file, position - chunkLen, chunk, chunkAmountSent, chunkAmountSent + accepted);
          SliceOfSlice(chunkBuffer[..], 0, chunk, chunkAmountSent, chunkAmountSent + accepted);
          wire := wire + piece;
          chunkAmountSent := chunkAmountSent + accepted;
          return Download;
      }
    }
  }

  lemma SliceOfSlice(file: bytes, start: nat, chunk: bytes, x: nat, y: nat)
    requires start + |chunk| <= |file| && chunk == file[start..start + |chunk|] && x <= y <= |chunk|
    ensures chunk[x..y] == file[start + x..start + y]
  {
    var a, b := chunk[x..y], file[start + x..start + y];
    forall i | 0 <= i < |b| ensures a[i] == b[i] {
      assert chunk[x + i] == file[start..start + |chunk|][x + i];
    }
  }

  /**
   `download_request`, as long as the socket keeps accepting bytes: the answer byte if there is no
   such file, else the header, and a transfer that has sent nothing yet.
   */
  method AnswerRequest(fd: Socket, file: Option<bytes>) returns (transfer: TransferInfo?)
    requires Accepting(fd.outcomes)
    modifies fd`outgoing, fd`outcomes
    ensures Accepting(fd.outcomes) && (transfer == null <==> file == None)
    ensures fd.outgoing == old(fd.outgoing) + if file.None? then [FILE_NOT_FOUND] else Header(file.value)
    ensures transfer != null ==>
      && transfer.Valid() && transfer.file == file.value
      && transfer.View() == Sending(0, 0, 0) && transfer.wire == fd.outgoing
  {
    transfer := null;
    if file.None? {
      var missing := SendTcpMessage(fd, [FILE_NOT_FOUND]);
      return;
    }
    var sent := SendTcpMessage(fd, [FILE_FOUND]);
    sent := SendTcpMessage(fd, Be32(|file.value| % TWO_32));
    transfer := new TransferInfo(file.value, fd.outgoing);
  }

  /** A successful `read` of what is left of a file: nothing only at its end. */
  predicate ReadGives(left: nat, amount: nat) {
    amount <= CHUNK_SIZE && amount <= left && (amount == 0 ==> left == 0)
  }

  /** Where a transfer is: how far the file is read, and how much of the last chunk is sent. */
  datatype Sending = Sending(position: nat, chunkLen: nat, chunkAmountSent: nat) {
    ghost predicate Valid(size: nat) {
      chunkAmountSent <= chunkLen <= position <= size
    }

    /** How much of the file is on the wire. */
    ghost function Sent(): int {
      position - chunkLen + chunkAmountSent
    }
  }

  ghost function Step(t: Sending, size: nat, amount: nat, outcome: Outcome): (Sending, Status)
    requires t.Valid(size) && (t.chunkAmountSent == t.chunkLen ==> ReadGives(size - t.position, amount))
  {
    if t.chunkAmountSent < t.chunkLen then SendStep(t, outcome)
    else if amount == 0 then (Sending(t.position, 0, 0), Continue)
    else SendStep(Sending(t.position + amount, amount, 0), outcome)
  }

  ghost function SendStep(t: Sending, outcome: Outcome): (Sending, Status)
    requires t.chunkAmountSent <= t.chunkLen
  {
    match outcome
    case Again => (t, Download)
    case Failure => (t, Error)
    case Amount(n) => (t.(chunkAmountSent := t.chunkAmountSent + Least(n, t.chunkLen - t.chunkAmountSent)), Download)
  }

  /** Only a transfer that has sent the whole file completes, and every step sends the file on from where it was. */
  lemma StepSends(t: Sending, size: nat, amount: nat, outcome: Outcome)
    requires t.Valid(size) && (t.chunkAmountSent == t.chunkLen ==> ReadGives(size - t.position, amount))
    ensures var (u, status) := Step(t, size, amount, outcome);
      && u.Valid(size) && t.Sent() <= u.Sent() <= size
      && (status == Continue <==> t.Sent() == size)
      && (status == Continue ==> u.Sent() == size)
  {
  }
}
