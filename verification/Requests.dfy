/**
 A download request on the wire: the line that `download_file` of `src/cli.c` sends behind its length,
 and what `main_handler` of `src/server.c` makes of it.
 */
module Requests {
  import opened Wrappers
  import opened Bytes
  import opened Network
  import opened Framing
  import opened Tokens

  const DOWNLOAD_REQUEST: bytes :=
    [0x44, 0x4F, 0x57, 0x4E, 0x4C, 0x4F, 0x41, 0x44, 0x5F, 0x52, 0x45, 0x51, 0x55, 0x45, 0x53, 0x54]

  /** What the client prints into its message buffer for a file name. */
  function RequestLine(name: cstring): (r: bytes)
    ensures |r| < BUFFER_LENGTH
  {
    Clipped(DOWNLOAD_REQUEST + [SPACE] + name)
  }

  function Request(name: cstring): (r: bytes)
    ensures |r| > 2
  {
    Frame(RequestLine(name))
  }

  /** The words that the server finds in a line. */
  function LineWords(line: bytes): seq<bytes> {
    Words(CString(line), 0, [])
  }

  /** The file that a line asks for, if it is a download request. */
  function AskedFor(line: bytes): Option<bytes> {
    var words := LineWords(line);
    if |words| == 2 && words[0] == DOWNLOAD_REQUEST then Some(words[1]) else None
  }

  /** A line asks for a file exactly if its words are `DOWNLOAD_REQUEST`, spelled like this, and the file. */
  lemma AskedForMeans(line: bytes, f: bytes)
    ensures AskedFor(line) == Some(f) <==>
              LineWords(line) == [[0x44, 0x4F, 0x57, 0x4E, 0x4C, 0x4F, 0x41, 0x44,
                                   0x5F, 0x52, 0x45, 0x51, 0x55, 0x45, 0x53, 0x54], f]
  {
    var words := LineWords(line);
    if AskedFor(line) == Some(f) {
      assert words == [words[0], words[1]];
    }
  }

  // ---------- both ends, as methods

  /** The start of `download_file`, as long as the socket keeps accepting bytes. */
  method SendRequest(fd: Socket, name: cstring)
    requires Accepting(fd.outcomes)
    modifies fd`outgoing, fd`outcomes
    ensures Accepting(fd.outcomes) && fd.outgoing == old(fd.outgoing) + Request(name)
  {
    var line := RequestLine(name);
    var sent := SendTcpMessage(fd, Be16(|line|));
    sent := SendTcpMessage(fd, line);
  }

  /**
   The start of the client branch of `main_handler` on a line that fits its buffer: length, line,
   tokens. However the stream is cut, the words are those of the line, and not a byte behind it is taken.
   */
  method ReceiveRequest(fd: Socket, ghost line: bytes, ghost rest: bytes) returns (words: Option<seq<bytes>>)
    requires fd.Valid() && NeverFails(fd.outcomes) && |line| < BUFFER_LENGTH && fd.Rest() == Frame(line) + rest
    modifies fd`taken, fd`outcomes
    ensures fd.Valid() && NeverFails(fd.outcomes) && fd.Rest() == rest
    ensures words == if LineWords(line) == [] then None else Some(LineWords(line))
  {
    var message := ReceiveMessage(fd, line, rest);
    words := ParseReceived(message);
  }

  method ReceiveMessage(fd: Socket, ghost line: bytes, ghost rest: bytes) returns (message: bytes)
    requires fd.Valid() && NeverFails(fd.outcomes) && |line| < BUFFER_LENGTH && fd.Rest() == Frame(line) + rest
    modifies fd`taken, fd`outcomes
    ensures fd.Valid() && NeverFails(fd.outcomes) && fd.Rest() == rest && message == line
  {
    Be16RoundTrip(|line|);
    assert Frame(line) + rest == Be16(|line|) + (line + rest);
    Took(fd.incoming, fd.taken, Be16(|line|), line + rest);
    var nbytes, header := RecvTcpMessage(fd, 2);
    var msgLen := FromBe16(header);
    Took(fd.incoming, fd.taken, line, rest);
    nbytes, message := RecvTcpMessage(fd, msgLen);
  }

  /** What `main_handler` does with a message in its buffer: a NUL behind it, and `parse_input`. */
  method ParseReceived(message: bytes) returns (words: Option<seq<bytes>>)
    requires |message| < BUFFER_LENGTH
    ensures words == if LineWords(message) == [] then None else Some(LineWords(message))
  {
    var buffer := new byte[BUFFER_LENGTH];
    forall i | 0 <= i < |message| {
      buffer[i] := message[i];
    }
    buffer[|message|] := 0;
    Terminated(buffer[..], message);
    words := ParseInput(buffer);
  }

  /** A line in a buffer with a NUL behind it is the line as C sees it. */
  lemma {:induction false} Terminated(buffer: bytes, line: bytes)
    requires |line| < |buffer| && buffer[..|line|] == line && buffer[|line|] == 0
    ensures CString(buffer) == CString(line)
  {
    if line != [] && line[0] != 0 {
      assert buffer[0] == line[0];
      assert buffer[1..][..|line| - 1] == line[1..];
      Terminated(buffer[1..], line[1..]);
    } else {
      assert line != [] ==> buffer[0] == line[0];
    }
  }

  // ---------- which names can be asked for

  /** A name that is one word and fits the line. */
  predicate Servable(name: cstring) {
    IsWord(name) && |DOWNLOAD_REQUEST| + 1 + |name| < BUFFER_LENGTH
  }

  lemma LineHasNoNul(name: cstring)
    ensures CString(RequestLine(name)) == RequestLine(name)
  {
    var full := DOWNLOAD_REQUEST + [SPACE] + name;
    assert 0 !in DOWNLOAD_REQUEST;
    assert 0 !in full;
    assert 0 !in RequestLine(name);
  }

  /** A line always has a first word. */
  lemma LineNotBlank(name: cstring)
    ensures RequestLine(name) != [] && LineWords(RequestLine(name)) != []
  {
    var s := RequestLine(name);
    LineHasNoNul(name);
    assert s[0] == DOWNLOAD_REQUEST[0] != SPACE;
    WordsAreAll(s, 0, []);
    assert s[0..] == s && NoSpaces(s)[0] == s[0];
  }

  lemma LineIsFields(name: cstring)
    ensures DOWNLOAD_REQUEST + [SPACE] + name == Joined([DOWNLOAD_REQUEST, name])
    ensures AllWords([DOWNLOAD_REQUEST, name]) <==> IsWord(name)
  {
    var fields := [DOWNLOAD_REQUEST, name];
    assert fields[1..] == [name];
    assert SPACE !in DOWNLOAD_REQUEST && fields[1] in fields;
  }

  /** The server finds exactly the client's name in the line if and only if the name is one word that fits. */
  lemma AskedForIff(name: cstring)
    ensures AskedFor(RequestLine(name)) == Some(name) <==> Servable(name)
    ensures Servable(name) ==> LineWords(RequestLine(name)) == [DOWNLOAD_REQUEST, name]
  {
    var words := LineWords(RequestLine(name));
    LineHasNoNul(name);
    LineIsFields(name);
    PrefixTokenisesIff([DOWNLOAD_REQUEST, name], RequestLine(name));
    assert AskedFor(RequestLine(name)) == Some(name) ==> words == [words[0], words[1]];
  }
}
