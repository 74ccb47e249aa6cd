/**
 A peek: the server of `src/server.c` sends its index as length-framed lines and an end marker, the
 client loop of `cmd_peek` in `src/cli.c` collects them.
 */
module Listing {
  import opened Wrappers
  import opened Bytes
  import opened JsonText
  import opened AvlSpec
  import opened Network
  import opened Framing
  import opened Sequences
  import AvlLaws
  import AvlHeap
  import Peers
  import Tokens

  const END_OF_REQUEST: nat := 0xffff

  datatype FileInfo = FileInfo(name: cstring, size: nat)

  function FileInfoCompare(f: FileInfo, g: FileInfo): int {
    Peers.StrCmp(f.name, g.name)
  }

  /** Which order `file_info_compare` is. */
  lemma {:induction false} FileInfoCompareIs(f: FileInfo, g: FileInfo)
    ensures FileInfoCompare(f, g) < 0 <==> Before(f.name, g.name)
    ensures FileInfoCompare(f, g) == 0 <==> f.name == g.name
    ensures FileInfoCompare(f, g) > 0 <==> Before(g.name, f.name)
  {
    Peers.StrCmpIs(f.name, g.name);
  }

  function Line(f: FileInfo): bytes {
    Clipped(f.name + [SPACE] + IntText(f.size))
  }

  function Frames(files: seq<FileInfo>): bytes {
    if files == [] then [] else Frame(Line(files[0])) + Frames(files[1..])
  }

  /** The marker is not converted to network order, and need not be: its two bytes are the same. */
  function Marker(): bytes {
    [0xff, 0xff]
  }

  function Message(files: seq<FileInfo>): bytes {
    Frames(files) + Marker()
  }

  function Lines(files: seq<FileInfo>): (r: seq<bytes>)
    ensures |r| == |files| && forall i :: 0 <= i < |r| ==> r[i] == Line(files[i])
  {
    if files == [] then [] else [Line(files[0])] + Lines(files[1..])
  }

  /** No length of a line reads as the end marker, in either byte order. */
  lemma LengthIsNoMarker(n: nat)
    requires n < BUFFER_LENGTH
    ensures FromBe16(Be16(n)) == n != END_OF_REQUEST && Be16(n) != Marker()
    ensures FromBe16(Marker()) == END_OF_REQUEST && FromBe16([Marker()[1], Marker()[0]]) == END_OF_REQUEST
  {
  }

  // ---------- the index

  lemma FileInfoCompareIsOrder()
    ensures TotalOrder(FileInfoCompare)
  {
    forall a: FileInfo, b: FileInfo, c: FileInfo ensures OrderLaw(FileInfoCompare, a, b, c) {
      Peers.StrCmpIsOrder(a.name, b.name, c.name);
    }
  }

  lemma {:induction false} BuiltSnoc(found: seq<FileInfo>, i: nat)
    requires i < |found|
    ensures var t := AvlLaws.Built(found[..i], FileInfoCompare);
      t.Some? && Insert(t.value, found[i], FileInfoCompare).Some?
      && AvlLaws.Built(found[..i + 1], FileInfoCompare) == Insert(t.value, found[i], FileInfoCompare)
  {
    FileInfoCompareIsOrder();
    assert found[..i + 1][..i] == found[..i];
    AvlLaws.InsertOnlyIndex(found[..i], FileInfoCompare);
    AvlLaws.InsertOnlyIndex(found[..i + 1], FileInfoCompare);
  }

  /** One `concurrent_avl_insert`. */
  method AddFile(index: AvlHeap.AVL<FileInfo>, found: seq<FileInfo>, i: nat)
    requires index.Valid() && index.cmp == FileInfoCompare && i < |found|
    requires Some(index.Contents()) == AvlLaws.Built(found[..i], FileInfoCompare)
    modifies index, AvlHeap.ReprOf(index.root)
    ensures index.Valid() && fresh(AvlHeap.ReprOf(index.root) - old(AvlHeap.ReprOf(index.root)))
    ensures Some(index.Contents()) == AvlLaws.Built(found[..i + 1], FileInfoCompare)
  {
    BuiltSnoc(found, i);
    index.Insert(found[i]);
  }

  /** `get_files`, given the regular files that `readdir` and `stat` find: one insert each. */
  method GetFiles(found: seq<FileInfo>) returns (index: AvlHeap.AVL<FileInfo>)
    ensures fresh(index) && fresh(AvlHeap.ReprOf(index.root)) && index.Valid() && index.cmp == FileInfoCompare
    ensures Some(index.Contents()) == AvlLaws.Built(found, FileInfoCompare)
  {
    index := new AvlHeap.AVL(FileInfoCompare);
    ghost var nodes := AvlHeap.ReprOf(index.root);
    assert found[..0] == [];
    var i := 0;
    while i < |found|
      invariant i <= |found| && fresh(index) && fresh(nodes) && AvlHeap.ReprOf(index.root) <= nodes
      invariant index.Valid() && index.cmp == FileInfoCompare
      invariant Some(index.Contents()) == AvlLaws.Built(found[..i], FileInfoCompare)
    {
      AddFile(index, found, i);
      nodes := nodes + AvlHeap.ReprOf(index.root);
      i := i + 1;
    }
    assert found[..i] == found;
  }

  // ---------- the server

  /** `send_file_name`, as long as the socket keeps accepting bytes. */
  method SendFileName(fd: Socket, file: FileInfo)
    requires Accepting(fd.outcomes)
    modifies fd`outgoing, fd`outcomes
    ensures Accepting(fd.outcomes) && fd.outgoing == old(fd.outgoing) + Frame(Line(file))
  {
    var line := Line(file);
    var sent := SendTcpMessage(fd, Be16(|line|));
    sent := SendTcpMessage(fd, line);
  }

  /** `see_files_request`: one frame for each file the tree walk visits, then the marker. */
  method SeeFilesRequest(fd: Socket, index: AvlHeap.AVL<FileInfo>)
    requires index.Valid() && Accepting(fd.outcomes)
    modifies fd`outgoing, fd`outcomes, index, AvlHeap.ReprOf(index.root)
    ensures index.Valid() && index.Contents() == old(index.Contents()) && Accepting(fd.outcomes)
    ensures fd.outgoing == old(fd.outgoing) + Message(Postorder(index.Contents()))
  {
    MapSame(index.Contents());
    var visited := index.Map(Same);
    SendFiles(fd, visited);
    var sent := SendTcpMessage(fd, Marker());
    Assoc(old(fd.outgoing), Frames(visited), Marker());
  }

  method SendFiles(fd: Socket, files: seq<FileInfo>)
    requires Accepting(fd.outcomes)
    modifies fd`outgoing, fd`outcomes
    ensures Accepting(fd.outcomes) && fd.outgoing == old(fd.outgoing) + Frames(files)
  {
    var i := 0;
    while i < |files|
      invariant i <= |files| && Accepting(fd.outcomes)
      invariant fd.outgoing + Frames(files[i..]) == old(fd.outgoing) + Frames(files)
    {
      ghost var sent := fd.outgoing;
      SendFileName(fd, files[i]);
      Assoc(sent, Frame(Line(files[i])), Frames(files[i + 1..]));
      i := i + 1;
    }
  }

  function Same(f: FileInfo): FileInfo {
    f
  }

  lemma {:induction false} MapSame(t: Tree<FileInfo>)
    ensures Map(t, Same) == t
  {
    if t.Node? {
      MapSame(t.left);
      MapSame(t.right);
    }
  }

  // ---------- the client

  /** The length that the next header announces. */
  ghost function NextLength(left: seq<FileInfo>): nat {
    if left == [] then END_OF_REQUEST else |Line(left[0])|
  }

  ghost function NextHeader(left: seq<FileInfo>): (r: bytes)
    ensures |r| == 2
  {
    if left == [] then Marker() else Be16(|Line(left[0])|)
  }

  /** What follows that header. */
  ghost function AfterHeader(left: seq<FileInfo>, rest: bytes): bytes {
    if left == [] then rest else Line(left[0]) + (Message(left[1..]) + rest)
  }

  lemma {:induction false} HeaderFirst(left: seq<FileInfo>, rest: bytes)
    ensures Message(left) + rest == NextHeader(left) + AfterHeader(left, rest)
    ensures FromBe16(NextHeader(left)) == NextLength(left)
  {
    if left != [] {
      var line, frames := Line(left[0]), Frames(left[1..]);
      LengthIsNoMarker(|line|);
      Assoc(Frame(line), frames, Marker());
      Assoc(Frame(line), frames + Marker(), rest);
      Assoc(Be16(|line|), line, Message(left[1..]) + rest);
    }
  }

  /** A header of two bytes. */
  method ReceiveHeader(fd: Socket, ghost left: seq<FileInfo>, ghost rest: bytes) returns (msgLen: nat)
    requires fd.Valid() && NeverFails(fd.outcomes) && fd.Rest() == Message(left) + rest
    modifies fd`taken, fd`outcomes
    ensures fd.Valid() && NeverFails(fd.outcomes)
    ensures msgLen == NextLength(left) && fd.Rest() == AfterHeader(left, rest)
  {
    HeaderFirst(left, rest);
    Took(fd.incoming, fd.taken, NextHeader(left), AfterHeader(left, rest));
    var nbytes, header := RecvTcpMessage(fd, 2);
    msgLen := FromBe16(header);
  }

  /** The body of a frame, then the next header. */
  method ReceiveLine(fd: Socket, msgLen: nat, ghost left: seq<FileInfo>, ghost rest: bytes)
    returns (line: bytes, next: nat)
    requires fd.Valid() && NeverFails(fd.outcomes) && left != [] && msgLen == NextLength(left)
    requires fd.Rest() == AfterHeader(left, rest)
    modifies fd`taken, fd`outcomes
    ensures fd.Valid() && NeverFails(fd.outcomes)
    ensures line == Line(left[0]) && next == NextLength(left[1..]) && fd.Rest() == AfterHeader(left[1..], rest)
  {
    Took(fd.incoming, fd.taken, Line(left[0]), Message(left[1..]) + rest);
    var nbytes, buffer := RecvTcpMessage(fd, msgLen);
    line := buffer;
    next := ReceiveHeader(fd, left[1..], rest);
  }

  lemma LengthTellsEnd(left: seq<FileInfo>)
    ensures NextLength(left) == END_OF_REQUEST <==> left == []
  {
  }

  /**
   The receive loop of `cmd_peek`: if what arrives starts with a listing, the lines of its files, in
   order, and not a byte beyond the marker, however the stream is cut into pieces.
   */
  method ReceiveListing(fd: Socket, ghost sent: seq<FileInfo>, ghost rest: bytes) returns (files: seq<bytes>)
    requires fd.Valid() && NeverFails(fd.outcomes) && fd.Rest() == Message(sent) + rest
    modifies fd`taken, fd`outcomes
    ensures files == Lines(sent) && fd.Valid() && fd.Rest() == rest
  {
    ghost var left := sent;
    files := [];
    var msgLen := ReceiveHeader(fd, left, rest);
    LengthTellsEnd(left);
    JoinsSelf(Lines(sent));
    while msgLen != END_OF_REQUEST
      invariant fd.Valid() && NeverFails(fd.outcomes) && Joins(files, Lines(left), Lines(sent))
      invariant fd.Rest() == AfterHeader(left, rest) && msgLen == NextLength(left)
      invariant msgLen == END_OF_REQUEST <==> left == []
      decreases |left|
    {
      var line;
      line, msgLen := ReceiveLine(fd, msgLen, left, rest);
      files := files + [line];
      left := left[1..];
      LengthTellsEnd(left);
    }
  }

  // ---------- what a listing says

  lemma {:induction false} PostorderIsPermutation<V>(t: Tree<V>)
    ensures multiset(Postorder(t)) == multiset(Inorder(t))
  {
    if t.Node? {
      PostorderIsPermutation(t.left);
      PostorderIsPermutation(t.right);
    }
  }

  /** In an ordered index every file is visited exactly once. */
  lemma EachFileOnce(t: Tree<FileInfo>, f: FileInfo)
    requires Ordered(t, FileInfoCompare)
    ensures multiset(Postorder(t))[f] == if f in Inorder(t) then 1 else 0
  {
    PostorderIsPermutation(t);
    SortedOnce(Inorder(t), f);
  }

  lemma {:induction false} SortedOnce(s: seq<FileInfo>, f: FileInfo)
    requires Sorted(s, FileInfoCompare)
    ensures multiset(s)[f] == if f in s then 1 else 0
  {
    if s != [] {
      SortedOnce(s[1..], f);
      assert s == [s[0]] + s[1..];
      Peers.StrCmpIsEquality(s[0].name, s[0].name);
      forall i | 0 <= i < |s[1..]| ensures s[1..][i] != s[0] {
        assert s[1..][i] == s[i + 1];
      }
    }
  }

  /** A file was found, and no later one of the same name. */
  ghost predicate Latest(found: seq<FileInfo>, f: FileInfo) {
    exists i :: 0 <= i < |found| && found[i] == f && forall j :: i < j < |found| ==> found[j].name != f.name
  }

  lemma LatestSnoc(found: seq<FileInfo>, last: FileInfo, f: FileInfo)
    ensures Latest(found + [last], f) <==> f == last || (Latest(found, f) && f.name != last.name)
  {
    var all := found + [last];
    if Latest(all, f) && f != last {
      var i :| 0 <= i < |all| && all[i] == f && forall j :: i < j < |all| ==> all[j].name != f.name;
      assert all[|found|] == last && found[i] == f;
      assert forall j :: i < j < |found| ==> found[j] == all[j];
    }
    if f == last {
      assert all[|found|] == f;
    } else if Latest(found, f) && f.name != last.name {
      var i :| 0 <= i < |found| && found[i] == f && forall j :: i < j < |found| ==> found[j].name != f.name;
      assert all[i] == f && forall j :: i < j < |all| ==> all[j].name != f.name;
    }
  }

  lemma PutSortedFiles(s: seq<FileInfo>, v: FileInfo, f: FileInfo)
    requires Sorted(s, FileInfoCompare)
    ensures f in PutSorted(s, v, FileInfoCompare) <==> f == v || (f in s && f.name != v.name)
  {
    FileInfoCompareIsOrder();
    AvlLaws.PutSortedMembers(s, v, FileInfoCompare);
    AvlLaws.PutSortedSorted(s, v, FileInfoCompare);
    Peers.StrCmpIsEquality(f.name, v.name);
    Peers.StrCmpIsEquality(v.name, f.name);
  }

  lemma {:induction false} BuiltHoldsLatest(found: seq<FileInfo>, f: FileInfo)
    ensures Sorted(AvlLaws.Expected(found, FileInfoCompare), FileInfoCompare)
    ensures f in AvlLaws.Expected(found, FileInfoCompare) <==> Latest(found, f)
  {
    FileInfoCompareIsOrder();
    if found != [] {
      var before, last := found[..|found| - 1], found[|found| - 1];
      BuiltHoldsLatest(before, f);
      assert found == before + [last];
      LatestSnoc(before, last, f);
      PutSortedFiles(AvlLaws.Expected(before, FileInfoCompare), last, f);
      AvlLaws.PutSortedSorted(AvlLaws.Expected(before, FileInfoCompare), last, FileInfoCompare);
    }
  }

  /**
   The listing of an index built from the files found has one line for each name, that of the last file
   found under it, and no other line.
   */
  lemma {:induction false} IndexListsLatest(found: seq<FileInfo>, f: FileInfo)
    ensures var t := AvlLaws.Built(found, FileInfoCompare);
      t.Some? && multiset(Postorder(t.value))[f] == if Latest(found, f) then 1 else 0
  {
    FileInfoCompareIsOrder();
    AvlLaws.InsertOnlyIndex(found, FileInfoCompare);
    BuiltHoldsLatest(found, f);
    EachFileOnce(AvlLaws.Built(found, FileInfoCompare).value, f);
  }

  /** A line is cut exactly when it does not fit the buffer with its NUL. */
  lemma LineIsWholeIff(f: FileInfo)
    ensures Line(f) == f.name + [SPACE] + IntText(f.size) <==> |f.name| + 1 + |IntText(f.size)| < BUFFER_LENGTH
  {
  }

  /** The client finds the file's name and size in its line if and only if the name is one word and the line fits. */
  lemma LineTokenisesIff(f: FileInfo)
    ensures Tokens.Words(CString(Line(f)), 0, []) == [f.name, IntText(f.size)]
       <==> Tokens.IsWord(f.name) && |f.name| + 1 + |IntText(f.size)| < BUFFER_LENGTH
  {
    var fields := [f.name, IntText(f.size)];
    Tokens.NumberIsWord(f.size);
    assert 0 !in f.name + [SPACE] + IntText(f.size);
    assert 0 !in Line(f);
    assert fields[0] in fields && fields[1..] == [IntText(f.size)];
    assert Tokens.Joined(fields) == f.name + [SPACE] + IntText(f.size);
    Tokens.PrefixTokenisesIff(fields, Line(f));
  }
}
