/** Bytes as they appear on paper and on the wire, for one small case each. */
module Examples {
  import opened Wrappers
  import opened Bytes
  import opened Json
  import opened JsonText
  import Framing
  import Transfer
  import Requests
  import Hello
  import Listing

  // ---------- printed JSON

  lemma NumbersText()
    ensures ValueInt(1.0) == 1 && ValueInt(-20.0) == -20
    ensures IntText(1) == [0x31] && IntText(-20) == [0x2D, 0x32, 0x30]
  {
    assert Digits(20) == Digits(2) + [0x30];
  }

  lemma StringText()
    ensures Quoted([0x1F, 0x0A, 0x22])
         == [0x22, 0x5C, 0x75, 0x30, 0x30, 0x31, 0x66, 0x5C, 0x6E, 0x5C, 0x22, 0x22]
  {
    var s: bytes := [0x1F, 0x0A, 0x22];
    assert s[1..] == [0x0A, 0x22] && s[1..][1..] == [0x22] && s[1..][1..][1..] == [];
    assert Escape(s[1..][1..]) == [0x5C, 0x22];
    assert Escape(s[1..]) == [0x5C, 0x6E, 0x5C, 0x22];
  }

  /** `[1,-20,null]`, formatted with a space behind each comma. */
  lemma ArrayText(fmt: bool, items: seq<Json>)
    requires items == [Number(1.0), Number(-20.0), Null]
    ensures ItemsAllInts(items)
    ensures ItemsText(items, fmt, 1)
         == [0x31, 0x2C] + If(fmt, [0x20]) + [0x2D, 0x32, 0x30, 0x2C] + If(fmt, [0x20]) + [0x6E, 0x75, 0x6C, 0x6C]
    ensures Text(Array(items), fmt, 0) == [0x5B] + ItemsText(items, fmt, 1) + [0x5D]
  {
    NumbersText();
    assert items[1..] == [Number(-20.0), Null] && items[1..][1..] == [Null] && items[1..][1..][1..] == [];
    assert AllInts(Number(1.0)) && AllInts(Number(-20.0)) && AllInts(Null);
    assert ItemsAllInts(items[1..][1..][1..]);
    assert ItemsAllInts(items[1..][1..]);
    assert ItemsAllInts(items[1..]);
    assert ItemsText(items[1..][1..], fmt, 1) == [0x6E, 0x75, 0x6C, 0x6C];
    assert ItemsText(items[1..], fmt, 1)
        == [0x2D, 0x32, 0x30, 0x2C] + If(fmt, [0x20]) + [0x6E, 0x75, 0x6C, 0x6C];
  }

  /** `{"a":true,"b":{}}`, formatted with a line for each member, a tab for each level and one behind the colon. */
  lemma ObjectText(a: Member, b: Member)
    requires a == Member([0x61], True) && b == Member([0x62], Object([]))
    ensures AllInts(a.value) && AllInts(b.value) && MembersAllInts([a, b])
    ensures MembersText([a, b], true, 1)
         == [0x09, 0x22, 0x61, 0x22, 0x3A, 0x09, 0x74, 0x72, 0x75, 0x65, 0x2C, 0x0A]
            + [0x09, 0x22, 0x62, 0x22, 0x3A, 0x09, 0x7B, 0x0A, 0x09, 0x7D, 0x0A]
    ensures Text(Object([a, b]), true, 0) == [0x7B, 0x0A] + MembersText([a, b], true, 1) + [0x7D]
  {
    assert [a, b][1..] == [b];
    FirstMemberText(a);
    LastMemberText(b);
  }

  lemma FirstMemberText(a: Member)
    requires a == Member([0x61], True)
    ensures AllInts(a.value)
    ensures MemberText(a, true, true, 1) == [0x09, 0x22, 0x61, 0x22, 0x3A, 0x09, 0x74, 0x72, 0x75, 0x65, 0x2C, 0x0A]
  {
    assert Escape([0x61]) == [0x61] && Tabs(1) == [0x09];
  }

  lemma LastMemberText(b: Member)
    requires b == Member([0x62], Object([]))
    ensures AllInts(b.value) && MembersAllInts([b])
    ensures MembersText([b], true, 1) == [0x09, 0x22, 0x62, 0x22, 0x3A, 0x09, 0x7B, 0x0A, 0x09, 0x7D, 0x0A]
  {
    assert [b][1..] == [] && MembersAllInts([]);
    assert Escape([0x62]) == [0x62] && Tabs(1) == [0x09];
    assert Text(b.value, true, 1) == [0x7B, 0x0A, 0x09, 0x7D];
  }

  // ---------- messages

  /** A node called `a` at address `1`, port 80. */
  lemma HelloBytes()
    ensures Hello.HelloLine([0x61], [0x31], 80)
         == [0x48, 0x45, 0x4C, 0x4C, 0x4F, 0x20, 0x61, 0x20, 0x31, 0x20, 0x38, 0x30]
  {
    assert Digits(80) == Digits(8) + [0x30];
  }

  /** A request for the file `a`: its length, `DOWNLOAD_REQUEST`, and the name. */
  lemma RequestBytes()
    ensures Requests.Request([0x61])
         == [0x00, 0x12, 0x44, 0x4F, 0x57, 0x4E, 0x4C, 0x4F, 0x41, 0x44, 0x5F, 0x52, 0x45, 0x51, 0x55, 0x45, 0x53, 0x54,
             0x20, 0x61]
  {
  }

  /** The answer with a file of three bytes, and the one without. */
  lemma AnswerBytes(x: byte, y: byte, z: byte)
    ensures Transfer.Stream([x, y, z]) == [0xFF, 0x00, 0x00, 0x00, 0x03, x, y, z]
    ensures Transfer.FILE_NOT_FOUND == 0x00
  {
  }

  /** A listing of one file `a` of 7 bytes: its line behind its length, then the end marker. */
  lemma ListingBytes(f: Listing.FileInfo)
    requires f == Listing.FileInfo([0x61], 7)
    ensures Listing.Frames([f]) + Listing.Marker() == [0x00, 0x03, 0x61, 0x20, 0x37, 0xFF, 0xFF]
  {
    assert [f][1..] == [];
    assert Digits(7) == [0x37];
  }
}
