# A verified model of the node

The repository is a peer-to-peer file sharing node in C with its own JSON library. This project
models the parts of it that are hard to get right and proves what they are for.

**The JSON engine** (`src/cJSON.c`). `Json.dfy` is the value an item stands for; `JsonText.dfy` the
text printed for it; `JsonReading.dfy` the value read from a text. `JsonPrinter.dfy` and
`JsonParser.dfy` are the printer and the parser as classes over a moving offset and a nesting depth,
each method proved to compute those functions, with exact space accounting on the printing side and
every read and store in bounds on the parsing side. `JsonGrammar.dfy` says what a JSON text is
(RFC 8259, sections 2 to 7, and the few further forms that this parser takes) and what it denotes,
independently of the parser; `JsonSteps.dfy` and `JsonAccepts.dfy` prove that the parser reads every
such text as what it denotes, `JsonExact.dfy` that it reads nothing else; `JsonNumbers.dfy` that
moving the decimal point gives the numbers that the grammar says in powers of ten. `JsonRoundTrip.dfy` shows
that printed text is one of these texts, so that parsing it gives the tree back. `Utf16.dfy` is
the decoding of `\u` escapes (RFC 2781 section 2.2) to UTF-8 (RFC 3629 section 3), both sides proved
inverse. `MinifySpec.dfy`, `Minify.dfy` and `MinifyText.dfy` are the in-place minifier, what it
computes, and exactly which printed trees survive it; `MinifyLexical.dfy` says what minifying is in
terms of comments, blanks and strings, without a scanner. `JsonCompare.dfy` is the comparison, decided by
equality of abstract values. `ItemList.dfy` and `ItemCopy.dfy` are the items on the heap: the doubly
linked child list under append, detach, insert and replace, and the deep copy.

**The AVL index** (`src/data_structures/avl_tree/avl_tree.c`). `AvlSpec.dfy` says what the tree code
computes, `AvlHeap.dfy` does it on a heap of nodes with parent-to-child pointers and cached heights
and sizes, `AvlLaws.dfy` holds the laws. The code is less than a textbook AVL tree: inserts keep
balance, deletes do not always, and an insert into a tree that deletes left unbalanced can rotate
through a missing child. `AvlDeletes.dfy` says exactly when a delete keeps balance,
`AvlLaws.InsertGoesThroughIff` when an insert goes through; `AvlExamples.dfy` gives a run on any seven
values, and `AvlRuns.dfy` shows that no run does it with fewer. `AvlKeys.dfy`: the operations look at
values only through the comparator.

**The node protocol.** `Peers.dfy` is the failure detector over the peer table; `Detector.dfy` holds the
exact conditions under which it is right on the runs that go through, `DetectorRuns.dfy` those under
which all runs do; `Hello.dfy` is the HELLO message from the sender's buffer to the receiver's table;
`Network.dfy` the send and receive loops over sockets that
take and give any part of what is asked; `Framing.dfy` and `Requests.dfy` the framed request lines;
`Transfer.dfy` the two ends of a download; `Session.dfy` a whole session of downloads as a state
machine over all interleavings, both directions being byte streams cut anywhere; `Events.dfy` the
worker threads and who owns which descriptor record, `EventPlaces.dfy` where each record goes and what
decides it; `Listing.dfy` and `Tokens.dfy` the shared-file
index, the framed listing of it and the tokeniser.

`Examples.dfy` shows, byte by byte, what a few small trees and messages look like.

Bytes are 0..255 and C strings are byte sequences without a zero. Numbers are reals where the code
has doubles, and the printer is modelled on its `%d` path. Where the code compares a C integer with a
bound, the bound is written out.

Results that the code does not meet as one might hope are stated exactly:

- Minifying a formatted print gives the unformatted print if and only if the tree is *tail-safe*:
  no key, and no string but possibly one in the very last place of nested arrays, ends in a
  backslash (`MinifyText.MinifyUnformats`; `MinifyText.BackslashKeepsSpace` is a tree that is not).
- The parser accepts a C string as a certain value if and only if the string is a text of the grammar
  that nests at most 1000 levels and denotes that value, with white space around it
  (`JsonExact.AcceptedIff`). The grammar is wider than RFC 8259: it has control characters in strings,
  bad `\u` escapes that read as NUL and can even hide a quote, `007`, `1.` and `-.5`, and every byte up
  to 32 as white space. A string is read up to the first NUL written in it
  (`JsonAccepts.WholeStringIff`).
- Two trees of small integers compare equal if and only if they stand for the same value and neither
  repeats a key with a different value (`JsonCompare.CompareDecides`); with such a repetition a tree
  is not equal to its own copy, and at 2^52 different integers compare equal.
- A delete from a balanced tree leaves it balanced if and only if it does not *tip*, which can be read
  off the heights along its path (`AvlDeletes.DeleteKeepsBalanceIff`), and a whole run stays balanced
  if and only if none of its deletes tips (`AvlDeletes.RunBalancedIff`).
- An insert goes through if and only if its search path does not end beside a subtree of height 3 or
  more (`AvlLaws.InsertGoesThroughIff`); on balanced trees it always does. It leaves exact stored
  sizes exact if and only if it overwrites nothing below the root (`AvlLaws.InsertSizesIff`).
- Every run of inserts and deletes of values from a set goes through if and only if no seven of the
  values differ (`AvlRuns.RunsGoThroughIff`).
- For a set of other nodes, every run whose HELLOs come from them goes through if and only if they have
  at most six addresses (`DetectorRuns.GoesThroughIff`): with seven, a cleanup can leave a table in
  which the next HELLO, even of a stored peer, rotates through a missing child. On the runs that go
  through, the failure detector is exact if and only if the nodes come in the same order by name as by
  address (`Detector.DetectorExactIff`), and it never drops one early if and only if no two addresses
  use one name (`Detector.NeverEarlyIff`). All runs go through and are exact if and only if both
  conditions hold (`DetectorRuns.WorksIff`).
- A HELLO announces exactly the name, address and port of its sender if and only if name and address
  are words and the line fits its buffer (`Hello.AnnouncedIff`); a line of a listing gives back name
  and size if and only if the name is a word and the line fits (`Listing.LineTokenisesIff`).
- The server looks for exactly the file that a client names if and only if the name is one word and
  fits the request line (`Requests.AskedForIff`); a session can end with every name dealt with if and
  only if the server finds some file name in each request (`Session.FinishesIff`).
- A file is delivered if and only if it is shorter than 2^32 bytes (`Transfer.DeliversIff`; of a file
  of 2^32 bytes nothing arrives, `Transfer.WrappedFileIsEmpty`).

## Model

| member | source | states |
|---|---|---|
| JsonExact.AcceptedIff | src/cJSON.c:1147-1777 | a buffer is accepted with a NUL required, and as a certain value, if and only if it is a text of the grammar that nests at most 1000 levels and denotes that value, after a byte order mark if there is one, with white space around it and a NUL as the last byte |
| JsonExact.PrefixAcceptedIff | src/cJSON.c:1147-1777 | without the NUL, a buffer is accepted if and only if it starts with such a text, whatever comes behind |
| JsonExact.ReadValueIs | src/cJSON.c:1368-1420 | whatever is read at any position and depth was written as a text of the grammar that denotes it, and the end of the text is where reading stopped |
| JsonExact.ReadStringIs | src/cJSON.c:824-951 | the same for strings, also where a bad escape puts the two passes out of step or the last escape takes the closing quote |
| JsonExact.StrtodIs | src/cJSON.c:307-407 | what `strtod` takes of a run of number bytes is a number of the grammar with that value |
| JsonNumbers.WorthIff | src/cJSON.c:307-407 | the value that the reader works out by moving the decimal point is the one for which, times ten to the number of digits behind the point, the digits as one integer times ten to the exponent come out |
| JsonNumbers.NumeralWorth | src/cJSON.c:307-407 | a number of the grammar with whole part w, n further digits f and exponent e is worth (w * 10^n + f) * 10^e / 10^n, stated by multiplication |
| JsonNumbers.DecimalJoins | src/cJSON.c:307-407 | digits are read in base ten, the highest first |
| JsonExact.OneMeaning | src/cJSON.c:1368-1420 | no text of the grammar within the limit denotes two values |
| JsonAccepts.GrammarParses | src/cJSON.c:1147-1777 | every text of the grammar, with any white space, escapes, surrogate pairs and forms of numbers, nesting at most 1000 and with or without a byte order mark, is accepted, reads as the value it denotes, and the parse ends where it should |
| JsonAccepts.GrammarParsesIff | src/cJSON.c:1497-1502 | and such a text is accepted at all if and only if its value nests at most 1000 levels |
| JsonAccepts.SyntaxFails | src/cJSON.c:1497-1777 | at any depth, a text that would nest beyond the limit is rejected, wherever in it the depth is reached |
| JsonAccepts.SyntaxReads | src/cJSON.c:1368-1420 | the same at any position and depth, as long as nothing comes behind a number that could continue it |
| JsonAccepts.CharsRead | src/cJSON.c:879-925 | whatever mixture of plain bytes, short escapes, quads, pairs and bad quads a string is written with, the second pass gives its characters in UTF-8 and a NUL for each bad quad |
| JsonAccepts.ClosedScans | src/cJSON.c:837-862 | the first pass finds the quote behind any bytes in which each backslash goes with the byte behind it and no other quote is left |
| JsonAccepts.WholeStringIff | src/cJSON.c:864-925 | a string is read whole exactly when no NUL is written in it |
| JsonAccepts.NumeralReads | src/cJSON.c:307-407 | every number of the grammar, with fraction and exponent or a bare point, is consumed whole and gives its value |
| JsonRoundTrip.PrintedTextParses | src/cJSON.c:1368-1896 | for every tree of 32-bit integers within the nesting limit, formatted or not, parsing the printed text gives back that tree, key order and duplicates included, and ends at the NUL |
| JsonRoundTrip.PrintedTextParsesIff | src/cJSON.c:1497-1502 | the nesting limit, which printer and parser share, is the exact condition for that |
| JsonRoundTrip.ReprintIsStable | src/cJSON.c:1147-1315 | whatever bytes a document of 32-bit integers was read from, printing and reading it again changes nothing |
| JsonRoundTrip.PrintIsInjective | src/cJSON.c:1423-1494 | no two trees print the same text, even with different formatting |
| JsonRoundTrip.ValueReads | src/cJSON.c:1368-1420 | read at the start of a printed value, with anything after it that cannot continue a number, the parser gives that value and stops right behind its text |
| JsonRoundTrip.EscapedStringReads | src/cJSON.c:824-951 | both passes of the string parser find the end of an escaped string, and the second gives the string back |
| JsonRoundTrip.StrtodReads | src/cJSON.c:307-407 | the decimal text of any integer reads back as that integer, all of it consumed |
| JsonRoundTrip.LayoutIs | src/cJSON.c:1423-1896 | printed text, formatted or not, is a text of the grammar that denotes the tree printed |
| JsonPrinter.Print | src/cJSON.c:1239-1315 | the string returned is the text of the tree, and there is one exactly when nesting and length are within their limits |
| JsonPrinter.PrintPreallocated | src/cJSON.c:1348-1365 | succeeds exactly when the buffer has two bytes more than the text and the nesting is within 1000, and then holds the text and its NUL |
| JsonPrinter.PrintBuffer.Ensure | src/cJSON.c:490-573 | grants room exactly when the limit allows it, keeps what is written, grows only a growable buffer |
| JsonPrinter.PrintBuffer.UpdateOffset | src/cJSON.c:576-586 | moves the offset to the end of the text just written |
| JsonPrinter.PrintBuffer.PrintValue | src/cJSON.c:1423-1494 | writes exactly the text of the value after what is there, and succeeds exactly when it fits with two bytes to spare and the nesting allows it |
| JsonPrinter.PrintBuffer.PrintString | src/cJSON.c:954-1079 | writes the quoted, escaped string, with the same exact condition |
| JsonPrinter.PrintBuffer.PrintArray | src/cJSON.c:1595-1659 | the same for arrays, whatever the separators asked of the buffer on the way |
| JsonPrinter.PrintBuffer.PrintObject | src/cJSON.c:1780-1896 | the same for objects, with tabs and new lines when formatted |
| JsonPrinter.PrintBuffer.PrintNumber | src/cJSON.c:596-663 | writes the decimal text of a 32-bit integer; 26 bytes always suffice for it |
| Examples.StringText | src/cJSON.c:1015-1075 | a unit separator, a new line and a quote print as their escapes, with lower-case digits |
| Examples.ArrayText | src/cJSON.c:1595-1659 | three values in brackets with commas between them, and a space behind each comma when formatted |
| Examples.ObjectText | src/cJSON.c:1780-1896 | two members, each on a line of its own behind tabs, with a tab behind the colon |
| JsonPrinter.PrintBuffer.CountEscapes | src/cJSON.c:980-1012 | counts exactly the bytes that escaping adds |
| Json.ValueIntIs | src/cJSON.c:388-400 | the integer that goes with a number is the next one towards zero, saturated at the ends of the range |
| JsonText.IntTextShort | src/cJSON.c:600-640 | no 32-bit integer overruns the number buffer |
| JsonParser.ParseWithLengthOpts | src/cJSON.c:1147-1224 | the parser computes the reading function on every byte buffer, with all reads in bounds and termination by remaining input |
| JsonParser.ParseWithOpts | src/cJSON.c:1131-1144 | a C string is read together with its terminator |
| JsonParser.ParseBuffer.ParseValue | src/cJSON.c:1368-1420 | accepts and reads exactly what the reading function says at the cursor, and moves the cursor past it |
| JsonParser.ParseBuffer.ParseArray | src/cJSON.c:1497-1592 | the same for arrays, with the depth restored |
| JsonParser.ParseBuffer.ParseObject | src/cJSON.c:1662-1777 | the same for objects, with the depth restored |
| JsonParser.ParseBuffer.ParseString | src/cJSON.c:824-951 | the same for strings; the output never overruns the length estimated by the first pass |
| JsonParser.ParseBuffer.ParseNumber | src/cJSON.c:307-407 | the same for numbers |
| JsonParser.ParseBuffer.SkipWhitespace | src/cJSON.c:1090-1113 | moves to the next byte above 32, or steps back onto the last byte of the buffer |
| JsonParser.EstimateBounds | src/cJSON.c:837-925 | on every input the second pass stores no more bytes than the first pass counted, even when a bad quad puts the passes out of step |
| JsonParser.StepBound | src/cJSON.c:879-925 | the invariant behind it: the first pass may be one byte ahead, and then one stored byte is in hand |
| JsonReading.ValueNests | src/cJSON.c:1497-1777 | a value accepted at a depth nests within the limit from there, and the cursor moves strictly forward |
| JsonReading.DocumentNests | src/cJSON.c:1147-1224 | no accepted document nests deeper than 1000, whatever the bytes |
| Utf16.ParseHex4 | src/cJSON.c:666-700 | four hexadecimal digits give their value, anything else gives 0 |
| Utf16.Hex4Is | src/cJSON.c:666-700 | a quad is hexadecimal with value n exactly if it is n written with four digits, of either case, the highest first |
| Utf16.PairReadIff | src/cJSON.c:728-755 | an escape is read as a code point beyond 0xFFFF exactly where its two surrogates stand, as section 2.1 of RFC 2781 computes them, each escaped |
| Utf16.QuadReadIff | src/cJSON.c:703-821 | and as any other scalar value exactly where its four digits stand; as NUL also where four bytes are no digits |
| Utf16.CombineIs | src/cJSON.c:755 | the bits of a pair make the number of section 2.2 of RFC 2781 |
| Utf16.Utf8IsTheEncoding | src/cJSON.c:757-815 | a byte sequence decodes (RFC 3629 section 3) to a scalar value exactly if it is the one encoded for it |
| Utf16.PairsCoverTheRest | src/cJSON.c:728-755 | surrogate pairs (RFC 2781 section 2.2) stand for exactly the code points 0x10000 to 0x10FFFF |
| Utf16.PairsAreUnique | src/cJSON.c:728-755 | and each code point for one pair |
| Utf16.LiteralLaws | src/cJSON.c:703-821 | an escape with hexadecimal digits is accepted exactly when it is a scalar value or a full surrogate pair, and its output decodes to the value it stands for; lone surrogates are rejected |
| Utf16.BadQuadIsNul | src/cJSON.c:666-700 | a quad that is not hexadecimal is read as code point 0 |
| Utf16.Utf16LiteralToUtf8 | src/cJSON.c:703-821 | the method stores exactly those bytes and reports how far it read |
| Utf16.EncodeUtf8 | src/cJSON.c:757-815 | the byte loop, filled from the back, stores the UTF-8 encoding |
| MinifyLexical.MinIsLexical | src/cJSON.c:2924-2970 | a text is minified to exactly the strings and other bytes of its pieces, these being blanks (space, tab, carriage return, line feed), comments to the next line feed, comments to the first star and slash, lone slashes, strings to the next quote with no backslash before it, and other bytes |
| MinifyLexical.EveryTextHasPieces | src/cJSON.c:2924-2970 | every text is a sequence of such pieces |
| Minify.LineEndIff | src/cJSON.c:2875-2886 | a line comment ends behind the first line feed, or with the text |
| Minify.BlockEndIff | src/cJSON.c:2888-2900 | a block comment ends behind the first star and slash, or with the text |
| MinifySpec.MinIsSubsequence | src/cJSON.c:2924-2970 | minified text is a subsequence of the text |
| MinifySpec.MinIsIdempotent | src/cJSON.c:2924-2970 | minifying twice is minifying once |
| Minify.Minify | src/cJSON.c:2924-2970 | in place, for every NUL-terminated input: the array ends up holding the minified original text and a NUL, and is otherwise unchanged; reads never see a byte already overwritten |
| Minify.MinifyString | src/cJSON.c:2902-2922 | the string copier keeps the write cursor behind the read cursor and continues the same computation |
| Minify.SkipOnelineComment | src/cJSON.c:2875-2886 | leads behind the end of the line, or to the NUL |
| Minify.SkipMultilineComment | src/cJSON.c:2888-2900 | leads behind the closing mark, or to the NUL |
| MinifyText.MinifyUnformats | src/cJSON.c:2902-2970 | the minified formatted print is the unformatted print if and only if the tree is tail-safe |
| MinifyText.BackslashKeepsSpace | src/cJSON.c:2902-2922 | an array of a backslash string and null, whose formatted print the minifier leaves as it is |
| MinifyText.CleanTextUnformats | src/cJSON.c:1595-1896 | in particular whenever no key and no string ends in a backslash |
| MinifyText.MinText | src/cJSON.c:2924-2970 | minifying a tail-safe tree's text leaves the minifier between tokens exactly if the tree is clean, whatever follows |
| MinifyText.TextDiffers | src/cJSON.c:2902-2922 | for any other tree the unformatted text is not even a prefix of the result, whatever follows |
| MinifyText.MinifiedTextParses | src/cJSON.c:2924-2970 | parsing the minified formatted print of a tail-safe tree gives the tree back |
| JsonCompare.CompareItem | src/cJSON.c:3072-3195 | the loops and recursive calls compute the comparison predicate |
| JsonCompare.GetObjectItem | src/cJSON.c:1951-1981 | finds the value of the first member with the key |
| JsonCompare.CompareDecides | src/cJSON.c:3072-3195 | for integers below 2^52 two trees compare equal if and only if they stand for the same value, objects as unordered maps, and neither repeats a key with another value |
| JsonCompare.CompareIsEquality | src/cJSON.c:3072-3195 | with distinct keys, comparison is equality of values |
| JsonCompare.CompareDoubleIff | src/cJSON.c:589-593 | two numbers compare equal exactly if they are apart by at most the 2^52nd part of one of them |
| JsonCompare.SmallIntsCompare | src/cJSON.c:589-593 | the tolerance never bridges two different integers below 2^52 |
| JsonCompare.LargeIntsBlur | src/cJSON.c:589-593 | at 2^52 it does |
| JsonCompare.DuplicateKeysCompareUnequal | src/cJSON.c:3158-3187 | a tree with a repeated key can compare unequal to a copy of itself |
| JsonCompare.CopyComparesEqual | src/cJSON.c:3072-3195 | a tree with distinct keys and any numbers compares equal to a copy of itself |
| ItemList.Item.GetArrayItem | src/cJSON.c:1922-1939 | the child at an index, or null |
| ItemList.Item.AddItem | src/cJSON.c:2027-2058 | appends; only the old tail, the head and the new item change |
| ItemList.Item.DetachItemViaPointer | src/cJSON.c:2258-2292 | takes one child out and clears its links; only it, its neighbours and the head change |
| ItemList.Item.DetachItemFromArray | src/cJSON.c:2294-2302 | the same by index; any other index leaves the list alone |
| ItemList.Item.InsertItemInArray | src/cJSON.c:2334-2366 | inserts before the child at an index, or appends |
| ItemList.Item.ReplaceItemViaPointer | src/cJSON.c:2368-2415 | puts an item in the place of a child and clears the child's links |
| ItemList.ReplaceItemInArray | src/cJSON.c:2417-2425 | the same by index |
| ItemList.Run | src/cJSON.c:2027-2415 | any run of these operations with items in no list does to the children what it does to a sequence, and keeps the list well formed |
| ItemList.ListIsDetermined | src/cJSON.c:2001-2056 | the pointers determine the list: two well-formed lists from one head are the same |
| ItemCopy.DuplicateRec | src/cJSON.c:2789-2873 | a fresh well-formed tree holding the same values in the same order, or null exactly when a child lies deeper than the limit |
| ItemCopy.Duplicate | src/cJSON.c:2784-2787 | the same from the root, with the limit as a number of levels |
| ItemCopy.FitsIff | src/cJSON.c:2834-2838 | the depth counted on the way down meets the limit exactly when the number of levels does |
| ItemCopy.EqualNodesCompareEqual | src/cJSON.c:2789-2873 | what a deep copy represents compares equal to what its source represents, given distinct keys |
| AvlLaws.InsertKeepsBalance | src/data_structures/avl_tree/avl_tree.c:56-136 | an insert into a balanced tree goes through, gives a balanced tree with exact heights, and grows it by at most 1; a grown tree is never evenly balanced |
| AvlLaws.InsertContent | src/data_structures/avl_tree/avl_tree.c:102-136 | the content is the sorted list with the value put in, replacing its equal |
| AvlLaws.InsertGoesThroughIff | src/data_structures/avl_tree/avl_tree.c:78-136 | on any tree with exact heights an insert goes through if and only if its path does not end beside a subtree of height 3 or more |
| AvlLaws.InsertFields | src/data_structures/avl_tree/avl_tree.c:102-136 | heights stay exact, stored sizes never too small, and exact if nothing was overwritten |
| AvlLaws.InsertSizesIff | src/data_structures/avl_tree/avl_tree.c:102-136 | in a balanced tree with exact sizes they stay exact if and only if the value has no equal in the tree or its equal is at the root |
| AvlLaws.DeleteContent | src/data_structures/avl_tree/avl_tree.c:187-227 | a delete removes exactly the key and keeps the order |
| AvlLaws.DeleteFields | src/data_structures/avl_tree/avl_tree.c:187-227 | on any tree with exact heights, balanced or not, a delete never rotates through a missing child, and keeps heights and sizes |
| AvlLaws.SearchIsLookup | src/data_structures/avl_tree/avl_tree.c:147-160 | search finds exactly the value of the ordered content that compares equal |
| AvlLaws.BalancedIsBig | src/data_structures/avl_tree/avl_tree.c:44-54 | a balanced tree of height h holds at least Fib(h + 2) - 1 values |
| AvlLaws.InsertOnlyIndex | src/files.c:51-66 | an index built by inserts: every insert goes through, content and search are those of the sorted list, the height is logarithmic |
| AvlLaws.RunLaws | src/data_structures/avl_tree/avl_tree.c:102-227 | over every completed run of inserts and deletes: order, exact heights, the content of the same run on a list, sizes never too small, exact without overwrites |
| AvlDeletes.DeleteKeepsBalanceIff | src/data_structures/avl_tree/avl_tree.c:187-227 | from a balanced tree with exact heights a delete gives a balanced tree if and only if it does not tip, and then lowers it by exactly one or not at all, as read off the tree before |
| AvlDeletes.RunBalancedIff | src/data_structures/avl_tree/avl_tree.c:102-227 | a run of inserts and deletes goes through with a balanced tree after every step if and only if none of its deletes tips |
| AvlExamples.DeletesLoseBalance | src/data_structures/avl_tree/avl_tree.c:187-227 | for any seven values in order, a run of seven inserts and a delete that tips: the tree is then unbalanced, and inserting one of the stored values again meets a missing child |
| AvlExamples.IntegersLoseBalance | src/data_structures/avl_tree/avl_tree.c:187-227 | the integers from 1 to 7 are such values |
| AvlRuns.RunsGoThroughIff | src/data_structures/avl_tree/avl_tree.c:78-227 | for any set of values, every run of inserts and deletes of them goes through if and only if no seven of them differ |
| AvlKeys.InsertMapped | src/data_structures/avl_tree/avl_tree.c:102-136 | changing in all values what the comparator does not see commutes with an insert |
| AvlKeys.DeleteMapped | src/data_structures/avl_tree/avl_tree.c:187-227 | and with a delete |
| AvlHeap.RotLeft | src/data_structures/avl_tree/avl_tree.c:56-65 | the rotation on the heap is that of the specification |
| AvlHeap.RotRight | src/data_structures/avl_tree/avl_tree.c:67-76 | the same to the other side |
| AvlHeap.BalanceLeftAt | src/data_structures/avl_tree/avl_tree.c:89-93 | the choice of rotation on the heap |
| AvlHeap.BalanceRightAt | src/data_structures/avl_tree/avl_tree.c:95-99 | the same to the other side |
| AvlHeap.InsertAux | src/data_structures/avl_tree/avl_tree.c:102-136 | inserting on the heap gives the specified tree |
| AvlHeap.DeleteAux | src/data_structures/avl_tree/avl_tree.c:187-227 | deleting on the heap gives the specified tree, with no new nodes |
| AvlHeap.GetMaxAt | src/data_structures/avl_tree/avl_tree.c:181-185 | the rightmost value |
| AvlHeap.SearchAux | src/data_structures/avl_tree/avl_tree.c:147-160 | searching on the heap, under any comparator |
| AvlHeap.MapAux | src/data_structures/avl_tree/avl_tree.c:275-282 | maps every value in place, visiting them in post-order |
| AvlHeap.AVL.Insert | src/data_structures/avl_concurrent/avl_concurrent.c:23-32 | one atomic insert |
| AvlHeap.AVL.Delete | src/data_structures/avl_concurrent/avl_concurrent.c:72-81 | one atomic delete, possible on every tree that inserts and deletes leave |
| AvlHeap.AVL.Map | src/data_structures/avl_concurrent/avl_concurrent.c:34-43 | one atomic walk |
| AvlHeap.AVL.SearchBy | src/data_structures/avl_concurrent/avl_concurrent.c:60-70 | one atomic search under a comparator of the caller's |
| Peers.StrCmpIs | src/peer.c:23-40 | a string comes before another exactly if it is a proper beginning of it or has the smaller byte where they first differ |
| Peers.PeerCompareIs | src/peer.c:20-35 | a peer comes before another exactly if its IP address does, or that is the same and its port is smaller |
| Peers.PeerCompareNamesIs | src/peer.c:37-41 | by name, exactly if its name does |
| Peers.PeerCompareIsOrder | src/peer.c:20-35 | comparing addresses is a total order |
| Peers.PeerCompareNamesIsOrder | src/peer.c:37-41 | comparing names is a total order |
| Peers.TolerancesCount | src/server.c:126-147 | over every run that goes through a stored peer's tolerance is 3 minus the cleanups since its last HELLO, and the table is an ordered tree with exact heights |
| Peers.NeverDroppedEarly | src/server.c:256-265 | with unique names at each cleanup, no peer is dropped before its third cleanup without a HELLO |
| Peers.TolerancesStayPositive | src/server.c:256-265 | if name and address order agree, tolerance stays in 1..3 between steps |
| Peers.DetectorIsExact | src/server.c:226-265 | then the table holds exactly the peers heard from fewer than three cleanups ago |
| Detector.FittingMessages | src/server.c:217-233 | those conditions on the table follow from conditions on the HELLO messages received from other nodes |
| Detector.OutOfReach | src/server.c:137-147 | for any two other nodes whose orders disagree: an expired peer is out of reach of the search by name and stays |
| Detector.Mistaken | src/server.c:137-147 | for any two other nodes with one name: the expiry of one takes the other away after two cleanups, and the expired one stays |
| Detector.DetectorExactIff | src/server.c:217-265 | for any set of other nodes: on every run that goes through and whose HELLOs come from them the table holds exactly the peers heard from fewer than three cleanups ago, if and only if name and address order agree on the set |
| Detector.TolerancePositiveIff | src/server.c:256-265 | and tolerance stays in 1..3 on all those runs that go through under the same exact condition |
| Detector.NeverEarlyIff | src/server.c:256-265 | and no peer is dropped before its third silent cleanup on any of them that goes through, if and only if no two addresses use one name |
| DetectorRuns.GoesThroughIff | src/server.c:217-265 | for any set of other nodes: every run whose HELLOs come from them goes through, without a rotation through a missing child, if and only if they have at most six addresses |
| DetectorRuns.WorksIff | src/server.c:217-265 | every such run goes through and leaves exactly the peers heard from fewer than three cleanups ago, if and only if name and address order agree on the set and it has at most six addresses |
| DetectorRuns.StaysInRangeIff | src/server.c:256-265 | every such run goes through with tolerance in 1..3 under the same exact condition |
| DetectorRuns.KeepsLivePeersIff | src/server.c:256-265 | every such run goes through and drops no peer before its third silent cleanup, if and only if no two addresses use one name and there are at most six |
| DetectorRuns.SevenFail | src/server.c:226-265 | for any seven other nodes in the order of their addresses: eleven HELLOs and cleanups after which the insert has met a missing child |
| Detector.DisagreeingPeerStays | src/server.c:137-147 | two such nodes, and the run on which one is never forgotten |
| Peers.PeerTable.ReceiveHello | src/server.c:217-233 | stores the sender with full tolerance, unless it is this node itself |
| Peers.PeerTable.CleanUp | src/server.c:256-265 | lowers, collects and forgets as the run specification says |
| Peers.PeerTable.SubtractTolerance | src/server.c:126-135 | every tolerance goes down by one, and the names that reach zero are collected in order of the walk |
| Peers.PeerTable.ForgetPeer | src/server.c:137-147 | searches one name by the name order and deletes what it finds by the address order, as the run specification says |
| Peers.PeerTable.ForgetPeers | src/server.c:256-265 | does so for each collected name in turn |
| Network.SendTcpMessage | src/network.c:163-182 | a prefix of the message is on the wire, all of it if the result says so, and always if the socket keeps accepting |
| Network.RecvTcpMessage | src/network.c:185-208 | however the stream is cut, exactly the bytes asked for, or what is left of a closed stream |
| Transfer.DownloadFile | src/cli.c:172-222 | the client's side computes the receiving function, whatever the pieces |
| Transfer.AnswerRequest | src/server.c:90-123 | answers with the not-found byte, or with the header and a transfer that has sent nothing yet |
| Transfer.DeliversIff | src/server.c:105-107 | the client stores exactly the file and stops right behind it if and only if the file is shorter than 2^32 bytes |
| Transfer.WrappedFileIsEmpty | src/server.c:105-107 | of a file of exactly 2^32 bytes an empty one is stored, and all of it stays on the stream |
| Transfer.ReceiveStream | src/cli.c:178-214 | of a longer file the client takes the part that the 32-bit size announces |
| Transfer.Be32RoundTrip | src/server.c:106-107 | the size in network order reads back |
| Transfer.Be32IsOrdered | src/server.c:106-107 | the four bytes compare as the numbers do, which only network order has |
| Examples.AnswerBytes | src/server.c:90-110 | the answer with a file of three bytes, byte by byte |
| Framing.Be16IsOrdered | src/server.c:74-76 | the two bytes of a length compare as the lengths do |
| Transfer.TransferInfo.FileTransfer | src/server.c:26-62 | one call puts the next bytes of the file on the wire and keeps the chunk buffer in step with the file, for any amounts read and sent |
| Transfer.StepSends | src/server.c:26-62 | the position in the file never goes back, and the transfer completes only when the whole file was sent |
| Requests.SendRequest | src/cli.c:153-171 | the length of the clipped request line in network order, then the line |
| Requests.ReceiveRequest | src/server.c:166-189 | however the stream is cut, the words are those of the line sent, and nothing behind it is taken |
| Requests.ParseReceived | src/server.c:182-186 | a received message with a NUL behind it gives the words of its text |
| Requests.AskedForMeans | src/server.c:192 | a line asks for a file exactly if its words are DOWNLOAD_REQUEST and that file |
| Examples.RequestBytes | src/cli.c:153-171 | a request, byte by byte |
| Requests.AskedForIff | src/server.c:187-197 | the server takes the line for a request of exactly the name asked for if and only if the name is one word and fits the line |
| Session.DownloadsDeliver | src/cli.c:146-248 | over every interleaving and every cutting of both streams, the downloads done are the first ones asked for, each with exactly the file that its request names to the server, or the answer that there is none |
| Session.ServableNamesDeliver | src/cli.c:146-248 | and with names that are one word and fit the line, each with the file shared under that very name |
| Session.WiresArePrefixes | src/server.c:48-61 | what arrived of an answer and what is in flight are always a prefix of it; what the server has of a request, what is in flight and what the client still holds are always all of it |
| Session.ReactToLine | src/server.c:166-205 | any framed line, not only those of this program's clients: an empty one ends the connection, one without words or longer than the buffer is passed over, one that asks for a file is answered, any other ends the connection; and the server never stops in the middle of one |
| Session.EndsInSync | src/server.c:35-45 | between downloads nothing is in flight in either direction, nothing half read and nothing left to send, so the next request starts at a message boundary on both sides |
| Session.StepKeeps | src/server.c:26-197 | every step of either side keeps the invariant behind these |
| Session.NeverStuck | src/server.c:238-240 | until all is done, or the server gave up a request it could not make out, some step is possible that brings the session nearer to its end |
| Session.CanEnd | src/server.c:187-205 | so every reachable state can be brought to one of these two ends |
| Session.CanFinish | src/cli.c:227-248 | and if the server can make out every name, to the one with every file delivered |
| Session.FinishesIff | src/server.c:192-205 | some run deals with every name if and only if the server can make out all of them |
| Events.StepKeeps | src/events.c:91-161 | every step of every worker keeps ownership exclusive, unions tagged, statuses fitting and descriptors distinct |
| Events.OneOwner | src/events.c:91-161 | over every interleaving each record is in exactly one of armed, held by one worker, closed, abandoned; its type is FILE_TRANSFER exactly when its union holds transfer info |
| Events.NoFault | src/events.c:113-158 | no worker reads the wrong variant, touches a freed record or closes a descriptor that is not open |
| EventPlaces.StepPlaces | src/events.c:91-161 | a step arms a record exactly if it accepts it, or re-arms it after continue, download or timeout, or as the listener; closes it exactly on close, or on continue or download if re-arming fails; abandons it exactly on error, or if re-arming a timer, the broadcast socket or the listener fails; takes it from the armed ones exactly if it is among the events; and moves no other |
| EventPlaces.LastStepDecides | src/events.c:91-161 | over every run, whatever came before and whatever other workers do, the last step that moves a record decides where it is |
| EventPlaces.UntouchedIsArmed | src/events.c:91-161 | a record that no step moves stays armed |
| EventPlaces.NewClient | src/events.c:63-111 | accepting makes one armed client record with the new descriptor, and the listener is armed exactly if re-arming succeeded |
| EventPlaces.StepKinds | src/server.c:26-123 | a record becomes a transfer exactly when its client starts a download and a client again exactly when that is done; descriptor and other kinds stay |
| EventPlaces.RunKinds | src/events.c:91-161 | over a whole run too |
| EventPlaces.WorkersGoOn | src/events.c:91-161 | what a worker can do next in any reachable state: take any armed records, accept or not, get any status its handler has for the kind, re-arm or fail to |
| Events.HandleKeeps | src/server.c:151-272 | the status a handler returns fits the variant it leaves in the record |
| Events.AcceptKeeps | src/events.c:63-111 | accepting adds one armed record with a descriptor of its own |
| Tokens.ParseInput | src/utils.c:6-17 | the tokens are the words of the text before the NUL, each cut off in place |
| Tokens.CutIs | src/utils.c:6-17 | of the text exactly the spaces right behind a word become NUL |
| Tokens.WordsSplit | src/utils.c:6-17 | the words of a text are those before any of its spaces, then those behind it, and a word is one word |
| Tokens.WordsAreAll | src/utils.c:6-17 | words are nonempty and space-free, and together all of the text but its spaces |
| Tokens.JoinedTokenises | src/utils.c:6-17 | space-free nonempty fields joined by single spaces tokenise back to themselves |
| Tokens.PrefixTokenisesIff | src/utils.c:6-17 | fields joined by single spaces, of which the end may be cut off, tokenise to exactly these fields if and only if they are words and nothing is cut off |
| Hello.AnnouncedIff | src/server.c:208-220 | the clipped HELLO line of a node, received by another, announces exactly its name, address and port if and only if name and address are words and the line fits; a port with digits cut off reads as another number |
| Hello.LineWordsIff | src/server.c:305-308 | the words of the clipped line are HELLO, name, address and port if and only if name and address are words and the line fits |
| Hello.AtoiIff | src/server.c:220 | of the nonempty beginnings of the decimal text of an integer only the whole text reads back as it |
| Hello.AtoiReads | src/server.c:220 | white space, a sign, zeros and the digits of a number, with anything else behind them, read as the number with its sign |
| Hello.AnnouncedMeans | src/server.c:217-220 | four words, of which the first is HELLO, announce exactly the second and third and the number of the fourth |
| Hello.NotAnnounced | src/server.c:217 | and any other number of words, or another first word, announces nobody |
| Hello.OwnHelloIsIgnored | src/server.c:222-225 | a HELLO with this node's own address and port leaves the table as it is |
| Examples.HelloBytes | src/server.c:306 | a HELLO line, byte by byte |
| Hello.HelloIsStored | src/server.c:226-233 | such a HELLO is stored with full tolerance in place of what was under its address, and nothing else in the table changes |
| Hello.DatagramsCarryRun | src/server.c:208-233 | a run of such HELLOs sent as datagrams leaves the table that the run specification says |
| Hello.ReceiveDatagram | src/server.c:208-235 | whatever a datagram holds that the buffer has room for: the table changes as the announced peer says, or not at all |
| Listing.FileInfoCompareIs | src/files.c:23-27 | a file comes before another exactly if its name does |
| Examples.ListingBytes | src/server.c:67-86 | a listing of one file, byte by byte |
| Listing.FileInfoCompareIsOrder | src/files.c:23-27 | comparing shared files is a total order |
| Listing.GetFiles | src/files.c:43-70 | the index is the tree that one insert for each file found builds |
| Listing.IndexListsLatest | src/files.c:51-66 | the listing of that index has one line for each name, that of the last file found under it, and no other line |
| Listing.SeeFilesRequest | src/server.c:81-86 | one frame for each file in tree post-order, then the marker, with the index unchanged |
| Listing.SendFileName | src/server.c:67-79 | one frame: the length of the clipped line, then the line |
| Listing.ReceiveListing | src/cli.c:111-121 | the client collects the lines of exactly the listed files and stops right behind the marker |
| Listing.LengthIsNoMarker | src/server.c:74-84 | lengths read back, and none of them reads as the end marker, in either byte order |
| Listing.EachFileOnce | src/data_structures/avl_tree/avl_tree.c:275-282 | an ordered index visits every file exactly once |
| Listing.LineIsWholeIff | src/server.c:71-72 | a line is cut exactly when it does not fit the buffer |
| Listing.LineTokenisesIff | src/cli.c:54-67 | the client finds exactly a file's name and size in its line if and only if the name is one word and the line fits |

## Left out

- NULL strings and keys, raw items, reference and constant-key flags, and the hooks: allocator detail; every allocation succeeds.
- Doubles: the `%g` path of the printer and the rounding of `strtod` are foreign library behaviour; reading is modelled on reals, on decimal text with sign, point and exponent.
- The error position reported for a failed parse; the end position of a successful one is modelled.
- `cJSON_PrintBuffered`, which is the growing printer with another first size.
- JsonPrinter.PrintBuffer.PrintNumber: the `%d` path only, for the same reason; other numbers are printed by `%g` or as null.
- JsonPrinter.PrintBuffer.PrintValue: trees of such numbers only, and no raw items.
- JsonPrinter.PrintBuffer.PrintArray: the same.
- JsonPrinter.PrintBuffer.PrintObject: the same.
- JsonPrinter.Print: the same.
- JsonPrinter.PrintPreallocated: the same.
- JsonParser.ParseBuffer.ParseNumber: the value is not rounded to a double.
- JsonAccepts.NumeralReads: the same.
- JsonExact.StrtodIs: the same.
- JsonParser.ParseBuffer.ParseObject: builds the sequence of members, as for arrays below.
- JsonParser.ParseBuffer.ParseArray: builds the sequence of children; the pointers that link them are those of `ItemList.dfy` and not built again here.
- JsonCompare.CompareItem: compares two separate trees; the shortcut for one and the same pointer, and the case-insensitive mode, are not modelled.
- ItemList.Item.InsertItemInArray: inserting an array into itself before one of its children makes a cycle, which no list describes; appending it to itself is refused as in the code.
- ItemList.Item.ReplaceItemViaPointer: the freeing of the replaced item is not modelled, nor are lists whose links the caller corrupted.
- ItemCopy.DuplicateRec: a failed copy is garbage here instead of being freed.
- AvlHeap.InsertAux: requires that the insert goes through; where a rotation would dereference NULL the code has no defined result. `AvlLaws.InsertGoesThroughIff` says exactly where that is.
- AvlHeap.AVL.Insert: the same requirement.
- Peers.PeerTable.ReceiveHello: the same requirement, on the table of peers. `DetectorRuns.GoesThroughIff` says when it is always met.
- The locks of `src/data_structures/avl_concurrent/avl_concurrent.c`: each wrapper is one atomic step, and a cleanup is one atomic step too; pointers that a search returns out of the lock are not followed later.
- Copies of values made and freed by the AVL tree and the array: values are values here.
- Network.RecvTcpMessage: negative descriptors are left out, and the kernel's answers are a finite list after which it gives all it has, so that an endless EAGAIN is not modelled.
- Network.SendTcpMessage: gives up on the first EAGAIN as the code does; the results about sessions and listings assume that headers and lines are accepted.
- Transfer.AnswerRequest: assumes that the socket accepts the header, since the code does not look at the result of those sends.
- Listing.SeeFilesRequest: the same.
- Listing.SendFileName: the same.
- Listing.ReceiveListing: assumes that the listing arrives whole, since the code does not look at the result of those receives.
- Hello.ReceiveDatagram: a datagram of 1024 bytes or more, for which the buffer has no room together with the NUL, and a failing receive are not modelled, nor is the overflow of `atoi`; the insert must go through, as for `Peers.PeerTable.ReceiveHello`.
- Requests.ReceiveRequest: assumes that the stream neither fails nor ends inside a request, and a line shorter than the buffer.
- Requests.SendRequest: assumes an accepting socket; otherwise the code gives the download up.
- Transfer.DownloadFile: assumes that at least the answer byte arrives, since the code does not look at the result of that receive, and that no receive fails.
- Session.DownloadsDeliver: after a download the client also adds the file to its own index; that insert is not part of the session. A peek is not part of a session either, and a request of exactly 1024 bytes, which no client of this program sends, is taken like a shorter one.
- The text of the command line, sockets, timers, directories and logging.
- Events.NoFault: the descriptor of the file under transfer is not tracked among the open ones; memory of the union allocated anew for a transfer is not tracked, and after a failed rearm of the listener or a timer the record counts as abandoned.
- `src/data_structures/array/array.c`, `src/str.c`, `src/log.c`: sequences stand for arrays; `src/data_structures/list/list.c` and `src/directories.c` are not built.
