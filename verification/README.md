# Verified models of the camera firmware's algorithmic components

This project models four engines of the firmware and proves what they promise.

**JSON (cJSON and cJSON_Utils).** A tree is a value of the datatype `JsonTree.Json`. `Meaning` forgets member
order: an object is a finite map, so two trees have the same meaning exactly when they are equal up to member
order. On these values stand printing (`JsonText`), parsing (`JsonParse`, with the grammar in `Spelling`), JSON Pointer
(`JsonPointer`), JSON Patch (`JsonPatch`), JSON Merge Patch (`MergePatch`) and both equalities (`JsonCompare`). The
places where the library works step by step are imperative: the doubly linked child list with its merge sort
(`ChildList`), the growing print buffer (`PrintBuffer`), the parse buffer and the two-pass string decoder
(`ParseBuffer`), the in-place minifier (`Minify`), and the loops over keys, paths and members. Each such method is
proved against the function that specifies it, and the theorems are about those functions. The main theorems:

- `PatchOperations.OperationFollowsRfc`: every operation of a patch does what RFC 6902 says, at any path.
- `PatchRoundTrip.PatchesRoundTrip`: generated patches, applied in order, turn the first tree into the second, and
  `PatchNeeded.EveryPatchIsNeeded`: each of them is needed.
- `PatchPromises.PatchPromiseExact`: the keys for which they do so, exactly.
- `MergeRoundTrip.MergeRoundTripExact`: the same for merge patches, with the exact condition on the trees, and
  `MergeRoundTrip.MergePromiseExact` with the exact condition on the keys.
- `ParseExact.ParseTextExact`: the parser accepts exactly the texts of a grammar, and gives the trees they stand for.
- `PrintParse.PrintThenParse`: print then parse is the identity exactly up to the nesting limit;
  `ShortestText.UnformattedIsShortest`: no text for the tree is shorter than the unformatted one;
  `Layout.PrintedIsLaidOut`: where the formatted one has its blanks.
- `JsonPointer.PointerInverse`: the JSON Pointer of a node leads back to it, with the exact condition, and
  `PointerNames.FollowExact`: what any pointer leads to.
- `JsonCompare.EqualitiesAgree`: the fast and the quadratic equality decide the same.
- `ChildList.Item.SortList`: the linked merge sort refines the sequence sort.
- `StringBounds.DecodedFits`: the second pass of the string decoder stays in the room the first pass counted.
- `MinifyPrint.MinifyPrinted`: when minifying formatted output gives unformatted output, and
  `MinifyMeaning.MinifyThenParse`: minifying any commented text leaves its tree as it is.

**JPEG entropy coding (jpge.cpp).** Canonical Huffman tables (`Huffman`, `StandardTables`), the packing of bits into
stuffed bytes (`BitPacking`, `JpegEncoder`) and the coding of blocks (`EntropyCoder`). The decoder is a specification
taken from sections F.2.2.1 to F.2.2.5 of ITU-T T.81. `Jpeg.EncodeScan` is the main result: decoding the bytes of the
stream gives every coefficient back.

**Camera frame slots (cam_hal.c).** `CamPool` is a state machine in which every access of the camera task to shared
state is a step of its own, interleaved with the interrupt and the consumer; its theorems hold for every sequence of
steps. `CamFrames` adds an observer: which frames are in the queue, in which order and how long
(`CamFrames.FramesInOrder`), and that a whole frame is delivered (`CamFrames.FrameIsDelivered`). `EoiSearch` is the
search for the end marker, four bytes at a time.

**CRC-32 (lfs_config.c).** `Crc` relates the nibble table to the bitwise CRC and proves what the CRC detects.

Conventions. A C string is a `string` without NUL, its characters are bytes; `size_t` has 32 bits, as on the target.
JSON numbers are integers. `caseSensitive`, `cs` and the like are the mode flag of the library. Ghost parameters name
the sequence a chain stands for or the text printed so far; the program has no counterpart of them.

## What the proofs found

The code differs from what its documentation or a standard promises in these places. The model follows the code, and
each time a theorem for all inputs says where the promise holds and where it fails.

- Unescaping in place does not undo escaping: all keys with a slash, and most with a tilde before another character,
  are changed (`JsonPointer.DecodeExact`, `PatchPromises.AddOneExact`).
- Removing an object member by path ignores case even in the case-sensitive functions
  (`PatchPromises.RemoveOneExact`). These two failures are the only ones: `PatchPromises.PatchPromiseExact`.
- Sorting an object can leave its first child with no short cut to the last one, or with one to a child in the middle.
  Appending then leaves the new item out without notice, or cuts off the children behind that one, unless the first
  key was the least and the last one the greatest (`ChildList.Item.AppendAfterSort`,
  `ChildList.Item.AppendLosesMember`, `ChildList.Item.AppendLeavesOut`). A sorted tree must be duplicated before it is
  patched, and a test operation sorts the objects it compares.
- The generator of merge patches walks keys in case-sensitive order after sorting them ignoring case, and below the
  top level always ignores case. It keeps its promise exactly for keys whose order folding to lower case keeps
  (`MergeRoundTrip.MergePromiseExact`; the failures are `MergeRoundTrip.ReversedIsLost`,
  `MergeRoundTrip.RenamedIsLost` and `MergeRoundTrip.NestedCaseIsLost`).
- Nothing can be copied or moved in place of the whole document: with the empty path these operations fail, where
  RFC 6902 lets them succeed. A move whose target does not exist has already removed its source
  (`PatchOperations.OperationFollowsRfc`, `PatchOperations.CopyToRootFails`).
- In a JSON Pointer an empty token names the first element of an array, and an index wraps around in a size_t
  (`PointerNames.PositionExact`).
- Four characters behind \u that are no hexadecimal number are read as code point 0. Behind such a unit the decoder can
  take the closing quote for an escaped one; the NUL before it hides that (`Spelling.MalformedUnit`,
  `ParseExact.LiteralOf`).
- A finished camera frame that finds the queue full is lost if the consumer empties the queue at that moment
  (`CamFrames.FramesInOrder`).
- The minifier takes an escaped backslash before a closing quote for an escaped quote
  (`MinifyPrint.MinifyPrinted`, `MinifyPrint.BackslashKeepsFormatting`).
- Printing into a given buffer needs one byte more than the text and its NUL (`Printing.PrintPreallocated`).
- `compare_json` takes any two Raw and any two Invalid nodes to be equal, `cJSON_Compare` no Invalid node
  (`JsonCompare.EqualitiesDiffer`). With repeated keys `cJSON_Compare` does not see that a member is there once more
  (`JsonCompare.RepeatedMember`), and finds a tree different from its own copy when two of its members have one key and
  different values (`JsonCompare.CopyIsEqualExact`).

## Model

| member | source | states |
|---|---|---|
| `CString.CompareStrings` | managed_components/espressif__cJSON/cJSON/cJSON_Utils.c:83-109 | the sign of the comparison is the order of the two strings, folded to lower case when case is ignored; zero exactly for equal ones |
| `CString.Trichotomy` | managed_components/espressif__cJSON/cJSON/cJSON_Utils.c:83-109 | exactly one of before, equal, after: the order the sort relies on is strict and total |
| `CString.BeforeExact` | managed_components/espressif__cJSON/cJSON/cJSON_Utils.c:83-109 | it is the order of a dictionary: at the first difference the lesser character, or the end of the string, comes first |
| `CString.ToLowerExact` | managed_components/espressif__cJSON/cJSON/cJSON_Utils.c:83-109 | the 26 capital letters fold to the small ones and nothing else changes |
| `JsonTree.GetObjectItemLoop` | managed_components/espressif__cJSON/cJSON/cJSON.c:1936-1966 | the index of the first member with that key in the given mode, or the member count when there is none |
| `JsonTree.MeaningLookup` | managed_components/espressif__cJSON/cJSON/cJSON.c:1936-1966 | looking a key up in the list is looking it up in the finite map the object stands for |
| `JsonTree.SortMembersKeeps` | managed_components/espressif__cJSON/cJSON/cJSON_Utils.c:595-602 | sorting an object leaves a strictly ascending permutation of its members and the same map |
| `JsonTree.DuplicateExact` | managed_components/espressif__cJSON/cJSON/cJSON.c:2769-2858 | a copy equals the original, and is refused exactly when a node lies deeper than CJSON_CIRCULAR_LIMIT |
| `ListSort.SortCorrect` | managed_components/espressif__cJSON/cJSON/cJSON_Utils.c:484-593 | the recursive merge sort gives an ordered permutation, for any list and any mode |
| `ListSort.SortDistinct` | managed_components/espressif__cJSON/cJSON/cJSON_Utils.c:484-593 | distinct keys stay distinct and come out strictly ascending |
| `ListSort.SortKeepsFirst` | managed_components/espressif__cJSON/cJSON/cJSON_Utils.c:484-593 | for any list without repeated elements the first one stays first exactly when its key lies strictly below all others; of equal keys the later one moves ahead |
| `ListSort.SortKeepsLast` | managed_components/espressif__cJSON/cJSON/cJSON_Utils.c:484-593 | the last one stays last exactly when its key lies strictly above all others |
| `ChildList.Item.AddItemToArray` | managed_components/espressif__cJSON/cJSON/cJSON.c:2012-2043 | for whatever the first child's prev is: behind the last child the item is appended and every link and the short cut are right; behind child j it is linked there and the children after j are cut off; with no prev, or one outside the list, the list stays as it is without the item |
| `ChildList.Item.GetArrayItem` | managed_components/espressif__cJSON/cJSON/cJSON_Utils.c:262-272 | walking next index times gives the item of that index, or null past the end |
| `ChildList.Item.DetachItemViaPointer` | managed_components/espressif__cJSON/cJSON/cJSON.c:2243-2277 | detaching item k leaves the chain of the sequence without k, all links restored, the item itself unlinked |
| `ChildList.Item.DetachItemFromArray` | managed_components/espressif__cJSON/cJSON/cJSON_Utils.c:393-427 | the same by index; an index past the end changes nothing |
| `ChildList.Item.InsertItemInArray` | managed_components/espressif__cJSON/cJSON/cJSON.c:2319-2351 | inserting before item k is inserting into the sequence, and past the end appending |
| `ChildList.Item.InsertItemInArrayStrictly` | managed_components/espressif__cJSON/cJSON/cJSON_Utils.c:693-728 | insertion succeeds exactly up to the length of the list and then is insertion into the sequence; otherwise nothing changes |
| `ChildList.Item.ReplaceItemViaPointer` | managed_components/espressif__cJSON/cJSON/cJSON.c:2353-2400 | replacing item k is updating the sequence at k, also for lists of one or two items; the old item is unlinked |
| `ChildList.Item.SplitInTheMiddle` | managed_components/espressif__cJSON/cJSON/cJSON_Utils.c:510-527 | the slow and fast walk cut the chain into two non-empty chains at the middle |
| `ChildList.Item.MergeChains` | managed_components/espressif__cJSON/cJSON/cJSON_Utils.c:534-591 | merging two chains relinks the same items into the chain of the merged sequence, every prev but the first one right |
| `ChildList.Item.SortList` | managed_components/espressif__cJSON/cJSON/cJSON_Utils.c:484-593 | from any chain the sort terminates with the chain of the sorted sequence; the first item keeps its prev only if it stays first, and otherwise has none |
| `ChildList.Item.SortObject` | managed_components/espressif__cJSON/cJSON/cJSON_Utils.c:595-602 | a first child with the least key keeps its prev, any other new first child has none; the short cut to the last child is right exactly when the first key lies strictly below and the last key strictly above all others |
| `ChildList.Item.AppendAfterSort` | managed_components/espressif__cJSON/cJSON/cJSON.c:2012-2043 | appending to an object that has been sorted, by itself or by a test of it, gives the sorted children and the new one exactly when the first key was strictly the least and the last strictly the greatest; without the first condition the new one is left out, without the second alone the children sorted behind the old last one are lost |
| `ChildList.Item.AppendLosesMember` | managed_components/espressif__cJSON/cJSON/cJSON.c:2012-2043 | with the keys a, c, b the member c is lost |
| `ChildList.Item.AppendLeavesOut` | managed_components/espressif__cJSON/cJSON/cJSON.c:2012-2043 | with the keys b, a the new member is left out |
| `JsonCompare.CompareDoubleOnInts` | managed_components/espressif__cJSON/cJSON/cJSON_Utils.c:112-116 | in the int range the relative tolerance confuses no two integers |
| `JsonCompare.SortedEqualExact` | managed_components/espressif__cJSON/cJSON/cJSON_Utils.c:604-690 | sort-then-lockstep equality is equality up to member order and the texts of Raw nodes, for all trees with distinct keys |
| `JsonCompare.LookupEqualExact` | managed_components/espressif__cJSON/cJSON/cJSON.c:3057-3180 | two-way lookup equality is equality up to member order of uniform trees, repeated keys allowed: no Invalid node, and every member means what the first one with its key does |
| `JsonCompare.CopyIsEqualExact` | managed_components/espressif__cJSON/cJSON/cJSON.c:3057-3180 | it takes a tree for equal to its own copy exactly when the tree is uniform |
| `JsonCompare.EqualitiesAgree` | managed_components/espressif__cJSON/cJSON/cJSON_Utils.c:604-690 | the sorting and the quadratic equality agree on every pair of well-formed trees, in either mode |
| `JsonCompare.EqualitiesDiffer` | managed_components/espressif__cJSON/cJSON/cJSON_Utils.c:604-690 | the quadratic equality implies the sorting one, and they differ exactly on trees that are equal but for Raw texts and either differ in one or hold an Invalid node |
| `JsonCompare.RepeatedMember` | managed_components/espressif__cJSON/cJSON/cJSON.c:3057-3180 | for every object and every member of it repeated: the quadratic equality takes both for equal, the sorting one does not |
| `CompareLoops.CompareJson` | managed_components/espressif__cJSON/cJSON/cJSON_Utils.c:604-690 | the loops over both child lists decide the equality that SortedEqualExact characterises |
| `CompareLoops.Compare` | managed_components/espressif__cJSON/cJSON/cJSON.c:3057-3180 | the loops and lookups decide the equality that LookupEqualExact characterises |
| `Printing.PrintBuffer.Ensure` | managed_components/espressif__cJSON/cJSON/cJSON.c:485-568 | room for the needed bytes and one more, with the text so far untouched whether reallocated or copied by hand; without allocation it fails exactly when the room is missing |
| `Printing.PrintBuffer.UpdateOffset` | managed_components/espressif__cJSON/cJSON/cJSON.c:571-581 | the offset moves to the end of the text written |
| `Printing.PrintBuffer.PrintStringPtr` | managed_components/espressif__cJSON/cJSON/cJSON.c:949-1068 | the counting pass and the writing pass agree: the quoted, escaped literal follows the text so far and fits the room asked for |
| `Printing.PrintBuffer.PrintNumber` | managed_components/espressif__cJSON/cJSON/cJSON.c:591-658 | an integer is printed in decimal behind the text so far |
| `Printing.PrintBuffer.PrintValue` | managed_components/espressif__cJSON/cJSON/cJSON.c:1418-1489 | whatever the buffer does, success leaves exactly the text of the tree behind the text so far; preallocated, it succeeds exactly when that text and two bytes fit |
| `Printing.PrintBuffer.PrintArray` | managed_components/espressif__cJSON/cJSON/cJSON.c:1590-1649 | the same for arrays, element by element |
| `Printing.PrintBuffer.PrintObject` | managed_components/espressif__cJSON/cJSON/cJSON.c:1770-1881 | the same for objects, with indentation when formatted |
| `Printing.Print` | managed_components/espressif__cJSON/cJSON/cJSON.c:1234-1300 | the block returned holds exactly the text and its NUL, with either way of shrinking the buffer |
| `Printing.PrintBuffered` | managed_components/espressif__cJSON/cJSON/cJSON.c:1312-1341 | the starting size does not show in the text |
| `Printing.PrintPreallocated` | managed_components/espressif__cJSON/cJSON/cJSON.c:1343-1360 | true exactly when the text and two more bytes fit the length given; then the buffer holds the text |
| `StringBounds.StepRoom` | managed_components/espressif__cJSON/cJSON/cJSON.c:871-918 | one step of the second pass writes no more bytes than it reads, less the first-pass escapes that begin among them, even inside a malformed \u literal |
| `StringBounds.DecodedFits` | managed_components/espressif__cJSON/cJSON/cJSON.c:834-924 | what the second pass writes fits the room sized by the first pass, for every input |
| `ParseBuffers.ParseHex4Loop` | managed_components/espressif__cJSON/cJSON/cJSON.c:661-695 | four hexadecimal digits give their value, anything else zero |
| `ParseBuffers.WriteUtf8` | managed_components/espressif__cJSON/cJSON/cJSON.c:760-807 | the bytes filled in from the last to the first are the UTF-8 form of the code point |
| `ParseBuffers.Utf16LiteralToUtf8` | managed_components/espressif__cJSON/cJSON/cJSON.c:698-816 | a single unit or a surrogate pair becomes the UTF-8 form of its code point; anything else reports length zero |
| `ParseBuffers.ParseBuffer.FindStringEnd` | managed_components/espressif__cJSON/cJSON/cJSON.c:834-860 | the first pass finds the closing quote and counts the escapes it meets |
| `ParseBuffers.ParseBuffer.ParseStringAt` | managed_components/espressif__cJSON/cJSON/cJSON.c:819-946 | the string decoder gives the decoded text or fails, every write inside the block of the counted size |
| `ParseBuffers.ParseBuffer.Number` | managed_components/espressif__cJSON/cJSON/cJSON.c:307-408 | an integer literal gives its saturated value and moves the offset behind it |
| `ParseBuffers.ParseBuffer.SkipWhite` | managed_components/espressif__cJSON/cJSON/cJSON.c:1085-1108 | the offset moves to the first byte above a blank, or stays on the last byte of the buffer |
| `ParseBuffers.ParseBuffer.Value` | managed_components/espressif__cJSON/cJSON/cJSON.c:1363-1415 | a value is read as the grammar function says, and on success the nesting depth is what it was |
| `ParseBuffers.ParseBuffer.ArrayAt` | managed_components/espressif__cJSON/cJSON/cJSON.c:1492-1587 | the comma loop reads the elements the grammar function gives |
| `ParseBuffers.ParseBuffer.ObjectAt` | managed_components/espressif__cJSON/cJSON/cJSON.c:1652-1767 | the comma loop reads the members the grammar function gives |
| `ParseBuffers.ParseText` | managed_components/espressif__cJSON/cJSON/cJSON.c:1142-1220 | the whole parse: tree and end, or failure |
| `JsonParse.ParseValue` | managed_components/espressif__cJSON/cJSON/cJSON.c:1363-1415 | every successful step moves the offset strictly forward and not past the end; this is what ends the recursion |
| `JsonParse.SkipWhitespace` | managed_components/espressif__cJSON/cJSON/cJSON.c:1085-1108 | skipping never goes back and never leaves a buffer it could read |
| `ParseExact.NibbleExact` | managed_components/espressif__cJSON/cJSON/cJSON.c:661-695 | a hexadecimal digit counts in either case, and nothing else does |
| `Spelling.MalformedUnit` | managed_components/espressif__cJSON/cJSON/cJSON.c:834-924 | a \u with three digits and a backslash takes in half of an escaped backslash; what follows is hidden by the NUL it stands for |
| `ParseExact.LiteralParses` | managed_components/espressif__cJSON/cJSON/cJSON.c:819-946 | every spelling of a string is read: all escapes of RFC 8259, surrogate pairs, and the malformed units the code lets pass |
| `ParseExact.LiteralOf` | managed_components/espressif__cJSON/cJSON/cJSON.c:819-946 | and whatever is read is such a spelling |
| `ParseExact.NumericParses` | managed_components/espressif__cJSON/cJSON/cJSON.c:307-408 | an integer literal of any length gives its value, and INT_MAX or INT_MIN when it lies beyond that end of the range |
| `ParseExact.ParseValueExact` | managed_components/espressif__cJSON/cJSON/cJSON.c:1363-1415 | a value is read at an offset exactly when a text of the grammar stands there, nested no deeper than the limit and with nothing behind it that would continue a number; what comes out is the tree of that text |
| `ParseExact.ParsePrefixExact` | managed_components/espressif__cJSON/cJSON/cJSON.c:1142-1220 | cJSON_Parse accepts a text exactly when it begins with such a value, behind blanks and perhaps a byte order mark |
| `ParseExact.ParseTextExact` | managed_components/espressif__cJSON/cJSON/cJSON.c:1142-1220 | with the end required, exactly when it is one such value with blanks around it; blanks may stand around each of the six structural characters |
| `ShortestText.RfcTextParses` | managed_components/espressif__cJSON/cJSON/cJSON.c:1142-1220 | every text of RFC 8259 with integer numbers is parsed to its tree, to its end, unless it is nested too deeply |
| `PrintParse.QuoteParses` | managed_components/espressif__cJSON/cJSON/cJSON.c:819-946 | parsing a printed literal gives the string back, for every string without NUL |
| `PrintParse.PrintedExact` | managed_components/espressif__cJSON/cJSON/cJSON.c:1418-1489 | what is printed, formatted or not, is one of the spellings of the tree |
| `ShortestText.PrintedIsStrict` | managed_components/espressif__cJSON/cJSON/cJSON.c:949-1068 | and it is text of RFC 8259: control characters escaped, no leading zeros |
| `ShortestText.UnformattedIsShortest` | managed_components/espressif__cJSON/cJSON/cJSON.c:1418-1489 | no text of RFC 8259 that stands for the tree is shorter than the unformatted one |
| `ShortestText.NoUpperCaseEscapes` | managed_components/espressif__cJSON/cJSON/cJSON.c:949-1068 | escapes are written in lower case |
| `Layout.PrintedIsLaidOut` | managed_components/espressif__cJSON/cJSON/cJSON.c:1770-1881 | a scan of the formatted text finds every newline followed by as many tabs as brackets are open, one fewer before a closing brace, one tab behind a colon, one blank behind a comma in an array, a newline behind one in an object and behind an opening brace, and no other blank outside literals |
| `Layout.UnformattedIsTight` | managed_components/espressif__cJSON/cJSON/cJSON.c:1418-1489 | the unformatted text has no blank outside literals |
| `PrintParse.ValueParses` | managed_components/espressif__cJSON/cJSON/cJSON.c:1363-1415 | in any surroundings the text of a tree, formatted or not, parses to that tree exactly when it is nested no deeper than the limit |
| `PrintParse.PrintThenParse` | managed_components/espressif__cJSON/cJSON/cJSON.c:1142-1220 | print then parse is the identity exactly for trees nested at most CJSON_NESTING_LIMIT deep; deeper ones are refused |
| `UnicodeEscapes.LiteralDecodes` | managed_components/espressif__cJSON/cJSON/cJSON.c:698-757 | every code point escaped as RFC 8259 says, alone or as a surrogate pair, is read back |
| `UnicodeEscapes.EscapeBecomesUtf8` | managed_components/espressif__cJSON/cJSON/cJSON.c:698-816 | and comes out as the UTF-8 bytes that RFC 3629 decodes to it |
| `Minifying.MinifyInPlace` | managed_components/espressif__cJSON/cJSON/cJSON.c:2909-2955 | the array ends up holding the minified text and a NUL, the write position never passing the read position |
| `Minifying.MinifyString` | managed_components/espressif__cJSON/cJSON/cJSON.c:2887-2907 | a literal moves down unchanged up to its end, unread bytes stay |
| `Minifying.SkipOnelineComment` | managed_components/espressif__cJSON/cJSON/cJSON.c:2860-2871 | a line comment is skipped up to and with its newline |
| `Minifying.SkipMultilineComment` | managed_components/espressif__cJSON/cJSON/cJSON.c:2873-2885 | a block comment is skipped up to and with its end |
| `Minifying.MinifyIdempotent` | managed_components/espressif__cJSON/cJSON/cJSON.c:2909-2955 | minifying a second time changes nothing, for every text |
| `MinifyMeaning.MinifyThenParse` | managed_components/espressif__cJSON/cJSON/cJSON.c:2909-2955 | for every text of RFC 8259 with blanks and comments between its tokens, what is left is the tokens alone, and parsing that gives their tree; literals must not end in a backslash before the closing quote |
| `MinifyMeaning.MinifyKeepsTree` | managed_components/espressif__cJSON/cJSON/cJSON.c:2909-2955 | for such a text without comments, minifying does not change what is parsed |
| `MinifyMeaning.LooseSlashes` | managed_components/espressif__cJSON/cJSON/cJSON.c:2860-2955 | a comment that does not end takes the rest of the text with it, a slash that begins none just goes |
| `MinifyPrint.MinifyPrinted` | managed_components/espressif__cJSON/cJSON/cJSON.c:2909-2955 | minifying the formatted text gives the unformatted one exactly when no key and no string ends in a backslash, save the last string of the text with only brackets behind it |
| `MinifyPrint.NoFinalBackslashSafe` | managed_components/espressif__cJSON/cJSON/cJSON.c:2887-2907 | trees without any final backslash are among them |
| `MinifyPrint.BackslashKeepsFormatting` | managed_components/espressif__cJSON/cJSON/cJSON.c:2887-2907 | a string ending in a backslash followed by another element keeps the blank between them |
| `JsonPointer.PointerEncodedLength` | managed_components/espressif__cJSON/cJSON/cJSON_Utils.c:157-170 | the length counted is the length of the escaped key |
| `JsonPointer.EncodeStringAsPointer` | managed_components/espressif__cJSON/cJSON/cJSON_Utils.c:173-196 | the escaped key and a NUL are written, and nothing else changes |
| `JsonPointer.JoinPath` | managed_components/espressif__cJSON/cJSON/cJSON_Utils.c:1118-1125 | path, slash, escaped key and NUL fill the allocated block to its last byte |
| `JsonPointer.DecodePointerInPlace` | managed_components/espressif__cJSON/cJSON/cJSON_Utils.c:359-390 | the in-place loop, with its stores one place off, ends with the text the decoding function gives |
| `JsonPointer.DecodeExact` | managed_components/espressif__cJSON/cJSON/cJSON_Utils.c:359-390 | unescaping in place undoes escaping exactly for keys that have no slash and tildes only at positions where the escaped key already agrees |
| `JsonPointer.DecodeFoldedExact` | managed_components/espressif__cJSON/cJSON/cJSON_Utils.c:359-390 | up to case it does so for the same keys only |
| `JsonPointer.TrailingTildes` | managed_components/espressif__cJSON/cJSON/cJSON_Utils.c:359-390 | keys without slash and with tildes only at the end are such keys |
| `JsonPointer.UndecodableKeys` | managed_components/espressif__cJSON/cJSON/cJSON_Utils.c:359-390 | two keys RFC 6901 allows that come back changed |
| `JsonPointer.MalformedEscapeStays` | managed_components/espressif__cJSON/cJSON/cJSON_Utils.c:359-390 | from a malformed escape on the token is left as it is |
| `JsonPointer.ComparePointersLoop` | managed_components/espressif__cJSON/cJSON/cJSON_Utils.c:120-154 | the loop decides whether a name matches the reference token |
| `JsonPointer.ComparePointersExact` | managed_components/espressif__cJSON/cJSON/cJSON_Utils.c:120-154 | a name matches an escaped key exactly when it is that key, up to case when case is ignored |
| `JsonPointer.DecodeArrayIndexFromPointer` | managed_components/espressif__cJSON/cJSON/cJSON_Utils.c:274-299 | digits up to the next slash give the index modulo the size_t range; leading zeros and other characters are refused |
| `JsonPointer.DecodeDecimal` | managed_components/espressif__cJSON/cJSON/cJSON_Utils.c:274-299 | a decimal index reads back as the index printed |
| `JsonPointer.GetItemFromPointer` | managed_components/espressif__cJSON/cJSON/cJSON_Utils.c:301-346 | the token loop reaches the node, by position, that following the JSON Pointer gives |
| `JsonPointer.FindPointerExact` | managed_components/espressif__cJSON/cJSON/cJSON_Utils.c:198-259 | the search finds exactly the nodes below the object and writes the way to them |
| `JsonPointer.PointerInverse` | managed_components/espressif__cJSON/cJSON/cJSON_Utils.c:198-346 | following the JSON Pointer of a node leads back to that very node exactly when no earlier member on the way has the same key |
| `JsonPointer.FindThenGet` | managed_components/espressif__cJSON/cJSON/cJSON_Utils.c:198-346 | with distinct keys, tildes and slashes included, the two public functions are inverse |
| `JsonPointer.PointersAreUnique` | managed_components/espressif__cJSON/cJSON/cJSON_Utils.c:198-259 | different nodes get different JSON Pointers |
| `PointerNames.PositionExact` | managed_components/espressif__cJSON/cJSON/cJSON_Utils.c:274-299 | the index of a token is the number its digits stand for, modulo the size_t range; no digits give 0, a leading zero or another character none |
| `PointerNames.MatchExact` | managed_components/espressif__cJSON/cJSON/cJSON_Utils.c:120-154 | a name matches a token exactly when the token is the escaped name, up to case when case is ignored; no other spelling is accepted |
| `PointerNames.FollowExact` | managed_components/espressif__cJSON/cJSON/cJSON_Utils.c:301-346 | a pointer leads to a node exactly when its tokens, one by one, name the children on the way: the first member of that name, the element at that position |
| `PointerNames.FollowFails` | managed_components/espressif__cJSON/cJSON/cJSON_Utils.c:301-346 | and it fails exactly when they name no node |
| `PointerNames.FollowNames` | managed_components/espressif__cJSON/cJSON/cJSON_Utils.c:301-346 | in trees of objects with distinct keys it leads to a node exactly when it is the pointer of that node, up to case when case is ignored |
| `PointerNames.FollowNothing` | managed_components/espressif__cJSON/cJSON/cJSON_Utils.c:301-346 | and nowhere exactly when it is the pointer of no node |
| `JsonPatch.CreatePatches` | managed_components/espressif__cJSON/cJSON/cJSON_Utils.c:1141-1279 | the nested loops append exactly the operations of the patch function, arrays by position and objects in key order |
| `JsonPatch.ApplyPatchesLoop` | managed_components/espressif__cJSON/cJSON/cJSON_Utils.c:1067-1094 | patches are applied in order up to the first failure |
| `PatchOperations.FollowGets` | managed_components/espressif__cJSON/cJSON/cJSON_Utils.c:301-346 | following a path in the tree is following it in the value the tree stands for |
| `PatchOperations.DetachMeaning` | managed_components/espressif__cJSON/cJSON/cJSON_Utils.c:430-464 | detaching at a path takes the value away there and hands it over, or there is none |
| `PatchOperations.OperationFollowsRfc` | managed_components/espressif__cJSON/cJSON/cJSON_Utils.c:807-1064 | each of the six operations, at any path and on any document with keys of a class, succeeds exactly when section 4 of RFC 6902 lets it, save that nothing is copied or moved in place of the whole document and nothing deeper than the circular limit is copied; then the document means what the standard says, and otherwise nothing changes, except that a move or a replacement may already have taken its child out |
| `PatchOperations.WholeDocumentRefused` | managed_components/espressif__cJSON/cJSON/cJSON_Utils.c:964-990 | copying or moving an existing node in place of the whole document always fails |
| `PatchOperations.CopyToRootFails` | managed_components/espressif__cJSON/cJSON/cJSON_Utils.c:964-990 | for instance copying "/a" of {"a":1} to "", which RFC 6902 turns into 1 |
| `PatchOperations.MovedMember` | managed_components/espressif__cJSON/cJSON/cJSON_Utils.c:907-918 | a move in an object: the old key is gone unless it is the new one, the new key holds the old value, all others what they held |
| `PatchOperations.FailureStatus` | managed_components/espressif__cJSON/cJSON/cJSON_Utils.c:831-942 | a test that differs gives status 1, a from that names nothing 5, a removal of nothing 13, and the document is unchanged |
| `PatchOperations.Malformed` | managed_components/espressif__cJSON/cJSON/cJSON_Utils.c:807-829 | a patch without a path string or without one of the six operation names gives status 2 or 3 and changes nothing |
| `PatchOperations.FirstFailure` | managed_components/espressif__cJSON/cJSON/cJSON_Utils.c:1067-1094 | operations are applied one after the other; the first that fails ends the run with its status |
| `PatchRoundTrip.ApplyRemove` | managed_components/espressif__cJSON/cJSON/cJSON_Utils.c:807-1036 | a remove at a generated path takes away just that child |
| `PatchRoundTrip.ApplyAdd` | managed_components/espressif__cJSON/cJSON/cJSON_Utils.c:807-1036 | an add at a generated path sets or appends just that child |
| `PatchRoundTrip.ApplyReplace` | managed_components/espressif__cJSON/cJSON/cJSON_Utils.c:807-1036 | a replace at a generated path is a removal and an addition in the same place |
| `PatchRoundTrip.PatchesRoundTrip` | managed_components/espressif__cJSON/cJSON/cJSON_Utils.c:1141-1279 | applied in order to any tree equal to the first, the generated patches all succeed and leave a tree equal to the second, up to member order |
| `PatchNeeded.EveryPatchIsNeeded` | managed_components/espressif__cJSON/cJSON/cJSON_Utils.c:1141-1279 | every generated operation names a place where the documents differ: it removes what only the first has, adds what only the second has, or replaces what differs and is not an object, or an array, in both |
| `PatchNeeded.NoPatchesExact` | managed_components/espressif__cJSON/cJSON/cJSON_Utils.c:1141-1279 | there are no patches exactly for documents equal up to member order |
| `PatchPromises.AddOneExact` | managed_components/espressif__cJSON/cJSON/cJSON_Utils.c:359-390 | adding one member to any object without it, in either mode: the round trip holds exactly for the keys that unescaping in place gives back |
| `PatchPromises.RemoveOneExact` | managed_components/espressif__cJSON/cJSON/cJSON_Utils.c:466-466 | removing one member of any object case-sensitively: the round trip holds exactly when no earlier key equals the removed one up to case |
| `PatchPromises.RemovesTheWrongCase` | managed_components/espressif__cJSON/cJSON/cJSON_Utils.c:466-466 | with A before a, removing a removes A |
| `PatchPromises.PatchPromiseExact` | managed_components/espressif__cJSON/cJSON/cJSON_Utils.c:1141-1279 | the round trip holds for all trees with keys from a class exactly when unescaping gives back every key of it and, case-sensitively, no two differ in case only |
| `PatchPromises.PlainKeysQualify` | managed_components/espressif__cJSON/cJSON/cJSON_Utils.c:1141-1279 | keys without tilde, slash and upper-case letters are such a class in both modes |
| `MergePatch.MergeLoop` | managed_components/espressif__cJSON/cJSON/cJSON_Utils.c:1321-1379 | the member loop computes the merge that MergeFollowsRfc characterises |
| `MergePatch.GenerateLoop` | managed_components/espressif__cJSON/cJSON/cJSON_Utils.c:1391-1471 | the key-ordered walk computes the patch that MergeRoundTripExact characterises |
| `MergePatch.MergeFollowsRfc` | managed_components/espressif__cJSON/cJSON/cJSON_Utils.c:1321-1379 | at every key: untouched without a patch member, removed by null, merged recursively by anything else (section 2 of RFC 7396); case-sensitively for all distinct keys, ignoring case for keys that differ in more than case |
| `MergeRoundTrip.GeneratedMembers` | managed_components/espressif__cJSON/cJSON/cJSON_Utils.c:1391-1471 | at every key the generated patch holds null for a removed member, the value for a new one, and a nested patch for a changed one |
| `MergeRoundTrip.MergeRoundTripExact` | managed_components/espressif__cJSON/cJSON/cJSON_Utils.c:1391-1471 | for keys whose order folding keeps, in all modes: there is no patch exactly for equal objects, and merging the patch into the first tree gives the second exactly when the change needs no null member |
| `MergeRoundTrip.MergeRoundTrip` | managed_components/espressif__cJSON/cJSON/cJSON_Utils.c:1321-1471 | for such keys and without null members outside arrays the round trip always holds |
| `MergeRoundTrip.MergePromiseExact` | managed_components/espressif__cJSON/cJSON/cJSON_Utils.c:1391-1471 | in either mode the round trip holds for all trees with keys from a class and without null members exactly when folding to lower case keeps the order of the class |
| `MergeRoundTrip.LowerQualifies` | managed_components/espressif__cJSON/cJSON/cJSON_Utils.c:1391-1471 | keys without upper-case letters are such a class |
| `MergeRoundTrip.UpperQualifies` | managed_components/espressif__cJSON/cJSON/cJSON_Utils.c:1391-1471 | keys without lower-case letters and the characters between the cases are another |
| `MergeRoundTrip.NullMemberIsLost` | managed_components/espressif__cJSON/cJSON/cJSON_Utils.c:1343-1352 | a new null member is lost |
| `MergeRoundTrip.UpperCaseIsLost` | managed_components/espressif__cJSON/cJSON/cJSON_Utils.c:1410-1455 | with the keys a and B a kept member is removed; with A renamed to a two levels down the case-sensitive generator sees no change |
| `MergeRoundTrip.ReversedIsLost` | managed_components/espressif__cJSON/cJSON/cJSON_Utils.c:1410-1455 | for any two keys whose order folding reverses, a kept member is removed, in the case-sensitive functions one level down |
| `MergeRoundTrip.RenamedIsLost` | managed_components/espressif__cJSON/cJSON/cJSON_Utils.c:1410-1455 | for any key changed in case only, ignoring case, the member is set and then removed |
| `MergeRoundTrip.NestedCaseIsLost` | managed_components/espressif__cJSON/cJSON/cJSON_Utils.c:1452-1456 | for any key changed in case only two levels down, the case-sensitive generator makes no patch |
| `Huffman.ListSizes` | managed_components/espressif__esp32-camera/conversions/jpge.cpp:157-165 | the sizes are listed in order with a sentinel behind them |
| `Huffman.ListCodes` | managed_components/espressif__esp32-camera/conversions/jpge.cpp:167-175 | counting up within a size and doubling between sizes gives the canonical codes of Annex C |
| `Huffman.ComputeHuffmanTable` | managed_components/espressif__esp32-camera/conversions/jpge.cpp:151-184 | every listed symbol gets its canonical code and size, all others size zero, for any bits and values |
| `Huffman.Consecutive` | managed_components/espressif__esp32-camera/conversions/jpge.cpp:167-175 | codes of equal length are consecutive |
| `Huffman.CodeFits` | managed_components/espressif__esp32-camera/conversions/jpge.cpp:151-184 | with a Kraft sum of at most one every code fits its length |
| `Huffman.PrefixFree` | managed_components/espressif__esp32-camera/conversions/jpge.cpp:151-184 | then no code is a prefix of another |
| `Huffman.AssignedIsPrefixCode` | managed_components/espressif__esp32-camera/conversions/jpge.cpp:151-184 | distinct symbols and a Kraft sum of at most one make the table a prefix code |
| `Huffman.DecodesCode` | managed_components/espressif__esp32-camera/conversions/jpge.cpp:151-184 | the bit-by-bit decoder of section F.2.2.3 gives every symbol back from its code, whatever follows |
| `AcSymbols.AtItsPlace` | managed_components/espressif__esp32-camera/conversions/jpge.cpp:50-69 | every symbol the coder uses stands at a known place of the AC table |
| `AcSymbols.SymbolsDiffer` | managed_components/espressif__esp32-camera/conversions/jpge.cpp:50-69 | no symbol stands twice in an AC table |
| `StandardTables.StandardTableQualifies` | managed_components/espressif__esp32-camera/conversions/jpge.cpp:48-69 | each of the four standard tables gives a prefix code with a code for every symbol the coder uses |
| `StandardTables.InitializeTables` | managed_components/espressif__esp32-camera/conversions/jpge.cpp:627-639 | the four tables built at the start meet all conditions of the coder |
| `BitPacking.BitsAdded` | managed_components/espressif__esp32-camera/conversions/jpge.cpp:204-207 | or-ing shifted bits into the register appends them to the waiting ones |
| `BitPacking.ByteLeaves` | managed_components/espressif__esp32-camera/conversions/jpge.cpp:208-215 | the byte taken out is the eight oldest bits, and the rest waits |
| `BitPacking.DestuffStuff` | managed_components/espressif__esp32-camera/conversions/jpge.cpp:208-215 | removing stuffed zeros undoes stuffing and stops at a marker |
| `Jpeg.JpegEncoder.FlushOutputBuffer` | managed_components/espressif__esp32-camera/conversions/jpge.cpp:186-193 | unless a write fails, the buffered bytes go to the stream in order and the buffer is empty |
| `Jpeg.JpegEncoder.EmitByte` | managed_components/espressif__esp32-camera/conversions/jpge.cpp:195-201 | unless a write fails, exactly one byte is added to what was emitted, across any flush |
| `Jpeg.JpegEncoder.PutBits` | managed_components/espressif__esp32-camera/conversions/jpge.cpp:203-216 | exactly the given bits are appended to the scan, and fewer than eight bits wait afterwards |
| `Jpeg.JpegEncoder.CodeCoefficientsPassTwo` | managed_components/espressif__esp32-camera/conversions/jpge.cpp:409-471 | one block is appended as its DC difference, its runs and sizes, and the end of block when zeros are left |
| `Jpeg.JpegEncoder.EndOfImage` | managed_components/espressif__esp32-camera/conversions/jpge.cpp:660-677 | ones fill the last byte, then comes the marker |
| `EntropyCoder.CoefficientBounds` | managed_components/espressif__esp32-camera/conversions/jpge.cpp:409-471 | the bounds are DC differences below 2^11 and AC values below 2^10 in magnitude |
| `EntropyCoder.ExtendAmplitude` | managed_components/espressif__esp32-camera/conversions/jpge.cpp:429-444 | the low bits of a value or of one less extend back to the value (section F.2.2.1) |
| `EntropyCoder.AcDecodes` | managed_components/espressif__esp32-camera/conversions/jpge.cpp:446-470 | from any index the decoder of section F.2.2.2 gives back the values and the zeros before them |
| `EntropyCoder.BlockDecodes` | managed_components/espressif__esp32-camera/conversions/jpge.cpp:409-471 | one block comes back whole, whatever follows |
| `EntropyCoder.UnitsDecode` | managed_components/espressif__esp32-camera/conversions/jpge.cpp:480-519 | a sequence of blocks of several components comes back whole, with the running DC value of each component |
| `Jpeg.EncodeScan` | managed_components/espressif__esp32-camera/conversions/jpge.cpp:186-216 | from the bytes of the stream, un-stuffed, the decoder gets back every coefficient of every block and finds fewer than eight ones behind them |
| `CamPool.InvStep` | managed_components/espressif__esp32-camera/driver/cam_hal.c:266-435 | every step of camera task, interrupt and consumer keeps the ownership invariant |
| `CamPool.SlotsHaveOneOwner` | managed_components/espressif__esp32-camera/driver/cam_hal.c:369-429 | in every run, at every step, a slot that is not free has just one owner among queue, consumer and task, and a free one has none; between events the task owns none; the slot under DMA is with neither queue nor consumer |
| `CamPool.SomeSlotFree` | managed_components/espressif__esp32-camera/driver/cam_hal.c:608-612 | with GRAB_LATEST, more than one slot and an idle consumer some slot is free when the task looks |
| `CamPool.SearchSucceeds` | managed_components/espressif__esp32-camera/driver/cam_hal.c:220-236 | no interleaved step can take the free slot away: the search goes on or has found one |
| `CamPool.NoSearchFails` | managed_components/espressif__esp32-camera/driver/cam_hal.c:220-236 | in every run with GRAB_LATEST and more than one slot, a search begun while the consumer is idle never exhausts the slots and ends only at a free one, whatever is interleaved |
| `CamPool.FitsStep` | managed_components/espressif__esp32-camera/driver/cam_hal.c:292-398 | every step keeps every frame length within its allocation and the DMA count within its limit |
| `CamPool.EveryFrameFits` | managed_components/espressif__esp32-camera/driver/cam_hal.c:463-490 | in every run no frame is longer than fb_size, or with PSRAM than the allocation with one DMA buffer to spare; with PSRAM and JPEG the counted bytes stay within recv_size and one buffer |
| `CamFrames.AgreesStep` | managed_components/espressif__esp32-camera/driver/cam_hal.c:266-435 | every step of every party keeps the agreement between the state and the record of an observer who notes each DMA buffer counted, each frame completed and each frame that leaves the queue |
| `CamFrames.FramesInOrder` | managed_components/espressif__esp32-camera/driver/cam_hal.c:369-429 | in every run, at every step, the complete frames in the order they were claimed are those that have left the queue at its front, then the queue, then the one on its way; each with its length: whole DMA buffers with PSRAM and JPEG, recv_size with PSRAM otherwise, the bytes copied with JPEG, fb_size else. What the consumer takes is the oldest. Only a frame that finds the queue full and then empty is withdrawn |
| `CamFrames.FullQueueDropsOldest` | managed_components/espressif__esp32-camera/driver/cam_hal.c:404-420 | undisturbed, a frame that finds the queue full comes last in it, and the oldest one leaves and is free |
| `CamFrames.FrameIsQueued` | managed_components/espressif__esp32-camera/driver/cam_hal.c:369-404 | a VSYNC while reading puts a complete frame at the end of a queue with room, with the length of its pieces |
| `CamFrames.FrameIsDelivered` | managed_components/espressif__esp32-camera/driver/cam_hal.c:266-435 | a frame of any number of buffers that fit, from the VSYNC that begins it to the one that ends it, reaches the consumer with the length of its pieces |
| `CamFrames.NextFrameBegins` | managed_components/espressif__esp32-camera/driver/cam_hal.c:220-236 | behind a frame the task takes the first free slot when its own is not free, and reads on from the beginning |
| `CamFrames.TakenIsHeld` | managed_components/espressif__esp32-camera/driver/cam_hal.c:684-760 | the consumer holds the frame it took, shortened to the end of the image if that was found |
| `EoiSearch.NothingMissed` | managed_components/espressif__esp32-camera/driver/cam_hal.c:185-188 | the mask marks every byte FF of a word, borrows or not |
| `EoiSearch.FalseCandidate` | managed_components/espressif__esp32-camera/driver/cam_hal.c:185-188 | it may mark others |
| `EoiSearch.SearchForward` | managed_components/espressif__esp32-camera/driver/cam_hal.c:173-205 | the word-at-a-time search returns the least index of FF D9, or -1 exactly when there is none |
| `EoiSearch.SearchBackward` | managed_components/espressif__esp32-camera/driver/cam_hal.c:207-217 | the backward search returns the greatest index, or -1 exactly when there is none |
| `EoiSearch.VerifyJpegEoi` | managed_components/espressif__esp32-camera/driver/cam_hal.c:166-218 | either search is exact for every buffer, shorter than a marker included |
| `Crc32.TableEntry` | managed_components/joltwallet__littlefs/src/lfs_config.c:13-18 | every table entry is four bitwise steps of its index |
| `Crc32.TwoLooks` | managed_components/joltwallet__littlefs/src/lfs_config.c:22-25 | the two looks into the table are the eight bitwise steps of a byte |
| `Crc32.LfsCrc` | managed_components/joltwallet__littlefs/src/lfs_config.c:12-28 | the loop computes the reflected bitwise CRC for every buffer and seed |
| `Crc32.CrcConcat` | managed_components/joltwallet__littlefs/src/lfs_config.c:12-28 | the CRC of a concatenation goes on from the CRC of the first part |
| `Crc32.SeedInjective` | managed_components/joltwallet__littlefs/src/lfs_config.c:12-28 | over one buffer different seeds give different CRCs |
| `Crc32.BurstDetected` | managed_components/joltwallet__littlefs/src/lfs_config.c:12-28 | buffers of equal length that differ only within four bytes have different CRCs |

## Left out

- PatchRoundTrip.PatchesRoundTrip: trees are values here, so updating nodes in place, sharing between trees and the missing short cut of sorted lists are not captured; the links are the subject of ChildList. Paths are followed in the patched tree itself, as in the code.
- PatchPromises.PatchPromiseExact: the condition is exact for classes of keys, here and in MergeRoundTrip.MergePromiseExact. A single pair of trees with other keys may still make the round trip; a condition for single pairs is not worked out.
- JsonPatch.ApplyPatchesLoop: compare_json, create_patches and the test operation sort the trees they compare in place; the model returns them unsorted. So it does not show that an add behind a test can return 0 and still leave out its member, or lose others: with test "" on an object with the keys b and a, then add "/c", member c is missing. For the object tested, ChildList.Item.AppendAfterSort says exactly when this happens. A "from" of operation move that is not a string makes the code read through a null address; the model returns status 5.
- PatchOperations.OperationFollowsRfc: for keys and path tokens of a class that unescaping gives back and, case-sensitively, folding tells apart; PatchPromises says why other keys fail. Array indices are read as the code reads them, the empty token as 0 and modulo the size_t range.
- MergePatch.GenerateLoop: compare_json has sorted two nested objects in the mode of the caller when the nested generator sorts them again ignoring case. For keys that are equal up to case the members of the nested patch can therefore stand in another order than in the model.
- MergePatch.MergeLoop: the target is a value, and the deletions it makes on a failure in the middle are not described.
- JsonParse.Strtod: reads integer literals. A literal with a fraction or an exponent is refused by the model where the code accepts it, and a value outside the int range keeps only its saturated valueint. Locales are left out with them.
- JsonCompare.SortedEqualExact: numbers are integers in the int range; the tolerance of compare_double on other numbers is not modelled. The shortcut of cJSON_Compare for identical addresses does not change its result on values.
- Printing.PrintBuffer.PrintNumber: only the "%d" path; "%1.15g" and its read-back check are left out.
- Printing.PrintBuffer.Ensure: an allocation may fail at any call; the model does not say when. Elsewhere allocations succeed.
- Printing.PrintBuffered: a starting size of 0 is modelled only with realloc; copying by hand then reads one byte of an empty block.
- ParseBuffers.ParseText: the error position of a failed parse is not modelled, nor the freeing of partial trees.
- ChildList.Item.SortList: works on well-linked lists; what it does to broken lists is not described.
- Reference nodes, constant keys (AddItemToObjectCS), custom hooks and the Create and Add helper functions of cJSON: easy members or allocation only.
- Huffman.ComputeHuffmanTable: codes and sizes are unbounded numbers; they stay below 2^24, so the C types do not wrap.
- Jpeg.JpegEncoder.PutBits: the register is a number below 2^32 shifted modulo 2^32; the | of C is modelled bit by bit.
- Jpeg.EncodeScan: the DCT, colour conversion, quantization and the header markers are not part of this model; blocks arrive quantized in zigzag order, and the header is any sequence of bytes already in the stream.
- CamPool.InvStep: the steps are functions on a value, because they interleave; ll_cam_start, ll_cam_memcpy and the start-marker check are outside decisions, and ll_cam_memcpy returns at most pixels_per_dma. One consumer thread calls cam_take. cam_give_all, cam_stop, time-outs, cache maintenance and DMA descriptors are left out.
- CamFrames.FrameIsDelivered: one frame at a time, with the consumer idle; what happens when others are queued meanwhile is FramesInOrder.
- CamPool.EveryFrameFits: a shortened length in cam_take is any length up to the old one; that the searches return such an index is EoiSearch.VerifyJpegEoi.
- EoiSearch.SearchForward: lengths up to INT_MAX, since the result is an int; the word is loaded little-endian.
- The rest of the firmware: the main directory, sensor drivers, the websocket client, the JPEG decoder and the file system glue are transport, registers or libraries not shown.
