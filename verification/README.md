# A verified model of the TNS packet parser

The program captures Oracle TNS traffic. A receiver thread fills packet buffers
from a pool and queues them; a processor thread takes them, updates a session
record and returns the buffers. Connect packets carry a nested descriptor such
as `(DESCRIPTION=(CONNECT_DATA=(SID=x)))`, which the program rewrites to JSON in
one pass without a stack, parses with cJSON and queries.

This project models that core in Dafny and proves what holds of it for every
input, every run and every reachable state. Where the C code changes things in
place, the model does too: pointer-linked lists and queues are classes whose
links the methods assign, buffers are arrays, and the heap of cJSON nodes is a
class with explicit allocation and freeing. Each such method is proved against
a function, and the theorems are about those functions. The two concurrent
parts are transition systems in which every lock, wait, signal, unlock and list
operation is a step of its own.

With Dafny 4.11, `dafny verify dfyconfig.toml` verifies the whole project.

## Parts

| Part | Modules | Main results |
|---|---|---|
| Strings and numbers | `CString`, `Utf8`, `StringLiteral`, `StringGrammar`, `StringEscapes`, `JsonNumber` | `PassesAgree`, `OverflowsExactly`, `StringAccepts`, `EscapeIsUtf8`, `PairIsUtf8` |
| JSON text | `JsonTree`, `JsonParser`, `JsonGrammar`, `JsonAccepts`, `OnlySpelled`, `AcceptsOnly` | `RfcAccepts`, `AcceptsExactly` |
| JSON printing | `PrintString`, `JsonPrinter`, `PrintCompose`, `CJsonPrint`, `RoundTrip` | `BufferCoversText`, `PrintThenParse` |
| cJSON trees in memory | `CJsonHeap`, `CJsonMemory`, `CJsonChains`, `CJsonParse` | `Delete`, `Duplicate`, `OthersSurvive`, `CJsonParse.Parse`, `ParseThenDelete` |
| Descriptors | `Descriptor`, `DescriptorJson`, `ConnectReport`, `ConnectHandler` | `NodesScanned`, `TextFits`, `DescriptorIsRead`, `ReportFollowsPaths` |
| Lists, pool, queue | `ListHead`, `PoolLayout`, `MemPool`, `ListQueue` | `CutThenSplice`, `Put`, `PayloadsFit` |
| Two threads | `Pipeline`, `Sequences` | `PacketsAreConserved`, `HandedInOrder`, `NodesAreConserved`, `NoLostWakeup`, `QueueDrains` |
| Ring queue | `RingQueue`, `RingProtocol` | `Push`, `NothingIsOverwritten`, `NoLostWakeup`, `RingDrains` |
| Session | `Session`, `VisibleRun` | `StateFollowsHistory`, `LoggingInFollowsHistory`, `OthersInBytes`, `RunText` |

The text theorems meet in one place: a syntax tree spells a text and denotes a
value, and the parser reads a text as a value if and only if a tree that stands
in it denotes that value (`AcceptsOnly.AcceptsExactly`). The trees of RFC 8259
are those that are `Proper`; the parser takes more. The printer's output and the
translator's output are both spellings, so the round trip and the preservation
of descriptors follow.

## Reading conventions

- A `string` is a C string: its chars are bytes, position `|s|` is the NUL, and
  nothing past it is read.
- `Parsed` has three outcomes: a value and where it ends, a rejection with the
  error pointer, and `Undefined`. That is the outcome where the C code steps over
  the terminator, writes past the buffer of a string, or reads with `sscanf` a
  field behind `\u` that does not start with a plain hex digit: nothing is stored
  then, or the field starts with a blank, a sign or `0x`. Where it is Undefined
  the model promises nothing of the result or of the memory.
- A field behind `\u` that starts with a plain hex digit but has fewer than four
  is read as `sscanf` reads it, and the four chars are stepped over all the same.
- Numbers are exact: a decimal mantissa and a power of ten.
- A cJSON node is an address in the maps of `CJsonMemory.Memory`, so sharing
  and freeing are explicit; a ghost tree says which addresses a node owns.
- The list steps of `Pipeline` are the state changes that the contracts of
  `MemPool.TakeFree`, `MemPool.PutBack`, `ListQueue.Put` and `ListQueue.Get`
  state, cut at the points where the threads can interleave
  (`Pipeline.SectionsAreOperations`, `SectionsAreAlone`).

## What the code does that its comments and guards do not say

- An empty object printed formatted at the root writes four bytes into three
  (`JsonPrinter.BufferCoversText` says this is the only case).
- In the descriptor translator the guard against overflow compares a pointer
  that never moves. The caller's buffer of twice the input is enough for a text
  exactly under the condition on its chars that `Descriptor.TextFits` states;
  `(=====)` fails it. Of descriptors, only those with fewer than two chars and
  inner nodes do (`Descriptor.TwiceTheInput`).
- The translator copies backslashes and the parser takes them for escapes, so the
  user `CORP\scott` is reported as `CORPscott`. Of names and atoms that are bodies
  of JSON strings exactly those without a backslash survive
  (`DescriptorJson.DescriptorIsRead`).
- After CONNECT_DATA and CID the connect handler tests DESCRIPTION again. The
  lookup then runs on a null pointer exactly as `ReportFollowsPaths` says.
- The connect handler frees neither its text buffer nor the tree:
  `ConnectHandler.Connect` says exactly what memory it leaves behind.
- An unterminated string literal is accepted, and so are numbers such as `-`,
  `05` and `1e`; all of them are in the grammar of `AcceptsExactly`.
- With fewer than four chars between a `\u` and the closing quote the decoding
  pass steps over that quote and reads on, while the sizing pass has stopped at
  it. What stands behind the quote then becomes part of the text or is written
  past the buffer; `StringLiteral.OverflowsExactly` says which.
- A lone surrogate or a zero escape leaves nothing, and an unpaired high
  surrogate also swallows a `\u` escape that follows it: `\ud800\u0041` is read
  as the empty text (`StringEscapes.SurrogateSwallows`).
  `StringEscapes.EscapeIsUtf8` says exactly which escapes are lost.
- The scan for visible characters gets the length of the whole packet but
  starts behind the eight header bytes, so it reads eight bytes past the packet.

## Model

| member | source | states |
|---|---|---|
| `CString.SkipBlanks` | src/cJSON.c:248 | the loop stops at the first char that is no white space, which `Skip` names |
| `CString.SameIgnoringCase` | src/cJSON.c:38-43 | two C strings compare equal exactly if they are equally long and at each place hold the same char or the two cases of one of the 26 letters |
| `CString.LowerIsEqualButCase` | src/cJSON.c:38-43 | the lower-case forms that the lookups compare are equal in exactly those cases |
| `Utf8.EncodeIsUtf8` | src/cJSON.c:179-186 | for every code point the bytes written satisfy the table of section 3 of RFC 3629 |
| `Utf8.EncodingIsUnique` | src/cJSON.c:179-186 | that table admits one byte sequence per code point, so the relation pins the bytes down |
| `Utf8.Write` | src/cJSON.c:179-187 | the backward fall-through writes exactly the encoding between the old and the new end and touches no other byte |
| `Utf8.MaskedTail` | src/cJSON.c:182-184 | the mask and the shift on 32-bit words are the remainder and the quotient by 64 |
| `Utf8.MarkedFirst` | src/cJSON.c:185 | the first byte: what is left of the code point and the mark share no bit, so `or` adds them |
| `Utf8.JoinedSurrogates` | src/cJSON.c:176 | the shift and the masks on 32-bit words compute `Join` |
| `Utf8.JoinUndoesSplit` | src/cJSON.c:176 | two units are a surrogate pair joined to a code point exactly if they are the pair that UTF-16 spells it with |
| `StringLiteral.PassesAgree` | src/cJSON.c:147-193 | whenever the decoding pass gets through and meets no \u with a quote or backslash among the four chars behind it, the sizing pass stops at the same place and has counted at least the bytes written |
| `StringLiteral.MeasureEscape` | src/cJSON.c:147-191 | over one escape with four ordinary chars behind its \u the two passes stay in step, surrogate pairs included |
| `StringLiteral.MeasureLiteral` | src/cJSON.c:147 | the sizing loop counts and stops as `Measure` says, and sees a backslash before the terminator |
| `StringLiteral.ParseString` | src/cJSON.c:142-199 | two passes into a buffer of counted size: result, end position and error position for every text; no write leaves the buffer, and where the code would write outside it the outcome is Undefined |
| `StringLiteral.OverflowsExactly` | src/cJSON.c:147-187 | exactly when a \u with fewer than four chars before the closing quote makes the code write past its buffer: when the text it goes on to read behind that quote is longer than what the sizing pass has counted too much |
| `StringEscapes.QuoteBecomesText` | src/cJSON.c:166-192 | for any text behind a literal that ends in `\u123`: it becomes part of the literal up to the next quote if it is no longer than two bytes, else the code writes past its buffer |
| `StringLiteral.DecodeEscape` | src/cJSON.c:158-192 | one escape appends its bytes and moves past itself, past two escapes for a surrogate pair |
| `StringLiteral.ScanReadsDigits` | src/cJSON.c:167 | four hex digits, each in either case, are read as the number they spell |
| `StringLiteral.ScanPadsShort` | src/cJSON.c:167 | a field with fewer digits is read as if zeros stood in front |
| `StringLiteral.FieldsRead` | src/cJSON.c:167 | the fields that are read: four chars without NUL, the first a hex digit, and not 0x in front |
| `StringLiteral.DecodeIsNulFree` | src/cJSON.c:169-194 | a decoded literal holds no NUL, so the C string kept is the whole text |
| `StringGrammar.EscapeAccepts` | src/cJSON.c:158-191 | one escape of the grammar leaves the bytes its pieces denote and the text goes on behind it |
| `StringGrammar.DecodeAccepts` | src/cJSON.c:153-193 | every sequence of grammar pieces is decoded to its meaning, up to its closing quote or the terminator |
| `StringGrammar.StringAccepts` | src/cJSON.c:142-199 | a quoted sequence of pieces is read to its closing quote with its meaning if and only if the meaning fits the counted buffer, which it does if no quote or backslash stands among the four chars behind a \u, as in every string of section 7 of RFC 8259 |
| `StringGrammar.UnclosedAccepts` | src/cJSON.c:153-193 | the same for a string that the end of the text cuts off |
| `StringEscapes.EscapeIsUtf8` | src/cJSON.c:166-188 | in any literal, whatever stands around it, a `\u` escape of a non-zero scalar leaves its RFC 3629 bytes if and only if it does not follow an odd run of escapes of high surrogates; else it leaves nothing |
| `StringEscapes.DigitsAreUtf8` | src/cJSON.c:166-188 | the same told from the chars: four hex digits in either case that spell a non-zero scalar leave its RFC 3629 bytes exactly if the escape is not swallowed |
| `StringEscapes.PairIsUtf8` | src/cJSON.c:173-187 | in any literal the two escapes with which UTF-16 spells a code point from 0x10000 to 0x10FFFF, with hex digits in either case, leave its RFC 3629 bytes exactly if the first is not swallowed; else the two leave nothing |
| `StringEscapes.CharLeaves` | src/cJSON.c:156-165 | in any literal a plain char and a one-letter escape leave one byte, whatever stands around them: the letters b, f, n, r and t the bytes 8, 12, 10, 13 and 9, and any other char itself |
| `StringEscapes.MeaningSplits` | src/cJSON.c:153-193 | a literal may be cut before any piece that is not read as part of the one before it |
| `StringEscapes.SurrogateSwallows` | src/cJSON.c:173-175 | the failing input: the parser reads `\ud800\u0041` to its end as the empty text |
| `OnlySpelled.StringSpelled` | src/cJSON.c:153-193 | whatever the decoding loop takes is a sequence of grammar pieces up to the quote or the terminator, and the result is their meaning |
| `OnlySpelled.LiteralSpelled` | src/cJSON.c:142-199 | every string accepted is a quoted one of the grammar, or one that the end of the text cuts off, and fits the counted buffer |
| `OnlySpelled.NumberSpelled` | src/cJSON.c:95-115 | every number read is one of RFC 8259 but for zeros in front and digits missing after the sign or the exponent mark, with its exact value, and ends where the loops cannot go on |
| `JsonNumber.ParseNumber` | src/cJSON.c:95-115 | the loops compute the exact decimal mantissa, exponent and end that `NumberAt` denotes, for any text that starts a number |
| `JsonNumber.NumberAccepts` | src/cJSON.c:99-109 | every number of section 6 of RFC 8259, and one with a zero in front or with digits missing, is consumed with its exact value to the end at which the loops stop |
| `JsonParser.ValueAt` | src/cJSON.c:274-286 | a value ends strictly later than it starts, inside the text; a rejection points inside the text |
| `JsonParser.ElementsAt` | src/cJSON.c:307-332 | the elements of an array end strictly later than they start, which is what lets the mutual recursion end |
| `JsonParser.MembersAt` | src/cJSON.c:393-426 | the members of an object end strictly later than they start |
| `JsonParser.Parse` | src/cJSON.c:251-265 | success lies inside the text, and with the null-terminated option only blanks follow the value |
| `JsonAccepts.ValueAccepts` | src/cJSON.c:274-286 | every value of the grammar, white space included, that stands where it ends and whose literals fit is read to its end as what it denotes |
| `JsonAccepts.ItemsAccept` | src/cJSON.c:313-330 | every non-empty element list is read to its bracket, from either place the code starts to look |
| `JsonAccepts.FieldsAccept` | src/cJSON.c:399-424 | every non-empty member list is read to its brace |
| `JsonAccepts.TextAccepts` | src/cJSON.c:251-267 | every text of the grammar in which no quote or backslash stands among the four chars behind a \u is accepted, to its end with the null-terminated option |
| `JsonAccepts.RfcAccepts` | src/cJSON.c:251-267 | every JSON text of RFC 8259 sections 2 to 7 is accepted, to its end with the null-terminated option, as the value it denotes |
| `AcceptsOnly.ValueSpelled` | src/cJSON.c:274-286 | every value accepted is spelled by the grammar, from its first char to the end returned, stands there, and means what is returned |
| `AcceptsOnly.ElementsSpelled` | src/cJSON.c:313-330 | every element list accepted is one of the grammar, through its bracket |
| `AcceptsOnly.MembersSpelled` | src/cJSON.c:399-424 | every member list accepted is one of the grammar, through its brace |
| `AcceptsOnly.TextSpelled` | src/cJSON.c:251-265 | every text accepted is blanks, a value of the grammar with the meaning returned and, with the null-terminated option, blanks up to the terminator |
| `AcceptsOnly.AcceptsExactly` | src/cJSON.c:251-265 | a text is accepted with a value and an end if and only if it is such a text with that meaning and that end |
| `CJsonParse.Parse` | src/cJSON.c:251-265 | success leaves a new tree that denotes the value read; the nodes and the strings it owns are exactly what the memory gained; rejection leaves the memory as it was; nothing is said where the outcome is Undefined |
| `CJsonParse.ParseThenDelete` | src/cJSON.c:80-92 | a tree that was parsed and deleted again leaves the memory as it was, for every text whose outcome is not Undefined |
| `CJsonParse.ParseValue` | src/cJSON.c:274-286 | unless the outcome is Undefined, the given node grows into a tree for the value, and nothing else in memory changes, also when parsing fails |
| `CJsonParse.ParseElements` | src/cJSON.c:316-331 | the loop links each new child behind the last; what was built stays owned by the node when an element fails |
| `CJsonParse.ParseMembers` | src/cJSON.c:402-425 | the same for members, with the name moved from value to name |
| `CJsonParse.ParseStringInto` | src/cJSON.c:142-199 | a string node owns its text; a rejected literal allocates nothing; nothing is said where the outcome is Undefined |
| `CJsonMemory.Memory.Delete` | src/cJSON.c:80-92 | exactly the nodes and strings a chain owns are freed, each once and only while allocated, and nothing behind a reference |
| `CJsonMemory.Memory.DeleteOne` | src/cJSON.c:85-90 | the body of the loop frees what one node owns |
| `CJsonMemory.Memory.Duplicate` | src/cJSON.c:541-566 | fresh nodes and strings with the same shape and no reference bit, links null, the source untouched; without recursion no children |
| `CJsonMemory.Memory.DuplicateKids` | src/cJSON.c:556-564 | the copies are linked in order behind each other |
| `CJsonMemory.AppendedShapes` | src/cJSON.c:561-562 | linking a copy behind the last one appends its shape to those of the others |
| `CJsonHeap.HoldsFrame` | src/cJSON.c:80-92 | a tree does not notice changes to memory it does not reach |
| `CJsonHeap.ChainAppended` | src/cJSON.c:502 | setting two links appends a node to a chain with `prev` the inverse of `next` |
| `CJsonChains.GetArraySize` | src/cJSON.c:497 | the walk counts the children, also those a reference node shares |
| `CJsonChains.GetArrayItem` | src/cJSON.c:498 | the child at the index, the first for a negative one, null past the end; also through a reference node |
| `CJsonChains.GetObjectItem` | src/cJSON.c:499 | the first child whose name matches whatever its case, or null; children without a name never match; also through a reference node |
| `CJsonChains.FindName` | src/cJSON.c:515 | the same search with the index at which it stops |
| `CJsonChains.CreateReference` | src/cJSON.c:504 | one new node that shares value and children, without name and links |
| `CJsonChains.AddItemToArray` | src/cJSON.c:507 | the children become the old ones and the item, as one well-linked chain, and other memory is untouched; a null item changes nothing |
| `CJsonChains.DetachItemFromArray` | src/cJSON.c:512-513 | the child at the index leaves with null links and the others close up; nothing happens past the end |
| `CJsonChains.DetachItemFromObject` | src/cJSON.c:515 | the first child of that name leaves the same way |
| `CJsonChains.DeleteItemFromArray` | src/cJSON.c:514 | the children lose the one at the index, exactly its memory is freed, and no node or string outside the container changes |
| `CJsonChains.ReplaceItemInArray` | src/cJSON.c:519-521 | the new item stands at the index in a well-linked chain, exactly the old one is freed, and nothing outside the container and the new item changes |
| `CJsonChains.ChainUnlinked` | src/cJSON.c:513 | the pointer updates of a detach are removal from the chain |
| `CJsonChains.ChainExchanged` | src/cJSON.c:520-521 | the pointer updates of a replace are exchange in the chain |
| `CJsonChains.OthersSurvive` | src/cJSON.c:80-92 | freeing a tree leaves every tree intact that shares nothing it owns, also one it refers to |
| `CJsonChains.OthersStay` | src/cJSON.c:514-521 | after a delete or replace at an index a tree elsewhere is still in place unless it shares what was freed |
| `CJsonChains.CopyThenDelete` | src/cJSON.c:541-566 | a deep copy that is deleted again leaves the memory as it was |
| `CJsonChains.ReferThenDelete` | src/cJSON.c:504 | so does a reference, though the original is seen through it |
| `PrintString.CostIsExact` | src/cJSON.c:207 | the sizing pass counts exactly the bytes between the quotes |
| `PrintString.PrintStringPtr` | src/cJSON.c:202-235 | a null pointer prints as an empty text; else the result is the quoted text with its NUL |
| `PrintString.PrintQuoted` | src/cJSON.c:205-234 | the quoted text and its NUL fill the `len+3` bytes exactly, every write inside them |
| `PrintString.WriteByte` | src/cJSON.c:216-231 | one byte costs what the sizing pass counted and is written as a piece that denotes it |
| `PrintString.PiecesMean` | src/cJSON.c:214-232 | the pieces written for any text denote that text |
| `PrintString.PrintNumber` | src/cJSON.c:122-126 | any 32-bit number fits its 21 bytes as its decimal numeral |
| `PrintString.DecimalValue` | src/cJSON.c:125 | the numeral denotes the number |
| `JsonPrinter.BufferCoversText` | src/cJSON.c:438-445 | the bytes allocated cover text and NUL if and only if the value is not an empty object printed formatted at depth zero |
| `JsonPrinter.EmptyRootOverflows` | src/cJSON.c:440-444 | that one case: three bytes and NUL, allotted three |
| `JsonPrinter.ElementsFit` | src/cJSON.c:353-366 | the length summed over the entries covers the composed array, for any entries, depth and format |
| `JsonPrinter.MembersFit` | src/cJSON.c:456-466 | the length summed over the members covers the composed object |
| `CJsonPrint.PrintValue` | src/cJSON.c:289-304 | printing a tree in memory gives the text of the value it denotes, in a new buffer of the computed size, every write inside it |
| `CJsonPrint.Count` | src/cJSON.c:343-352 | the count is the length of the chain, which is the room the entry and name arrays are given |
| `CJsonPrint.CollectElements` | src/cJSON.c:356-363 | the first loop prints every child, within the room counted, and sums the length |
| `CJsonPrint.CollectMembers` | src/cJSON.c:456-463 | the same with names |
| `PrintCompose.ComposeArray` | src/cJSON.c:379-389 | the second loop joins the entries inside the buffer |
| `PrintCompose.ComposeObject` | src/cJSON.c:478-493 | the same for names and entries with tabs and line breaks |
| `PrintCompose.PrintEmptyObject` | src/cJSON.c:438-446 | an empty object at any depth but the formatted root stays inside its buffer |
| `PrintCompose.PrintIsNulFree` | src/cJSON.c:289-304 | printed text holds no NUL, so its string length is its length |
| `RoundTrip.LayoutSpells` | src/cJSON.c:289-494 | printing writes the spelling of a grammar tree |
| `RoundTrip.LayoutMeans` | src/cJSON.c:289-494 | that grammar tree denotes the printed value |
| `RoundTrip.LayoutIsProper` | src/cJSON.c:289-494 | that grammar tree is one of RFC 8259, so whatever is printed is JSON |
| `RoundTrip.PrintThenParse` | src/cJSON.c:270-304 | parsing what was printed gives the same value and consumes all of it, in both formats, at any depth |
| `RoundTrip.PrintIsInjective` | src/cJSON.c:270-304 | two values with the same printed text are equal |
| `Descriptor.TextIsCopied` | src/oracle_tns.c:92-94 | any text without the three signs and NUL is copied as it stands, wherever it stands, with its quotes, backslashes and control characters |
| `Descriptor.NodesScanned` | src/oracle_tns.c:57-96 | the scan with one char of look-behind and look-ahead equals the recursive translation, at any nesting, wherever the list stands, for names and atoms of any chars but the parentheses, the equals sign and NUL |
| `Descriptor.ScanIsJson` | src/oracle_tns.c:53-104 | for a whole descriptor with such names and atoms the output is the recursive translation |
| `Descriptor.TwiceTheInput` | src/oracle_tns.c:359-360 | output and NUL fit twice the input if and only if the descriptor has at least two chars or inner nodes, with equality at exactly two |
| `Descriptor.DescriptorFits` | src/oracle_tns.c:359-360 | with non-empty names and atoms they always fit, with equality exactly for a single leaf such as `(A=1)` |
| `Descriptor.TextFits` | src/oracle_tns.c:57-102 | for any text whatever, output and NUL fit twice its length if and only if the surpluses of its inner chars, each told by its two neighbours, and the cost of the last char add up to at most one, or the text is refused at once |
| `Descriptor.SignsOverflow` | src/oracle_tns.c:59 | the text `(=====)` fails that condition and overflows, since the guard compares a pointer that never moves |
| `Descriptor.ScanSeesOnly` | src/oracle_tns.c:57-102 | for three chars and more the result depends on the given length alone |
| `Descriptor.ParseConnectData` | src/oracle_tns.c:41-105 | on every text that meets that condition the loop over `strcat` leaves exactly the translation and its NUL in the buffer and answers whether the text opens and closes with parentheses |
| `Descriptor.Switch` | src/oracle_tns.c:60-95 | the switch appends what the rules of the translation say for the char and its two neighbours |
| `DescriptorJson.JsonDenotesDescriptor` | src/oracle_tns.c:53-104 | the translated text is JSON for the same tree as nested objects and strings, in order, with every name and atom read as the body of a JSON string |
| `DescriptorJson.DescriptorIsRead` | src/oracle_tns.c:368-372 | render, scan and parse give the tree with every name and atom read as the body of a JSON string, and give the descriptor itself if and only if none has a backslash |
| `DescriptorJson.DescriptorIsPreserved` | src/oracle_tns.c:368-372 | render, scan and parse give back the tree of every descriptor without quotes and backslashes |
| `DescriptorJson.BackslashIsLost` | src/oracle_tns.c:92-94 | the failing case: of a backslash before a char that JSON has no escape for only the char is left |
| `DescriptorJson.SpellDetermines` | src/cJSON.c:153-193 | a word is read as the one sequence of pieces of the grammar that spells it |
| `DescriptorJson.TranslationIsInjective` | src/oracle_tns.c:41-105 | two descriptors without quotes and backslashes with the same output are equal |
| `ConnectReport.FindIsFindNode` | src/oracle_tns.c:376-396 | looking a name up in the parsed tree is looking it up in the descriptor |
| `ConnectReport.ReportFollowsPaths` | src/oracle_tns.c:376-398 | what is reported are the atoms at the first match of each name on the three paths; a null pointer is searched if and only if DESCRIPTION is there but CONNECT_DATA or CID below it is not |
| `ConnectHandler.Lookup` | src/oracle_tns.c:376-396 | one lookup in memory finds the first member of that name |
| `ConnectHandler.Connect` | src/oracle_tns.c:368-403 | from packet bytes to report, for every text that meets the condition of `TextFits`; what the handler leaves behind is exactly the text buffer and, if the text parses, the whole tree; nothing is said where parsing is Undefined |
| `ConnectHandler.ConnectDescriptor` | src/oracle_tns.c:368-403 | for every descriptor that fits the buffer, which is one with two chars or inner nodes at least, and whose words are bodies of JSON strings, the report follows the paths of the descriptor as the parser reads it |
| `Pipeline.ReceiverKeepsLocks` | src/main.c:29-50 | who holds a lock or waits is told by where the two threads are |
| `Pipeline.ReceiverKeepsPlaces` | src/mempool.c:54-64 | each step of the receiver keeps every node in one place |
| `Pipeline.ProcessorKeepsPlaces` | src/mempool.c:86-90 | each step of the processor keeps every node in one place |
| `Pipeline.ReceiveKeepsOrder` | src/main.c:37-46 | an accepted packet joins the end of what is in flight and overwrites nothing in flight |
| `Pipeline.WakeKeepsInv` | src/queue.c:88-110 | the queue waits in a loop: waking there without a signal keeps the invariant |
| `Pipeline.RunKeepsInv` | src/main.c:12-50 | the invariant holds in every state of every interleaving, with spurious wakeups at the queue, for any pool of at least one node |
| `Pipeline.PacketsAreConserved` | src/main.c:12-50 | what recv accepted is, in order, what was done and then what is in flight; mainprocess got those that are neither empty nor dropped |
| `Pipeline.HandedCount` | src/main.c:19-22 | mainprocess gets every packet that is neither empty nor dropped as often as the processor is through with it, and no other ever |
| `Pipeline.HandedInOrder` | src/main.c:17-25 | what mainprocess got are the packets that are neither empty nor dropped at increasing places of those done, each of them once |
| `Pipeline.HandedWhenProcessed` | src/main.c:19-23 | only the processing step hands a packet over: the one in its node, before the node is returned; no other step of either thread changes what was handed |
| `Pipeline.NodesAreConserved` | src/mempool.c:47-92 | every node is on one list or being moved, the use list is the disjoint union of what receiver, queue and processor have, and the node taken is a real one |
| `Pipeline.SectionsAreOperations` | src/mempool.c:61-90 | two steps inside a critical section of the pool change the lists as taking and returning a node do |
| `Pipeline.SectionsAreAlone` | src/mempool.c:54-90 | meanwhile no step of the other thread changes the lists or the lock |
| `Pipeline.NeverBothWait` | src/queue.c:87-111 | receiver and processor never wait together |
| `Pipeline.NoLostWakeup` | src/mempool.c:54-90 | with the lock free a waiting thread has nothing to take, and some thread can always move |
| `Pipeline.ProcessorAdvances` | src/main.c:12-27 | while the receiver is outside its critical sections every step of the processor brings it nearer to an empty queue |
| `Pipeline.QueueDrains` | src/main.c:12-27 | left to run, the processor finishes every queued packet in bounded steps and has woken a waiting receiver |
| `RingQueue.SlotIsRemainder` | src/queue.c:188-189 | after any number of bumps the index is that number modulo the size |
| `RingQueue.SlotAhead` | src/queue.c:188-189 | fewer than a round of bumps moves the index forward or wraps it once |
| `RingQueue.RingQueue.constructor` | src/queue.c:115-132 | the ring starts empty and aborted, with the smaller of the size asked for and 32 slots; it is a queue if and only if that is positive |
| `RingQueue.RingQueue.PeekWritable` | src/queue.c:154-168 | null if aborted, else a slot unless the ring is full; the slot holds no packet of the contents, so writing it loses none |
| `RingQueue.RingQueue.PeekReadable` | src/queue.c:170-184 | null if aborted, else a slot unless the ring is empty; the slot holds the first packet of the contents |
| `RingQueue.RingQueue.Write` | src/queue.c:154-168 | filling the slot that was peeked changes no packet of the contents, and is the write of the two-thread model |
| `RingQueue.RingQueue.Push` | src/queue.c:186-194 | the packet in the write slot joins the end of the contents; on the fields it is the bump and the count of the two-thread model |
| `RingQueue.RingQueue.Pull` | src/queue.c:196-204 | the first packet leaves the contents; on the fields it is the bump and the discount of the two-thread model |
| `RingProtocol.RunKeepsInv` | src/queue.c:154-204 | the invariant holds in every state of every interleaving of one producer and one consumer, with spurious wakeups |
| `RingProtocol.ProducerKeepsSlots` | src/queue.c:154-194 | a write spoils no slot still to be read |
| `RingProtocol.NothingIsOverwritten` | src/queue.c:154-204 | what was read are the first packets written, in order, and the others, at most the maximum, stand in their slots |
| `RingProtocol.IndicesAndSizeAgree` | src/queue.c:186-204 | at every step the write index is ahead of the read index, modulo the maximum, by the size corrected for the packet between bump and count |
| `RingProtocol.WriterIsAlone` | src/queue.c:154-184 | the slot being written is neither being read nor still to be read |
| `RingProtocol.ProducerIsFifo` | src/queue.c:186-194 | the producer refines appending to a queue that has room |
| `RingProtocol.ConsumerIsFifo` | src/queue.c:196-204 | the consumer refines taking the front of a queue that is not empty |
| `RingProtocol.NoLostWakeup` | src/queue.c:157-162 | with the lock free whoever waits has nothing to wait for; the two never wait together; some thread can move |
| `RingProtocol.ConsumerAdvances` | src/queue.c:170-204 | while the producer is outside its critical sections every step of the consumer brings it nearer to an empty ring |
| `RingProtocol.RingDrains` | src/queue.c:170-204 | left to run, the consumer reads every packet counted in bounded steps, at most the one not yet counted is left, and a waiting producer has been woken |
| `ListQueue.ListQueue.Put` | src/queue.c:7-39 | refused when aborted, else the packet joins the end of the sequence and the chain stays linked from first to last |
| `ListQueue.ListQueue.Get` | src/queue.c:82-113 | aborted, the first packet, none, or wait, decided in this order; the taken cell is freed |
| `ListQueue.ListQueue.Flush` | src/queue.c:51-64 | every cell is freed once, read before it is freed, and the queue is empty |
| `ListHead.Turn` | src/list.h:47-51 | a circle may be read from any of its nodes |
| `ListHead.AddBetween` | src/list.h:60-68 | four assignments put a node into the circle between two neighbours |
| `ListHead.ListAdd` | src/list.h:83-86 | the node becomes the first entry |
| `ListHead.ListAddTail` | src/list.h:97-100 | the node becomes the last entry |
| `ListHead.DelBetween` | src/list.h:109-113 | two assignments take a node out of the circle |
| `ListHead.ListDel` | src/list.h:127-132 | the list without the entry, whose links are poisoned |
| `ListHead.ListDelInit` | src/list.h:165-169 | the list without the entry, which is a list of its own |
| `ListHead.ListReplace` | src/list.h:145-152 | the new node stands in the place of the old one, also if that was alone |
| `ListHead.ListReplaceInit` | src/list.h:154-159 | the same, and the old node is a list of its own |
| `ListHead.ListMove` | src/list.h:176-180 | the entry becomes the first of its own or of another list; both stay circles |
| `ListHead.ListMoveTail` | src/list.h:187-192 | the entry becomes the last of its own or of another list |
| `ListHead.TestsDecide` | src/list.h:199-254 | the pointer tests decide whether a list is empty, has one entry, or ends at an entry |
| `ListHead.ListRotateLeft` | src/list.h:237-245 | the first entry becomes the last |
| `ListHead.CutAt` | src/list.h:256-266 | two circles: the prefix through the entry and the rest |
| `ListHead.ListCutPosition` | src/list.h:282-294 | all cases of the guard: cut, nothing to cut, or left alone |
| `ListHead.SpliceBetween` | src/list.h:296-308 | the entries of one list stand between two neighbours of another |
| `ListHead.ListSplice` | src/list.h:315-320 | the spliced entries come first |
| `ListHead.ListSpliceTail` | src/list.h:327-332 | the spliced entries come last |
| `ListHead.ListSpliceInit` | src/list.h:341-348 | the spliced entries come first and the emptied list is a list |
| `ListHead.ListSpliceTailInit` | src/list.h:358-365 | the spliced entries come last and the emptied list is a list |
| `ListHead.CutThenSplice` | src/list.h:282-320 | cutting and splicing back restores every pointer of the list |
| `ListHead.SamePointers` | src/list.h:20-22 | a circle determines both pointers of each of its nodes |
| `MemPool.Create` | src/mempool.c:18-45 | no pool for no nodes; else as many nodes as asked for, one stride apart, the last one first on the free list |
| `MemPool.MemPool.Get` | src/mempool.c:47-67 | nothing if the free list is empty, else its first node moves to the front of the use list |
| `MemPool.MemPool.TakeFree` | src/mempool.c:61-63 | the node taken is a node of the block and never the list head |
| `MemPool.MemPool.Put` | src/mempool.c:69-92 | a node is freed if and only if it is a clone; any other moves from the use list to the front of the free list |
| `MemPool.MemPool.Clone` | src/mempool.c:94-110 | a new node outside the block with null links and a copy of the first bytes |
| `MemPool.MoveKeepsPlaces` | src/mempool.c:61-63 | moving an entry between the lists keeps them apart and together equal to the nodes of the block |
| `MemPool.DroppedIsWithout` | src/mempool.c:87 | unlinking the node from the use list removes its one occurrence |
| `PoolLayout.PayloadsFit` | src/mempool.c:32-42 | each payload has room for its size, lies inside the block behind the list heads, and ends before the next header; the block ends where the last node ends |
| `PoolLayout.PayloadsAreAligned` | src/mempool.c:32-42 | headers and payloads are multiples of sixteen bytes from the start |
| `PoolLayout.PayloadsAreApart` | src/mempool.c:38-42 | no two nodes share a byte |
| `PoolLayout.StrideIsTight` | src/mempool.c:32 | rounding wastes less than sixteen bytes a node |
| `Session.Session.TnsConnect` | src/oracle_tns.c:339-366 | version, compatible version and state change exactly for a packet longer than its head with connect data |
| `Session.Session.TnsAccept` | src/oracle_tns.c:405-418 | version and state change exactly for a packet longer than its head |
| `Session.Session.TnsRefuse` | src/oracle_tns.c:428-439 | only the state changes |
| `Session.Session.TnsData` | src/oracle_tns.c:448-481 | the state is that of a data packet, or of a logon, and the code of the data handler is dropped |
| `Session.Session.MsgDataIdHandle` | src/oracle_tns.c:493-512 | on any table the handler of the first entry that serves version and id is called; if none does nothing changes and the code says so |
| `Session.Session.PacketHandle` | src/oracle_tns.c:514-533 | on any table the handler of the first entry that serves the type is called, with its effect on the record; if none does nothing changes and the code says so |
| `Session.EffectIsAfter` | src/oracle_tns.c:514-553 | the table entry for the type of a packet has the effect that the histories below are about |
| `Session.Session.TnsProtocolParse` | src/oracle_tns.c:535-553 | the record and the code after any one packet, and the text that is shown |
| `Session.TypeTable` | src/oracle_tns.c:3-19 | the table serves connect, accept, refuse, data and resend and no other type |
| `Session.DataTable` | src/oracle_tns.c:21-32 | the table serves four data ids for two versions and no others |
| `Session.FieldIsBigEndian` | src/common.h:40 | a number field is v exactly if its two bytes are v in network order |
| `Session.ConnectInBytes` | src/oracle_tns.c:339-366 | in bytes: the packet length in the first two, 1 in the fifth and connect data set version, compatible version and state 2, with code 0 |
| `Session.AcceptInBytes` | src/oracle_tns.c:405-418 | in bytes: the packet length in the first two and 2 in the fifth set the version from the bytes at 8 and state 4, with code 0 |
| `Session.OthersInBytes` | src/oracle_tns.c:428-553 | in bytes: type 4 sets state 5, type 6 state 6 or for a logon call under version 313 state 16; type 11 and short packets change nothing; another type answers 2 and another length 1 |
| `Session.VersionFollowsHistory` | src/oracle_tns.c:362-415 | after any history the version is the field of the last effective connect or accept |
| `Session.CompatibleFollowsHistory` | src/oracle_tns.c:363 | after any history the compatible version is the field of the last effective connect |
| `Session.StateFollowsHistory` | src/oracle_tns.c:366-458 | after any history the state is that of the last packet that sets it, judged by the version before it |
| `Session.LoggingInFollowsHistory` | src/oracle_tns.c:193-201 | the session is logging in if and only if that last packet was a logon call and the version before it was 313 |
| `Session.IgnoredPacketsLeaveNoTrace` | src/oracle_tns.c:493-553 | a packet that sets nothing may be left out of any history |
| `VisibleRun.ParseContinuousVisibleCharacters` | src/oracle_tns.c:107-141 | a run of bytes from 0x20 to 0x7e whose neighbours are none; no run is longer and none as long begins later |
| `VisibleRun.RunEnds` | src/oracle_tns.c:121-138 | at the end of a run the longer one is kept, the later one of two equals |
| `VisibleRun.CopiedRun` | src/oracle_tns.c:157 | a bounded copy of a run is its prefix |
| `VisibleRun.RunText` | src/oracle_tns.c:180-185 | the text copied is that run cut to two bytes less than the array |
| `VisibleRun.RunTextIsUnique` | src/oracle_tns.c:107-141 | the bytes of the packet determine the text copied |

## Left out

- Sockets, packet filtering, and the headers in front of a TNS packet (`src/network.c`, `src/socket.c`): `net->recv` is a step that fails or fills the buffer it was given.
- Floating point: `pow`, the conversion of the exact number to `double` and `int`, and printing of numbers that are not 32-bit integers.
- The width of `int subscale` in `parse_number` (`src/cJSON.c:96`, `:108`): the exponent is an unbounded integer, and the overflow for one beyond 32 bits is not modelled.
- Allocation failure and `cJSON_InitHooks`: every allocation succeeds.
- Printing to the terminal, hex dumps, and the SP and SNS data handlers: they change no state.
- The RS and OCI handlers of version 314: they only display, up to a NUL somewhere behind the packet.
- The choice of a session slot in `src/session.c`: one session record stands for all.
- What the C code does where the outcome is `Undefined`: stale or negative numbers from `sscanf`, fields that start with a blank, a sign or `0x`, reads behind the terminator and writes behind the buffer.
- Shutdown: `list_queue_abort`, `ring_queue_signal` and the destroy functions. The pipeline and ring runs have the abort flag clear, as `main` sets it before it starts the threads; nothing after the endless loop in `main` is reached.
- The hlist functions of `src/list.h`: nothing uses them.
- `cJSON_AddItemToObject`, the reference-adding wrappers, `cJSON_ReplaceItemInObject`, `cJSON_DeleteItemFromObject` and the `cJSON_Create` functions: compositions of what is modelled.
- The fields `valueint` and `valuedouble`: the exact number of a node stands for both, and the 1 that a parsed `true` keeps in `valueint` is not modelled.
- Condition variables: the pool's wait is under `if`, so the pipeline assumes no spurious wakeups there; the waits in loops, at the list queue and the ring queue, are proved with them.
- Weak memory and torn accesses: every step of the two transition systems is atomic, and the ring's index bumps outside the lock are seen at once.
- Pipeline.PacketsAreConserved: packets are values with data, length and drop flag; address key and direction ride along unmodelled.
- MemPool.Create: the mask `0xFFFFFFF0` is division by sixteen, the block's nodes are objects with recorded offsets, and sizes stay below the limit of `int`.
- MemPool.MemPool.Put: the lock and the signal are part of the pipeline, not of the class.
- CJsonChains.AddItemToArray: on a container that owns its children, like detach, delete and replace; changing the children through a reference node would change those of the item it refers to and is not modelled.
- MemPool.MemPool.Get: the answer when the free list is empty stands for the wait of lines 55 to 59, which is a step of the pipeline.
- RingQueue.RingQueue.PeekWritable: one turn of the loop under the lock; waiting is an answer here and a step in `RingProtocol`.
- RingQueue.RingQueue.PeekReadable: likewise one turn of the loop.
- ListQueue.ListQueue.Get: one turn of the loop under the lock; waiting is an answer here and a step in the pipeline.
- Session.Session.TnsConnect: the connect data itself is the business of `ConnectHandler`, which does not touch the session record.
- Session.Session.TnsProtocolParse: the packet buffer reaches eight bytes past the packet and at least forty bytes in all, since the handlers read that far without looking at the length.
- VisibleRun.RunText: `snprintf` with `%s` also looks for a NUL behind the run; only what it copies is modelled.
- CJsonPrint.PrintValue: text buffers are Dafny arrays and freeing the entries after composing is not modelled; numbers that are no 32-bit integers and string nodes without a text are left out, and the formatted empty root, which overflows, is excluded.
- CJsonParse.Parse: nothing is promised of the memory where the outcome is `Undefined`, because the code may already have written past a buffer there; the same holds of CJsonParse.ParseValue and the routines below it.
- CJsonParse.ParseThenDelete: likewise only for texts whose outcome is not `Undefined`.
- ConnectHandler.Connect: likewise, and what happens on a text that fails the condition of `Descriptor.TextFits` is not modelled, since there the code writes past its buffer.
- ConnectHandler.ConnectDescriptor: not for names and atoms that end their JSON string early with a quote of their own or are no body of one; `Connect` covers those texts.
- Descriptor.ParseConnectData: likewise only on texts that meet that condition.
