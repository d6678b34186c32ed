# Verified model of the ChibiOS firmware core

A Dafny model of the parts of the firmware that have an algorithm in them, and proofs of what they promise:

* **cJSON** (`sandbox/chibios/cJSON/cJSON.c`): the recursive-descent parser, the unformatted printer, deletion, deep
  copies, references and list edits, over a heap of linked nodes and C strings. A node and a string are objects; a ghost
  value, the *shape* (`Tree.Shape`), says what a structure is made of, and `Tree.Holds` that the heap agrees with it.
  A *ledger* (`Heap.Library.live`) holds the blocks that are allocated and not yet freed. Every allocation may fail.
  On top of the code stand pure functions for parsing and printing (`JsonParse`, `JsonPrint`), and the grammar of
  RFC 8259 with the meaning of its texts (`Grammar`), written without looking at the parser, inside a looser grammar
  that holds exactly what the parser accepts (`Soundness`). Where it refuses a text, `Refusal` says why and at which byte.
* **JSON shell** (`json_shell.c`): frames between STX and ETX, the tokenizer in the line buffer, dispatch.
* **Database** (`db.c`): SET and GET as JSON, saving to flash with a checksum, and restoring.
* **Flash driver** (`stm32f37x_flash.c`, main memory): mode bits, the bounded wait, programming by half words, over a
  device that answers each read of its status as it likes.
* **Hazard detector** (`hazard_sensor.c`): the callbacks, safety over all runs, the timing of its three timers, and both together.
* **Pressure sensor** (`pressure.c`): the hysteresis state machine, crc4, and the compensation arithmetic.

Code that changes things in place is modelled by classes and methods with loops, each proved against a specification
function; what the code is for is proved about those functions. Numbers: a `double` is a real number, `valueint` the
truncation of one; words of the database are integers below 2^32; registers of the flash are bit vectors; the register
of crc4 is a sequence of 32 bits.

## What the proofs found

* The parser accepts more than RFC 8259, and exactly what `Grammar.Loose` says (`Soundness.TextsAcceptedExactly`): control
  characters as blanks and inside strings, a backslash before any character, any four characters behind \u, a string
  without its closing quotation mark as the whole text, numbers with a leading zero, with a minus sign and no digits
  before the point, or with an exponent mark and no digits.
* The argument of a shell command ends at its first blank: JSON with a blank in it is cut off there
  (json_shell.c:211-212) (`JsonShell.TwoWords`).
* A number is rendered with the size of a pointer for the size of its buffer (cJSON.c:158). `PrintExact` and `Wire` take
  that size as a parameter W and prove exactly when a text is read back: every number must have fewer than W characters.
  With four-byte pointers the database survives GET and SET only if all items lie between -99 and 999; the configuration
  that the firmware starts with does not (`Wire.DefaultsAreLost`).
* What does not fit is not terminated there: the text goes on with what the fresh block held, and if that is no zero
  in its 21 bytes, `strlen` and `strcpy` read behind it. The printer reads inside its blocks, whatever they held, if and
  only if every number that is an item or a member value has fewer than W characters
  (`PrintExact.ReadsInsideExactlyWhenNumbersFit`; `PrintExact.OneItemIsOverRead` is the text [40000]); the shipped
  configuration does not meet that with four-byte pointers (`Wire.DefaultsAreOverRead`). `Printer.PrintValue` says it
  of the code.
* `print_number` does not look whether it got a block for an int (cJSON.c:157); that failed allocation is followed by a write
  through a null pointer (`Printer.PrintNumberItem`), and no printer writes through one without it (`Printer.Accounted`).
* An incomplete \u escape that takes its closing quotation mark for one of its four characters may make `parse_string`
  write behind its block, while it reads inside the text (cJSON.c:199-226) (`JsonParse.IncompleteEscapeOverflows`); it
  does not where its second pass stops no later than the first (`JsonParse.EarlyStopIsInBounds`).
* `dbGetJSON` never deletes what it parses (db.c:599): every GET whose argument is JSON loses those blocks; and if it
  is no string, as in GET 5, a null pointer is handed to `strcmp` (db.c:604) (`Settings.GetJson`, `Settings.WhichTextsFault`).
* A GET without an answer gives a null pointer to `chHeapFree` (json_shell.c:111) (`Transfer.CmdGet`).
* `cJSON_ReplaceItemInObject` overwrites the name of the new item without freeing it (cJSON.c:616)
  (`Names.ReplaceItemInObject`).
* A blank frame hands a null pointer to `strcmp` (json_shell.c:211-213), and a stream without one does not
  (`JsonShell.JsonThread`, `JsonShell.FaultsAtBlankLine`, `JsonShell.EmptyFrameFaults`); so does a SET of an array with
  items in `dbSetJSON` (db.c:546), and of no other text (`Settings.SetJson`, `Settings.OneItemFaults`).
* The wait of the flash driver reports a timeout also when its last poll found the device ready, and never the
  FLASH_BUSY that its comment lists (stm32f37x_flash.c:1186-1209) (`Flash.Device.WaitForLastOperation`).
* A save that was cut off is accepted by a restore for some contents of the database, which `Storage.InterruptedSave`
  and `Storage.HalfInterruptedSave` name.
* A fall from full load through both borders is announced as low, as middle, and only with the next reading as low for
  good (pressure.c:643-655) (`Pressure.FullFallIsAnnouncedTwice`).
* A detect threshold of five or more switches the hazard detector off for good (`Hazard.HazardIsReached`).
* The correction for high temperatures is computed and never applied (pressure.c:409-412), and the one for temperatures
  below 20 degrees shifts 1 by 31 bits, which C does not define for an int (pressure.c:396) (`Compensation.Compensate`).

## Model

| member | source | states |
|---|---|---|
| `Heap.Library.Malloc` | sandbox/chibios/cJSON/cJSON.c:70-79 | a fresh block that the ledger gains, or null with the ledger unchanged; any call may fail |
| `Heap.Library.NewItem` | sandbox/chibios/cJSON/cJSON.c:105-110 | a node of zeros, counted as one block, or null |
| `Heap.Library.Strdup` | sandbox/chibios/cJSON/cJSON.c:81-90 | a block of its own, exactly long enough, that holds the same string |
| `Heap.Library.Free` | sandbox/chibios/cJSON/cJSON.c:75 | only a block that is allocated and not yet freed can be given back, and the ledger loses exactly that block |
| `StringParser.GetUnicode` | sandbox/chibios/cJSON/cJSON.c:40-60 | the value of four hexadecimal digits, other characters passed over |
| `Json.HexDigitsAre` | sandbox/chibios/cJSON/cJSON.c:46-57 | the hexadecimal digits are those of both cases, each with its value, and no others |
| `Unicode.CombineInvertsUtf16` | sandbox/chibios/cJSON/cJSON.c:205-212 | what a surrogate pair is combined into is the one code point whose UTF-16 is that pair (section 2.2 of RFC 2781) |
| `Unicode.ContinuationByteBits` | sandbox/chibios/cJSON/cJSON.c:216-221 | the masks of the transcoder give 10xxxxxx with the lowest six bits, for every code point |
| `Unicode.LeadByteBits` | sandbox/chibios/cJSON/cJSON.c:174-221 | the lead byte marks add their pattern to the remaining bits |
| `Unicode.Utf8RoundTrip` | sandbox/chibios/cJSON/cJSON.c:214-222 | the UTF-8 of every code point is well formed (section 4 of RFC 3629) and decodes to it |
| `Unicode.Utf8IsOnto` | sandbox/chibios/cJSON/cJSON.c:214-222 | every well-formed UTF-8 character is that of the code point it decodes to |
| `StringParser.PutUtf8` | sandbox/chibios/cJSON/cJSON.c:214-222 | filling the space for a code point from its last byte to its first stores its UTF-8 (section 3 of RFC 3629) and touches nothing before or behind |
| `StringParser.CopyEscape` | sandbox/chibios/cJSON/cJSON.c:191-226 | one escape is decoded, from any four characters behind \u, with unpaired surrogates, a failed second half and U+0000 dropped, and the index behind it returned |
| `StringParser.DecodeInto` | sandbox/chibios/cJSON/cJSON.c:185-229 | the second pass, wherever it stops, leaves a C string with all the bytes it decodes in the block, and stays inside it |
| `JsonParse.DecodeFits` | sandbox/chibios/cJSON/cJSON.c:180-229 | complete escapes are enough for both passes to stop at the same place and for the second to store no more than the first counted |
| `JsonParse.IncompleteEscapeOverflows` | sandbox/chibios/cJSON/cJSON.c:180-229 | without them the second pass may write behind the block while it reads inside the text: a body for which two bytes are counted and nine stored |
| `JsonParse.IncompleteEscapeMayBeHarmless` | sandbox/chibios/cJSON/cJSON.c:180-229 | and it need not: a body with an incomplete escape that is decoded inside its block |
| `JsonParse.EarlyStopIsInBounds` | sandbox/chibios/cJSON/cJSON.c:180-229 | more generally, a body whose second pass stays inside the text and stops no later than the first is stored inside its block |
| `JsonParse.DecodeNulFree` | sandbox/chibios/cJSON/cJSON.c:203-229 | no decoded string has a terminator inside it |
| `Spelling.SpellingIsDecoded` | sandbox/chibios/cJSON/cJSON.c:185-229 | every spelling of a string by raw characters, two-character escapes, \u escapes and surrogate pairs is decoded to the bytes it spells |
| `Spelling.RunIsDecoded` | sandbox/chibios/cJSON/cJSON.c:199-223 | a run of \u escapes gives the UTF-8 of its UTF-16 decoding, malformed pairs and zeros dropped |
| `Spelling.Utf16RoundTrip` | sandbox/chibios/cJSON/cJSON.c:199-223 | decoding the UTF-16 of any code points gives them back |
| `StringParser.ParseStringItem` | sandbox/chibios/cJSON/cJSON.c:175-234 | for every body that both passes handle inside the text and the block: on success the node owns a fresh block with the decoded string; otherwise nothing is left allocated and the error pointer is at the character that is no quotation mark |
| `NumberParser.ParseNumberItem` | sandbox/chibios/cJSON/cJSON.c:128-148 | the decimal value of sign, integer, fraction and exponent, scaled once, and its truncation |
| `Json.Truncate` | sandbox/chibios/cJSON/cJSON.c:145 | the int part of a number, toward zero |
| `Completeness.NumberComplete` | sandbox/chibios/cJSON/cJSON.c:128-148 | of the numbers that the loose grammar has at an index the longest is read to its last character, and has its decimal value; every number of section 6 of RFC 8259 is one |
| `TreeParser.SkipText` | sandbox/chibios/cJSON/cJSON.c:283 | the first index that is no blank or control character; null is passed on |
| `TreeParser.ParseLiteral` | sandbox/chibios/cJSON/cJSON.c:312-314 | null, false and true are recognised, and nothing else is touched |
| `TreeParser.ParseValueItem` | sandbox/chibios/cJSON/cJSON.c:309-321 | the result is that of the parsing function unless an allocation failed; the structure built is separate, linked and fresh, also when parsing stops halfway, and the ledger has grown by exactly it |
| `TreeParser.ParseStringValue` | sandbox/chibios/cJSON/cJSON.c:315 | the same for a string value |
| `TreeParser.ParseArrayItem` | sandbox/chibios/cJSON/cJSON.c:342-367 | the same for arrays: the children stand in the order of the text |
| `TreeParser.ParseItemsTail` | sandbox/chibios/cJSON/cJSON.c:356-366 | the loop over further items: the list so far is kept and extended in order |
| `TreeParser.ParseMemberItem` | sandbox/chibios/cJSON/cJSON.c:439-444 | the same for a name, a colon and a value, where the name moves from valuestring to string |
| `TreeParser.ParseMembersTail` | sandbox/chibios/cJSON/cJSON.c:446-460 | the loop over further members |
| `TreeParser.ParseObjectItem` | sandbox/chibios/cJSON/cJSON.c:428-461 | the same for objects |
| `JsonParse.CompleteEscapesSuffice` | sandbox/chibios/cJSON/cJSON.c:180-209 | a text whose escapes are complete before their string ends, well formed or not, is parsed within its bounds |
| `Completeness.StringComplete` | sandbox/chibios/cJSON/cJSON.c:175-234 | every string of the loose grammar is read to its closing quotation mark and gives its meaning, always where its escapes are complete, and otherwise where C defines it |
| `Completeness.ValueComplete` | sandbox/chibios/cJSON/cJSON.c:309-321 | every value of RFC 8259 is accepted wherever it stands, consumed to its last byte, and gives the tree it means |
| `Completeness.LooseComplete` | sandbox/chibios/cJSON/cJSON.c:309-321 | the same for the loose grammar of the parser, where C defines the parse |
| `Completeness.GrammarComplete` | sandbox/chibios/cJSON/cJSON.c:286-321 | every text of RFC 8259, with blanks around it, is parsed to its end, with and without the demand for a terminator |
| `Soundness.CharsSound` | sandbox/chibios/cJSON/cJSON.c:185-229 | whatever the second pass goes through is a sequence of characters of the loose grammar |
| `Soundness.AcceptsExactly` | sandbox/chibios/cJSON/cJSON.c:309-321 | a value is accepted up to some index if and only if a text of the loose grammar stands there, and what is built is the meaning of that text |
| `Soundness.TextsAcceptedExactly` | sandbox/chibios/cJSON/cJSON.c:286-300 | with the demand for a terminator the parser accepts exactly the texts of the loose grammar, each with its meaning |
| `Refusal.RefusesExactly` | sandbox/chibios/cJSON/cJSON.c:309-461 | a value is refused at some index if and only if the text breaks off there: no value, no name, no colon, or neither a comma nor the end |
| `Refusal.TextsRefusedExactly` | sandbox/chibios/cJSON/cJSON.c:286-461 | with the demand for a terminator, the error pointer is at an index if and only if the text breaks off there, or goes on there behind its value |
| `Refusal.MissingColon` | sandbox/chibios/cJSON/cJSON.c:442 | an object without a colon behind its name is refused at that byte |
| `Lifetime.Delete` | sandbox/chibios/cJSON/cJSON.c:113-125 | every node it reads and every block it frees is still allocated, and the ledger loses exactly what the chain owns; references own only themselves |
| `Lifetime.SeparateIsOwned` | sandbox/chibios/cJSON/cJSON.c:113-125 | deleting a structure without references gives back every node and string in it |
| `Duplicate.ReferenceOwns` | sandbox/chibios/cJSON/cJSON.c:113-125 | deleting a reference gives back the node and its name, and nothing that it shows |
| `Lifetime.ParseWithOpts` | sandbox/chibios/cJSON/cJSON.c:286-300 | for every text with complete escapes and every pattern of failed allocations: without a tree the ledger is as before, with one it has grown by exactly that tree; result and error pointer are those of the parsing function |
| `Printer.Snprintf` | sandbox/ChibiOS-RT/os/various/chprintf.c:288-305 | at most size characters are stored, and a terminator only if there is room |
| `Printer.MeasurePrinted` | sandbox/chibios/cJSON/cJSON.c:242 | the first pass counts the characters of the printed string exactly, for every W and whatever the block will hold |
| `Printer.PrintStringPtr` | sandbox/chibios/cJSON/cJSON.c:237-270 | for every W and every string the block has the measured size and all of it is written, with both quotation marks; it reads as the printed string over what it held; for a null pointer the text is empty |
| `Printer.PrintNumberItem` | sandbox/chibios/cJSON/cJSON.c:151-171 | for every W and every int the 21 bytes read as the number over what they held; without a block, and only then, it writes through a null pointer |
| `Printer.PrintValue` | sandbox/chibios/cJSON/cJSON.c:324-339 | for every structure with int numbers: a fresh block with the text over what the blocks held, everything else given back; or null, only after a failed allocation, with the ledger as before; a block is read behind its end exactly when the text of an inner number does not end in it, and every null write has a failed allocation of its own |
| `Printer.PrintArrayItem` | sandbox/chibios/cJSON/cJSON.c:370-425 | the same for arrays, composed within the measured length |
| `Printer.CollectItems` | sandbox/chibios/cJSON/cJSON.c:390-398 | the length that is measured, and who owns what, up to the first failure; an over-read for each text that does not end, and no other |
| `Printer.ComposeArray` | sandbox/chibios/cJSON/cJSON.c:413-424 | the texts stand between the brackets, never beyond the block, and each is freed once |
| `Printer.PrintObjectItem` | sandbox/chibios/cJSON/cJSON.c:464-588 | the same for objects, without formatting |
| `Printer.CollectMember` | sandbox/chibios/cJSON/cJSON.c:501-512 | one member: its name and its value, the value also when the name failed |
| `Printer.CollectMembers` | sandbox/chibios/cJSON/cJSON.c:499-514 | names and values are collected, also behind a failure, no block twice |
| `Printer.ComposeObject` | sandbox/chibios/cJSON/cJSON.c:535-587 | names, colons and values stand between the braces, never beyond the block, and each block is freed once |
| `Printer.FreeAll` | sandbox/chibios/cJSON/cJSON.c:521-533 | after a failure every collected block is freed exactly once |
| `HeapRoundTrip.TextIsPrint` | sandbox/chibios/cJSON/cJSON.c:324-588 | the text of a structure is the printed form of its abstract tree, over the same contents of the blocks |
| `HeapRoundTrip.BlocksAreThose` | sandbox/chibios/cJSON/cJSON.c:324-588 | the blocks of a structure are those of its abstract tree, and the same texts end in them |
| `HeapRoundTrip.ParsedCanBePrinted` | sandbox/chibios/cJSON/cJSON.c:286-339 | what the parser builds meets what the printer asks, when numbers are ints |
| `HeapRoundTrip.PrintUnformatted` | sandbox/chibios/cJSON/cJSON.c:306 | the printed form of the abstract tree over what the blocks held, or null; over-reads exactly where the texts of inner numbers do not end in their blocks, none where those numbers fit, and no more null writes than failed allocations |
| `HeapRoundTrip.PrintAndParse` | sandbox/chibios/cJSON/cJSON.c:286-306 | printing and parsing a structure that fits gives a second structure of fresh blocks for the same abstract tree, without an over-read |
| `JsonPrint.RoundTripAt` | sandbox/chibios/cJSON/cJSON.c:286-588 | a printed tree is read back inside any text whose next character does not continue a number |
| `JsonPrint.RoundTrip` | sandbox/chibios/cJSON/cJSON.c:286-588 | parsing the unformatted text, to its terminator, gives the tree, for every tree whose renderings fit |
| `JsonPrint.FittingEnds` | sandbox/chibios/cJSON/cJSON.c:151-171 | where every rendering fits, no text runs over the end of its block |
| `JsonPrint.FittingNumbersEnd` | sandbox/chibios/cJSON/cJSON.c:370-424 | where every number that is an item or a member value has fewer than W characters, no block is read behind its end, whatever strings there are |
| `PrintExact.ReadsInsideExactlyWhenNumbersFit` | sandbox/chibios/cJSON/cJSON.c:151-171 | the printer reads inside its blocks for all that fresh blocks may hold, if and only if every number that is an item or a member value, at any depth, has fewer than W characters |
| `PrintExact.OneItemIsOverRead` | sandbox/chibios/cJSON/cJSON.c:157-158 | with pointers of four bytes and a block without a zero, printing [40000] reads behind it |
| `PrintExact.RoundTripExactlyWhenFits` | sandbox/chibios/cJSON/cJSON.c:151-270 | the tree comes back for all contents of blocks of the right sizes in which texts end, if and only if every number has fewer than W characters and no control character meets a W below five |
| `Shortest.StringIsShortest` | sandbox/chibios/cJSON/cJSON.c:237-270 | a string is printed no longer than any spelling of it in the grammar |
| `Shortest.PrintIsShortest` | sandbox/chibios/cJSON/cJSON.c:306 | unformatted: of all texts of RFC 8259 for the tree with plain numbers the printed one is the shortest |
| `Links.SuffixObject` | sandbox/chibios/cJSON/cJSON.c:596 | the item is linked behind the last of a list |
| `Links.CountList` | sandbox/chibios/cJSON/cJSON.c:591 | the number of children |
| `Edit.GetArraySize` | sandbox/chibios/cJSON/cJSON.c:591 | the number of children |
| `Edit.GetArrayItem` | sandbox/chibios/cJSON/cJSON.c:592 | the child at the index, the first one for an index below zero, null behind the end |
| `Edit.AddItemToArray` | sandbox/chibios/cJSON/cJSON.c:601 | the sequence of children gains the item at its end; separate and linked as before |
| `Edit.DetachItemFromArray` | sandbox/chibios/cJSON/cJSON.c:606-607 | the sequence loses the child at the index, which then stands alone and shares nothing with the rest |
| `Edit.DeleteItemFromArray` | sandbox/chibios/cJSON/cJSON.c:608 | the sequence and the ledger lose the child at the index, and nothing else |
| `Edit.ReplaceItemInArray` | sandbox/chibios/cJSON/cJSON.c:613-615 | the child at the index becomes the new item, and the old one is freed; behind the end nothing happens |
| `EditRun.Apply` | sandbox/chibios/cJSON/cJSON.c:591-616 | one edit, by index or by name: the sequences of children and of items that stand alone are the edited ones, and the ledger changes as they do |
| `EditRun.ApplyAt` | sandbox/chibios/cJSON/cJSON.c:591-616 | the same for the children of any node in a structure |
| `EditRun.Run` | sandbox/chibios/cJSON/cJSON.c:591-616 | any sequence of edits anywhere in a structure, by index and by name, with items that are detached and added again: at the end structure and items are those that the edits make of the shapes, separate, doubly linked and allocated, and the ledger is exact |
| `EditRun.PlanIsKept` | sandbox/chibios/cJSON/cJSON.c:591-616 | which edits can follow depends only on nodes and names |
| `EditRun.AppendThenDetach` | sandbox/chibios/cJSON/cJSON.c:601-607 | detaching what was appended gives back the children and the item |
| `EditRun.DetachThenAppend` | sandbox/chibios/cJSON/cJSON.c:601-607 | appending what was detached makes it the last child |
| `Names.StrCaseCmp` | sandbox/chibios/cJSON/cJSON.c:62-67 | zero exactly for names that are equal but for case, or both missing |
| `Names.GetObjectItem` | sandbox/chibios/cJSON/cJSON.c:593 | the first child whose name matches without regard to case |
| `Names.DetachItemFromObject` | sandbox/chibios/cJSON/cJSON.c:609 | the first child with the name leaves the sequence |
| `Names.DeleteItemFromObject` | sandbox/chibios/cJSON/cJSON.c:610 | the same, and it is freed |
| `Names.AddItemToObject` | sandbox/chibios/cJSON/cJSON.c:602 | the item is renamed and appended; its old name is freed; without memory it stays nameless |
| `Names.ReplaceItemInObject` | sandbox/chibios/cJSON/cJSON.c:616 | the first child with the name is replaced; the old name of the new item stays allocated for ever |
| `Duplicate.CopyNode` | sandbox/chibios/cJSON/cJSON.c:635-646 | type without the reference flag, numbers and strings are copied, or everything is given back |
| `Duplicate.CopyKids` | sandbox/chibios/cJSON/cJSON.c:649-658 | the children are copied in order, linked both ways |
| `Duplicate.DuplicateNode` | sandbox/chibios/cJSON/cJSON.c:635-660 | a copy made only of fresh blocks, alone and separate, or null and the ledger as before |
| `Duplicate.Duplicate` | sandbox/chibios/cJSON/cJSON.c:635-660 | the same with a null argument; a deep copy stands for the same abstract tree |
| `Duplicate.CopyMeansTheSame` | sandbox/chibios/cJSON/cJSON.c:635-660 | a copy stands for the same abstract tree as the original |
| `Duplicate.DuplicateAndDelete` | sandbox/chibios/cJSON/cJSON.c:113-125 | deleting the one of original and copy leaves the other as it was, all of it allocated |
| `EditRun.RunBeside` | sandbox/chibios/cJSON/cJSON.c:635-660 | any edits anywhere in a structure leave every other one that shares nothing with it as it was, all of it allocated |
| `EditRun.DuplicateAndEdit` | sandbox/chibios/cJSON/cJSON.c:635-660 | any edits anywhere in the original leave the copy as it was |
| `Duplicate.CreateReference` | sandbox/chibios/cJSON/cJSON.c:598 | a reference stands for the same tree and owns only itself |
| `JsonShell.GetLine` | sandbox/chibios/genist_common/json_shell.c:267-303 | the bytes after the last STX before the first ETX, terminated inside the buffer, exactly when no STX-free run before that ETX reaches the size; otherwise it stops at the end of the stream or behind the first run that does |
| `JsonShell.FrameIsRead` | sandbox/chibios/genist_common/json_shell.c:267-303 | a frame is read whole after any noise without an ETX, whatever follows |
| `JsonShell.FramesAreRead` | sandbox/chibios/genist_common/json_shell.c:267-303 | n frames with noise between them are read back as the n payloads, in order |
| `JsonShell.Strtok` | sandbox/chibios/genist_common/json_shell.c:47-63 | the first word, terminated in place, and what is left for the next call |
| `JsonShell.SplitLine` | sandbox/chibios/genist_common/json_shell.c:211-212 | command and argument of a line, each a string in the buffer |
| `JsonShell.TwoWords` | sandbox/chibios/genist_common/json_shell.c:211-212 | a line with two words is the command and its argument; what stands behind the second word, and so the rest of an argument with a blank in it, is dropped |
| `JsonShell.OneWord` | sandbox/chibios/genist_common/json_shell.c:211-212 | a line with one word is a command without an argument |
| `JsonShell.JCmdExec` | sandbox/chibios/genist_common/json_shell.c:174-188 | the index of the command in the table, or none |
| `JsonShell.JsonThread` | sandbox/chibios/genist_common/json_shell.c:198-221 | the calls made for a whole stream, in order, and whether a line without a word made it pass a null pointer to strcmp |
| `JsonShell.OneCallForEachLine` | sandbox/chibios/genist_common/json_shell.c:198-221 | there is one call for each line, in order, up to the first blank one |
| `JsonShell.BlankLine` | sandbox/chibios/genist_common/json_shell.c:211-213 | a line has no word exactly when it is blank |
| `JsonShell.FaultsAtBlankLine` | sandbox/chibios/genist_common/json_shell.c:198-221 | a stream makes the shell hand a null pointer to strcmp if and only if one of its lines is blank up to its first zero |
| `JsonShell.EmptyFrameFaults` | sandbox/chibios/genist_common/json_shell.c:211-213 | an STX with an ETX behind it is such a stream |
| `JsonShell.RequestsAreDispatched` | sandbox/chibios/genist_common/json_shell.c:198-221 | framed requests are dispatched in order with their arguments and without a fault |
| `Flash.Device.Unlock` | sandbox/chibios/stmicro/stm32f37x_flash.c:238-246 | the lock bit is off, and no other bit has changed |
| `Flash.Device.Lock` | sandbox/chibios/stmicro/stm32f37x_flash.c:253-257 | the lock bit is on, and no other bit has changed |
| `Flash.Device.GetStatus` | sandbox/chibios/stmicro/stm32f37x_flash.c:1153-1181 | which status the reads of one poll mean, bit by bit: busy first, then write protection, then the programming error; never a timeout |
| `Flash.SteadyStatus` | sandbox/chibios/stmicro/stm32f37x_flash.c:1153-1181 | while the register stays the same, the status is complete exactly when none of the three bits is set |
| `Flash.Device.WaitForLastOperation` | sandbox/chibios/stmicro/stm32f37x_flash.c:1189-1209 | it polls until the device is not busy, and reports a timeout exactly when it has polled timeout + 1 times, even if the last poll was complete |
| `Flash.Device.ErasePage` | sandbox/chibios/stmicro/stm32f37x_flash.c:270-296 | the page erase mode is off again on every path; the status is that of the last wait, and complete exactly when every wait was, as it is when every poll is; then a sound device, unlocked and with the address of the page, has erased it |
| `Flash.Device.EraseAllPages` | sandbox/chibios/stmicro/stm32f37x_flash.c:308-330 | the same for the mass erase mode |
| `Flash.Device.ProgramWord` | sandbox/chibios/stmicro/stm32f37x_flash.c:342-387 | only the two halves of the word change, the programming mode is off afterwards on every path, the status is that of the last of three waits, and an unlocked sound device holds the word on success |
| `Flash.Device.ProgramHalfWord` | sandbox/chibios/stmicro/stm32f37x_flash.c:399-425 | the same for one half word |
| `Storage.Database.SetInt` | sandbox/chibios/genist_common/db.c:174-186 | the item at a valid index, and only it, changes |
| `Storage.Database.GetInt` | sandbox/chibios/genist_common/db.c:193-203 | the item at a valid index, or zero |
| `Storage.Database.ComputeChecksum` | sandbox/chibios/genist_common/db.c:465-470 | the sum of the 42 words modulo 2^32 |
| `Storage.Database.ProgramWords` | sandbox/chibios/genist_common/db.c:472-493 | three exactly when some wait was not complete, two only when a word reads back otherwise, zero only if every word reads back as written; an unlocked sound device never fails the read-back |
| `Storage.Database.Save` | sandbox/chibios/genist_common/db.c:452-496 | on zero the page holds the structure whatever the device does; one and three exactly when some wait was not complete, at the erasure or behind it; on a sound device zero exactly when every wait, and so whenever every poll, was complete; on every path the flash is locked and no item has changed |
| `Storage.Database.Restore` | sandbox/chibios/genist_common/db.c:502-523 | the page is taken over exactly when its checksum is right, and otherwise nothing changes |
| `Storage.SaveAndRestore` | sandbox/chibios/genist_common/db.c:452-523 | after a save that returns zero, as it does on a sound device whose polls are complete, a restore returns zero with an identical database, into any other and into itself |
| `Storage.OneChangeIsRejected` | sandbox/chibios/genist_common/db.c:508-517 | changing exactly one of the 43 words of an accepted page makes it rejected |
| `Storage.Database.SaveInterrupted` | sandbox/chibios/genist_common/db.c:452-493 | a save cut off before word n, or between its two halves, leaves what was written and erased cells behind it |
| `Storage.InterruptedSave` | sandbox/chibios/genist_common/db.c:502-517 | a page cut off before word n is accepted exactly when the first n words add up to 41 - n modulo 2^32 |
| `Storage.HalfInterruptedSave` | sandbox/chibios/genist_common/db.c:502-517 | a page cut off inside word n is accepted exactly when the words before it and its low half add up to 0x10000 + 40 - n modulo 2^32; if it was the checksum, exactly when its high half was 0xFFFF |
| `Config.NamesDiffer` | sandbox/chibios/genist_common/db.c:80-119 | no two of the 37 names are the same but for case |
| `Config.LookupIsExact` | sandbox/chibios/genist_common/db.c:539-571 | where all names are known, lookup without regard to case finds exactly the name |
| `Config.SetIsAssignment` | sandbox/chibios/genist_common/db.c:560-574 | a SET assigns the members one after the other from the last to the first: the first with a name wins, and items that are not named stay |
| `Config.SetWhatWasSent` | sandbox/chibios/genist_common/db.c:529-612 | setting what GET sends makes the 37 named items those of the sender and keeps the other slots |
| `Settings.Lookup` | sandbox/chibios/genist_common/db.c:137-149 | the index of the name in the table, exactly if it is there |
| `Settings.Validate` | sandbox/chibios/genist_common/db.c:539-559 | one exactly if some child has an unknown name; a fault exactly at a child without a name, behind only known ones |
| `Settings.SetItems` | sandbox/chibios/genist_common/db.c:560-574 | every item takes the valueint of the first member with its name, the other slots keep their value |
| `Settings.SetJson` | sandbox/chibios/genist_common/db.c:529-583 | all or nothing, and nothing stays allocated; a fault exactly for an array with items, with no item changed and the parsed array left allocated |
| `Settings.OneItemFaults` | sandbox/chibios/genist_common/db.c:539-546 | a SET of [1] faults |
| `Settings.AddItems` | sandbox/chibios/genist_common/db.c:606-612 | the items as numbers under their names, in order |
| `Settings.GetJson` | sandbox/chibios/genist_common/db.c:590-651 | the items, an empty object or null by the subcommand; a fault exactly for JSON that is no string; the parsed request is never freed, for any text |
| `Settings.WhichTextsFault` | sandbox/chibios/genist_common/db.c:539-604 | of the texts of RFC 8259 a SET faults on the arrays that are not empty, and a GET on all that are no strings |
| `Settings.WhichTextsAreAnswered` | sandbox/chibios/genist_common/db.c:604-644 | a GET answers the items to Config and to no other text, and nothing to the strings that are none of the seven subcommands, and only to them |
| `Transfer.CmdGet` | sandbox/chibios/genist_common/json_shell.c:97-114 | the reply is the text of the answer over what the blocks held, or ERROR, and then a null pointer is freed; all is given back but the parsed request |
| `Transfer.ReceiveSet` | sandbox/chibios/genist_common/json_shell.c:198-221 | for every stream: the first line is read, split, dispatched and carried out if it is a SET that C defines, with the items that the text stands for |
| `Transfer.GetThenSet` | sandbox/chibios/genist_common/db.c:529-612 | GET on one database and SET of its reply on another, unless an allocation fails: all 37 items are equal if everything fits, and nothing changes if not, over stale blocks; no block is read behind its end if the items fit |
| `Wire.TransferExactlyWhenItFits` | sandbox/chibios/genist_common/db.c:529-612 | over the wire the 37 items arrive at every receiver, whatever fresh blocks held, if and only if every rendering is shorter than W and the request shorter than the line buffer |
| `Wire.TransferWorks` | sandbox/chibios/genist_common/db.c:529-612 | when it fits, the named items become those of the sender and the other slots stay |
| `Wire.TransferFails` | sandbox/chibios/genist_common/json_shell.c:267-303 | when it does not fit, the receiver keeps all its items |
| `Wire.ItemsOfThreeCharacters` | sandbox/chibios/cJSON/cJSON.c:157-158 | with pointers of four bytes items fit exactly from -99 to 999 |
| `Wire.DefaultsAreLost` | sandbox/chibios/genist_common/db.c:34-75 | the configuration that the firmware starts with does not survive the trip on the device |
| `Wire.GetReadsInsideExactlyWhenItemsFit` | sandbox/chibios/genist_common/db.c:606-612 | a GET of the items reads inside its blocks for all that fresh blocks may hold, if and only if each of the 37 has fewer than W characters |
| `Wire.DefaultsAreOverRead` | sandbox/chibios/genist_common/db.c:34-75 | the configuration that the firmware starts with has not: a GET of it may read behind a block on the device |
| `Hazard.Sensor.TimerFlashSample` | sandbox/chibios/genist_common/hazard_sensor.c:110-213 | one sample is one step of the specification, with its events |
| `Hazard.Sensor.TimerFlashOff` | sandbox/chibios/genist_common/hazard_sensor.c:219-231 | the same for the expiry of the off timer |
| `Hazard.Sensor.TimerFlashCancel` | sandbox/chibios/genist_common/hazard_sensor.c:236-254 | the same for the expiry of the cancel timer |
| `Hazard.Sensor.constructor` | sandbox/chibios/genist_common/hazard_sensor.c:273-280 | the initial state, on static variables that are zero |
| `Hazard.StepIsSane` | sandbox/chibios/genist_common/hazard_sensor.c:165-254 | every callback keeps: the sum is that of the buffer and the number of matched samples since the last clear, up to five; H is exactly PRE3; the counter runs only in PRE1 |
| `Hazard.EventsAlternate` | sandbox/chibios/genist_common/hazard_sensor.c:185-247 | in every run the events alternate H, O, H, O, and H is the state exactly after an H |
| `Hazard.HazardNeedsHistory` | sandbox/chibios/genist_common/hazard_sensor.c:175-230 | every run in H has, since it was last in PRE0, seen more than detect matched samples in one window, then the off timer, then more than detect in another window |
| `Hazard.HazardIsReached` | sandbox/chibios/genist_common/hazard_sensor.c:165-212 | some run comes into H if and only if the threshold is below five and the cancel count positive |
| `Hazard.SteadyFlashingCancels` | sandbox/chibios/genist_common/hazard_sensor.c:165-212 | from a cleared window in PRE0, steady flashing is in PRE1 from the flash on, counts every further match, and with the one behind the cancel count is back in PRE0, everything cleared |
| `Hazard.CounterIsMatches` | sandbox/chibios/genist_common/hazard_sensor.c:165-212 | in every run the counter is, in PRE1, the number of matches since the flash that led there, never above the cancel count, and zero in the other states |
| `Hazard.RunsByCounting` | sandbox/chibios/genist_common/hazard_sensor.c:165-254 | in every run each callback does to the pending state and the window what it does by counting the matches since the last clear |
| `Hazard.NeverHazard` | sandbox/chibios/genist_common/hazard_sensor.c:165-212 | with a threshold of five or more, or when every match cancels, no run leaves PRE0 |
| `Hazard.ExitFromHazard` | sandbox/chibios/genist_common/hazard_sensor.c:201-254 | H is left by the cancel timer, and by a matched sample exactly when the cancel count is not positive |
| `HazardTimers.Edges.HazardPeriodCB` | sandbox/chibios/genist_common/hazard_sensor.c:84-105 | an edge while a sample is pending changes nothing, any other starts the three timers anew |
| `HazardTimers.ExpiriesFollowTheSchedule` | sandbox/chibios/genist_common/hazard_sensor.c:84-105 | in every run, since the last accepted edge, sample, off and cancel expire at most once each, in this order, each exactly its time after that edge |
| `HazardTimers.AcceptedEdge` | sandbox/chibios/genist_common/hazard_sensor.c:88-105 | a new edge is accepted exactly when the sample of the one before is over |
| `HazardSystem.React` | sandbox/chibios/genist_common/hazard_sensor.c:84-254 | the callbacks of detector and timers together are one step of the system |
| `HazardSystem.DetectorPart` | sandbox/chibios/genist_common/hazard_sensor.c:110-254 | in every timed run the detector is the detector alone on its inputs |
| `HazardSystem.TimersPart` | sandbox/chibios/genist_common/hazard_sensor.c:84-105 | and the timers are the timers alone on their events |
| `HazardSystem.HazardNeedsPause` | sandbox/chibios/genist_common/hazard_sensor.c:84-254 | in every timed run H comes only after a flash, then a silence of at least the off and at most the cancel time, and then another flash |
| `Pressure.Monitor.Reading` | sandbox/chibios/genist_common/pressure.c:598-655 | one reading is one step of the specification, with the events that it sends |
| `Pressure.LastEventNamesState` | sandbox/chibios/genist_common/pressure.c:598-655 | in every run, also with changing thresholds, the last event names the state |
| `Pressure.SettlesExactlyWhenOrdered` | sandbox/chibios/genist_common/pressure.c:598-655 | every constant pressure is at rest after one reading from the start, and after two from every state, if and only if no lower threshold is more than one above its upper one |
| `Pressure.RestIsTheBand` | sandbox/chibios/genist_common/pressure.c:598-655 | a state is at rest exactly at the pressures of its band; where several are, the first reading chooses the middle one |
| `Pressure.ConstantPressure` | sandbox/chibios/genist_common/pressure.c:598-655 | after any run a constant pressure leaves the state as it is in its band, and otherwise leads to the one of a first reading, within two readings and with no more events |
| `Pressure.EventsAreCrossings` | sandbox/chibios/genist_common/pressure.c:598-655 | which events a reading sends, by the borders that it crosses |
| `Pressure.FullFallIsAnnouncedTwice` | sandbox/chibios/genist_common/pressure.c:643-655 | a fall from full load through both borders sends the low event, the middle one, and with the next reading the low one again |
| `Pressure.FullEventsAreSeparated` | sandbox/chibios/genist_common/pressure.c:598-655 | between any two full-load events some reading was below a lower threshold |
| `Compensation.Compensate` | sandbox/chibios/genist_common/pressure.c:383-415 | where C defines it, which is exactly from 20 degrees on, pressure and temperature are the first order formulas over the reals but for less than 1.0004 and 1 units of rounding, with no value outside its type |
| `Compensation.PressureIsMonotone` | sandbox/chibios/genist_common/pressure.c:383-415 | at one temperature a higher conversion never gives a lower pressure, where the sensitivity is not negative |
| `SensorCrc.Crc4` | sandbox/chibios/genist_common/pressure.c:500-531 | the remainder of the first fifteen bytes, and the PROM as it was |
| `SensorCrc.ByteIsFed` | sandbox/chibios/genist_common/pressure.c:510-527 | a byte and eight shifts feed eight message bits into the remainder |
| `SensorCrc.LowerHalvesAgree` | sandbox/chibios/genist_common/pressure.c:508-527 | after every byte, for any words, the lower half of the unmasked 32-bit register is the register of 16 bits |
| `SensorCrc.RegisterEnds` | sandbox/chibios/genist_common/pressure.c:528 | at the end the code stands in the top bits and the lowest twelve are zero |
| `CyclicCode.DivisionExists` | sandbox/chibios/genist_common/pressure.c:510-528 | the remainder that is fed bit by bit satisfies the equation of division by x^4 + x + 1 |
| `CyclicCode.DivisionIsUnique` | sandbox/chibios/genist_common/pressure.c:510-528 | and is the only one that does |
| `CyclicCode.CodeIsLinear` | sandbox/chibios/genist_common/pressure.c:500-531 | the code of a sum is the sum of the codes |
| `CyclicCode.BurstIsDetected` | sandbox/chibios/genist_common/pressure.c:500-531 | every change within four neighbouring bits, and so every flip of one, changes the code |
| `CyclicCode.TwoFlips` | sandbox/chibios/genist_common/pressure.c:500-531 | two flips go unnoticed exactly when their distance is a multiple of fifteen |
| `SensorCrc.PromBurstIsDetected` | sandbox/chibios/genist_common/pressure.c:500-531 | two PROMs that differ within four neighbouring bits of their first fifteen bytes have different codes, whatever stands in the byte of the code |
| `SensorCrc.PromIsLinear` | sandbox/chibios/genist_common/pressure.c:500-531 | the code of two PROMs, word by word exclusive or, is that of their codes |
| `SensorCrc.CompareCodes` | sandbox/chibios/genist_common/pressure.c:500-531 | crc4 of two such PROMs gives different results, and leaves both as they were |

## Left out

- Formatted printing (`fmt` not zero): its length estimate leaves no room for its line ends, so only the unformatted form is modelled.
- The parts of `print_number` for numbers that are no ints (`%.0f`, `%e`, `%f`): floating-point formatting.
- Rounding of `double`: a number is the real number that its text denotes, and `valueint` its truncation without the undefined cases of the C cast.
- Parsing a string whose passes leave the text or the block: C defines nothing there, so the parsing functions give `OutOfBounds`, and the methods ask that they do not. `JsonParse.InBounds` is the exact condition, `JsonParse.EscapesComplete` one that is easy to check and enough.
- The exponent of a number is an unbounded integer; in C it is an int, which overflows for 1e2147483648.
- Depth of the C stack: recursion of the parser, the printer, `cJSON_Delete` and `cJSON_Duplicate` is not bounded.
- The remaining `cJSON_Create...` functions, for arrays of numbers and strings, and `cJSON_InitHooks`.
- The smallest int: chprintf.c negates it as a `long`, which C leaves undefined where that has 32 bits; the model prints its digits.
- References inside the structures that are edited or printed and then deleted through their owner: an edited or deleted separate structure has none; `Lifetime.Delete`, `Duplicate.Duplicate` and the printer accept them.
- The replies of the shell as bytes on the channel, and its CONSOLE command.
- Printer.PrintNumberItem: the write through a null pointer is recorded, and the call is then continued as if it had no effect.
- Printer.Peek: a read behind the end of a block is recorded, and the text is then taken to end there.
- Faults (`Settings.Validate`, `Settings.SetJson`, `Settings.GetJson`, `JsonShell.JsonThread`): what a null pointer handed to `strcmp` does is not modelled; the model stops there. A null pointer given to `chHeapFree` is recorded and has no effect.
- Interrupted saves are cut off between two writes of a half word, not inside one.
- Compensation.Compensate: models no pressure and no second order for temperatures below 20 degrees, because C does not define the shift of 1 by 31 bits there.
- SPI transfers, semaphores, threads, the ICU driver, console output: calls into code that is not part of this model.
- `GetChartLoad`, `CalcChartDelta`, `setBlinkCode`, supply pressure and chart readings of pressure.c.
- `dbGetString`, and the log subcommands of `dbGetJSON` beyond the empty object they return.
- The option bytes of the flash driver, its latency and interrupt functions: register writes without an algorithm.
- Hazard runs: the thresholds are fixed over a run, although a SET may change them between two samples.
- Writes to the control register of a locked flash change the register in the model; of its page the model promises nothing then.
