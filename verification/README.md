# A verified model of redisVirtualFileSystem

The repository is a file system whose folders and files live in a Redis server, on top of the C client hiredis. This
project models, in Dafny, the parts that carry its behaviour, and proves properties of them:

- **Reading replies** (`Bytes`, `Resp`, `ReplyHeap`, `Scan`, `Reader`, `ReplyLoop`). `Resp` specifies the protocol
  (Redis serialization protocol version 2, sections "Simple strings", "Simple errors", "Integers", "Bulk strings" and
  "Arrays") as a printer and a resumable parser on values, and proves that they undo each other and that a stream may
  be cut anywhere. `Reader` is the code: a buffer, a cursor, nine task slots, and reply objects in memory that point
  to one another by address. Each of its methods is proved to take the steps of `Resp`.
- **Writing commands** (`Printing`, `Command`, `SdsFormat`, `Format`, `FormatWords`, `Connection`). Three formatters,
  the number printers they use, and the output buffer; all produce the same encoding, and the reader decodes any
  pipeline of it. `FormatWords` tells what a format means from the parts that it is put together from.
- **Strings** (`SdsString`, `SdsSplit`, `SdsArgs`, `SdsLines`). The growable string, splitting and joining, quoting and
  reading arguments back, and what lines that no printer wrote are read as.
- **The hash table** (`Dict`, `DictIteration`). Chains of linked entries on the heap that mean a finite map, through
  growth and deletion, and the iterator that survives deletion.
- **Asynchronous callbacks** (`AsyncSpec`, `Async`). The specification is a state machine over client calls and
  socket events; the code, with its linked list of callbacks that may re-enter the interface, refines it.
- **The file system** (`VfsSpec`, `VfsPaths`, `VfsNamespace`, `VfsCommands`, `VfsEffects`, `VfsParsing`, `Vfs`). The
  store, path resolution and parsing, the climb that builds a path, and the commands mkdir, createFile and cd.

A method is always proved against a function on values, and the theorems are about those functions, so they hold of
the code. `dafny verify dfyconfig.toml` checks everything.

## What turned out differently from what one may expect

- The assertion that no callback is pending at a clean disconnect (`async.c:339`) does not always hold: the test before
  it (`async.c:421`) looks at the flag and the output buffer only. `AsyncSpec.AbortsExactly` gives the exact condition,
  judged before the event, for it and for the assertion on unexpected replies (`async.c:461`), as
  `AsyncSpec.EndsExactly` does for every way an event may end; `AsyncSpec.WaitingDisconnectAborts` is a run where it
  fails. The model keeps the code as it is: a failed assertion is a state.
- Folder lookup compares only as many characters as the path component has (`vfs.c:290`), so a folder can hide
  another whose name its own begins with. `VfsNamespace.MkdirHides` says exactly which folders a new one hides,
  `VfsPaths.RoundTripExactly` when the path of a folder leads back to it, `VfsEffects.CurrentFolderStays` when mkdir
  leaves the current folder where it is, and `VfsEffects.MkdirThenCd` when cd with the path that mkdir was given ends
  in the new folder. `VfsEffects.PrefixWins` and `VfsEffects.SamePathMayFail` are inputs where it does not.
- Splitting does not undo joining for every list of tokens that are free of the separator, since a token's end and the
  separator may together hold an earlier occurrence; `SdsSplit.SplitJoin` has the exact condition, and
  `SdsSplit.CleanTokensMayNotReturn` an input.
- mkdir does not look whether the name is taken (`virtualFileSystemWrapper.cc:214-227`), keeps a trailing slash as part
  of the name (`VfsParsing.MadeWithSlash`, `VfsEffects.SlashInName`), and on "/" makes a folder that belongs to no list
  of the tree (`VfsParsing.MadeNowhere`, `VfsEffects.MkdirRoot`). The invariant covers these too.
- createFile does not look either, and of two files with one name the older is found; `VfsParsing.CreateThenFind` says
  exactly when the file just made is found by the path that it was made with.
- A printf specifier of 14 bytes or more does not fit the local buffer of the formatter (`hiredis.c:354-369`): its value
  is dropped, and the rest of it becomes text (`FormatWords.LongSpecifierIsText`).

"Clean name space" means: sibling folders have names of which none begins with another, names are nonempty, without a
slash and not "." or "..", and no file has the name of a sibling folder.

## Model

| member | source | states |
|---|---|---|
| Bytes.ReadLongLongInvertsNumber | virtualFileSystem/hiredis/read.c:146-171 | reading the digits of a printed number gives the number back, for every 64-bit value except LLONG_MIN, whose magnitude overflows on the way |
| Bytes.ReadLongLongRange | virtualFileSystem/hiredis/read.c:146-171 | whatever the bytes of a line, a number that is read without overflow lies strictly above LLONG_MIN and at most at LLONG_MAX |
| Bytes.ReadLongLongOfDigits | virtualFileSystem/hiredis/read.c:146-171 | any digits, with leading zeros or none at all, behind a plus, a minus or no sign, are the number that they spell in decimal, up to the first carriage return; undefined beyond LLONG_MAX |
| Bytes.ReadLongLongOfJunk | virtualFileSystem/hiredis/read.c:146-171 | a byte that is neither a digit nor a carriage return makes the line read as -1, wherever it stands behind the digits and whatever follows, unless these digits overflow |
| Resp.StepExtends | virtualFileSystem/hiredis/read.c:213-363 | a step that was possible with the bytes at hand is the same step when more bytes have arrived; only the unread rest grows |
| Resp.ReadAllExtends | virtualFileSystem/hiredis/read.c:365-523 | reading a stream and later its continuation gives the replies and the end state of reading both in one piece: the reader may stop after any byte |
| Resp.ChunkIndependence | virtualFileSystem/hiredis/read.c:443-523 | for every stream and every way of cutting it into chunks the sequence of replies and the final waiting or error state are the same |
| Resp.StepKeepsGood | virtualFileSystem/hiredis/read.c:188-363 | on every byte stream there are at most eight open arrays, none of them full, and every item inside is one that belongs at its depth |
| Resp.ReadOneKeepsGood | virtualFileSystem/hiredis/read.c:365-412 | every reply that is emitted is a readable one, and what the reader waits with satisfies the stack invariant |
| Resp.RoundTrip | virtualFileSystem/hiredis/read.c:118-412 | reading the encoding of a reply followed by any bytes yields exactly that reply and stops exactly at those bytes, if and only if the reply is readable: arrays at depth 0 to 7, no CR LF in status and error texts, integers above LLONG_MIN, lengths in range |
| Resp.StreamRoundTrip | virtualFileSystem/hiredis/read.c:475-523 | a stream of encoded replies is read back reply by reply, and nothing is left over |
| Resp.ReadAnyNumber | virtualFileSystem/hiredis/read.c:213-245 | an integer reply with any line: the number of the line, undefined when it overflows |
| Resp.ReadAnyLength | virtualFileSystem/hiredis/read.c:247-298 | a bulk string with any negative length, however it is written, is nil |
| Resp.ReadAnyBulk | virtualFileSystem/hiredis/read.c:247-298 | a bulk string of as many bytes as its line says, whichever two bytes stand in place of the CR LF behind it |
| Resp.ReadAnyCount | virtualFileSystem/hiredis/read.c:300-363 | an array of length -1 is nil, at every depth that allows arrays; a length that is no int is undefined |
| Resp.ReadNilArray | virtualFileSystem/hiredis/read.c:317-330 | *-1 is read as the nil object, not as an array, inside open arrays too |
| Resp.ReadBadType | virtualFileSystem/hiredis/read.c:365-394 | a byte that is none of the five types ends the reading with an error that names this byte |
| Resp.PartOfReplyWaits | virtualFileSystem/hiredis/read.c:475-523 | of a reply that has come in only in part the reader waits for the rest, wherever it is cut off |
| Resp.NinthArrayRefused | virtualFileSystem/hiredis/read.c:307-312 | a ninth array inside eight open ones is refused as soon as its type byte has been seen, whatever follows |
| ReplyHeap.StoreInParent | virtualFileSystem/hiredis/hiredis.c:100-187 | writing the address of the newest object into the parent's next slot turns the memory of the open arrays into that with one child begun, and changes no other object |
| ReplyHeap.StoreItem | virtualFileSystem/hiredis/hiredis.c:132-155 | an item stored in an array that is not full yet leaves the open arrays with one finished element more, in order |
| ReplyHeap.CloseArray | virtualFileSystem/hiredis/read.c:188-211 | an item that fills its array makes the array itself the finished item of the next outer one, in the same memory |
| ReplyHeap.DenotesTree | virtualFileSystem/hiredis/hiredis.c:100-187 | a client that follows the element addresses from the root object sees exactly the reply |
| Scan.SeekNewline | virtualFileSystem/hiredis/read.c:118-142 | the offset of the first CR LF that lies inside the bytes received, or none; the search by '\r' with its look-ahead byte misses none |
| Scan.ReadLongLong | virtualFileSystem/hiredis/read.c:146-171 | the loop up to the carriage return computes the number of the line, or -1 for a byte that is no digit |
| Reader.StackAdvance | virtualFileSystem/hiredis/read.c:188-211 | moving on to the next element keeps the stack of tasks in step with the open arrays, the index advanced by one |
| Reader.StackPush | virtualFileSystem/hiredis/read.c:337-354 | opening an array pushes one task whose parent is the array just opened, index 0 |
| Reader.NextTask | virtualFileSystem/hiredis/read.c:188-211 | climbing one level: the parent below is an array, the index of its child is in range, and the item goes into the next slot or closes the array |
| Reader.RedisReader.constructor | virtualFileSystem/hiredis/read.c:414-433 | a new reader holds no bytes, no task and no error, and waits at the start of a reply |
| Reader.RedisReader.SetError | virtualFileSystem/hiredis/read.c:44-68 | an error clears the buffer and the stack and gives up the reply under construction; nothing is read any more |
| Reader.RedisReader.ReadLine | virtualFileSystem/hiredis/read.c:173-186 | the line at the cursor without its CR LF, the cursor behind it; nothing moves when the line is not complete |
| Reader.RedisReader.MoveToNextTask | virtualFileSystem/hiredis/read.c:188-211 | after an item has been stored, every array it fills is closed and the next task set up; both assertions of the loop hold on every run |
| Reader.RedisReader.StoreLeaf | virtualFileSystem/hiredis/read.c:213-245 | a finished item without elements is created once, stored in the parent's next empty slot or kept as the root, and the stack follows |
| Reader.RedisReader.ProcessLineItem | virtualFileSystem/hiredis/read.c:213-245 | status, error and integer items: one step of the specification on the unread bytes, or no change at all if the line is not complete |
| Reader.RedisReader.ProcessBulkItem | virtualFileSystem/hiredis/read.c:247-298 | bulk strings: one step of the specification, with nil for a negative length and no change until the whole string is there |
| Reader.RedisReader.ProcessMultiBulkItem | virtualFileSystem/hiredis/read.c:300-363 | arrays: one step of the specification, with the depth limit, nil for -1 and the empty array finished at once |
| Reader.RedisReader.ProcessItem | virtualFileSystem/hiredis/read.c:365-412 | one item consumed in place takes the reader from an outcome still to come to the same outcome; each successful item consumes bytes, so the reading loop ends |
| Reader.RedisReader.DropLargeBuffer | virtualFileSystem/hiredis/read.c:453-460 | an empty buffer with more free bytes than the limit is replaced by a fresh one, and otherwise kept; the unread text stays the same |
| Reader.RedisReader.Append | virtualFileSystem/hiredis/read.c:450-470 | the chunk goes behind the unread bytes, and the cursor does not advance |
| Reader.RedisReader.Feed | virtualFileSystem/hiredis/read.c:443-473 | the chunk is appended to the unread bytes and nothing else of the state changes; after an error nothing is taken |
| Reader.RedisReader.ProcessItems | virtualFileSystem/hiredis/read.c:499-502 | the loop over the items of one reply ends and reaches the outcome of the specification |
| Reader.RedisReader.Discard | virtualFileSystem/hiredis/read.c:508-514 | the read part of the buffer is dropped once it is 1024 bytes long, so that it stays shorter than that; the unread bytes stay as they were |
| Reader.RedisReader.HandOut | virtualFileSystem/hiredis/read.c:516-521 | a finished reply is handed out once, as the address of its root in memory; a reply under construction stays |
| Reader.RedisReader.GetReply | virtualFileSystem/hiredis/read.c:475-523 | delivers exactly the next reply of the unread bytes as a tree in memory, or waits, or reports the error, and leaves exactly the bytes behind that reply; replies delivered before are untouched |
| ReplyLoop.DeliveredTrees | virtualFileSystem/hiredis/hiredis.c:828-856 | every reply handed out is, by following addresses, the tree of the specification, however much was read after it |
| ReplyLoop.Drain | virtualFileSystem/hiredis/hiredis.c:949-958 | taking replies until there is none or an error gives all replies of the bytes received so far, in order |
| ReplyLoop.ReadStream | virtualFileSystem/hiredis/read.c:443-523 | chunk independence of the code itself, for streams of any length: for every way a stream is cut into feeds that fit the buffer the client gets the replies of the whole stream and the reader ends in the same state |
| Printing.CountDigits | virtualFileSystem/hiredis/hiredis.c:191-201 | the count is the length of the printed number, for every number |
| Printing.Reverse | virtualFileSystem/hiredis/sds.c:317-326 | the in-place loop over two pointers reverses the first l bytes and touches no other |
| Printing.ReversedAt | virtualFileSystem/hiredis/sds.c:317-326 | the k-th byte of the reversed text is the k-th from the end |
| Printing.LowFirstReversed | virtualFileSystem/hiredis/sds.c:304-311 | digits written lowest first and reversed are the decimal form |
| Printing.DigitsFit | virtualFileSystem/hiredis/sds.c:298-298 | a 64-bit number has at most 20 digits and a signed one at most 19: the fixed buffers suffice |
| Printing.Ull2Str | virtualFileSystem/hiredis/sds.c:331-357 | writes exactly the decimal digits, a NUL behind them, and returns their count |
| Printing.Ll2Str | virtualFileSystem/hiredis/sds.c:299-328 | writes exactly the decimal form with its sign, a NUL behind it, and returns its length, for every value above LLONG_MIN |
| Printing.FromLongLong | virtualFileSystem/hiredis/sds.c:719-732 | the other printer, written from the end of its buffer, gives the same text |
| Command.BulkLen | virtualFileSystem/hiredis/hiredis.c:204-206 | the computed length is the length of the encoded argument |
| Command.TotalLength | virtualFileSystem/hiredis/hiredis.c:538-542 | the precomputed total is the length of the whole encoded command |
| Command.FormatCommandArgv | virtualFileSystem/hiredis/hiredis.c:528-564 | the buffer holds exactly the RESP2 array of the arguments and a NUL, and the bytes written are exactly as many as computed before, so its assertion holds |
| Command.PipelineDecodes | virtualFileSystem/hiredis/hiredis.c:528-564 | any list of formatted commands, one after the other, is read back as exactly the corresponding arrays of bulk strings, in order, with no byte left |
| SdsFormat.CatFmt | virtualFileSystem/hiredis/sds.c:425-526 | appends exactly the text that the format stands for, growing the buffer on the way, with the NUL at the end |
| SdsFormat.FmtExactly | virtualFileSystem/hiredis/sds.c:425-526 | a format put together from bytes, %s and %S with a text, %i and %I with a signed number, %u, %U and %T with an unsigned one, and percent signs before other bytes stands for these texts one behind the other |
| SdsFormat.FormatSdsCommandArgv | virtualFileSystem/hiredis/hiredis.c:475-517 | produces the same bytes as the other formatter, in exactly the precomputed length, so its assertion holds |
| Format.ScanSpecifier | virtualFileSystem/hiredis/hiredis.c:276-351 | the loops over flags, width, precision and size modifiers find the length of the conversion, or reject it |
| Format.AppendDirective | virtualFileSystem/hiredis/hiredis.c:239-374 | one directive appends exactly the text of its value to the current argument, the decimal digits for %lu, and consumes its own characters and values only |
| Format.ScanFormat | virtualFileSystem/hiredis/hiredis.c:226-383 | the scanning loop ends with exactly the arguments that the format stands for, or with the format error |
| Format.ArgumentCountOfFormat | virtualFileSystem/hiredis/hiredis.c:226-383 | the number of arguments depends on the format only: values with spaces never split and empty values give empty arguments |
| Format.WordsKeepText | virtualFileSystem/hiredis/hiredis.c:226-383 | the arguments together are the texts of all pieces of the format in order: nothing is lost, repeated or reordered |
| Format.VFormatCommand | virtualFileSystem/hiredis/hiredis.c:208-440 | -2 for an invalid format; otherwise exactly the command, as the argv formatter writes it, of the format split at its own runs of spaces with the values put in |
| FormatWords.SpecifierExactly | virtualFileSystem/hiredis/hiredis.c:276-349 | flags, width, precision, size modifier and an integer conversion, or a float conversion without modifier, are taken as one specifier, whole, whatever follows |
| FormatWords.SpecifierRejected | virtualFileSystem/hiredis/hiredis.c:298-352 | behind flags, width and precision any other byte, and a modifier that no integer conversion follows, is rejected |
| FormatWords.PartsExactly | virtualFileSystem/hiredis/hiredis.c:226-383 | the scan takes literal bytes, %%, %s, %b, %lu and other specifiers one by one, each with its own values, and goes on behind them with the rest of the format and of the values |
| FormatWords.FormatExactly | virtualFileSystem/hiredis/hiredis.c:226-383 | every format put together from such parts is valid, and its pieces are exactly their texts: all bytes of a string before its NUL, the bytes counted for %b, the digits for %lu |
| FormatWords.InvalidExactly | virtualFileSystem/hiredis/hiredis.c:350-352 | one specifier without a conversion makes the whole format invalid, whatever stands before and behind it |
| FormatWords.LongSpecifierIsText | virtualFileSystem/hiredis/hiredis.c:354-369 | the value of a specifier of 14 bytes or more is dropped, and its bytes behind the first two are read as text |
| FormatWords.ArgumentsOfLayout | virtualFileSystem/hiredis/hiredis.c:226-383 | for any words made of such parts, with runs of spaces before, between and behind them, the arguments are exactly the words, each the texts of its parts one behind the other, whatever bytes the values hold |
| FormatWords.SameAsArgumentList | virtualFileSystem/hiredis/hiredis.c:226-383 | %s %s ... of any strings without NUL, and %b %b ... of any bytes at all, stand for exactly these arguments: the command is that of the formatter for argument lists |
| SdsString.SliceSplits | virtualFileSystem/hiredis/sds.c:575-603 | cutting at any point n: the slices up to n - 1 and from n put together are the string |
| SdsString.SliceExactly | virtualFileSystem/hiredis/sds.c:575-603 | for positions from the front: both ends are included, an end behind the last byte is moved to it, and nothing is left when the start is behind the end or behind the string |
| SdsString.SliceFromEnd | virtualFileSystem/hiredis/sds.c:579-586 | a negative position is the one counted from the end, and the first byte if that lies before the string |
| SdsString.Sds.constructor | virtualFileSystem/hiredis/sds.c:51-66 | the text is the initial bytes, with no free space and the NUL in place |
| SdsString.Sds.MakeRoomFor | virtualFileSystem/hiredis/sds.c:129-147 | afterwards there is room for the bytes asked for and, in a new buffer, as much again or one megabyte; the text is the same, and a buffer that had the room is kept |
| SdsString.Sds.CatLen | virtualFileSystem/hiredis/sds.c:237-249 | the text becomes old text + t; length, free space and NUL agree with the buffer |
| SdsString.MoveToFront | virtualFileSystem/hiredis/sds.c:598-598 | the overlapping move puts the n bytes at the front unchanged |
| SdsString.Sds.SliceBounds | virtualFileSystem/hiredis/sds.c:575-597 | start and length after clamping are those of the slice, for negative, reversed and out-of-range positions too |
| SdsString.Sds.Range | virtualFileSystem/hiredis/sds.c:575-603 | the text becomes the slice between the two inclusive positions; the capacity stays |
| SdsSplit.JoinSplit | virtualFileSystem/hiredis/sds.c:658-705 | joining the tokens of any string with the separator gives the string back |
| SdsSplit.NoTokenHoldsSep | virtualFileSystem/hiredis/sds.c:671-694 | the separator occurs in no token, at no offset |
| SdsSplit.SplitJoin | virtualFileSystem/hiredis/sds.c:962-971 | splitting a join gives the list back if and only if in each token followed by the separator the separator is first met at its end |
| SdsSplit.CleanTokensMayNotReturn | virtualFileSystem/hiredis/sds.c:658-705 | an input where tokens free of the separator do not come back: the tokens 1 and 2 joined by 1 1 |
| SdsSplit.SplitLen | virtualFileSystem/hiredis/sds.c:658-705 | returns exactly the split of the string, and NULL for an empty separator; every store into the growing token array is in bounds |
| SdsSplit.JoinSds | virtualFileSystem/hiredis/sds.c:962-971 | the loop produces the join of the tokens |
| SdsArgs.QuoteRoundTrip | virtualFileSystem/hiredis/sds.c:740-923 | for every list of byte strings, with NULs, quotes, backslashes and empty ones, parsing the quoted forms joined by single spaces gives exactly the list |
| SdsArgs.ReprLineNoNul | virtualFileSystem/hiredis/sds.c:740-763 | the quoted forms hold no NUL, whatever the bytes, so that the parser of C strings sees all of them |
| SdsArgs.ReprPrintable | virtualFileSystem/hiredis/sds.c:740-763 | the quoted form of any bytes is printable, and printable text without quotes and backslashes stands in it as it is |
| SdsLines.EscapeIsShortest | virtualFileSystem/hiredis/sds.c:740-763 | a byte is written in the shortest of all the printable forms that the parser reads as this byte |
| SdsArgs.QuoteAndSplit | virtualFileSystem/hiredis/sds.c:740-923 | the printer run over a list, a NUL put behind, and the parser run over that: the list comes back |
| SdsArgs.CatRepr | virtualFileSystem/hiredis/sds.c:740-763 | appends exactly the quoted form of the bytes |
| SdsArgs.QuoteAll | virtualFileSystem/hiredis/sds.c:740-763 | calls of the printer with a space between them write the line of quoted forms |
| SdsArgs.ReadToken | virtualFileSystem/hiredis/sds.c:826-903 | the loop over the three quoting modes returns the token of the specification and stops where it ends, or fails on bad quotes; it never reads behind the NUL |
| SdsArgs.SplitArgs | virtualFileSystem/hiredis/sds.c:815-923 | returns exactly the arguments of the line, or nothing for unbalanced quotes |
| SdsLines.LineExactly | virtualFileSystem/hiredis/sds.c:815-923 | for every line of words, bare, in double or single quotes, or bare with a quoted end, and blanks between them: the arguments are exactly the words, with hexadecimal and letter escapes undone between double quotes and nothing but the apostrophe's between single ones |
| SdsLines.WrongLine | virtualFileSystem/hiredis/sds.c:868-912 | a quote that is never closed, or is closed before a byte that is no blank, gives no arguments at all, whatever words come before it |
| Connection.RedisContext.AppendCommand | virtualFileSystem/hiredis/hiredis.c:865-876 | the command is added behind everything appended before; bytes sent and bytes buffered together are all commands in order |
| Connection.RedisContext.AppendCommandArgv | virtualFileSystem/hiredis/hiredis.c:919-936 | the formatted arguments are added as one more command |
| Connection.RedisContext.BufferWrite | virtualFileSystem/hiredis/hiredis.c:789-816 | whatever part the socket takes, bytes sent followed by bytes buffered stay the appended commands in order; done exactly when the buffer is empty |
| Connection.PeerReadsCommands | virtualFileSystem/hiredis/hiredis.c:789-876 | after any appends and partial writes, however the bytes arrive, the other end has read exactly the appended commands once the buffered rest follows |
| Dict.GenHashFunction | virtualFileSystem/hiredis/dict.c:53-59 | the loop computes the 32-bit hash of the bytes |
| Dict.HashIsBase33 | virtualFileSystem/hiredis/dict.c:53-59 | the hash is the number that the bytes spell in base 33 behind the digit 5381, with the arithmetic wrapped around at 32 bits |
| Dict.MaskKeepsRemainder | virtualFileSystem/hiredis/dict.c:117-118 | for every size a table can have, a bitwise and with the mask size - 1 is the remainder of the division by the size |
| Dict.MaskedSlot | virtualFileSystem/hiredis/dict.c:320-337 | hash and mask give the slot that the table is organised by |
| Dict.NextPower | virtualFileSystem/hiredis/dict.c:306-315 | the smallest power of two from 4 on that holds the size asked for; a size that is one already is kept |
| Dict.Link | virtualFileSystem/hiredis/dict.c:117-120 | linking an entry in front of its chain keeps every entry in the chain of its key's slot, once |
| Dict.HashTable.Find | virtualFileSystem/hiredis/dict.c:243-256 | the entry of the key, with the map's value, or NULL exactly when the map lacks the key |
| Dict.HashTable.MoveChain | virtualFileSystem/hiredis/dict.c:111-124 | every entry of one old chain ends up in the new table, and the count of entries left falls by the length of the chain |
| Dict.HashTable.MoveAll | virtualFileSystem/hiredis/dict.c:105-126 | all entries are relinked into the new table and the count reaches 0, as the assertion demands |
| Dict.HashTable.Expand | virtualFileSystem/hiredis/dict.c:88-132 | the same entries and the same map over a table of the next power of two; refused exactly when the entries would not fit |
| Dict.HashTable.ExpandIfNeeded | virtualFileSystem/hiredis/dict.c:295-303 | afterwards fewer entries than slots, with map and entries unchanged: four slots for the empty table, twice as many for a full one, and the same otherwise |
| Dict.HashTable.KeyIndex | virtualFileSystem/hiredis/dict.c:320-337 | the slot for a new key, or -1 exactly when the map has the key; map and entries unchanged |
| Dict.HashTable.Add | virtualFileSystem/hiredis/dict.c:135-154 | succeeds exactly for a missing key, and then the map gains the binding; otherwise it is unchanged |
| Dict.HashTable.Replace | virtualFileSystem/hiredis/dict.c:160-179 | the map gets the binding in every case; true exactly when the key was missing |
| Dict.HashTable.FindBefore | virtualFileSystem/hiredis/dict.c:187-195 | the entry of the key in its chain together with the one before it, or none if no entry of the chain has the key |
| Dict.Unlink | virtualFileSystem/hiredis/dict.c:195-199 | bypassing one entry, at the head or inside, leaves exactly the other entries in their chains |
| Dict.HashTable.Delete | virtualFileSystem/hiredis/dict.c:182-210 | succeeds exactly for a present key; the map loses it, and one chain loses one entry, in place |
| Dict.HashTable.TakeOut | virtualFileSystem/hiredis/dict.c:195-204 | the entry found leaves its chain, the table and the map, and nothing else changes |
| DictIteration.DictIterator.Next | virtualFileSystem/hiredis/dict.c:268-286 | returns the first of the entries still to come and leaves the others; NULL exactly when none is left |
| DictIteration.FromNodes | virtualFileSystem/hiredis/dict.c:268-286 | the chains in slot order, one after the other, hold every entry once |
| DictIteration.VisitAll | virtualFileSystem/hiredis/dict.c:258-286 | the iteration loop visits every entry exactly once and then gets NULL |
| DictIteration.DeleteReturned | virtualFileSystem/hiredis/dict.c:182-210 | deleting the entry just returned leaves what is still to come unchanged and the iterator valid |
| DictIteration.DeleteAll | virtualFileSystem/hiredis/dict.c:258-286 | a caller that deletes each entry just after it was returned still sees each exactly once, and the table is empty afterwards |
| AsyncSpec.DrainRunsPending | virtualFileSystem/hiredis/async.c:275-289 | at teardown each callback still waiting runs once with NULL, in order; nothing can be registered meanwhile, and the list shrinks to empty |
| AsyncSpec.TeardownConsistent | virtualFileSystem/hiredis/async.c:275-317 | a teardown that starts while closing keeps the order of delivery, frees once, and ends the run |
| AsyncSpec.ConsumeConsistent | virtualFileSystem/hiredis/async.c:411-487 | the loop over the replies gives each to the oldest waiting callback, also when callbacks issue commands, disconnect or free; a reply is given to none only after a callback has freed the context or when no command waits |
| AsyncSpec.ExactlyOnce | virtualFileSystem/hiredis/async.c:227-646 | in every run of client calls and socket events the i-th reply goes to the callback of the i-th accepted command, each callback runs at most once, those without a reply get NULL at teardown in order, none is lost, no reply that arrived is dropped unless a callback has freed the context or every accepted command has had its reply, and the context is freed at most once |
| AsyncSpec.EndsExactly | virtualFileSystem/hiredis/async.c:323-646 | in every run and for every event, whether the context goes on, with which callbacks waiting, disconnecting or not and with how much to write, or is freed, or the program aborts: it is freed exactly by a call of the client, a refused connection, a failed read or write, an error of the reader, a callback that frees it, the last reply while it disconnects, and an error reply that nobody waits for |
| AsyncSpec.WithoutReplies | virtualFileSystem/hiredis/async.c:275-349 | an event that brings no replies runs no callback, unless it frees the context: then every waiting callback is given NULL, in order, a failed read or write included |
| AsyncSpec.FlagsAfter | virtualFileSystem/hiredis/async.c:492-509 | a context that goes on is connected exactly if it was, or if this event found the connection made; an error is left in it exactly by finding it still in progress |
| AsyncSpec.AbortsExactly | virtualFileSystem/hiredis/async.c:331-349 | in every run, which assertion an event fails, told from the waiting callbacks, the flag and the length of the output buffer before it: none unless the context processes replies; that of the clean disconnect exactly if, when the replies have been given out, none of their callbacks has freed the context, it is disconnecting, nothing is left to write and a callback waits; the one for unexpected replies exactly if a reply that is no error finds nobody waiting |
| AsyncSpec.DisconnectingEnds | virtualFileSystem/hiredis/async.c:331-349 | for a context that disconnects already: freed if a callback that gets a reply frees it; otherwise the number of replies against that of the waiting callbacks decides, and for no more replies than these the reader, the output buffer and whether a callback is left |
| AsyncSpec.ConsumeExactly | virtualFileSystem/hiredis/async.c:411-487 | the state after the loop over as many replies as callbacks wait, or fewer, told from those callbacks: a teardown if one that gets a reply frees the context, otherwise the waiting callbacks left and the newly registered ones behind them |
| AsyncSpec.ConsumeBoth | virtualFileSystem/hiredis/async.c:411-487 | the loop over two batches of replies is the loop over the first and then over the second |
| AsyncSpec.CallsInsideExactly | virtualFileSystem/hiredis/async.c:265-272 | what the calls of one callback come to: the commands before the first closing call are registered in order, and the flags are those asked for |
| AsyncSpec.RunsStayBetween | virtualFileSystem/hiredis/async.c:265-317 | between two events of a run no callback is running and no freeing is left to be done |
| AsyncSpec.WaitingDisconnectAborts | virtualFileSystem/hiredis/async.c:418-427 | a run that does fail it: one command, a clean disconnect, and a wake-up before its reply is complete |
| Async.CallbackList.Push | virtualFileSystem/hiredis/async.c:227-247 | the list of nodes holds the old callbacks and the new one last |
| Async.CallbackList.Shift | virtualFileSystem/hiredis/async.c:249-263 | the first callback leaves the list and is returned; fails exactly on the empty list |
| Async.AsyncContext.AsyncCommand | virtualFileSystem/hiredis/async.c:581-646 | accepted exactly while neither disconnecting nor freeing; then the callback waits last and the length of the output buffer grows by the command |
| Async.AsyncContext.AsyncDisconnect | virtualFileSystem/hiredis/async.c:357-362 | from inside a callback only noted; from outside done at once when nothing is pending |
| Async.AsyncContext.AsyncFree | virtualFileSystem/hiredis/async.c:323-328 | from inside a callback only noted; from outside the context is torn down |
| Async.AsyncContext.RunCallback | virtualFileSystem/hiredis/async.c:265-272 | the callback's own calls run while the flag is set, and the state afterwards is that of the specification |
| Async.AsyncContext.DoFree | virtualFileSystem/hiredis/async.c:275-317 | the loop runs every callback left and ends in the specified teardown |
| Async.AsyncContext.DoDisconnect | virtualFileSystem/hiredis/async.c:331-349 | a clean disconnect aborts if a callback is pending; after an error it is a teardown |
| Async.AsyncContext.ProcessCallbacks | virtualFileSystem/hiredis/async.c:411-487 | the loop over the replies refines the specified processing, including the teardown asked for by a callback |
| Async.AsyncContext.HandleConnect | virtualFileSystem/hiredis/async.c:492-509 | a refused connection disconnects, an established one is noted, and one in progress leaves its error in the context and is tried again |
| Async.AsyncContext.HandleReadEvent | virtualFileSystem/hiredis/async.c:514-533 | a readable socket is one event of the specification |
| Async.AsyncContext.HandleWriteEvent | virtualFileSystem/hiredis/async.c:535-560 | a writable socket is one event of the specification |
| VfsSpec.BuildKeepsInv | virtualFileSystem/vfs.c:373-382 | a store just built satisfies the tree invariant |
| VfsSpec.MkdirKeepsInv | virtualFileSystem/vfs.c:53-70 | making a folder keeps the tree invariant (parent links and child lists agree, ids grow downwards, no id in two lists or twice in one) and every folder of the tree in it |
| VfsSpec.CreateKeepsInv | virtualFileSystem/vfs.c:110-117 | making a file keeps the same invariant and the same folders |
| VfsSpec.WalkRooted | virtualFileSystem/vfsPathParser.c:93-129 | resolving any path from a folder of the tree, ".." included, never leaves the tree |
| VfsPaths.WalkIsFollow | virtualFileSystem/vfsPathParser.c:84-129 | the walk over the characters is the walk over the components before the last slash |
| VfsPaths.FindObjectIsLookup | virtualFileSystem/vfs.c:248-298 | inside a path the file test is equality of names and the folder test is a prefix test that takes the first hit |
| VfsPaths.FollowBoth | virtualFileSystem/vfsPathParser.c:93-129 | resolving a path in two parts is resolving the second part from where the first one leads |
| VfsPaths.FindableMeansFound | virtualFileSystem/vfs.c:271-298 | looking a folder up by its own name finds it if and only if no file has the name, the name is not "." or "..", and no folder listed before it has a name beginning with it |
| VfsPaths.RoundTripExactly | virtualFileSystem/virtualFileSystemWrapper.cc:86-102 | the path built for a folder resolves to that folder if and only if every folder on the way is findable by its own name |
| VfsNamespace.CleanRoundTrip | virtualFileSystem/virtualFileSystemWrapper.cc:34-47 | in a clean name space the path built for any folder of the tree resolves to it |
| VfsNamespace.RelativePathsCompose | virtualFileSystem/virtualFileSystemWrapper.cc:105-149 | a relative path put behind the current path leads where it leads from the current folder, also with empty components |
| VfsNamespace.FormattedPathMeansSame | virtualFileSystem/virtualFileSystemWrapper.cc:117-149 | in a clean name space every nonempty path has an absolute form, and that means the same |
| VfsNamespace.AbsPathIsCanonical | virtualFileSystem/virtualFileSystemWrapper.cc:230-242 | the components of a folder's path are the names of the folders on the way, none of them empty, "." or ".." |
| VfsNamespace.MkdirHides | virtualFileSystem/vfs.c:284-298 | making a folder hides exactly the siblings whose names its own name begins with; every other folder is found as before |
| VfsNamespace.NewFolderFindable | virtualFileSystem/vfs.c:63-70 | the new folder is found by its own name exactly when no file has the name and it is neither "." nor ".." |
| VfsNamespace.CreateHides | virtualFileSystem/vfsPathParser.c:60-82 | making a file hides exactly the sibling folder of the same name |
| VfsNamespace.MkdirKeepsClean | virtualFileSystem/vfs.c:63-70 | the name space is clean afterwards if and only if it was clean and the new name fits among those in the folder |
| VfsNamespace.CreateKeepsClean | virtualFileSystem/vfs.c:110-117 | the same for a file: its name is clean and no folder beside it has it |
| VfsCommands.MadeKeepsInv | virtualFileSystem/virtualFileSystemWrapper.cc:214-259 | whatever the path, mkdir and createFile keep the tree and the path of every folder |
| VfsCommands.ParsedName | virtualFileSystem/vfsPathParser.c:132-209 | parsing an absolute path that ends in a proper name finds the folder of the rest as the parent, whether or not something of that name exists |
| VfsParsing.LookupExactly | virtualFileSystem/vfs.c:248-298 | the last file of that name in the list of the folder; if there is none, the first folder of the list whose name begins with it; otherwise nothing |
| VfsParsing.ParsedExactly | virtualFileSystem/vfsPathParser.c:132-209 | for every path with a last name, from the root or relative, with a slash behind it or without: all fields, or failure exactly when the part before the name leads nowhere |
| VfsParsing.ParsedEntry | virtualFileSystem/vfsPathParser.c:132-209 | told from the lists: a file path exactly if a file has the name, and the id is the last such file; otherwise a directory exactly if a folder has a name beginning with it, and the id is the first such folder; otherwise no existing object; the parent is the folder that the rest leads to |
| VfsParsing.ParsedNoName | virtualFileSystem/vfsPathParser.c:161-209 | a path that ends in two slashes finds an object that is neither file nor directory and has no id |
| VfsParsing.EveryPath | virtualFileSystem/vfsPathParser.c:145-165 | there are no other paths: each is the root, or ends in a name, a name and a slash, or a slash after another |
| VfsParsing.FileIdExactly | virtualFileSystem/virtualFileSystemWrapper.cc:61-74 | in a clean name space the id found for a path is that of the last file of its name in the folder that the rest leads to, and -1 exactly if there is no such file |
| VfsParsing.LookupAfterCreate | virtualFileSystem/vfs.c:248-267 | after createFile a component is answered with the new file exactly when it is the new name, looked up in its folder, and no older file has it; every other lookup is answered as before |
| VfsParsing.WalkAfterCreate | virtualFileSystem/vfsPathParser.c:93-129 | a path that led somewhere leads there still, or nowhere exactly if it asks for the new name in the folder of the new file |
| VfsParsing.CreateThenFind | virtualFileSystem/virtualFileSystemWrapper.cc:61-74 | createFile with a fitting name and then the id of the file at the same path: the new one if and only if no file had the name before and the path does not itself go through a folder by that name; the name space stays clean |
| VfsParsing.FormattedExactly | virtualFileSystem/virtualFileSystemWrapper.cc:105-149 | an absolute path stays as it is; any other goes behind the path of the current folder, without the ./ that it may begin with |
| VfsCommands.MadeInTarget | virtualFileSystem/virtualFileSystemWrapper.cc:214-259 | in a clean name space a new entry goes under the folder that the rest of the path leads to from the current folder, with the last name of the path; if the rest leads nowhere nothing is made |
| VfsParsing.MadeWithSlash | virtualFileSystem/virtualFileSystemWrapper.cc:214-259 | the same with a slash behind the name, which becomes part of the name of the new entry |
| VfsParsing.MadeNowhere | virtualFileSystem/virtualFileSystemWrapper.cc:214-259 | a path without a last name makes an entry called / that no folder of the tree holds, and with LONG_MAX as the parent of a folder, unless its front part leads nowhere |
| VfsParsing.EmptyPathThrows | virtualFileSystem/virtualFileSystemWrapper.cc:136-141 | an empty path is an exception in all three commands, and nothing changes |
| VfsCommands.NewFolderResolves | virtualFileSystem/virtualFileSystemWrapper.cc:214-227 | a folder just made is reached by the path of its parent and its name |
| VfsCommands.CdGoesWhereThePathLeads | virtualFileSystem/virtualFileSystemWrapper.cc:230-242 | in a clean name space cd leaves the path of the folder the argument leads to from the current one, and changes nothing if it leads nowhere |
| VfsEffects.MkdirThenCd | virtualFileSystem/virtualFileSystemWrapper.cc:214-242 | mkdir with a fitting name, then cd to it by its parent's path and its name, ends in the new folder, and the name space stays clean; cd with the path that mkdir was given ends there if and only if, wherever that path looks up in the parent a component that the new folder answers, it comes back at once by ".."; a single name always does |
| VfsEffects.LookupAfterMkdir | virtualFileSystem/vfs.c:284-298 | after mkdir a component looked up in the parent is answered with the new folder exactly when it begins the new name, is no dot name and no file has it; every other lookup is answered as before |
| VfsEffects.LookupInNew | virtualFileSystem/vfs.c:271-298 | in the folder just made "." stays, ".." leads to its parent, and nothing else is found |
| VfsEffects.OnCourse | virtualFileSystem/vfsPathParser.c:93-129 | for any walk that led to the parent before mkdir: followed by the new name it leads to the new folder if and only if it is harmless in that sense |
| VfsEffects.MkdirLeavesWalk | virtualFileSystem/vfsPathParser.c:93-129 | the folders that a path comes to, one component after the other, stay the same if and only if no component that is looked up in the parent would be answered with the new folder |
| VfsEffects.SamePathMayFail | virtualFileSystem/virtualFileSystemWrapper.cc:214-242 | a clean name space where mkdir breaks the path it was given: with x in abc, mkdir ab/x/../../abd succeeds and cd with the same path fails |
| VfsEffects.CurrentFolderStays | virtualFileSystem/virtualFileSystemWrapper.cc:50-53 | the current folder is kept as a path: after mkdir that path leads to the same folder if and only if the new name does not begin with the name of a sibling on the way |
| VfsEffects.CurrentFolderStaysWithFile | virtualFileSystem/virtualFileSystemWrapper.cc:50-53 | after createFile the path of the current folder leads to it if and only if no folder on the way that lies beside the file has its name |
| VfsEffects.MkdirRoot | virtualFileSystem/virtualFileSystemWrapper.cc:214-227 | mkdir on / makes a folder called / that no folder of the tree holds |
| VfsEffects.SlashInName | virtualFileSystem/virtualFileSystemWrapper.cc:214-242 | after mkdir a/ and cd a/ the current path is /a// and every command with a relative path throws |
| VfsEffects.PrefixWins | virtualFileSystem/vfs.c:290-293 | a case where cd misleads: after mkdir a and mkdir ab, cd a ends in /ab/ |
| Vfs.Database.Mkdir | virtualFileSystem/vfs.c:63-70 | the whole new store: a fresh id at the front of the parent's list, its record, the counter advanced |
| Vfs.Database.CreateFile | virtualFileSystem/vfs.c:110-117 | the same for the list of files |
| Vfs.Database.FindFileNameInDir | virtualFileSystem/vfs.c:248-267 | the loop ends with the last matching file of the list |
| Vfs.Database.FindDirNameInDir | virtualFileSystem/vfs.c:271-298 | "." and ".." are answered directly; otherwise the first matching folder of the list |
| Vfs.GetLengthOfNextName | virtualFileSystem/vfsPathParser.c:84-90 | the number of characters before the next slash or the end |
| Vfs.PathParserState.SeparatePathAndName | virtualFileSystem/vfsPathParser.c:35-54 | the backward scan finds where the characters after the last slash begin |
| Vfs.PathParserState.FindObjectInDir | virtualFileSystem/vfsPathParser.c:60-82 | files before folders; the fields are set exactly when something is found |
| Vfs.GetDirIdFromPath | virtualFileSystem/vfsPathParser.c:93-129 | the loop over the components returns what the path resolves to, or -1 |
| Vfs.PathParserState.ParsePath | virtualFileSystem/vfsPathParser.c:132-209 | -1 exactly for an empty path or a folder part that leads nowhere; otherwise all fields of the specification |
| Vfs.FsContext.AbsolutePathFromFolderId | virtualFileSystem/virtualFileSystemWrapper.cc:86-102 | the climb ends, because every parent has a smaller id, with the path of the folder |
| Vfs.FsContext.FormatToValidPath | virtualFileSystem/virtualFileSystemWrapper.cc:136-149 | the absolute form of the path, or the exception |
| Vfs.FsContext.Mkdir | virtualFileSystem/virtualFileSystemWrapper.cc:214-227 | the new store and the outcome are those of the specification, and the current path stays that of a folder of the tree |
| Vfs.FsContext.CreateFile | virtualFileSystem/virtualFileSystemWrapper.cc:244-259 | the same for files |
| Vfs.FsContext.Cd | virtualFileSystem/virtualFileSystemWrapper.cc:230-242 | the new current path and the outcome are those of the specification; the path is again that of a folder of the tree |
| Vfs.FsContext.FileIdFromPath | virtualFileSystem/virtualFileSystemWrapper.cc:61-74 | the id of the specification: the path is parsed from the folder that the current path leads to, and only a file counts |

## Left out

- Reader.RedisReader.GetReply: number lines that overflow a C integer and array lengths that do not fit an int, or are negative other than -1, are undefined or unchecked in the C code; the specification calls the outcome unspecified and the methods require that it does not occur.
- Resp.RoundTrip: LLONG_MIN is not readable, because its magnitude overflows while it is read; the equivalence shows it.
- Reader.RedisReader.Feed: a buffer beyond INT_MAX bytes is excluded by a precondition, here and wherever a string grows; the length of a stream is not bounded.
- Reader.RedisReader.SetError: the text of error messages is not modelled, only which error it is and the byte it names; nor is the freeing of the reply under construction.
- Command.FormatCommandArgv: the variant without a table of lengths, which calls strlen on each argument, is not modelled.
- Format.AppendDirective: what vsnprintf prints for a numeric conversion other than %lu is given with the value.
- Format.VFormatCommand: formats that end inside a specifier are excluded by the precondition, since the code then reads behind the end of the format.
- SdsFormat.CatFmt: a format that ends in a lone '%' is excluded by the precondition.
- Printing.Ll2Str: LLONG_MIN is excluded, since its negation overflows.
- Dict.NextPower: the cap at LONG_MAX is not modelled; a table of that many slots cannot be allocated.
- Async.AsyncContext.AsyncCommand: the output buffer is a number of bytes here; its contents are those of Connection.
- AsyncSpec.ExactlyOnce: what a callback does is a finite list of calls, chosen per callback for a reply and for NULL; connect and disconnect callbacks are not modelled.
- Vfs.FsContext.FileIdFromPath: a relative path while the current path itself leads nowhere is excluded by a precondition, since the code then goes on with folder -1, which has no record.
- VfsPaths.RoundTripExactly: folder and file names of the tree must be free of slashes, as a path cannot spell them otherwise.
- VfsNamespace.RelativePathsCompose: for a path that starts with "./" no file in the current folder may be called ".", since the code cuts the prefix off without a lookup.
- Reply objects are addresses in a growing sequence; freeing them and running out of memory are not modelled.
- Publish/subscribe and monitor mode, and the dictionaries of channel callbacks in the asynchronous context.
- Sockets, timeouts, event-loop adapters, the FUSE layer and the terminal program; a read is any chunk, a write takes any number of bytes.
- The Redis server is a set of maps used by one client; getting a new id, a GET and an INCR, is one step.
- File contents and the size, date and link fields of file records.
- Listing a folder, stat, and the empty bodies of mv, delete and the redis_mv functions.
- Fixed-size name buffers in vfs.c; paths and names hold no NUL.
- dictRelease, the unused vfs_getDirPathFromId, and the sds functions that only wrap or shorten those modelled.
