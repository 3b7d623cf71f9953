# Byte-order codec

A Dafny model of the byte-order codec in `openssl_includes/openssl/byteorder.h`: the
twelve functions `OPENSSL_store_u{16,32,64}_{le,be}` and
`OPENSSL_load_u{16,32,64}_{le,be}`, both bodies of each, and the platform section
that decides which body is compiled and what its macros mean.

`dafny verify dfyconfig.toml` checks everything.

## How it is modelled

- **Memory** is one `array<Byte>`; a pointer is an offset into it. A store moves
  `p` as `*out++` does. A load takes the offset `val` of an integer *in the same
  memory* and writes through it in the machine's own layout, so source and
  destination may overlap.
- **A build** is a set of predefined compiler macros and the byte order of the
  machine (`Platform.Build`). `Platform.Select` is the `#if` ladder,
  `Platform.Define` the macro table. The system macros (`htobe16`, `be16toh`,
  `OSSwapHostToBigInt16`, ...) are taken by their definition: swap unless the
  machine already has the order wanted. MSVC's macros swap, or do not, whatever
  the machine.
- **C's bit operators** are defined bit by bit over the naturals (`Bits`), with
  the width of the type where a shift could lose bits.
- **The reference** is base-256 positional notation, for any width (`Positional`).
  Nothing in it mentions shifts, masks, macros or native integers.
- **Callers** (`Client`, `Machine`, `Portability`, `Interpreter`, `Distributed`) stand for code
  that uses the functions: they pass on the returned cursor, run any sequence of
  calls, or are arbitrary programs. They are not part of the header.

## What turned out

- MSVC's branch (lines 23-39) assumes a little-endian machine. On a big-endian
  one every one of the twelve functions uses the *opposite* byte order; that is
  `Build.Faithful` being false. The contracts of the functions do not exclude such
  builds: they say which order is really used (`Build.WireOrder`). The laws that
  fail for them are stated with their exact condition, on the builds and on the
  values or bytes that go in. Two builds exchange all records exactly if both or
  neither are faithful, and one record exactly if they match or all its values are
  their own byte swaps. Wide stores, and wide loads, are chains of narrow ones
  exactly on faithful builds, and for one record or buffer also if its 16-bit
  pieces read the same both ways. Stored keys sort like their values exactly if
  every field goes onto the wire big-endian.
- `OPENSSL_store_u64_be` tests `OSSL_HTOLE64` but uses `OSSL_HTOBE64` (lines
  182-183), and the three big-endian loads test the little-endian macros (lines
  221, 259, 304). The model tests what the code tests. This is harmless because
  the macros are defined all together or not at all.
- A glibc older than 2.19, or one without `_DEFAULT_SOURCE`, ends the ladder
  without defining anything and gets the portable bodies (lines 41-56).

## Files

`Arithmetic`, `Bits`, `Positional`: numbers, bits, digits. `ShiftMask`: what the
shift-and-mask expressions compute. `Platform`: builds and macros. `Memory`,
`ByteOrder`: the twelve functions. `Records`, `KeyOrder`, `Narrowing`: lists of
fields. `Overwrites`, `Machine`: runs of calls at arbitrary places. `Client`:
callers proved against those functions. `Portability`, `Interpreter`, `Distributed`:
programs.

## Model

| member | source | states |
|---|---|---|
| ByteOrder.StoreU16Le | openssl_includes/openssl/byteorder.h:94-107 | either body leaves the two wire bytes at `out`, on a faithful build the little-endian ones, all other bytes as they were, and returns `out + 2` |
| ByteOrder.StoreU16Be | openssl_includes/openssl/byteorder.h:109-122 | the same, big-endian |
| ByteOrder.StoreU32Le | openssl_includes/openssl/byteorder.h:124-139 | the same, four bytes little-endian |
| ByteOrder.StoreU32Be | openssl_includes/openssl/byteorder.h:141-156 | the same, four bytes big-endian |
| ByteOrder.StoreU64Le | openssl_includes/openssl/byteorder.h:158-177 | the same, eight bytes little-endian |
| ByteOrder.StoreU64Be | openssl_includes/openssl/byteorder.h:179-198 | the same, eight bytes big-endian, behind the little-endian guard |
| ByteOrder.LoadU16Le | openssl_includes/openssl/byteorder.h:200-216 | either body writes to `val` the integer that the two bytes at `src` held before the call, on a faithful build read little-endian, nothing else, and returns `src + 2` |
| ByteOrder.LoadU16Be | openssl_includes/openssl/byteorder.h:218-234 | the same, big-endian, behind the little-endian guard |
| ByteOrder.LoadU32Le | openssl_includes/openssl/byteorder.h:236-254 | the same, four bytes little-endian |
| ByteOrder.LoadU32Be | openssl_includes/openssl/byteorder.h:256-274 | the same, four bytes big-endian |
| ByteOrder.LoadU64Le | openssl_includes/openssl/byteorder.h:276-299 | the same, eight bytes little-endian |
| ByteOrder.LoadU64Be | openssl_includes/openssl/byteorder.h:301-324 | the same, eight bytes big-endian |
| ByteOrder.LoadedValue | openssl_includes/openssl/byteorder.h:200-324 | after a load the integer at `val`, read natively, is the value of the source bytes before the call, even if the two overlap |
| Platform.GlibcHasEndian | openssl_includes/openssl/byteorder.h:42 | the version test is "2.19 or later" |
| Platform.Select | openssl_includes/openssl/byteorder.h:23-92 | exactly which compilations take each branch, and exactly which get no macros |
| Platform.Build.Defined | openssl_includes/openssl/byteorder.h:182-304 | whether a macro is defined does not depend on the macro, so guards that test another macro than the one used are sound |
| Platform.Build.Faithful | openssl_includes/openssl/byteorder.h:23-39 | the only unfaithful builds are MSVC 1300 or later on a big-endian machine |
| Platform.MacrosInvert | openssl_includes/openssl/byteorder.h:28-90 | every host-to-wire macro and its wire-to-host partner undo each other, in both directions, on every machine |
| Platform.FastStoreWire | openssl_includes/openssl/byteorder.h:97-101 | macro and memcpy together emit the digits of the value in the build's wire order, on every platform and machine |
| Platform.FastLoadUnwire | openssl_includes/openssl/byteorder.h:203-208 | memcpy and macro together decode the bytes in the build's wire order |
| Platform.WireDigit | openssl_includes/openssl/byteorder.h:94-198 | byte i of a faithful little-endian store, and byte i from the end of a big-endian one, is the quotient of the value by 256^i modulo 256; mirrored on unfaithful builds |
| Platform.UnwireSum | openssl_includes/openssl/byteorder.h:200-324 | a faithful little-endian load is the sum of byte i times 256^i, a big-endian one that of the mirrored bytes; the other way round on unfaithful builds |
| Platform.StoresAgreeIff | openssl_includes/openssl/byteorder.h:94-198 | two builds, fast or portable, store all values alike exactly if both or neither are faithful |
| Platform.LoadsAgreeIff | openssl_includes/openssl/byteorder.h:200-324 | the same for loading all byte strings |
| ShiftMask.ExtractedByte | openssl_includes/openssl/byteorder.h:167-174 | `(val >> 8*i) & 0xff` is the base-256 digit of weight 256^i |
| ShiftMask.Extracted8 | openssl_includes/openssl/byteorder.h:188-195 | the eight expressions of a 64-bit store, in either order, are its encoding |
| ShiftMask.JoinByte | openssl_includes/openssl/byteorder.h:251 | shifting one more byte in loses no bit, meets no bit already set, and so ORing it adds it |
| ShiftMask.TermsDisjoint | openssl_includes/openssl/byteorder.h:295-296 | any two ORed terms of a load have no bit in common |
| ShiftMask.OrShiftedIsValue | openssl_includes/openssl/byteorder.h:285-297 | the OR of the shifted bytes is their positional value and fits the width |
| ShiftMask.OrShiftedIsPositionalSum | openssl_includes/openssl/byteorder.h:285-297 | that value is the sum of byte i times 256^i |
| ShiftMask.Assembled8 | openssl_includes/openssl/byteorder.h:295-296 | the eight-term load expression as written has the positional value of its bytes |
| Positional.DigitAt | openssl_includes/openssl/byteorder.h:166-175 | digit i of a value is its quotient by 256^i modulo 256 |
| Positional.DecodeEncode | openssl_includes/openssl/byteorder.h:94-324 | encoding then decoding gives back exactly the values that fit the width |
| Positional.EncodeDecode | openssl_includes/openssl/byteorder.h:94-324 | decoding then encoding gives back every byte string |
| Positional.EndianDuality | openssl_includes/openssl/byteorder.h:109-122 | encoding big-endian is reversing the little-endian bytes, and decoding likewise |
| Positional.BigEndianOrder | openssl_includes/openssl/byteorder.h:188-196 | big-endian strings of one width compare in dictionary order exactly like their values |
| Positional.LexLessIff | openssl_includes/openssl/byteorder.h:109-198 | the dictionary order used for stored keys is decided at the first position where two strings differ |
| Records.SymmetricIff | openssl_includes/openssl/byteorder.h:94-198 | the bytes a field is stored as are a palindrome, on any build, exactly if its value is its own byte swap |
| Records.FieldAcrossBuilds | openssl_includes/openssl/byteorder.h:23-324 | a field stored by one build and loaded by another survives exactly if the builds match or its value is its own byte swap |
| Records.RecordAcrossBuilds | openssl_includes/openssl/byteorder.h:23-324 | the same for records of any length and any mix of widths and orders |
| Records.InteroperableIff | openssl_includes/openssl/byteorder.h:23-324 | two builds exchange all records exactly if both or neither are faithful |
| Records.RecordRoundTrip | openssl_includes/openssl/byteorder.h:94-324 | within one build every record of valid fields loads as it was stored |
| Records.BufferRoundTrip | openssl_includes/openssl/byteorder.h:94-324 | loading any buffer by a shape gives valid fields of that shape, and storing them reproduces the buffer |
| Records.EncodingInjective | openssl_includes/openssl/byteorder.h:94-198 | records of one shape with equal bytes are equal |
| Records.ShapeBijection | openssl_includes/openssl/byteorder.h:94-324 | every byte string of a shape's width encodes exactly one record of that shape |
| KeyOrder.BigRecordsOrdered | openssl_includes/openssl/byteorder.h:109-198 | records stored big-endian throughout compare byte by byte like their value lists |
| KeyOrder.LittleFieldMisorders | openssl_includes/openssl/byteorder.h:94-177 | a shape with a field stored little-endian has two records that compare the wrong way round |
| KeyOrder.OrderPreservedIff | openssl_includes/openssl/byteorder.h:94-198 | byte order is value order for exactly the shapes stored big-endian throughout |
| Narrowing.WideIsTwoHalves | openssl_includes/openssl/byteorder.h:124-198 | a wide store is two stores of half the width: low half first if little-endian, high half first if big-endian, and the other way round on an unfaithful build |
| Narrowing.WideIsLowAndHigh | openssl_includes/openssl/byteorder.h:124-198 | the same in plain numbers: the store of v modulo 256^h and that of v divided by 256^h, low first exactly if the function is little-endian and the build faithful, or neither |
| Narrowing.NarrowFieldBytes | openssl_includes/openssl/byteorder.h:94-198 | a store of any width leaves the bytes of its chain of 16-bit stores, on an unfaithful build of the chain backwards |
| Narrowing.NarrowFieldFits | openssl_includes/openssl/byteorder.h:94-198 | the chain that replaces a field consists of 16-bit fields of the same byte order with values that fit, and its shape does not depend on the value |
| Narrowing.NarrowRecordBytes | openssl_includes/openssl/byteorder.h:94-198 | on a faithful build replacing every wide store of a record by its chain of 16-bit stores leaves the same bytes |
| Narrowing.NarrowRecordIff | openssl_includes/openssl/byteorder.h:23-198 | for one record on any build: exactly on a faithful build, or if the 16-bit pieces of every value read the same both ways |
| Narrowing.SymmetricPiecesIff | openssl_includes/openssl/byteorder.h:94-198 | the 16-bit pieces of a value read the same both ways exactly if the 16-bit units of its stored bytes do |
| Narrowing.PiecesLoadedIffStored | openssl_includes/openssl/byteorder.h:94-324 | loading a buffer in pieces gives the pieces of the wide loads exactly when storing in pieces would have left that buffer |
| Narrowing.NarrowLoads | openssl_includes/openssl/byteorder.h:200-324 | loading a buffer in 16-bit pieces gives the 16-bit pieces of what the wide loads give, exactly on a faithful build or if the buffer's bytes are symmetric in units of 16 bits |
| Narrowing.NarrowLoadsIff | openssl_includes/openssl/byteorder.h:23-324 | this holds for all shapes and buffers exactly on the faithful builds |
| Narrowing.UnfaithfulMisordersHalves | openssl_includes/openssl/byteorder.h:28-36 | on an unfaithful build the 32-bit 1, in either order, is a record for which the chain of 16-bit stores and the chain of 16-bit loads both go wrong |
| Narrowing.NarrowingSoundIff | openssl_includes/openssl/byteorder.h:23-198 | the replacement is sound for all records exactly on the faithful builds |
| Overwrites.LastWriterWins | openssl_includes/openssl/byteorder.h:94-198 | after any run of writes each byte is the one the latest write over it put there |
| Overwrites.HeldIff | openssl_includes/openssl/byteorder.h:94-198 | memory still holds a write's bytes exactly if the latest writers over them wrote the same |
| Overwrites.SameStoresSameMemory | openssl_includes/openssl/byteorder.h:94-198 | runs of the same writes, which agree wherever they overlap, end in the same memory, in any order and with repetitions |
| Overwrites.CommuteIff | openssl_includes/openssl/byteorder.h:94-198 | two writes commute on every memory exactly if they agree where they overlap |
| Overwrites.DisjointIff | openssl_includes/openssl/byteorder.h:94-198 | non-empty writes are disjoint exactly if no byte is covered by both |
| Machine.ApartIff | openssl_includes/openssl/byteorder.h:94-324 | two calls are apart exactly if they write no byte in common |
| Machine.InBoundsIff | openssl_includes/openssl/byteorder.h:94-324 | a call is in bounds exactly if its value fits and every byte it reads or writes lies in the memory |
| Machine.ExecIsRun | openssl_includes/openssl/byteorder.h:94-324 | a run of calls is the run of the writes it performs |
| Machine.LatestCallWins | openssl_includes/openssl/byteorder.h:94-324 | after any run of stores and loads each byte is the one the latest call over it wrote, or the original one |
| Machine.FoundAfterRunIff | openssl_includes/openssl/byteorder.h:94-324 | after any run the value a call stored or loaded is still found exactly if its bytes are intact |
| Machine.FoundIfUntouched | openssl_includes/openssl/byteorder.h:94-324 | in particular if no later call's range meets its own |
| Machine.StoresCommute | openssl_includes/openssl/byteorder.h:94-198 | stores of pairwise disjoint ranges leave the same memory in every order |
| Client.StoreRecord | openssl_includes/openssl/byteorder.h:94-198 | storing a record by passing on the cursor writes its encoding, nothing else, and ends behind it |
| Records.MaxWidthAttained | openssl_includes/openssl/byteorder.h:200-324 | the width required of the integer a record is loaded through is that of its widest field, and no more |
| Client.LoadRecord | openssl_includes/openssl/byteorder.h:200-324 | loading a record by passing on the cursor, through a local integer as wide as its widest field, gives the decoded values, ends behind the record, and changes only the local integer |
| Client.Exchange | openssl_includes/openssl/byteorder.h:23-324 | one build stores a record in memory and another loads it: which values arrive, exactly when they are those stored, what the record's memory holds, where both cursors end, what stays unchanged |
| Client.RunCalls | openssl_includes/openssl/byteorder.h:94-324 | calling the twelve functions in any sequence leaves the memory of `Machine.Exec` |
| Client.RunAndFind | openssl_includes/openssl/byteorder.h:94-324 | after calling any sequence, loading what call k stored, or reading what it loaded, gives that value exactly if its bytes are intact |
| Portability.SendIsStore | openssl_includes/openssl/byteorder.h:94-198 | a program's send leaves the codec's bytes of the slot's integer and changes nothing else |
| Portability.ReceiveIsLoad | openssl_includes/openssl/byteorder.h:200-324 | a program's receive gives it the codec's value of the bytes, puts that in the slot, and changes nothing else |
| Interpreter.Perform | openssl_includes/openssl/byteorder.h:94-324 | calling the function that a step names ends in the memory of the model's step |
| Interpreter.RunProgram | openssl_includes/openssl/byteorder.h:94-324 | running a program by calling the twelve functions ends in the state of `Portability.Execute` |
| Portability.ExecuteFollows | openssl_includes/openssl/byteorder.h:94-324 | a run takes every step of the program and stops only after the given number, at the program's end, or at an improper step |
| Portability.RunExists | openssl_includes/openssl/byteorder.h:94-324 | from every state there is such a run |
| Portability.StepRefines | openssl_includes/openssl/byteorder.h:94-324 | a step of a program on any build, with native integers in memory, is the same step of an ideal machine that has integers instead of slots; both accept the same steps |
| Portability.ExecuteRefines | openssl_includes/openssl/byteorder.h:94-324 | whole runs of any program on any build refine the ideal machine |
| Portability.MatchingBuildsBehaveAlike | openssl_includes/openssl/byteorder.h:23-324 | on matching builds every program, started on the same shared bytes, leaves the same shared bytes and sees the same values after any number of steps |
| Portability.IndistinguishableIff | openssl_includes/openssl/byteorder.h:23-324 | no program can tell two builds apart exactly if both or neither are faithful |
| Portability.LoadedBytesAgreeIff | openssl_includes/openssl/byteorder.h:207-242 | what a load itself writes agrees between matching builds exactly if the machines do or the source bytes are a palindrome |
| Distributed.TurnLeavesOthers | openssl_includes/openssl/byteorder.h:94-324 | a turn leaves every other process as it was |
| Distributed.TurnIsStep | openssl_includes/openssl/byteorder.h:94-324 | a turn is the next step of the program whose turn it is, on its own machine; without one nothing changes, and an improper one only stops that program |
| Distributed.PlayConcat | openssl_includes/openssl/byteorder.h:94-324 | a schedule is its first part followed by its second |
| Distributed.Delivery | openssl_includes/openssl/byteorder.h:23-324 | among any programs, a value of any shape that one sends and another then receives arrives exactly if their builds match or it is its own byte swap |
| Distributed.TurnRefines | openssl_includes/openssl/byteorder.h:23-324 | a turn of one of several programs, each on its own build, is the same turn of the ideal system |
| Distributed.PlayRefines | openssl_includes/openssl/byteorder.h:23-324 | under every schedule the real system refines the ideal one |
| Distributed.MachinesDoNotMatter | openssl_includes/openssl/byteorder.h:23-324 | under every schedule the shared bytes, and what each program sees and does, do not depend on which of several matching machines the programs run on |
| Distributed.InterchangeableIff | openssl_includes/openssl/byteorder.h:23-324 | for two lists of builds no programs, start or schedule make a difference exactly if the lists match pointwise |

## Left out

- C's alignment, strict-aliasing and object-bounds rules: a call that stays inside the memory is assumed to be allowed.
- The system byte-swap macros and compiler intrinsics are taken by their documented meaning; how they are implemented is not modelled.
- Integer promotion: `val` of type `uint16_t` is promoted to `int`; the model computes with naturals and truncates where the code assigns to a narrower type. No intermediate value of the codec reaches the sign bit of `int`.
- The local integer that `Client.LoadRecord` loads into is a place in the same memory outside the record, where a C local variable would be.
- Programs that share memory alternate between whole calls; calls whose byte accesses interleave are not modelled, as the codec has no synchronisation.
- `openssl_includes/openssl/e_os2.h` (`ossl_inline`, `ossl_unused`) and all other OpenSSL headers: declarations, constant tables and macro wrappers around code that is not part of this model.
- `sqlcipher`, `src`, `lib`, the sample programs and build files: not part of this model; nothing in them includes the header.
