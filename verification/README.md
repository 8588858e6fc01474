# micro-rustscript: the REPL protocol and the firmware's storage, verified

micro-rustscript runs RustScript snippets on a microcontroller. A host session compiles a snippet, serialises its
locals, frames both over a serial line that also carries log text, lets the device run the program, and takes the new
locals back. Around that sit the script image in flash, the factory file that carries it, and the allocator of the
firmware. This project models that code in Dafny and proves what it is for.

Check everything with `dafny verify dfyconfig.toml`.

## Files

| file | contents |
|---|---|
| `Results.dfy`, `Bytes.dfy`, `Text.dfy`, `Names.dfy` | result types; machine words and little-endian layouts; white space; the order of a sorted map |
| `ShiftRegister.dfy`, `Crc.dfy` | the CRC as a bit-serial shift register; the branch-free CRC, the table algorithm, the request checksum |
| `Divisors.dfy`, `PolynomialOrder.dfy`, `Damage.dfy` | division and common divisors; the powers of x modulo the CRC polynomial; which damage the CRC reports |
| `Wire.dfy`, `WireTheorems.dfy`, `WireLimits.dfy`, `Utf8Text.dfy`, `WireCodec.dfy` | the tagged value format; its theorems; what is encoded and what is refused; well-formed text; the encoder and decoder as classes |
| `Frames.dfy`, `Transport.dfy`, `Leftovers.dfy` | frames and the naive search for a response; the client's sliding window, push-back queue and direct payload read; responses that arrive too late |
| `Embedded.dfy`, `Runs.dfy`, `Device.dfy`, `Service.dfy` | one run on the device; what its answer says of the run; the device's frame loop; what it does with a client's frames |
| `MoveScanner.dfy`, `ReplLexer.dfy`, `Pieces.dfy` | the pass over program bytes for moved locals; completeness of a snippet, character by character and piece by piece |
| `Session.dfy`, `SessionTheorems.dfy`, `EndToEnd.dfy`, `LocalMeaning.dfy` | the session; what it plans, accepts and saves; the session over the line against a local one; the local one in terms of compiler and machine alone |
| `FirmwareImage.dfy`, `Flash.dfy`, `FactoryImage.dfy`, `Allocator.dfy` | script image; interrupted installs; merged factory file; over-aligned allocation |

## How the model is set up

- Source code that changes state step by step is a class or a method with the same fields, loops and branches. Each
  such method is proved equal to a specification function, and the theorems are about those functions.
- The compiler, the program encoder and the virtual machine are other crates. They are function values in the
  datatypes `Session.Toolchain` and `Embedded.Machine`; the theorems hold for every choice of them. Everything a run
  can reach outside the machine is a type parameter, the world.
- Of the compiler it is assumed that debug slots are numbered by one byte, lie below the local count, belong to one
  name each, and that there are at most 256 locals (`Session.Output.SlotsFit`); of the encoder, that the device's
  machine accepts its programs with the same local count (`EndToEnd.Agrees`).
- A serial port has a finite stream still to be read. A read that runs into its end has consumed what was left.
- Floats are 64-bit patterns, which is what the codec carries. Strings on the wire are byte sequences that satisfy the
  well-formedness table of the Unicode Standard. Names and snippets are sequences of code points, whose order is the
  byte order of their UTF-8.
- `usize` is a parameter of the decoder, at least 32 bits; host and device are proved to accept the same bytes.

## Findings

- The encoder does not enforce the decoder's limit of 4096 values. A state or response it produces decodes to what was
  encoded exactly when it holds at most 4096 values, and is refused with `LengthOverflow` otherwise
  (`WireTheorems.StateRoundTrip`, `WireTheorems.ResponseRoundTrip`). One local that holds an array of 4096 elements is
  encoded and refused (`WireTheorems.EncodedButRefused`). When a response is too large in this way, the program has
  already run on the device and the session keeps its old locals (`EndToEnd.RefusedAfterRun`).
- The firmware writes the image header before the payload, so an install cut short can load a payload that was never
  installed. Installing `be f9 8e 24 fe` and losing power right after the header makes every partition load
  `ff ff ff ff ff` (`Flash.TornImageLoads`). An install, once begun, can be cut anywhere without another payload loading
  exactly when no prefix of its payload, filled up with erased bytes, is a different payload with the same checksum
  (`Flash.CleanIffNeverMisleads`). With at most four bytes missing it never happens (`Flash.InterruptedLoads`), and the
  five bytes above show that four is the limit.
- A burst of 32 bits always changes the CRC (`Crc.BurstChangesCrc`); one of 33 bits does not exactly when it spells the
  polynomial (`Damage.EscapingBurst`). The powers of x modulo the polynomial are one exactly at the multiples of 2^32-1
  (`PolynomialOrder.PeriodIff`), so two flipped bits escape exactly at such a distance (`Damage.TwoBitsChangeCrc`):
  never in anything shorter than 512 MiB.
- After evaluations that failed, late answers and cut-off frames stay in the line. As long as the device neither prints
  the magic nor sends it in a payload, none of this can pass for an answer, and a session is the local one but for
  snippets that fail and save nothing (`Leftovers.QuietSessionNeverWrong`).
- The payload of a response is read past the push-back queue. That is safe because the queue holds 0 or 23 bytes at
  the head of the loop and a header takes 24 (`Transport.SerialReplTransport.Hunt`).
- The prelude limit of 65536 bytes is checked only when the window does not hold the magic, so the device output can
  reach 65537 bytes (`Frames.LongestOutput`). It passes the limit exactly when the magic stands right behind 65536 bytes
  with a whole header, and no header up to there matches (`Frames.OutputBeyondLimit`); the call then fails, and the
  output is one byte over, never more, because the magic has no border. When the client gives up, between 4 and 23 bytes
  have left the port that are not part of the device output (`Frames.ScanSound`).
- A request with an empty program or state is refused after its header alone, and its other part is left in the line
  (`Service.EmptyPartRefused`). An encoded state is never empty, so the client sends such a request only for an empty
  program.
- Five of the eighteen tokens that call for a continuation line are redundant (`ReplLexer.FinishedIff`).

## Model

| member | source | states |
|---|---|---|
| EndToEnd.SessionRefines | src/repl_client.rs:226-313 | For every sequence of snippets within the limits, the session over the line returns the same results in order and ends with the same saved locals and the same world as a session that hands its locals straight to the machine |
| EndToEnd.EvalRefines | src/repl_client.rs:226-275 | One snippet within the limits: same result, same saved locals, same world, no byte of the device left unread |
| EndToEnd.EvalNeverWrong | src/repl_client.rs:226-275 | Whatever the sizes, depth or output, with no forged header an evaluation comes out as the local one in result, locals and world, or it fails, saves nothing and leaves the world as it was or as the run leaves it |
| EndToEnd.SessionNeverWrong | src/repl_client.rs:226-313 | With no forged headers, every session over the line is the local session in which some snippets fail with an error and save nothing, having run or not |
| EndToEnd.RefusedBeforeRun | src/repl_client.rs:252-254 | A state too deep, too large or with too many values is refused with the exact error, the program not run and nothing saved |
| EndToEnd.RefusedAfterRun | src/ffi.rs:311-314 | A response too large or with too many values: the program did run, the error is exact, nothing is saved |
| EndToEnd.AnswerHeard | src/repl_client.rs:72-124 | An unforged answer within the prelude limit is delivered whole and the log before it becomes the device output; beyond the limit nothing is delivered |
| EndToEnd.DeviceRuns | src/ffi.rs:266-290 | The device starts the machine from exactly the session's seed, or does not start it when there are too many values |
| EndToEnd.AnswerTakenOver | src/repl_client.rs:255-275 | The client makes of the device's answer what the run itself left, or fails with its locals as they were |
| LocalMeaning.LocalEvalMeans | src/repl_client.rs:226-313 | One evaluation of the local session from the compiler's output and the run alone: the names bound are saved, each with what the machine left in its slot, and no others; the result is the top of the stack after a clean end and the status of the run otherwise; a callable, a wrong number of locals or a bound name without a slot leaves everything as it was, each with its error |
| LocalMeaning.ConvertedSeedStarts | src/ffi.rs:278-287 | The start that evaluation speaks of, every saved value in its slot and null elsewhere, exists: it is the converted seed |
| EndToEnd.QuietIsUnforged | src/repl_client.rs:75-87 | Log text without the four magic bytes cannot forge a header |
| EndToEnd.EvalOnDevice | src/repl_client.rs:226-275 | Session, transport and device run together, the request carried to the device and its answer back: result, locals, world and unread bytes are those of the remote evaluation, and the device has read the whole request |
| EndToEnd.SessionOnDevice | src/repl_client.rs:226-313 | The loop over snippets with all three objects is the remote session that refines the local one |
| Leftovers.StaleIsUnforged | src/repl_client.rs:75-102 | Text without the magic and any number of whole responses to other requests, left in the line, forge no header of the current one |
| Leftovers.QuietIsUnforgedThroughout | src/repl_client.rs:72-124 | If the device neither prints the magic nor sends it in a payload, no header is forged at any point of a session, whatever failed evaluations have cut off and left in the line |
| Leftovers.QuietSessionNeverWrong | src/repl_client.rs:226-313 | Under that condition a session of fewer than 2^32 snippets comes out as the local one but for snippets that fail and save nothing, with no limit assumed on sizes, depth or length of output |
| Leftovers.EarlierResponsesAreStale | src/repl_client.rs:97-102 | What the device answered to any of the previous 4294967294 requests is such a leftover, if its payload and the text behind it hold no magic |
| Frames.ScanSound | src/repl_client.rs:74-108 | From any point of the search: found means first match; giving up and running dry happen only without a match; where each stops and how many bytes were taken |
| Frames.ScanFindsFirst | src/repl_client.rs:74-108 | The search stops at a position exactly when the first header with magic, version and identifier stands there, at most 65536 bytes in |
| Frames.ScanGivesUp | src/repl_client.rs:79-84 | It gives up exactly when 65537 positions hold no match and no header cut short |
| Frames.FirstMatchDecides | src/repl_client.rs:104-124 | The header at the first match alone decides the outcome, whatever fake or stale headers come before it |
| Frames.ReceptionBounds | src/repl_client.rs:79-124 | Device output is a prefix of the stream of at most 65537 bytes; on success exactly prelude, header and payload are taken |
| Frames.LongestOutput | src/repl_client.rs:79-87 | A stream of 65560 bytes on which the device output has 65537 bytes, one more than the limit |
| Frames.OutputBeyondLimit | src/repl_client.rs:79-104 | The device output exceeds 65536 bytes if and only if the magic stands at that position with a whole header behind it and no header up to there matches; it is then 65537 bytes and the call fails |
| Frames.TakenBytesDecide | src/repl_client.rs:72-124 | Two streams that agree on the bytes a call takes give the same outcome, unless it runs into the end: what comes later plays no part |
| Frames.NoBorder | src/repl_client.rs:12-12 | The response magic does not overlap itself |
| Frames.FrameReceived | src/repl_client.rs:109-124 | A response frame behind any log without an earlier match is delivered with its status and payload, or refused when its checksum is not the payload's |
| Frames.HeaderDecides | src/repl_client.rs:104-124 | The first matching header decides: a length over 131072 is refused with nothing more read, a payload cut short ends the stream, and otherwise the checksum decides, each with its device output and bytes taken |
| Frames.DamagedResponseRefused | src/repl_client.rs:117-122 | A response whose payload was hit by a burst of at most 32 bits, or in any two bits, is refused for its checksum |
| Frames.QuietLog | src/repl_client.rs:75-102 | A log without the magic hides nothing even where it touches the frame |
| Frames.StaleFrameIgnored | src/repl_client.rs:97-102 | The header of a response to any of the previous 4294967294 requests is passed over |
| Frames.IdsRepeat | src/repl_client.rs:58-59 | Identifiers are never zero, and two are equal exactly when their indices agree modulo 2^32-1 |
| Frames.HeaderFields | src/repl_client.rs:60-66 | Every field of a header is read back at its offset |
| Frames.RequestLayout | src/repl_client.rs:60-66 | Every byte of a request, with its fields read as little-endian words |
| Frames.ResponseLayout | firmware/script_loader.cpp:273-289 | Every byte of a response |
| Frames.MatchIff | src/repl_client.rs:75-97 | A header matches exactly when the bytes are the magic, version 1 and the identifier |
| Transport.SerialReplTransport.Execute | src/repl_client.rs:46-124 | Oversized requests touch nothing; otherwise exactly the bytes the port takes are written, a partial write or failed flush is an error with nothing read, and else result, device output and bytes consumed are those of the naive search; the identifier advances as soon as a request is within the size limit |
| Transport.SerialReplTransport.Send | src/repl_client.rs:47-71 | The identifier used, the bytes written, and when sending fails |
| Transport.SerialReplTransport.AwaitResponse | src/repl_client.rs:72-124 | From the bytes unread, the outcome, the device output and what is left are those of the naive search |
| Transport.SerialReplTransport.Hunt | src/repl_client.rs:73-124 | The loop with window and push-back queue: output, queue and unread bytes always make up the stream, the queue holds 0 or 23 bytes, and the outcome is that of the naive search |
| Transport.SerialReplTransport.ReadHeader | src/repl_client.rs:89-91 | After a full header the queue is empty, so nothing is skipped by reading the payload from the port |
| Transport.SerialReplTransport.ReadStream | src/repl_client.rs:128-135 | Bytes pushed back come before bytes of the port, and none is lost |
| WireTheorems.StateRoundTrip | src/repl_wire.rs:40-69 | What the state encoder produces decodes to the same locals when they hold at most 4096 values, and to `LengthOverflow` otherwise |
| WireTheorems.ResponseRoundTrip | src/repl_wire.rs:71-112 | The same for responses, counting locals and result together |
| WireTheorems.EncodedButRefused | src/repl_wire.rs:10-69 | One local holding an array of 4096 nulls is encoded and then refused with `LengthOverflow` |
| WireTheorems.StateAcceptedIffEncoded | src/repl_wire.rs:40-69 | The decoder accepts bytes as given locals exactly when the encoder produces those bytes from them and they are within the value limit: the format is canonical |
| WireTheorems.ResponseAcceptedIffEncoded | src/repl_wire.rs:71-112 | The same for responses |
| WireTheorems.StatePrefixCode | src/repl_wire.rs:194-200 | Every strict prefix of an encoded state is refused as too short, every extension within the size limit as trailing data |
| WireTheorems.ResponsePrefixCode | src/repl_wire.rs:194-200 | The same for responses |
| WireTheorems.HeadComplete | src/repl_wire.rs:243-317 | The guards that compare counts with the bytes left never refuse what the encoder wrote |
| WireTheorems.DecodeSound | src/repl_wire.rs:243-317 | Whatever a value decodes to, encoding it gives back exactly the bytes consumed, and the nodes counted are those of the tree |
| WireTheorems.DecodeComplete | src/repl_wire.rs:243-317 | Wherever an encoded value stands, decoding there yields it, unless the node budget runs out |
| WireTheorems.PlatformsAgree | src/repl_wire.rs:230-241 | Host and device accept the same states whatever the width of `usize` |
| WireLimits.EncodesIff | src/repl_wire.rs:122-177 | A value encodes exactly when it is no deeper than 32 collections and its lengths fit 32 bits, to as many bytes as its size; if the lengths fit the error is the depth |
| WireLimits.StateEncodesIff | src/repl_wire.rs:40-48 | Locals encode exactly when none is deeper than 32 and they take at most 131072 bytes; the error is the depth, then the size |
| WireLimits.ResponseEncodesIff | src/repl_wire.rs:71-86 | The same for locals and result together |
| WireLimits.Layout | src/repl_wire.rs:128-177 | The bytes of each kind of value, tag by tag, with words in little-endian order and two's complement |
| WireLimits.ElementsFollow | src/repl_wire.rs:128-177 | Each element of a sequence stands behind the sizes of those before it |
| Wire.FlattenAt | src/repl_wire.rs:165-177 | A map is written key before value, entry by entry |
| Bytes.LittleEndian32 | src/repl_wire.rs:218-228 | Of a word's four bytes the first counts least |
| Bytes.LittleEndian64 | src/repl_wire.rs:256-262 | Of a word's eight bytes the first four count least |
| Bytes.TwosComplement | src/repl_wire.rs:256-262 | A signed word and its bits agree modulo the number of words, in both directions |
| WireLimits.StateFault | src/repl_wire.rs:194-317 | Behind values in order, the first faulty one decides the error: unknown tag, flag above one, ill-formed text, a count beyond the bytes left, or an early end |
| WireLimits.ResponseFlagFault | src/repl_wire.rs:88-112 | A result flag above one is refused with its value |
| WireLimits.StateHeaderFault | src/repl_wire.rs:50-60 | Errors for size, missing or wrong magic, missing or impossible count |
| WireLimits.NestedTooDeep | src/repl_wire.rs:243-247 | More than 32 collections inside one another are refused as too deep |
| Utf8Text.ValidIffWritten | src/repl_wire.rs:276-280 | Text is accepted exactly when it is what a sequence of Unicode scalar values is written as |
| WireCodec.EncodeReplState | src/repl_wire.rs:40-48 | The encoder's loop writes what the format says, or the format's error |
| WireCodec.EncodeReplResponse | src/repl_wire.rs:71-86 | The same for responses |
| WireCodec.DecodeReplState | src/repl_wire.rs:50-69 | The moving decoder returns what the format says. On every input it stays within 4097 calls, its bytes, and reservations no larger than the bytes left; the collections open at once, counted at each reservation and return, never exceed 34; on success the slots reserved are at most the nodes |
| WireCodec.DecodeReplResponse | src/repl_wire.rs:88-112 | The same for responses |
| WireCodec.Encoder.EncodeValue | src/repl_wire.rs:128-177 | The recursive encoder appends exactly the encoding of the value |
| WireCodec.Decoder.DecodeValue | src/repl_wire.rs:243-317 | The recursive decoder moves offset and budget exactly as the specification |
| Crc.BurstChangesCrc | src/repl_client.rs:141-151 | Two messages of equal length that differ only within 32 consecutive bits have different CRCs |
| Crc.WindowChangesCrc | src/repl_client.rs:141-151 | Damage confined to four consecutive bytes changes the CRC |
| Crc.BurstChangesRequest | src/repl_client.rs:137-139 | Such damage in the program alone or in the state alone changes the request checksum |
| Damage.TwoBitsChangeCrc | src/repl_client.rs:141-151 | Two messages that differ in exactly two bits have the same CRC if and only if the bits are a multiple of 2^32-1 apart |
| Damage.DamageChangesRequest | src/repl_client.rs:137-139 | A burst of at most 32 bits or two flipped bits, in the program alone or the state alone, changes the request checksum |
| Damage.EscapingBurst | src/repl_client.rs:141-151 | The bound of 32 bits is tight: a burst of 33 bits, wherever it stands, goes unseen if and only if it spells the polynomial |
| Damage.MisleadingChecksum | src/repl_client.rs:141-151 | Five bytes that have the checksum of five erased ones |
| PolynomialOrder.FullOrder | src/repl_client.rs:141-151 | No power of x below 2^32-1 is one modulo the CRC polynomial |
| PolynomialOrder.PeriodIff | src/repl_client.rs:141-151 | A power of x is one modulo the CRC polynomial if and only if the exponent is a multiple of 2^32-1 |
| Crc.CrcIsAffine | src/repl_client.rs:141-151 | For equal lengths the CRC of the XOR of three messages is the XOR of their CRCs |
| Crc.TableAgrees | firmware/script_loader.cpp:154-164 | The branch-free bitwise CRC is the table-driven algorithm of section 8 of RFC 1952 on every input |
| Damage.CheckValue | src/repl_client.rs:141-151 | The CRC of the nine ASCII digits is the check value 0xcbf43926 |
| Crc.RegisterIsSerial | firmware/script_loader.cpp:154-164 | The word form is the bit-serial shift register |
| Crc.ComputeCrc32 | src/repl_client.rs:141-151 | The two nested loops compute the CRC |
| Crc.HostRequestCrc | src/repl_client.rs:137-139 | The host's rotation gives the request checksum |
| Crc.FirmwareRequestCrc | firmware/script_loader.cpp:303-306 | The firmware's shifts give the same request checksum |
| Crc.RequestBits | src/repl_client.rs:137-139 | Bit by bit, the request checksum is the program's CRC plus the state's CRC rotated by one place |
| ShiftRegister.BurstDetected | src/repl_client.rs:141-151 | A register of 32 bits never loses a difference that entered within 32 steps |
| Embedded.EmbeddedRoundTrip | src/ffi.rs:353-398 | A session value crosses into the machine and back unchanged |
| Embedded.EmbeddedCanonical | src/ffi.rs:353-398 | What comes back from the machine is the value that was there; only callables do not come back |
| Embedded.SetLocalsIsAll | src/ffi.rs:278-287 | With at most 256 locals the eight-bit index loses nothing: the machine starts from exactly the given locals |
| Embedded.RunVmbc | src/ffi.rs:240-323 | Which status is answered for missing arguments and for programs the machine does not accept, both without a run; every reply is one of the device's statuses with a payload the client accepts, and success never comes without one |
| Embedded.ReplRunVmbc | src/ffi.rs:240-323 | The call checks, decodes, sets locals, runs and answers as specified, with the source's error for each failure |
| Runs.CrossingOut | src/ffi.rs:377-398 | A machine value comes out as the session value that is the same element by element, and fails to exactly when a callable stands somewhere in it |
| Runs.CrossingIn | src/ffi.rs:353-374 | A session value goes in as the one machine value that is the same element by element |
| Runs.NotStarted | src/ffi.rs:251-276 | Status -1 without program or state, -2 for a program the machine does not take, -6 for a state that does not decode or has another number of locals; nothing is run and nothing sent |
| Runs.RunAnswered | src/ffi.rs:277-349 | The answer to a program that is started carries its locals and, after a clean end, the top of the stack; its status is 0, -4, -3 or -5 exactly as the run ended; it is -6 without a payload exactly when a callable is among them or they do not encode |
| Runs.AnswerDecodes | src/repl_wire.rs:88-112 | What the client decodes from such an answer is what the run left and returned, or `LengthOverflow` above 4096 values |
| Device.ReplDevice.ServeFrame | firmware/script_loader.cpp:316-377 | One turn of the loop consumes, sends and does what the specification says, on every input, also when the stream ends early or there is no memory for a part |
| Device.ReplDevice.ServeFrames | firmware/script_loader.cpp:308-378 | The loop over waiting frames is the sequence of turns |
| Device.ReplDevice.ReadPayload | firmware/script_loader.cpp:52-66 | However the bytes arrive in chunks, exactly the requested ones are taken |
| Device.ReplDevice.ReadBinary | firmware/script_loader.cpp:257-271 | Without memory nothing is read; otherwise the part is taken whole, or the stream has ended and the timeout is reported |
| Service.RequestServed | firmware/script_loader.cpp:316-377 | Every request of the client with a non-empty program and state passes header and size checks, is consumed to its last byte, and runs the program that was sent; without memory for a part it is refused and not run |
| Service.FrameServed | firmware/script_loader.cpp:335-359 | A well-sized frame for which there is memory is consumed to its last byte also when its checksum is wrong |
| Service.EmptyPartRefused | firmware/script_loader.cpp:337-343 | A request with an empty part is refused after its header alone, and its other part stays in the line |
| Service.BadHeaderRefused | firmware/script_loader.cpp:331-343 | Every header without the magic, version 1 and two lengths above zero and at most 131072 together is refused at once with status -1 and its own identifier, nothing run |
| Service.CutFrameRefused | firmware/script_loader.cpp:344-356 | A frame cut short is reported as a timeout and refused, and less than a header is dropped |
| Service.BackToBack | firmware/script_loader.cpp:311-377 | With memory for each, frames sent without waiting get one response each, in order, under their own identifiers |
| Service.DamagedRequestRefused | firmware/script_loader.cpp:354-359 | A burst of at most 32 bits, or any two flipped bits, in program or state: the program is not run and the client is told |
| Session.SerialReplSession.Eval | src/repl_client.rs:226-275 | Failures before the exchange leave session and line as they were; otherwise result and locals are determined by the plan and what the transport brought back |
| Session.SerialReplSession.Prepare | src/repl_client.rs:226-252 | The part before the exchange touches nothing and gives the plan and the encoded state, or the first error |
| Session.Conclude | src/repl_client.rs:255-275 | Every error other than a device status leaves the locals untouched, and locals change together with an error only for the status the device reported |
| Session.CompileSnippet | src/repl_client.rs:315-345 | Both attempts are made with exactly the saved names, each with its mutability, schema, optional and moved flag; a success of the first attempt is the result, and so is its error behind a semicolon; a success of the attempt with a semicolon comes next; the second error is reported exactly when it is a compile error or a parse error with a code, otherwise the first |
| Session.LocalSchema | src/repl_client.rs:431-455 | A saved local always has a schema: the declared one, else the one of its known type, else the one of its value; it is optional exactly when the compiler says so of its slot |
| Session.SchemaFromValue | src/repl_client.rs:457-470 | The schema of a value admits that value |
| Session.SchemaFromValueType | src/repl_client.rs:472-486 | The schema of a type admits exactly the values of that type; only the unknown type has none |
| Session.SerialReplSession.SeedLocals | src/repl_client.rs:243-249 | The loop over the sorted map fills the seed |
| SessionTheorems.SeedHolds | src/repl_client.rs:243-249 | The seed holds each saved value in its own slot and null elsewhere, or the error names the first saved local the program does not know |
| Names.LessIffBefore | src/repl_client.rs:243-249 | The order of the sorted map: a proper prefix, or the smaller code point at the first difference |
| SessionTheorems.PlanSeed | src/repl_client.rs:226-249 | The plan of every evaluation is seeded that way |
| SessionTheorems.PlanFollowsCompiler | src/repl_client.rs:231-253 | A plan is the compiler's program with its local count, its bindings and the encoder's bytes, and its moves are exactly the saved names whose slot the program moves out of last |
| SessionTheorems.PlanOutcome | src/repl_client.rs:232-252 | Which error keeps a snippet from the device, in order of precedence |
| SessionTheorems.CommitOutcome | src/repl_client.rs:258-275 | A decoded response is accepted if and only if it has as many locals as the program and every bound name has a slot; the status then decides between the result and the device's error; otherwise the error names the counts or the first bound name without a slot |
| SessionTheorems.ConcludeOutcome | src/repl_client.rs:254-275 | The same from the bytes that came back, with the errors for a failed exchange, a failure without a payload and a payload that does not decode |
| SessionTheorems.CommitSaves | src/repl_client.rs:277-313 | After a commit exactly the bound names are saved, each with the value of its slot, the mutability of its last binding, its schema, and the moved flag exactly when it was moved or emptied |
| SessionTheorems.NextCompilerIsTold | src/repl_client.rs:315-331 | After an accepted answer the next compiler hears of exactly the names bound, and of each that it was moved if and only if a clean run moved it out last or it came back emptied |
| SessionTheorems.UntouchedValuesStay | src/repl_client.rs:277-313 | A program that hands its locals back as they were leaves every saved value that is still bound as it was |
| MoveScanner.LocalsMovedByRebinding | src/repl_client.rs:347-429 | The pass over raw bytes reports exactly the names whose last event in the decoded instruction list is a move out |
| MoveScanner.ReportedIffMovedLast | src/repl_client.rs:347-429 | A tracked local is reported if and only if a move out of its slot is followed by no refilling store |
| MoveScanner.RebindingBytes | src/repl_client.rs:371-381 | Load a slot and store it: moved out of exactly when the store goes to another slot, and not when something is stored into the slot again |
| MoveScanner.NullStoreBytes | src/repl_client.rs:383-396 | Load, constant, store: moved out of exactly when the constant is null and the store goes back |
| MoveScanner.DetachBytes | src/repl_client.rs:397-411 | Load, constant, call: moved out of exactly when the constant is the slot's number and the call is the detaching builtin with one argument |
| MoveScanner.MovedStep | src/repl_client.rs:365-426 | The last-event predicate one instruction further |
| MoveScanner.PatternsAgree | src/repl_client.rs:371-411 | Every pattern looked up at fixed byte offsets is the pattern over the next decoded instructions |
| MoveScanner.MarksStep | src/repl_client.rs:415-417 | Every exempted offset is the boundary two instructions after a null-store |
| ReplLexer.IsReplInputComplete | src/repl_client.rs:488-576 | The loop with flags, stack and one character of look-ahead gives the verdict of the one-character-at-a-time machine |
| ReplLexer.CompleteIff | src/repl_client.rs:488-576 | The verdict is true exactly on a mismatch, or when everything is closed, the delimiters are balanced and the code does not ask for more |
| ReplLexer.MismatchIsFinal | src/repl_client.rs:559-561 | A verdict from a mismatch stays for every extension |
| ReplLexer.CompletableIffNoMismatch | src/repl_client.rs:565-567 | Every input without a mismatch, in particular every incomplete one, has a continuation that completes it |
| ReplLexer.HiddenTextIrrelevant | src/repl_client.rs:504-541 | Contents of strings never matter, a block comment may hold anything or be left out, and a line comment is its line end |
| ReplLexer.StringTextIff | src/repl_client.rs:517-526 | The lexer stays in a string exactly over texts whose quotes are all behind an odd number of backslashes and whose end is not |
| ReplLexer.CommentTextIff | src/repl_client.rs:511-516 | It stays in a block comment exactly over texts without an asterisk followed by a slash |
| ReplLexer.LineTextIff | src/repl_client.rs:504-510 | It stays in a line comment exactly over texts without a line end |
| Pieces.InPieces | src/repl_client.rs:503-564 | Every input can be read as characters of code, strings and comments, with at most one of them left open at the end |
| Pieces.VerdictOfPieces | src/repl_client.rs:503-576 | However an input is read that way, the verdict is true exactly when nothing can balance the delimiters outside strings and comments any more, or no string or block comment is open, they are balanced and the last token does not ask for more |
| Pieces.Pairs | src/repl_client.rs:546-562 | The three pairs of delimiters and no others |
| ReplLexer.NothingOpenIffBalanced | src/repl_client.rs:546-561 | The stack ends empty without a mismatch exactly for balanced words |
| ReplLexer.FinishedIff | src/repl_client.rs:568-575 | Thirteen of the eighteen continuation tokens decide |
| FirmwareImage.LoadsIffPacked | scripts/vmbc_image.py:28-36 | The firmware loads a payload exactly when its packed image stands at the start of the partition and fits |
| FirmwareImage.LoadOfImage | firmware/script_loader.cpp:198-224 | Behind a header with the payload's length the checksum alone decides |
| FirmwareImage.PackVmbc | scripts/vmbc_image.py:28-36 | Packing succeeds exactly when the payload is not empty, its length fits 32 bits and the image fits the partition; each failure has its error, in this order |
| FirmwareImage.PackedFields | scripts/vmbc_image.py:28-36 | Every byte of a packed image: magic, version 1, length and checksum as little-endian words, and the payload |
| Flash.ScriptPartition.Install | firmware/script_loader.cpp:226-240 | With the power failing after any number of steps, the partition is what that many steps of erase, header and payload leave |
| Flash.ScriptPartition.LoadPartition | firmware/script_loader.cpp:198-224 | Loading returns the payload that header and checksum admit |
| Flash.FitsIffPacks | firmware/script_loader.cpp:226-231 | The firmware installs exactly the payloads of which the packer makes an image that fits the partition |
| Flash.InterruptedLoads | firmware/script_loader.cpp:198-240 | After an interrupted install: the old image only if erasing had not begun; nothing while erasing; then nothing or bytes of the new length and checksum; exactly the new image or nothing with at most four bytes missing; the new image when complete |
| Flash.TornImageLoads | firmware/script_loader.cpp:226-240 | A payload of five bytes that, cut off right after its header, loads as five others on every partition |
| Flash.CleanIffNeverMisleads | firmware/script_loader.cpp:198-240 | Every interruption leaves nothing or the payload to load if and only if no torn form of the payload has its checksum |
| Flash.HistoryLoads | firmware/script_loader.cpp:198-240 | After any history of installs, complete or not, what loads was there before or has length and checksum of one of the attempts |
| FactoryImage.MergeFirmware | scripts/merge_firmware.py:15-43 | Sorting, checks and padding in chunks give the merged file, or the first missing or overlapping image |
| FactoryImage.MergesIffDisjoint | scripts/merge_firmware.py:20-43 | Merging succeeds exactly when all files are there and no two images share a byte; then each stands at its offset, padding is everywhere else, and the file ends with an image |
| FactoryImage.MergeErrors | scripts/merge_firmware.py:20-43 | A missing file is reported before any overlap and is one that goes lowest; an overlap names an image that starts before the end of another or before zero |
| FactoryImage.FactoryScriptLoads | scripts/merge_firmware.py:32-43 | A chip flashed with the merged file loads the payload that was packed into the script partition |
| Allocator.AlignedUp | firmware/main.cpp:26-27 | The masked sum is the least multiple of the alignment at or after the start, and nothing wraps |
| Allocator.PowerOfTwoCheck | firmware/main.cpp:13-15 | The bit test singles out the powers of two |
| Allocator.MaskRoundsDown | firmware/main.cpp:27-27 | Masking with the complement rounds down, at every word width |
| Allocator.Heap.Alloc | firmware/main.cpp:12-30 | A pointer is aligned, its block and hidden slot lie inside the raw block, and no other block or slot changes; the C library is asked exactly when the size is not zero, the alignment is a power of two and the sum fits, for exactly that sum, and null comes back only without asking or when it fails |
| Allocator.Heap.Dealloc | firmware/main.cpp:32-41 | Exactly the raw address the C library gave is freed |
| Allocator.Heap.Run | firmware/main.cpp:12-41 | Over every sequence of allocations, releases and writes by owners, the live blocks are exactly the handles held, all invariants kept |
| Allocator.PointersApart | firmware/main.cpp:12-30 | Blocks and hidden slots of different pointers share no byte |

## Left out

- The RustScript compiler, the program encoding and the opcodes: not part of this model, see above. The move scanner is
  compared with an instruction list, not with control flow, since it is a linear pass.
- EndToEnd.EvalOnDevice: host and device take turns: the request is carried over when it is complete, the device then
  runs until it waits again, and the client reads. The device has memory for the frame and no line is cut.
- Session.SerialReplSession.Eval: takes the serial transport, not any implementation of the transport trait.
- Failed memory reservations in the decoder and in the virtual machine.
- Device.ReplDevice.ServeFrame: timing; a read fails only when the stream has ended, how much is discarded until the
  line is quiet is arbitrary, and the device's own writes do not fail.
- Device.ReplDevice.ServeFrames: the text commands of the loop; the model stops at a first byte that starts no frame.
- Embedded.ReplRunVmbc: null pointers, ownership of buffers, and the fuel and host callback, which are part of the
  machine.
- Value maps of the virtual machine: taken to keep their list of entries, as the conversion does.
- What becomes of a saved `moved` flag in later snippets beyond handing it to the compiler: it is recomputed from the
  current snippet.
- Flash.ScriptPartition.Install: a sector is erased in one step and the header is written in one step; driver errors are
  power failures; the partition is a positive number of whole sectors.
- FactoryImage.MergeFirmware: the unfinished file left behind by an overlap, path resolution, and parsing of offsets.
- Allocator.Heap.Alloc: addresses have 32 bits and the C library never touches a live block.
- SD card loading, partition tables, the Wi-Fi, Bluetooth, GPIO and I2C bridges, display of errors and values: hardware
  or plumbing that would only add easy members.
