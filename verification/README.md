# Models of eight components, and what is proved of them

The repository is a collection of independent command-line and server tools. Eight of its files hold
hand-written codecs, protocol engines and algorithms rather than calls into libraries. This project
models those eight and proves that they keep what they are there for: that what is written can be read
back, that a parser does not care how its input is cut up, that a protocol run stays within its bounds,
that a search finds a cycle exactly when there is one, and that a store keeps its invariants whatever
calls it gets.

Each component is given twice. A function says what the code computes from a buffer and an offset, or
what one step does to a state; the lemmas are about that function. Where the source advances a cursor,
fills an array, or updates fields, a method or a class does the same in loops, and its contract says that
it ends exactly as the function does. Theorems that compare two functions say nothing about a step both
share, so `CborValues`, `AvroValues` and `CommunityCalls` also say what comes out in terms of the bytes, the
value or the state alone.

| component | source | files |
|---|---|---|
| CBOR encoder, decoder and inspector (RFC 8949) | `lib/cborClientOps.js` | `CborWire`, `CborEncoder`, `CborDecoder`, `CborProofs`, `CborTheorems`, `CborAcceptance`, `CborValues`, `CborInspector`, `CborEndless`, `CborInspectorEndless` |
| Avro values, container files and schema fingerprint | `lib/avroClientOps.js` | `AvroVarint`, `AvroCodec`, `AvroReader`, `AvroWire`, `AvroTheorems`, `AvroValues`, `AvroContainer`, `AvroFingerprint` |
| Import-cycle detection | `lib/circularDepsOps.js` | `CircularDeps` |
| CoAP packets and exchange (RFC 7252) | `lib/coapClientOps.js` | `CoapPacket`, `CoapTheorems`, `CoapExchange` |
| AMQP 0-9-1 framing, mailbox and content | `lib/amqpClientOps.js` | `AmqpFrames`, `AmqpMailbox`, `AmqpContent` |
| Cassandra frames and stream ids | `lib/cassandraClientOps.js` | `Cassandra` |
| Community sessions, messages and rooms | `lib/communityOps.js` | `CommunityStore`, `CommunityTheorems`, `CommunityHistory`, `CommunityReading`, `CommunityCalls`, `Community` |
| Base62 | `lib/base62Ops.js` | `Base62` |

`Bytes`, `Doubles`, `Utf8`, `Objects`, `Sorting`, `Lists` and `Framing` hold what several of them share. `dafny verify dfyconfig.toml`
checks everything.

## How the components are modelled

**CBOR.** A wire item is an encoded item in any form the decoder reads: every head width, strings whole or
in chunks, arrays and maps of definite or indefinite length. One lemma (`CborProofs.ItemReads`) says what
the decoder does wherever such an item stands; `CborAcceptance.AcceptsExactlyItems` is its converse, so
the decoder accepts these items and nothing else. Round trip, form independence and the inspector's
agreement follow from it. `CborValues` reads the meaning off the bytes: integers, strings, halves, tags, and
the object that the keys and values of a map make. A string is given by its UTF-8 form; `Utf8` says what the runtime reads from
bytes that need not be well formed (Unicode, section 3.9: each maximal part of a character becomes U+FFFD),
and `Doubles` what it rounds a whole number to. A half is a sign and a real amount; longer floats are their
bytes. `String(key)` of a decoded map key
is a parameter, required to be the identity on text where it matters.

**Avro.** Wire forms play the same part, with arrays and maps cut into blocks in any way. The normal form
(`AvroCodec.Norm`) is the value that decoding gives back: coerced to the schema, defaults filled in, unions
tagged with the branch written. `AvroValues` says for each kind of value what that is. The conversions of the language's runtime on values of the wrong kind
(`Number(x)`, `String(x)`, base64, the IEEE 754 images of a number) are parameters, so the theorems hold
for whatever they do. JSON parsing of a schema and inflation of a block are parameters of the container
reader.

**Cycles.** The detector runs over any finite graph; the vertex set's sorted, joined name is an arbitrary
function of the set, of which the file names joined by the separator are one. The class carries, for the
proof, the discovery times, the order of finishing and every cycle met.

**CoAP exchange.** The events are a retry timer, the master timer, a datagram, a failed send and a socket
error, each with a time; a timer may fire late but not early, and datagrams and socket errors come only
while the socket is open. Every sequence of events is a run.

**AMQP and Cassandra.** `Framing` treats any frame format whose verdict on a prefix is not changed by what
follows. For the mailbox, a request for a frame is a number and its promise an entry in a table. For
Cassandra likewise; decoding of a response body is a parameter.

**Community.** Maps are lists in insertion order. Each call takes the time as a parameter, and the clock
may even run backwards. `CommunityCalls` says of each call when it is refused and with which error, and
otherwise what exactly it changes.

## Where the code differs from what one would expect

Each of these is a branch of the code that the models keep; the lemma named states exactly when it matters.

- A chunk of an indefinite CBOR string whose head has additional information 31, which RFC 8949 (section
  3.2.3) does not allow, makes the decoder step back and read the same byte again without end. The model
  ends there with the error `Endless`. `CborEndless.EndlessIff` says for every buffer, at any nesting, when
  that happens, `CborEndless.ChunksEndlessIff` for one string, and `CborEndless.TwoHeads` gives the shortest
  inputs. For the inspector, which passes over more, `CborInspectorEndless.LostIff` gives the condition and
  `CborInspectorEndless.InspectorEndlessIff` that for one string; it does not come back wherever the decoder
  does not, and in other places too (`CborInspectorEndless.InspectorLostToo`, `InspectorLostAlone`).
- Each chunk of an indefinite CBOR text string is read as UTF-8 by itself, so a character cut by two chunks
  is lost although the text as a whole is well formed (`CborTheorems.ChunkedTextIff`,
  `CborTheorems.WholeCharacters`; `CborTheorems.CutInsideCharacter` gives the bytes).
- An integer-valued number below -2^53 comes back from CBOR one off, down to -2^64
  (`CborTheorems.NegativesOneOff`), and of larger magnitudes only the low 64 bits are written
  (`CborTheorems.AmountKeptIff`: exactly from -2^53 to 2^64 - 1 does the amount come back).
- The CBOR inspector reports too few bytes for strings whose chunk heads have length bytes, and for
  indefinite groups it does not expand (`CborInspector.InspectedSize`: the size is right exactly when
  neither occurs in the node, tags aside, whose size is taken from the cursor).
- The CBOR decoder counts map keys and tagged bignums as elements, the encoder does not
  (`CborTheorems.DecoderCount`, `CborTheorems.DecoderHeight`), so near the limits an encoding can be one the
  decoder refuses; `CborTheorems.RoundTrip` says exactly which.
- The Avro encoder takes NaN for an enum without symbols, which cannot be read back
  (`AvroTheorems.EnumReadable`).
- The schema fingerprint mixes in a polynomial other than that of the Avro specification ("Schema
  Fingerprints"), which uses the starting number itself (`AvroFingerprint.StepNumber`, `EmptyNumber`).
- A CoAP token of more than eight bytes is written with a wrong length nibble
  (`CoapTheorems.RoundTrip`), and a packet that ends inside its last option is accepted with that option cut
  short (`CoapTheorems.Rebuild`). An option value that is negative or a fraction is written as another number
  (`CoapPacket.NumberValue`: of those written exactly the whole numbers from 0 come back).
- An AMQP publisher sends one empty body frame for an empty body, which the receiver leaves unread
  (`AmqpContent.PublishedIsCollected`); with a frame limit of eight bytes or less the publishing loop does
  not end (`AmqpContent.NoRoomNoEnd`). A content header without a content type cannot be built, because a
  scratch buffer is then too short for it (`AmqpContent.HeaderBuildableIff`).
- When an AMQP frame cannot be parsed, the frames before it in the same chunk stay with the parser
  (`AmqpMailbox.PendingIff`). They come out with the first later chunk that does not fail
  (`AmqpMailbox.ReleasedIff`), but none ever does if it is the end marker of a frame that is missing, because
  that frame is not taken out of the buffer (`AmqpMailbox.StuckForGoodIff`: exactly then).
- A Cassandra request that waits while 32767 later ones are sent loses its entry, as does one whose id an
  older request's late write failure deletes (`Cassandra.RegisteredIffClean`); it then waits for ever
  (`Cassandra.OrphanStays`). An oversized frame throws away what shares its buffer, so extraction depends on
  chunking exactly when something stands behind the frame's header (`Cassandra.CuttingMattersIff`).
- Registering a new session in a full store evicts the oldest one without taking it out of its rooms, so a
  room can list a member that is no session, although the file's header speaks of preventing ghost
  members (`CommunityHistory.MembersLiveUnless`: exactly then; `CommunityHistory.DeadMemberReached` is a run).
- A purging delete leaves the name in `created_by` of the rooms that the session created
  (`CommunityHistory.DeleteLeavesNothing`). A room name the store makes up replaces a room that a caller had
  given the same name (`CommunityHistory.CreateRoomTakesIff`, `CommunityHistory.MadeUpNameTaken`).
- The cycle detector drops a cycle whose joined vertex names equal those of another, which needs a file name
  with the separator in it. `CircularDeps.CoverageIff` says exactly when that leaves a cycle of the graph
  without a report that stands for it, and `CircularDeps.SeparatorDropsCycle` gives a graph on which every
  search does. Names without the separator rule it out beforehand (`CircularDeps.JoinedNamesInjective`,
  `CircularDeps.InjectiveTellsCycles`, `CircularDeps.CoversAllCycles`); the decision of acyclicity does not
  depend on it. A `max_cycles` that is not a number lets no cycle be reported, only `truncated` be set
  (`CircularDeps.DecidesAcyclicity`).

## Model

| member | source | states |
|---|---|---|
| `CborProofs.HeadReads` | lib/cborClientOps.js:27-40 | a head of any width is read back as its argument, and the cursor ends behind it |
| `CborEncoder.EncodeValue` | lib/cborClientOps.js:51-114 | the recursive encoder over its shared counter: data, new count and error as the function `Encode` gives them |
| `CborTheorems.EncodeWrites` | lib/cborClientOps.js:51-147 | the encoder writes exactly the preferred wire item of its value and adds one to the count per value; it refuses exactly when a limit is passed |
| `CborTheorems.ItemMeansNorm` | lib/cborClientOps.js:233-370 | the item written for a value means its normal form (undefined as null, integers past 2^53 as bigints, text as it was, bignums of any size through tags 2 and 3) |
| `CborTheorems.SafeIntegersKept` | lib/cborClientOps.js:132-140 | an integer-valued number comes back as itself, and as a number, exactly from -2^53 to 2^53 - 1 |
| `CborTheorems.NegativesOneOff` | lib/cborClientOps.js:136-139 | an integer-valued number below -2^53 comes back as a bigint one off, because `-1 - n` is rounded; by which side depends on divisibility by four |
| `CborTheorems.AmountKeptIff` | lib/cborClientOps.js:132-140 | as a number or as a bigint, the amount comes back if and only if it is from -2^53 to 2^64 - 1 |
| `Doubles.NearestDouble` | lib/cborClientOps.js:136-139 | rounding goes to a double, and none is nearer |
| `Doubles.KeptIffFits` | lib/cborClientOps.js:136-139 | and leaves a number alone exactly when it has a double |
| `Doubles.OneLess` | lib/cborClientOps.js:136-139 | one less than a double, rounded: exact up to 2^53, otherwise the double itself or two less |
| `CborTheorems.DecoderCount` | lib/cborClientOps.js:199-203 | the decoder counts what the encoder counted, plus one per map entry and one per bignum |
| `CborTheorems.DecoderHeight` | lib/cborClientOps.js:223-231 | the decoder goes one level deeper than the encoder exactly when a bignum lies at the deepest level |
| `CborTheorems.RoundTrip` | lib/cborClientOps.js:51-370 | wherever an encoding stands, decoding gives the normal form, consumes exactly its bytes and counts as above, if and only if the adjusted totals are within both limits |
| `CborTheorems.StreamRoundTrip` | lib/cborClientOps.js:408-422 | concatenated encodings decode to the list of normal forms, if and only if the running count stays within the limit |
| `CborValues.ObjectNorm` | lib/cborClientOps.js:286-294 | an object whose keys are all different comes back with every property, each with its value's normal form, in order |
| `CborValues.MapDecodes` | lib/cborClientOps.js:286-348 | a map, definite or not, whose items decode is accepted if and only if every key becomes a string; then a name is a property exactly when some key becomes it, once, with the last such value, in the order of the first such keys |
| `Objects.ObjectMade` | lib/cborClientOps.js:286-294 | assigning properties one after another makes that object |
| `Objects.DistinctKept` | lib/cborClientOps.js:286-294 | names that are all different stay as they are, in order |
| `CborValues.IntegerDecodes` | lib/cborClientOps.js:232-239 | an integer is its argument, or -1 less it, as a number up to 2^53 - 1 and as a bigint beyond |
| `CborValues.StringDecodes` | lib/cborClientOps.js:240-249 | a string of definite length is its bytes, or the text they read as |
| `CborValues.TagDecodes` | lib/cborClientOps.js:349-369 | tags 2 and 3 make a bignum of a byte string and fail on anything else; any other tag stands beside its value |
| `CborValues.SimpleDecodes` | lib/cborClientOps.js:370-388 | F4 to F7 are false, true, null and undefined, the bytes before them simple values |
| `CborValues.HalfDecodes` | lib/cborClientOps.js:389-402 | a half with all exponent bits set is an infinity or NaN; any other has its sign, and 2^24 times its amount is the fraction, with the leading one shifted by the exponent unless that is 0 |
| `CborValues.FloatDecodes` | lib/cborClientOps.js:381-382 | a float of 4 or 8 bytes is those bytes |
| `CborValues.ItemRefused` | lib/cborClientOps.js:199-405 | which error a limit, the end of the buffer, a break out of place, a reserved head or an overlong array ends in |
| `CborValues.ValueRefused` | lib/cborClientOps.js:51-114 | which error the encoder refuses a value with before it looks into it |
| `CborTheorems.SameMeaning` | lib/cborClientOps.js:244-348 | items with one content in different forms (head widths, indefinite lengths, byte strings in any chunks, text in chunks that cut no character, at any nesting) mean the same, count the same and are equally deep |
| `CborTheorems.FormIndependence` | lib/cborClientOps.js:244-348 | such items decode alike wherever they stand: success, value, elements counted, each up to its own end |
| `CborTheorems.ChunkedTextIff` | lib/cborClientOps.js:311-323 | text in chunks, each of which is read as UTF-8 by itself, means what the same bytes in one piece mean if and only if no chunk ends inside a character or a malformed part that the runtime replaces as one |
| `CborTheorems.PiecesReadIff` | lib/cborClientOps.js:311-323 | the same for the texts themselves, for any bytes |
| `CborTheorems.WholeCharacters` | lib/cborClientOps.js:311-323 | for text that is well formed as a whole that is so if and only if every chunk is well formed |
| `CborTheorems.CutInsideCharacter` | lib/cborClientOps.js:311-323 | U+00E9 in one piece, and its two bytes in two chunks, which decode to two U+FFFD |
| `Utf8.UnitIs` | lib/cborClientOps.js:253-253 | what reading takes at once: the form of a character (its bits, six to a byte from the second on; no surrogates) if one begins the bytes, otherwise the longest beginning of one or a single byte, read as U+FFFD |
| `Utf8.KeptIffWellFormed` | lib/cborClientOps.js:253-253 | reading bytes as UTF-8 changes them exactly when they are not well formed, and reading again changes nothing |
| `Utf8.CutMattersIff` | lib/cborClientOps.js:321-321 | reading two parts by themselves gives the text of the whole if and only if the cut is between units |
| `Utf8.WellFormedCut` | lib/cborClientOps.js:321-321 | a well-formed whole is cut between units if and only if both parts are well formed |
| `CborProofs.ChunksRead` | lib/cborClientOps.js:296-324 | an indefinite string is its chunks joined up to the break, each chunk of text read as UTF-8 by itself |
| `CborProofs.ArrayReads` | lib/cborClientOps.js:280-284 | a definite array decodes its items one after another |
| `CborProofs.OpenArrayReads` | lib/cborClientOps.js:326-335 | an indefinite array decodes its items up to the break |
| `CborProofs.MapAsArray` | lib/cborClientOps.js:286-294 | a definite map of n entries reads as 2n items paired up, with keys turned into strings and later ones winning |
| `CborProofs.OpenMapAsArray` | lib/cborClientOps.js:337-348 | the same for an indefinite map, up to the break |
| `CborProofs.TagReads` | lib/cborClientOps.js:268-272 | a tag is applied to the item it encloses, one level deeper |
| `CborProofs.ItemReads` | lib/cborClientOps.js:223-405 | wherever a valid wire item stands, the decoder returns its meaning, stops at its end and adds its count if it fits the limits, and fails otherwise |
| `CborAcceptance.ItemAccepted` | lib/cborClientOps.js:223-405 | behind every successful decoding there is a wire item that ends where the cursor does |
| `CborAcceptance.AcceptsExactlyItems` | lib/cborClientOps.js:223-405 | the decoder accepts exactly the wire items that mean something and fit the limits, as what they mean |
| `CborEndless.ChunksEndlessIff` | lib/cborClientOps.js:296-324 | an indefinite string is read without end if and only if its own head stands again behind some of its chunks |
| `CborEndless.EndlessIff` | lib/cborClientOps.js:191-348 | decoding an item does not come back if and only if such a place stands in it, at any nesting, behind whole items that mean something, and no limit and no key that is no string stops the decoder on the way |
| `CborEndless.TwoHeads` | lib/cborClientOps.js:296-324 | the inputs 5F 5F and 7F 7F are such |
| `CborInspectorEndless.InspectorEndlessIff` | lib/cborClientOps.js:466-507 | the inspector's loop over chunks does not end if and only if a head with additional information 31 other than the break follows chunks of any major types |
| `CborInspectorEndless.LostIff` | lib/cborClientOps.js:430-620 | the inspector does not come back from an item if and only if such a head stands in it, at any nesting, behind whole items of the looser grammar that it passes over: chunks of any major types, reserved additional information read as 0 |
| `CborInspectorEndless.AnyAccepted` | lib/cborClientOps.js:430-620 | what the inspector passes over with bytes left behind it is an item of that grammar, up to its end |
| `CborInspectorEndless.InspectorLostToo` | lib/cborClientOps.js:430-620 | wherever the decoder does not come back, the inspector does not, at any expansion level |
| `CborInspectorEndless.InspectorLostAlone` | lib/cborClientOps.js:466-507 | but not the other way round: on 5F 60 5F the decoder fails and the inspector does not come back |
| `CborDecoder.CborReader.ReadBytes` | lib/cborClientOps.js:191-197 | the next n bytes and the cursor behind them, or an error; the length -1 steps back |
| `CborDecoder.CborReader.ReadArgument` | lib/cborClientOps.js:206-221 | the argument of a head as the function of buffer and offset gives it |
| `CborDecoder.CborReader.DecodeIndefiniteString` | lib/cborClientOps.js:296-324 | ends as the function that joins chunks does |
| `CborDecoder.CborReader.DecodeDefiniteArray` | lib/cborClientOps.js:280-284 | ends as the function for definite arrays does |
| `CborDecoder.CborReader.DecodeIndefiniteArray` | lib/cborClientOps.js:326-335 | ends as the function for indefinite arrays does |
| `CborDecoder.CborReader.DecodeDefiniteMap` | lib/cborClientOps.js:286-294 | ends as the function for definite maps does |
| `CborDecoder.CborReader.DecodeIndefiniteMap` | lib/cborClientOps.js:337-348 | ends as the function for indefinite maps does |
| `CborDecoder.CborReader.Decode` | lib/cborClientOps.js:223-278 | value, cursor and element count are those of `DecodeItem`, about which the theorems are |
| `CborDecoder.DecodeBuffer` | lib/cborClientOps.js:408-422 | one value and no trailing bytes, or all values of the buffer |
| `CborInspector.ItemInspected` | lib/cborClientOps.js:426-620 | the inspector, a second walker over the same grammar, finds in every wire item the node that describes it and stops where the item ends |
| `CborInspector.InspectedSize` | lib/cborClientOps.js:466-606 | the reported size is the item's length less the bytes it misses, the cursor is right at every expansion level, and the size is right exactly when nothing is missed |
| `CborInspector.NodeAddsUp` | lib/cborClientOps.js:443-616 | at every depth, below tags and in open groups too: an expanded group is its head, its children's reported sizes and its break, a group is cut short exactly from the expansion level on, leaves and tags take their own bytes, and a leaf tells its kind, integer, length, boolean or simple value |
| `CborInspector.CutShort` | lib/cborClientOps.js:430-605 | an array cut short by the end of the buffer is reported with the number it announces, the items there, and a node of no bytes for each missing one |
| `CborInspector.InspectorAgrees` | lib/cborClientOps.js:426-610 | on what the encoder wrote: the root covers all bytes at every expansion level and the report adds up so at every depth |
| `CborInspector.InspectNode` | lib/cborClientOps.js:430-620 | the walk over the reader ends as the function does |
| `CborInspector.InspectBuffer` | lib/cborClientOps.js:426-640 | the tree of the first item, expanded to the level asked for |
| `CborInspector.ExpandLevel` | lib/cborClientOps.js:428-428 | groups are expanded at exactly the depths less than the level asked for, brought into 1..10, 3 by default; with NaN at none |
| `CborInspector.ShownExactly` | lib/cborClientOps.js:446-465 | the value shown for an integer is exact if and only if it has a double |
| `AvroVarint.ZigZagFolds` | lib/avroClientOps.js:48-52 | the bit formula of zigzag is 2v for v >= 0 and -2v - 1 otherwise, and unzigzag inverts it |
| `AvroVarint.IntAgreesWithLong` | lib/avroClientOps.js:48-75 | the 32-bit writer folds every 32-bit integer as the 64-bit writer does |
| `AvroVarint.EncodeVarUint` | lib/avroClientOps.js:54-87 | the loop writes seven bits a byte, lowest first |
| `AvroVarint.LongRead` | lib/avroClientOps.js:66-146 | reading inverts writing on every 64-bit integer, wherever its bytes stand |
| `AvroVarint.LongReadAny` | lib/avroClientOps.js:66-146 | for any integer given to the writer, the reader gets the one its low 64 bits stand for, and that one is written alike |
| `AvroReading.AvroReader.ReadBytes` | lib/avroClientOps.js:109-119 | the next n bytes, or an error for a negative n and past the end |
| `AvroReading.AvroReader.ReadLong` | lib/avroClientOps.js:130-146 | ends as the function that reads varints does |
| `AvroReading.AvroReader.ReadSized` | lib/avroClientOps.js:168-199 | a length within the cap and as many bytes |
| `AvroReading.AvroReader.DecodeRecord` | lib/avroClientOps.js:463-472 | ends as the function for records does |
| `AvroReading.AvroReader.DecodeAllBlocks` | lib/avroClientOps.js:483-516 | ends as the function for arrays and maps does, block after block up to a zero count |
| `AvroReading.AvroReader.Decode` | lib/avroClientOps.js:425-535 | value, cursor and element count are those of `DecodeValue`, about which the theorems are |
| `AvroCodec.InferBranch` | lib/avroClientOps.js:399-421 | the branch inferred is the first that suits the value, and none only if none does |
| `AvroCodec.BranchOf` | lib/avroClientOps.js:386-397 | a wrapper names its branch, within range; otherwise the branch is inferred |
| `AvroWire.WireReads` | lib/avroClientOps.js:425-535 | every form conforming to a schema is read as its meaning up to its end, if and only if depth, element count and string sizes are within the limits |
| `AvroWire.BlocksRead` | lib/avroClientOps.js:483-516 | blocks with positive or negative counts are read as their items in order |
| `AvroTheorems.ValueStands` | lib/avroClientOps.js:220-421 | what the encoder writes is a conforming form within the depth limit that means the normal form of the value |
| `AvroTheorems.RoundTrip` | lib/avroClientOps.js:220-535 | wherever an encoding stands, decoding gives the normal form and leaves the rest unread, exactly when the element and string limits allow; the depth limit never matters |
| `AvroValues.LongsKept` | lib/avroClientOps.js:66-75 | under long a number loses its fraction towards zero; within 64 bits it comes back so, as a number up to 2^53 - 1 and tagged as long beyond; NaN and the infinities are refused |
| `AvroValues.BigintsKept` | lib/avroClientOps.js:68-69 | a bigint under long comes back as the integer of 64 bits congruent to it modulo 2^64 |
| `AvroValues.IntWritten` | lib/avroClientOps.js:240-245 | under int a number loses its fraction, NaN is written as 0, and what has more than 32 bits is refused; the others come back as numbers |
| `AvroValues.FloatWritten` | lib/avroClientOps.js:251-261 | under float and double the image of the number itself is written and comes back |
| `AvroValues.BooleanWritten` | lib/avroClientOps.js:237-238 | under boolean null, undefined, false, 0, NaN, the bigint 0 and the empty string are false, everything else is true |
| `AvroValues.NullWritten` | lib/avroClientOps.js:232-235 | under null nothing is written for null and undefined, and anything else is refused |
| `AvroValues.KindRefused` | lib/avroClientOps.js:220-384 | more than 64 levels, unknown types and values of the wrong kind are refused, each with its error |
| `AvroValues.BytesWritten` | lib/avroClientOps.js:263-269 | a buffer, or a string in base64, is written as its bytes behind their number, or alone when it has exactly the size that fixed asks for, and comes back |
| `AvroValues.TextWritten` | lib/avroClientOps.js:271-274 | text is written as its bytes behind their number and comes back |
| `AvroValues.EnumWritten` | lib/avroClientOps.js:318-334 | a symbol is written as its first index, a number in range as itself without its fraction; both come back as the symbol |
| `AvroValues.EnumRefused` | lib/avroClientOps.js:318-334 | an unknown symbol, a number out of range and any other kind of value are refused with their errors |
| `AvroValues.RecordWritten` | lib/avroClientOps.js:296-316 | a record takes for each field the property of its name, or without one the default; it is accepted if and only if all those values are, and comes back as the object of the field names and their normal forms, all of them in order when the names differ |
| `AvroValues.RecordRefused` | lib/avroClientOps.js:303-311 | a field without property and default refuses the record |
| `AvroValues.ArrayWritten` | lib/avroClientOps.js:336-351 | an array is accepted if and only if all its items are, and comes back as the list of their normal forms |
| `AvroValues.MapWritten` | lib/avroClientOps.js:353-371 | a map is accepted if and only if all its values are, and comes back as the object of its names and their normal forms |
| `AvroValues.BranchInferred` | lib/avroClientOps.js:394-421 | an ordinary value is written under the first branch that takes its kind, behind the index, and comes back tagged with it, null as null; without such a branch it is refused |
| `AvroValues.BranchNamed` | lib/avroClientOps.js:387-392 | a wrapper names branch and value; an index that is no whole number in range is refused |
| `AvroTheorems.EnumReadable` | lib/avroClientOps.js:318-334 | the one value the encoder takes for an enum and the decoder refuses: NaN without symbols |
| `AvroTheorems.SameReading` | lib/avroClientOps.js:483-516 | forms with the same items cut into different blocks mean the same and cost the same |
| `AvroTheorems.BlockIndependence` | lib/avroClientOps.js:483-516 | they decode alike wherever they stand |
| `AvroContainer.MetadataRead` | lib/avroClientOps.js:554-610 | the metadata written is read back as the map of its entries |
| `AvroContainer.SectionsRead` | lib/avroClientOps.js:644-682 | blocks are read one after another, each marker checked, up to where the file ends |
| `AvroContainer.ContainerRead` | lib/avroClientOps.js:612-685 | a header and any number of non-empty blocks give the concatenation of their records, packed or not; the first marker that differs from the header's is refused |
| `AvroContainer.HeaderRefused` | lib/avroClientOps.js:619-643 | a file whose metadata has no schema, one that cannot be parsed, or a codec other than null and deflate is refused, each with its error |
| `AvroContainer.MagicRefused` | lib/avroClientOps.js:615-620 | so is a file that does not begin with Obj and 1 |
| `AvroContainer.FileLayout` | lib/avroClientOps.js:554-593 | the bytes of a built file: magic, two metadata entries, marker, one block of all records, marker, a closing zero |
| `AvroContainer.RecordsStand` | lib/avroClientOps.js:582-583 | the forms of all records mean their normal forms within the limits of a block |
| `AvroContainer.FileRoundTrip` | lib/avroClientOps.js:569-685 | reading a built file gives the normal forms of all records, and the empty list for none, exactly when the limits of a block allow |
| `AvroContainer.ParseMetadata` | lib/avroClientOps.js:595-610 | ends as the function for metadata does |
| `AvroContainer.DecodeBlockRecords` | lib/avroClientOps.js:664-680 | the records of one block, as the function gives them |
| `AvroContainer.ReadOcfFile` | lib/avroClientOps.js:612-685 | the whole file, as `ReadOcf` gives it |
| `AvroFingerprint.BuildRabinTable` | lib/avroClientOps.js:691-703 | entry i of the table is eight single-bit steps from i |
| `AvroFingerprint.RabinFingerprint` | lib/avroClientOps.js:707-714 | the table-driven loop gives eight single-bit steps per byte from the starting state |
| `AvroFingerprint.TableStep` | lib/avroClientOps.js:710-712 | shifting by a byte and looking up the byte that falls out is eight steps |
| `AvroFingerprint.StepNumber` | lib/avroClientOps.js:695-699 | a step halves the state as a number, and mixes in the polynomial if it was odd |
| `AvroFingerprint.EmptyNumber` | lib/avroClientOps.js:689-689 | the fingerprint of no bytes is the starting number |
| `AvroFingerprint.StepXor` | lib/avroClientOps.js:695-699 | a step is linear over xor |
| `AvroFingerprint.StepUnstep` | lib/avroClientOps.js:695-699 | a step is a bijection on 64-bit states |
| `AvroFingerprint.FeedAtOnce` | lib/avroClientOps.js:710-712 | up to eight bytes fed one after another are one 64-bit number mixed in at once |
| `AvroFingerprint.WindowNoticed` | lib/avroClientOps.js:707-714 | strings of one length that differ only within eight consecutive bytes, one changed byte included, have different fingerprints |
| `AvroFingerprint.EightBytesReachAll` | lib/avroClientOps.js:707-714 | after any beginning exactly one string of eight bytes gives a wanted fingerprint |
| `CircularDeps.Cap` | lib/circularDepsOps.js:82-82 | 200 by default; a number is cut to whole and kept from 1 to 1000, otherwise the nearer bound; NaN is no cap any length is below |
| `CircularDeps.PushGood` | lib/circularDepsOps.js:112-113 | entering a vertex keeps the invariant of the search |
| `CircularDeps.PopGood` | lib/circularDepsOps.js:132-133 | leaving a vertex whose dependencies are dealt with keeps it |
| `CircularDeps.BackPath` | lib/circularDepsOps.js:118-119 | the stack from a vertex on, and that vertex again, is a simple cycle when the top leads back to it |
| `CircularDeps.MeetGood` | lib/circularDepsOps.js:117-125 | meeting a back edge, reported or not, keeps the invariant |
| `CircularDeps.Detector.BackEdge` | lib/circularDepsOps.js:117-125 | report, remember or give up at the cap, keeping the invariant |
| `CircularDeps.Detector.Dfs` | lib/circularDepsOps.js:110-134 | the search from one vertex keeps the invariant, leaves the stack as it was and, unless given up, finishes the vertex; it ends because fewer vertices are left |
| `CircularDeps.Detector.FindCycles` | lib/circularDepsOps.js:103-139 | the driver: every report is a simple cycle, no two have one vertex set, the cap holds, something is reported or the cap reached if and only if the graph has a cycle; unless given up, every cycle of the graph runs along a reported closing edge if and only if no two cycles met have one key and different vertices, so always when the graph's simple cycles have different keys |
| `CircularDeps.ClosedWalkCrosses` | lib/circularDepsOps.js:110-134 | in an order that dependencies follow except along some edges, every closed walk uses one of these |
| `CircularDeps.SetGivesPath` | lib/circularDepsOps.js:120-121 | a path in order of discovery is determined by its vertex set, so suppressing equal sets suppresses equal cycles only |
| `CircularDeps.ReportedAreCycles` | lib/circularDepsOps.js:103-139 | reports are simple cycles of different vertex sets within the cap, which is reached when the search gave up |
| `CircularDeps.DecidesAcyclicity` | lib/circularDepsOps.js:103-139 | a finished search has reports or gave up at the cap if and only if the graph has a cycle; with a cap of at least one it then has reports |
| `CircularDeps.CoverageIff` | lib/circularDepsOps.js:120-125 | a search that did not give up has reported, for every cycle of the graph, one whose closing edge that cycle uses, if and only if no two cycles it met have one key and different vertices |
| `CircularDeps.CoversAllCycles` | lib/circularDepsOps.js:103-139 | so it has whenever the simple cycles of the graph have different keys unless they have the same vertices |
| `CircularDeps.InjectiveTellsCycles` | lib/circularDepsOps.js:120-120 | which keys that tell the sets of vertices apart make sure of |
| `CircularDeps.JoinedNamesInjective` | lib/circularDepsOps.js:120-120 | the joined names of the vertices do so if no file name holds the separator |
| `CircularDeps.SeparatorDropsCycle` | lib/circularDepsOps.js:120-125 | on two pairs of files with the separator in names, any search reports one cycle at most, and nothing stands for the other |
| `CoapPacket.FieldReads` | lib/coapClientOps.js:253-264 | a delta or length up to 65804 is read back from its nibble and extension |
| `CoapPacket.FieldWritten` | lib/coapClientOps.js:337-361 | the parser accepts no delta or length in a form the encoder would not write |
| `CoapPacket.NumberValue` | lib/coapClientOps.js:266-276 | a number is written if and only if it is at most 2^32 - 1, in at most four bytes that say it without its fraction, of a negative one modulo 256; exactly the whole numbers that are not negative come back, and without a leading zero |
| `CoapPacket.MinimalValue` | lib/coapClientOps.js:266-277 | bytes without a leading zero are what their number is written as |
| `CoapPacket.OptionToUint` | lib/coapClientOps.js:400-404 | the loop computes the big-endian value in double precision |
| `CoapPacket.OptionExactIff` | lib/coapClientOps.js:400-404 | which is exact if and only if the value has a double, so always up to six bytes |
| `CoapPacket.NoMarker` | lib/coapClientOps.js:229-251 | no encoded option starts with the payload marker 0xFF |
| `CoapPacket.WriteOptions` | lib/coapClientOps.js:229-251 | the loop over the sorted options writes what the function does, or its first error |
| `CoapPacket.ParseOptions` | lib/coapClientOps.js:334-374 | the loop ends as the function for options does |
| `CoapPacket.BuildPacket` | lib/coapClientOps.js:290-312 | the packet or the error of `Build` |
| `CoapPacket.ParsePacket` | lib/coapClientOps.js:316-386 | the packet or the error of `Parse` |
| `CoapTheorems.OptionsReadBack` | lib/coapClientOps.js:229-374 | encoded options are read back in order, up to the end or the payload marker |
| `CoapTheorems.Buildable` | lib/coapClientOps.js:229-312 | exactly which messages can be built: message ID of 16 bits, steps between option numbers and value lengths up to 65804, numbers below 2^32 |
| `CoapTheorems.RoundTrip` | lib/coapClientOps.js:290-386 | parsing a built packet gives the message with its options stably sorted, if and only if the token has at most eight bytes |
| `CoapTheorems.MessageArrives` | lib/coapClientOps.js:266-386 | with a token of at most eight bytes the other side gets kind, code, ID, token and payload, and of every option its number and its bytes, its text or its number without fraction |
| `CoapTheorems.Rebuild` | lib/coapClientOps.js:290-386 | building what was parsed gives the packet back, if and only if its last option value was not cut short |
| `Sorting.SortIsOnly` | lib/coapClientOps.js:231-231 | the stable sort is the one list in order that keeps the order of equal keys |
| `CoapExchange.StepKeeps` | lib/coapClientOps.js:446-568 | every event keeps the invariant on requests, timers, settlement and acknowledgements |
| `CoapExchange.RequestsBounded` | lib/coapClientOps.js:469-484 | in every run: 1 to 5 requests for a confirmable message and exactly one otherwise, the k-th not before 2000 * (2^k - 1) ms, armed delays summing to at most 30 seconds |
| `CoapExchange.RetryArmed` | lib/coapClientOps.js:479-483 | in every run, as long as a confirmable request is unsettled: the retry timer is armed if and only if no ACK or RST with its ID was received and fewer than five requests are sent, and then for exactly 2000 * 2^(k - 1) ms after the k-th |
| `CoapExchange.RequestTimes` | lib/coapClientOps.js:469-484 | in every run in which each retry fires when it is due, the requests are sent at exactly 0, 2, 6, 14 and 30 seconds, as many as are |
| `CoapExchange.FiveSent` | lib/coapClientOps.js:469-484 | and a server that stays silent gets all five |
| `CoapExchange.SettledIsQuiet` | lib/coapClientOps.js:455-467 | in every run: settled means no timer armed and the socket closed, unsettled means the master timer armed; a resolved response answers by ID or token; one ACK for a separate confirmable response and none else |
| `CoapExchange.ReceiveDecides` | lib/coapClientOps.js:486-552 | a packet resolves an open request if and only if it answers it, and rejects it if and only if it resets it |
| `CoapExchange.AcknowledgedIsFinal` | lib/coapClientOps.js:502-517 | after a matching ACK or RST no request is sent again and no retry is armed, in every run |
| `CoapExchange.NoRetryNoRequest` | lib/coapClientOps.js:469-484 | without an armed retry, no later event sends a request |
| `CoapExchange.OutcomeStays` | lib/coapClientOps.js:446-568 | an outcome is never replaced |
| `CoapExchange.TimeoutSettles` | lib/coapClientOps.js:461-467 | in every run the master timer settles the request |
| `CoapExchange.FailuresSettle` | lib/coapClientOps.js:461-564 | in every run, while unsettled: the master timer settles as timed out from its time on and not before, a failed send and a socket error settle each with its own error |
| `CoapExchange.Exchange.constructor` | lib/coapClientOps.js:447-461 | arms the master timer and sends the first request |
| `CoapExchange.Exchange.SendNow` | lib/coapClientOps.js:469-484 | sends, counts and arms the next retry as the step does |
| `CoapExchange.Exchange.OnRetry` | lib/coapClientOps.js:480-483 | the retry timer does what the step does |
| `CoapExchange.Exchange.OnMaster` | lib/coapClientOps.js:461-467 | the master timer does what the step does |
| `CoapExchange.Exchange.OnSendError` | lib/coapClientOps.js:472-477 | a failed send does what the step does |
| `CoapExchange.Exchange.OnSocketError` | lib/coapClientOps.js:555-564 | a socket error does what the step does |
| `CoapExchange.Exchange.OnMessage` | lib/coapClientOps.js:486-552 | a datagram, parsed and matched, does what the step does |
| `Framing.SplitMore` | lib/amqpClientOps.js:315-330 | more bytes continue where the parsing of a buffer stopped |
| `Framing.AnyCutting` | lib/amqpClientOps.js:315-330 | feeding chunks gives the frames of the whole stream at once, the same rest unless there is an error, and an error for the one exactly when for the other |
| `Framing.FramesComeThrough` | lib/amqpClientOps.js:315-332 | whole frames come out as they are under any cutting, with nothing left |
| `AmqpFrames.BuiltNext` | lib/amqpClientOps.js:163-348 | a built frame is cut off whole as the frame that its payload makes up: for a method class, method and arguments, for a header class, size and flags, for a body its data; one whose payload makes up none ends the parsing |
| `AmqpFrames.MethodCarried` | lib/amqpClientOps.js:343-348 | class, method and arguments put into a method frame come out as those, or end the parsing where the arguments cannot be decoded |
| `AmqpFrames.BuiltComeThrough` | lib/amqpClientOps.js:163-348 | a stream of built frames gives back what they are made up of, in order, with an empty rest, under any cutting |
| `AmqpFrames.ChunkingDoesNotMatter` | lib/amqpClientOps.js:309-332 | for any bytes and any two cuttings: same frames, same error verdict, same rest if there is no error |
| `AmqpFrames.AmqpParser.Feed` | lib/amqpClientOps.js:315-330 | appends the frames of the buffer and the chunk and keeps the rest; says where the source throws |
| `AmqpFrames.AmqpParser.Take` | lib/amqpClientOps.js:332-332 | hands over all parsed frames and keeps none |
| `AmqpMailbox.StepKeeps` | lib/amqpClientOps.js:628-693 | every event keeps the invariant of the mailbox |
| `AmqpMailbox.FirstComeFirstServed` | lib/amqpClientOps.js:628-693 | in every run: never both queues in use, requests served in turn and each at most once, frames handed out then kept then unparsed are the frames parsed, in order, heartbeats aside; without a parse error none stays with the parser and they are those of the whole stream |
| `AmqpMailbox.WaitersSettled` | lib/amqpClientOps.js:661-693 | in every run closing rejects and draining gives nothing to exactly the waiting requests, and changes nothing else |
| `AmqpMailbox.PendingIff` | lib/amqpClientOps.js:639-652 | frames stay with the parser after a chunk if and only if it failed and it or failing chunks before it held some; up to the next chunk these are exactly the frames that stay |
| `AmqpMailbox.ReleasedIff` | lib/amqpClientOps.js:315-332 | in any run the frames kept back come out, in order, if and only if some chunk does not fail |
| `AmqpMailbox.StuckForGoodIff` | lib/amqpClientOps.js:315-330 | no run can bring them out if and only if, behind whole frames, the buffer holds a frame whose end marker is missing |
| `AmqpMailbox.Connection.OnChunk` | lib/amqpClientOps.js:639-652 | parse, take and hand out, as the step does |
| `AmqpMailbox.Connection.HandOut` | lib/amqpClientOps.js:646-651 | the loop over the taken frames delivers as the function does |
| `AmqpMailbox.Connection.NextFrame` | lib/amqpClientOps.js:656-659 | a kept frame at once, or a place in the queue |
| `AmqpMailbox.Connection.DrainWaiters` | lib/amqpClientOps.js:663-665 | all waiting requests get nothing |
| `AmqpMailbox.Connection.OnClose` | lib/amqpClientOps.js:690-693 | all waiting requests are rejected |
| `AmqpContent.SplitBody` | lib/amqpClientOps.js:994-1002 | the publishing loop ends and cuts the body into its pieces |
| `AmqpContent.NoRoomNoEnd` | lib/amqpClientOps.js:997-1002 | some number of rounds ends the loop over a non-empty body if and only if the negotiated frame limit exceeds the overhead |
| `AmqpContent.PiecesJoin` | lib/amqpClientOps.js:998-1002 | the pieces joined are the body |
| `AmqpContent.PieceSizes` | lib/amqpClientOps.js:998-1002 | no piece is longer than the room of a frame and all but the last fill it |
| `AmqpContent.PieceCount` | lib/amqpClientOps.js:998-1002 | there are ceil(length / room) pieces, one for an empty body |
| `AmqpContent.FramesFit` | lib/amqpClientOps.js:994-1002 | no body frame is longer than the negotiated limit |
| `AmqpContent.HeaderBuildableIff` | lib/amqpClientOps.js:176-210 | a content header can be built if and only if its class and the body size fit and it has a content type of 1 to 255 bytes |
| `AmqpContent.HeaderParses` | lib/amqpClientOps.js:176-210 | a header that can be built is parsed back with its class, a flag for each property given, the properties behind them, and the body size, which is exact up to 2^53 and otherwise rounded to a double |
| `AmqpContent.CollectMessage` | lib/amqpClientOps.js:784-808 | the loop over the arriving frames ends as the function does |
| `AmqpContent.CollectRefuses` | lib/amqpClientOps.js:784-808 | anything but a header first, a size of more than 10 MiB, and anything but a body frame before the body is complete is refused, each with its error; until then it waits |
| `AmqpContent.PublishedIsCollected` | lib/amqpClientOps.js:784-1002 | the body is collected as it was and what follows is left, with the one empty frame of an empty body |
| `AmqpContent.PublishedArrives` | lib/amqpClientOps.js:163-1002 | from one end to the other: published under any limit, cut into any chunks, parsed and collected, the body is the same and nothing is left of a non-empty one |
| `Cassandra.BuiltNext` | lib/cassandraClientOps.js:97-105 | a built frame is cut off whole with its stream id, opcode and body |
| `Cassandra.FrameRead` | lib/cassandraClientOps.js:538-556 | every frame with a body of at most 32 MiB is cut off whole: version, flags, signed stream id, opcode and body |
| `Cassandra.ChunkingDoesNotMatter` | lib/cassandraClientOps.js:528-552 | without an oversized frame, frames and rest do not depend on chunking |
| `Cassandra.CuttingMattersIff` | lib/cassandraClientOps.js:528-552 | all cuttings of a stream give the same frames and rest if and only if nothing stands behind the header of an oversized frame |
| `Cassandra.OversizedMatters` | lib/cassandraClientOps.js:542-546 | with one, a frame behind its header in the same chunk is lost, in the next chunk it is not |
| `Cassandra.StreamFollows` | lib/cassandraClientOps.js:491-495 | the n-th id handed out is 1 + n mod 32767 |
| `Cassandra.IdsOfWindow` | lib/cassandraClientOps.js:491-495 | any 32767 consecutive ids are distinct |
| `Cassandra.IdsComeBack` | lib/cassandraClientOps.js:491-495 | and the next one repeats the first |
| `Cassandra.StepKeeps` | lib/cassandraClientOps.js:522-589 | every event keeps the next id in step with the count and each entry under the id of the request it stands for |
| `Cassandra.StepOnEach` | lib/cassandraClientOps.js:522-589 | what an event does to one request: only a send with its id or the late write failure of another request with its id takes its entry, and without an entry only its own write failure settles it |
| `Cassandra.RegisteredIffClean` | lib/cassandraClientOps.js:576-589 | every waiting request has its entry throughout a run if and only if no send reuses the id of a waiting one and no write failure hits the id of another waiting one |
| `Cassandra.OrphanStays` | lib/cassandraClientOps.js:522-589 | a waiting request without an entry is never settled, neither by a response nor by the end of the connection, unless its own write fails |
| `Cassandra.PromptRunsLoseNone` | lib/cassandraClientOps.js:491-589 | in a run in which no request waits across 32767 later ones every waiting request has its entry throughout |
| `Cassandra.OneTooMany` | lib/cassandraClientOps.js:491-589 | 32767 unanswered requests all have their entries; one more, and the first waits without one for ever |
| `Cassandra.ResponseRouting` | lib/cassandraClientOps.js:553-571 | after every run that leaves each waiting request its entry, a response settles exactly the waiting request with its stream id, removes its entry and touches no other |
| `Cassandra.SettledOtherwise` | lib/cassandraClientOps.js:522-589 | without a response a request is settled at once on a connection given up, by its own failed write, or with the end of the connection if its entry is there, each with its error, and nothing else is |
| `Cassandra.OtherVersionsSkipped` | lib/cassandraClientOps.js:553-561 | a frame of another version or with an id that is not pending changes nothing |
| `Cassandra.ChunksServed` | lib/cassandraClientOps.js:528-574 | in every run, however a stream is cut into chunks, its frames are processed in order behind what was buffered and its rest is kept, unless there is an oversized frame |
| `Cassandra.CassandraConnection.NextStreamId` | lib/cassandraClientOps.js:491-495 | hands out the id and moves on, wrapping at 32767 |
| `Cassandra.CassandraConnection.SendRequest` | lib/cassandraClientOps.js:576-589 | registers the request and writes its frame under its id, as the step does |
| `Cassandra.CassandraConnection.OnWriteError` | lib/cassandraClientOps.js:583-586 | removes the entry of its id and rejects the request |
| `Cassandra.CassandraConnection.ProcessFrames` | lib/cassandraClientOps.js:538-574 | the loop cuts off and routes all complete frames and keeps the rest, or throws it away |
| `Cassandra.CassandraConnection.OneFrame` | lib/cassandraClientOps.js:553-571 | skips other versions, routes by stream id |
| `Cassandra.CassandraConnection.OnChunk` | lib/cassandraClientOps.js:528-531 | appends and processes, as the step does |
| `Cassandra.CassandraConnection.OnSocketClose` | lib/cassandraClientOps.js:522-525 | rejects all pending requests |
| `Cassandra.CassandraConnection.Shut` | lib/cassandraClientOps.js:682-690 | gives up the socket and rejects all pending requests |
| `CommunityTheorems.StepKeeps` | lib/communityOps.js:229-853 | every call keeps the caps, distinct ids, increasing message numbers, read if and only if a reading time is set, replies to older messages only, no message to oneself, no member twice |
| `CommunityTheorems.EveryRunKeeps` | lib/communityOps.js:229-853 | and so does every run from the empty store |
| `CommunityTheorems.EvictMessages` | lib/communityOps.js:169-176 | eviction takes one message and keeps the order |
| `CommunityHistory.RunFollows` | lib/communityOps.js:229-853 | over any run each message is a later form of an old one or newer than all there ever were |
| `CommunityHistory.NeverReverts` | lib/communityOps.js:496-505 | a message once read never changes again, whatever is called |
| `CommunityHistory.FreshIds` | lib/communityOps.js:157-157 | the ids a call gives out are new, all different, and one for each addressee |
| `CommunityHistory.RenderedOneToOne` | lib/communityOps.js:157-160 | different ids are different strings |
| `CommunityHistory.ThreadsAcyclic` | lib/communityOps.js:323-329 | in every run, following replies never leads back |
| `CommunityHistory.DeleteLeavesNothing` | lib/communityOps.js:585-607 | a purging delete leaves no session, message or member of the name, takes nothing else, and leaves the rest of every room as it was, so that a room still bears the name if and only if the session created it |
| `CommunityHistory.CreateRoomTakesIff` | lib/communityOps.js:645-672 | a new room is put behind the others if and only if there is space and no room has the name the store makes up; otherwise which room goes |
| `CommunityHistory.MadeUpNameTaken` | lib/communityOps.js:652-663 | a run in which a caller takes the next made-up name and loses the room to another caller |
| `CommunityHistory.DeleteRoomTakesItsMessages` | lib/communityOps.js:835-853 | a purging delete of a room takes exactly the room and its messages |
| `CommunityHistory.GoneStaysGone` | lib/communityOps.js:229-853 | the name stays gone in every run until it is registered again |
| `CommunityHistory.MembersLiveUnless` | lib/communityOps.js:164-167 | a call leaves a room with a member that is no session if and only if it registers a new session in a full store whose oldest session is in a room |
| `CommunityHistory.DeadMemberReached` | lib/communityOps.js:164-167 | such a call happens: 1001 registrations and one room make a run that ends with a member that is no session |
| `CommunityHistory.MembersLiveInRuns` | lib/communityOps.js:229-853 | so in every run without such a call all members are sessions |
| `CommunityReading.ReadCounts` | lib/communityOps.js:454-515 | unread_after is unread_before less read_now, and is what the store then holds; the total is the same before and after |
| `CommunityReading.ReadChanges` | lib/communityOps.js:496-505 | reading marks exactly the unread messages of the page addressed to the reader |
| `CommunityReading.ReadTwice` | lib/communityOps.js:454-532 | reading the page again finds it read, shows the same and changes nothing |
| `CommunityReading.AllPagesLeaveNothingUnread` | lib/communityOps.js:454-532 | reading page after page, each at its own time, leaves nothing unread as long as no message expires in between |
| `CommunityReading.SentIsFound` | lib/communityOps.js:315-360 | a message sent is at once unread in the addressee's inbox and thread and in what the sender sent, and in no wrong folder |
| `CommunityReading.FanReaches` | lib/communityOps.js:398-427 | addressees other than the sender are split into reached and failed, in order; a room message reaches all members |
| `CommunityReading.FanStores` | lib/communityOps.js:398-427 | with room for all, message i goes to addressee i under id i |
| `CommunityReading.SummaryMatchesInbox` | lib/communityOps.js:196-219 | the numbers attached to replies are those that reading the inbox reports |
| `CommunityCalls.SendAnswers` | lib/communityOps.js:315-336 | a message is sent if and only if both sessions are known and differ, a reply names a message that is kept, and a lifetime given is positive; which error each refusal carries, and that it changes nothing |
| `CommunityCalls.BroadcastAnswers` | lib/communityOps.js:373-393 | a broadcast is sent if and only if the sender is known, a reply names a message that is kept, and a lifetime given is positive; errors in their order, nothing changed |
| `CommunityCalls.RoomMessageAnswers` | lib/communityOps.js:708-733 | a room message is sent if and only if the sender is known and a member of a room that is there, under the same conditions; errors in their order, nothing changed |
| `CommunityCalls.PostStores` | lib/communityOps.js:337-355 | a posted message stands last, unread, under the next id, with the end of its lifetime; in a full store the first message whose time is over goes for it, or else the oldest |
| `CommunityCalls.SendStores` | lib/communityOps.js:337-364 | what a message sent leaves: that message under the id answered, the sender's time, and nothing else |
| `CommunityCalls.LifetimeEnds` | lib/communityOps.js:185-188 | a message with a lifetime counts as expired exactly after its end, one without never |
| `CommunityCalls.BroadcastReaches` | lib/communityOps.js:395-433 | a broadcast goes to those asked for, or to all other sessions; in order it reaches those known and names the others as failed, the sender left out, and with room for all stores one message for each |
| `CommunityCalls.RoomMessageReaches` | lib/communityOps.js:735-758 | a room message goes to the other members in the order in which they joined |
| `CommunityCalls.RegisterAnswers` | lib/communityOps.js:229-261 | registering renews a known session in place, and puts an unknown one last, the oldest going for it when there are 1000 |
| `CommunityCalls.DeleteAnswers` | lib/communityOps.js:585-607 | deleting takes the session and its memberships, no message unless purging, and answers how many went; an unknown session is refused |
| `CommunityCalls.CreateRoomAnswers` | lib/communityOps.js:645-672 | a room is made unless one of the wanted name is there, with its maker as only member; errors in their order |
| `CommunityCalls.JoinAnswers` | lib/communityOps.js:680-686 | joining puts a known session last among the members of a room that is there, unless it is one, and changes nothing else; the count answered; errors in their order |
| `CommunityCalls.LeaveAnswers` | lib/communityOps.js:692-700 | leaving takes exactly the session out of the members, of which it must be one; the count answered; errors in their order |
| `CommunityCalls.DeleteRoomAnswers` | lib/communityOps.js:835-853 | deleting takes exactly the room, no message unless purging, and answers how many went; an unknown room is refused |
| `CommunityCalls.FoundExactly` | lib/communityOps.js:466-484 | what a query finds: inbox, sent or both by who sent to whom, and of a thread its root and the replies to it from either side; never what has expired |
| `CommunityCalls.ReadAnswers` | lib/communityOps.js:454-532 | a page shows what is found from its first place on, marked if asked for, 20 messages without a number and at most 100; pages below the first are the first; an unknown session is refused |
| `CommunityCalls.SummarizeAnswers` | lib/communityOps.js:196-219 | a summary is attached exactly for a known session and leaves everything but its time |
| `Community.Store.constructor` | lib/communityOps.js:75-77 | the empty store |
| `Community.Store.EvictOldestMessage` | lib/communityOps.js:169-176 | the loop takes the first expired message, or else the oldest |
| `Community.Store.PostMessage` | lib/communityOps.js:337-355 | stores one message under a new id, after making room |
| `Community.Store.Register` | lib/communityOps.js:229-261 | as the step, keeping the invariant |
| `Community.Store.SendMessage` | lib/communityOps.js:315-365 | as the step, keeping the invariant |
| `Community.Store.FanOut` | lib/communityOps.js:398-427 | the loop over the addressees ends as the function does |
| `Community.Store.Broadcast` | lib/communityOps.js:373-437 | as the step, keeping the invariant |
| `Community.Store.RoomMessage` | lib/communityOps.js:708-763 | as the step, keeping the invariant |
| `Community.Store.MarkPage` | lib/communityOps.js:496-505 | marking one message after another marks the page, and counts what it marked |
| `Community.Store.ReadMessages` | lib/communityOps.js:454-532 | as the step, keeping the invariant |
| `Community.Store.DeleteSession` | lib/communityOps.js:585-607 | as the step, keeping the invariant |
| `Community.Store.PurgeMessages` | lib/communityOps.js:596-604 | the loop keeps exactly the messages that are to be kept and counts the others |
| `Community.Store.CreateRoom` | lib/communityOps.js:646-672 | as the step, keeping the invariant |
| `Community.Store.JoinRoom` | lib/communityOps.js:680-686 | as the step, keeping the invariant |
| `Community.Store.LeaveRoom` | lib/communityOps.js:692-700 | as the step, keeping the invariant |
| `Community.Store.DeleteRoom` | lib/communityOps.js:835-853 | as the step, keeping the invariant |
| `Community.Store.Summarize` | lib/communityOps.js:196-219 | as the step, keeping the invariant |
| `Base62.BuildLookup` | lib/base62Ops.js:16-17 | the lookup holds exactly the symbols of the alphabet, each with its place |
| `Base62.SymbolAt` | lib/base62Ops.js:12-12 | the alphabet is in ascending character order |
| `Base62.Encode` | lib/base62Ops.js:66-84 | the loop gives the digits of the number, padded; only a number has a limit |
| `Base62.Decode` | lib/base62Ops.js:106-127 | the two loops give the value, or the error of the first bad character |
| `Base62.DecodeEncoded` | lib/base62Ops.js:66-127 | decoding an encoding gives the number for every padding, if and only if it is within the decoder's length limit |
| `Base62.SourceEncoded` | lib/base62Ops.js:41-84 | every source is encoded but a number of more than 40 decimal digits, and decodes to its number; the string is as long as asked for at least, with zeros in front only to fill up |
| `Base62.EncodeDecoded` | lib/base62Ops.js:66-127 | encoding what was decoded gives the string without leading zeros, and padded to its length the string itself |
| `Base62.OrderKept` | lib/base62Ops.js:12-17 | strings of one length compare lexicographically as their numbers do |
| `Base62.EncodedOrder` | lib/base62Ops.js:66-84 | so do encodings padded to one length |

## Left out

- CborTheorems.RoundTrip: a string with a lone surrogate stands as its UTF-8 form, in which that is replaced; an object's entries are given in the order in which the language lists them, and integer-like names are assumed to be listed in the same order when the decoded object is read.
- CborInspector.ItemInspected: lengths and counts above 2^53, which the source rounds, are exact; no buffer holds as much.
- CborAcceptance.AcceptsExactlyItems: where the source does not return, the model ends with an error; `CborEndless.EndlessIff` says where that is.
- AvroTheorems.RoundTrip: lengths of strings, arrays and maps are below 2^63; a record's fields are looked up among the value's own properties, where the source also finds inherited ones; the order of integer-like names is as above.
- AvroContainer.FileRoundTrip: the same, for the number of records and the bytes of a block.
- CircularDeps.JoinedNamesInjective: sorting the names is a function that lists a set's members; the order of the runtime's sort is not modelled.
- CoapPacket.OptionToUint: values too large for any double are not modelled.
- CoapExchange.Step: datagrams and socket errors after the socket has been closed are not modelled, nor is a bound on how late a timer fires.
- AmqpFrames.ParseFrame: decoding of method arguments and tables is a parameter.
- Cassandra.OnFrame: decoding of response bodies is a parameter; a stream id given by the caller is not modelled, since no caller gives one.
- CommunityStore.Step: the clock is read once per call; checks on the form of strings (empty, too long, NUL, body size) and of the folder name are taken as done.
- Base62.Decoded: takes the string after trimming; the texts of numbers, hexadecimal and base64 inputs and the output formats are not modelled.
- UTF-8 outside CBOR: the text of the other components is its bytes, so invalid sequences, which the source replaces, are not distinguished there.
- Floating point: numbers too large for a double, infinite levels and caps (which act as very large ones), and fractions are not modelled where they are not mentioned; Avro floats, and those of CBOR longer than a half, are opaque bytes.
- JSON: parsing and printing of Avro schemas, `normalizeSchema`, and `canonicalSchema`.
- Sockets, TLS and promises: arrival, timers, settlement and closing are events and entries in a table.
- CoAP `observe` and `ping`, URI parsing and response formatting; the AMQP handshake, consuming and the other methods.
- CQL values and column types, which nest without an inverse in the source; request bodies.
- Listing and information calls of the community store, which only read.
- File discovery and the resolution of import specifiers around the cycle detector.
- The request wrappers over HTTP services, the pattern scanners, the archive, audio, image and table readers, and the servers: plumbing over libraries or heuristics without an exact specification.
