# ABIv2 decoder of TronWalletWeb3Swift, in Dafny

This project models `ABIv2Decoder`, the decoder that turns Ethereum-ABI-encoded
return data and event logs into values. It covers:

- `decode(types:data:)` for `InOut`s and for parameter types;
- `decodeSignleType` (the source's spelling), which decodes one value at a
  pointer and reports how many bytes it consumed;
- `followTheData`, which resolves a head slot to the bytes of its value,
  including the legacy fallback for `string` and `bytes` heads that hold no
  offset;
- `decodeLog`, which checks an event's signature topic, decodes the indexed
  inputs from the topics and the other inputs from the data, and builds the
  result dictionary.

Modules:

- `Primitives`: big-endian words, two's complement, Swift's truncating `%`,
  decimal rendering of `"\(i)"`, and UTF-8 validity.
- `AbiTypes`: the parameter types with `isStatic`, `memoryUsage` and
  `arraySize`.
- `DecodingSpec`: the decoder as recursive functions.
- `Decoder`: the decoder's loops as methods, each proved equal to the
  function that specifies it.
- `EventLogDecoding`: `decodeLog` as a function and as a method.
- `DecodingProperties`, `StaticDecoding`, `ElementLoops`, `ScalarDecoding`,
  `HeadLayout` and `EventLogProperties`: what the decoder is proved to do.

Two behaviours of the source are not what the ABI lays out (see "## Findings").
The specification functions take a `Mode`:

- `AsWritten` is the code as it stands. The `Decoder` and `EventLogDecoding`
  methods are proved equal to it.
- `Corrected` is the evidently intended behaviour.

Properties that hold either way are proved for both modes.

A decode that the source ends with `(nil, nil)` or `nil` is `None` here. The
source's runtime traps are preconditions:

- `topics[0]` on an empty topic list;
- `bytes(N)` with N above 32, which slices past its word.

## Model

| member | source | states |
|---|---|---|
| DecodingSpec.FollowTheData | TronWalletWeb3Swift/Classes/ABIv2/ABIv2Decoding.swift:196-230 | A static type yields exactly its head bytes when they fit, and fails otherwise. A dynamic type yields the data from the offset in its head slot to the end when that offset is in range. With no such offset, `string` and `bytes` yield a 32-byte length word followed by the slot, and every other dynamic type fails. On success the next pointer is always pointer plus the head size. |
| DecodingSpec.DecodeScalar | TronWalletWeb3Swift/Classes/ABIv2/ABIv2Decoding.swift:54-112 | A decoded scalar has the shape of its type. Every scalar except bool, string and dynamicBytes decodes whenever a full word is present. |
| DecodingSpec.DecodeTypes | TronWalletWeb3Swift/Classes/ABIv2/ABIv2Decoding.swift:26-39 | A successful decode yields one value per type. |
| Decoder.ParamTypes | TronWalletWeb3Swift/Classes/ABIv2/ABIv2Decoding.swift:14-16 | The i-th type is the type of the i-th InOut. |
| Decoder.DecodeInOuts | TronWalletWeb3Swift/Classes/ABIv2/ABIv2Decoding.swift:13-18 | Its result is the decode of the InOuts' types. |
| Decoder.Decode | TronWalletWeb3Swift/Classes/ABIv2/ABIv2Decoding.swift:26-39 | The cursor loop yields exactly `DecodeTypes`: it fails on the first failing type, and otherwise yields every value. |
| Decoder.DecodeSingleType | TronWalletWeb3Swift/Classes/ABIv2/ABIv2Decoding.swift:48-194 | Every branch yields exactly `DecodeSingle`, both the value and the reported consumption. |
| Decoder.DecodeTupleMembers | TronWalletWeb3Swift/Classes/ABIv2/ABIv2Decoding.swift:172-179 | The tuple's member loop yields exactly `DecodeMembers` from cursor 0. It fails when any member fails. |
| Decoder.DecodeStaticArrayElements | TronWalletWeb3Swift/Classes/ABIv2/ABIv2Decoding.swift:154-161 | The static-size array loop yields exactly `DecodeRepeat` from cursor 0, all or nothing. |
| Decoder.DecodeDynamicArrayElements | TronWalletWeb3Swift/Classes/ABIv2/ABIv2Decoding.swift:124-131 | The dynamic-size array loop keeps exactly the elements of `DecodeElements`, stopping at the first failure. The lines 140-148 loop is the same loop. |
| DecodingProperties.SingleShape | TronWalletWeb3Swift/Classes/ABIv2/ABIv2Decoding.swift:48-194 | A decoded value conforms to its type. A static value reports exactly its head size as consumed. |
| DecodingProperties.PayloadShape | TronWalletWeb3Swift/Classes/ABIv2/ABIv2Decoding.swift:53-192 | The same for the switch over an already-followed payload. |
| DecodingProperties.TupleShape | TronWalletWeb3Swift/Classes/ABIv2/ABIv2Decoding.swift:170-185 | A decoded tuple has one conforming value per member. A static tuple reports the sum of its members' head sizes. |
| DecodingProperties.ArrayShape | TronWalletWeb3Swift/Classes/ABIv2/ABIv2Decoding.swift:113-169 | A decoded array holds only conforming elements, and exactly `length` of them when its size is static. A static array reports `length` times the element head. |
| DecodingProperties.MembersShape | TronWalletWeb3Swift/Classes/ABIv2/ABIv2Decoding.swift:174-179 | The member loop yields one conforming value per type. Over static types it ends at the start plus the summed head sizes. |
| DecodingProperties.MembersHead | TronWalletWeb3Swift/Classes/ABIv2/ABIv2Decoding.swift:174-179 | A successful member loop decoded its first member at the cursor, then the rest after it. |
| DecodingProperties.MembersHeadShape | TronWalletWeb3Swift/Classes/ABIv2/ABIv2Decoding.swift:174-179 | The first member conforms, and the rest start where it ended. |
| DecodingProperties.MembersConformIndex | TronWalletWeb3Swift/Classes/ABIv2/ABIv2Decoding.swift:174-179 | Member i of a decoded tuple conforms to type i. |
| DecodingProperties.RepeatShape | TronWalletWeb3Swift/Classes/ABIv2/ABIv2Decoding.swift:156-161 | The static-size loop yields exactly `length` conforming elements. |
| DecodingProperties.RepeatEnd | TronWalletWeb3Swift/Classes/ABIv2/ABIv2Decoding.swift:156-163 | Over a static element type, the loop ends `length` element heads after its start. |
| DecodingProperties.RepeatHead | TronWalletWeb3Swift/Classes/ABIv2/ABIv2Decoding.swift:156-161 | A successful static-size loop decoded its first element at the cursor, then the rest after it. |
| DecodingProperties.RepeatHeadShape | TronWalletWeb3Swift/Classes/ABIv2/ABIv2Decoding.swift:156-161 | The first element conforms, and the rest start where it ended. |
| DecodingProperties.AllConformIndex | TronWalletWeb3Swift/Classes/ABIv2/ABIv2Decoding.swift:154-161 | Each element of a conforming list conforms to the element type. |
| DecodingProperties.ElementsShape | TronWalletWeb3Swift/Classes/ABIv2/ABIv2Decoding.swift:124-131 | A dynamic-size loop keeps at most `length` elements, all conforming. |
| DecodingProperties.ElementsHead | TronWalletWeb3Swift/Classes/ABIv2/ABIv2Decoding.swift:126-131 | When the first element decodes, the kept list is that element followed by the rest. |
| DecodingProperties.ElementsHeadShape | TronWalletWeb3Swift/Classes/ABIv2/ABIv2Decoding.swift:126-131 | The first kept element conforms. |
| DecodingProperties.MembersCursors | TronWalletWeb3Swift/Classes/ABIv2/ABIv2Decoding.swift:30-35 | The loop's cursors: one per type plus the end, starting at the loop's start; each moves on by what the value before it reports as consumed. |
| DecodingProperties.LayoutMembers | TronWalletWeb3Swift/Classes/ABIv2/ABIv2Decoding.swift:30-35 | Conversely, any such cursor sequence is the loop's own run. |
| DecodingProperties.MembersLayout | TronWalletWeb3Swift/Classes/ABIv2/ABIv2Decoding.swift:30-35 | A successful member loop is laid out by its own cursors (value i decoded at cursor i), and it ends at the last of them. |
| DecodingProperties.DecodeTypesLayout | TronWalletWeb3Swift/Classes/ABIv2/ABIv2Decoding.swift:26-39 | decode(types:data:) yields vs exactly when vs has a cursor layout that starts at 0 (if and only if). |
| DecodingProperties.MembersFailAt | TronWalletWeb3Swift/Classes/ABIv2/ABIv2Decoding.swift:31-32 | When the first k values decode but value k fails at its cursor, the loop fails. |
| DecodingProperties.DecodeTypesFailsAt | TronWalletWeb3Swift/Classes/ABIv2/ABIv2Decoding.swift:31-32 | The same for decode(types:data:): one failing value fails the whole decode. |
| DecodingProperties.LayoutCons | TronWalletWeb3Swift/Classes/ABIv2/ABIv2Decoding.swift:30-35 | A layout is the first value at the first cursor, followed by a layout of the rest. |
| DecodingProperties.LayoutTail | TronWalletWeb3Swift/Classes/ABIv2/ABIv2Decoding.swift:30-35 | The tail of a layout is a layout. |
| StaticDecoding.SingleTotal | TronWalletWeb3Swift/Classes/ABIv2/ABIv2Decoding.swift:199-205 | For a static type with no bool in it, decoding succeeds exactly when its head fits in the data (if and only if). |
| StaticDecoding.PayloadTotal | TronWalletWeb3Swift/Classes/ABIv2/ABIv2Decoding.swift:53-192 | Such a type decodes from any payload of its head size. |
| StaticDecoding.TupleTotal | TronWalletWeb3Swift/Classes/ABIv2/ABIv2Decoding.swift:170-182 | The same for a static tuple. |
| StaticDecoding.ArrayTotal | TronWalletWeb3Swift/Classes/ABIv2/ABIv2Decoding.swift:151-163 | The same for a static-size array of static elements. |
| StaticDecoding.MembersTotal | TronWalletWeb3Swift/Classes/ABIv2/ABIv2Decoding.swift:174-179 | Over such types, the member loop succeeds exactly when the summed heads fit after the cursor. |
| StaticDecoding.RepeatTotal | TronWalletWeb3Swift/Classes/ABIv2/ABIv2Decoding.swift:156-161 | The static-size loop succeeds exactly when `length` element heads fit after the cursor. |
| StaticDecoding.ElementsTotal | TronWalletWeb3Swift/Classes/ABIv2/ABIv2Decoding.swift:122-131 | When the elements fit, the dynamic-size loop keeps all `length` of them. |
| StaticDecoding.DynamicArrayOfStatic | TronWalletWeb3Swift/Classes/ABIv2/ABIv2Decoding.swift:117-132 | A `T[]` of bool-free static elements decodes every counted element when the length check passes. It reports its 32-byte head slot as consumed. |
| StaticDecoding.DecodeTypesTotal | TronWalletWeb3Swift/Classes/ABIv2/ABIv2Decoding.swift:26-39 | Over bool-free static types, decode(types:data:) succeeds exactly when the summed head sizes fit in the data (if and only if). |
| ElementLoops.ElementsPrefix | TronWalletWeb3Swift/Classes/ABIv2/ABIv2Decoding.swift:126-131 | The elements a dynamic-size loop keeps are at most `length`. An all-or-nothing loop over that many yields exactly them, with the same final cursor. |
| ElementLoops.ElementsStopAtFailure | TronWalletWeb3Swift/Classes/ABIv2/ABIv2Decoding.swift:127-128 | The dynamic-size loop keeps fewer than `length` elements only when the next element fails to decode. |
| ElementLoops.RepeatIsFullElements | TronWalletWeb3Swift/Classes/ABIv2/ABIv2Decoding.swift:126-131 | The static-size loop succeeds exactly when the dynamic-size loop keeps all `length` elements, and both then yield the same (if and only if). |
| ElementLoops.DynamicArrayKeepsPrefix | TronWalletWeb3Swift/Classes/ABIv2/ABIv2Decoding.swift:113-150 | For every `T[]`, in both modes: the array decodes exactly when the count word is present and, for static T, the counted element heads fit (if and only if). It then holds at most the count of items. They are exactly the all-or-nothing decode of that many elements, read at 32 for static T and at 0 past the count word otherwise. It holds fewer than the count only when the next element fails. |
| ElementLoops.BoolArrayStopsEarly | TronWalletWeb3Swift/Classes/ABIv2/ABIv2Decoding.swift:126-132 | `bool[]` with count 2 over the words 1 and 5 decodes to [true] and reports 32, rather than failing on the second element. |
| ScalarDecoding.UintRoundTrip | TronWalletWeb3Swift/Classes/ABIv2/ABIv2Decoding.swift:54-61 | uint(bits) reads back every value below 2^bits from its big-endian word. |
| ScalarDecoding.IntRoundTrip | TronWalletWeb3Swift/Classes/ABIv2/ABIv2Decoding.swift:62-69 | int(bits) reads back every value of the signed bits-bit range from its two's-complement word, through the truncating `%`. |
| ScalarDecoding.BoolRoundTrip | TronWalletWeb3Swift/Classes/ABIv2/ABIv2Decoding.swift:77-87 | bool reads back true from the word 1 and false from the word 0. |
| ScalarDecoding.BoolAccepts | TronWalletWeb3Swift/Classes/ABIv2/ABIv2Decoding.swift:77-87 | bool accepts a word exactly when its value is 0 or 1 (if and only if). |
| ScalarDecoding.AddressIgnoresPadding | TronWalletWeb3Swift/Classes/ABIv2/ABIv2Decoding.swift:70-76 | address yields the word's last 20 bytes, whatever the first 12 hold. |
| ScalarDecoding.BytesRoundTrip | TronWalletWeb3Swift/Classes/ABIv2/ABIv2Decoding.swift:88-93 | bytes(N) reads back its N left-aligned bytes, whatever pads them. |
| ScalarDecoding.FunctionAsWritten | TronWalletWeb3Swift/Classes/ABIv2/ABIv2Decoding.swift:186-191 | As written, function turns a left-aligned 24-byte value into its last 16 bytes plus 8 bytes of padding. |
| ScalarDecoding.FunctionAsWrittenLoses | TronWalletWeb3Swift/Classes/ABIv2/ABIv2Decoding.swift:189 | As written, the 24-byte value of all 1s is not read back. |
| ScalarDecoding.FunctionRightAligned | TronWalletWeb3Swift/Classes/ABIv2/ABIv2Decoding.swift:186-191 | As written, function does read back a value stored right-aligned after 8 bytes of padding. |
| ScalarDecoding.FunctionRoundTrip | TronWalletWeb3Swift/Classes/ABIv2/ABIv2Decoding.swift:186-191 | Corrected, function reads back every 24-byte value from its left-aligned encoding. |
| ScalarDecoding.DynamicBytesRoundTrip | TronWalletWeb3Swift/Classes/ABIv2/ABIv2Decoding.swift:104-112 | dynamicBytes reads back any byte string from its length word and bytes. |
| ScalarDecoding.StringRoundTrip | TronWalletWeb3Swift/Classes/ABIv2/ABIv2Decoding.swift:94-103 | string reads back a length-prefixed byte string exactly when it is valid UTF-8, and fails otherwise. |
| ScalarDecoding.LengthPrefixFits | TronWalletWeb3Swift/Classes/ABIv2/ABIv2Decoding.swift:96-110 | dynamicBytes succeeds exactly when the counted bytes fit (if and only if). A string that succeeds also fits. |
| ScalarDecoding.ScalarAt | TronWalletWeb3Swift/Classes/ABIv2/ABIv2Decoding.swift:199-205 | A static scalar at a pointer whose slot fits decodes to what its branch reads from that slot, and reports 32. |
| ScalarDecoding.DynamicBytesFallback | TronWalletWeb3Swift/Classes/ABIv2/ABIv2Decoding.swift:210-220 | A dynamicBytes head holding no in-range offset decodes to the 32-byte slot itself, and reports 32. |
| ScalarDecoding.StringFallback | TronWalletWeb3Swift/Classes/ABIv2/ABIv2Decoding.swift:210-220 | The same for string: the slot itself when it is valid UTF-8, and otherwise failure. |
| HeadLayout.DynamicConsumption | TronWalletWeb3Swift/Classes/ABIv2/ABIv2Decoding.swift:103-185 | What a dynamic value reports as consumed. string, bytes and `T[]` of static T report 32. As written, dynamic tuples and arrays of dynamic elements report the absolute pointer past their head. |
| HeadLayout.CorrectedConsumption | TronWalletWeb3Swift/Classes/ABIv2/ABIv2Decoding.swift:149 | Corrected, every value reports exactly its head size. |
| HeadLayout.CorrectedHeadLayout | TronWalletWeb3Swift/Classes/ABIv2/ABIv2Decoding.swift:26-39 | Corrected, decode(types:data:) reads value i at the sum of the head sizes before it, which is the ABI head layout. |
| HeadLayout.StaticStep | TronWalletWeb3Swift/Classes/ABIv2/ABIv2Decoding.swift:30-35 | A static value moves the cursor by its head size in either mode. |
| HeadLayout.AsWrittenTupleStep | TronWalletWeb3Swift/Classes/ABIv2/ABIv2Decoding.swift:184 | As written, a dynamic tuple read at cursor c moves the cursor to 2c + 32. |
| HeadLayout.AsWrittenThirdHead | TronWalletWeb3Swift/Classes/ABIv2/ABIv2Decoding.swift:30-35 | As written, for a 32-byte static type followed by a dynamic tuple, the third value is read at byte 96. |
| HeadLayout.CorrectedThirdHead | TronWalletWeb3Swift/Classes/ABIv2/ABIv2Decoding.swift:30-35 | Corrected, that third value is read at byte 64, and it reports its head size. |
| HeadLayout.SkipLayoutAsWritten | TronWalletWeb3Swift/Classes/ABIv2/ABIv2Decoding.swift:26-39 | As written, `(uint256, (string), uint256)` over any 128 bytes whose words are 7, 64, 32 and 0 decodes to [7, [""], 0]: the third value is read at byte 96, the string's length word. |
| HeadLayout.SkipLayoutCorrected | TronWalletWeb3Swift/Classes/ABIv2/ABIv2Decoding.swift:26-39 | Corrected, the same bytes decode to [7, [""], 32]: the third value is read at byte 64, its own head slot. |
| HeadLayout.SkipExampleDecodes | TronWalletWeb3Swift/Classes/ABIv2/ABIv2Decoding.swift:26-39 | `(uint256, (string), uint256)` over the words 7, 64, 32 and 0 decodes to [7, [""], 0] as written and to [7, [""], 32] corrected. |
| EventLogDecoding.Indexed | TronWalletWeb3Swift/Classes/ABIv2/ABIv2Decoding.swift:246-248 | The indexed inputs, in order. |
| EventLogDecoding.NonIndexed | TronWalletWeb3Swift/Classes/ABIv2/ABIv2Decoding.swift:252-254 | The non-indexed inputs, in order. |
| EventLogDecoding.FilterSizes | TronWalletWeb3Swift/Classes/ABIv2/ABIv2Decoding.swift:246-254 | Together, the two filters keep every input exactly once. |
| EventLogDecoding.FilterPosition | TronWalletWeb3Swift/Classes/ABIv2/ABIv2Decoding.swift:279-295 | Input i is the entry of its own filter at the count of inputs of the same kind before it. |
| EventLogDecoding.TopicType | TronWalletWeb3Swift/Classes/ABIv2/ABIv2Decoding.swift:263-271 | An indexed input is read as its own type when that is a static non-array type of one word. Otherwise it is read as bytes32. |
| EventLogDecoding.IndexedValues | TronWalletWeb3Swift/Classes/ABIv2/ABIv2Decoding.swift:260-272 | A successful decode of the indexed inputs yields one value per input. |
| EventLogDecoding.DecodeIndexedInputs | TronWalletWeb3Swift/Classes/ABIv2/ABIv2Decoding.swift:259-272 | The topic loop yields exactly `IndexedValues`. |
| EventLogDecoding.FillEventContent | TronWalletWeb3Swift/Classes/ABIv2/ABIv2Decoding.swift:242-243 | The dictionary loop builds exactly the dictionary that writes "name", then each input's value under its position and its name. Its loop is at lines 275-296. |
| EventLogDecoding.DecodeLog | TronWalletWeb3Swift/Classes/ABIv2/ABIv2Decoding.swift:238-298 | decodeLog yields exactly `DecodeLogSpec`. |
| EventLogProperties.DecodeLogSucceeds | TronWalletWeb3Swift/Classes/ABIv2/ABIv2Decoding.swift:238-274 | decodeLog succeeds exactly when three things hold (if and only if). The event is anonymous or its topic is the first topic. There is one topic per indexed input plus one. Every input decodes. |
| EventLogProperties.DecodeLogEntries | TronWalletWeb3Swift/Classes/ABIv2/ABIv2Decoding.swift:275-296 | A key is in the result exactly when it is "name" or some input writes it. It then holds the value of the last input that writes it, or the event name. |
| EventLogProperties.DecodeLogPosition | TronWalletWeb3Swift/Classes/ABIv2/ABIv2Decoding.swift:277-296 | Input i's decoded value is under the key `"\(i)"`, unless a later input is named that. |
| EventLogProperties.DecodeLogName | TronWalletWeb3Swift/Classes/ABIv2/ABIv2Decoding.swift:243 | With no input named "name", "name" holds the event's name. |
| EventLogProperties.ValueAtIsDecoded | TronWalletWeb3Swift/Classes/ABIv2/ABIv2Decoding.swift:275-296 | The value stored for input i is that input's own decode, from its topic or from the data. |
| EventLogProperties.FilledLastWriter | TronWalletWeb3Swift/Classes/ABIv2/ABIv2Decoding.swift:277-296 | After k inputs, every key holds what its last writer stored. |
| EventLogProperties.LastWriterIsLast | TronWalletWeb3Swift/Classes/ABIv2/ABIv2Decoding.swift:280-293 | The last writer of a key writes it, and no later input does. With no writer, no input writes it. |
| EventLogProperties.DecimalInjective | TronWalletWeb3Swift/Classes/ABIv2/ABIv2Decoding.swift:280 | Distinct positions get distinct keys. |
| EventLogProperties.DecimalIsNotName | TronWalletWeb3Swift/Classes/ABIv2/ABIv2Decoding.swift:243 | A position key is never "name". |
| EventLogProperties.IndexedSource | TronWalletWeb3Swift/Classes/ABIv2/ABIv2Decoding.swift:281 | The k-th indexed value comes from an indexed input with exactly k indexed inputs before it. |
| EventLogProperties.NonIndexedSource | TronWalletWeb3Swift/Classes/ABIv2/ABIv2Decoding.swift:289 | The same for non-indexed values. |
| EventLogProperties.IndexedReferenceTopic | TronWalletWeb3Swift/Classes/ABIv2/ABIv2Decoding.swift:264 | A topic read as bytes32 yields its first 32 bytes, or fails when it is shorter. |
| Primitives.TwosComplementRoundTrip | TronWalletWeb3Swift/Classes/ABIv2/ABIv2Decoding.swift:67 | `fromTwosComplement` inverts the two's-complement word of every signed 256-bit value. |
| Primitives.FromTwosComplement | TronWalletWeb3Swift/Classes/ABIv2/ABIv2Decoding.swift:67 | The result lies in the signed 256-bit range, and it is negative exactly when the top bit is set. |
| Primitives.TruncatedRem | TronWalletWeb3Swift/Classes/ABIv2/ABIv2Decoding.swift:67 | BigInt's `%` keeps the dividend's sign, has magnitude below the modulus, and differs from the dividend by a multiple of it. |
| Primitives.WordValue | TronWalletWeb3Swift/Classes/ABIv2/ABIv2Decoding.swift:59 | The big-endian value of a value's 32-byte word is that value. |
| Primitives.BeToNatOfNatToBe | TronWalletWeb3Swift/Classes/ABIv2/ABIv2Decoding.swift:59 | Reading back a len-byte big-endian encoding gives the encoded number modulo 256^len. |
| Primitives.NatToBeOfBeToNat | TronWalletWeb3Swift/Classes/ABIv2/ABIv2Decoding.swift:59 | Re-encoding a byte string's value at its length gives the byte string back. |
| Primitives.Decimal | TronWalletWeb3Swift/Classes/ABIv2/ABIv2Decoding.swift:280 | `"\(i)"` is a non-empty string of digits. |
| Primitives.AsciiIsValidUtf8 | TronWalletWeb3Swift/Classes/ABIv2/ABIv2Decoding.swift:101 | Every ASCII byte string is valid UTF-8. |

## Left out

- DecodingSpec.DecodeSingle, DecodingSpec.FollowTheData: lengths and offsets are unbounded naturals. The source converts the length words with `UInt64(...)` and computes `32 + length` and `memoryUsage * length` in UInt64. It traps on values of 2^64 and above and on overflow. The model decodes (or fails on) those inputs instead of trapping.
- DecodingSpec.DecodeScalar: `String(data:encoding: .utf8)` is modelled as the predicate `ValidUtf8`: the well-formed byte sequences of the Unicode standard's table 3-7, which rule out overlong forms and surrogates. The decoded string is the byte sequence, not a Swift `String`.
- EventLogDecoding.Filled: input names and dictionary keys are compared as sequences of code points, not up to Unicode canonical equivalence as Swift's `String ==` compares them at lines 280-293. Two names that differ only in normalisation are distinct keys here and one key in the source. The same holds for EventLogProperties.DecodeLogEntries and EventLogProperties.DecodeLogPosition.
- The values are the `Value` datatype rather than `AnyObject`. Arrays and tuples both decode to `ListValue`, as both are `[AnyObject]` in the source.
- The slice at line 123 is unused and not modelled; line 122's length check is modelled. Line 139's re-based copy is modelled as `payload[32..]`, which the loop reads from cursor 0.
- The second `elementItself.count >= 32` guard (line 138) repeats line 135. The `length == staticLength` guard (line 153) cannot fail, because `arraySize` is derived from the same length. Both are kept in the model but have no lemma of their own.
- `isStatic`, `memoryUsage` and `arraySize` are defined in a file that is not part of this model. They follow the ABI: an array of length 0 is dynamic; a static array's head is length times its element's head; a static tuple's head is the sum of its members' heads.
- The event's signature topic (a Keccak-256 hash) is taken as a given byte string in `Event.topic`; hashing is not modelled.
- The encoder, the contract wrappers (ERC20, ERC721, ERC777), Web3+Infura and the filter-encoding extensions are context only and are not modelled.
- The commented-out debug printing is not modelled.

## Findings

| source | as written | input that shows it | evidently intended | confidence | as-written member | corrected member |
|---|---|---|---|---|---|---|
| TronWalletWeb3Swift/Classes/ABIv2/ABIv2Decoding.swift:149,165,184 | A dynamic tuple, and an array of dynamic elements, report `nextElementPointer` (the absolute position past their head slot) as consumed. The enclosing loop adds this to its cursor. | types `[uint256, (string), uint256]` over the words 7, 64, 32, 0: the tuple, read at cursor 32, reports 64, so the third value is read at byte 96 instead of 64 and the decode yields [7, [""], 0] instead of [7, [""], 32] (HeadLayout.SkipExampleDecodes) | report the head size (32 for a dynamic value), so value i is read at the sum of the head sizes before it | not executed | HeadLayout.AsWrittenThirdHead | HeadLayout.CorrectedThirdHead |
| TronWalletWeb3Swift/Classes/ABIv2/ABIv2Decoding.swift:189 | function reads bytes 8 ..< 32 of its word | the 24-byte function value of all 0x01 bytes, left-aligned as the ABI encodes `bytes24`: it decodes to its last 16 bytes followed by 8 zero bytes | read bytes 0 ..< 24 | not executed | ScalarDecoding.FunctionAsWrittenLoses | ScalarDecoding.FunctionRoundTrip |
