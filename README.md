# SDLMA-Core: the TEDS bit codec and its helpers, in Dafny

This project models the core of SDLMA-Core's IEEE 1451.4 Transducer
Electronic Data Sheet (TEDS) codec, and proves properties of that model:

- **Field elements** (`TedsElement`, `Bits`). Each Template Description Language
  element turns a fixed-width window of bits into a value and back. The kinds
  are UnInt, Chr5, ASCII, Date, ConRes, ConRelRes, Single, Enum and Constant.
  Bits travel least-significant bit first. The source pads a window to a byte
  boundary, reverses it and reads it big-endian; the model proves this equals
  the window's LSB-first value, and proves the round trips of every kind that
  has one.
- **Template engine** (`TedsSpec`, `Teds`). `StandardTeds` owns a bit stream
  whose read position advances with every field. It checks the optional
  40-bit NI preamble, reads the 74-bit Basic TEDS header, runs the version
  check, and dispatches on the template id (25 accelerometer & force,
  36 thermocouple). It then reads the common trailer, whose `user_data`
  takes every remaining bit.
  - `TedsSpec` states each step as a function over the bit sequence and the
    decoder state. It proves exactly how many bits each template consumes
    and when decoding fails.
  - `Teds` holds the classes `BitStream` and `StandardTeds`. Their methods
    update `pos` and the document in place, and each is proved to agree with
    its `TedsSpec` function.
  - The module also covers the conversion of an NI-DAQmx integer list into a
    stream, and the bits the file writer assembles from a document.
- **Helpers**:
  - `Measurement`: `get_names`, and `prepare_time_series` (stack signal rows,
    join names, cut the rows into equal windows).
  - `Ema`: the `SDLMAEMA` object's measurement list and `get_unique_names`.
  - `Hardware`: `nearest_even_divisor`.
  - `Uff`: `direction_to_int`.

Bits are `seq<bool>` in stream order. A decoded document is the
insertion-ordered dictionary `self.teds`, modelled as a sequence of
(key, element) pairs. A key is the position of its name in `TedsSpec.Keys`.
An element is a value: `from_bits` returns the element with its value set.

Where the specification text and the code disagree, the model follows the
code:

- An unknown template id raises nothing and reads no template body
  (`src/sdlma_teds/teds.py:113-118`).
- `direction_to_int` returns None for an unknown string: it builds the
  ValueError but never raises it.
- The force branches of template 25 raise NotImplementedError.
- The version check, as written, warns for every sensor that has a
  `version_number` (see Findings).

## Model

| member | source | states |
|---|---|---|
| Bits.ZeroPad | src/sdlma_teds/teds_element.py:27-33 | the padded stream has the least multiple-of-8 length not below the input's, starts with the input, and every added bit is 0 |
| Bits.ZeroPadAligned | src/sdlma_teds/teds_element.py:27-33 | a byte-aligned stream is returned unchanged, and no multiple of 8 at or above the input length is shorter than the padded stream |
| Bits.ReverseLength | src/sdlma_teds/teds_element.py:35-37 | reversal keeps the length and puts bit i at position len-1-i |
| Bits.ReverseInvolution | src/sdlma_teds/teds_element.py:35-37 | reversing twice gives the stream back |
| Bits.WindowValueIsLsb | src/sdlma_teds/teds_element.py:47-49 | pad, reverse and read big-endian is the LSB-first value sum bits[i]*2^i, which is below 2^n for an n-bit window |
| Bits.LsbRoundTrip | src/sdlma_teds/teds_element.py:39-40 | packing a value below 2^n into n LSB-first bits gives n bits whose LSB-first value is the value |
| Bits.LsbBitsOfValue | src/sdlma_teds/teds_element.py:47-53 | the n LSB-first bits of a window's value are the window itself |
| Bits.ReverseUIntBits | src/sdlma_teds/teds_element.py:39-40 | reversing the bit packer's MSB-first output gives the LSB-first bits of the value |
| Bits.BinDigitsAreUIntBits | src/sdlma_teds/teds.py:46 | the binary digits of n are its MSB-first bits at their own width, and n fits in that width |
| TedsElement.UIntFromBitsIsLsb | src/sdlma_teds/teds_element.py:47-49 | the UnInt decoder's value is the window's LSB-first value and lies below 2^len |
| TedsElement.ToBitstream | src/sdlma_teds/teds_element.py:39-40 | `to_bitstream` succeeds exactly for a width >= 1 and a value in [0, 2^width); the bits are then the value's LSB-first bits; otherwise the packer's range error |
| TedsElement.ElementToBits | src/sdlma_teds/teds_element.py:120-185 | a Constant encodes to None and nothing else does; Single and Enum raise NotImplementedError |
| TedsElement.UnsetRaises | src/sdlma_teds/teds_element.py:22-25 | every element that checks its value raises the unset-value error, and emits no bits, when the value is None |
| TedsElement.UnIntRoundTrip | src/sdlma_teds/teds_element.py:39-53 | an UnInt value in [0, 2^len) encodes to exactly len bits that decode back to the value |
| TedsElement.DateRoundTrip | src/sdlma_teds/teds_element.py:108-117 | a day offset from 1998-01-01 in [0, 2^len) encodes to len bits that decode back to the same offset |
| TedsElement.ConResQuotient | src/sdlma_teds/teds_element.py:136-143 | with exact arithmetic, the encoder's quotient (value - start) / step recovers the raw code the decoder scaled |
| TedsElement.ConRelResInjective | src/sdlma_teds/teds_element.py:152-157 | start*(1+2*step)^raw strictly increases with the raw code for positive start and step, so distinct codes decode to distinct values |
| TedsElement.Chr5DecodeShape | src/sdlma_teds/teds_element.py:60-66 | Chr5 decoding succeeds exactly on windows whose length is a multiple of 5, with one character per 5-bit group; otherwise the read past the end fails |
| TedsElement.Chr5FromBits | src/sdlma_teds/teds_element.py:60-66 | the reading loop yields the Chr5 decoding: chr(96+g) for each 5-bit group g, in order |
| TedsElement.Chr5CharBitsFromDigits | src/sdlma_teds/teds_element.py:72-73 | the last five zero-filled binary digits of a code, reversed, are the code's five low bits LSB first |
| TedsElement.Chr5ToBits | src/sdlma_teds/teds_element.py:68-74 | the encoding loop yields five bits per character in string order |
| TedsElement.Chr5EncodeDecode | src/sdlma_teds/teds_element.py:60-74 | decoding a window of whole 5-bit groups and encoding the text gives the window back |
| TedsElement.Chr5DecodeEncode | src/sdlma_teds/teds_element.py:60-74 | a text whose codes lie in 96..127 encodes to 5 bits per character and decodes back to itself |
| TedsElement.Chr5Decode | src/sdlma_teds/teds_element.py:60-66 | every decoded Chr5 character has a code in 96..127, and the only failure is the read past the window's end |
| TedsElement.AsciiDecode | src/sdlma_teds/teds_element.py:81-92 | every character ASCII decoding produces has a 7-bit code |
| TedsElement.AsciiDecodeLength | src/sdlma_teds/teds_element.py:81-92 | ASCII decoding gives one character per whole 7-bit group and drops a shorter tail |
| TedsElement.AsciiFromBits | src/sdlma_teds/teds_element.py:81-92 | the reading loop, which reads only while 7 bits remain, yields the ASCII decoding |
| TedsElement.AsciiCharBitsFromDigits | src/sdlma_teds/teds_element.py:99-100 | each character's bits are its zero-filled binary digits reversed; a code of 128 or more gives more than 7 bits |
| TedsElement.AsciiToBits | src/sdlma_teds/teds_element.py:94-101 | the encoding loop yields each character's bits in string order |
| TedsElement.AsciiEncodeDecode | src/sdlma_teds/teds_element.py:81-101 | decoding a window and encoding the text gives back the window's whole 7-bit groups |
| TedsElement.AsciiDecodeEncode | src/sdlma_teds/teds_element.py:81-101 | a text of 7-bit codes encodes to 7 bits per character and decodes back to itself |
| TedsElement.ElementFromBits | src/sdlma_teds/teds_element.py:47-182 | `from_bits` raises NotImplementedError exactly for Single and Enum, leaves a Constant as it is, and otherwise sets the value and keeps the field's width |
| TedsElement.FromBits | src/sdlma_teds/teds_element.py:47-182 | `from_bits` of every element kind on its window, as the decoding function states it |
| TedsElement.ToBits | src/sdlma_teds/teds_element.py:51-185 | `to_bits` of every element kind, as the encoding function states it |
| TedsSpec.ReadBits | src/sdlma_teds/teds.py:105-108 | a read of n bits succeeds exactly when 0 <= n and n bits remain, returns n bits and advances the position by n; otherwise a read error |
| TedsSpec.ReadFields | src/sdlma_teds/teds.py:104-110 | reading a field list yields one decoded field per listed field and never moves the position backwards or past the end |
| TedsSpec.ReadFieldsFixed | src/sdlma_teds/teds.py:104-110 | fixed-width fields read successfully exactly when their summed width remains, and the position then advances by that sum; otherwise a read error |
| TedsSpec.ReadFieldsLast | src/sdlma_teds/teds.py:105-107 | a list whose last field has length -1 ends at the end of the stream |
| TedsSpec.ReadStop | src/sdlma_teds/teds.py:104-110 | the position the field loop reaches, whether it succeeds or fails, lies between its start and the end of the stream |
| TedsSpec.ReadStopAgrees | src/sdlma_teds/teds.py:104-110 | when every field reads, the loop stops where the decoded fields end |
| TedsSpec.ProcessSpec | src/sdlma_teds/teds.py:103-111 | a successful `process` moves the position forwards and never past the end |
| TedsSpec.ProcessFixed | src/sdlma_teds/teds.py:103-111 | `process` on fresh fixed-width fields succeeds exactly when the stream holds them, appends the decoded fields in read order and advances the position by their width |
| TedsSpec.Merge | src/sdlma_teds/teds.py:111 | `update` keeps every key of the document in its place and adds at most one entry per entry of the update |
| TedsSpec.MergeFresh | src/sdlma_teds/teds.py:111 | `update` with keys new to the document appends the entries in order |
| TedsSpec.MergeLookup | src/sdlma_teds/teds.py:111 | after `update`, a key of the update maps to its new element and every other key keeps its element |
| TedsSpec.PutLookup | src/sdlma_teds/teds.py:111 | assigning under a key makes it map to the new element and leaves every other key unchanged |
| TedsSpec.FieldValMissing | src/sdlma_teds/teds.py:96 | indexing the document raises KeyError exactly when the key is absent |
| Teds.BitStream.Read | src/sdlma_teds/teds.py:105-108 | `read(n)` returns the next n bits and moves the position past them, or fails and moves nothing |
| Teds.StandardTeds.Process | src/sdlma_teds/teds.py:103-111 | the loop reads and decodes each field in dictionary order and then updates the document, as the `process` function states; on failure the document is unchanged and the stream sits after the last read, past the failing field's window when its decoding fails |
| Teds.StandardTeds.constructor | src/sdlma_teds/teds.py:77-78 | a new decoder holds an empty document over the given stream |
| TedsSpec.PreambleSpec | src/sdlma_teds/teds.py:79-82 | the preamble check leaves the position within the stream |
| Teds.StandardTeds.ReadPreamble | src/sdlma_teds/teds.py:79-82 | the read agrees with the preamble check; on failure the stream has not moved when fewer than 40 bits remain, and is 40 bits on after a mismatch |
| TedsSpec.PreambleStage | src/sdlma_teds/teds.py:79-82 | with a preamble, the first 40 bits must equal 0xDA6E0CCCBA or the decoder raises before any header field; a short stream fails the read; without one, nothing is skipped |
| TedsSpec.HeaderFixed | src/sdlma_teds/teds.py:83-91 | the header fields are fixed width, 74 bits in all, with the version number at offset 34 and the template id at offset 66 |
| TedsSpec.HeaderLayout | src/sdlma_teds/teds.py:83-92 | the header reads exactly when 74 bits remain, ends 74 bits on, and holds the 6-bit version number and the 8-bit template id read from their windows |
| TedsSpec.HeaderStage | src/sdlma_teds/teds.py:83-94 | the header stage fails only by a short read; after it, the version check cannot fail and the template id is the LSB-first value of bits 66..73 |
| TedsSpec.LegacyWarningAsWritten | src/sdlma_teds/teds.py:246-248 | the check as written raises KeyError exactly when `version_number` is absent, and otherwise always warns |
| TedsSpec.LegacyWarningIntended | src/sdlma_teds/teds.py:246-248 | the corrected check raises KeyError likewise, and warns exactly when the version number's value is not 2 |
| TedsSpec.HeaderWarningAsWritten | src/sdlma_teds/teds.py:246-248 | once a header reads, the check as written warns, and it disagrees with the corrected check exactly when the 6-bit version number is 2 |
| TedsSpec.HeaderWarning | src/sdlma_teds/teds.py:246-248 | the corrected check warns exactly when the 6-bit version number read from the header is not 2 |
| TedsSpec.LegacyWarningAsWrittenDiffers | src/sdlma_teds/teds.py:246-248 | the check as written warns for a document whose version number is 2, where the corrected check does not |
| Teds.StandardTeds.CheckBasicTeds | src/sdlma_teds/teds.py:246-248 | returns the legacy-warning decision as the code makes it: the missing-key error without `version_number`, and otherwise always a warning |
| TedsSpec.LoadTemplateSpec | src/sdlma_teds/teds.py:113-118 | dispatching on the template id never moves the position backwards or past the end |
| TedsSpec.LoadTemplateLayout | src/sdlma_teds/teds.py:113-118 | `load_template` consumes exactly the template body's bits (template 25 as laid out, 59 for 36, none for any other id) and fails exactly when that layout fails, with the same error |
| Teds.StandardTeds.LoadTemplate | src/sdlma_teds/teds.py:113-118 | the dispatch updates the decoder as the `load_template` function states |
| TedsSpec.SelectorStage | src/sdlma_teds/teds.py:149-154 | the two selector bits read exactly when 2 bits remain; `acceleration_force` and `extended_functionality` are the values of those bits |
| TedsSpec.BranchStage | src/sdlma_teds/teds.py:156-177 | the branch succeeds only for acceleration_force 0 and reads 51 bits with extended functionality 1, 24 bits otherwise; force raises NotImplementedError, a short stream a read error |
| TedsSpec.AccelBranchSpec | src/sdlma_teds/teds.py:156-177 | the branch never moves the position backwards or past the end |
| TedsSpec.AccelNoExtFixed | src/sdlma_teds/teds.py:201-206 | the no-extension accelerometer block is 16 + 8 = 24 fixed bits |
| TedsSpec.AccelExtFixed | src/sdlma_teds/teds.py:211-231 | the extended accelerometer block is 51 fixed bits, its constants taking none |
| TedsSpec.ExtConstants | src/sdlma_teds/teds.py:211-231 | on a stream that holds the extended block, its eleven constants are recorded with their fixed values |
| TedsSpec.CommonStage | src/sdlma_teds/teds.py:179-189 | the common block reads exactly when 10 bits remain, and `transfer_function` is the value of its last bit |
| TedsSpec.TransferStage | src/sdlma_teds/teds.py:191-192 | the transfer-function block reads 38 bits when the flag is 1 and none otherwise; it fails only by a short read |
| TedsSpec.TransferFunctionFixed | src/sdlma_teds/teds.py:236-244 | the transfer-function block is 7 + 9 + 9 + 7 + 6 = 38 fixed bits |
| TedsSpec.RefStage | src/sdlma_teds/teds.py:194-199 | the reference block reads exactly when 13 bits remain and advances 13 bits |
| TedsSpec.AccelTailAgrees | src/sdlma_teds/teds.py:179-199 | the blocks after the branch read exactly 10 + (38 if the transfer-function bit is 1) + 13 bits, and fail exactly where that count does not fit |
| TedsSpec.AccelForceLayout | src/sdlma_teds/teds.py:147-199 | template 25 succeeds exactly when its bit layout fits, fails with the layout's error (read error, or NotImplementedError for force), and then advances by the layout's count |
| Teds.StandardTeds.AccelerometerForceTemplate | src/sdlma_teds/teds.py:147-199 | the method updates the decoder as the template-25 function states |
| Teds.StandardTeds.AccelerometerTail | src/sdlma_teds/teds.py:179-199 | the common, optional transfer-function and reference blocks update the decoder as the function for them states |
| Teds.StandardTeds.AccelerometerNoExtTemplate | src/sdlma_teds/teds.py:201-206 | processes the no-extension block |
| Teds.StandardTeds.ForceNoExtTemplate | src/sdlma_teds/teds.py:208-209 | always raises NotImplementedError |
| Teds.StandardTeds.AccelerometerExtTemplate | src/sdlma_teds/teds.py:211-231 | processes the extended accelerometer block |
| Teds.StandardTeds.ForceExtTemplate | src/sdlma_teds/teds.py:233-234 | always raises NotImplementedError |
| Teds.StandardTeds.TransferFunctionTemplate | src/sdlma_teds/teds.py:236-244 | processes the transfer-function block |
| TedsSpec.ThermocoupleStage | src/sdlma_teds/teds.py:132-145 | template 36 reads exactly when 59 bits remain, advances 59 bits and fails only by a short read |
| TedsSpec.ThermocoupleConstants | src/sdlma_teds/teds.py:132-145 | template 36 records its two zero-width constants with their fixed values |
| Teds.StandardTeds.ThermocoupleTemplate | src/sdlma_teds/teds.py:132-145 | processes the thermocouple block |
| TedsSpec.EndFixed | src/sdlma_teds/teds.py:121-127 | the trailer before `user_data` is 16 + 15 + 12 + 11 + 2 + 1 = 57 fixed bits |
| TedsSpec.EndSpec | src/sdlma_teds/teds.py:120-130 | a successful trailer ends at the end of the stream |
| TedsSpec.EndStage | src/sdlma_teds/teds.py:120-130 | the trailer fails with a read error exactly when fewer than 57 bits remain; otherwise `user_data` is the ASCII text of every bit after them |
| TedsSpec.EmptyUserData | src/sdlma_teds/teds.py:120-130 | a stream ending right after the 57 fixed trailer bits decodes with an empty `user_data` |
| Teds.StandardTeds.EndTemplate | src/sdlma_teds/teds.py:120-130 | processes the trailer |
| TedsSpec.DecodeSpec | src/sdlma_teds/teds.py:64-98 | a successful decode has consumed the whole stream |
| TedsSpec.DecodeAgreesWithLayout | src/sdlma_teds/teds.py:64-98 | the decoder succeeds exactly when the stream's layout (preamble, 74-bit header, template body, 57 trailer bits) fits, fails with the layout's error, and its `user_data` is the ASCII text after the trailer's fixed bits |
| TedsSpec.DecodeBeforeHeader | src/sdlma_teds/teds.py:79-92 | a stream whose preamble or header does not read fails the decoder with the layout's error |
| TedsSpec.DecodeAfterHeader | src/sdlma_teds/teds.py:92-98 | once the preamble and header are read, the decoder is the version check, the template body and the trailer |
| TedsSpec.DecodeStop | src/sdlma_teds/teds.py:77-98 | the position where the constructor leaves the caller's stream, on success or failure, lies between the start and the end |
| TedsSpec.DecodeStops | src/sdlma_teds/teds.py:77-98 | after a successful decode the stream is at its end; after a short preamble read it has not moved; after a preamble mismatch it is 40 bits on |
| Teds.StandardTeds.FromHeader | src/sdlma_teds/teds.py:83-98 | the steps from the header on update the decoder as their function states, and leave the stream where their reads stop |
| Teds.StandardTeds.AfterHeader | src/sdlma_teds/teds.py:92-98 | the version check, template and trailer update the decoder as their function states, and leave the stream where their reads stop |
| Teds.StandardTeds.Init | src/sdlma_teds/teds.py:79-98 | the constructor body updates the decoder as the decode function states, and leaves the stream where the reads stop, on failure as well |
| Teds.StandardTeds.Decode | src/sdlma_teds/teds.py:64-98 | `StandardTeds(bitstream, has_preamble)` yields a decoder in the decoded state exactly when decoding succeeds, and otherwise raises the decoder's error; either way the caller's stream is left where the reads stopped |
| Teds.StandardTeds.NidaqmxListToBitstream | src/sdlma_teds/teds.py:37-49 | the conversion succeeds exactly for a list of non-negative items, giving the items' padded reversed binary digits in order with the position reset to 0 |
| Teds.ItemBitsValue | src/sdlma_teds/teds.py:45-47 | every item contributes a positive whole number of bytes whose LSB-first value is the item |
| Teds.ItemBitsByte | src/sdlma_teds/teds.py:45-47 | an item below 256 contributes exactly its eight low bits, LSB first |
| Teds.NidaqmxBytes | src/sdlma_teds/teds.py:37-49 | a list of bytes converts to 8 bits per item, and bits 8k..8k+7 read back item k |
| TedsSpec.WriteSpec | src/sdlma_teds/teds.py:54-57 | the assembled bits always begin with the 40-bit preamble |
| Teds.StandardTeds.WriteTedsBits | src/sdlma_teds/teds.py:52-57 | the writer's loop appends the bits of every non-Constant element after the preamble, in document order, or raises the first element's error |
| Teds.WrittenPreambleReads | src/sdlma_teds/teds.py:54-57 | a written stream passes the decoder's preamble check |
| Teds.ElementRewrites | src/sdlma_teds/teds_element.py:39-53 | encoding an element decoded from its window gives the window back; a Constant gives None |
| Teds.FixedRewrites | src/sdlma_teds/teds.py:52-57 | writing the document that fresh fixed-width rewritable fields decode to gives the preamble followed by exactly the bits they were read from |
| Teds.HeaderRewrites | src/sdlma_teds/teds.py:52-57 | writing the document a header decodes to gives the preamble followed by the header's 74 bits |
| Teds.FieldsBitsAppend | src/sdlma_teds/teds.py:54-56 | writing two documents one after the other writes the first one's bits, then the second one's |
| Teds.ProcessWritesBack | src/sdlma_teds/teds.py:103-111 | a `process` call on fresh, rewritable fixed-width fields extends what the document writes back by exactly the bits it read |
| Teds.AccelWritesBack | src/sdlma_teds/teds.py:147-199 | after template 25, the document still writes back every bit read so far |
| Teds.TemplateWritesBack | src/sdlma_teds/teds.py:113-118 | after `load_template`, for any template id, the document still writes back every bit read so far |
| Teds.UserDataEnd | src/sdlma_teds/teds.py:120-130 | where the last whole 7-bit `user_data` character ends: fewer than 7 bits before the stream's end, and at the end exactly when the `user_data` bits are whole 7-bit groups |
| Teds.EndWritesBack | src/sdlma_teds/teds.py:120-130 | the trailer writes back its 57 fixed bits and every whole 7-bit group of `user_data`; a last group of fewer than 7 bits is lost |
| Teds.DecodeWritesBack | src/sdlma_teds/teds.py:64-98 | writing a decoded document gives the preamble, then the stream from the header on, up to the last whole 7-bit character of `user_data` |
| Teds.DecodeRewrites | src/sdlma_teds/teds.py:52-98 | for a stream with a preamble whose `user_data` bits are whole 7-bit groups, writing the decoded document gives the stream back exactly |
| Measurement.GetNames | src/sdlma_modal_analysis/sdlma_measurement.py:162-169 | `get_names` returns one excitation name per excitation signal and one response name per response signal, in list order |
| Measurement.SignalNames | src/sdlma_modal_analysis/sdlma_measurement.py:162-169 | `get_names` lists one name per signal, the name of signal i at index i, for the excitation and response lists |
| Measurement.JoinSplit | src/sdlma_modal_analysis/sdlma_measurement.py:136-144 | the combined name, cut at '_', gives back the signal names in list order when no name contains '_' |
| Measurement.StackSignals | src/sdlma_modal_analysis/sdlma_measurement.py:137-144 | the first loop yields the joined name and the stacked rows, or the stacking error when rows differ in length |
| Measurement.PrepareSpec | src/sdlma_modal_analysis/sdlma_measurement.py:129-160 | a successful preparation has signals of one row length, a window of at least 1, and at least one block; the row length is blocks times window |
| Measurement.PrepareSucceeds | src/sdlma_modal_analysis/sdlma_measurement.py:136-148 | preparation succeeds exactly when there are signals, their rows have one length and a positive window divides it at least once; there are row length / window blocks |
| Measurement.PreparedBlock | src/sdlma_modal_analysis/sdlma_measurement.py:141-159 | block i holds, for every signal in order, samples i*w up to (i+1)*w, and carries the first signal's metadata and the joined name |
| Measurement.PreparedRowsRestore | src/sdlma_modal_analysis/sdlma_measurement.py:141-149 | concatenating a signal's windows across the blocks in order restores its row |
| Measurement.CollectBlocks | src/sdlma_modal_analysis/sdlma_measurement.py:149-160 | the second loop builds one dict per chunk, in order, with the first signal's metadata and the joined name |
| Measurement.PrepareTimeSeries | src/sdlma_modal_analysis/sdlma_measurement.py:129-160 | the two loops yield the preparation's result, including each of its errors |
| Ema.Ema.constructor | src/sdlma_modal_analysis/sdlma_ema.py:15-54 | keeps the fit settings, and a measurements argument of None becomes an empty list |
| Ema.Ema.AddMeasurement | src/sdlma_modal_analysis/sdlma_ema.py:62-68 | appends the measurement at the end; earlier measurements and the settings are unchanged |
| Ema.Ema.GetUniqueNames | src/sdlma_modal_analysis/sdlma_ema.py:70-81 | the nested loop yields the names of all measurements, exc before resp, with every repeat dropped |
| Ema.UniqueNames | src/sdlma_modal_analysis/sdlma_ema.py:75-81 | the unique names have no duplicates, are exactly the names of the measurements, and come in first-occurrence order |
| Ema.AddKeepsNames | src/sdlma_modal_analysis/sdlma_ema.py:62-81 | after adding a measurement, the earlier unique names stay in place at the front |
| Hardware.NearestEvenDivisor | src/sdlma_hardware/sdlma_hardware.py:127-138 | for n >= 1 the result is a divisor in 1..n that no divisor is strictly closer to the target than, and ties go to the smaller divisor; for n <= 0 the empty minimum fails |
| Hardware.DivisorsUpTo | src/sdlma_hardware/sdlma_hardware.py:135 | the comprehension lists exactly the divisors of n in 1..k, ascending |
| Hardware.ClosestIndex | src/sdlma_hardware/sdlma_hardware.py:136 | `min` by distance picks an element at least as close as every other, before which every element is strictly farther |
| Uff.DirectionToInt | src/sdlma_modal_analysis/sdlma_uff.py:8-28 | every code lies in -3..3, and "Scalar" alone gets 0 |
| Uff.DirectionCodes | src/sdlma_modal_analysis/sdlma_uff.py:8-28 | exactly the seven direction strings get a code; each code lies in -3..3 and maps back to its string, so codes are distinct; any other string gives None |
| Uff.DirectionNames | src/sdlma_modal_analysis/sdlma_uff.py:13-26 | every code in -3..3 is the code of one direction string |
| Uff.DirectionSign | src/sdlma_modal_analysis/sdlma_uff.py:15-26 | "-X", "-Y" and "-Z" map to the negated codes of "+X", "+Y" and "+Z", which are positive |

## Left out

- File I/O: `read_bitstream_from_file` relies on Python's `repr` of `bytes`. The file-writing part of `write_teds_to_file` and `write_to_file` is plain output. Only the bit sequence the writer assembles is modelled.
- Console output: `print_teds_array` is left out. The legacy warning is modelled as the boolean saying whether it prints.
- Floating point: the ConRes encoder divides and the ConRelRes encoder takes `math.log`, both unrounded, and hands the float quotient to `Bits(uint=…)` (src/sdlma_teds/teds_element.py:142 and :161). The model keeps the integer raw code and encodes that. The decode formulas are stated over exact `real` arithmetic.
- Teds.ElementRewrites: ConRes and ConRelRes elements re-encode to their window only under the raw-code encoder. The source's float quotient is not exact in general, and for `thermocouple_resistance` (start 1, step 1, decoded as 3^raw) `math.log` overflows for raw codes above about 646.
- Teds.FixedRewrites: the same restriction holds for every field list that contains a ConRes or ConRelRes field.
- Teds.DecodeRewrites: the same restriction holds for the whole-document round trip.
- Calendar arithmetic: a Date is its day offset from 1998-01-01.
- bitstring internals: a `BitStream` is its bits and its position. `Bits(uint=…)` is modelled as a packer that refuses a zero width or an out-of-range value.
- Dictionary keys are positions in `TedsSpec.Keys` rather than strings.
- Element objects: the source mutates the template dictionaries' element objects in `from_bits` and shares them with `self.teds`. The model returns new element values, so it does not capture that aliasing.
- `SDLMAMeasurement`: only its constructor arguments are modelled. `calc_frf` and the FRF object are numerics. numpy arrays are sequences of rows of opaque samples.
- Measurement.PrepareSpec: `window_len` divides the row length exactly. The float division `num_impacts` and its `% 1` test could misjudge huge sample counts, which is not modelled. The deep copy needs no modelling, because signals are values and cannot be edited in place.
- `SDLMAEMA`: only the five fit settings and `measurements` are modelled. The FRF, pole and mode fields are results of sdypy numerics. `remove_measurement` has an empty body. `calc` and the pole methods are foreign numerics. The constructor keeps the caller's `measurements` list itself (src/sdlma_modal_analysis/sdlma_ema.py:54), and `add_measurement` appends to that same list, so the caller sees the append. `Ema.Ema` holds the list as a value and does not capture this aliasing.
- Hardware.NearestEvenDivisor: models the code, which does not require an even divisor despite its name.
- NI DAQ tasks, channel configuration, HDF5 import/export and the UFF writers are hardware or file I/O.

## Findings

| source | as written | input that shows it | evidently intended | confidence | as-written member | corrected member |
|---|---|---|---|---|---|---|
| src/sdlma_teds/teds.py:246-248 | `self.teds["version_number"] != 2` compares the element object, not its value, with 2, so it is always true and the legacy-format warning prints for every sensor | a header whose 6-bit version number field holds 2 | warn only when the version number's value is not 2 | not executed | TedsSpec.HeaderWarningAsWritten | TedsSpec.HeaderWarning |
