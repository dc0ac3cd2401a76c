# Hidden-file extractor, modelled in Dafny

`extractor.py` searches an image for a file hidden in the least significant
bits of its pixels. It tries every combination of:

- bit depth, 1 to `--max-bits`;
- channel selection: RGB, BGR, RGBA, R, G, B or A;
- bit order: MSB-first or LSB-first;
- data flow: by planes, "RRR...GGG...BBB...", or interleaved by pixel,
  "RGB,RGB,...".

For each combination it does four things:

1. It extracts a bit stream, taking `format(value, '08b')[-n:]` from every
   selected channel that a pixel has.
2. It groups the bits into bytes, with `bits_to_bytes`.
3. It scans the bytes for the first entry of its signature table that
   occurs anywhere, with `find_signature`.
4. It carves the payload from the reported offset. A JPEG ends just after
   the first end-of-image marker FF D9 at or after the start. Any other type
   runs to the end of the data.

Every match is numbered and written to a file. A failed write is still
counted.

The model follows the program's structure, one module per part:

| module | models |
|---|---|
| `Binary` | Bits and bytes, and Python's `format(v, '08b')`, `int(s, 2)` and `s[::-1]` on bit strings. |
| `Extraction` | The two extractors. Each is a method with the source's nested loops, proved equal to a recursive specification (`ByPlane`, `ByPixel`). |
| `Assembly` | `bits_to_bytes` as a loop, proved equal to `Assemble`. Byte k is made of bits 8k..8k+7, and assembly undoes byte-wise formatting in both bit orders. |
| `Signatures` | The signature table in declaration order, `bytes.find`, and `find_signature` as a loop. The scanner reports the first table entry that occurs, at its first offset: table order, not offset, decides. |
| `Carving` | The carving rule inside `main`. |
| `Search` | `main`'s four nested loops as methods (`RunSearch`, `SearchDepth`, `Record`, `Tally`). The ensures of each method tie its state to specification functions: the order of the attempts (`Attempts`), the numbered discoveries (`Discoveries`) and the saved files (`Saved`). Lemmas prove what those functions mean. |

Nothing is read from disk. An image is the sequence of its pixels, and a
pixel is the sequence of its channel values. The file system is a log of
saved artifacts, and the set of discovery numbers whose write fails is a
parameter.

## Model

| member | source | states |
|---|---|---|
| Binary.ByteRoundTrip | extractor.py:38 | `int(format(v, '08b'), 2) == v` for every byte v |
| Binary.Format8 | extractor.py:51 | `format(v, '08b')` always has exactly 8 digits: leading zeros are kept |
| Binary.ValueMsb | extractor.py:38 | `int(s, 2)`: a bit string of length L reads as a value below 2^L |
| Binary.Reverse | extractor.py:36 | The definition of `s[::-1]` on bit strings. Its properties are in the `Binary.ReverseInvolutive` and `Binary.ReversedValue` rows |
| Binary.ReverseInvolutive | extractor.py:35-36 | Reversing twice gives the string back, so LSB-first assembly undoes a per-byte reversal |
| Binary.ToBinaryValue | extractor.py:51 | Reading the w-digit binary form back gives v modulo 2^w |
| Binary.Format8IsBinary | extractor.py:51 | `format(v, '08b')` is the 8-digit binary form, most significant digit first |
| Binary.ValueMsbIsWeighted | extractor.py:38 | `int(s, 2)` equals the positional sum in which bit j weighs 2^(len-1-j) |
| Binary.ReversedValue | extractor.py:35-38 | `int(s[::-1], 2)` is s read least significant bit first |
| Extraction.FormatSuffixIsLowBits | extractor.py:51 | `format(v, '08b')[-n:]` is the low n bits of v. For n == 0 or n > 8, Python's slice keeps all 8 digits |
| Extraction.TakeLast | extractor.py:51 | `s[-n:]`: the last n items when 1 <= n <= len, and all of s when n is 0 (`s[-0:]` is `s[0:]`) or exceeds len |
| Extraction.LowBitsValue | extractor.py:51 | The extracted chunk, read back, is v modulo 2^n |
| Extraction.LowBitsAt | extractor.py:51 | Digit j of the chunk is bit n-1-j of the value |
| Extraction.PairBits | extractor.py:49-51 | One step of either extractor: the pixel's low bits of channel c, or nothing when the pixel lacks c |
| Extraction.ExtractByPlane | extractor.py:43-52 | The loop builds exactly the channel-major stream: the whole plane of each selected channel, in the given channel order |
| Extraction.ExtractByPixel | extractor.py:54-63 | The loop builds exactly the pixel-major stream: each pixel's selected channels, in pixel order |
| Extraction.ByPlaneLength | extractor.py:47-51 | The by-plane stream has n bits per (pixel, channel) pair whose pixel has the channel |
| Extraction.ByPixelLength | extractor.py:58-62 | The by-pixel stream has n bits per (pixel, channel) pair whose pixel has the channel |
| Extraction.FlowsSameLength | extractor.py:43-63 | Both flows emit the same number of bits |
| Extraction.SingleChannelFlowsAgree | extractor.py:43-63 | With a single selected channel, both flows produce the same stream |
| Extraction.PlaneIsByPixel | extractor.py:43-63 | One channel's plane equals the by-pixel stream of that one channel |
| Extraction.PlaneOfChunk | extractor.py:47-51 | When every pixel has channel c, the plane has n bits per pixel, and bit k*n+j is bit j of pixel k's chunk |
| Extraction.PlaneOfAt | extractor.py:47-51 | When every pixel has channel c, bit k*n+j of the plane is bit n-1-j of pixel k's value in that channel |
| Extraction.ByPixelLengthAll | extractor.py:58-62 | When every pixel has every selected channel, the by-pixel stream has n bits per channel per pixel |
| Extraction.ByPixelGrows | extractor.py:58-62 | The stream of the first m pixels is a prefix of the whole by-pixel stream |
| Extraction.ByPixelAt | extractor.py:58-62 | When every pixel has every selected channel, bit C*n*k + n*m + j of the by-pixel stream (C channels, j < n) is bit n-1-j of channel `channels[m]` of pixel k |
| Assembly.BitsToBytes | extractor.py:29-41 | The loop returns exactly `Assemble`: one byte per full group of 8 bits, in order |
| Assembly.AssembleLength | extractor.py:32-34 | Exactly floor(len/8) bytes come out: a partial last group is dropped, never padded |
| Assembly.AssembleAt | extractor.py:32-38 | Byte k exists once bits 8k..8k+7 exist, and it is made of those bits only |
| Assembly.AssembleFrom | extractor.py:32-34 | From offset i: one byte for the next full group, or nothing once fewer than 8 bits remain |
| Assembly.GroupByteWeights | extractor.py:35-38 | MSB-first, bit j of a group weighs 2^(7-j). LSB-first, it weighs 2^j |
| Assembly.AssembleWeights | extractor.py:32-38 | Byte k is the positional sum of bits 8k..8k+7 in the chosen bit order |
| Assembly.RoundTripMsb | extractor.py:29-41 | MSB-first assembly of byte-wise `format(b, '08b')` bits gives the bytes back |
| Assembly.RoundTripLsb | extractor.py:29-41 | LSB-first assembly of per-byte reversed bits gives the bytes back |
| Signatures.Find | extractor.py:24 | `data.find(p, start)`: the first offset at or after start where p occurs, or None (Python's -1) when p occurs nowhere from start on |
| Signatures.Table | extractor.py:7-19 | The signature table: eleven entries in declaration order, with GIF87a and GIF89a both tagged GIF. The order decides which type is reported |
| Signatures.ScanFrom | extractor.py:23-27 | The scan from table entry k on reports an entry that occurs, at its first offset, with no earlier entry (from k) occurring anywhere. None means no entry from k on occurs |
| Signatures.Scan | extractor.py:21-27 | `find_signature` returns None exactly when no table entry occurs. Otherwise it returns the first entry that occurs, in table order, at that entry's first offset |
| Signatures.FindSignature | extractor.py:21-27 | The loop over the table returns exactly `Scan` |
| Signatures.TableOrderWins | extractor.py:23-26 | If entry e occurs anywhere, the scan reports e or an earlier entry |
| Signatures.PngFirst | extractor.py:7-26 | A PNG signature anywhere makes the scan report PNG at its first occurrence |
| Signatures.PngBeatsEarlierZip | extractor.py:7-26 | PNG wins even when a ZIP header comes before it in the data |
| Carving.Carve | extractor.py:110-119 | The payload is a slice starting at the match. A non-JPEG payload, or a JPEG with no marker after the start, runs to the end of the data |
| Carving.JpgCutAtFirstMarker | extractor.py:111-115 | A JPEG cut at a marker ends with FF D9 and contains no other FF D9: the cut is at the first marker at or after the start |
| Search.AttemptsNested | extractor.py:88-91 | The combination (depth n, config c, order l, flow f) is attempt number 28(n-1)+4c+2l+f |
| Search.ChannelConfigs | extractor.py:82 | The seven channel selections RGB, BGR, RGBA, R, G, B, A as channel indices, in loop order |
| Search.BitOrders | extractor.py:90 | MSB-first, then LSB-first |
| Search.Flows | extractor.py:83 | By planes, then pixel by pixel |
| Search.AttemptsAt | extractor.py:88-91 | The loop order equals the closed-form mixed-radix order `AttemptAt` |
| Search.AttemptAtDecode | extractor.py:88-91 | The closed form sends 28(n-1)+4c+2l+f back to the combination (n, c, l, f) |
| Search.AttemptsDistinct | extractor.py:82-91 | No combination is tried twice |
| Search.NothingInEmpty | extractor.py:98-100 | Every table entry is non-empty, so empty data matches nothing |
| Search.ScanInBounds | extractor.py:102 | A reported offset lies strictly inside the data, because every table pattern is non-empty. So the slices at extractor.py:115-119 start within the bytes |
| Search.OutcomeSpec | extractor.py:97-119 | An attempt finds something exactly when a table entry occurs in its bytes, so the two early `continue`s lose nothing. What it finds is the scanner's type and offset, and the carved slice from that offset |
| Search.Outcome | extractor.py:97-119 | One attempt's result: nothing on an empty bit stream or empty bytes, otherwise the scan and the carve. Characterised by `OutcomeSpec` |
| Search.Attempt | extractor.py:97-119 | One attempt (extract, assemble, scan, carve) returns exactly `Outcome` |
| Search.Tally | extractor.py:104-125 | After a match: found is set, the count goes up by one, and the payload is saved unless its write fails |
| Search.Record | extractor.py:97-125 | One iteration of the innermost loop keeps the results and the books in step with the attempts tried |
| Search.SearchDepth | extractor.py:89-125 | One bit depth tries the 28 combinations in nested-loop order and keeps the books |
| Search.RunSearch | extractor.py:85-125 | Every combination is tried, in order. `files_found_count` ends equal to the number of discoveries, which is the number of matching attempts. found holds iff count > 0, and saved holds the discoveries whose write did not fail |
| Search.NumberedNumbers | extractor.py:104-106 | The discoveries are numbered 1, 2, 3, ... in order |
| Search.NumberedSound | extractor.py:102-106 | Each numbered discovery comes from one attempt's result |
| Search.NumberedComplete | extractor.py:102-106 | The match of attempt t is the discovery at index k, where k counts the matching attempts before t, and it carries number k + 1 |
| Search.CountIsMatches | extractor.py:104-106 | There is one discovery per matching attempt, and no more |
| Search.MatchCountGrows | extractor.py:104-106 | A matching attempt is counted before any later attempt |
| Search.DiscoveriesNumbered | extractor.py:104-106 | Discovery k carries number k + 1: the numbers run 1, 2, 3, ... with no gap and no repeat |
| Search.DiscoveriesSound | extractor.py:97-119 | Every discovery is what some attempt found, with that attempt's configuration, type and bytes |
| Search.DiscoveriesComplete | extractor.py:97-119 | Whatever attempt t finds is the discovery at index k, where k is the number of matching attempts before t, and it is numbered k + 1 |
| Search.DiscoveriesInOrder | extractor.py:88-106 | Discoveries come in attempt order: an earlier matching attempt gets a smaller index |
| Search.DiscoveriesCount | extractor.py:104-106 | The number of discoveries is the number of matching attempts |
| Search.FoundIffSomeMatch | extractor.py:104-106 | Something is found exactly when some attempt matches |
| Search.SavedMembers | extractor.py:123-148 | A discovery is saved exactly when its write does not fail |
| Search.SavedAtMost | extractor.py:123-148 | There are never more saved files than discoveries |

## Left out

- Image loading, and conversion to RGBA (extractor.py:73-80). The image is
  its pixel sequence, and a pixel may have any number of channels, which is
  more general than RGBA's four.
- Argument parsing (extractor.py:66-70). The bit depth bound is the `maxBits`
  parameter.
- Search.RunSearch: maxBits is a nat. A negative `--max-bits` makes the
  source's range empty, which is the same as 0.
- Every `print`: progress lines, discovery reports and the final summary.
  The progress line of each attempt is modelled by the `tried` log.
- The output file name (extractor.py:121), and channel and flow labels.
  An artifact carries its number, configuration and type instead.
- The actual file write (extractor.py:123-148). It is the `saved` log, and
  the discovery numbers whose write raises are the `writeFails` parameter.
- The `ValueError` branch of `bits_to_bytes` (extractor.py:39-40). A group
  of the `Bit` type is always valid binary, so that branch cannot run.
- `bytes.find` is a Python builtin. It is modelled by its documented
  meaning, the first offset at or after start, in `Signatures.Find`.
