# A verified model of the R-bencode decoders

R-bencode reads bencode, the serialization format of the "bencoding"
section of BEP 3 (the BitTorrent Protocol Specification), into R values. Its
C decoders walk a cursor over a NUL-terminated byte string and build a
tree. Integers become scalar integers and strings become scalar strings.
Lists become generic vectors, or integer or string vectors when every
element is an integer or every element is a string. Dictionaries become
named generic vectors of class `bendict`. Container parsers collect results
by prepending to R pairlists, reverse them in place with `reversePairList`
and copy them into freshly allocated vectors.

This project models two decoders:

- the current one, `src/decode.c`, with `reversePairList` from
  `src/bencode.h`;
- the older one, `src/bencode.c`. It has no dictionaries, it tracks list
  homogeneity by kind tags, it ends a list silently at the NUL, it refuses
  an empty list, and it returns several top-level items last first.

The model is in the code's own form. Each parser is a method over the input
`seq<byte>`. It takes the cursor position `*c` holds on entry and returns
the position it holds on exit: an in/out position stands in for
`const char **c`. The digit, copy and element loops are `while` loops with
invariants.

Pairlists are linked `PairList.Cell` objects. Each CAR is fixed by CONS, and
SETCDR resets the CDR in place. `ReversePairList` relinks the cells one by
one. The fill loops write into fresh arrays.

Every parser method is proved equal to a pure function of the input and the
start position:

- `DecoderSpec` holds the functions for the current decoder;
- `LegacySpec` holds them for the older decoder;
- `DecoderProperties` and `LegacyProperties` prove, about those functions,
  what the code promises for whole tokens, lists, dictionaries and
  top-level input;
- `Findings` models the copy loop of `parse_s` as written. The rest of the
  model uses a checked version of that loop (see "## Findings").

Semantics the model keeps from the code:

- the sign of an integer is consumed and dropped;
- the integer accumulator is a C `int`. Signed overflow is undefined behaviour in C, and the model's policy is to wrap it to 32 bits at every step (`Bytes.Wrap32`), as common compilers do;
- the string length must not exceed INT_MAX;
- leading zeros, `i-0e`, and unsorted or repeated dictionary keys are all accepted;
- index |s| holds the terminating NUL. A read beyond it would be out of bounds in C; by the model's convention `Bytes.At` reads it as NUL too. Only the copy loop as written (`Findings.ParseStringAsWritten`) moves the cursor past |s|, so no other member relies on that convention.

## Model

| member | source | states |
|---|---|---|
| Bytes.At | src/decode.c:9-17 | the byte `**c` sees at an index: the input byte, and the terminating NUL at index |s| (and, by the model's convention, beyond it) |
| Bytes.IsDigit | src/bencode.h:12 | the DIGIT macro: a byte between `0` and `9` inclusive |
| Bytes.Tag | src/decode.c:105-108 | the `prev` both list parsers start from for a leading byte: the byte itself, with a digit written `s` (also src/bencode.c:97-98) |
| Bytes.DigitsEnd | src/decode.c:15 | the digit loop stops at the first byte at or after the start that is not a digit, never past the end of the input |
| Bytes.NulEnd | src/decode.c:37-43 | the first NUL at or after a position, where the C string read from there ends |
| Bytes.Wrap32 | src/decode.c:12-15 | a 32-bit two's-complement reduction: the result lies in the `int` range and differs from the argument by a multiple of 2^32 |
| Bytes.DigitsValue | src/decode.c:29 | the base-ten value of a digit run read left to right, `len = len * 10 + digit`, in unbounded integers |
| Bytes.DigitsValueLeadingZero | src/decode.c:15 | a leading zero does not change the value of a digit run: `i007e` reads as 7 and `03:abc` has length 3 |
| Bytes.Wrap32Step | src/decode.c:15 | wrapping at every step of `ans * 10 + d` gives the same `int` as wrapping the exact value once |
| Bytes.AccumulateStep | src/decode.c:15 | one pass of parse_i's digit loop keeps `ans` equal to the wrapped value of the digits read so far |
| Bytes.DigitsValueSnoc | src/decode.c:29 | one pass of parse_s's length loop multiplies the length by ten and adds the digit |
| PairList.Cell.constructor | src/decode.c:114 | CONS: a fresh cell with the given CAR and CDR |
| PairList.Cons | src/decode.c:114 | CONS on an accumulated list puts the newest element in a fresh cell in front, so the list holds the elements last first |
| PairList.StackedChain | src/decode.c:110-115 | a list built by prepending is a nil-terminated chain of distinct cells whose CARs are the elements in reverse |
| PairList.ReversePairList | src/bencode.h:15-26 | the same cells relinked in reverse order, with no cell allocated and no CAR changed; the old head becomes the last cell with a nil CDR; a one-cell list is returned as it is; the empty list (R_NilValue) is an error |
| PairList.ReverseReverse | src/bencode.h:15-26 | reversing twice gives the original order back, which is how prepend-then-reverse restores encounter order |
| PairList.ReverseSameMultiset | src/bencode.h:17-24 | reversal moves elements and never adds or drops one |
| PairList.CarsReverse | src/bencode.h:17-24 | the CARs of the reversed cells are the CARs of the list, reversed |
| PairList.ToVector | src/decode.c:131 | PairToVectorList yields the CARs in list order |
| Packing.Pack | src/decode.c:121-156 | the packing of a list is never a scalar: a generic, integer or string vector, and the empty generic vector exactly when there is no element |
| Packing.PackKeepsElements | src/decode.c:129-151 | packing keeps every element, their number and their order; it makes an integer vector exactly when the list is non-empty and all integers, a string vector exactly when it is non-empty and all strings |
| Packing.IntVector | src/decode.c:138-144 | the INTSXP fill loop writes the i-th cell's integer into slot i |
| Packing.StrVector | src/decode.c:145-151 | the STRSXP fill loop writes the i-th cell's string into slot i |
| Packing.StrsSnoc | src/decode.c:62 | a key read one further adds its bytes at the end of the names |
| DecoderSpec.SignEnd | src/decode.c:13-14 | the sign test consumes at most one byte, and a byte consumed is neither the NUL nor a digit |
| DecoderSpec.ParseInt | src/decode.c:6-21 | success needs a leading `i` and a closing `e`, ends past the `e`, and gives an integer in the 32-bit range |
| DecoderSpec.ParseString | src/decode.c:24-46 | success needs a leading digit, gives a string of at most INT_MAX bytes, and never moves the cursor past the end |
| DecoderSpec.ParseSwitch | src/decode.c:161-173 | the value's kind matches the leading byte (`i` integer, digit string, `d` dictionary, `l` list-like); any other leading byte is refused |
| DecoderSpec.ParseList | src/decode.c:99-157 | success needs a leading `l` and gives a generic, integer or string vector |
| DecoderSpec.ListElement | src/decode.c:111-114 | an element may not start at the NUL: the list is then refused as unterminated |
| DecoderSpec.ListItems | src/decode.c:110-117 | the element loop ends just past an `e` |
| DecoderSpec.ParseDict | src/decode.c:49-96 | success needs a leading `d` and gives as many names as values |
| DecoderSpec.DictPair | src/decode.c:58-63 | a pair may not start at the NUL (unterminated dictionary) or with a byte that is not a digit (a key that is not a string) |
| DecoderSpec.DictEntries | src/decode.c:57-65 | the pair loop reads as many keys as values and ends just past an `e` |
| DecoderSpec.TopItems | src/decode.c:183-185 | the top-level loop reads no item exactly when the input is empty |
| DecoderSpec.ListItemsAdvance | src/decode.c:110-115 | one more element read moves it from the rest of the list to the elements read |
| DecoderSpec.ListItemsError | src/decode.c:111-114 | a NUL or a failing element fails the whole list with that error |
| DecoderSpec.ListItemsClose | src/decode.c:110-117 | at the `e` the elements read are all of them |
| DecoderSpec.DictEntriesAdvance | src/decode.c:57-64 | one more pair read moves it from the rest of the dictionary to the pairs read |
| DecoderSpec.DictEntriesError | src/decode.c:58-63 | a NUL, a non-digit key or a failing key or value fails the whole dictionary with that error |
| DecoderSpec.DictEntriesClose | src/decode.c:57-65 | at the `e` the pairs read are all of them |
| DecoderSpec.TopItemsAdvance | src/decode.c:183-185 | one more top-level item read moves it to the items read |
| DecoderSpec.TopItemsError | src/decode.c:184 | a failing item fails the whole decode with its error |
| DecoderSpec.TopItemsClose | src/decode.c:183-185 | at the NUL the items read are all of them |
| DecoderSpec.Assemble | src/decode.c:187-190 | R's NULL exactly for no item, the bare item exactly for one, and for several all of them in encounter order |
| DecoderSpec.Decode | src/decode.c:176-191 | a successful decode is R's NULL exactly when the input starts with the NUL |
| Decoder.ParseI | src/decode.c:6-21 | the method returns exactly the result and final cursor of DecoderSpec.ParseInt, with the loop's 32-bit `ans` tracking the wrapped digit value |
| Decoder.ParseS | src/decode.c:24-46 | the method returns exactly the result and final cursor of DecoderSpec.ParseString |
| Decoder.CopyPayload | src/decode.c:35-45 | the copy loop yields exactly the `len` bytes after the `:` and the cursor just past them when no NUL comes first, and fails with the premature-end error otherwise |
| Decoder.ParseSwitch | src/decode.c:161-173 | the method returns exactly what DecoderSpec.ParseSwitch gives |
| Decoder.SameFlag | src/decode.c:105-113 | `same` as the loop computes it can only be set when the first byte is `i` or a digit |
| Decoder.Homogeneity | src/decode.c:104-113 | the flags' meaning: `prev` is the first byte's kind, `same` is SameFlag of the elements, and the first element has the kind its byte announces |
| Decoder.SameFlagMeans | src/decode.c:105-113 | `same` ends set exactly when the first byte is `i` and every element is an integer, or the first byte is a digit and every element a string |
| Decoder.HomogeneityStep | src/decode.c:113 | the update of `same` keeps the flags' meaning after each element |
| Decoder.HomogeneityPack | src/decode.c:129-154 | the flags select exactly the packing DecoderSpec gives: an integer vector, a string vector or a generic vector |
| Decoder.StartFlags | src/decode.c:105-108 | the initial flags mean "no element yet" for the first byte |
| Decoder.ParseL | src/decode.c:99-157 | the method returns exactly what DecoderSpec.ParseList gives |
| Decoder.ListLoop | src/decode.c:104-117 | the loop leaves the elements stacked last first in fresh cells, the count in `len` and the flags, or fails as DecoderSpec.ListItems does |
| Decoder.ListStep | src/decode.c:111-114 | one pass refuses the NUL, reads one element, updates `same` and puts the element in a fresh cell in front |
| Decoder.PackList | src/decode.c:121-156 | the end of parse_l returns Pack of the elements in encounter order |
| Decoder.DictVectors | src/decode.c:82-87 | the fill loop writes the i-th key's bytes into the names and the i-th value into the values |
| Decoder.ParseD | src/decode.c:49-96 | the method returns exactly what DecoderSpec.ParseDict gives |
| Decoder.DictLoop | src/decode.c:54-64 | the pair loop leaves the keys, all strings, and the values stacked last first in fresh cells of their own, as many of each as `len` says, with the cursor on the `e`, or fails as DecoderSpec.DictEntries does |
| Decoder.DictStep | src/decode.c:58-63 | one pass refuses the NUL and a non-digit key, then reads a key and a value, each into a fresh cell in front of its list |
| Decoder.BuildDict | src/decode.c:67-91 | the end of parse_d returns the names and values in encounter order |
| Decoder.BDecode | src/decode.c:176-191 | the driver returns exactly DecoderSpec.Decode |
| Decoder.Collect | src/decode.c:187-190 | R's NULL for no item, the bare item for one, all items in encounter order for several |
| DecoderProperties.DigitsEndOf | src/decode.c:15 | a digit run followed by a non-digit ends exactly there |
| DecoderProperties.NulEndAfter | src/decode.c:37-43 | a run of non-NUL bytes lies before the end of the C string |
| DecoderProperties.NulEndBefore | src/decode.c:37-43 | a NUL ends the C string there or earlier |
| DecoderProperties.NulEndRun | src/decode.c:37-43 | no byte before the end of the C string is the NUL |
| DecoderProperties.ParseIntToken | src/decode.c:9-20 | on `i`, at most one sign byte, digits, `e`: the digit value read left to right, wrapped to 32 bits and unsigned whatever the sign; unchanged when it fits; 0 for no digits; the cursor one past the `e` |
| DecoderProperties.ParseIntBadTerminator | src/decode.c:17 | digits followed by anything but `e` or another digit are refused |
| DecoderProperties.ParseStringToken | src/decode.c:28-45 | on `<n>:` followed by n non-NUL bytes: exactly those bytes, with the cursor advanced by the digit count + 1 + n |
| DecoderProperties.ParseStringBadSeparator | src/decode.c:31 | a length not followed by `:` is refused |
| DecoderProperties.ParseStringTooLong | src/decode.c:32-33 | a length above INT_MAX is refused |
| DecoderProperties.ParseStringPrematureEnd | src/decode.c:37-43 | a NUL or the end of input among the n payload bytes is refused |
| DecoderProperties.ParseStringPayload | src/decode.c:32-43 | a string read is at most INT_MAX bytes and holds no NUL |
| DecoderProperties.ElementRunTail | src/decode.c:110-115 | a run of elements without its first is still a run |
| DecoderProperties.ListItemsPrefix | src/decode.c:110-115 | the loop puts the elements it reads before whatever follows, in encounter order |
| DecoderProperties.ParseListOf | src/decode.c:104-151 | on `l`, elements, `e`: all the elements in encounter order, one per parse_switch call; an integer vector exactly when all start with `i`, a string vector exactly when all start with a digit, a generic vector otherwise; the cursor past the `e` |
| DecoderProperties.ElementRunKinds | src/decode.c:105-113 | an element is an integer exactly when it starts with `i`, a string exactly when it starts with a digit |
| DecoderProperties.ParseListEmpty | src/decode.c:121-123 | `le` is an empty generic vector |
| DecoderProperties.ParseListUnterminated | src/decode.c:111 | elements that run into the NUL before an `e` are refused |
| DecoderProperties.PairsTail | src/decode.c:57-64 | a run of pairs without its first is still a run |
| DecoderProperties.DictEntriesPrefix | src/decode.c:57-64 | the loop puts the pairs it reads before whatever follows, in encounter order |
| DecoderProperties.ParseDictOf | src/decode.c:57-91 | on `d`, pairs, `e`: names[i] is the i-th key and values[i] the i-th value, repeated keys kept, the cursor past the `e` |
| DecoderProperties.ParseDictEmpty | src/decode.c:69-72 | `de` is a dictionary with no entries |
| DecoderProperties.ParseDictStops | src/decode.c:58-59 | after any pairs, the NUL is refused as unterminated and a key not starting with a digit is refused |
| DecoderProperties.TopItemsPrefix | src/decode.c:183-185 | the top-level loop puts the items it reads before whatever follows, in encounter order |
| DecoderProperties.DecodeOf | src/decode.c:181-190 | for items up to the NUL: R's NULL for none, the bare item for one, all items in encounter order for several |
| DecoderProperties.DecodeFails | src/decode.c:183-185 | an item that fails after any others fails the decode with its error |
| LegacySpec.ValueKind | src/bencode.c:107-122 | the tag the old switch's case stores in `prev` for the value it read: `i` for an integer (line 107), `l` for a list (line 115), `s` for a string (line 122) |
| LegacySpec.OldElement | src/bencode.c:103-126 | a value read has the kind tag of its leading byte and moves the cursor forward, within the input |
| LegacySpec.OldElementCases | src/bencode.c:103-125 | a value read is an integer exactly when the leading byte is `i` and a string exactly when it is a digit; a `d` is refused as not implemented, and any byte other than `i`, `l`, `d` or a digit is refused as an unexpected token |
| LegacySpec.OldParseList | src/bencode.c:91-160 | success needs a leading `l` and gives a generic, integer or string vector |
| LegacySpec.OldItems | src/bencode.c:100-130 | the element loop never moves the cursor past the end |
| LegacySpec.OldTopItems | src/bencode.c:169-188 | the top-level loop reads no item exactly when the input is empty |
| LegacySpec.OldItemsAdvance | src/bencode.c:100-127 | one more element read moves it from the rest of the list to the elements read |
| LegacySpec.OldItemsError | src/bencode.c:103-126 | a failing element fails the whole list with its error |
| LegacySpec.OldItemsClose | src/bencode.c:100-130 | at an `e` the elements read are all of them and the `e` is consumed; at the NUL they are all of them and the NUL is not consumed |
| LegacySpec.OldTopItemsAdvance | src/bencode.c:169-188 | one more top-level item read moves it to the items read |
| LegacySpec.OldTopItemsError | src/bencode.c:171-187 | a failing item fails the whole decode with its error |
| LegacySpec.OldTopItemsClose | src/bencode.c:169-188 | at the NUL the items read are all of them |
| LegacySpec.OldAssemble | src/bencode.c:189-190 | R's NULL exactly for no item, the bare item exactly for one, and for several as many results as items with the i-th result the i-th item from the end |
| LegacySpec.OldDecode | src/bencode.c:162-191 | a successful decode is R's NULL exactly when the input starts with the NUL |
| Legacy.OldSwitch | src/bencode.c:103-126 | the method returns exactly what LegacySpec.OldElement gives |
| Legacy.OldFlags | src/bencode.c:96-123 | the flags' meaning: `prev` is the last element's tag (the first byte's before any), the first element has the first byte's tag, and `same` holds exactly when every element has it |
| Legacy.OldFlagsStep | src/bencode.c:104-123 | `same = same && prev == X; prev = X` keeps the flags' meaning: `prev` is the last element's tag, and `same` means every element has the first element's tag |
| Legacy.OldFlagsPack | src/bencode.c:134-159 | with all tags `i` the flags pick an integer vector, with all tags `s` a string vector, and a generic vector otherwise, which is Pack of the elements |
| Legacy.OldParseL | src/bencode.c:91-160 | the method returns exactly what LegacySpec.OldParseList gives |
| Legacy.OldListLoop | src/bencode.c:96-130 | the loop leaves the elements stacked last first in fresh cells, the flags, and the cursor past an `e` or at the NUL, or fails as LegacySpec.OldItems does |
| Legacy.OldListStep | src/bencode.c:101-126 | one pass reads one element, puts it in a fresh cell in front and updates the flags by its tag |
| Legacy.OldPackList | src/bencode.c:132-159 | the empty list fails in reversePairList; otherwise Pack of the elements in encounter order |
| Legacy.Decode1 | src/bencode.c:162-191 | the driver returns exactly LegacySpec.OldDecode |
| LegacyProperties.OldElementRunTail | src/bencode.c:100-127 | a run of elements without its first is still a run |
| LegacyProperties.OldItemsPrefix | src/bencode.c:100-127 | the loop puts the elements it reads before whatever follows, in encounter order |
| LegacyProperties.OldParseListOf | src/bencode.c:100-159 | on `l` and elements: refused when there is none; otherwise Pack of them, with the cursor past an `e` or left at the NUL; an integer vector exactly when all start with `i`, a string vector exactly when all start with a digit |
| LegacyProperties.OldElementRunKinds | src/bencode.c:103-123 | an element is an integer exactly when it starts with `i`, a string exactly when it starts with a digit |
| LegacyProperties.OldParseListRefusesDict | src/bencode.c:108-110 | a `d` element is refused, after any others |
| LegacyProperties.OldTopItemsPrefix | src/bencode.c:169-188 | the top-level loop puts the items it reads before whatever follows, in encounter order |
| LegacyProperties.OldDecodeOf | src/bencode.c:167-190 | for items up to the NUL: R's NULL for none, the bare item for one, and for several all of them with the i-th result the i-th item from the end |
| LegacyProperties.OldDecodeRefusesDict | src/bencode.c:175-176 | a top-level `d` is refused, after any items |
| LegacyProperties.ScalarsAgree | src/bencode.c:52-89 | on integers and strings both switches read the same values: the two decoders share parse_i and parse_s |
| LegacyProperties.DecodersDisagreeOnOrder | src/bencode.c:189-190 | several scalar items: the current decoder returns them in encounter order, the older one in reverse |
| LegacyProperties.ScalarListsAgree | src/bencode.c:97-159 | a non-empty list of scalars ended by `e` is read alike by both decoders, packing included |
| LegacyProperties.EmptyListsDisagree | src/bencode.c:134 | `le` is an error for the older decoder, whose `reversePairList(ans)` fails on the empty list, and an empty generic vector for the current one (src/decode.c:121-123) |
| Findings.ParseStringAsWritten | src/decode.c:35-45 | the copy loop as written: it succeeds when the NUL sits at the last payload byte, and the cursor is then past the terminator |
| Findings.TwoColonA | src/decode.c:37-43 | on `2:a` the loop as written gives `a` with the cursor at 4 in a 3-byte input; the checked loop refuses it |
| Findings.AsWrittenAgrees | src/decode.c:37-43 | wherever the checked loop succeeds, the loop as written gives the same string and cursor |
| Findings.AsWrittenOverruns | src/decode.c:37-43 | where only the loop as written succeeds, the checked loop reports a premature end, and the cursor as written ends one past the terminator |

## Left out

- R object glue is modelled by the constructors of `Values.Value`. This covers `SEXP` allocation, `PROTECT`/`UNPROTECT`, `ScalarInteger`, `mkString`/`mkChar` and the `names` and `class` attributes.
- The `isString` check on the argument (src/decode.c:178, src/bencode.c:164) is left out. It is a host type check; the model takes the string's bytes.
- Error message text is not modelled. Each `error()` call is one constructor of `Values.Error`, and an R error ends the decode with it.
- `PRN` debug printing is left out. It expands to nothing.
- The encoder and any round-trip property are left out. The source has no encoder.
- Resource limits are not modelled: the stack array `char newc[len + 1]` and recursion depth.
- Decoder.ParseS: the length accumulates in an unbounded integer rather than a `long long`. A length too large for 64 bits overflows the signed `long long` in C before the INT_MAX check, which is undefined behaviour; the model refuses it.
- ReversePairList: the `isPairList` test (src/bencode.h:16) is left out. Its argument is a cell or null by type, and `R_NilValue` passes that test in R. The empty list fails at `SETCDR(R_NilValue, …)`, which the model reports as `NilList`.
- Decoder.DictStep: the key's cell is allocated after the value is parsed, not before. A failing value raises an R error, so no result or later step can tell the difference.
- The older decoder's copies of `parse_i`, `parse_s` and `reversePairList` are the same code as the current ones up to the R wrapper of the result. The old `parse_i` returns a bare `int`, which its callers wrap with `ScalarInteger` (src/bencode.c:105, 173); the old `parse_s` returns `ScalarString(mkChar(..))` where the new one returns `mkString(..)`, the same R value. They are modelled by the same members: `Decoder.ParseI`, `Decoder.ParseS` and `PairList.ReversePairList`.
- The commented-out dynamic-array code in src/bencode.c is left out. It is not live code.
- The cursor is an in/out position, not a pointer shared with the caller. Every caller uses the final position at once.
- Decoder.ParseS: models the corrected copy loop, which tests each byte before it copies it. The loop as written is `Findings.ParseStringAsWritten`.
- DecoderSpec.ParseString: specifies the corrected copy loop, not the one as written (see "## Findings").
- Decoder.CopyPayload: is the corrected copy loop, not the one as written (see "## Findings").
- DecoderProperties.ParseStringPrematureEnd: states the refusal of the corrected copy loop; the loop as written accepts a NUL at the last payload byte.
- Decoder.ParseI: a result of -2^31 (the wrapped `i2147483648e`, or `i-2147483648e` read as 2147483648 and wrapped) is `NA_integer_` once `ScalarInteger` makes it an R value; the model returns the integer -2147483648 and does not model R's NA.

## Findings

| source | as written | input that shows it | evidently intended | confidence | as-written member | corrected member |
|---|---|---|---|---|---|---|
| src/decode.c:37-43 (same text at src/bencode.c:80-83) | each pass tests the byte under the cursor, then steps and copies the byte it stepped to, so it tests the byte before the one it copies. The last payload byte is never checked: a NUL there is copied, and the cursor steps past the terminator | `2:a`: the result is the string `a`, with the cursor at index 4 of a 3-byte input | every payload byte is checked before it is copied, and a payload cut short by the NUL is refused with "input string terminated unexpectedly" | high; not executed | Findings.ParseStringAsWritten, Findings.TwoColonA | DecoderSpec.ParseString, Decoder.CopyPayload, DecoderProperties.ParseStringPrematureEnd |
