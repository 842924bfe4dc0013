# mbr-translator, modelled in Dafny

The repository holds two small command-line translators.

- `mbr-translator.py` reads one 16-byte partition-table entry of an IBM-PC
  Master Boot Record, typed as hexadecimal digits. It prints the boot
  indicator, the starting and ending CHS addresses, the partition type (named
  from a table), the starting LBA, the size in sectors and the size in bytes
  (512-byte sectors).
- `fat-translator.py` reads a FAT boot record. A record shorter than 62 bytes
  is padded with zero bytes when the operator agrees; otherwise the run stops.
  The translator prints the BIOS parameter block (offsets 0-23). It then stops
  when everything from offset 36 on is zero. Otherwise it prints the FAT12/16
  extended block (offsets 36-61) when the size of FAT is nonzero, or reads the
  FAT32 size at offsets 36-39, where the script ends.

The model has five modules:

- `Common` holds the error kinds, the `Result` type and the exit status.
- `Hex` holds the shared text handling. This covers `strip`, the space removal
  and the upper-casing; the two-character tokeniser; `bytes_to_decimal` as a
  left fold over hexadecimal digits; `bytearray.fromhex`; and the
  little-endian reading that the scripts get by reversing a token slice.
- `Utf8` holds the well-formedness test that decides whether `bytes.decode()`
  fails. Strict UTF-8 follows Table 3-7 of section 3.9 of the Unicode
  Standard.
- `Mbr` is the partition-entry translator. It includes an encoder, so that
  decoding can be proved to invert it.
- `Fat` is the boot-record translator. The in-place padding is a `BootRecord`
  class with a `PadToMinimum` method. A `Translate` method runs the script's
  steps on that object and is proved equal to the functional `DecodeFat`.

Three behaviours of the scripts are kept as written, although they differ
from what the data they read would suggest:

- The boot-sector layout has the FAT32 size of FAT at offsets 36-39, but the
  FAT32 branch only reverses those tokens and never converts them to a
  number. So `Fat32` carries the reversed tokens. `Fat.Fat32Fields` proves
  that for byte tokens `bytes_to_decimal` of them would be their 32-bit
  little-endian value b36 + 256·b37 + 65536·b38 + 16777216·b39.
- The partition-type table spells its keys with lower-case letters (`0x0b`),
  but the code is looked up after the line is upper-cased. So `0B` misses
  the entry and the fallback `0x0B` is printed.
- The report labels the boot indicator (byte 0) and the type code (byte 4)
  as hexadecimal values, but the script copies them without parsing. So a
  non-hexadecimal character there does not stop the MBR translator.

## Model

| member | source | states |
|---|---|---|
| Common.ExitStatus | mbr-translator.py:79-81 | the exit status is 0 exactly for a completed run and 1 otherwise |
| Hex.TrimStart | mbr-translator.py:75 | the leading half of `strip()`: removes a prefix made only of white space and stops at the first character that is not white space |
| Hex.TrimEnd | mbr-translator.py:75 | the trailing half of `strip()`: removes a suffix made only of white space and stops at the last character that is not white space |
| Hex.Strip | mbr-translator.py:75 | `strip()` leaves no white space (Python's `isspace` set) at either end and never lengthens the string |
| Hex.StripSlice | mbr-translator.py:75 | what `strip()` keeps is a slice of the input with only white space before and after it |
| Hex.RemoveSpaces | mbr-translator.py:75 | `replace(' ', '')` leaves no space, keeps a string without spaces unchanged, empties a string of spaces only, and keeps non-space end characters |
| Hex.RemoveSpacesAppend | mbr-translator.py:75 | dropping spaces works piece by piece, so with the two cases above every other character is kept, in order |
| Hex.ToUpper | mbr-translator.py:75 | upper-casing turns a lower-case letter into its own capital, keeps every other character, and leaves no lower-case letter |
| Hex.Upper | mbr-translator.py:75 | `.upper()` upper-cases each character by `ToUpper`, one character for one, so in the model the length is kept |
| Hex.Sanitize | mbr-translator.py:75 | in the model the sanitised line is no longer than the input and has no space, no lower-case letter and no white space at its ends |
| Hex.SanitizeSlice | mbr-translator.py:75 | the sanitised line is the upper-cased, space-free form of a slice of the input with only white space outside it |
| Hex.SanitizeExample | mbr-translator.py:75 | the typed line ` 8a 0b` followed by a newline sanitises to `8A0B` |
| Hex.SanitizeFixed | mbr-translator.py:75 | a string already in sanitised form is left unchanged |
| Hex.SanitizeIdempotent | mbr-translator.py:75 | sanitising twice is sanitising once |
| Hex.Tokenize | mbr-translator.py:76 | the comprehension gives ceil(n/2) tokens, all of two characters except a final single one for odd n |
| Hex.Concat | mbr-translator.py:71 | `"".join` of no tokens is empty and of one token is that token; `ConcatAppend`, `ConcatLength` and `ConcatTokenize` state the rest |
| Hex.ConcatAppend | mbr-translator.py:71 | joining two lists of tokens one after the other is joining each and concatenating |
| Hex.ConcatTokenize | mbr-translator.py:76 | joining the tokens gives back exactly the sanitised string |
| Hex.TokenizeConcat | mbr-translator.py:76 | tokenising a join of two-character tokens gives the tokens back |
| Hex.HexValue | mbr-translator.py:71 | the base-16 value of n digits is below 16^n |
| Hex.HexValueAppend | mbr-translator.py:71 | appending digits shifts the value left by their count and adds their value |
| Hex.HexValueZero | fat-translator.py:78 | a digit string is worth 0 exactly when every digit is `0` |
| Hex.LeadingZeros | mbr-translator.py:71 | leading `0` digits do not change the value |
| Hex.PowMono | mbr-translator.py:71 | powers of a positive base grow with the exponent |
| Hex.BytesToDecimal | mbr-translator.py:62-71 | `bytes_to_decimal` succeeds exactly when the join is non-empty and all hexadecimal, and its value is below 16^(number of digits) |
| Hex.TokenValue | mbr-translator.py:71 | a two-digit token is worth its base-16 value |
| Hex.Reverse | mbr-translator.py:85-89 | reversal keeps the length and puts element i at n-1-i |
| Hex.LittleEndian | mbr-translator.py:85-89 | n bytes read little-endian are below 256^n |
| Hex.ReversedTokensLittleEndian | mbr-translator.py:85-89 | reversing byte tokens and reading the join in base 16 is reading their bytes little-endian |
| Hex.LittleEndianField | mbr-translator.py:85-89 | `bytes_to_decimal` of reversed byte tokens succeeds with their little-endian value |
| Hex.LittleEndian2 | fat-translator.py:52 | two bytes read little-endian are lo + 256·hi |
| Hex.LittleEndian3 | mbr-translator.py:85 | three bytes read little-endian are b0 + 256·b1 + 65536·b2 |
| Hex.LittleEndian4 | mbr-translator.py:88 | four bytes read little-endian are b0 + 256·b1 + 65536·b2 + 16777216·b3 |
| Hex.FieldValue2 | fat-translator.py:52-59 | a reversed 2-token field decodes to lo + 256·hi |
| Hex.FieldValue3 | mbr-translator.py:85-87 | a reversed 3-token field decodes to b0 + 256·b1 + 65536·b2 |
| Hex.FieldValue4 | mbr-translator.py:88-89 | a reversed 4-token field decodes to its 32-bit little-endian value |
| Hex.ConcatLength | mbr-translator.py:79 | n two-character tokens join to 2n characters |
| Hex.HexDigit | mbr-translator.py:75 | the digit written for 0-15 is an upper-case hexadecimal digit of that value |
| Hex.ByteToken | mbr-translator.py:76 | the token written for a byte is a clean two-digit token worth that byte |
| Hex.CleanConcat | mbr-translator.py:75-76 | clean tokens join to a clean string |
| Hex.CleanSanitized | mbr-translator.py:75 | sanitising leaves a clean string unchanged |
| Hex.EncodeLittleEndian | mbr-translator.py:85-89 | the inverse writer produces n clean byte tokens |
| Hex.EncodeLittleEndianValue | mbr-translator.py:85-89 | reading the written tokens back little-endian gives the value |
| Hex.LittleEndianRoundTrip | mbr-translator.py:85-89 | `bytes_to_decimal` of the reversed written tokens gives back the value |
| Hex.FromHex | fat-translator.py:51 | `bytearray.fromhex` yields at most half as many bytes as characters, and every failure is a format error |
| Hex.FromHexTokens | fat-translator.py:51 | `fromhex` of joined byte tokens gives exactly their bytes |
| Hex.FromHexOdd | fat-translator.py:51 | an odd number of hexadecimal digits is rejected |
| Utf8.FirstLength | fat-translator.py:51 | the length taken for the first character is at most 4 and at most what is left, and 1 exactly when the first byte is ASCII |
| Utf8.AsciiWellFormed | fat-translator.py:51 | ASCII bytes always decode |
| Utf8.WellFormed | fat-translator.py:51 | strict `decode()` succeeds exactly on byte strings that split into sequences of Table 3-7; one that starts with a continuation byte is rejected |
| Mbr.PartitionTypes | mbr-translator.py:21-58 | the type table, entry for entry; where a key repeats, the later entry wins, as in a Python dict display |
| Mbr.Lookup | mbr-translator.py:94 | the type name is the table's entry for `0x` + code, or `0x` + code itself, and never empty |
| Mbr.KeyShape | mbr-translator.py:21-58 | every table key is `0x` and two digits, and a key without lower-case letters has two decimal digits |
| Mbr.LookupUpperCase | mbr-translator.py:94 | an upper-cased code is in the table exactly when it is one of the sixteen all-decimal codes, and otherwise falls back to `0x` + code |
| Mbr.TypeCodeUpper | mbr-translator.py:75-94 | the type code of an accepted line has no lower-case letter, so unless it is one of the all-decimal codes its name is `0x` + code |
| Mbr.LookupExamples | mbr-translator.py:27-39 | `07` is NTFS, `0B` falls back to `0x0B`, and the duplicated `82` resolves to Linux Swap |
| Mbr.DecodeRecord | mbr-translator.py:84-89 | only format errors occur, bytes 0 and 4 are copied, and the size in bytes is the sector count times 512 |
| Mbr.DecodeMbr | mbr-translator.py:75-100 | the run fails with the length error exactly when the sanitised line is not 32 characters; otherwise only format errors occur |
| Mbr.MbrAccepted | mbr-translator.py:79-89 | a line is accepted exactly when it sanitises to 32 characters and every parsed token is two hexadecimal digits; there are then 16 two-character tokens |
| Mbr.RecordAccepted | mbr-translator.py:85-89 | the field extraction succeeds exactly when every token it parses is a byte token |
| Mbr.FieldAccepted | mbr-translator.py:85-89 | a reversed slice of two-character tokens decodes exactly when all are byte tokens |
| Mbr.AllHexConcat | mbr-translator.py:71 | a join is all hexadecimal exactly when every token is |
| Mbr.MbrFields | mbr-translator.py:84-100 | for any line of 32 characters whose parsed tokens (all but bytes 0 and 4) are byte tokens, the CHS addresses are 3-byte and the LBA and sector count 4-byte little-endian values (below 2^24 and 2^32), bytes 0 and 4 are copied, and the size is sectors × 512 |
| Mbr.EncodeMbr | mbr-translator.py:84-89 | the inverse writer gives a 32-character entry |
| Mbr.EntryTokens | mbr-translator.py:84-89 | the written entry has 16 tokens |
| Mbr.EntryTokensClean | mbr-translator.py:75-76 | every written token is a clean two-digit token |
| Mbr.MbrRoundTrip | mbr-translator.py:84-100 | decoding a written entry gives back every field and the size in bytes |
| Mbr.DecodeCleanTokens | mbr-translator.py:75-81 | a line of 16 clean byte tokens decodes as those tokens |
| Mbr.CleanJoin | mbr-translator.py:75-76 | clean byte tokens survive sanitising and tokenising unchanged |
| Fat.Zeros | fat-translator.py:43 | the padding is n tokens `00` |
| Fat.PadRecord | fat-translator.py:39-47 | a record of 62 tokens or more is kept; a shorter one becomes 62 tokens with the original as a prefix and `00` after it when accepted, and is an error when declined |
| Fat.PadRecordIdempotent | fat-translator.py:39-47 | a padded record has at least 62 tokens and is left alone by a second padding |
| Fat.BootRecord.constructor | fat-translator.py:35-36 | the token list is the tokenised sanitised line |
| Fat.BootRecord.PadToMinimum | fat-translator.py:39-47 | the in-place append leaves the tokens `PadRecord` gives, or untouched with `proceed` false when declined |
| Fat.DecodeText | fat-translator.py:51 | a decoded text is well-formed UTF-8 of at most half as many bytes as digits; failures are format or decode errors |
| Fat.DecodeTextBytes | fat-translator.py:51 | for byte tokens the text is exactly their bytes, and it decodes exactly when they are well-formed UTF-8 |
| Fat.DecodeTextAscii | fat-translator.py:51 | byte tokens below `80` always decode |
| Fat.DecodeHeader | fat-translator.py:50-71 | a decoded header keeps tokens 0-2 and 21 as typed and a well-formed OEM name; failures are format or decode errors |
| Fat.HeaderFields | fat-translator.py:52-71 | with byte tokens at 11-23 (the media type at 21 may be anything), each 16-bit field is lo + 256·hi (below 65536), bytes 13 and 16 are their values (below 256), and the header decodes exactly when the OEM name does |
| Fat.Le16 | fat-translator.py:64-71 | `bytes_to_decimal(list(reversed(record[i:i+2])))`; its value is stated by `Fat.Le16Value` and its bound by `Fat.Le16Short` |
| Fat.Le8 | fat-translator.py:65-67 | `bytes_to_decimal(record[i])`; its value is stated by `Fat.Le8Value` and its bound by `Fat.Le8Short` |
| Fat.Le16Value | fat-translator.py:64 | a reversed token pair decodes to lo + 256·hi |
| Fat.Le8Value | fat-translator.py:65 | a single token decodes to its byte value |
| Fat.OemNameFirst | fat-translator.py:51-71 | a bad OEM name is the error the header fails with |
| Fat.HeaderReadsOnlyPrefix | fat-translator.py:50-59 | two records that agree on tokens 0-23 have the same header |
| Fat.BytesPerSectorExample | fat-translator.py:64 | `00 02` is 512 bytes per sector |
| Fat.DecodeRest | fat-translator.py:78-104 | failures are format or decode errors, and FAT12/16 texts are well-formed |
| Fat.AllZeroExactly | fat-translator.py:78-81 | the short cut is taken exactly when the characters from token 36 on are all `0` |
| Fat.Fat1216Fields | fat-translator.py:86-92 | past the zero test with a nonzero size of FAT, the fields are tokens 36, 38 and 39-42 as typed and the texts of 43-53 and 54-61, decoded exactly when both texts decode |
| Fat.Fat1216ReadsOnly | fat-translator.py:86-92 | the FAT12/16 branch ignores token 37 and everything after 61 |
| Fat.SameSlice | fat-translator.py:86-92 | records equal on a range are equal on every slice inside it |
| Fat.Fat32Fields | fat-translator.py:103-104 | with a zero size of FAT and a nonzero tail the run succeeds with the reversed tokens 36-39; for byte tokens they would decode to b36 + 256·b37 + 65536·b38 + 16777216·b39, below 2^32 |
| Fat.DecodeRecord | fat-translator.py:50-104 | only format or decode errors occur, and the rest is decoded with the header's size of FAT |
| Fat.DecodeFat | fat-translator.py:35-104 | the run is declined exactly when there are fewer than 62 tokens and no consent, and the jump instruction is the first three tokens typed |
| Fat.FatStatus | fat-translator.py:78-81 | the exit status is 0 exactly when the header and the rest were both decoded |
| Fat.HeaderBounds | fat-translator.py:52-71 | for any line, a decoded header has 16-bit fields below 65536 and one-byte fields below 256 |
| Fat.PaddedTokensShort | fat-translator.py:36-43 | every token of a padded record has at most two characters |
| Fat.HeaderBoundsOf | fat-translator.py:52-71 | tokens of at most two characters give header fields below 65536 and 256 |
| Fat.Le16Short | fat-translator.py:64 | two short tokens decode below 65536 |
| Fat.Le8Short | fat-translator.py:65 | one short token decodes below 256 |
| Fat.ShortRecordStopsAfterHeader | fat-translator.py:39-81 | a record of at most 36 tokens, padded, stops after the header with status 0 |
| Fat.ZeroTokens | fat-translator.py:43 | `00` tokens join to a string of `0` characters two per token |
| Fat.OemNameFailsBeforeZeroTest | fat-translator.py:51-81 | a bad OEM name ends the run with status 1 even when the rest is zero |
| Fat.Translate | fat-translator.py:35-104 | building, padding in place and decoding the token list gives exactly `DecodeFat` |

## Left out

- Terminal input and output: the prompts, `readline`, `print`, and the layout of the report. This includes the raw tokens echoed next to each number. A run is its `Result` value and its exit status.
- The operator's answer to the padding question is the parameter `accept`. It stands for the answer lower-casing to `y`.
- The KB, MB and GB sizes. They are floating-point divisions; only the exact byte size is modelled.
- Hex.ToUpper: upper-cases ASCII letters only. Python's `str.upper` also maps other letters, some to several characters.
- Hex.Upper: maps each character to one character. Python's `str.upper` maps some letters to several (`ß` → `SS`, `ﬀ` → `FF`), so a line the scripts accept (such as `ﬀ` followed by thirty `0`) can be rejected here, and `Hex.Sanitize`'s "no longer than the input" holds of the model only.
- Hex.BytesToDecimal: rejects some strings that Python's `int` accepts: underscores between digits, trailing white space, and non-ASCII decimal digits.
- Fat.DecodeRest: the all-zero test is modelled as `bytes_to_decimal` of the tail. The script calls `int(..., 16)` without the `0x` prefix, which also accepts a leading sign, surrounding white space and a `0X` prefix.
- Fat.DecodeText: a decoded text is kept as its UTF-8 bytes, not as decoded characters.
- The FAT32 fields past offset 39. The script stops there.
- Mbr.DecodeRecord: the type name is not stored in the entry. `Mbr.Lookup` applied to `partitionType` gives it.
