/** The FAT boot-record translator: a record of at least 62 byte tokens
    (short records are zero-padded when the operator agrees), the BIOS
    parameter block at offsets 0-23, then, unless everything from offset 36
    on is zero, either the FAT12/16 extended block at 36-61 or the start of
    the FAT32 block at 36-39. */
module Fat {
  import opened Common
  import opened Hex
  import opened Utf8

  /** The smallest number of tokens the decoder works on. */
  const MinRecordLength: nat := 62

  /** `['00'] * n` */
  function Zeros(n: nat): (z: seq<string>)
    ensures |z| == n
    ensures forall i :: 0 <= i < n ==> z[i] == "00"
  {
    seq(n, _ => "00")
  }

  // ---------------------------------------------------------------------------
  // Padding a short record
  // ---------------------------------------------------------------------------

  /** The record the decoder goes on with. A record of at least 62 tokens is
      kept; a shorter one is filled up with `00` tokens to 62 when `accept`
      (the operator answered `y`), and ends the run otherwise. */
  function PadRecord(record: seq<string>, accept: bool): (r: Result<seq<string>>)
    ensures |record| >= MinRecordLength ==> r == Ok(record)
    ensures |record| < MinRecordLength && !accept ==> r == Err(Declined)
    ensures |record| < MinRecordLength && accept ==>
      r.Ok? && |r.value| == MinRecordLength && r.value[..|record|] == record &&
      forall i :: |record| <= i < MinRecordLength ==> r.value[i] == "00"
  {
    if |record| >= MinRecordLength then Ok(record)
    else if accept then Ok(record + Zeros(MinRecordLength - |record|))
    else Err(Declined)
  }

  /** Padding never shortens a record, and a padded record is long enough to
      be left alone by a second padding. */
  lemma PadRecordIdempotent(record: seq<string>, accept: bool, again: bool)
    requires PadRecord(record, accept).Ok?
    ensures |PadRecord(record, accept).value| >= MinRecordLength
    ensures PadRecord(PadRecord(record, accept).value, again) == PadRecord(record, accept)
  {
  }

  /** The token list of one run, built from the operator's line. */
  class BootRecord {
    var tokens: seq<string>

    /** Sanitise the line and cut it into two-character tokens. */
    constructor (line: string)
      ensures tokens == Tokenize(Sanitize(line))
    {
      tokens := Tokenize(Sanitize(line));
    }

    /** Append `00` tokens in place up to 62 when the record is short and the
        operator agrees; `proceed` is false when the run has to stop. */
    method PadToMinimum(accept: bool) returns (proceed: bool)
      modifies this
      ensures proceed <==> PadRecord(old(tokens), accept).Ok?
      ensures proceed ==> tokens == PadRecord(old(tokens), accept).value
      ensures !proceed ==> tokens == old(tokens)
    {
      proceed := true;
      if |tokens| < MinRecordLength {
        if accept {
          tokens := tokens + Zeros(MinRecordLength - |tokens|);
        } else {
          proceed := false;
        }
      }
    }
  }

  // ---------------------------------------------------------------------------
  // Text fields
  // ---------------------------------------------------------------------------

  /** `bytearray.fromhex(''.join(tokens)).decode()`: the bytes the tokens
      spell, which must be well-formed UTF-8. The text is kept as its bytes. */
  function DecodeText(tokens: seq<string>): (r: Result<seq<byte>>)
    ensures r.Ok? ==> WellFormed(r.value) && 2 * |r.value| <= |Concat(tokens)|
    ensures r.Err? ==> r.error == FormatError || r.error == TextDecodeError
  {
    var bytes :- FromHex(Concat(tokens));
    if WellFormed(bytes) then Ok(bytes) else Err(TextDecodeError)
  }

  /** For byte tokens the text is exactly their bytes, and it decodes exactly
      when those bytes are well-formed UTF-8. */
  lemma DecodeTextBytes(tokens: seq<string>)
    requires AllByteTokens(tokens)
    ensures DecodeText(tokens).Ok? <==> WellFormed(TokenBytes(tokens))
    ensures DecodeText(tokens).Ok? ==> DecodeText(tokens).value == TokenBytes(tokens)
    ensures DecodeText(tokens).Err? ==> DecodeText(tokens).error == TextDecodeError
  {
    FromHexTokens(tokens);
  }

  /** Byte tokens below `80` (plain ASCII) always decode. */
  lemma DecodeTextAscii(tokens: seq<string>)
    requires AllByteTokens(tokens)
    requires forall i :: 0 <= i < |tokens| ==> TokenValue(tokens[i]) < 0x80
    ensures DecodeText(tokens).Ok? && DecodeText(tokens).value == TokenBytes(tokens)
  {
    DecodeTextBytes(tokens);
    AsciiWellFormed(TokenBytes(tokens));
  }

  // ---------------------------------------------------------------------------
  // The BIOS parameter block, offsets 0-23
  // ---------------------------------------------------------------------------

  datatype FatHeader = FatHeader(
    jumpInstruction: seq<string>, // tokens 0-2, as typed
    oemName: seq<byte>,           // tokens 3-10, decoded as text
    bytesPerSector: nat,          // tokens 11-12, little-endian
    sectorsPerCluster: nat,       // token 13
    reservedAreaSize: nat,        // tokens 14-15, little-endian
    numberOfFats: nat,            // token 16
    maxRootEntries: nat,          // tokens 17-18, little-endian
    numberOfSectors: nat,         // tokens 19-20, little-endian
    mediaType: string,            // token 21, as typed
    sizeOfFat: nat                // tokens 22-23, little-endian
  )

  /** `bytes_to_decimal(list(reversed(record[i:i + 2])))`; its value is
      stated by `Le16Value` and its bound by `Le16Short`. */
  function Le16(record: seq<string>, i: nat): Result<nat>
    requires i + 2 <= |record|
  {
    BytesToDecimal(Reverse(record[i..i + 2]))
  }

  /** `bytes_to_decimal(record[i])`: joining a single token gives the token;
      its value is stated by `Le8Value` and its bound by `Le8Short`. */
  function Le8(record: seq<string>, i: nat): Result<nat>
    requires i < |record|
  {
    BytesToDecimal([record[i]])
  }

  /** The header fields in the order the script evaluates them: the OEM name
      first, then the numeric fields as the report is rendered; the first
      failure ends the run. */
  function DecodeHeader(record: seq<string>): (r: Result<FatHeader>)
    requires |record| >= 24
    ensures r.Err? ==> r.error == FormatError || r.error == TextDecodeError
    ensures r.Ok? ==>
      r.value.jumpInstruction == record[..3] && r.value.mediaType == record[21] &&
      WellFormed(r.value.oemName)
  {
    var oemName :- DecodeText(record[3..11]);
    var bytesPerSector :- Le16(record, 11);
    var sectorsPerCluster :- Le8(record, 13);
    var reservedAreaSize :- Le16(record, 14);
    var numberOfFats :- Le8(record, 16);
    var maxRootEntries :- Le16(record, 17);
    var numberOfSectors :- Le16(record, 19);
    var sizeOfFat :- Le16(record, 22);
    Ok(FatHeader(record[..3], oemName, bytesPerSector, sectorsPerCluster, reservedAreaSize,
                 numberOfFats, maxRootEntries, numberOfSectors, record[21], sizeOfFat))
  }

  /** When tokens 11-23, apart from the media type copied at 21, are byte
      tokens, each 16-bit field is its low byte
      plus 256 times its high byte (so below 65536) and each one-byte field
      is that byte; the header then decodes exactly when the OEM name does. */
  lemma HeaderFields(record: seq<string>)
    requires |record| >= 24
    requires forall i :: 11 <= i < 24 && i != 21 ==> IsByteToken(record[i])
    ensures DecodeHeader(record).Ok? <==> DecodeText(record[3..11]).Ok?
    ensures DecodeHeader(record).Ok? ==>
      var h := DecodeHeader(record).value;
      && h.oemName == DecodeText(record[3..11]).value
      && h.bytesPerSector == ByteAt(record, 11) + 256 * ByteAt(record, 12)
      && h.sectorsPerCluster == ByteAt(record, 13)
      && h.reservedAreaSize == ByteAt(record, 14) + 256 * ByteAt(record, 15)
      && h.numberOfFats == ByteAt(record, 16)
      && h.maxRootEntries == ByteAt(record, 17) + 256 * ByteAt(record, 18)
      && h.numberOfSectors == ByteAt(record, 19) + 256 * ByteAt(record, 20)
      && h.sizeOfFat == ByteAt(record, 22) + 256 * ByteAt(record, 23)
      && h.bytesPerSector < 65536 && h.reservedAreaSize < 65536 && h.maxRootEntries < 65536
      && h.numberOfSectors < 65536 && h.sizeOfFat < 65536
      && h.sectorsPerCluster < 256 && h.numberOfFats < 256
  {
    Le16Value(record, 11);
    Le8Value(record, 13);
    Le16Value(record, 14);
    Le8Value(record, 16);
    Le16Value(record, 17);
    Le16Value(record, 19);
    Le16Value(record, 22);
  }

  /** The 16-bit field at tokens `i` and `i + 1`: the low byte plus 256 times
      the high byte. */
  lemma Le16Value(record: seq<string>, i: nat)
    requires i + 2 <= |record| && IsByteToken(record[i]) && IsByteToken(record[i + 1])
    ensures Le16(record, i).Ok? && Le16(record, i).value == ByteAt(record, i) + 256 * ByteAt(record, i + 1)
  {
    var pair := record[i..i + 2];
    assert pair[0] == record[i] && pair[1] == record[i + 1];
    FieldValue2(pair);
  }

  /** The one-byte field at token `i`. */
  lemma Le8Value(record: seq<string>, i: nat)
    requires i < |record| && IsByteToken(record[i])
    ensures Le8(record, i).Ok? && Le8(record, i).value == ByteAt(record, i)
  {
    assert Concat([record[i]]) == record[i];
  }

  /** The OEM name is decoded before any number, so a bad OEM name is the
      error the run ends with. */
  lemma OemNameFirst(record: seq<string>)
    requires |record| >= 24 && DecodeText(record[3..11]).Err?
    ensures DecodeHeader(record).Err? && DecodeHeader(record).error == DecodeText(record[3..11]).error
  {
  }

  /** The header reads tokens 0-23 and nothing after them. */
  lemma HeaderReadsOnlyPrefix(r1: seq<string>, r2: seq<string>)
    requires |r1| >= 24 && |r2| >= 24 && r1[..24] == r2[..24]
    ensures DecodeHeader(r1) == DecodeHeader(r2)
  {
    assert r1[..3] == r2[..3] && r1[3..11] == r2[3..11];
    assert r1[11..13] == r2[11..13] && r1[14..16] == r2[14..16];
    assert r1[17..19] == r2[17..19] && r1[19..21] == r2[19..21] && r1[22..24] == r2[22..24];
    assert r1[13] == r2[13] && r1[16] == r2[16] && r1[21] == r2[21];
  }

  /** `00 02` is 512 bytes per sector. */
  lemma BytesPerSectorExample()
    ensures BytesToDecimal(Reverse(["00", "02"])).Ok?
    ensures BytesToDecimal(Reverse(["00", "02"])).value == 512
  {
    var pair := ["00", "02"];
    assert TokenValue(pair[0]) == 0 && TokenValue(pair[1]) == 2;
    FieldValue2(pair);
  }

  // ---------------------------------------------------------------------------
  // The rest of the record, offsets 36 on
  // ---------------------------------------------------------------------------

  /** The FAT12/16 extended BIOS parameter block; token 37 (reserved) is
      not read. */
  datatype ExtendedBpb = ExtendedBpb(
    driveNumber: string,              // token 36
    extendedBootSignature: string,    // token 38
    volumeSerialNumber: seq<string>,  // tokens 39-42, in input order
    volumeLabel: seq<byte>,           // tokens 43-53, decoded as text
    fileSystemType: seq<byte>         // tokens 54-61, decoded as text
  )

  datatype FatRest =
    | AllZero                          // every token from 36 on is zero: nothing more is read
    | Fat1216(bpb: ExtendedBpb)        // a nonzero size of FAT
    | Fat32(sizeOfFat: seq<string>)    // a zero size of FAT: tokens 36-39, reversed (the script stops here)

  /** Everything after the header report: the all-zero test over tokens 36
      to the end, then the FAT12/16 or the FAT32 layout, chosen by the size
      of FAT from the header. */
  function DecodeRest(record: seq<string>, sizeOfFat: nat): (r: Result<FatRest>)
    requires |record| >= MinRecordLength
    ensures r.Err? ==> r.error == FormatError || r.error == TextDecodeError
    ensures r.Ok? && r.value.Fat1216? ==>
      WellFormed(r.value.bpb.volumeLabel) && WellFormed(r.value.bpb.fileSystemType)
  {
    var rest :- BytesToDecimal(record[36..]);
    if rest == 0 then Ok(AllZero)
    else if sizeOfFat != 0 then
      var volumeLabel :- DecodeText(record[43..54]);
      var fileSystemType :- DecodeText(record[54..62]);
      Ok(Fat1216(ExtendedBpb(record[36], record[38], record[39..43], volumeLabel, fileSystemType)))
    else
      Ok(Fat32(Reverse(record[36..40])))
  }

  /** The short cut is taken exactly when the characters from token 36 on
      are hexadecimal zeros. */
  lemma AllZeroExactly(record: seq<string>, sizeOfFat: nat)
    requires |record| >= MinRecordLength
    ensures var tail := Concat(record[36..]);
      DecodeRest(record, sizeOfFat) == Ok(AllZero) <==>
        tail != [] && forall k :: 0 <= k < |tail| ==> tail[k] == '0'
  {
    var tail := Concat(record[36..]);
    if tail != [] && forall k :: 0 <= k < |tail| ==> tail[k] == '0' {
      assert AllHex(tail);
      HexValueZero(tail);
    }
    if DecodeRest(record, sizeOfFat) == Ok(AllZero) {
      HexValueZero(tail);
    }
  }

  /** With a nonzero rest and a nonzero size of FAT the FAT12/16 fields are
      tokens 36, 38 and 39-42 as typed and the texts of 43-53 and 54-61. */
  lemma Fat1216Fields(record: seq<string>, sizeOfFat: nat)
    requires |record| >= MinRecordLength && sizeOfFat != 0
    requires BytesToDecimal(record[36..]).Ok? && BytesToDecimal(record[36..]).value != 0
    ensures DecodeRest(record, sizeOfFat).Ok? <==>
      DecodeText(record[43..54]).Ok? && DecodeText(record[54..62]).Ok?
    ensures DecodeRest(record, sizeOfFat).Ok? ==>
      DecodeRest(record, sizeOfFat).value == Fat1216(ExtendedBpb(
        record[36], record[38], record[39..43],
        DecodeText(record[43..54]).value, DecodeText(record[54..62]).value))
  {
  }

  /** Past the all-zero test, the FAT12/16 layout reads tokens 36 and 38-61
      only: token 37 and everything after 61 may change freely. */
  lemma Fat1216ReadsOnly(r1: seq<string>, r2: seq<string>, sizeOfFat: nat)
    requires |r1| >= MinRecordLength && |r2| >= MinRecordLength && sizeOfFat != 0
    requires r1[36] == r2[36] && r1[38..62] == r2[38..62]
    requires BytesToDecimal(r1[36..]).Ok? && BytesToDecimal(r1[36..]).value != 0
    requires BytesToDecimal(r2[36..]).Ok? && BytesToDecimal(r2[36..]).value != 0
    ensures DecodeRest(r1, sizeOfFat) == DecodeRest(r2, sizeOfFat)
  {
    SameSlice(r1, r2, 38, 62, 38, 39);
    SameSlice(r1, r2, 38, 62, 39, 43);
    SameSlice(r1, r2, 38, 62, 43, 54);
    SameSlice(r1, r2, 38, 62, 54, 62);
    assert r1[38] == r1[38..39][0];
    assert r2[38] == r2[38..39][0];
  }

  /** Two records that agree on `lo..hi` agree on every slice inside it. */
  lemma SameSlice(r1: seq<string>, r2: seq<string>, lo: nat, hi: nat, i: nat, j: nat)
    requires lo <= i <= j <= hi <= |r1| && hi <= |r2| && r1[lo..hi] == r2[lo..hi]
    ensures r1[i..j] == r2[i..j]
  {
    forall k | i <= k < j
      ensures r1[k] == r2[k]
    {
      assert r1[k] == r1[lo..hi][k - lo];
      assert r2[k] == r2[lo..hi][k - lo];
    }
  }

  /** With a nonzero rest and a zero size of FAT the run reverses tokens
      36-39 and reads nothing more; for byte tokens `bytes_to_decimal` of
      them would be their little-endian 32-bit value. */
  lemma Fat32Fields(record: seq<string>)
    requires |record| >= MinRecordLength
    requires BytesToDecimal(record[36..]).Ok? && BytesToDecimal(record[36..]).value != 0
    ensures DecodeRest(record, 0).Ok?
    ensures DecodeRest(record, 0).value == Fat32(Reverse(record[36..40]))
    ensures AllByteTokens(record[36..40]) ==>
      BytesToDecimal(DecodeRest(record, 0).value.sizeOfFat).Ok? &&
      BytesToDecimal(DecodeRest(record, 0).value.sizeOfFat).value < 0x1_0000_0000
    ensures AllByteTokens(record[36..40]) ==>
      BytesToDecimal(DecodeRest(record, 0).value.sizeOfFat).value
        == ByteAt(record, 36) + 256 * ByteAt(record, 37) + 65536 * ByteAt(record, 38)
           + 16777216 * ByteAt(record, 39)
  {
    if AllByteTokens(record[36..40]) {
      var field := record[36..40];
      LittleEndianField(field);
      assert Pow(256, 4) == 0x1_0000_0000;
      FieldValue4(field);
      assert field[0] == record[36] && field[1] == record[37];
      assert field[2] == record[38] && field[3] == record[39];
    }
  }

  // ---------------------------------------------------------------------------
  // A whole run
  // ---------------------------------------------------------------------------

  /** What a run reports past the header: the header always, then the rest
      or the error that stopped the run after the header was printed. */
  datatype FatReport = FatReport(header: FatHeader, rest: Result<FatRest>)

  /** The header and the rest of a record of at least 62 tokens. */
  function DecodeRecord(record: seq<string>): (r: Result<FatReport>)
    requires |record| >= MinRecordLength
    ensures r.Err? ==> r.error == FormatError || r.error == TextDecodeError
    ensures r.Ok? ==> r.value.rest == DecodeRest(record, r.value.header.sizeOfFat)
  {
    var header :- DecodeHeader(record);
    Ok(FatReport(header, DecodeRest(record, header.sizeOfFat)))
  }

  /** One run on the operator's line: sanitise, tokenise, pad or stop, and
      decode. */
  function DecodeFat(line: string, accept: bool): (r: Result<FatReport>)
    ensures r == Err(Declined) <==> |Tokenize(Sanitize(line))| < MinRecordLength && !accept
    ensures r.Ok? && |Tokenize(Sanitize(line))| >= 3 ==>
      r.value.header.jumpInstruction == Tokenize(Sanitize(line))[..3]
  {
    var tokens := Tokenize(Sanitize(line));
    var record :- PadRecord(tokens, accept);
    assert |tokens| >= 3 ==> record[..3] == tokens[..3] by {
      if |tokens| >= 3 && |tokens| < MinRecordLength {
        assert record[..|tokens|] == tokens;
        assert record[..3] == record[..|tokens|][..3];
      }
    }
    DecodeRecord(record)
  }

  /** The exit status: 0 when the whole report was printed (the all-zero
      short cut included), 1 for a declined pad or an error. */
  function FatStatus(r: Result<FatReport>): (status: nat)
    ensures status == 0 <==> r.Ok? && r.value.rest.Ok?
    ensures status <= 1
  {
    if r.Ok? then ExitStatus(r.value.rest) else 1
  }

  /** Whatever the line, a header that decodes has its 16-bit fields below
      65536 and its one-byte fields below 256: every token of a padded record
      has at most two hexadecimal digits. */
  lemma HeaderBounds(line: string, accept: bool)
    requires DecodeFat(line, accept).Ok?
    ensures var h := DecodeFat(line, accept).value.header;
      && h.bytesPerSector < 65536 && h.reservedAreaSize < 65536 && h.maxRootEntries < 65536
      && h.numberOfSectors < 65536 && h.sizeOfFat < 65536
      && h.sectorsPerCluster < 256 && h.numberOfFats < 256
  {
    var record := PadRecord(Tokenize(Sanitize(line)), accept).value;
    PaddedTokensShort(line, accept);
    HeaderBoundsOf(record);
  }

  /** Every token of a padded record has at most two characters, and the
      run's header is the header of that record. */
  lemma PaddedTokensShort(line: string, accept: bool)
    requires DecodeFat(line, accept).Ok?
    ensures var record := PadRecord(Tokenize(Sanitize(line)), accept).value;
      && |record| >= 24 && (forall i :: 0 <= i < |record| ==> |record[i]| <= 2)
      && DecodeHeader(record).Ok? && DecodeFat(line, accept).value.header == DecodeHeader(record).value
  {
  }

  lemma HeaderBoundsOf(record: seq<string>)
    requires |record| >= 24 && forall i :: 0 <= i < |record| ==> |record[i]| <= 2
    requires DecodeHeader(record).Ok?
    ensures var h := DecodeHeader(record).value;
      && h.bytesPerSector < 65536 && h.reservedAreaSize < 65536 && h.maxRootEntries < 65536
      && h.numberOfSectors < 65536 && h.sizeOfFat < 65536
      && h.sectorsPerCluster < 256 && h.numberOfFats < 256
  {
    var h := DecodeHeader(record).value;
    assert && Le16(record, 11) == Ok(h.bytesPerSector) && Le8(record, 13) == Ok(h.sectorsPerCluster)
           && Le16(record, 14) == Ok(h.reservedAreaSize) && Le8(record, 16) == Ok(h.numberOfFats)
           && Le16(record, 17) == Ok(h.maxRootEntries) && Le16(record, 19) == Ok(h.numberOfSectors)
           && Le16(record, 22) == Ok(h.sizeOfFat)
    by {
    }
    Le16Short(record, 11);
    Le8Short(record, 13);
    Le16Short(record, 14);
    Le8Short(record, 16);
    Le16Short(record, 17);
    Le16Short(record, 19);
    Le16Short(record, 22);
  }

  /** Two tokens of at most two characters each hold at most four hexadecimal
      digits. */
  lemma Le16Short(record: seq<string>, i: nat)
    requires i + 2 <= |record| && |record[i]| <= 2 && |record[i + 1]| <= 2
    ensures Le16(record, i).Ok? ==> Le16(record, i).value < 65536
  {
    var field := Reverse(record[i..i + 2]);
    assert field == [record[i + 1], record[i]];
    assert field[1..] == [record[i]];
    assert Concat([record[i]]) == record[i];
    assert Concat(field) == record[i + 1] + record[i];
    PowMono(16, |Concat(field)|, 4);
    assert Pow(16, 4) == 65536;
  }

  /** One token of at most two characters holds at most two hexadecimal
      digits. */
  lemma Le8Short(record: seq<string>, i: nat)
    requires i < |record| && |record[i]| <= 2
    ensures Le8(record, i).Ok? ==> Le8(record, i).value < 256
  {
    assert Concat([record[i]]) == record[i];
    PowMono(16, |record[i]|, 2);
    assert Pow(16, 2) == 256;
  }

  /** A line of at most 36 tokens whose padding is accepted has nothing but
      `00` from token 36 on, so the run stops after the header with status 0
      whenever the header decodes. */
  lemma ShortRecordStopsAfterHeader(line: string)
    requires |Tokenize(Sanitize(line))| <= 36
    requires DecodeHeader(PadRecord(Tokenize(Sanitize(line)), true).value).Ok?
    ensures DecodeFat(line, true).Ok? && DecodeFat(line, true).value.rest == Ok(AllZero)
    ensures FatStatus(DecodeFat(line, true)) == 0
  {
    var tokens := Tokenize(Sanitize(line));
    var record := PadRecord(tokens, true).value;
    var tail := record[36..];
    assert forall i :: 0 <= i < |tail| ==> tail[i] == "00";
    ZeroTokens(tail);
    AllZeroExactly(record, DecodeHeader(record).value.sizeOfFat);
  }

  /** `00` tokens join to a string of `0` characters that is as long as
      two per token. */
  lemma {:induction false} ZeroTokens(tokens: seq<string>)
    requires forall i :: 0 <= i < |tokens| ==> tokens[i] == "00"
    ensures |Concat(tokens)| == 2 * |tokens|
    ensures forall k :: 0 <= k < |Concat(tokens)| ==> Concat(tokens)[k] == '0'
  {
    if tokens != [] {
      ZeroTokens(tokens[1..]);
    }
  }

  /** A bad OEM name ends the run with that error even when everything from
      token 36 on is zero. */
  lemma OemNameFailsBeforeZeroTest(record: seq<string>)
    requires |record| >= MinRecordLength && DecodeText(record[3..11]).Err?
    ensures DecodeRecord(record).Err? && DecodeRecord(record).error == DecodeText(record[3..11]).error
    ensures FatStatus(DecodeRecord(record)) == 1
  {
    OemNameFirst(record);
  }

  /** The run as the script performs it: the token list is built, padded in
      place, and decoded. */
  method Translate(line: string, accept: bool) returns (run: Result<FatReport>)
    ensures run == DecodeFat(line, accept)
  {
    var record := new BootRecord(line);
    var proceed := record.PadToMinimum(accept);
    if !proceed {
      return Err(Declined);
    }
    run := DecodeRecord(record.tokens);
  }
}
