/** The MBR partition-entry translator: one 16-byte entry of the partition
    table of an IBM-PC Master Boot Record, typed as 32 hexadecimal digits. */
module Mbr {
  import opened Common
  import opened Hex

  const SectorSize: nat := 512

  /** `DOS_PARTITION_MAPPING`, written as the source writes it. Key `0x82`
      appears twice; a map display keeps the last occurrence, as a Python dict
      display does. */
  const PartitionTypes: map<string, string> := map[
    "0x00" := "Empty",
    "0x01" := "FAT12, CHS",
    "0x04" := "FAT16, 16\U{2013}32 MB, CHS",
    "0x05" := "Microsoft Extended, CHS",
    "0x06" := "FAT16, 32 MB\U{2013}2GB, CHS",
    "0x07" := "NTFS",
    "0x0b" := "FAT32, CHS",
    "0x0c" := "FAT32, LBA",
    "0x0e" := "FAT16, 32 MB\U{2013}2GB, LBA",
    "0x0f" := "Microsoft Extended, LBA",
    "0x11" := "Hidden FAT12, CHS",
    "0x14" := "Hidden FAT16, 16\U{2013}32 MB, CHS",
    "0x16" := "Hidden FAT16, 32 MB\U{2013}2GB, CHS",
    "0x1b" := "Hidden FAT32, CHS",
    "0x1c" := "Hidden FAT32, LBA",
    "0x1e" := "Hidden FAT16, 32 MB\U{2013}2GB, LBA",
    "0x42" := "Microsoft MBR. Dynamic Disk",
    "0x82" := "Solaris x86",
    "0x82" := "Linux Swap",
    "0x83" := "Linux",
    "0x84" := "Hibernation",
    "0x85" := "Linux Extended",
    "0x86" := "NTFS Volume Set",
    "0x87" := "NTFS Volume Set",
    "0xa0" := "Hibernation",
    "0xa1" := "Hibernation",
    "0xa5" := "FreeBSD",
    "0xa6" := "OpenBSD",
    "0xa8" := "Mac OSX",
    "0xa9" := "NetBSD",
    "0xab" := "Mac OSX Boot",
    "0xb7" := "BSDI",
    "0xb8" := "BSDI swap",
    "0xee" := "EFI GPT Disk",
    "0xef" := "EFI System Partition",
    "0xfb" := "Vmware File System",
    "0xfc" := "Vmware swap"
  ]

  /** `DOS_PARTITION_MAPPING.get(f"0x{code}", f"0x{code}")`: the table's name
      for the code, or the code itself behind `0x`. */
  function Lookup(code: string): (name: string)
    ensures "0x" + code in PartitionTypes ==> name == PartitionTypes["0x" + code]
    ensures "0x" + code !in PartitionTypes ==> name == "0x" + code
    ensures name != []
  {
    var key := "0x" + code;
    if key in PartitionTypes then PartitionTypes[key] else key
  }

  /** The table entries an upper-cased code can reach: those whose two digits
      are both decimal. */
  const DecimalCodes: set<string> := {
    "00", "01", "04", "05", "06", "07", "11", "14", "16", "42",
    "82", "83", "84", "85", "86", "87"
  }

  predicate NoLowercase(s: string) {
    forall i :: 0 <= i < |s| ==> !IsLower(s[i])
  }

  predicate IsDecimal(c: char) {
    '0' <= c <= '9'
  }

  /** Every key is `0x` and two digits, and a key whose digits have no
      lower-case letter has two decimal digits. */
  lemma KeyShape(key: string)
    requires key in PartitionTypes
    ensures |key| == 4 && key[0] == '0' && key[1] == 'x'
    ensures !IsLower(key[2]) && !IsLower(key[3]) ==> IsDecimal(key[2]) && IsDecimal(key[3])
    ensures IsDecimal(key[2]) && IsDecimal(key[3]) ==> key[2..] in DecimalCodes
  {
    KeyForm(key);
    KeyLetters(key);
    KeyDecimal(key);
  }

  lemma KeyForm(key: string)
    requires key in PartitionTypes
    ensures |key| == 4 && key[0] == '0' && key[1] == 'x'
  {
  }

  lemma KeyLetters(key: string)
    requires key in PartitionTypes
    ensures |key| == 4 && (!IsLower(key[2]) && !IsLower(key[3]) ==> IsDecimal(key[2]) && IsDecimal(key[3]))
  {
  }

  lemma KeyDecimal(key: string)
    requires key in PartitionTypes
    ensures |key| == 4 && (IsDecimal(key[2]) && IsDecimal(key[3]) ==> key[2..] in DecimalCodes)
  {
  }

  /** The decoder upper-cases its input while the table spells the letter
      digits of its keys in lower case, so an upper-cased code is found
      exactly when it is one of the sixteen all-decimal codes of the table. */
  lemma LookupUpperCase(code: string)
    requires NoLowercase(code)
    ensures "0x" + code in PartitionTypes <==> code in DecimalCodes
    ensures code !in DecimalCodes ==> Lookup(code) == "0x" + code
  {
    var key := "0x" + code;
    if key in PartitionTypes {
      KeyShape(key);
      assert key[2] == code[0] && key[3] == code[1];
      assert key[2..] == code;
    }
    if code in DecimalCodes {
      assert key == ['0', 'x', code[0], code[1]];
    }
  }

  /** Concrete lookups: `07` is NTFS; `0B` misses the `0x0b` entry and falls
      back to its own text; the duplicated `0x82` resolves to its later name. */
  lemma LookupExamples()
    ensures Lookup("07") == "NTFS"
    ensures Lookup("0B") == "0x0B"
    ensures Lookup("82") == "Linux Swap"
  {
    assert "0x" + "07" == "0x07";
    assert "0x" + "0B" == "0x0B";
    assert "0x" + "82" == "0x82";
  }

  datatype MbrEntry = MbrEntry(
    bootCode: string,        // byte 0, reported as typed
    startingChs: nat,        // bytes 1..3, little-endian
    partitionType: string,   // byte 4, reported as typed
    endingChs: nat,          // bytes 5..7, little-endian
    startingLba: nat,        // bytes 8..11, little-endian
    sizeInSectors: nat,      // bytes 12..15, little-endian
    sizeInBytes: nat)        // the size in sectors times the assumed sector size

  /** The field extraction of lines 84-89 and 100 over the 16 byte tokens.
      Bytes 0 and 4 are copied, never parsed. */
  function DecodeRecord(record: seq<string>): (r: Result<MbrEntry>)
    requires |record| == 16
    ensures r.Err? ==> r.error == FormatError
    ensures r.Ok? ==> r.value.bootCode == record[0] && r.value.partitionType == record[4]
    ensures r.Ok? ==> r.value.sizeInBytes == r.value.sizeInSectors * SectorSize
  {
    var startingChs :- BytesToDecimal(Reverse(record[1..4]));     // record[3:0:-1]
    var endingChs :- BytesToDecimal(Reverse(record[5..8]));       // record[7:4:-1]
    var startingLba :- BytesToDecimal(Reverse(record[8..12]));    // record[11:7:-1]
    var sizeInSectors :- BytesToDecimal(Reverse(record[12..16])); // record[15:11:-1]
    Ok(MbrEntry(record[0], startingChs, record[4], endingChs, startingLba, sizeInSectors,
                sizeInSectors * SectorSize))
  }

  /** The whole translator: sanitise, tokenise, insist on 32 characters,
      extract the fields. */
  function DecodeMbr(line: string): (r: Result<MbrEntry>)
    ensures r == Err(InvalidLength) <==> |Sanitize(line)| != 32
    ensures r.Err? ==> r.error == InvalidLength || r.error == FormatError
    ensures r.Ok? ==> r.value.sizeInBytes == r.value.sizeInSectors * SectorSize
  {
    var s := Sanitize(line);
    var record := Tokenize(s);
    ConcatTokenize(s);
    if |Concat(record)| != 32 then Err(InvalidLength) else DecodeRecord(record)
  }

  /** The decoder reports the type code of the upper-cased line, so the
      table finds it only when it is one of the all-decimal codes; any
      other code is reported as its own text after `0x`. */
  lemma TypeCodeUpper(line: string)
    requires DecodeMbr(line).Ok?
    ensures NoLowercase(DecodeMbr(line).value.partitionType)
    ensures DecodeMbr(line).value.partitionType !in DecimalCodes ==>
      Lookup(DecodeMbr(line).value.partitionType) == "0x" + DecodeMbr(line).value.partitionType
  {
    var s := Sanitize(line);
    var record := Tokenize(s);
    ConcatTokenize(s);
    assert record[4] == s[8..10];
    LookupUpperCase(record[4]);
  }

  /** The string was accepted exactly when it has 32 characters and every
      byte other than the boot indicator (0) and the type code (4) is two
      hexadecimal digits; the 16 tokens then have two characters each. */
  lemma MbrAccepted(line: string)
    ensures var record := Tokenize(Sanitize(line));
      DecodeMbr(line).Ok? <==>
        |Sanitize(line)| == 32 &&
        forall i :: 0 <= i < 16 && i != 0 && i != 4 ==> IsByteToken(record[i])
    ensures DecodeMbr(line).Ok? ==>
      |Tokenize(Sanitize(line))| == 16 &&
      forall i :: 0 <= i < 16 ==> |Tokenize(Sanitize(line))[i]| == 2
  {
    var s := Sanitize(line);
    var record := Tokenize(s);
    ConcatTokenize(s);
    if |s| == 32 {
      RecordAccepted(record);
    }
  }

  /** The field extraction succeeds exactly when every token it parses is a
      byte token. */
  lemma RecordAccepted(record: seq<string>)
    requires |record| == 16 && forall i :: 0 <= i < 16 ==> |record[i]| == 2
    ensures DecodeRecord(record).Ok? <==>
      forall i :: 0 <= i < 16 && i != 0 && i != 4 ==> IsByteToken(record[i])
  {
    FieldAccepted(record[1..4]);
    FieldAccepted(record[5..8]);
    FieldAccepted(record[8..12]);
    FieldAccepted(record[12..16]);
    if forall i :: 0 <= i < 16 && i != 0 && i != 4 ==> IsByteToken(record[i]) {
      assert AllByteTokens(record[1..4]) && AllByteTokens(record[5..8]);
      assert AllByteTokens(record[8..12]) && AllByteTokens(record[12..16]);
    } else {
      var i :| 0 <= i < 16 && i != 0 && i != 4 && !IsByteToken(record[i]);
      if i < 4 {
        assert record[1..4][i - 1] == record[i];
      } else if i < 8 {
        assert record[5..8][i - 5] == record[i];
      } else if i < 12 {
        assert record[8..12][i - 8] == record[i];
      } else {
        assert record[12..16][i - 12] == record[i];
      }
    }
  }

  /** `bytes_to_decimal` of a reversed slice of two-character tokens succeeds
      exactly when every token is two hexadecimal digits. */
  lemma {:induction false} FieldAccepted(tokens: seq<string>)
    requires tokens != [] && forall i :: 0 <= i < |tokens| ==> |tokens[i]| == 2
    ensures BytesToDecimal(Reverse(tokens)).Ok? <==> AllByteTokens(tokens)
  {
    AllHexConcat(Reverse(tokens));
    assert forall i :: 0 <= i < |tokens| ==> tokens[i] == Reverse(tokens)[|tokens| - 1 - i];
  }

  lemma {:induction false} AllHexConcat(tokens: seq<string>)
    ensures AllHex(Concat(tokens)) <==> forall i :: 0 <= i < |tokens| ==> AllHex(tokens[i])
  {
    if tokens != [] {
      AllHexConcat(tokens[1..]);
      AllHexAppend(tokens[0], Concat(tokens[1..]));
      assert forall i :: 1 <= i < |tokens| ==> tokens[i] == tokens[1..][i - 1];
    }
  }

  /** For 32 characters whose parsed tokens (all but the copied bytes 0 and
      4) are byte tokens: the CHS addresses are the
      3-byte and the LBA and the sector count the 4-byte little-endian values
      of their bytes, so they are below 2^24 and 2^32, and the size in bytes
      is the sector count times 512. */
  lemma MbrFields(line: string)
    requires |Sanitize(line)| == 32
    requires forall i :: 0 <= i < 16 && i != 0 && i != 4 ==> IsByteToken(Tokenize(Sanitize(line))[i])
    ensures DecodeMbr(line).Ok?
    ensures var record := Tokenize(Sanitize(line));
      var e := DecodeMbr(line).value;
      && e.bootCode == record[0] && e.partitionType == record[4]
      && e.startingChs == ByteAt(record, 1) + 256 * ByteAt(record, 2) + 65536 * ByteAt(record, 3)
      && e.endingChs == ByteAt(record, 5) + 256 * ByteAt(record, 6) + 65536 * ByteAt(record, 7)
      && e.startingLba == ByteAt(record, 8) + 256 * ByteAt(record, 9) + 65536 * ByteAt(record, 10)
                          + 16777216 * ByteAt(record, 11)
      && e.sizeInSectors == ByteAt(record, 12) + 256 * ByteAt(record, 13) + 65536 * ByteAt(record, 14)
                            + 16777216 * ByteAt(record, 15)
      && e.startingChs < 0x100_0000 && e.endingChs < 0x100_0000
      && e.startingLba < 0x1_0000_0000 && e.sizeInSectors < 0x1_0000_0000
      && e.sizeInBytes == e.sizeInSectors * 512
  {
    var s := Sanitize(line);
    var record := Tokenize(s);
    ConcatTokenize(s);
    assert AllByteTokens(record[1..4]);
    assert AllByteTokens(record[5..8]);
    assert AllByteTokens(record[8..12]);
    assert AllByteTokens(record[12..16]);
    FieldValue3(record[1..4]);
    FieldValue3(record[5..8]);
    FieldValue4(record[8..12]);
    FieldValue4(record[12..16]);
  }

  /** The 32 upper-case digits of a partition entry. */
  function EncodeMbr(bootCode: byte, startingChs: nat, partitionType: byte, endingChs: nat,
                     startingLba: nat, sizeInSectors: nat): (line: string)
    requires startingChs < Pow(256, 3) && endingChs < Pow(256, 3)
    requires startingLba < Pow(256, 4) && sizeInSectors < Pow(256, 4)
    ensures |line| == 32
  {
    var tokens := EntryTokens(bootCode, startingChs, partitionType, endingChs, startingLba, sizeInSectors);
    EntryTokensClean(bootCode, startingChs, partitionType, endingChs, startingLba, sizeInSectors);
    CleanJoin(tokens);
    Concat(tokens)
  }

  function EntryTokens(bootCode: byte, startingChs: nat, partitionType: byte, endingChs: nat,
                       startingLba: nat, sizeInSectors: nat): (tokens: seq<string>)
    requires startingChs < Pow(256, 3) && endingChs < Pow(256, 3)
    requires startingLba < Pow(256, 4) && sizeInSectors < Pow(256, 4)
    ensures |tokens| == 16
  {
    [ByteToken(bootCode)] + EncodeLittleEndian(startingChs, 3)
      + [ByteToken(partitionType)] + EncodeLittleEndian(endingChs, 3)
      + EncodeLittleEndian(startingLba, 4) + EncodeLittleEndian(sizeInSectors, 4)
  }

  /** Every token of an encoded entry is an upper-case two-digit byte token. */
  lemma EntryTokensClean(bootCode: byte, startingChs: nat, partitionType: byte, endingChs: nat,
                         startingLba: nat, sizeInSectors: nat)
    requires startingChs < Pow(256, 3) && endingChs < Pow(256, 3)
    requires startingLba < Pow(256, 4) && sizeInSectors < Pow(256, 4)
    ensures AllCleanByteTokens(EntryTokens(bootCode, startingChs, partitionType, endingChs, startingLba, sizeInSectors))
  {
    CleanSingle(bootCode);
    CleanSingle(partitionType);
    CleanPieces([ByteToken(bootCode)], EncodeLittleEndian(startingChs, 3),
                [ByteToken(partitionType)], EncodeLittleEndian(endingChs, 3),
                EncodeLittleEndian(startingLba, 4), EncodeLittleEndian(sizeInSectors, 4));
  }

  lemma CleanSingle(b: byte)
    ensures AllCleanByteTokens([ByteToken(b)])
  {
  }

  lemma CleanPieces(t0: seq<string>, t1: seq<string>, t2: seq<string>,
                    t3: seq<string>, t4: seq<string>, t5: seq<string>)
    requires AllCleanByteTokens(t0) && AllCleanByteTokens(t1) && AllCleanByteTokens(t2)
    requires AllCleanByteTokens(t3) && AllCleanByteTokens(t4) && AllCleanByteTokens(t5)
    ensures AllCleanByteTokens(t0 + t1 + t2 + t3 + t4 + t5)
  {
    CleanAppend(t0, t1);
    CleanAppend(t0 + t1, t2);
    CleanAppend(t0 + t1 + t2, t3);
    CleanAppend(t0 + t1 + t2 + t3, t4);
    CleanAppend(t0 + t1 + t2 + t3 + t4, t5);
  }

  /** Decoding an encoded entry gives back every field and the size in
      bytes. */
  lemma MbrRoundTrip(bootCode: byte, startingChs: nat, partitionType: byte, endingChs: nat,
                     startingLba: nat, sizeInSectors: nat)
    requires startingChs < Pow(256, 3) && endingChs < Pow(256, 3)
    requires startingLba < Pow(256, 4) && sizeInSectors < Pow(256, 4)
    ensures DecodeMbr(EncodeMbr(bootCode, startingChs, partitionType, endingChs, startingLba, sizeInSectors)).Ok?
    ensures DecodeMbr(EncodeMbr(bootCode, startingChs, partitionType, endingChs, startingLba, sizeInSectors)).value
      == MbrEntry(ByteToken(bootCode), startingChs, ByteToken(partitionType),
                  endingChs, startingLba, sizeInSectors, sizeInSectors * 512)
  {
    var tokens := EntryTokens(bootCode, startingChs, partitionType, endingChs, startingLba, sizeInSectors);
    EntryTokensClean(bootCode, startingChs, partitionType, endingChs, startingLba, sizeInSectors);
    DecodeCleanTokens(tokens);
    EntryDecodes(bootCode, startingChs, partitionType, endingChs, startingLba, sizeInSectors);
  }

  /** A line made of 16 clean byte tokens decodes exactly as those tokens. */
  lemma DecodeCleanTokens(tokens: seq<string>)
    requires |tokens| == 16 && AllCleanByteTokens(tokens)
    ensures DecodeMbr(Concat(tokens)) == DecodeRecord(tokens)
  {
    CleanLine(tokens);
    DecodeSanitized(Concat(tokens), tokens);
  }

  lemma CleanLine(tokens: seq<string>)
    requires |tokens| == 16 && AllCleanByteTokens(tokens)
    ensures |Sanitize(Concat(tokens))| == 32 && Tokenize(Sanitize(Concat(tokens))) == tokens
  {
    CleanJoin(tokens);
  }

  lemma CleanJoin(tokens: seq<string>)
    requires AllCleanByteTokens(tokens)
    ensures Sanitize(Concat(tokens)) == Concat(tokens)
    ensures |Concat(tokens)| == 2 * |tokens| && Tokenize(Concat(tokens)) == tokens
  {
    assert forall i :: 0 <= i < |tokens| ==> |tokens[i]| == 2 by {
      assert forall i :: 0 <= i < |tokens| ==> IsByteToken(tokens[i]);
    }
    ConcatLength(tokens);
    TokenizeConcat(tokens);
    CleanConcat(tokens);
    CleanSanitized(Concat(tokens));
  }

  lemma DecodeSanitized(line: string, tokens: seq<string>)
    requires |Sanitize(line)| == 32 && Tokenize(Sanitize(line)) == tokens
    ensures DecodeMbr(line) == DecodeRecord(tokens)
  {
  }

  lemma EntryDecodes(bootCode: byte, startingChs: nat, partitionType: byte, endingChs: nat,
                     startingLba: nat, sizeInSectors: nat)
    requires startingChs < Pow(256, 3) && endingChs < Pow(256, 3)
    requires startingLba < Pow(256, 4) && sizeInSectors < Pow(256, 4)
    ensures var tokens := EntryTokens(bootCode, startingChs, partitionType, endingChs, startingLba, sizeInSectors);
      && DecodeRecord(tokens).Ok?
      && DecodeRecord(tokens).value
         == MbrEntry(ByteToken(bootCode), startingChs, ByteToken(partitionType),
                     endingChs, startingLba, sizeInSectors, sizeInSectors * 512)
  {
    var tokens := EntryTokens(bootCode, startingChs, partitionType, endingChs, startingLba, sizeInSectors);
    EntrySlices(bootCode, startingChs, partitionType, endingChs, startingLba, sizeInSectors);
    assert BytesToDecimal(Reverse(tokens[1..4])) == Ok(startingChs) by {
      LittleEndianRoundTrip(startingChs, 3);
    }
    assert BytesToDecimal(Reverse(tokens[5..8])) == Ok(endingChs) by {
      LittleEndianRoundTrip(endingChs, 3);
    }
    assert BytesToDecimal(Reverse(tokens[8..12])) == Ok(startingLba) by {
      LittleEndianRoundTrip(startingLba, 4);
    }
    assert BytesToDecimal(Reverse(tokens[12..16])) == Ok(sizeInSectors) by {
      LittleEndianRoundTrip(sizeInSectors, 4);
    }
    RecordFields(tokens, startingChs, endingChs, startingLba, sizeInSectors);
  }

  lemma EntrySlices(bootCode: byte, startingChs: nat, partitionType: byte, endingChs: nat,
                    startingLba: nat, sizeInSectors: nat)
    requires startingChs < Pow(256, 3) && endingChs < Pow(256, 3)
    requires startingLba < Pow(256, 4) && sizeInSectors < Pow(256, 4)
    ensures var tokens := EntryTokens(bootCode, startingChs, partitionType, endingChs, startingLba, sizeInSectors);
      && tokens[0] == ByteToken(bootCode) && tokens[4] == ByteToken(partitionType)
      && tokens[1..4] == EncodeLittleEndian(startingChs, 3)
      && tokens[5..8] == EncodeLittleEndian(endingChs, 3)
      && tokens[8..12] == EncodeLittleEndian(startingLba, 4)
      && tokens[12..16] == EncodeLittleEndian(sizeInSectors, 4)
  {
    PieceSlices([ByteToken(bootCode)], EncodeLittleEndian(startingChs, 3),
                [ByteToken(partitionType)], EncodeLittleEndian(endingChs, 3),
                EncodeLittleEndian(startingLba, 4), EncodeLittleEndian(sizeInSectors, 4));
  }

  lemma PieceSlices<T>(t0: seq<T>, t1: seq<T>, t2: seq<T>, t3: seq<T>, t4: seq<T>, t5: seq<T>)
    requires |t0| == 1 && |t1| == 3 && |t2| == 1 && |t3| == 3 && |t4| == 4 && |t5| == 4
    ensures var r := t0 + t1 + t2 + t3 + t4 + t5;
      && r[0] == t0[0] && r[1..4] == t1 && r[4] == t2[0] && r[5..8] == t3
      && r[8..12] == t4 && r[12..16] == t5
  {
    var r := t0 + t1 + t2 + t3 + t4 + t5;
    assert r[1..4] == t1;
    assert r[5..8] == t3;
    assert r[8..12] == t4;
    assert r[12..16] == t5;
  }

  /** The field extraction over tokens whose four numeric fields parse to the
      given values. */
  lemma RecordFields(record: seq<string>, startingChs: nat, endingChs: nat, startingLba: nat, sizeInSectors: nat)
    requires |record| == 16
    requires BytesToDecimal(Reverse(record[1..4])) == Ok(startingChs)
    requires BytesToDecimal(Reverse(record[5..8])) == Ok(endingChs)
    requires BytesToDecimal(Reverse(record[8..12])) == Ok(startingLba)
    requires BytesToDecimal(Reverse(record[12..16])) == Ok(sizeInSectors)
    ensures DecodeRecord(record).Ok?
    ensures DecodeRecord(record).value
      == MbrEntry(record[0], startingChs, record[4], endingChs, startingLba, sizeInSectors, sizeInSectors * 512)
  {
  }
}
