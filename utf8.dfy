/** UTF-8 well-formedness, which decides whether `bytes.decode()` (strict
    UTF-8, the default) raises `UnicodeDecodeError`. The table is that of
    well-formed byte sequences in section 3.9 of the Unicode Standard
    (Table 3-7); it excludes overlong forms, surrogates and code points above
    U+10FFFF. */
module Utf8 {
  import opened Hex

  predicate IsContinuation(b: byte) {
    0x80 <= b <= 0xBF
  }

  /** The length of the well-formed sequence `bs` starts with, or 0 when its
      first bytes are not one. */
  function FirstLength(bs: seq<byte>): (n: nat)
    requires bs != []
    ensures n <= |bs| && n <= 4
    ensures bs[0] < 0x80 <==> n == 1
  {
    var b := bs[0];
    if b < 0x80 then 1
    else if 0xC2 <= b <= 0xDF then
      if |bs| >= 2 && IsContinuation(bs[1]) then 2 else 0
    else if b == 0xE0 then
      if |bs| >= 3 && 0xA0 <= bs[1] <= 0xBF && IsContinuation(bs[2]) then 3 else 0
    else if (0xE1 <= b <= 0xEC) || (0xEE <= b <= 0xEF) then
      if |bs| >= 3 && IsContinuation(bs[1]) && IsContinuation(bs[2]) then 3 else 0
    else if b == 0xED then
      if |bs| >= 3 && 0x80 <= bs[1] <= 0x9F && IsContinuation(bs[2]) then 3 else 0
    else if b == 0xF0 then
      if |bs| >= 4 && 0x90 <= bs[1] <= 0xBF && IsContinuation(bs[2]) && IsContinuation(bs[3]) then 4 else 0
    else if 0xF1 <= b <= 0xF3 then
      if |bs| >= 4 && IsContinuation(bs[1]) && IsContinuation(bs[2]) && IsContinuation(bs[3]) then 4 else 0
    else if b == 0xF4 then
      if |bs| >= 4 && 0x80 <= bs[1] <= 0x8F && IsContinuation(bs[2]) && IsContinuation(bs[3]) then 4 else 0
    else 0
  }

  /** `bs` splits into well-formed sequences with nothing left over. A byte
      that can only continue a sequence never starts one, so it cannot come
      first. */
  predicate WellFormed(bs: seq<byte>)
    ensures bs != [] && IsContinuation(bs[0]) ==> !WellFormed(bs)
    decreases |bs|
  {
    bs == [] || (FirstLength(bs) > 0 && WellFormed(bs[FirstLength(bs)..]))
  }

  /** Plain ASCII always decodes. */
  lemma {:induction false} AsciiWellFormed(bs: seq<byte>)
    requires forall i :: 0 <= i < |bs| ==> bs[i] < 0x80
    ensures WellFormed(bs)
    decreases |bs|
  {
    if bs != [] {
      AsciiWellFormed(bs[1..]);
    }
  }
}
