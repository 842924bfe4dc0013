/** The text handling both translators share: the input sanitiser, the
    two-character tokeniser, `bytes_to_decimal` (a left fold over hexadecimal
    digits), `bytearray.fromhex`, and the little-endian reading that the
    callers obtain by reversing a token slice. */
module Hex {
  import opened Common

  type byte = x: nat | x < 256

  function Pow(b: nat, n: nat): (p: nat)
    ensures b > 0 ==> p > 0
  {
    if n == 0 then 1 else b * Pow(b, n - 1)
  }

  /** Powers grow with the exponent. */
  lemma {:induction false} PowMono(b: nat, m: nat, n: nat)
    requires b > 0 && m <= n
    ensures Pow(b, m) <= Pow(b, n)
    decreases n
  {
    if m < n {
      PowMono(b, m, n - 1);
    }
  }

  function Min(a: int, b: int): int {
    if a <= b then a else b
  }

  // ---------------------------------------------------------------------------
  // Sanitising: `.strip().replace(' ', '').upper()`
  // ---------------------------------------------------------------------------

  /** The characters Python's `str.isspace` accepts, which `str.strip()` removes
      from both ends of a string. */
  predicate IsSpace(c: char) {
    || ('\t' <= c <= '\r')
    || ('\U{1C}' <= c <= ' ')
    || c == '\U{85}' || c == '\U{A0}' || c == '\U{1680}'
    || ('\U{2000}' <= c <= '\U{200A}')
    || c == '\U{2028}' || c == '\U{2029}' || c == '\U{202F}' || c == '\U{205F}'
    || c == '\U{3000}'
  }

  predicate IsLower(c: char) {
    'a' <= c <= 'z'
  }

  /** Removes the longest prefix of white space. */
  function TrimStart(s: string): (r: string)
    ensures |r| <= |s| && r == s[|s| - |r|..]
    ensures r == [] || !IsSpace(r[0])
    ensures forall i :: 0 <= i < |s| - |r| ==> IsSpace(s[i])
  {
    if s != [] && IsSpace(s[0]) then TrimStart(s[1..]) else s
  }

  /** Removes the longest suffix of white space. */
  function TrimEnd(s: string): (r: string)
    ensures |r| <= |s| && r == s[..|r|]
    ensures r == [] || !IsSpace(r[|r| - 1])
    ensures forall i :: |r| <= i < |s| ==> IsSpace(s[i])
  {
    if s != [] && IsSpace(s[|s| - 1]) then TrimEnd(s[..|s| - 1]) else s
  }

  /** `str.strip()`: what is left after cutting white space from both ends
      neither starts nor ends with white space. */
  function Strip(s: string): (r: string)
    ensures |r| <= |s|
    ensures r == [] || (!IsSpace(r[0]) && !IsSpace(r[|r| - 1]))
  {
    TrimEnd(TrimStart(s))
  }

  /** What `strip()` keeps is the slice of the input from the first to the
      last character that is not white space: only white space lies outside
      it. */
  lemma StripSlice(s: string)
    ensures var i := |s| - |TrimStart(s)|;
      && i + |Strip(s)| <= |s| && Strip(s) == s[i..i + |Strip(s)|]
      && (forall k :: 0 <= k < i ==> IsSpace(s[k]))
      && (forall k :: i + |Strip(s)| <= k < |s| ==> IsSpace(s[k]))
  {
    var t := TrimStart(s);
    var r := TrimEnd(t);
    assert Strip(s) == r;
    SliceOfSlice(s, t, r, IsSpace);
  }

  /** A prefix `r` of a suffix `t` of `s` is a slice of `s`, and a property
      of every character after `r` in `t` holds of every character after it
      in `s`. */
  lemma SliceOfSlice(s: string, t: string, r: string, p: char -> bool)
    requires |t| <= |s| && t == s[|s| - |t|..] && |r| <= |t| && r == t[..|r|]
    requires forall k :: |r| <= k < |t| ==> p(t[k])
    ensures var i := |s| - |t|;
      && r == s[i..i + |r|]
      && forall k :: i + |r| <= k < |s| ==> p(s[k])
  {
    var i := |s| - |t|;
    assert s[i..][..|r|] == s[i..i + |r|];
    forall k | i + |r| <= k < |s| ensures p(s[k]) {
      assert s[k] == t[k - i];
    }
  }

  /** `str.replace(' ', '')`: drops every space and keeps the other characters
      in order. */
  function RemoveSpaces(s: string): (r: string)
    ensures |r| <= |s|
    ensures forall i :: 0 <= i < |r| ==> r[i] != ' '
    ensures (forall i :: 0 <= i < |s| ==> s[i] != ' ') ==> r == s
    ensures (forall i :: 0 <= i < |s| ==> s[i] == ' ') ==> r == []
    ensures s != [] && s[0] != ' ' ==> r != [] && r[0] == s[0]
    ensures s != [] && s[|s| - 1] != ' ' ==> r != [] && r[|r| - 1] == s[|s| - 1]
  {
    if s == [] then []
    else (if s[0] == ' ' then [] else [s[0]]) + RemoveSpaces(s[1..])
  }

  /** Dropping spaces works piece by piece: with the two cases above (a
      string without spaces is kept, one of spaces only vanishes) this
      determines the result for every string. */
  lemma {:induction false} RemoveSpacesAppend(a: string, b: string)
    ensures RemoveSpaces(a + b) == RemoveSpaces(a) + RemoveSpaces(b)
    decreases |a|
  {
    if a == [] {
      assert a + b == b;
    } else {
      assert (a + b)[1..] == a[1..] + b;
      RemoveSpacesAppend(a[1..], b);
    }
  }

  /** `str.upper()` on ASCII letters. */
  function ToUpper(c: char): (u: char)
    ensures !IsLower(u)
    ensures IsSpace(u) <==> IsSpace(c)
    ensures u == ' ' <==> c == ' '
    ensures !IsLower(c) ==> u == c
    ensures IsLower(c) ==> 'A' <= u <= 'Z' && u as int - 'A' as int == c as int - 'a' as int
  {
    if IsLower(c) then (c as int - 32) as char else c
  }

  function Upper(s: string): (r: string)
    ensures |r| == |s|
    ensures forall i :: 0 <= i < |s| ==> r[i] == ToUpper(s[i])
  {
    seq(|s|, i requires 0 <= i < |s| => ToUpper(s[i]))
  }

  /** The line the operator typed, as both scripts normalise it. */
  function Sanitize(s: string): (r: string)
    ensures |r| <= |s|
    ensures forall i :: 0 <= i < |r| ==> r[i] != ' ' && !IsLower(r[i])
    ensures r == [] || (!IsSpace(r[0]) && !IsSpace(r[|r| - 1]))
  {
    var p := Strip(s);
    var q := RemoveSpaces(p);
    assert p != [] ==> !IsSpace(p[0]) && !IsSpace(p[|p| - 1]);
    assert q != [] ==> p != [];
    Upper(q)
  }

  /** The sanitised line is the upper-cased, space-free form of the slice
      that `strip()` keeps. */
  lemma SanitizeSlice(s: string)
    ensures var i := |s| - |TrimStart(s)|;
      && i + |Strip(s)| <= |s| && Sanitize(s) == Upper(RemoveSpaces(s[i..i + |Strip(s)|]))
      && (forall k :: 0 <= k < i ==> IsSpace(s[k]))
      && (forall k :: i + |Strip(s)| <= k < |s| ==> IsSpace(s[k]))
  {
    StripSlice(s);
  }

  /** A typed line with surrounding white space, inner spaces and lower-case
      digits, taken through the three steps. */
  lemma SanitizeExample()
    ensures Sanitize(" 8a 0b\n") == "8A0B"
  {
    StripExample();
    RemoveSpacesExample();
    UpperExample();
  }

  lemma StripExample()
    ensures Strip(" 8a 0b\n") == "8a 0b"
  {
    TrimStartExample();
    TrimEndExample();
  }

  lemma TrimStartExample()
    ensures TrimStart(" 8a 0b\n") == "8a 0b\n"
  {
    var line := " 8a 0b\n";
    var rest := "8a 0b\n";
    assert line[1..] == rest;
    assert IsSpace(' ') && !IsSpace('8');
  }

  lemma TrimEndExample()
    ensures TrimEnd("8a 0b\n") == "8a 0b"
  {
    var line := "8a 0b\n";
    assert line[..5] == "8a 0b";
    assert IsSpace('\n') && !IsSpace('b');
  }

  lemma RemoveSpacesExample()
    ensures RemoveSpaces("8a 0b") == "8a0b"
  {
  }

  lemma UpperExample()
    ensures Upper("8a0b") == "8A0B"
  {
    var u := Upper("8a0b");
    assert u[0] == ToUpper('8');
    assert u[1] == ToUpper('a');
    assert u[2] == ToUpper('0');
    assert u[3] == ToUpper('b');
  }

  /** A string without spaces, lower-case letters or white space at either end
      is its own sanitised form. */
  lemma SanitizeFixed(s: string)
    requires forall i :: 0 <= i < |s| ==> s[i] != ' ' && !IsLower(s[i])
    requires s == [] || (!IsSpace(s[0]) && !IsSpace(s[|s| - 1]))
    ensures Sanitize(s) == s
  {
    assert TrimStart(s) == s;
    assert TrimEnd(s) == s;
    assert Strip(s) == s;
    assert RemoveSpaces(s) == s;
  }

  /** Sanitising twice is sanitising once. */
  lemma SanitizeIdempotent(s: string)
    ensures Sanitize(Sanitize(s)) == Sanitize(s)
  {
    SanitizeFixed(Sanitize(s));
  }

  // ---------------------------------------------------------------------------
  // Tokenising: `[record[i:i+2] for i in range(0, len(record), 2)]`
  // ---------------------------------------------------------------------------

  /** There are ceil(n/2) tokens; all have two characters except the last one,
      which has a single character when the length is odd. */
  function Tokenize(s: string): (tokens: seq<string>)
    ensures |tokens| == (|s| + 1) / 2
    ensures forall i :: 0 <= i < |tokens| ==>
      |tokens[i]| == (if |s| % 2 == 1 && i == |tokens| - 1 then 1 else 2)
  {
    seq((|s| + 1) / 2, i requires 0 <= i < (|s| + 1) / 2 => s[2 * i .. Min(2 * i + 2, |s|)])
  }

  /** `"".join(tokens)`: joining no tokens gives the empty string and joining
      one token gives that token. */
  function Concat(tokens: seq<string>): (s: string)
    ensures tokens == [] ==> s == []
    ensures |tokens| == 1 ==> s == tokens[0]
  {
    if tokens == [] then [] else tokens[0] + Concat(tokens[1..])
  }

  lemma {:induction false} ConcatAppend(a: seq<string>, b: seq<string>)
    ensures Concat(a + b) == Concat(a) + Concat(b)
  {
    if a != [] {
      assert (a + b)[1..] == a[1..] + b;
      assert (a + b)[0] == a[0];
      ConcatAppend(a[1..], b);
    } else {
      assert a + b == b;
    }
  }

  lemma TokenizeCons(s: string)
    requires |s| >= 2
    ensures Tokenize(s) == [s[..2]] + Tokenize(s[2..])
  {
    var t, u := Tokenize(s), Tokenize(s[2..]);
    assert |t| == |u| + 1;
    forall i | 1 <= i < |t|
      ensures t[i] == u[i - 1]
    {
      assert s[2..][2 * (i - 1) .. Min(2 * (i - 1) + 2, |s| - 2)] == s[2 * i .. Min(2 * i + 2, |s|)];
    }
    assert t == [s[..2]] + u;
  }

  /** Joining the tokens gives back exactly the tokenised string. */
  lemma {:induction false} ConcatTokenize(s: string)
    ensures Concat(Tokenize(s)) == s
    decreases |s|
  {
    if |s| >= 2 {
      TokenizeCons(s);
      ConcatTokenize(s[2..]);
      assert s == s[..2] + s[2..];
    } else if |s| == 1 {
      assert s[0..Min(2, 1)] == s;
      assert Tokenize(s) == [s];
    } else {
      assert Tokenize(s) == [];
    }
  }

  /** Tokenising the join of two-character tokens gives the tokens back. */
  lemma {:induction false} TokenizeConcat(tokens: seq<string>)
    requires forall i :: 0 <= i < |tokens| ==> |tokens[i]| == 2
    ensures Tokenize(Concat(tokens)) == tokens
  {
    if tokens != [] {
      var s := Concat(tokens);
      TokenizeConcat(tokens[1..]);
      assert s == tokens[0] + Concat(tokens[1..]);
      assert s[..2] == tokens[0] && s[2..] == Concat(tokens[1..]);
      TokenizeCons(s);
      assert tokens == [tokens[0]] + tokens[1..];
    } else {
      assert Tokenize([]) == [];
    }
  }

  // ---------------------------------------------------------------------------
  // Hexadecimal digits and `bytes_to_decimal`
  // ---------------------------------------------------------------------------

  predicate IsHexDigit(c: char) {
    ('0' <= c <= '9') || ('A' <= c <= 'F') || ('a' <= c <= 'f')
  }

  function DigitValue(c: char): (d: nat)
    requires IsHexDigit(c)
    ensures d < 16
  {
    if '0' <= c <= '9' then c as int - '0' as int
    else if 'A' <= c <= 'F' then c as int - 'A' as int + 10
    else c as int - 'a' as int + 10
  }

  predicate AllHex(s: string) {
    forall i :: 0 <= i < |s| ==> IsHexDigit(s[i])
  }

  /** The big-endian base-16 value of a digit string, folded from the left:
      each step multiplies by 16 and adds the next digit. */
  function HexValue(s: string): (v: nat)
    requires AllHex(s)
    ensures v < Pow(16, |s|)
    decreases |s|
  {
    if s == [] then 0
    else
      var front := HexValue(s[..|s| - 1]);
      assert front <= Pow(16, |s| - 1) - 1;
      front * 16 + DigitValue(s[|s| - 1])
  }

  lemma AllHexAppend(a: string, b: string)
    ensures AllHex(a + b) <==> AllHex(a) && AllHex(b)
  {
    if AllHex(a + b) {
      assert forall i :: 0 <= i < |a| ==> a[i] == (a + b)[i];
      assert forall i :: 0 <= i < |b| ==> b[i] == (a + b)[|a| + i];
    }
  }

  /** The digits of `b` after those of `a` shift `a` left by |b| digits. */
  lemma {:induction false} HexValueAppend(a: string, b: string)
    requires AllHex(a) && AllHex(b)
    ensures AllHex(a + b)
    ensures HexValue(a + b) == HexValue(a) * Pow(16, |b|) + HexValue(b)
    decreases |b|
  {
    AllHexAppend(a, b);
    if b != [] {
      var b' := b[..|b| - 1];
      assert (a + b)[..|a + b| - 1] == a + b';
      assert (a + b)[|a + b| - 1] == b[|b| - 1];
      HexValueAppend(a, b');
      assert b[..|b| - 1] == b';
      ShiftDigit(HexValue(a), Pow(16, |b'|), HexValue(b'), DigitValue(b[|b| - 1]));
    } else {
      assert a + b == a;
    }
  }

  lemma ShiftDigit(x: nat, p: nat, y: nat, d: nat)
    ensures (x * p + y) * 16 + d == x * (16 * p) + (y * 16 + d)
  {
  }

  /** A digit string is worth zero exactly when every digit is `0`. */
  lemma {:induction false} HexValueZero(s: string)
    requires AllHex(s)
    ensures HexValue(s) == 0 <==> forall i :: 0 <= i < |s| ==> s[i] == '0'
    decreases |s|
  {
    if s != [] {
      var front := s[..|s| - 1];
      HexValueZero(front);
      if forall i :: 0 <= i < |s| ==> s[i] == '0' {
        assert forall i :: 0 <= i < |front| ==> front[i] == s[i];
      } else if HexValue(s) == 0 {
        assert HexValue(front) == 0 && DigitValue(s[|s| - 1]) == 0;
        assert forall i :: 0 <= i < |front| ==> s[i] == front[i];
        assert false;
      }
    }
  }

  /** Leading `0` digits (a leading `00` byte) do not change the value. */
  lemma LeadingZeros(z: string, s: string)
    requires forall i :: 0 <= i < |z| ==> z[i] == '0'
    requires AllHex(s)
    ensures AllHex(z + s) && HexValue(z + s) == HexValue(s)
  {
    assert AllHex(z);
    HexValueZero(z);
    HexValueAppend(z, s);
  }

  /** `bytes_to_decimal(tokens)`, that is `int('0x' + ''.join(tokens), 16)`:
      the integer the joined digits spell, or `ValueError` when the join is
      empty or holds a character that is not a hexadecimal digit. */
  function BytesToDecimal(tokens: seq<string>): (r: Result<nat>)
    ensures r.Ok? <==> Concat(tokens) != [] && AllHex(Concat(tokens))
    ensures r.Ok? ==> r.value < Pow(16, |Concat(tokens)|)
  {
    var digits := Concat(tokens);
    if digits != [] && AllHex(digits) then Ok(HexValue(digits)) else Err(FormatError)
  }

  // ---------------------------------------------------------------------------
  // Byte tokens and little-endian values
  // ---------------------------------------------------------------------------

  predicate IsByteToken(t: string) {
    |t| == 2 && IsHexDigit(t[0]) && IsHexDigit(t[1])
  }

  predicate AllByteTokens(tokens: seq<string>) {
    forall i :: 0 <= i < |tokens| ==> IsByteToken(tokens[i])
  }

  /** The byte a two-digit token stands for: its hexadecimal value. */
  function TokenValue(t: string): (b: byte)
    requires IsByteToken(t)
    ensures AllHex(t) && b == HexValue(t)
  {
    assert t[..1][..0] == [];
    assert t[..|t| - 1] == t[..1];
    DigitValue(t[0]) * 16 + DigitValue(t[1])
  }

  function TokenBytes(tokens: seq<string>): (bs: seq<byte>)
    requires AllByteTokens(tokens)
    ensures |bs| == |tokens|
    ensures forall i :: 0 <= i < |tokens| ==> bs[i] == TokenValue(tokens[i])
  {
    seq(|tokens|, i requires 0 <= i < |tokens| => TokenValue(tokens[i]))
  }

  /** `list(reversed(s))` */
  function Reverse<T>(s: seq<T>): (r: seq<T>)
    ensures |r| == |s|
    ensures forall i :: 0 <= i < |s| ==> r[i] == s[|s| - 1 - i]
  {
    if s == [] then [] else Reverse(s[1..]) + [s[0]]
  }

  /** The unsigned integer whose least significant byte comes first. */
  function LittleEndian(bs: seq<byte>): (v: nat)
    ensures v < Pow(256, |bs|)
  {
    if bs == [] then 0 else bs[0] + 256 * LittleEndian(bs[1..])
  }

  /** Reversing byte tokens and reading the join in base 16 is reading the
      bytes little-endian, which is what every caller of `bytes_to_decimal`
      relies on. */
  lemma {:induction false} ReversedTokensLittleEndian(tokens: seq<string>)
    requires AllByteTokens(tokens)
    ensures AllHex(Concat(Reverse(tokens)))
    ensures HexValue(Concat(Reverse(tokens))) == LittleEndian(TokenBytes(tokens))
  {
    if tokens == [] {
      assert Reverse(tokens) == [];
    } else {
      var t := tokens[0];
      var rest := tokens[1..];
      var c := Concat(Reverse(rest));
      ReversedTokensLittleEndian(rest);
      ConcatReverseCons(tokens);
      assert AllHex(t) && HexValue(t) == TokenValue(t) && |t| == 2;
      var high := LittleEndian(TokenBytes(rest));
      assert HexValue(c + t) == high * 256 + TokenValue(t) by {
        HexValueAppend(c, t);
        assert Pow(16, 2) == 256;
      }
      assert LittleEndian(TokenBytes(tokens)) == TokenValue(t) + 256 * high by {
        assert TokenBytes(tokens)[0] == TokenValue(t);
        assert TokenBytes(tokens)[1..] == TokenBytes(rest);
      }
    }
  }

  /** Reversing puts the first token last in the join. */
  lemma ConcatReverseCons(tokens: seq<string>)
    requires tokens != []
    ensures Concat(Reverse(tokens)) == Concat(Reverse(tokens[1..])) + tokens[0]
  {
    assert Reverse(tokens) == Reverse(tokens[1..]) + [tokens[0]];
    ConcatAppend(Reverse(tokens[1..]), [tokens[0]]);
    assert Concat([tokens[0]]) == tokens[0];
  }

  /** `bytes_to_decimal(list(reversed(tokens)))` for byte tokens succeeds with
      the little-endian value of the bytes. */
  lemma LittleEndianField(tokens: seq<string>)
    requires AllByteTokens(tokens) && tokens != []
    ensures BytesToDecimal(Reverse(tokens)) == Ok(LittleEndian(TokenBytes(tokens)))
  {
    ReversedTokensLittleEndian(tokens);
  }

  /** The numeric value of the byte token at `i`. */
  function ByteAt(record: seq<string>, i: nat): nat
    requires i < |record| && IsByteToken(record[i])
  {
    TokenValue(record[i])
  }

  lemma LittleEndian2(tokens: seq<string>)
    requires |tokens| == 2 && AllByteTokens(tokens)
    ensures LittleEndian(TokenBytes(tokens)) == ByteAt(tokens, 0) + 256 * ByteAt(tokens, 1)
  {
    var b := TokenBytes(tokens);
    assert b[1..][1..] == [];
    assert LittleEndian(b[1..]) == b[1] as nat;
  }

  lemma LittleEndian3(tokens: seq<string>)
    requires |tokens| == 3 && AllByteTokens(tokens)
    ensures LittleEndian(TokenBytes(tokens))
      == ByteAt(tokens, 0) + 256 * ByteAt(tokens, 1) + 65536 * ByteAt(tokens, 2)
  {
    var b := TokenBytes(tokens);
    assert b[1..][1..] == b[2..];
    assert b[2..][1..] == [];
    assert LittleEndian(b[2..]) == b[2] as nat;
    assert LittleEndian(b[1..]) == b[1] as nat + 256 * (b[2] as nat);
  }

  lemma LittleEndian4(tokens: seq<string>)
    requires |tokens| == 4 && AllByteTokens(tokens)
    ensures LittleEndian(TokenBytes(tokens))
      == ByteAt(tokens, 0) + 256 * ByteAt(tokens, 1) + 65536 * ByteAt(tokens, 2)
         + 16777216 * ByteAt(tokens, 3)
  {
    var b := TokenBytes(tokens);
    assert b[1..][1..] == b[2..];
    assert b[2..][1..] == b[3..];
    assert b[3..][1..] == [];
    assert LittleEndian(b[3..]) == b[3] as nat;
    assert LittleEndian(b[2..]) == b[2] as nat + 256 * (b[3] as nat);
    assert LittleEndian(b[1..]) == b[1] as nat + 256 * (b[2] as nat) + 65536 * (b[3] as nat);
  }

  /** `bytes_to_decimal` of a reversed 2-token slice is the little-endian
      16-bit value of its bytes. */
  lemma FieldValue2(tokens: seq<string>)
    requires |tokens| == 2 && AllByteTokens(tokens)
    ensures BytesToDecimal(Reverse(tokens)).Ok?
    ensures BytesToDecimal(Reverse(tokens)).value == ByteAt(tokens, 0) + 256 * ByteAt(tokens, 1)
  {
    LittleEndianField(tokens);
    LittleEndian2(tokens);
  }

  /** `bytes_to_decimal` of a reversed 3-token slice is the little-endian
      value of its bytes. */
  lemma FieldValue3(tokens: seq<string>)
    requires |tokens| == 3 && AllByteTokens(tokens)
    ensures BytesToDecimal(Reverse(tokens)).Ok?
    ensures BytesToDecimal(Reverse(tokens)).value
      == ByteAt(tokens, 0) + 256 * ByteAt(tokens, 1) + 65536 * ByteAt(tokens, 2)
  {
    LittleEndianField(tokens);
    LittleEndian3(tokens);
  }

  /** `bytes_to_decimal` of a reversed 4-token slice is the little-endian
      value of its bytes. */
  lemma FieldValue4(tokens: seq<string>)
    requires |tokens| == 4 && AllByteTokens(tokens)
    ensures BytesToDecimal(Reverse(tokens)).Ok?
    ensures BytesToDecimal(Reverse(tokens)).value
      == ByteAt(tokens, 0) + 256 * ByteAt(tokens, 1) + 65536 * ByteAt(tokens, 2)
         + 16777216 * ByteAt(tokens, 3)
  {
    LittleEndianField(tokens);
    LittleEndian4(tokens);
  }

  lemma {:induction false} ConcatLength(tokens: seq<string>)
    requires forall i :: 0 <= i < |tokens| ==> |tokens[i]| == 2
    ensures |Concat(tokens)| == 2 * |tokens|
  {
    if tokens != [] {
      ConcatLength(tokens[1..]);
    }
  }

  // ---------------------------------------------------------------------------
  // Writing bytes as tokens (the inverse direction, used by round-trip lemmas)
  // ---------------------------------------------------------------------------

  function HexDigit(d: nat): (c: char)
    requires d < 16
    ensures IsHexDigit(c) && DigitValue(c) == d
    ensures c != ' ' && !IsLower(c) && !IsSpace(c)
  {
    if d < 10 then ('0' as int + d) as char else ('A' as int + d - 10) as char
  }

  /** A string, token or whole line, made only of characters that sanitising
      leaves alone. */
  predicate IsClean(s: string) {
    forall j :: 0 <= j < |s| ==> s[j] != ' ' && !IsLower(s[j]) && !IsSpace(s[j])
  }

  predicate AllCleanByteTokens(tokens: seq<string>) {
    forall i :: 0 <= i < |tokens| ==> IsByteToken(tokens[i]) && IsClean(tokens[i])
  }

  lemma CleanAppend(a: seq<string>, b: seq<string>)
    requires AllCleanByteTokens(a) && AllCleanByteTokens(b)
    ensures AllCleanByteTokens(a + b)
  {
    assert forall i :: |a| <= i < |a + b| ==> (a + b)[i] == b[i - |a|];
  }

  /** Joining clean tokens gives a clean string. */
  lemma {:induction false} CleanConcat(tokens: seq<string>)
    requires AllCleanByteTokens(tokens)
    ensures IsClean(Concat(tokens))
  {
    if tokens != [] {
      CleanConcat(tokens[1..]);
      var s := Concat(tokens);
      assert s == tokens[0] + Concat(tokens[1..]);
    }
  }

  /** A clean string is its own sanitised form. */
  lemma CleanSanitized(s: string)
    requires IsClean(s)
    ensures Sanitize(s) == s
  {
    SanitizeFixed(s);
  }

  /** The upper-case two-digit token of a byte. */
  function ByteToken(b: byte): (t: string)
    ensures IsByteToken(t) && IsClean(t) && TokenValue(t) == b
  {
    [HexDigit(b / 16), HexDigit(b % 16)]
  }

  /** The `n` byte tokens of `v`, least significant first. */
  function EncodeLittleEndian(v: nat, n: nat): (tokens: seq<string>)
    requires v < Pow(256, n)
    ensures |tokens| == n && AllByteTokens(tokens)
    ensures AllCleanByteTokens(tokens)
    decreases n
  {
    if n == 0 then []
    else
      assert v / 256 < Pow(256, n - 1);
      var rest := EncodeLittleEndian(v / 256, n - 1);
      CleanAppend([ByteToken(v % 256)], rest);
      [ByteToken(v % 256)] + rest
  }

  /** Reading the tokens back little-endian gives `v`. */
  lemma {:induction false} EncodeLittleEndianValue(v: nat, n: nat)
    requires v < Pow(256, n)
    ensures LittleEndian(TokenBytes(EncodeLittleEndian(v, n))) == v
    decreases n
  {
    if n > 0 {
      assert v / 256 < Pow(256, n - 1);
      var rest := EncodeLittleEndian(v / 256, n - 1);
      var tokens := EncodeLittleEndian(v, n);
      assert tokens == [ByteToken(v % 256)] + rest;
      EncodeLittleEndianValue(v / 256, n - 1);
      assert TokenBytes(tokens)[0] == v % 256;
      assert TokenBytes(tokens)[1..] == TokenBytes(rest);
    }
  }

  /** `bytes_to_decimal(list(reversed(tokens)))` reads back the value the
      little-endian tokens were written from. */
  lemma LittleEndianRoundTrip(v: nat, n: nat)
    requires 0 < n && v < Pow(256, n)
    ensures BytesToDecimal(Reverse(EncodeLittleEndian(v, n))) == Ok(v)
  {
    LittleEndianField(EncodeLittleEndian(v, n));
    EncodeLittleEndianValue(v, n);
  }

  // ---------------------------------------------------------------------------
  // `bytearray.fromhex`
  // ---------------------------------------------------------------------------

  /** The white space `bytearray.fromhex` skips before each pair of digits. */
  predicate IsAsciiSpace(c: char) {
    c == ' ' || ('\t' <= c <= '\r')
  }

  /** `bytearray.fromhex(s)`: the bytes spelt by consecutive pairs of
      hexadecimal digits, ASCII white space being skipped between pairs; a
      `ValueError` on any other character or on a digit without a partner. */
  function FromHex(s: string): (r: Result<seq<byte>>)
    ensures r.Ok? ==> 2 * |r.value| <= |s|
    ensures r.Err? ==> r.error == FormatError
    decreases |s|
  {
    if s == [] then Ok([])
    else if IsAsciiSpace(s[0]) then FromHex(s[1..])
    else if |s| >= 2 && IsHexDigit(s[0]) && IsHexDigit(s[1]) then
      var rest :- FromHex(s[2..]);
      Ok([TokenValue(s[..2])] + rest)
    else Err(FormatError)
  }

  /** The join of byte tokens converts to exactly their bytes. */
  lemma {:induction false} FromHexTokens(tokens: seq<string>)
    requires AllByteTokens(tokens)
    ensures FromHex(Concat(tokens)) == Ok(TokenBytes(tokens))
  {
    if tokens != [] {
      var s := Concat(tokens);
      assert s == tokens[0] + Concat(tokens[1..]);
      assert s[..2] == tokens[0] && s[2..] == Concat(tokens[1..]);
      FromHexTokens(tokens[1..]);
      assert TokenBytes(tokens) == [TokenValue(tokens[0])] + TokenBytes(tokens[1..]);
    }
  }

  /** An odd number of hexadecimal digits (nothing else) is refused: the last
      digit has no partner. */
  lemma {:induction false} FromHexOdd(s: string)
    requires AllHex(s) && |s| % 2 == 1
    ensures FromHex(s) == Err(FormatError)
    decreases |s|
  {
    if |s| >= 2 {
      assert AllHex(s[2..]);
      FromHexOdd(s[2..]);
    }
  }
}
