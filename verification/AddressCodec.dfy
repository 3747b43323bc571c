/**
 Addresses (core/types.go): "F" followed by the 36 base-36 digits of a 20-byte payload and its
 3-byte checksum. SHA3-256 is an arbitrary function from byte strings to 32 bytes.
 */
module AddressCodec {
  import opened Bytes
  import opened Numerals

  const PREFIX: char := 'F'
  const ADDRESS_LENGTH: nat := 37
  const ADDRESS_BYTES: nat := 20
  const CHECKSUM_BYTES: nat := 3

  predicate IsBase36Char(c: char) {
    '0' <= c <= '9' || 'a' <= c <= 'z'
  }

  function DigitChar(d: nat): (c: char)
    requires d < 36
    ensures IsBase36Char(c) && CharDigit(c) == d
  {
    if d < 10 then '0' + d as char else 'a' + (d - 10) as char
  }

  function CharDigit(c: char): (d: nat)
    requires IsBase36Char(c)
    ensures d < 36
  {
    if '0' <= c <= '9' then (c - '0') as nat else (c - 'a') as nat + 10
  }

  const ALPHABET: string := "0123456789abcdefghijklmnopqrstuvwxyz"

  /** The digits are the letters of the alphabet in order. */
  lemma AlphabetOrder(d: nat)
    requires d < 36
    ensures DigitChar(d) == ALPHABET[d]
  {
  }

  lemma CharRoundTrip(c: char)
    requires IsBase36Char(c)
    ensures DigitChar(CharDigit(c)) == c
  {
  }

  ghost predicate IsBase36(s: string) {
    forall i :: 0 <= i < |s| ==> IsBase36Char(s[i])
  }

  ghost function Chars(ds: seq<nat>): (s: string)
    requires Digits(ds, 36)
    ensures |s| == |ds| && IsBase36(s)
  {
    seq(|ds|, i requires 0 <= i < |ds| => DigitChar(ds[i]))
  }

  ghost function DigitsOf(s: string): (ds: seq<nat>)
    requires IsBase36(s)
    ensures |ds| == |s| && Digits(ds, 36)
  {
    seq(|s|, i requires 0 <= i < |s| => CharDigit(s[i]))
  }

  lemma CharsDigits(s: string)
    requires IsBase36(s)
    ensures Chars(DigitsOf(s)) == s
  {
    forall i | 0 <= i < |s| ensures Chars(DigitsOf(s))[i] == s[i] {
      CharRoundTrip(s[i]);
    }
  }

  lemma DigitsChars(ds: seq<nat>)
    requires Digits(ds, 36)
    ensures DigitsOf(Chars(ds)) == ds
  {
  }

  /** 256^23 <= 36^36: every 23-byte string fits in 36 base-36 digits. */
  lemma BytesFit()
    ensures Pow(256, 23) <= Pow(36, 36)
  {
    assert Pow(256, 4) == 0x1_0000_0000;
    PowSplit(256, 4, 4);
    assert Pow(256, 8) == 0x1_0000_0000_0000_0000;
    PowSplit(256, 8, 8);
    assert Pow(256, 3) == 0x100_0000;
    PowSplit(256, 16, 4);
    PowSplit(256, 20, 3);
    assert Pow(36, 3) == 46656;
    PowSplit(36, 3, 3);
    PowSplit(36, 6, 6);
    PowSplit(36, 12, 12);
    PowSplit(36, 24, 12);
  }

  /** The payload followed by the first three bytes of its hash. */
  ghost function Checked(sha: Hasher, payload: seq<byte>): (data: seq<byte>)
    ensures |data| == |payload| + CHECKSUM_BYTES
  {
    payload + sha(payload)[..CHECKSUM_BYTES]
  }

  /** The address of a payload: the fixed-width base-36 numeral of the checked payload. */
  ghost function Address(sha: Hasher, payload: seq<byte>): (s: string)
    ensures |s| == ADDRESS_LENGTH
  {
    [PREFIX] + Chars(Fixed(Value(Checked(sha, payload), 256), 36, 36))
  }

  /** base36Encode: the loop prepends one digit per division. */
  method Base36Encode(data: seq<byte>) returns (s: string)
    ensures var n := Value(data, 256); s == if n == 0 then "0" else Chars(Minimal(n, 36))
  {
    hide Minimal, Chars, DigitChar;
    EmptyNumeral();
    var num := BigEndian(data);
    if num == 0 {
      return "0";
    }
    s := "";
    ghost var n: nat, low: seq<nat> := num, [];
    while num > 0
      invariant num >= 0 && Digits(low, 36) && s == Chars(low) && Minimal(n, 36) == Minimal(num, 36) + low
      decreases num
    {
      PushLow(n, num, low, s);
      low := [num % 36] + low;
      s := [DigitChar(num % 36)] + s;
      num := num / 36;
    }
    assert [] + low == low;
  }

  lemma EmptyNumeral()
    ensures Minimal(0, 36) == [] && Chars([]) == ""
  {
  }

  lemma PushChar(d: nat, low: seq<nat>)
    requires d < 36 && Digits(low, 36)
    ensures Digits([d] + low, 36) && [DigitChar(d)] + Chars(low) == Chars([d] + low)
  {
  }

  lemma PushHigh(num: nat, low: seq<nat>)
    requires num > 0
    ensures Minimal(num, 36) + low == Minimal(num / 36, 36) + ([num % 36] + low)
  {
    hide Minimal;
    MinimalStep(num, 36);
    var high, d := Minimal(num / 36, 36), num % 36;
    assert high + [d] + low == high + ([d] + low);
  }

  lemma PushLow(n: nat, num: nat, low: seq<nat>, s: string)
    requires num > 0 && Digits(low, 36) && s == Chars(low) && Minimal(n, 36) == Minimal(num, 36) + low
    ensures num / 36 < num && Digits([num % 36] + low, 36)
    ensures [DigitChar(num % 36)] + s == Chars([num % 36] + low)
    ensures Minimal(n, 36) == Minimal(num / 36, 36) + ([num % 36] + low)
  {
    hide Minimal, Digits, Chars, DigitChar;
    DivLess(num, 36);
    PushChar(num % 36, low);
    PushHigh(num, low);
  }

  /** big.Int.SetBytes. */
  method BigEndian(data: seq<byte>) returns (n: nat)
    ensures n == Value(data, 256)
  {
    n := 0;
    for i := 0 to |data|
      invariant n == Value(data[..i], 256)
    {
      ValuePush(data[..i], data[i], 256);
      assert data[..i] + [data[i]] == data[..i + 1];
      n := n * 256 + data[i];
    }
    assert data[..|data|] == data;
  }

  /** Left padding with "0" up to the fixed length. */
  method Pad(s: string) returns (r: string)
    requires IsBase36(s) && 0 < |s| <= ADDRESS_LENGTH - 1
    ensures IsBase36(r) && DigitsOf(r) == Zeros(ADDRESS_LENGTH - 1 - |s|) + DigitsOf(s)
  {
    hide IsBase36Char, CharDigit;
    r := s;
    while |r| < ADDRESS_LENGTH - 1
      invariant |s| <= |r| <= ADDRESS_LENGTH - 1 && IsBase36(r)
      invariant DigitsOf(r) == Zeros(|r| - |s|) + DigitsOf(s)
    {
      PadDigit(r, |r| - |s|);
      assert [0] + (Zeros(|r| - |s|) + DigitsOf(s)) == [0] + Zeros(|r| - |s|) + DigitsOf(s);
      r := "0" + r;
    }
  }

  lemma PadDigit(r: string, k: nat)
    requires IsBase36(r)
    ensures IsBase36("0" + r) && DigitsOf("0" + r) == [0] + DigitsOf(r)
    ensures [0] + Zeros(k) == Zeros(k + 1)
  {
  }

  /** DeriveAddress and AddressFromPublicKey. */
  method DeriveAddress(sha: Hasher, publicKey: seq<byte>) returns (addr: string)
    ensures addr == Address(sha, sha(publicKey)[..ADDRESS_BYTES])
  {
    var payload := sha(publicKey)[..ADDRESS_BYTES];
    var fullData := payload + sha(payload)[..CHECKSUM_BYTES];
    ghost var n := Value(fullData, 256);
    NumeralFits(fullData);
    var s := Base36Encode(fullData);
    PaddedMinimal(n, 36, 36);
    var padded := Pad(s);
    PaddedDigits(n, s);
    CharsDigits(padded);
    addr := [PREFIX] + padded;
  }

  lemma NumeralFits(data: seq<byte>)
    requires |data| == ADDRESS_BYTES + CHECKSUM_BYTES
    ensures Value(data, 256) < Pow(36, 36)
  {
    BytesFit();
    ValueBound(data, 256);
  }

  lemma ZeroText()
    ensures IsBase36("0") && DigitsOf("0") == [0]
  {
  }

  /** The padded text of `n` has the fixed-width digits of `n`, also for 0. */
  lemma PaddedDigits(n: nat, s: string)
    requires n < Pow(36, 36) && s == (if n == 0 then "0" else Chars(Minimal(n, 36))) && |s| <= 36
    ensures IsBase36(s) && Zeros(36 - |s|) + DigitsOf(s) == Fixed(n, 36, 36)
  {
    hide IsBase36Char, Minimal, Pow, DigitChar;
    if n == 0 {
      FixedZero(36, 36);
      ZeroText();
    } else {
      PaddedMinimal(n, 36, 36);
      DigitsChars(Minimal(n, 36));
    }
  }

  /** base36Decode: nothing for text outside the alphabet, else at least 23 bytes. */
  method Base36Decode(s: string) returns (data: seq<byte>)
    ensures !IsBase36(s) ==> data == []
    ensures IsBase36(s) ==> data == BytesOf(Value(DigitsOf(s), 36))
  {
    hide Value, DigitsOf, Minimal, IsBase36;
    var ok, num := ParseBase36(s);
    if !ok {
      return [];
    }
    var bytes := MinimalBytes(num);
    data := Zeros(if |bytes| < 23 then 23 - |bytes| else 0) + bytes;
  }

  /** The digit loop of base36Decode. */
  method ParseBase36(s: string) returns (ok: bool, num: nat)
    ensures ok <==> IsBase36(s)
    ensures ok ==> num == Value(DigitsOf(s), 36)
  {
    num := 0;
    for i := 0 to |s|
      invariant IsBase36(s[..i]) && num == Value(DigitsOf(s[..i]), 36)
    {
      if !IsBase36Char(s[i]) {
        return false, 0;
      }
      PushDigit(s, i);
      num := num * 36 + CharDigit(s[i]);
    }
    assert s[..|s|] == s;
    ok := true;
  }

  lemma PushDigit(s: string, i: nat)
    requires i < |s| && IsBase36(s[..i]) && IsBase36Char(s[i])
    ensures IsBase36(s[..i + 1])
    ensures Value(DigitsOf(s[..i + 1]), 36) == Value(DigitsOf(s[..i]), 36) * 36 + CharDigit(s[i])
  {
    ValuePush(DigitsOf(s[..i]), CharDigit(s[i]), 36);
    assert DigitsOf(s[..i]) + [CharDigit(s[i])] == DigitsOf(s[..i + 1]);
  }

  /** big.Int.Bytes. */
  method MinimalBytes(n: nat) returns (bytes: seq<byte>)
    ensures bytes == Minimal(n, 256)
  {
    bytes := [];
    var num := n;
    while num > 0
      invariant num >= 0 && Minimal(n, 256) == Minimal(num, 256) + bytes
      decreases num
    {
      DivLess(num, 256);
      bytes := [num % 256] + bytes;
      num := num / 256;
    }
  }

  /** The minimal bytes of a number, padded to at least 23. */
  ghost function BytesOf(n: nat): seq<nat> {
    var bytes := Minimal(n, 256);
    Zeros(if |bytes| < 23 then 23 - |bytes| else 0) + bytes
  }

  lemma BytesOfFixed(n: nat)
    ensures |BytesOf(n)| == 23 <==> n < Pow(256, 23)
    ensures n < Pow(256, 23) ==> BytesOf(n) == Fixed(n, 256, 23)
  {
    if n < Pow(256, 23) {
      PaddedMinimal(n, 256, 23);
    } else {
      MinimalTooLong(n, 256, 23);
    }
  }

  /** The text is the address of some 20-byte payload. */
  ghost predicate IsAddress(sha: Hasher, addr: string) {
    exists payload: seq<byte> :: |payload| == ADDRESS_BYTES && addr == Address(sha, payload)
  }

  /**
   ValidateAddress accepts exactly the addresses of 20-byte payloads.
   */
  method ValidateAddress(sha: Hasher, addr: string) returns (ok: bool)
    ensures ok <==> IsAddress(sha, addr)
  {
    if |addr| != ADDRESS_LENGTH || addr[0] != PREFIX {
      return false;
    }
    var data := Base36Decode(addr[1..]);
    if |data| != ADDRESS_BYTES + CHECKSUM_BYTES {
      RefusedLength(sha, addr);
      return false;
    }
    BytesOfFixed(Value(DigitsOf(addr[1..]), 36));
    DecodedIff(sha, addr, data);
    ok := BytesEqual(data[ADDRESS_BYTES..], sha(data[..ADDRESS_BYTES])[..CHECKSUM_BYTES]);
  }

  /** The byte-by-byte checksum comparison. */
  method BytesEqual(a: seq<byte>, b: seq<byte>) returns (ok: bool)
    requires |a| == |b|
    ensures ok <==> a == b
  {
    for i := 0 to |a|
      invariant a[..i] == b[..i]
    {
      if a[i] != b[i] {
        return false;
      }
    }
    assert a[..|a|] == a && b[..|b|] == b;
    ok := true;
  }

  /** What the digits of an address decode to. */
  lemma AddressDecodes(sha: Hasher, payload: seq<byte>)
    requires |payload| == ADDRESS_BYTES
    ensures
      var text := Address(sha, payload)[1..];
      IsBase36(text) && BytesOf(Value(DigitsOf(text), 36)) == Checked(sha, payload)
  {
    var data := Checked(sha, payload);
    var n := Value(data, 256);
    NumeralFits(data);
    ValueOfFixed(n, 36, 36);
    DigitsChars(Fixed(n, 36, 36));
    assert Address(sha, payload)[1..] == Chars(Fixed(n, 36, 36));
    ValueBound(data, 256);
    BytesOfFixed(n);
    FixedOfValue(data, 256);
  }

  lemma RefusedLength(sha: Hasher, addr: string)
    requires |addr| == ADDRESS_LENGTH
    requires IsBase36(addr[1..]) ==> |BytesOf(Value(DigitsOf(addr[1..]), 36))| != 23
    ensures !IsAddress(sha, addr)
  {
    forall payload: seq<byte> | |payload| == ADDRESS_BYTES && addr == Address(sha, payload) ensures false {
      AddressDecodes(sha, payload);
    }
  }

  lemma DecodedIff(sha: Hasher, addr: string, data: seq<byte>)
    requires |addr| == ADDRESS_LENGTH && addr[0] == PREFIX && IsBase36(addr[1..])
    requires data == BytesOf(Value(DigitsOf(addr[1..]), 36)) && |data| == 23
    ensures IsAddress(sha, addr) <==> data[ADDRESS_BYTES..] == sha(data[..ADDRESS_BYTES])[..CHECKSUM_BYTES]
  {
    var payload, text := data[..ADDRESS_BYTES], addr[1..];
    if data[ADDRESS_BYTES..] == sha(payload)[..CHECKSUM_BYTES] {
      assert data == Checked(sha, payload);
      EncodesBack(addr, data);
      assert addr == Address(sha, payload);
    }
    forall p: seq<byte> | |p| == ADDRESS_BYTES && addr == Address(sha, p)
      ensures data == Checked(sha, p)
    {
      AddressDecodes(sha, p);
    }
  }

  lemma EncodesBack(addr: string, data: seq<byte>)
    requires |addr| == ADDRESS_LENGTH && addr[0] == PREFIX && IsBase36(addr[1..])
    requires data == BytesOf(Value(DigitsOf(addr[1..]), 36)) && |data| == 23
    ensures addr == [PREFIX] + Chars(Fixed(Value(data, 256), 36, 36))
  {
    hide Value, Fixed, Chars, DigitsOf;
    var text := addr[1..];
    var n := Value(DigitsOf(text), 36);
    BytesOfFixed(n);
    ValueOfFixed(n, 256, 23);
    FixedOfValue(DigitsOf(text), 36);
    CharsDigits(text);
  }

  /** An address has 37 characters, begins with F, and spells the 20 bytes and then 3 bytes of their hash. */
  lemma AddressSpells(sha: Hasher, payload: seq<byte>)
    requires |payload| == 20
    ensures
      var a := Address(sha, payload);
      && |a| == 37 && a[0] == 'F' && IsBase36(a[1..])
      && Value(DigitsOf(a[1..]), 36) == Value(payload + sha(payload)[..3], 256)
  {
    hide Value, Fixed, Chars, DigitsOf, Pow, IsBase36Char;
    var data := Checked(sha, payload);
    NumeralFits(data);
    ValueOfFixed(Value(data, 256), 36, 36);
    DigitsChars(Fixed(Value(data, 256), 36, 36));
    assert Address(sha, payload)[1..] == Chars(Fixed(Value(data, 256), 36, 36));
  }

  /** Different payloads have different addresses, so the accepted payload is unique. */
  lemma AddressInjective(sha: Hasher, p: seq<byte>, q: seq<byte>)
    requires |p| == |q| == ADDRESS_BYTES && Address(sha, p) == Address(sha, q)
    ensures p == q
  {
    AddressDecodes(sha, p);
    AddressDecodes(sha, q);
    assert Checked(sha, p)[..ADDRESS_BYTES] == p && Checked(sha, q)[..ADDRESS_BYTES] == q;
  }
}
