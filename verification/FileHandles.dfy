// File names of the file backend: the lowercase hexadecimal digest of the key
// (internal/store/file.go, encoding as in section 8 of RFC 4648), and the scan that
// tells them from other names in the directory.
module FileHandles {
  import opened Pastes

  const HANDLE_LENGTH := 64
  const DIGEST_LENGTH := 32

  predicate HexChar(c: char) {
    '0' <= c <= '9' || 'a' <= c <= 'f'
  }

  predicate IsHexHandle(name: string) {
    |name| == HANDLE_LENGTH && forall i :: 0 <= i < |name| ==> HexChar(name[i])
  }

  // isHexHandle
  method CheckHandle(name: string) returns (ok: bool)
    ensures ok <==> IsHexHandle(name)
    ensures ok <==> |name| == 64 && forall i :: 0 <= i < 64 ==> '0' <= name[i] <= '9' || 'a' <= name[i] <= 'f'
  {
    if |name| != HANDLE_LENGTH {
      return false;
    }
    for i := 0 to |name|
      invariant forall k :: 0 <= k < i ==> HexChar(name[k])
    {
      var c := name[i];
      if !((c >= '0' && c <= '9') || (c >= 'a' && c <= 'f')) {
        return false;
      }
    }
    return true;
  }

  function Digit(d: int): char
    requires 0 <= d < 16
  {
    if d < 10 then '0' + d as char else 'a' + (d - 10) as char
  }

  function DigitValue(c: char): (d: int)
    requires HexChar(c)
    ensures 0 <= d < 16
  {
    if c <= '9' then c as int - '0' as int else c as int - 'a' as int + 10
  }

  // hex.EncodeToString
  function HexEncode(sum: seq<byte>): (s: string)
    ensures |s| == 2 * |sum|
  {
    if sum == [] then ""
    else [Digit(sum[0] as int / 16), Digit(sum[0] as int % 16)] + HexEncode(sum[1..])
  }

  function HexDecode(s: string): (sum: seq<byte>)
    requires |s| % 2 == 0 && forall i :: 0 <= i < |s| ==> HexChar(s[i])
    ensures 2 * |sum| == |s|
  {
    if s == "" then []
    else [(16 * DigitValue(s[0]) + DigitValue(s[1])) as byte] + HexDecode(s[2..])
  }

  // Byte k is the digits 2k, of its upper half, and 2k + 1, of its lower half.
  lemma {:induction false} EncodedDigits(sum: seq<byte>, k: nat)
    requires k < |sum|
    ensures HexEncode(sum)[2 * k] == "0123456789abcdef"[sum[k] as int / 16]
    ensures HexEncode(sum)[2 * k + 1] == "0123456789abcdef"[sum[k] as int % 16]
    decreases k
  {
    if k == 0 {
      DigitsInOrder(sum[0] as int / 16);
      DigitsInOrder(sum[0] as int % 16);
    } else {
      EncodedDigits(sum[1..], k - 1);
      assert HexEncode(sum)[2..] == HexEncode(sum[1..]);
      assert HexEncode(sum)[2 * k] == HexEncode(sum)[2..][2 * (k - 1)];
      assert HexEncode(sum)[2 * k + 1] == HexEncode(sum)[2..][2 * (k - 1) + 1];
    }
  }

  lemma DigitsInOrder(d: int)
    requires 0 <= d < 16
    ensures Digit(d) == "0123456789abcdef"[d]
  {
  }

  lemma {:induction false} EncodeIsHex(sum: seq<byte>)
    ensures forall i :: 0 <= i < |HexEncode(sum)| ==> HexChar(HexEncode(sum)[i])
  {
    if sum != [] {
      EncodeIsHex(sum[1..]);
      var s, rest := HexEncode(sum), HexEncode(sum[1..]);
      assert forall i :: 2 <= i < |s| ==> s[i] == rest[i - 2];
    }
  }

  lemma {:induction false} DecodeEncode(sum: seq<byte>)
    ensures forall i :: 0 <= i < |HexEncode(sum)| ==> HexChar(HexEncode(sum)[i])
    ensures HexDecode(HexEncode(sum)) == sum
  {
    EncodeIsHex(sum);
    if sum != [] {
      DecodeEncode(sum[1..]);
      var s := HexEncode(sum);
      assert s[2..] == HexEncode(sum[1..]);
      assert 16 * DigitValue(s[0]) + DigitValue(s[1]) == sum[0] as int;
    }
  }

  lemma DigitOfValue(c: char)
    requires HexChar(c)
    ensures Digit(DigitValue(c)) == c
  {
  }

  lemma Halves(h: int, l: int)
    requires 0 <= h < 16 && 0 <= l < 16
    ensures (16 * h + l) / 16 == h && (16 * h + l) % 16 == l
  {
  }

  lemma {:induction false} EncodeDecode(s: string)
    requires |s| % 2 == 0 && forall i :: 0 <= i < |s| ==> HexChar(s[i])
    ensures HexEncode(HexDecode(s)) == s
  {
    if s != "" {
      EncodeDecode(s[2..]);
      assert HexDecode(s)[1..] == HexDecode(s[2..]);
      DigitOfValue(s[0]);
      DigitOfValue(s[1]);
      Halves(DigitValue(s[0]), DigitValue(s[1]));
      hide Digit, DigitValue;
      assert s == [s[0], s[1]] + s[2..];
    }
  }

  // The names accepted are exactly the encodings of 32 bytes.
  lemma HandlesAreEncodings(name: string)
    ensures IsHexHandle(name) <==> exists sum: seq<byte> :: |sum| == DIGEST_LENGTH && HexEncode(sum) == name
  {
    if IsHexHandle(name) {
      EncodeDecode(name);
      assert |HexDecode(name)| == DIGEST_LENGTH && HexEncode(HexDecode(name)) == name;
    } else if sum: seq<byte> :| |sum| == DIGEST_LENGTH && HexEncode(sum) == name {
      EncodeIsHex(sum);
    }
  }

  lemma EncodeInjective(a: seq<byte>, b: seq<byte>)
    requires HexEncode(a) == HexEncode(b)
    ensures a == b
  {
    DecodeEncode(a);
    DecodeEncode(b);
  }
}
