/**
 * Base64 as section 4 of RFC 4648 defines it (the encoding `Convert.ToBase64String`
 * produces): the 64-character alphabet of Table 1, every 3 input bytes written as
 * 4 characters, and a final group of 1 or 2 bytes padded with '=' to 4 characters.
 * The decoder accepts exactly the strings the encoder produces (canonical padding,
 * zero pad bits), so the two are inverse to each other in both directions.
 */
module Base64 {
  import opened Results
  import opened TextEncoding

  predicate IsBase64Char(c: char) {
    ('A' <= c <= 'Z') || ('a' <= c <= 'z') || ('0' <= c <= '9') || c == '+' || c == '/'
  }

  /** The position of an alphabet character in Table 1 of RFC 4648. */
  function Index(c: char): (i: int)
    requires IsBase64Char(c)
    ensures 0 <= i < 64
  {
    if 'A' <= c <= 'Z' then c as int - 'A' as int
    else if 'a' <= c <= 'z' then c as int - 'a' as int + 26
    else if '0' <= c <= '9' then c as int - '0' as int + 52
    else if c == '+' then 62
    else 63
  }

  /** The character of Table 1 of RFC 4648 for a 6-bit value. */
  function Char(i: int): char
    requires 0 <= i < 64
  {
    if i < 26 then ('A' as int + i) as char
    else if i < 52 then ('a' as int + (i - 26)) as char
    else if i < 62 then ('0' as int + (i - 52)) as char
    else if i == 62 then '+'
    else '/'
  }

  /** `Char` and `Index` are inverse: every 6-bit value has its own alphabet character. */
  lemma IndexOfChar(i: int)
    requires 0 <= i < 64
    ensures IsBase64Char(Char(i)) && Index(Char(i)) == i
  {
  }

  lemma CharOfIndex(c: char)
    requires IsBase64Char(c)
    ensures Char(Index(c)) == c
  {
  }

  /** How many '=' characters end the encoding of `n` bytes. */
  function PadLength(n: nat): nat {
    (3 - n % 3) % 3
  }

  /** Three bytes, 24 bits, as four 6-bit characters. */
  function EncodeTriple(a: Byte, b: Byte, c: Byte): string {
    [Char(a / 4), Char((a % 4) * 16 + b / 16), Char((b % 16) * 4 + c / 64), Char(c % 64)]
  }

  /** A final pair of bytes: three characters and one '='. */
  function EncodePair(a: Byte, b: Byte): string {
    [Char(a / 4), Char((a % 4) * 16 + b / 16), Char((b % 16) * 4), '=']
  }

  /** A final single byte: two characters and '=='. */
  function EncodeSingle(a: Byte): string {
    [Char(a / 4), Char((a % 4) * 16), '=', '=']
  }

  /** The encoding: four characters per started group of three bytes. */
  function Encode(s: seq<Byte>): (r: string)
    ensures |r| == 4 * ((|s| + 2) / 3)
    decreases |s|
  {
    if |s| == 0 then ""
    else if |s| == 1 then EncodeSingle(s[0])
    else if |s| == 2 then EncodePair(s[0], s[1])
    else EncodeTriple(s[0], s[1], s[2]) + Encode(s[3..])
  }

  /** `r` is alphabet characters followed by exactly `pad` '=' characters. */
  predicate Padded(r: string, pad: nat) {
    && pad <= |r|
    && (forall i :: 0 <= i < |r| - pad ==> IsBase64Char(r[i]))
    && (forall i :: |r| - pad <= i < |r| ==> r[i] == '=')
  }

  lemma TripleShape(a: Byte, b: Byte, c: Byte)
    ensures Padded(EncodeTriple(a, b, c), 0)
  {
    IndexOfChar(a / 4);
    IndexOfChar((a % 4) * 16 + b / 16);
    IndexOfChar((b % 16) * 4 + c / 64);
    IndexOfChar(c % 64);
  }

  lemma PairShape(a: Byte, b: Byte)
    ensures Padded(EncodePair(a, b), 1)
  {
    IndexOfChar(a / 4);
    IndexOfChar((a % 4) * 16 + b / 16);
    IndexOfChar((b % 16) * 4);
  }

  lemma SingleShape(a: Byte)
    ensures Padded(EncodeSingle(a), 2)
  {
    IndexOfChar(a / 4);
    IndexOfChar((a % 4) * 16);
  }

  /** A padding-free group in front of a padded string keeps the padding at the end. */
  lemma AppendGroup(head: string, tail: string, n: nat)
    requires |head| == 4 && Padded(head, 0) && Padded(tail, PadLength(n))
    ensures Padded(head + tail, PadLength(n + 3))
  {
    var r := head + tail;
    var pad := PadLength(n);
    assert PadLength(n + 3) == pad;
    forall i | 0 <= i < |r| - pad
      ensures IsBase64Char(r[i])
    {
      if i >= 4 {
        assert r[i] == tail[i - 4];
      }
    }
    forall i | |r| - pad <= i < |r|
      ensures r[i] == '='
    {
      assert r[i] == tail[i - 4];
    }
  }

  /** Every character of an encoding is from the alphabet, except the trailing padding, which is '=' and nothing else. */
  lemma {:induction false} EncodeShape(s: seq<Byte>)
    ensures Padded(Encode(s), PadLength(|s|))
    decreases |s|
  {
    if |s| == 1 {
      SingleShape(s[0]);
    } else if |s| == 2 {
      PairShape(s[0], s[1]);
    } else if |s| >= 3 {
      var head, tail := EncodeTriple(s[0], s[1], s[2]), Encode(s[3..]);
      assert Encode(s) == head + tail;
      EncodeShape(s[3..]);
      TripleShape(s[0], s[1], s[2]);
      AppendGroup(head, tail, |s| - 3);
    }
  }

  /**
   * Decodes one group of four characters. Padding is accepted only in the `last`
   * group, and only with its unused bits zero, as the encoder writes them.
   */
  function DecodeQuantum(q: string, last: bool): (r: Option<seq<Byte>>)
    requires |q| == 4
    ensures r.Some? ==> 1 <= |r.value| <= 3
    ensures r.Some? && !last ==> |r.value| == 3
  {
    if IsBase64Char(q[0]) && IsBase64Char(q[1]) then
      var i0, i1 := Index(q[0]), Index(q[1]);
      if IsBase64Char(q[2]) && IsBase64Char(q[3]) then
        var i2, i3 := Index(q[2]), Index(q[3]);
        Some([i0 * 4 + i1 / 16, (i1 % 16) * 16 + i2 / 4, (i2 % 4) * 64 + i3])
      else if last && IsBase64Char(q[2]) && q[3] == '=' && Index(q[2]) % 4 == 0 then
        var i2 := Index(q[2]);
        Some([i0 * 4 + i1 / 16, (i1 % 16) * 16 + i2 / 4])
      else if last && q[2] == '=' && q[3] == '=' && i1 % 16 == 0 then
        Some([i0 * 4 + i1 / 16])
      else
        None
    else
      None
  }

  /** Decodes a whole string, or gives `None` for a string that is not Base64. */
  function Decode(t: string): (r: Option<seq<Byte>>)
    decreases |t|
  {
    if |t| == 0 then Some([])
    else if |t| < 4 then None
    else
      match DecodeQuantum(t[..4], |t| == 4)
      case None => None
      case Some(head) =>
        match Decode(t[4..])
        case None => None
        case Some(tail) => Some(head + tail)
  }

  /** Three bytes cut into four 6-bit values and joined again are the same three bytes. */
  lemma JoinTriple(a: Byte, b: Byte, c: Byte)
    ensures var i0, i1, i2, i3 := a / 4, (a % 4) * 16 + b / 16, (b % 16) * 4 + c / 64, c % 64;
            i0 * 4 + i1 / 16 == a && (i1 % 16) * 16 + i2 / 4 == b && (i2 % 4) * 64 + i3 == c
  {
    Split16(a % 4, b / 16);
    Split4(b % 16, c / 64);
  }

  lemma JoinPair(a: Byte, b: Byte)
    ensures var i0, i1, i2 := a / 4, (a % 4) * 16 + b / 16, (b % 16) * 4;
            i2 % 4 == 0 && i0 * 4 + i1 / 16 == a && (i1 % 16) * 16 + i2 / 4 == b
  {
    Split16(a % 4, b / 16);
    Split4(b % 16, 0);
  }

  lemma JoinSingle(a: Byte)
    ensures var i0, i1 := a / 4, (a % 4) * 16;
            i1 % 16 == 0 && i0 * 4 + i1 / 16 == a
  {
    Split16(a % 4, 0);
  }

  lemma DecodeEncodeTriple(a: Byte, b: Byte, c: Byte, last: bool)
    ensures DecodeQuantum(EncodeTriple(a, b, c), last) == Some([a, b, c])
  {
    JoinTriple(a, b, c);
    IndexOfChar(a / 4);
    IndexOfChar((a % 4) * 16 + b / 16);
    IndexOfChar((b % 16) * 4 + c / 64);
    IndexOfChar(c % 64);
  }

  lemma DecodeEncodePair(a: Byte, b: Byte)
    ensures DecodeQuantum(EncodePair(a, b), true) == Some([a, b])
  {
    JoinPair(a, b);
    IndexOfChar(a / 4);
    IndexOfChar((a % 4) * 16 + b / 16);
    IndexOfChar((b % 16) * 4);
  }

  lemma DecodeEncodeSingle(a: Byte)
    ensures DecodeQuantum(EncodeSingle(a), true) == Some([a])
  {
    JoinSingle(a);
    IndexOfChar(a / 4);
    IndexOfChar((a % 4) * 16);
  }

  /** A group in front of a decodable rest decodes to the group's bytes in front of the rest's. */
  lemma DecodeCons(q: string, rest: string)
    requires |q| == 4 && DecodeQuantum(q, rest == "").Some? && Decode(rest).Some?
    ensures Decode(q + rest) == Some(DecodeQuantum(q, rest == "").value + Decode(rest).value)
  {
    var t := q + rest;
    assert t[..4] == q && t[4..] == rest;
  }

  /** A string of a single group decodes as that group, read as the last one. */
  lemma DecodeLast(q: string)
    requires |q| == 4
    ensures Decode(q) == DecodeQuantum(q, true)
  {
    assert q[..4] == q && q[4..] == "";
    match DecodeQuantum(q, true)
    case None =>
    case Some(head) =>
      assert head + [] == head;
  }

  /** A final group of one or two bytes decodes back to those bytes. */
  lemma DecodeEncodeShort(s: seq<Byte>)
    requires 1 <= |s| <= 2
    ensures Decode(Encode(s)) == Some(s)
  {
    DecodeLast(Encode(s));
    if |s| == 1 {
      DecodeEncodeSingle(s[0]);
      OneOrTwo(s);
    } else {
      DecodeEncodePair(s[0], s[1]);
      OneOrTwo(s);
    }
  }

  lemma OneOrTwo<T>(s: seq<T>)
    requires 1 <= |s| <= 2
    ensures |s| == 1 ==> s == [s[0]]
    ensures |s| == 2 ==> s == [s[0], s[1]]
  {
  }

  /** A full group in front of a decodable encoding decodes to the three bytes in front of what the rest decodes to. */
  lemma DecodeEncodeStep(s: seq<Byte>)
    requires |s| >= 3 && Decode(Encode(s[3..])) == Some(s[3..])
    ensures Decode(Encode(s)) == Some(s)
  {
    var head, tail := EncodeTriple(s[0], s[1], s[2]), Encode(s[3..]);
    assert Encode(s) == head + tail;
    DecodeGroupThen(s[0], s[1], s[2], tail);
    FirstThree(s);
  }

  lemma FourElements<T>(q: seq<T>)
    requires |q| == 4
    ensures q == [q[0], q[1], q[2], q[3]]
  {
  }

  lemma FirstThree<T>(s: seq<T>)
    requires |s| >= 3
    ensures [s[0], s[1], s[2]] + s[3..] == s
  {
  }

  lemma DecodeGroupThen(a: Byte, b: Byte, c: Byte, tail: string)
    requires Decode(tail).Some?
    ensures Decode(EncodeTriple(a, b, c) + tail) == Some([a, b, c] + Decode(tail).value)
  {
    DecodeEncodeTriple(a, b, c, tail == "");
    DecodeCons(EncodeTriple(a, b, c), tail);
  }

  /** Decoding undoes encoding, for every byte sequence. */
  lemma {:induction false} DecodeEncode(s: seq<Byte>)
    ensures Decode(Encode(s)) == Some(s)
    decreases |s|
  {
    if |s| == 0 {
    } else if |s| <= 2 {
      DecodeEncodeShort(s);
    } else {
      DecodeEncode(s[3..]);
      DecodeEncodeStep(s);
    }
  }

  /** `hi * 4 + lo` with `lo < 4` splits back into `hi` and `lo`; likewise for 16 and 64 below. */
  lemma Split4(hi: int, lo: int)
    requires 0 <= lo < 4 && 0 <= hi
    ensures (hi * 4 + lo) / 4 == hi && (hi * 4 + lo) % 4 == lo
  {
  }

  lemma Split16(hi: int, lo: int)
    requires 0 <= lo < 16 && 0 <= hi
    ensures (hi * 16 + lo) / 16 == hi && (hi * 16 + lo) % 16 == lo
  {
  }

  lemma Split64(hi: int, lo: int)
    requires 0 <= lo < 64 && 0 <= hi
    ensures (hi * 64 + lo) / 64 == hi && (hi * 64 + lo) % 64 == lo
  {
  }

  /** The three bytes built from four 6-bit values give those values back. */
  lemma SplitQuantum(i0: int, i1: int, i2: int, i3: int)
    requires 0 <= i0 < 64 && 0 <= i1 < 64 && 0 <= i2 < 64 && 0 <= i3 < 64
    ensures var a, b, c := i0 * 4 + i1 / 16, (i1 % 16) * 16 + i2 / 4, (i2 % 4) * 64 + i3;
            a / 4 == i0 && (a % 4) * 16 + b / 16 == i1 && (b % 16) * 4 + c / 64 == i2 && c % 64 == i3
  {
    Split4(i0, i1 / 16);
    Split16(i1 % 16, i2 / 4);
    Split64(i2 % 4, i3);
  }

  /** Joining four 6-bit values into bytes and encoding them writes the four values' characters. */
  lemma EncodeJoinedTriple(i0: int, i1: int, i2: int, i3: int) returns (a: Byte, b: Byte, c: Byte)
    requires 0 <= i0 < 64 && 0 <= i1 < 64 && 0 <= i2 < 64 && 0 <= i3 < 64
    ensures a == i0 * 4 + i1 / 16 && b == (i1 % 16) * 16 + i2 / 4 && c == (i2 % 4) * 64 + i3
    ensures EncodeTriple(a, b, c) == [Char(i0), Char(i1), Char(i2), Char(i3)]
  {
    a, b, c := i0 * 4 + i1 / 16, (i1 % 16) * 16 + i2 / 4, (i2 % 4) * 64 + i3;
    SplitQuantum(i0, i1, i2, i3);
  }

  /** The two bytes built from three 6-bit values, the last with two zero low bits, give those values back. */
  lemma SplitPair(i0: int, i1: int, i2: int)
    requires 0 <= i0 < 64 && 0 <= i1 < 64 && 0 <= i2 < 64 && i2 % 4 == 0
    ensures var a, b := i0 * 4 + i1 / 16, (i1 % 16) * 16 + i2 / 4;
            a / 4 == i0 && (a % 4) * 16 + b / 16 == i1 && (b % 16) * 4 == i2
  {
    Split4(i0, i1 / 16);
    Split16(i1 % 16, i2 / 4);
  }

  /** The byte built from two 6-bit values, the last with four zero low bits, gives those values back. */
  lemma SplitSingle(i0: int, i1: int)
    requires 0 <= i0 < 64 && 0 <= i1 < 64 && i1 % 16 == 0
    ensures var a := i0 * 4 + i1 / 16;
            a / 4 == i0 && (a % 4) * 16 == i1
  {
    Split4(i0, i1 / 16);
  }

  lemma EncodeJoinedPair(i0: int, i1: int, i2: int) returns (a: Byte, b: Byte)
    requires 0 <= i0 < 64 && 0 <= i1 < 64 && 0 <= i2 < 64 && i2 % 4 == 0
    ensures a == i0 * 4 + i1 / 16 && b == (i1 % 16) * 16 + i2 / 4
    ensures EncodePair(a, b) == [Char(i0), Char(i1), Char(i2), '=']
  {
    a, b := i0 * 4 + i1 / 16, (i1 % 16) * 16 + i2 / 4;
    SplitPair(i0, i1, i2);
  }

  lemma EncodeJoinedSingle(i0: int, i1: int) returns (a: Byte)
    requires 0 <= i0 < 64 && 0 <= i1 < 64 && i1 % 16 == 0
    ensures a == i0 * 4 + i1 / 16
    ensures EncodeSingle(a) == [Char(i0), Char(i1), '=', '=']
  {
    a := i0 * 4 + i1 / 16;
    SplitSingle(i0, i1);
  }

  /** A group of four alphabet characters decodes to three bytes whose encoding is that group. */
  lemma EncodeDecodeFull(q: string, last: bool) returns (a: Byte, b: Byte, c: Byte)
    requires |q| == 4 && DecodeQuantum(q, last).Some? && IsBase64Char(q[2]) && IsBase64Char(q[3])
    ensures DecodeQuantum(q, last) == Some([a, b, c]) && EncodeTriple(a, b, c) == q
  {
    var i0, i1, i2, i3 := Index(q[0]), Index(q[1]), Index(q[2]), Index(q[3]);
    a, b, c := EncodeJoinedTriple(i0, i1, i2, i3);
    CharsOfGroup(q, 4);
  }

  /** The first `n` characters of a group, when in the alphabet, are the characters of their own indices. */
  lemma CharsOfGroup(q: string, n: nat)
    requires |q| == 4 && 2 <= n <= 4 && forall k :: 0 <= k < n ==> IsBase64Char(q[k])
    ensures n == 4 ==> q == [Char(Index(q[0])), Char(Index(q[1])), Char(Index(q[2])), Char(Index(q[3]))]
    ensures n == 3 ==> q == [Char(Index(q[0])), Char(Index(q[1])), Char(Index(q[2])), q[3]]
    ensures n == 2 ==> q == [Char(Index(q[0])), Char(Index(q[1])), q[2], q[3]]
  {
    CharOfIndex(q[0]);
    CharOfIndex(q[1]);
    if n >= 3 {
      CharOfIndex(q[2]);
    }
    if n == 4 {
      CharOfIndex(q[3]);
    }
    FourElements(q);
  }

  /** A last group of three alphabet characters and '=' decodes to two bytes whose encoding is that group. */
  lemma EncodeDecodePair(q: string, last: bool) returns (a: Byte, b: Byte)
    requires |q| == 4 && DecodeQuantum(q, last).Some? && IsBase64Char(q[2]) && !IsBase64Char(q[3])
    ensures DecodeQuantum(q, last) == Some([a, b]) && EncodePair(a, b) == q
  {
    var i0, i1, i2 := Index(q[0]), Index(q[1]), Index(q[2]);
    a, b := EncodeJoinedPair(i0, i1, i2);
    CharsOfGroup(q, 3);
  }

  /** A last group of two alphabet characters and '==' decodes to one byte whose encoding is that group. */
  lemma EncodeDecodeSingle(q: string, last: bool) returns (a: Byte)
    requires |q| == 4 && DecodeQuantum(q, last).Some? && !IsBase64Char(q[2])
    ensures DecodeQuantum(q, last) == Some([a]) && EncodeSingle(a) == q
  {
    var i0, i1 := Index(q[0]), Index(q[1]);
    a := EncodeJoinedSingle(i0, i1);
    CharsOfGroup(q, 2);
  }

  /** Encoding a decoded group gives the group back. */
  lemma EncodeDecodeQuantum(q: string, last: bool)
    requires |q| == 4 && DecodeQuantum(q, last).Some?
    ensures var b := DecodeQuantum(q, last).value;
            if |b| == 3 then EncodeTriple(b[0], b[1], b[2]) == q
            else if |b| == 2 then EncodePair(b[0], b[1]) == q
            else EncodeSingle(b[0]) == q
  {
    if IsBase64Char(q[2]) && IsBase64Char(q[3]) {
      var a, b, c := EncodeDecodeFull(q, last);
    } else if IsBase64Char(q[2]) {
      var a, b := EncodeDecodePair(q, last);
    } else {
      var a := EncodeDecodeSingle(q, last);
    }
  }

  /** Encoding undoes decoding: the only string that decodes to `s` is `Encode(s)`. */
  lemma {:induction false} EncodeDecode(t: string)
    requires Decode(t).Some?
    ensures Encode(Decode(t).value) == t
    decreases |t|
  {
    if |t| == 0 {
    } else {
      var head := DecodeQuantum(t[..4], |t| == 4).value;
      EncodeDecodeQuantum(t[..4], |t| == 4);
      if |t| == 4 {
        assert Decode(t).value == head + [];
        assert head + [] == head;
      } else {
        var tail := Decode(t[4..]).value;
        EncodeDecode(t[4..]);
        var s := head + tail;
        assert |head| == 3;
        assert s[..3] == head && s[3..] == tail;
        assert t == t[..4] + t[4..];
      }
    }
  }

  /** The test vectors of section 10 of RFC 4648, for the bytes of "f" up to "foobar". */
  lemma Rfc4648Vectors()
    ensures Encode([]) == ""
    ensures Encode([102]) == "Zg=="
    ensures Encode([102, 111]) == "Zm8="
    ensures Encode([102, 111, 111]) == "Zm9v"
    ensures Encode([102, 111, 111, 98]) == "Zm9vYg=="
    ensures Encode([102, 111, 111, 98, 97]) == "Zm9vYmE="
    ensures Encode([102, 111, 111, 98, 97, 114]) == "Zm9vYmFy"
  {
    assert [102, 111, 111, 98][3..] == [98];
    assert [102, 111, 111, 98, 97][3..] == [98, 97];
    assert [102, 111, 111, 98, 97, 114][3..] == [98, 97, 114];
  }

  /** Decoding is exactly the inverse of encoding: `t` decodes to `s` if and only if `t` is the encoding of `s`. */
  lemma DecodeIffEncode(t: string, s: seq<Byte>)
    ensures Decode(t) == Some(s) <==> t == Encode(s)
  {
    if Decode(t) == Some(s) {
      EncodeDecode(t);
    }
    if t == Encode(s) {
      DecodeEncode(s);
    }
  }
}
