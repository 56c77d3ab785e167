/**
  The "base64" encoding of section 4 of RFC 4648: the standard 64-character
  alphabet (Table 1 of that section), "=" padding, and no line breaks.  This is
  what Python's `base64.b64encode` produces, which `mailgunflanker/2es.py` uses
  for attachment bodies.

  `Decode` is the strict decoder of the same section: it accepts only
  canonical encodings (length a multiple of 4, padding only at the end, and
  zero pad bits as section 3.5 of RFC 4648 describes), so that it is an exact
  inverse of `Encode` in both directions.
*/
module Base64 {
  import opened Wrappers

  type byte = b: int | 0 <= b < 256
  type sextet = v: int | 0 <= v < 64

  /** The 64 characters of Table 1 in section 4 of RFC 4648. */
  predicate IsAlphabetChar(c: char) {
    ('A' <= c <= 'Z') || ('a' <= c <= 'z') || ('0' <= c <= '9') || c == '+' || c == '/'
  }

  /** Table 1: values 0-25 are 'A'-'Z', 26-51 'a'-'z', 52-61 '0'-'9', 62 '+', 63 '/'. */
  function CharOf(v: sextet): (c: char)
    ensures IsAlphabetChar(c)
  {
    if v < 26 then ('A' as int + v) as char
    else if v < 52 then ('a' as int + (v - 26)) as char
    else if v < 62 then ('0' as int + (v - 52)) as char
    else if v == 62 then '+'
    else '/'
  }

  /** The inverse of Table 1: the value a character of the alphabet encodes. */
  function ValueOf(c: char): (v: sextet)
    requires IsAlphabetChar(c)
    ensures CharOf(v) == c
  {
    if 'A' <= c <= 'Z' then c as int - 'A' as int
    else if 'a' <= c <= 'z' then c as int - 'a' as int + 26
    else if '0' <= c <= '9' then c as int - '0' as int + 52
    else if c == '+' then 62
    else 63
  }

  lemma ValueOfCharOf(v: sextet)
    ensures ValueOf(CharOf(v)) == v
  {
  }

  // ----- Encoding -----

  /** Three input bytes (24 bits) become four characters of six bits each. */
  function EncodeQuantum(a: byte, b: byte, c: byte): string {
    [CharOf(a / 4), CharOf((a % 4) * 16 + b / 16), CharOf((b % 16) * 4 + c / 64), CharOf(c % 64)]
  }

  /** A final quantum of two bytes (16 bits): three characters and one "=". */
  function EncodeFinalPair(a: byte, b: byte): string {
    [CharOf(a / 4), CharOf((a % 4) * 16 + b / 16), CharOf((b % 16) * 4), '=']
  }

  /** A final quantum of one byte (8 bits): two characters and "==". */
  function EncodeFinalSingle(a: byte): string {
    [CharOf(a / 4), CharOf((a % 4) * 16), '=', '=']
  }

  /** Base64 encoding of `data`: four characters for every started group of three bytes. */
  function Encode(data: seq<byte>): (s: string)
    ensures |s| == 4 * ((|data| + 2) / 3)
    decreases |data|
  {
    if |data| == 0 then ""
    else if |data| == 1 then EncodeFinalSingle(data[0])
    else if |data| == 2 then EncodeFinalPair(data[0], data[1])
    else EncodeQuantum(data[0], data[1], data[2]) + Encode(data[3..])
  }

  /**
    `s` is from the alphabet except for padding in its last two positions, as
    an encoding of a byte count leaving remainder `rem` modulo 3 must be.
  */
  ghost predicate PaddedAlphabet(s: string, rem: int) {
    && (forall i :: 0 <= i < |s| - 2 ==> IsAlphabetChar(s[i]))
    && (|s| >= 2 ==> (IsAlphabetChar(s[|s| - 2]) || s[|s| - 2] == '='))
    && (|s| >= 2 ==> (s[|s| - 2] == '=' <==> rem == 1))
    && (|s| >= 1 ==> (IsAlphabetChar(s[|s| - 1]) || s[|s| - 1] == '='))
    && (|s| >= 1 ==> (s[|s| - 1] == '=' <==> rem != 0))
  }

  /**
    Every character of an encoding is from the alphabet except padding, which
    only the last two positions can hold: the last one is "=" exactly when the
    input length is not a multiple of 3, the one before exactly when it leaves
    a remainder of 1.
  */
  lemma {:induction false} EncodeUsesAlphabet(data: seq<byte>)
    ensures PaddedAlphabet(Encode(data), |data| % 3)
    decreases |data|
  {
    if |data| == 1 {
      SingleUsesAlphabet(data[0]);
    } else if |data| == 2 {
      PairUsesAlphabet(data[0], data[1]);
    } else if |data| > 2 {
      var rest := data[3..];
      EncodeUsesAlphabet(rest);
      assert |Encode(rest)| == 0 ==> |rest| == 0;
      RemainderAfterQuantum(|rest|);
      PaddedAlphabetPrepend(data[0], data[1], data[2], Encode(rest), |rest| % 3);
    }
  }

  lemma RemainderAfterQuantum(n: nat)
    ensures (n + 3) % 3 == n % 3
  {
  }

  lemma SingleUsesAlphabet(a: byte)
    ensures PaddedAlphabet(EncodeFinalSingle(a), 1)
  {
  }

  lemma PairUsesAlphabet(a: byte, b: byte)
    ensures PaddedAlphabet(EncodeFinalPair(a, b), 2)
  {
  }

  lemma PaddedAlphabetPrepend(a: byte, b: byte, c: byte, t: string, rem: int)
    requires PaddedAlphabet(t, rem) && (|t| == 0 ==> rem == 0) && |t| != 1
    ensures PaddedAlphabet(EncodeQuantum(a, b, c) + t, rem)
  {
    var q := EncodeQuantum(a, b, c);
    assert IsAlphabetChar(q[0]) && IsAlphabetChar(q[1]) && IsAlphabetChar(q[2]) && IsAlphabetChar(q[3]);
    var s := q + t;
    forall i | 0 <= i < |s| - 2
      ensures IsAlphabetChar(s[i])
    {
      if i < 4 {
        assert s[i] == q[i];
      } else {
        assert s[i] == t[i - 4];
      }
    }
    if |t| > 0 {
      assert s[|s| - 1] == t[|t| - 1] && s[|s| - 2] == t[|t| - 2];
    }
  }

  /** Every character of an encoding is from the alphabet or is "=". */
  lemma EncodeCharset(data: seq<byte>)
    ensures forall i :: 0 <= i < |Encode(data)| ==>
      IsAlphabetChar(Encode(data)[i]) || Encode(data)[i] == '='
  {
    EncodeUsesAlphabet(data);
  }

  /** The test vectors of section 10 of RFC 4648 ("f", "fo", ..., "foobar"). */
  lemma EncodeVectors()
    ensures Encode([102]) == "Zg=="
    ensures Encode([102, 111]) == "Zm8="
    ensures Encode([102, 111, 111]) == "Zm9v"
    ensures Encode([102, 111, 111, 98]) == "Zm9vYg=="
    ensures Encode([102, 111, 111, 98, 97]) == "Zm9vYmE="
    ensures Encode([102, 111, 111, 98, 97, 114]) == "Zm9vYmFy"
  {
    // the sextets of "f", "fo" and "foo"
    assert 102 / 4 == 25 && (102 % 4) * 16 == 32 && (102 % 4) * 16 + 111 / 16 == 38;
    assert (111 % 16) * 4 == 60 && (111 % 16) * 4 + 111 / 64 == 61 && 111 % 64 == 47;
    // the sextets of "b", "ba" and "bar"
    assert 98 / 4 == 24 && (98 % 4) * 16 == 32 && (98 % 4) * 16 + 97 / 16 == 38;
    assert (97 % 16) * 4 == 4 && (97 % 16) * 4 + 114 / 64 == 5 && 114 % 64 == 50;
    assert CharOf(25) == 'Z' && CharOf(32) == 'g' && CharOf(38) == 'm' && CharOf(60) == '8';
    assert CharOf(61) == '9' && CharOf(47) == 'v' && CharOf(24) == 'Y' && CharOf(4) == 'E';
    assert CharOf(5) == 'F' && CharOf(50) == 'y';
    assert [102, 111, 111, 98][3..] == [98];
    assert [102, 111, 111, 98, 97][3..] == [98, 97];
    assert [102, 111, 111, 98, 97, 114][3..] == [98, 97, 114];
  }

  // ----- Decoding -----

  /** Four alphabet characters back to three bytes; None on any other character. */
  function DecodeQuantum(q: string): Option<seq<byte>>
    requires |q| == 4
  {
    if IsAlphabetChar(q[0]) && IsAlphabetChar(q[1]) && IsAlphabetChar(q[2]) && IsAlphabetChar(q[3]) then
      var v0, v1, v2, v3 := ValueOf(q[0]), ValueOf(q[1]), ValueOf(q[2]), ValueOf(q[3]);
      Some([v0 * 4 + v1 / 16, (v1 % 16) * 16 + v2 / 4, (v2 % 4) * 64 + v3])
    else
      None
  }

  /**
    The last quantum of an encoding: a full quantum, or one with "=" or "=="
    padding whose unused low bits are zero.
  */
  function DecodeFinal(q: string): Option<seq<byte>>
    requires |q| == 4
  {
    if DecodeQuantum(q).Some? then
      DecodeQuantum(q)
    else if IsAlphabetChar(q[0]) && IsAlphabetChar(q[1]) && IsAlphabetChar(q[2]) && q[3] == '=' then
      var v0, v1, v2 := ValueOf(q[0]), ValueOf(q[1]), ValueOf(q[2]);
      if v2 % 4 == 0 then Some([v0 * 4 + v1 / 16, (v1 % 16) * 16 + v2 / 4]) else None
    else if IsAlphabetChar(q[0]) && IsAlphabetChar(q[1]) && q[2] == '=' && q[3] == '=' then
      var v0, v1 := ValueOf(q[0]), ValueOf(q[1]);
      if v1 % 16 == 0 then Some([v0 * 4 + v1 / 16]) else None
    else
      None
  }

  /** Strict Base64 decoding; None for anything `Encode` cannot produce. */
  function Decode(s: string): (r: Option<seq<byte>>)
    decreases |s|
  {
    if |s| == 0 then Some([])
    else if |s| < 4 then None
    else if |s| == 4 then DecodeFinal(s)
    else
      match DecodeQuantum(s[..4])
      case None => None
      case Some(head) =>
        match Decode(s[4..])
        case None => None
        case Some(tail) => Some(head + tail)
  }

  // ----- Round trips -----

  /** The arithmetic of one quantum: regrouping 3 x 8 bits as 4 x 6 bits and back. */
  lemma SplitJoin(a: byte, b: byte, c: byte)
    ensures var v0, v1, v2, v3 := a / 4, (a % 4) * 16 + b / 16, (b % 16) * 4 + c / 64, c % 64;
      && v0 * 4 + v1 / 16 == a
      && (v1 % 16) * 16 + v2 / 4 == b
      && (v2 % 4) * 64 + v3 == c
  {
    var v1, v2 := (a % 4) * 16 + b / 16, (b % 16) * 4 + c / 64;
    assert v1 / 16 == a % 4 && v1 % 16 == b / 16;
    assert v2 / 4 == b % 16 && v2 % 4 == c / 64;
  }

  lemma QuantumRoundTrip(a: byte, b: byte, c: byte)
    ensures DecodeQuantum(EncodeQuantum(a, b, c)) == Some([a, b, c])
  {
    var v0, v1, v2, v3 := a / 4, (a % 4) * 16 + b / 16, (b % 16) * 4 + c / 64, c % 64;
    SplitJoin(a, b, c);
    ValueOfCharOf(v0);
    ValueOfCharOf(v1);
    ValueOfCharOf(v2);
    ValueOfCharOf(v3);
    assert EncodeQuantum(a, b, c) == [CharOf(v0), CharOf(v1), CharOf(v2), CharOf(v3)];
  }

  lemma FinalPairRoundTrip(a: byte, b: byte)
    ensures DecodeFinal(EncodeFinalPair(a, b)) == Some([a, b])
  {
    ValueOfCharOf(a / 4);
    ValueOfCharOf((a % 4) * 16 + b / 16);
    ValueOfCharOf((b % 16) * 4);
  }

  lemma FinalSingleRoundTrip(a: byte)
    ensures DecodeFinal(EncodeFinalSingle(a)) == Some([a])
  {
    ValueOfCharOf(a / 4);
    ValueOfCharOf((a % 4) * 16);
  }

  /** Decoding splits at a quantum boundary after a full quantum. */
  lemma DecodeAfterQuantum(q: string, t: string, head: seq<byte>, tail: seq<byte>)
    requires |q| == 4 && DecodeQuantum(q) == Some(head) && Decode(t) == Some(tail)
    ensures Decode(q + t) == Some(head + tail)
  {
    if |t| == 0 {
      assert q + t == q;
      assert head + tail == head;
    } else {
      assert (q + t)[..4] == q;
      assert (q + t)[4..] == t;
    }
  }

  lemma DecodeEncodeShort(data: seq<byte>)
    requires 1 <= |data| <= 2
    ensures Decode(Encode(data)) == Some(data)
  {
    SplitShort(data);
    if |data| == 1 {
      FinalSingleRoundTrip(data[0]);
    } else {
      FinalPairRoundTrip(data[0], data[1]);
    }
  }

  lemma SplitShort(data: seq<byte>)
    requires 1 <= |data| <= 2
    ensures |data| == 1 ==> data == [data[0]]
    ensures |data| == 2 ==> data == [data[0], data[1]]
  {
  }

  lemma DecodeEncodeStep(data: seq<byte>)
    requires |data| >= 3 && Decode(Encode(data[3..])) == Some(data[3..])
    ensures Decode(Encode(data)) == Some(data)
  {
    var q := EncodeQuantum(data[0], data[1], data[2]);
    QuantumRoundTrip(data[0], data[1], data[2]);
    DecodeAfterQuantum(q, Encode(data[3..]), [data[0], data[1], data[2]], data[3..]);
    assert Encode(data) == q + Encode(data[3..]);
    SplitThree(data);
  }

  lemma SplitThree(data: seq<byte>)
    requires |data| >= 3
    ensures data == [data[0], data[1], data[2]] + data[3..]
  {
  }

  /** Decoding an encoding gives back the original bytes. */
  lemma {:induction false} DecodeEncode(data: seq<byte>)
    ensures Decode(Encode(data)) == Some(data)
    decreases |data|
  {
    if |data| == 0 {
    } else if |data| <= 2 {
      DecodeEncodeShort(data);
    } else {
      DecodeEncode(data[3..]);
      DecodeEncodeStep(data);
    }
  }

  lemma QuantumCanonical(q: string, out: seq<byte>)
    requires |q| == 4 && DecodeQuantum(q) == Some(out)
    ensures |out| == 3 && EncodeQuantum(out[0], out[1], out[2]) == q
  {
    var v0, v1, v2, v3 := ValueOf(q[0]), ValueOf(q[1]), ValueOf(q[2]), ValueOf(q[3]);
    assert out[0] / 4 == v0 && out[0] % 4 == v1 / 16;
    assert out[1] / 16 == v1 % 16 && out[1] % 16 == v2 / 4;
    assert out[2] / 64 == v2 % 4 && out[2] % 64 == v3;
    assert EncodeQuantum(out[0], out[1], out[2]) == [CharOf(v0), CharOf(v1), CharOf(v2), CharOf(v3)];
  }

  lemma FinalCanonical(q: string, out: seq<byte>)
    requires |q| == 4 && DecodeFinal(q) == Some(out)
    ensures 1 <= |out| <= 3
    ensures |out| == 3 ==> EncodeQuantum(out[0], out[1], out[2]) == q
    ensures |out| == 2 ==> EncodeFinalPair(out[0], out[1]) == q
    ensures |out| == 1 ==> EncodeFinalSingle(out[0]) == q
  {
    if DecodeQuantum(q).Some? {
      QuantumCanonical(q, out);
    } else if IsAlphabetChar(q[0]) && IsAlphabetChar(q[1]) && IsAlphabetChar(q[2]) && q[3] == '=' {
      var v0, v1, v2 := ValueOf(q[0]), ValueOf(q[1]), ValueOf(q[2]);
      assert out[0] / 4 == v0 && out[0] % 4 == v1 / 16;
      assert out[1] / 16 == v1 % 16 && (out[1] % 16) * 4 == v2;
      assert EncodeFinalPair(out[0], out[1]) == [CharOf(v0), CharOf(v1), CharOf(v2), '='];
    } else {
      var v0, v1 := ValueOf(q[0]), ValueOf(q[1]);
      assert out[0] / 4 == v0 && (out[0] % 4) * 16 == v1;
      assert EncodeFinalSingle(out[0]) == [CharOf(v0), CharOf(v1), '=', '='];
    }
  }

  /** Whatever the strict decoder accepts, encoding its result gives the same text back. */
  lemma {:induction false} EncodeDecode(s: string, data: seq<byte>)
    requires Decode(s) == Some(data)
    ensures Encode(data) == s
    decreases |s|
  {
    if |s| == 0 {
    } else if |s| == 4 {
      FinalCanonical(s, data);
      if |data| == 3 {
        assert data[3..] == [];
      }
    } else {
      var head := DecodeQuantum(s[..4]).value;
      var tail := Decode(s[4..]).value;
      QuantumCanonical(s[..4], head);
      EncodeDecode(s[4..], tail);
      assert data == head + tail;
      assert |tail| > 0;
      assert data[3..] == tail;
      assert s == s[..4] + s[4..];
    }
  }

  /** `Decode` is the exact inverse of `Encode`. */
  lemma DecodeIffEncode(s: string, data: seq<byte>)
    ensures Decode(s) == Some(data) <==> Encode(data) == s
  {
    if Decode(s) == Some(data) {
      EncodeDecode(s, data);
    }
    if Encode(data) == s {
      DecodeEncode(data);
    }
  }
}
