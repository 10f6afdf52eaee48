/** The base64 coding of section 4 of RFC 4648 (standard alphabet, '=' padding),
    with the two decoders CPython offers: the strict one (`b64decode(s, validate=True)`,
    CPython 3.11 and later) and the lenient one (`b64decode(s)`). */
module Base64 {
  import opened Wrappers

  type Byte = b: int | 0 <= b < 256
  type Sextet = x: int | 0 <= x < 64

  /** Table 1 of RFC 4648: the character that encodes a 6-bit value. */
  function Char(x: Sextet): char {
    if x < 26 then ('A' as int + x) as char
    else if x < 52 then ('a' as int + (x - 26)) as char
    else if x < 62 then ('0' as int + (x - 52)) as char
    else if x == 62 then '+'
    else '/'
  }

  predicate IsAlphabet(c: char) {
    'A' <= c <= 'Z' || 'a' <= c <= 'z' || '0' <= c <= '9' || c == '+' || c == '/'
  }

  /** The 6-bit value an alphabet character stands for. */
  function Value(c: char): (x: Sextet)
    requires IsAlphabet(c)
    ensures Char(x) == c
  {
    if 'A' <= c <= 'Z' then c as int - 'A' as int
    else if 'a' <= c <= 'z' then c as int - 'a' as int + 26
    else if '0' <= c <= '9' then c as int - '0' as int + 52
    else if c == '+' then 62
    else 63
  }

  lemma CharValue(x: Sextet)
    ensures IsAlphabet(Char(x)) && Value(Char(x)) == x
  {
  }

  /** Characters an encoder emits: the alphabet and the pad. */
  predicate IsEncodedChar(c: char) {
    IsAlphabet(c) || c == '='
  }

  // The four sextets of a 24-bit group (section 4 of RFC 4648) and the bytes they give back.

  function S0(b0: Byte): Sextet { b0 / 4 }
  function S1(b0: Byte, b1: Byte): Sextet { (b0 % 4) * 16 + b1 / 16 }
  function S2(b1: Byte, b2: Byte): Sextet { (b1 % 16) * 4 + b2 / 64 }
  function S3(b2: Byte): Sextet { b2 % 64 }

  function B0(x0: Sextet, x1: Sextet): Byte { x0 * 4 + x1 / 16 }
  function B1(x1: Sextet, x2: Sextet): Byte { (x1 % 16) * 16 + x2 / 4 }
  function B2(x2: Sextet, x3: Sextet): Byte { (x2 % 4) * 64 + x3 }

  lemma SplitJoin(b0: Byte, b1: Byte, b2: Byte)
    ensures B0(S0(b0), S1(b0, b1)) == b0
    ensures B1(S1(b0, b1), S2(b1, b2)) == b1
    ensures B2(S2(b1, b2), S3(b2)) == b2
  {
  }

  /** `base64.b64encode(d).decode('ascii')` */
  function Encode(d: seq<Byte>): (s: string)
    decreases |d|
  {
    if |d| == 0 then ""
    else if |d| == 1 then [Char(S0(d[0])), Char(S1(d[0], 0)), '=', '=']
    else if |d| == 2 then [Char(S0(d[0])), Char(S1(d[0], d[1])), Char(S2(d[1], 0)), '=']
    else [Char(S0(d[0])), Char(S1(d[0], d[1])), Char(S2(d[1], d[2])), Char(S3(d[2]))] + Encode(d[3..])
  }

  /** A leading group of three bytes encodes to four characters ahead of the rest. */
  lemma EncodeGroup(d: seq<Byte>)
    requires |d| >= 3
    ensures Encode(d) == [Char(S0(d[0])), Char(S1(d[0], d[1])), Char(S2(d[1], d[2])), Char(S3(d[2]))] + Encode(d[3..])
  {
  }

  /** The encoding is 4 characters per started 3-byte group. */
  lemma {:induction false} EncodeLength(d: seq<Byte>)
    ensures |Encode(d)| == 4 * ((|d| + 2) / 3)
    decreases |d|
  {
    if |d| > 2 {
      var n := |d| - 3;
      EncodeLength(d[3..]);
      EncodeGroup(d);
      assert (n + 3 + 2) / 3 == (n + 2) / 3 + 1;
    } else if |d| > 0 {
      assert (|d| + 2) / 3 == 1;
    }
  }

  /** The characters of a group an encoder emits. */
  lemma GroupChars(x0: Sextet, x1: Sextet, x2: Sextet, x3: Sextet)
    ensures IsEncodedChar(Char(x0)) && IsEncodedChar(Char(x1)) && IsEncodedChar(Char(x2)) && IsEncodedChar(Char(x3))
  {
    CharValue(x0);
    CharValue(x1);
    CharValue(x2);
    CharValue(x3);
  }

  /** The encoding uses only the alphabet and the pad. */
  lemma {:induction false} EncodeChars(d: seq<Byte>)
    ensures forall k :: 0 <= k < |Encode(d)| ==> IsEncodedChar(Encode(d)[k])
    decreases |d|
  {
    if |d| == 1 {
      GroupChars(S0(d[0]), S1(d[0], 0), 0, 0);
    } else if |d| == 2 {
      GroupChars(S0(d[0]), S1(d[0], d[1]), S2(d[1], 0), 0);
    } else if |d| > 2 {
      EncodeChars(d[3..]);
      GroupChars(S0(d[0]), S1(d[0], d[1]), S2(d[1], d[2]), S3(d[2]));
      var e := Encode(d);
      var rest := Encode(d[3..]);
      EncodeGroup(d);
      forall k | 0 <= k < |e| ensures IsEncodedChar(e[k]) {
        if k >= 4 {
          assert e[k] == rest[k - 4];
        }
      }
    }
  }

  predicate IsQuad(s: string)
    requires |s| >= 4
  {
    IsAlphabet(s[0]) && IsAlphabet(s[1]) && IsAlphabet(s[2]) && IsAlphabet(s[3])
  }

  /** Strict decoding (`base64.b64decode(s, validate=True)`, i.e. `binascii.a2b_base64` in
      strict mode): `s` must be whole groups of four alphabet characters, of which only the
      last may end in `==` (one byte) or `=` (two bytes). Bits below the last byte are ignored,
      as CPython ignores them. Any other string is an error. */
  function Decode(s: string): (r: Option<seq<Byte>>)
    decreases |s|
  {
    if |s| == 0 then Some([])
    else if |s| < 4 then None
    else if |s| == 4 && IsAlphabet(s[0]) && IsAlphabet(s[1]) && s[2] == '=' && s[3] == '=' then
      Some([B0(Value(s[0]), Value(s[1]))])
    else if |s| == 4 && IsAlphabet(s[0]) && IsAlphabet(s[1]) && IsAlphabet(s[2]) && s[3] == '=' then
      Some([B0(Value(s[0]), Value(s[1])), B1(Value(s[1]), Value(s[2]))])
    else if IsQuad(s) then
      var x0, x1, x2, x3 := Value(s[0]), Value(s[1]), Value(s[2]), Value(s[3]);
      match Decode(s[4..])
      case None => None
      case Some(rest) => Some([B0(x0, x1), B1(x1, x2), B2(x2, x3)] + rest)
    else None
  }

  /** A leading group of four alphabet characters decodes to its three bytes. */
  lemma DecodeGroup(q: string, rest: string, r: seq<Byte>)
    requires |q| == 4 && IsQuad(q) && Decode(rest) == Some(r)
    ensures Decode(q + rest) ==
      Some([B0(Value(q[0]), Value(q[1])), B1(Value(q[1]), Value(q[2])), B2(Value(q[2]), Value(q[3]))] + r)
  {
    var s := q + rest;
    assert s[..4] == q && s[4..] == rest;
    assert s[3] != '=';
  }

  lemma DecodeFinalTwo(c0: char, c1: char)
    requires IsAlphabet(c0) && IsAlphabet(c1)
    ensures Decode([c0, c1, '=', '=']) == Some([B0(Value(c0), Value(c1))])
  {
  }

  lemma DecodeFinalThree(c0: char, c1: char, c2: char)
    requires IsAlphabet(c0) && IsAlphabet(c1) && IsAlphabet(c2)
    ensures Decode([c0, c1, c2, '=']) == Some([B0(Value(c0), Value(c1)), B1(Value(c1), Value(c2))])
  {
  }

  lemma DecodeEncodeOne(b0: Byte)
    ensures Decode(Encode([b0])) == Some([b0])
  {
    var x0, x1 := S0(b0), S1(b0, 0);
    assert Encode([b0]) == [Char(x0), Char(x1), '=', '='];
    CharValue(x0);
    CharValue(x1);
    DecodeFinalTwo(Char(x0), Char(x1));
    SplitJoin(b0, 0, 0);
  }

  lemma DecodeEncodeTwo(b0: Byte, b1: Byte)
    ensures Decode(Encode([b0, b1])) == Some([b0, b1])
  {
    var x0, x1, x2 := S0(b0), S1(b0, b1), S2(b1, 0);
    assert Encode([b0, b1]) == [Char(x0), Char(x1), Char(x2), '='];
    CharValue(x0);
    CharValue(x1);
    CharValue(x2);
    DecodeFinalThree(Char(x0), Char(x1), Char(x2));
    SplitJoin(b0, b1, 0);
  }

  /** The group a three-byte prefix encodes to, and the bytes that group decodes to. */
  lemma GroupRoundTrip(b0: Byte, b1: Byte, b2: Byte) returns (q: string)
    ensures |q| == 4 && IsQuad(q)
    ensures q == [Char(S0(b0)), Char(S1(b0, b1)), Char(S2(b1, b2)), Char(S3(b2))]
    ensures [B0(Value(q[0]), Value(q[1])), B1(Value(q[1]), Value(q[2])), B2(Value(q[2]), Value(q[3]))] == [b0, b1, b2]
  {
    q := [Char(S0(b0)), Char(S1(b0, b1)), Char(S2(b1, b2)), Char(S3(b2))];
    CharValue(S0(b0));
    CharValue(S1(b0, b1));
    CharValue(S2(b1, b2));
    CharValue(S3(b2));
    SplitJoin(b0, b1, b2);
  }

  /** The group encoding the first three bytes, ahead of a string decoding to the remaining
      bytes, decodes to all of them. */
  lemma GroupDecodes(d: seq<Byte>, rest: string)
    requires |d| >= 3 && Decode(rest) == Some(d[3..])
    ensures Decode([Char(S0(d[0])), Char(S1(d[0], d[1])), Char(S2(d[1], d[2])), Char(S3(d[2]))] + rest) == Some(d)
  {
    var q := GroupRoundTrip(d[0], d[1], d[2]);
    DecodeGroup(q, rest, d[3..]);
    assert d == [d[0], d[1], d[2]] + d[3..];
  }

  /** One more leading group of three bytes keeps the round trip. */
  lemma DecodeEncodeGroup(d: seq<Byte>)
    requires |d| >= 3 && Decode(Encode(d[3..])) == Some(d[3..])
    ensures Decode(Encode(d)) == Some(d)
  {
    EncodeGroup(d);
    GroupDecodes(d, Encode(d[3..]));
  }

  /** Round trip (the RFC's point): strict decoding inverts encoding, for every byte string. */
  lemma {:induction false} DecodeEncode(d: seq<Byte>)
    ensures Decode(Encode(d)) == Some(d)
    decreases |d|
  {
    if |d| == 0 {
      assert Encode(d) == "";
    } else if |d| == 1 {
      assert d == [d[0]];
      DecodeEncodeOne(d[0]);
    } else if |d| == 2 {
      assert d == [d[0], d[1]];
      DecodeEncodeTwo(d[0], d[1]);
    } else {
      DecodeEncode(d[3..]);
      DecodeEncodeGroup(d);
    }
  }

  /** A successful decode longer than one group starts with a full group of data. */
  lemma DecodeStep(s: string)
    requires |s| > 4 && Decode(s).Some?
    ensures IsQuad(s) && Decode(s[4..]).Some? && |Decode(s).value| == 3 + |Decode(s[4..]).value|
  {
  }

  /** A successful decode of one group: encoder characters, one to three bytes as padded. */
  lemma DecodeLast(s: string)
    requires |s| == 4 && Decode(s).Some?
    ensures IsEncodedChar(s[0]) && IsEncodedChar(s[1]) && IsEncodedChar(s[2]) && IsEncodedChar(s[3])
    ensures |Decode(s).value| == if s[3] == '=' then (if s[2] == '=' then 1 else 2) else 3
  {
    if IsQuad(s) {
      assert s[4..] == [];
    }
  }

  /** What a successful strict decode accepted: whole groups of encoder characters. */
  lemma {:induction false} DecodeAccepts(s: string)
    requires Decode(s).Some?
    ensures |s| % 4 == 0
    ensures forall k :: 0 <= k < |s| ==> IsEncodedChar(s[k])
    ensures |Decode(s).value| == 3 * (|s| / 4) - (if |s| > 0 && s[|s| - 1] == '=' then (if s[|s| - 2] == '=' then 2 else 1) else 0)
    decreases |s|
  {
    if |s| > 4 {
      var rest := s[4..];
      DecodeStep(s);
      DecodeAccepts(rest);
      assert |s| / 4 == |rest| / 4 + 1 && |s| % 4 == |rest| % 4;
      assert s[|s| - 1] == rest[|rest| - 1];
      assert s[|s| - 2] == rest[|rest| - 2];
      forall k | 0 <= k < |s| ensures IsEncodedChar(s[k]) {
        if k >= 4 {
          assert s[k] == rest[k - 4];
        }
      }
    } else if |s| == 4 {
      DecodeLast(s);
    }
  }

  // The lenient decoder (`base64.b64decode(s)` without `validate`). Only the ASCII test of
  // `_bytes_from_decode_data` and the state machine of CPython's non-strict
  // `binascii.a2b_base64` matter: characters outside the alphabet are skipped, a pad that
  // completes a group ends decoding, and a group left unfinished at the end is an error.

  predicate IsAscii(s: string) {
    forall k :: 0 <= k < |s| ==> s[k] as int < 128
  }

  /** The decoding state after `s[..i]`: position in the current group (`quad`), the bits
      carried over (`left`), the pads seen since the last data character, the output. */
  function LenientFrom(s: string, i: nat, quad: nat, left: nat, pads: nat, out: seq<Byte>): (r: Option<seq<Byte>>)
    requires i <= |s| && quad < 4
    requires quad == 1 ==> left < 64
    requires quad == 2 ==> left < 16
    requires quad == 3 ==> left < 4
    decreases |s| - i
  {
    if i == |s| then (if quad == 0 then Some(out) else None)
    else if s[i] == '=' then
      if quad >= 2 && quad + pads + 1 >= 4 then Some(out)
      else LenientFrom(s, i + 1, quad, left, if quad >= 2 then pads + 1 else pads, out)
    else if !IsAlphabet(s[i]) then LenientFrom(s, i + 1, quad, left, pads, out)
    else
      var x := Value(s[i]);
      if quad == 0 then LenientFrom(s, i + 1, 1, x, 0, out)
      else if quad == 1 then LenientFrom(s, i + 1, 2, x % 16, 0, out + [left * 4 + x / 16])
      else if quad == 2 then LenientFrom(s, i + 1, 3, x % 4, 0, out + [left * 16 + x / 4])
      else LenientFrom(s, i + 1, 0, 0, 0, out + [left * 64 + x])
  }

  /** `base64.b64decode(s)`: `None` when CPython raises. */
  function LenientDecode(s: string): Option<seq<Byte>> {
    if !IsAscii(s) then None else LenientFrom(s, 0, 0, 0, 0, [])
  }

  /** Two data characters from the start of a group give one byte and leave four bits. */
  lemma LenientTwoData(s: string, i: nat, out: seq<Byte>)
    requires i + 2 <= |s| && IsAlphabet(s[i]) && IsAlphabet(s[i + 1])
    ensures LenientFrom(s, i, 0, 0, 0, out)
      == LenientFrom(s, i + 2, 2, Value(s[i + 1]) % 16, 0, out + [B0(Value(s[i]), Value(s[i + 1]))])
  {
  }

  /** A third data character gives the second byte and leaves two bits. */
  lemma LenientThirdData(s: string, i: nat, left: nat, out: seq<Byte>)
    requires i < |s| && IsAlphabet(s[i]) && left < 16
    ensures LenientFrom(s, i, 2, left, 0, out)
      == LenientFrom(s, i + 1, 3, Value(s[i]) % 4, 0, out + [left * 16 + Value(s[i]) / 4])
  {
  }

  /** A pad after three data characters ends the decoding. */
  lemma LenientPadAfterThree(s: string, i: nat, left: nat, out: seq<Byte>)
    requires i < |s| && s[i] == '=' && left < 4
    ensures LenientFrom(s, i, 3, left, 0, out) == Some(out)
  {
  }

  /** A fourth data character gives the third byte and completes the group. */
  lemma LenientFourthData(s: string, i: nat, left: nat, out: seq<Byte>)
    requires i < |s| && IsAlphabet(s[i]) && left < 4
    ensures LenientFrom(s, i, 3, left, 0, out) == LenientFrom(s, i + 1, 0, 0, 0, out + [left * 64 + Value(s[i])])
  {
  }

  /** Two pads after two data characters end the decoding. */
  lemma LenientTwoPads(s: string, i: nat, x1: Sextet, out: seq<Byte>)
    requires i + 2 <= |s| && s[i] == '=' && s[i + 1] == '='
    ensures LenientFrom(s, i, 2, x1 % 16, 0, out) == Some(out)
  {
  }

  /** The three ways a successful strict decode can begin. */
  lemma DecodeCases(t: string)
    requires |t| > 0 && Decode(t).Some?
    ensures |t| >= 4 && IsAlphabet(t[0]) && IsAlphabet(t[1])
    ensures t[2] == '=' ==> |t| == 4 && t[3] == '=' && Decode(t).value == [B0(Value(t[0]), Value(t[1]))]
    ensures t[2] != '=' && t[3] == '=' ==>
      IsAlphabet(t[2]) && |t| == 4
      && Decode(t).value == [B0(Value(t[0]), Value(t[1])), B1(Value(t[1]), Value(t[2]))]
    ensures t[2] != '=' && t[3] != '=' ==>
      IsQuad(t) && Decode(t[4..]).Some?
      && Decode(t).value == [B0(Value(t[0]), Value(t[1])), B1(Value(t[1]), Value(t[2])), B2(Value(t[2]), Value(t[3]))]
                            + Decode(t[4..]).value
  {
  }

  /** From the start of a group, the lenient machine appends exactly what the strict decoder
      produces for the rest, whenever the strict decoder accepts it. */
  lemma {:induction false} LenientFromStrict(s: string, i: nat, out: seq<Byte>)
    requires i <= |s| && Decode(s[i..]).Some?
    ensures LenientFrom(s, i, 0, 0, 0, out) == Some(out + Decode(s[i..]).value)
    decreases |s| - i
  {
    var t := s[i..];
    if |t| == 0 {
      assert out + [] == out;
    } else {
      DecodeCases(t);
      assert s[i] == t[0] && s[i + 1] == t[1] && s[i + 2] == t[2] && s[i + 3] == t[3];
      var x0, x1 := Value(t[0]), Value(t[1]);
      var o1 := out + [B0(x0, x1)];
      LenientTwoData(s, i, out);
      if t[2] == '=' {
        LenientTwoPads(s, i + 2, x1, o1);
      } else {
        var x2 := Value(t[2]);
        var o2 := o1 + [B1(x1, x2)];
        LenientThirdData(s, i + 2, x1 % 16, o1);
        if t[3] == '=' {
          LenientPadAfterThree(s, i + 3, x2 % 4, o2);
          assert o2 == out + [B0(x0, x1), B1(x1, x2)];
        } else {
          var o3 := o2 + [B2(x2, Value(t[3]))];
          LenientFourthData(s, i + 3, x2 % 4, o2);
          assert s[i + 4..] == t[4..];
          LenientFromStrict(s, i + 4, o3);
          assert o3 + Decode(t[4..]).value == out + Decode(t).value;
        }
      }
    }
  }

  /** Every string the strict decoder accepts, the lenient one decodes to the same bytes. */
  lemma LenientAgreesWithStrict(s: string)
    requires Decode(s).Some?
    ensures LenientDecode(s) == Decode(s)
  {
    DecodeAccepts(s);
    assert IsAscii(s) by {
      forall k | 0 <= k < |s| ensures s[k] as int < 128 {
        assert IsEncodedChar(s[k]);
      }
    }
    assert s[0..] == s;
    LenientFromStrict(s, 0, []);
    assert [] + Decode(s).value == Decode(s).value;
  }
}
