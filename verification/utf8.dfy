/** UTF-8 well-formedness as defined by the grammar of RFC 3629, section 4,
    which is what Rust's `str::from_utf8` accepts. Header values are kept
    only when their bytes pass this check. */
module Utf8 {
  import opened Bounded

  /** UTF8-tail = %x80-BF */
  predicate Tail(b: byte)
  {
    0x80 <= b <= 0xBF
  }

  /** One UTF8-char of the grammar: 1 to 4 bytes, no overlong forms, no
      surrogates, nothing above U+10FFFF. */
  predicate WellFormedChar(c: seq<byte>)
  {
    if |c| == 1 then c[0] <= 0x7F
    else if |c| == 2 then 0xC2 <= c[0] <= 0xDF && Tail(c[1])
    else if |c| == 3 then
      && (|| (c[0] == 0xE0 && 0xA0 <= c[1] <= 0xBF)
          || (0xE1 <= c[0] <= 0xEC && Tail(c[1]))
          || (c[0] == 0xED && 0x80 <= c[1] <= 0x9F)
          || (0xEE <= c[0] <= 0xEF && Tail(c[1])))
      && Tail(c[2])
    else if |c| == 4 then
      && (|| (c[0] == 0xF0 && 0x90 <= c[1] <= 0xBF)
          || (0xF1 <= c[0] <= 0xF3 && Tail(c[1]))
          || (c[0] == 0xF4 && 0x80 <= c[1] <= 0x8F))
      && Tail(c[2]) && Tail(c[3])
    else false
  }

  /** UTF8-octets = *( UTF8-char ) */
  predicate Valid(s: seq<byte>)
    decreases |s|
  {
    |s| == 0 || exists k | 1 <= k <= 4 && k <= |s| :: WellFormedChar(s[..k]) && Valid(s[k..])
  }

  /** Width of the character a lead byte starts, 0 when it can start none
      (Rust's `utf8_char_width` table). */
  function LeadWidth(b: byte): nat
  {
    if b <= 0x7F then 1
    else if 0xC2 <= b <= 0xDF then 2
    else if 0xE0 <= b <= 0xEF then 3
    else if 0xF0 <= b <= 0xF4 then 4
    else 0
  }

  /** The lead byte alone fixes how long a well-formed character is. */
  lemma WidthFromLead(c: seq<byte>)
    requires WellFormedChar(c)
    ensures |c| == LeadWidth(c[0])
  {
  }

  /** A non-empty byte string is valid iff the character its lead byte
      announces is well formed and the rest is valid. */
  lemma ValidUnfold(s: seq<byte>)
    requires |s| > 0
    ensures Valid(s) <==>
      (var w := LeadWidth(s[0]);
       1 <= w <= |s| && WellFormedChar(s[..w]) && Valid(s[w..]))
  {
    if Valid(s) {
      var k :| 1 <= k <= 4 && k <= |s| && WellFormedChar(s[..k]) && Valid(s[k..]);
      WidthFromLead(s[..k]);
    }
  }

  /** The validation loop of `from_utf8`: step over one character at a
      time, checking the byte ranges its lead byte allows. */
  method CheckUtf8(s: seq<byte>) returns (ok: bool)
    ensures ok <==> Valid(s)
  {
    var i := 0;
    while i < |s|
      invariant 0 <= i <= |s|
      invariant Valid(s) <==> Valid(s[i..])
    {
      var w := LeadWidth(s[i]);
      if w == 0 || i + w > |s| {
        ValidUnfold(s[i..]);
        return false;
      }
      var good := CheckChar(s, i, w);
      StepOver(s, i, w);
      if !good {
        return false;
      }
      i := i + w;
    }
    return true;
  }

  /** Validity of a suffix, one character further on. */
  lemma StepOver(s: seq<byte>, i: nat, w: nat)
    requires i < |s| && w == LeadWidth(s[i]) && 1 <= w && i + w <= |s|
    ensures Valid(s[i..]) <==> WellFormedChar(s[i..i + w]) && Valid(s[i + w..])
  {
    ValidUnfold(s[i..]);
    assert s[i..][..w] == s[i..i + w];
    assert s[i..][w..] == s[i + w..];
  }

  /** The byte-range checks for the character starting at `i`, by width. */
  method CheckChar(s: seq<byte>, i: nat, w: nat) returns (good: bool)
    requires i < |s| && w == LeadWidth(s[i]) && 1 <= w && i + w <= |s|
    ensures good <==> WellFormedChar(s[i..i + w])
  {
    var first := s[i];
    if w == 1 {
      good := true;
    } else if w == 2 {
      good := Tail(s[i + 1]);
    } else if w == 3 {
      var second := s[i + 1];
      good := && (|| (first == 0xE0 && 0xA0 <= second <= 0xBF)
                  || (0xE1 <= first <= 0xEC && Tail(second))
                  || (first == 0xED && 0x80 <= second <= 0x9F)
                  || (0xEE <= first <= 0xEF && Tail(second)))
              && Tail(s[i + 2]);
    } else {
      var second := s[i + 1];
      good := && (|| (first == 0xF0 && 0x90 <= second <= 0xBF)
                  || (0xF1 <= first <= 0xF3 && Tail(second))
                  || (first == 0xF4 && 0x80 <= second <= 0x8F))
              && Tail(s[i + 2]) && Tail(s[i + 3]);
    }
  }

  // ---------------------------------------------------------------------
  // The grammar describes exactly the encodings of Unicode scalar values
  // (RFC 3629, section 3).

  predicate IsScalar(cp: int)
  {
    0 <= cp <= 0x10FFFF && !(0xD800 <= cp <= 0xDFFF)
  }

  /** The one-to-four byte encoding of a scalar value (RFC 3629, section 3). */
  function EncodeChar(cp: int): (c: seq<byte>)
    requires IsScalar(cp)
    ensures 1 <= |c| <= 4
  {
    if cp < 0x80 then [cp as byte]
    else if cp < 0x800 then [(0xC0 + cp / 0x40) as byte, (0x80 + cp % 0x40) as byte]
    else if cp < 0x1_0000 then
      [(0xE0 + cp / 0x1000) as byte, (0x80 + cp / 0x40 % 0x40) as byte, (0x80 + cp % 0x40) as byte]
    else
      [(0xF0 + cp / 0x4_0000) as byte, (0x80 + cp / 0x1000 % 0x40) as byte,
       (0x80 + cp / 0x40 % 0x40) as byte, (0x80 + cp % 0x40) as byte]
  }

  /** Every scalar value encodes to a character the grammar accepts. */
  lemma EncodeWellFormed(cp: int)
    requires IsScalar(cp)
    ensures WellFormedChar(EncodeChar(cp))
  {
    if cp < 0x800 {
    } else if cp < 0x1_0000 {
      EncodeWellFormed3(cp);
    } else {
      EncodeWellFormed4(cp);
    }
  }

  lemma EncodeWellFormed3(cp: int)
    requires IsScalar(cp) && 0x800 <= cp < 0x1_0000
    ensures WellFormedChar(EncodeChar(cp))
  {
    SplitDigits(cp);
  }

  lemma EncodeWellFormed4(cp: int)
    requires IsScalar(cp) && 0x1_0000 <= cp
    ensures WellFormedChar(EncodeChar(cp))
  {
    SplitDigits(cp);
    SplitDigits(cp / 0x40);
  }

  function DecodeChar(c: seq<byte>): (cp: int)
    requires WellFormedChar(c)
    ensures IsScalar(cp)
  {
    if |c| == 1 then c[0] as int
    else if |c| == 2 then (c[0] as int - 0xC0) * 0x40 + (c[1] as int - 0x80)
    else if |c| == 3 then
      (c[0] as int - 0xE0) * 0x1000 + (c[1] as int - 0x80) * 0x40 + (c[2] as int - 0x80)
    else
      (c[0] as int - 0xF0) * 0x4_0000 + (c[1] as int - 0x80) * 0x1000
        + (c[2] as int - 0x80) * 0x40 + (c[3] as int - 0x80)
  }

  lemma DecodeEncode(cp: int)
    requires IsScalar(cp)
    ensures WellFormedChar(EncodeChar(cp)) && DecodeChar(EncodeChar(cp)) == cp
  {
    EncodeWellFormed(cp);
    if cp < 0x80 {
    } else if cp < 0x800 {
      assert cp == cp / 0x40 * 0x40 + cp % 0x40;
    } else if cp < 0x1_0000 {
      SplitDigits(cp);
    } else {
      SplitDigits(cp);
      SplitDigits(cp / 0x40);
      assert cp / 0x40 / 0x40 / 0x40 == cp / 0x4_0000;
    }
  }

  /** cp == (cp / 4096) * 4096 + (cp / 64 % 64) * 64 + cp % 64 */
  lemma SplitDigits(cp: nat)
    ensures cp == cp / 0x1000 * 0x1000 + cp / 0x40 % 0x40 * 0x40 + cp % 0x40
    ensures cp / 0x40 / 0x40 == cp / 0x1000
  {
    var hi := cp / 0x40;
    assert cp == hi * 0x40 + cp % 0x40;
    assert hi == hi / 0x40 * 0x40 + hi % 0x40;
    assert hi / 0x40 == cp / 0x1000;
  }

  /** Dividing x * 64 + y by 64, for a digit y. */
  lemma DivDigit(x: nat, y: nat)
    requires y < 0x40
    ensures (x * 0x40 + y) / 0x40 == x && (x * 0x40 + y) % 0x40 == y
  {
  }

  lemma EncodeDecode(c: seq<byte>)
    requires WellFormedChar(c)
    ensures EncodeChar(DecodeChar(c)) == c
  {
    var cp := DecodeChar(c);
    if |c| == 2 {
      DivDigit(c[0] as int - 0xC0, c[1] as int - 0x80);
    } else if |c| == 3 {
      EncodeDecode3(c);
    } else if |c| == 4 {
      EncodeDecode4(c);
    }
  }

  lemma EncodeDecode3(c: seq<byte>)
    requires WellFormedChar(c) && |c| == 3
    ensures EncodeChar(DecodeChar(c)) == c
  {
    var x, y, z := c[0] as int - 0xE0, c[1] as int - 0x80, c[2] as int - 0x80;
    var cp := DecodeChar(c);
    assert cp == (x * 0x40 + y) * 0x40 + z;
    DivDigit(x * 0x40 + y, z);
    DivDigit(x, y);
    SplitDigits(cp);
  }

  lemma EncodeDecode4(c: seq<byte>)
    requires WellFormedChar(c) && |c| == 4
    ensures EncodeChar(DecodeChar(c)) == c
  {
    var x, y, z, t := c[0] as int - 0xF0, c[1] as int - 0x80, c[2] as int - 0x80, c[3] as int - 0x80;
    var cp := DecodeChar(c);
    assert cp == ((x * 0x40 + y) * 0x40 + z) * 0x40 + t;
    DivDigit((x * 0x40 + y) * 0x40 + z, t);
    DivDigit(x * 0x40 + y, z);
    DivDigit(x, y);
    DivChain(cp);
    assert cp / 0x4_0000 == x && cp / 0x1000 % 0x40 == y;
    assert cp / 0x40 % 0x40 == z && cp % 0x40 == t;
    assert 0x1_0000 <= cp;
  }

  /** Dividing by 64 two or three times is dividing by 4096 or 262144. */
  lemma DivChain(cp: nat)
    ensures cp / 0x40 / 0x40 == cp / 0x1000
    ensures cp / 0x40 / 0x40 / 0x40 == cp / 0x4_0000
  {
    SplitDigits(cp);
    SplitDigits(cp / 0x40);
  }

  /** The encoding of a string of scalar values. */
  function Encode(cps: seq<int>): (s: seq<byte>)
    requires forall i | 0 <= i < |cps| :: IsScalar(cps[i])
    ensures Valid(s)
  {
    if |cps| == 0 then []
    else
      var c := EncodeChar(cps[0]);
      EncodeWellFormed(cps[0]);
      var rest := Encode(cps[1..]);
      assert (c + rest)[..|c|] == c;
      assert (c + rest)[|c|..] == rest;
      c + rest
  }

  /** Every valid byte string is the encoding of the scalar values it
      decodes to: `Valid` accepts encodings and nothing else. */
  function Decode(s: seq<byte>): (cps: seq<int>)
    requires Valid(s)
    ensures forall i | 0 <= i < |cps| :: IsScalar(cps[i])
    ensures Encode(cps) == s
    decreases |s|
  {
    if |s| == 0 then []
    else
      ValidUnfold(s);
      var w := LeadWidth(s[0]);
      var c := s[..w];
      var cp := DecodeChar(c);
      EncodeDecode(c);
      var rest := Decode(s[w..]);
      EncodeCons(cp, rest);
      Recompose(s, w);
      [cp] + rest
  }

  lemma Recompose(s: seq<byte>, w: nat)
    requires w <= |s|
    ensures s[..w] + s[w..] == s
  {
  }

  lemma EncodeCons(cp: int, rest: seq<int>)
    requires IsScalar(cp)
    requires forall i | 0 <= i < |rest| :: IsScalar(rest[i])
    ensures forall i | 0 <= i < |[cp] + rest| :: IsScalar(([cp] + rest)[i])
    ensures Encode([cp] + rest) == EncodeChar(cp) + Encode(rest)
  {
    assert ([cp] + rest)[1..] == rest;
  }
}
