/** Base64 as `Convert.FromBase64String` applies it: the alphabet and padding
    of section 4 of RFC 4648, with the space, tab, carriage-return and
    line-feed characters skipped wherever they appear. Decoding is partial:
    where .NET throws a `FormatException` the model returns `None`. */
module Base64 {
  import opened Wrappers

  type byte = x: int | 0 <= x < 256
  type sextet = x: int | 0 <= x < 64

  /** The padding character of section 3.2 of RFC 4648. */
  const Pad: char := '='

  /** The character for a 6-bit value (Table 1 of RFC 4648). */
  function CharOf(v: sextet): char {
    if v < 26 then ('A' as int + v) as char
    else if v < 52 then ('a' as int + (v - 26)) as char
    else if v < 62 then ('0' as int + (v - 52)) as char
    else if v == 62 then '+'
    else '/'
  }

  /** The 6-bit value of an alphabet character, `None` for any other character. */
  function ValueOf(c: char): Option<sextet> {
    if 'A' <= c <= 'Z' then Some(c as int - 'A' as int)
    else if 'a' <= c <= 'z' then Some(c as int - 'a' as int + 26)
    else if '0' <= c <= '9' then Some(c as int - '0' as int + 52)
    else if c == '+' then Some(62)
    else if c == '/' then Some(63)
    else None
  }

  predicate InAlphabet(c: char) {
    ValueOf(c).Some?
  }

  /** `ValueOf` undoes `CharOf`, and no alphabet character is padding or
      whitespace. */
  lemma ValueOfCharOf(v: sextet)
    ensures ValueOf(CharOf(v)) == Some(v)
    ensures CharOf(v) != Pad && !IsWhitespace(CharOf(v))
  {
  }

  /** Every alphabet character is the character of its own value, so
      `CharOf` and `ValueOf` are inverse bijections. */
  lemma CharOfValueOf(c: char)
    requires InAlphabet(c)
    ensures CharOf(ValueOf(c).value) == c
  {
  }

  /** The characters `Convert.FromBase64String` ignores. */
  predicate IsWhitespace(c: char) {
    c == ' ' || c == '\t' || c == '\r' || c == '\n'
  }

  /** `s` with every ignored whitespace character removed, order kept. */
  function StripWhitespace(s: string): string {
    if s == [] then []
    else if IsWhitespace(s[0]) then StripWhitespace(s[1..])
    else [s[0]] + StripWhitespace(s[1..])
  }

  /** Stripping keeps exactly the characters of `s` that are not whitespace,
      and changes nothing in text that has none. */
  lemma {:induction false} StripWhitespaceSpec(s: string)
    ensures forall i :: 0 <= i < |StripWhitespace(s)| ==> !IsWhitespace(StripWhitespace(s)[i])
    ensures forall c :: c in StripWhitespace(s) <==> c in s && !IsWhitespace(c)
    ensures (forall i :: 0 <= i < |s| ==> !IsWhitespace(s[i])) ==> StripWhitespace(s) == s
  {
    if s != [] {
      StripWhitespaceSpec(s[1..]);
      assert forall c :: c in s <==> c == s[0] || c in s[1..];
    }
  }

  /** Whitespace between two pieces of text is dropped and the pieces are
      stripped independently. */
  lemma {:induction false} StripWhitespaceAppend(a: string, ws: string, b: string)
    requires forall i :: 0 <= i < |ws| ==> IsWhitespace(ws[i])
    ensures StripWhitespace(a + ws + b) == StripWhitespace(a) + StripWhitespace(b)
  {
    if a == [] {
      if ws == [] {
        assert a + ws + b == b;
      } else {
        assert (a + ws + b)[1..] == [] + ws[1..] + b;
        StripWhitespaceAppend([], ws[1..], b);
      }
    } else {
      assert (a + ws + b)[1..] == a[1..] + ws + b;
      StripWhitespaceAppend(a[1..], ws, b);
    }
  }

  /** Decoding does not see whitespace: inserting some anywhere changes
      nothing. */
  lemma DecodeIgnoresWhitespace(a: string, ws: string, b: string)
    requires forall i :: 0 <= i < |ws| ==> IsWhitespace(ws[i])
    ensures Decode(a + ws + b) == Decode(a + b)
  {
    StripWhitespaceAppend(a, ws, b);
    StripWhitespaceAppend(a, [], b);
    assert a + [] + b == a + b;
  }

  /* ---------------- encoding ---------------- */

  /** Three bytes (24 bits) as four characters (section 4 of RFC 4648). */
  function EncodeTriple(b0: byte, b1: byte, b2: byte): string {
    [CharOf(b0 / 4), CharOf((b0 % 4) * 16 + b1 / 16), CharOf((b1 % 16) * 4 + b2 / 64), CharOf(b2 % 64)]
  }

  /** Encoding with padding; the inverse of `Decode` (see `DecodeEncode`). */
  function Encode(b: seq<byte>): string
    decreases |b|
  {
    if |b| == 0 then []
    else if |b| == 1 then [CharOf(b[0] / 4), CharOf((b[0] % 4) * 16), Pad, Pad]
    else if |b| == 2 then [CharOf(b[0] / 4), CharOf((b[0] % 4) * 16 + b[1] / 16), CharOf((b[1] % 16) * 4), Pad]
    else EncodeTriple(b[0], b[1], b[2]) + Encode(b[3..])
  }

  /** Encoding works on independent three-byte groups: input split at a
      multiple of three encodes as the two encodings side by side. */
  lemma {:induction false} EncodeAppend(a: seq<byte>, b: seq<byte>)
    requires |a| % 3 == 0
    ensures Encode(a + b) == Encode(a) + Encode(b)
    decreases |a|
  {
    if |a| == 0 {
      assert a + b == b;
    } else {
      var ab := a + b;
      assert ab[0] == a[0] && ab[1] == a[1] && ab[2] == a[2];
      assert ab[3..] == a[3..] + b;
      EncodeAppend(a[3..], b);
      if |ab| == 3 {
        assert b == [] && a[3..] == [];
      }
    }
  }

  /** Every started group of three bytes becomes four characters. */
  lemma {:induction false} EncodeLength(b: seq<byte>)
    ensures |Encode(b)| == 4 * ((|b| + 2) / 3)
    decreases |b|
  {
    if |b| >= 3 {
      EncodeLength(b[3..]);
      assert (|b| + 2) / 3 == (|b[3..]| + 2) / 3 + 1;
    }
  }

  /* ---------------- decoding ---------------- */

  /** The first byte of a quantum from its first two sextets. */
  function Byte0(s0: sextet, s1: sextet): byte { s0 * 4 + s1 / 16 }
  /** The second byte of a quantum from its second and third sextets. */
  function Byte1(s1: sextet, s2: sextet): byte { (s1 % 16) * 16 + s2 / 4 }
  /** The third byte of a quantum from its last two sextets. */
  function Byte2(s2: sextet, s3: sextet): byte { (s2 % 4) * 64 + s3 }

  /** A quantum of four alphabet characters, which is the only form allowed
      before the last quantum. */
  function DecodeFull(c0: char, c1: char, c2: char, c3: char): Option<seq<byte>> {
    var v0, v1, v2, v3 := ValueOf(c0), ValueOf(c1), ValueOf(c2), ValueOf(c3);
    if v0.Some? && v1.Some? && v2.Some? && v3.Some? then
      Some([Byte0(v0.value, v1.value), Byte1(v1.value, v2.value), Byte2(v2.value, v3.value)])
    else None
  }

  /** The last quantum: four alphabet characters, or three and one `=`, or
      two and `==`. The unused low bits before the padding are not checked. */
  function DecodeFinal(c0: char, c1: char, c2: char, c3: char): Option<seq<byte>> {
    var v0, v1, v2 := ValueOf(c0), ValueOf(c1), ValueOf(c2);
    if c3 != Pad then DecodeFull(c0, c1, c2, c3)
    else if c2 != Pad then
      if v0.Some? && v1.Some? && v2.Some? then Some([Byte0(v0.value, v1.value), Byte1(v1.value, v2.value)])
      else None
    else if v0.Some? && v1.Some? then Some([Byte0(v0.value, v1.value)])
    else None
  }

  /** Decoding of whitespace-free text, four characters at a time; `Decode`
      only calls it on text whose length is a multiple of four. */
  function DecodeQuanta(s: string): Option<seq<byte>>
    decreases |s|
  {
    if |s| == 0 then Some([])
    else if |s| < 4 then None
    else if |s| == 4 then DecodeFinal(s[0], s[1], s[2], s[3])
    else
      var head, tail := DecodeFull(s[0], s[1], s[2], s[3]), DecodeQuanta(s[4..]);
      if head.Some? && tail.Some? then Some(head.value + tail.value) else None
  }

  /** Only alphabet and padding characters survive decoding. */
  lemma {:induction false} DecodeQuantaAlphabet(s: string)
    ensures DecodeQuanta(s).Some? ==> forall c :: c in s ==> InAlphabet(c) || c == Pad
    decreases |s|
  {
    if |s| > 4 {
      DecodeQuantaAlphabet(s[4..]);
      assert forall c :: c in s ==> c in s[..4] || c in s[4..];
    }
  }

  /** Encoding produces only alphabet and padding characters. */
  lemma {:induction false} EncodeAlphabet(b: seq<byte>)
    ensures forall c :: c in Encode(b) ==> InAlphabet(c) || c == Pad
    decreases |b|
  {
    if |b| >= 3 {
      EncodeAlphabet(b[3..]);
    }
  }

  /** `Convert.FromBase64String`: `None` where .NET throws. */
  function Decode(s: string): (r: Option<seq<byte>>)
    ensures r.Some? ==> forall c :: c in s ==> InAlphabet(c) || c == Pad || IsWhitespace(c)
    ensures |StripWhitespace(s)| % 4 != 0 ==> r.None?
  {
    var t := StripWhitespace(s);
    if |t| % 4 != 0 then None
    else
      StripWhitespaceSpec(s);
      DecodeQuantaAlphabet(t);
      DecodeQuanta(t)
  }

  /** A character that is neither in the alphabet, nor padding, nor skipped
      whitespace makes decoding fail. */
  lemma DecodeRejectsForeignChar(s: string, i: nat)
    requires i < |s| && !InAlphabet(s[i]) && s[i] != Pad && !IsWhitespace(s[i])
    ensures Decode(s) == None
  {
    assert s[i] in s;
  }

  /** Text split anywhere strips as its two pieces stripped on their own. */
  lemma StripWhitespaceConcat(a: string, b: string)
    ensures StripWhitespace(a + b) == StripWhitespace(a) + StripWhitespace(b)
  {
    StripWhitespaceAppend(a, [], b);
    assert a + [] + b == a + b;
  }

  /** A character that is not whitespace keeps its place relative to the
      other such characters: two of them, in order, are found in the same
      order in the stripped text, each after as many characters as the
      stripped text before it holds. */
  lemma StripWhitespaceOrder(s: string, i: nat, j: nat)
    requires i < j < |s| && !IsWhitespace(s[i]) && !IsWhitespace(s[j])
    ensures var t, ki, kj := StripWhitespace(s), |StripWhitespace(s[..i])|, |StripWhitespace(s[..j])|;
            ki < kj < |t| && t[ki] == s[i] && t[kj] == s[j]
  {
    StripWhitespaceConcat(s[..i], s[i..]);
    assert s[..i] + s[i..] == s;
    StripWhitespaceConcat(s[..j], s[j..]);
    assert s[..j] + s[j..] == s;
    StripWhitespaceConcat(s[..i], s[i..j]);
    assert s[..i] + s[i..j] == s[..j];
    assert s[i..][0] == s[i] && s[j..][0] == s[j] && s[i..j][0] == s[i];
  }

  /** Padding is only allowed at the very end: a quantum sequence with an
      `=` followed later by any other character does not decode. */
  lemma {:induction false} DecodeQuantaPadLast(t: string, i: nat, j: nat)
    requires i < j < |t| && t[i] == Pad && t[j] != Pad
    ensures DecodeQuanta(t) == None
    decreases |t|
  {
    if |t| > 4 && i >= 4 {
      DecodeQuantaPadLast(t[4..], i - 4, j - 4);
    }
  }

  /** A quantum sequence whose third character from the end is `=` carries
      three padding characters at the end and does not decode. */
  lemma {:induction false} DecodeQuantaThreePads(t: string)
    requires |t| >= 3 && t[|t| - 3] == Pad
    ensures DecodeQuanta(t) == None
    decreases |t|
  {
    if |t| - 3 >= 4 {
      assert t[4..][|t[4..]| - 3] == t[|t| - 3];
      DecodeQuantaThreePads(t[4..]);
    }
  }

  /** An `=` followed, after any whitespace, by a character other than `=`
      makes decoding fail: padding may only end the text. */
  lemma DecodeRejectsDataAfterPad(s: string, i: nat, j: nat)
    requires i < j < |s| && s[i] == Pad && s[j] != Pad && !IsWhitespace(s[j])
    ensures Decode(s) == None
  {
    StripWhitespaceOrder(s, i, j);
    var t := StripWhitespace(s);
    if |t| % 4 == 0 {
      DecodeQuantaPadLast(t, |StripWhitespace(s[..i])|, |StripWhitespace(s[..j])|);
    }
  }

  /** Three or more `=` anywhere in the text make decoding fail. */
  lemma DecodeRejectsThreePads(s: string, i: nat, j: nat, k: nat)
    requires i < j < k < |s| && s[i] == Pad && s[j] == Pad && s[k] == Pad
    ensures Decode(s) == None
  {
    StripWhitespaceOrder(s, i, j);
    StripWhitespaceOrder(s, j, k);
    var t := StripWhitespace(s);
    var ki, kk := |StripWhitespace(s[..i])|, |StripWhitespace(s[..k])|;
    if |t| % 4 == 0 {
      if exists m :: ki < m < |t| && t[m] != Pad {
        var m :| ki < m < |t| && t[m] != Pad;
        DecodeQuantaPadLast(t, ki, m);
      } else {
        assert t[|t| - 3] == Pad;
        DecodeQuantaThreePads(t);
      }
    }
  }

  /* ---------------- round trip ---------------- */

  /** The bytes of a quantum are recovered from the sextets `EncodeTriple`
      cuts them into. */
  lemma SextetsToBytes(b0: byte, b1: byte, b2: byte)
    ensures Byte0(b0 / 4, (b0 % 4) * 16 + b1 / 16) == b0
    ensures Byte1((b0 % 4) * 16 + b1 / 16, (b1 % 16) * 4 + b2 / 64) == b1
    ensures Byte2((b1 % 16) * 4 + b2 / 64, b2 % 64) == b2
  {
    var s1 := (b0 % 4) * 16 + b1 / 16;
    var s2 := (b1 % 16) * 4 + b2 / 64;
    assert s1 / 16 == b0 % 4 && s1 % 16 == b1 / 16;
    assert s2 / 4 == b1 % 16 && s2 % 4 == b2 / 64;
  }

  lemma TripleRoundTrip(b0: byte, b1: byte, b2: byte)
    ensures var q := EncodeTriple(b0, b1, b2);
            DecodeFull(q[0], q[1], q[2], q[3]) == Some([b0, b1, b2])
  {
    ValueOfCharOf(b0 / 4);
    ValueOfCharOf((b0 % 4) * 16 + b1 / 16);
    ValueOfCharOf((b1 % 16) * 4 + b2 / 64);
    ValueOfCharOf(b2 % 64);
    SextetsToBytes(b0, b1, b2);
  }

  lemma PairRoundTrip(b0: byte, b1: byte)
    ensures var q := Encode([b0, b1]);
            DecodeFinal(q[0], q[1], q[2], q[3]) == Some([b0, b1])
  {
    ValueOfCharOf(b0 / 4);
    ValueOfCharOf((b0 % 4) * 16 + b1 / 16);
    ValueOfCharOf((b1 % 16) * 4);
    SextetsToBytes(b0, b1, 0);
  }

  lemma SingleRoundTrip(b0: byte)
    ensures var q := Encode([b0]);
            DecodeFinal(q[0], q[1], q[2], q[3]) == Some([b0])
  {
    ValueOfCharOf(b0 / 4);
    ValueOfCharOf((b0 % 4) * 16);
    SextetsToBytes(b0, 0, 0);
  }

  /** One step of the block-by-block decoding: a full leading quantum is
      decoded and the rest follows it. */
  lemma DecodeQuantaStep(q: string, rest: string, bytes: seq<byte>, tail: seq<byte>)
    requires |q| == 4 && |rest| >= 4
    requires DecodeFull(q[0], q[1], q[2], q[3]) == Some(bytes)
    requires DecodeQuanta(rest) == Some(tail)
    ensures DecodeQuanta(q + rest) == Some(bytes + tail)
  {
    var s := q + rest;
    assert s[0] == q[0] && s[1] == q[1] && s[2] == q[2] && s[3] == q[3];
    assert s[4..] == rest;
  }

  /** The last quantum on its own, whatever its padding. */
  lemma DecodeQuantaLast(q: string, bytes: seq<byte>)
    requires |q| == 4 && DecodeFinal(q[0], q[1], q[2], q[3]) == Some(bytes)
    ensures DecodeQuanta(q) == Some(bytes)
  {
  }

  /** Encoded text is decoded block by block back to the bytes it came from. */
  lemma {:induction false} DecodeQuantaEncode(b: seq<byte>)
    ensures DecodeQuanta(Encode(b)) == Some(b)
    decreases |b|
  {
    if |b| == 0 {
    } else if |b| == 1 {
      assert b == [b[0]];
      SingleRoundTrip(b[0]);
      DecodeQuantaLast(Encode(b), b);
    } else if |b| == 2 {
      assert b == [b[0], b[1]];
      PairRoundTrip(b[0], b[1]);
      DecodeQuantaLast(Encode(b), b);
    } else {
      DecodeQuantaEncode(b[3..]);
      DecodeQuantaEncodeCons(b);
    }
  }

  /** The inductive step of `DecodeQuantaEncode`: from the round trip of
      everything after the first three bytes to the round trip of all of them. */
  lemma DecodeQuantaEncodeCons(b: seq<byte>)
    requires |b| >= 3
    requires DecodeQuanta(Encode(b[3..])) == Some(b[3..])
    ensures DecodeQuanta(Encode(b)) == Some(b)
  {
    var head := [b[0], b[1], b[2]];
    var q := EncodeTriple(b[0], b[1], b[2]);
    TripleRoundTrip(b[0], b[1], b[2]);
    EncodeCons(b);
    if |b| == 3 {
      assert b == head;
      DecodeQuantaLast(q, head);
    } else {
      var tail := b[3..];
      var rest := Encode(tail);
      EncodeLength(tail);
      DecodeQuantaStep(q, rest, head, tail);
      SplitHead(b);
      assert Encode(b) == q + rest;
    }
  }

  lemma SplitHead(b: seq<byte>)
    requires |b| >= 3
    ensures b == [b[0], b[1], b[2]] + b[3..]
  {
  }

  /** Encoding of at least three bytes starts with the quantum of the first three. */
  lemma EncodeCons(b: seq<byte>)
    requires |b| >= 3
    ensures Encode(b) == EncodeTriple(b[0], b[1], b[2]) + Encode(b[3..])
    ensures |b| == 3 ==> Encode(b) == EncodeTriple(b[0], b[1], b[2])
  {
  }

  lemma MultipleOfFour(n: nat, k: nat)
    requires n == 4 * k
    ensures n % 4 == 0
  {
  }

  /** Round trip of section 4 of RFC 4648: decoding an encoding gives the
      original bytes back. */
  lemma DecodeEncode(b: seq<byte>)
    ensures Decode(Encode(b)) == Some(b)
  {
    var s := Encode(b);
    EncodeAlphabet(b);
    assert forall i :: 0 <= i < |s| ==> !IsWhitespace(s[i]) by {
      forall i | 0 <= i < |s| ensures !IsWhitespace(s[i]) {
        assert s[i] in s;
      }
    }
    StripWhitespaceSpec(s);
    assert StripWhitespace(s) == s;
    EncodeLength(b);
    MultipleOfFour(|s|, (|b| + 2) / 3);
    DecodeQuantaEncode(b);
  }
}
