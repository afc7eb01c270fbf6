/**
 * Base64 as in section 4 of RFC 4648: the encoder (`base64.b64encode`, which
 * the adapter applies to response bodies) and CPython's decoder
 * (`base64.b64decode` without `validate`, that is `binascii.a2b_base64` in
 * its non-strict mode), which skips characters outside the alphabet and
 * stops at the first complete padding.
 */
module Base64 {
  import opened Wrappers
  import opened Text

  const Pad: byte := 61  // '='

  /** The alphabet of section 4 of RFC 4648: the character for a 6-bit value. */
  function Letter(v: nat): (c: byte)
    requires v < 64
    ensures c != Pad
  {
    if v < 26 then 65 + v        // 'A'..'Z'
    else if v < 52 then 71 + v   // 'a'..'z'
    else if v < 62 then v - 4    // '0'..'9'
    else if v == 62 then 43      // '+'
    else 47                      // '/'
  }

  /** The 6-bit value of an alphabet character, 64 for any other byte. */
  function Sextet(c: byte): (v: nat)
    ensures v <= 64
  {
    if 65 <= c <= 90 then c - 65
    else if 97 <= c <= 122 then c - 71
    else if 48 <= c <= 57 then c + 4
    else if c == 43 then 62
    else if c == 47 then 63
    else 64
  }

  lemma SextetOfLetter(v: nat)
    requires v < 64
    ensures Sextet(Letter(v)) == v
  {
  }

  /** `base64.b64encode`: every three bytes become four characters, the last group padded with '='. */
  function Encode(b: seq<byte>): (r: seq<byte>)
    ensures |r| == 4 * ((|b| + 2) / 3)
  {
    if |b| == 0 then []
    else if |b| == 1 then
      [Letter(b[0] / 4), Letter((b[0] % 4) * 16), Pad, Pad]
    else if |b| == 2 then
      [Letter(b[0] / 4), Letter((b[0] % 4) * 16 + b[1] / 16), Letter((b[1] % 16) * 4), Pad]
    else
      [Letter(b[0] / 4), Letter((b[0] % 4) * 16 + b[1] / 16), Letter((b[1] % 16) * 4 + b[2] / 64), Letter(b[2] % 64)]
      + Encode(b[3..])
  }

  /** What the decoder carries between input characters: a 6-bit value may be
      pending (`left`) until the next character completes a byte. */
  ghost predicate Carry(quad: nat, left: nat) {
    match quad
    case 0 => left == 0
    case 1 => left < 64
    case 2 => left < 16
    case 3 => left < 4
    case _ => false
  }

  /**
   * The decoding loop of `binascii.a2b_base64` in non-strict mode. `quad`
   * counts the data characters of the current group, `pads` the '=' seen
   * since the last data character once two data characters are in; `None`
   * stands for `binascii.Error` (the input ends inside a group).
   */
  function Run(data: seq<byte>, quad: nat, left: nat, pads: nat, out: seq<byte>): Option<seq<byte>>
    requires Carry(quad, left)
    decreases |data|
  {
    if data == [] then
      if quad == 0 then Some(out) else None
    else if data[0] == Pad then
      if quad >= 2 && quad + pads + 1 >= 4 then Some(out)
      else Run(data[1..], quad, left, if quad >= 2 then pads + 1 else pads, out)
    else
      var v := Sextet(data[0]);
      if v == 64 then Run(data[1..], quad, left, pads, out)
      else if quad == 0 then Run(data[1..], 1, v, 0, out)
      else if quad == 1 then Run(data[1..], 2, v % 16, 0, out + [left * 4 + v / 16])
      else if quad == 2 then Run(data[1..], 3, v % 4, 0, out + [left * 16 + v / 4])
      else Run(data[1..], 0, 0, 0, out + [left * 64 + v])
  }

  /** `base64.b64decode(data)`; `None` where it raises. */
  function Decode(data: seq<byte>): Option<seq<byte>> {
    Run(data, 0, 0, 0, [])
  }

  lemma SplitThree(x: byte, y: byte, z: byte)
    ensures ((x % 4) * 16 + y / 16) / 16 == x % 4 && ((x % 4) * 16 + y / 16) % 16 == y / 16
    ensures ((y % 16) * 4 + z / 64) / 4 == y % 16 && ((y % 16) * 4 + z / 64) % 4 == z / 64
    ensures (x / 4) * 4 + x % 4 == x && (y / 16) * 16 + y % 16 == y && (z / 64) * 64 + z % 64 == z
  {
  }

  /** Decoding what `Encode` produced, from a group boundary, appends exactly the encoded bytes. */
  lemma {:induction false} RunEncode(b: seq<byte>, out: seq<byte>)
    ensures Run(Encode(b), 0, 0, 0, out) == Some(out + b)
  {
    if |b| == 0 {
      assert out + b == out;
    } else if |b| == 1 {
      RunOne(b[0], Encode(b), out);
      assert b == [b[0]];
    } else if |b| == 2 {
      RunTwo(b[0], b[1], Encode(b), out);
      assert b == [b[0], b[1]];
    } else {
      var rest := b[3..];
      RunThree(b[0], b[1], b[2], Encode(b), Encode(rest), out);
      RunEncode(rest, out + [b[0], b[1], b[2]]);
      assert (out + [b[0], b[1], b[2]]) + rest == out + b by {
        assert b == [b[0], b[1], b[2]] + rest;
      }
    }
  }

  /** A final group holding one byte: two characters and two '='. */
  lemma RunOne(x: byte, e: seq<byte>, out: seq<byte>)
    requires e == [Letter(x / 4), Letter((x % 4) * 16), Pad, Pad]
    ensures Run(e, 0, 0, 0, out) == Some(out + [x])
  {
    SplitThree(x, 0, 0);
    SextetOfLetter(x / 4);
    SextetOfLetter((x % 4) * 16);
    assert Run(e, 0, 0, 0, out) == Run(e[1..], 1, x / 4, 0, out);
    assert Run(e[1..], 1, x / 4, 0, out) == Run(e[2..], 2, 0, 0, out + [x]);
    assert Run(e[2..], 2, 0, 0, out + [x]) == Run(e[3..], 2, 0, 1, out + [x]);
    assert e[3..] == [Pad];
  }

  /** A final group holding two bytes: three characters and one '='. */
  lemma RunTwo(x: byte, y: byte, e: seq<byte>, out: seq<byte>)
    requires e == [Letter(x / 4), Letter((x % 4) * 16 + y / 16), Letter((y % 16) * 4), Pad]
    ensures Run(e, 0, 0, 0, out) == Some(out + [x, y])
  {
    SplitThree(x, y, 0);
    SextetOfLetter(x / 4);
    SextetOfLetter((x % 4) * 16 + y / 16);
    SextetOfLetter((y % 16) * 4);
    assert Run(e, 0, 0, 0, out) == Run(e[1..], 1, x / 4, 0, out);
    assert Run(e[1..], 1, x / 4, 0, out) == Run(e[2..], 2, y / 16, 0, out + [x]);
    assert Run(e[2..], 2, y / 16, 0, out + [x]) == Run(e[3..], 3, 0, 0, out + [x] + [y]);
    assert out + [x] + [y] == out + [x, y];
  }

  /** A full group of three bytes: four characters, then the rest of the encoding. */
  lemma RunThree(x: byte, y: byte, z: byte, e: seq<byte>, tail: seq<byte>, out: seq<byte>)
    requires e == [Letter(x / 4), Letter((x % 4) * 16 + y / 16), Letter((y % 16) * 4 + z / 64), Letter(z % 64)] + tail
    ensures Run(e, 0, 0, 0, out) == Run(tail, 0, 0, 0, out + [x, y, z])
  {
    SplitThree(x, y, z);
    SextetOfLetter(x / 4);
    SextetOfLetter((x % 4) * 16 + y / 16);
    SextetOfLetter((y % 16) * 4 + z / 64);
    SextetOfLetter(z % 64);
    assert e[4..] == tail;
    assert Run(e, 0, 0, 0, out) == Run(e[1..], 1, x / 4, 0, out);
    assert Run(e[1..], 1, x / 4, 0, out) == Run(e[2..], 2, y / 16, 0, out + [x]);
    assert Run(e[2..], 2, y / 16, 0, out + [x]) == Run(e[3..], 3, z / 64, 0, out + [x] + [y]);
    assert Run(e[3..], 3, z / 64, 0, out + [x] + [y]) == Run(e[4..], 0, 0, 0, out + [x] + [y] + [z]);
    assert out + [x] + [y] + [z] == out + [x, y, z];
  }

  /** Round trip: `b64decode(b64encode(b)) == b`. */
  lemma DecodeEncode(b: seq<byte>)
    ensures Decode(Encode(b)) == Some(b)
  {
    RunEncode(b, []);
    assert [] + b == b;
  }

  /** Every character `Encode` produces is ASCII (so the text form and the bytes agree). */
  lemma {:induction false} EncodeIsAscii(b: seq<byte>)
    ensures forall i :: 0 <= i < |Encode(b)| ==> Encode(b)[i] < 128
  {
    if |b| >= 3 {
      EncodeIsAscii(b[3..]);
    }
  }

  /** The decoder is lenient: a byte outside the alphabet that is not '=' is skipped, wherever it stands. */
  lemma {:induction false} RunSkipsNoise(a: seq<byte>, c: byte, b: seq<byte>, quad: nat, left: nat, pads: nat, out: seq<byte>)
    requires Carry(quad, left)
    requires c != Pad && Sextet(c) == 64
    ensures Run(a + [c] + b, quad, left, pads, out) == Run(a + b, quad, left, pads, out)
  {
    if a == [] {
      assert (a + [c] + b)[1..] == a + b;
    } else {
      assert (a + [c] + b)[0] == a[0] && (a + b)[0] == a[0];
      assert (a + [c] + b)[1..] == a[1..] + [c] + b;
      assert (a + b)[1..] == a[1..] + b;
      var v := Sextet(a[0]);
      if a[0] == Pad {
        if !(quad >= 2 && quad + pads + 1 >= 4) {
          RunSkipsNoise(a[1..], c, b, quad, left, if quad >= 2 then pads + 1 else pads, out);
        }
      } else if v == 64 {
        RunSkipsNoise(a[1..], c, b, quad, left, pads, out);
      } else if quad == 0 {
        RunSkipsNoise(a[1..], c, b, 1, v, 0, out);
      } else if quad == 1 {
        RunSkipsNoise(a[1..], c, b, 2, v % 16, 0, out + [left * 4 + v / 16]);
      } else if quad == 2 {
        RunSkipsNoise(a[1..], c, b, 3, v % 4, 0, out + [left * 16 + v / 4]);
      } else {
        RunSkipsNoise(a[1..], c, b, 0, 0, 0, out + [left * 64 + v]);
      }
    }
  }

  /** A lone data character in its group cannot be decoded: "AAAAA" fails. */
  lemma OneExtraCharacterFails()
    ensures Decode([65, 65, 65, 65, 65]) == None
  {
  }
}
