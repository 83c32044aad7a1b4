/** Standard base64 with padding (section 4 of RFC 4648), as Go's
    `base64.StdEncoding` writes it through `base64.NewEncoder` and reads it
    back through `base64.NewDecoder`. */
module Base64 {
  import opened GoBytes

  const Pad: byte := '='

  /** The character of the standard alphabet for the sextet `v`. */
  function Char(v: nat): (c: byte)
    requires v < 64
  {
    if v < 26 then ByteOf('A' as int + v)
    else if v < 52 then ByteOf('a' as int + v - 26)
    else if v < 62 then ByteOf('0' as int + v - 52)
    else if v == 62 then '+'
    else '/'
  }

  /** The sextet a character of the standard alphabet stands for. */
  function Sextet(c: byte): (v: Option<nat>)
    ensures v.Some? ==> v.value < 64
  {
    if 'A' <= c <= 'Z' then Some(c as int - 'A' as int)
    else if 'a' <= c <= 'z' then Some(c as int - 'a' as int + 26)
    else if '0' <= c <= '9' then Some(c as int - '0' as int + 52)
    else if c == '+' then Some(62)
    else if c == '/' then Some(63)
    else None
  }

  lemma SextetOfChar(v: nat)
    requires v < 64
    ensures Sextet(Char(v)) == Some(v)
  {
  }

  /** Characters an encoder emits: the alphabet and the pad. */
  predicate Encoded(s: Bytes)
  {
    forall i :: 0 <= i < |s| ==> Sextet(s[i]).Some? || s[i] == Pad
  }

  /** Encodes one group of three bytes as four characters. */
  function Quantum3(b0: byte, b1: byte, b2: byte): (q: Bytes)
  {
    [Char(b0 as int / 4), Char((b0 as int % 4) * 16 + b1 as int / 16),
     Char((b1 as int % 16) * 4 + b2 as int / 64), Char(b2 as int % 64)]
  }

  /** `base64.StdEncoding` encoding of `b`: every three bytes become four
      characters; a last group of two or one byte is padded with `=`. */
  function Encode(b: Bytes): (s: Bytes)
    ensures |b| > 0 ==> |s| >= 4
    decreases |b|
  {
    if |b| == 0 then []
    else if |b| == 1 then
      [Char(b[0] as int / 4), Char((b[0] as int % 4) * 16), Pad, Pad]
    else if |b| == 2 then
      [Char(b[0] as int / 4), Char((b[0] as int % 4) * 16 + b[1] as int / 16),
       Char((b[1] as int % 16) * 4), Pad]
    else Quantum3(b[0], b[1], b[2]) + Encode(b[3..])
  }

  /** The bytes of a full four-character group, or None if a character is
      not in the alphabet. */
  function DecodeFull(q: Bytes): (r: Option<Bytes>)
    requires |q| == 4
    ensures r.Some? ==> |r.value| == 3
  {
    match (Sextet(q[0]), Sextet(q[1]), Sextet(q[2]), Sextet(q[3]))
    case (Some(v0), Some(v1), Some(v2), Some(v3)) =>
      Some([ByteOf(v0 * 4 + v1 / 16), ByteOf((v1 % 16) * 16 + v2 / 4), ByteOf((v2 % 4) * 64 + v3)])
    case _ => None
  }

  /** The bytes of the last group, which may end in `==` or `=`; the bits
      the padding leaves over are ignored, as the non-strict decoder does. */
  function DecodeLast(q: Bytes): (r: Option<Bytes>)
    requires |q| == 4
  {
    if q[2] == Pad && q[3] == Pad then
      match (Sextet(q[0]), Sextet(q[1]))
      case (Some(v0), Some(v1)) => Some([ByteOf(v0 * 4 + v1 / 16)])
      case _ => None
    else if q[3] == Pad then
      match (Sextet(q[0]), Sextet(q[1]), Sextet(q[2]))
      case (Some(v0), Some(v1), Some(v2)) =>
        Some([ByteOf(v0 * 4 + v1 / 16), ByteOf((v1 % 16) * 16 + v2 / 4)])
      case _ => None
    else DecodeFull(q)
  }

  /** Decodes groups of four characters; padding may only close the last
      group, and a length that is not a multiple of four is corrupt. */
  function DecodeGroups(s: Bytes): (r: Option<Bytes>)
    decreases |s|
  {
    if |s| == 0 then Some([])
    else if |s| < 4 then None
    else if |s| == 4 then DecodeLast(s)
    else match (DecodeFull(s[..4]), DecodeGroups(s[4..]))
      case (Some(head), Some(tail)) => Some(head + tail)
      case _ => None
  }

  /** The decoder skips carriage returns and line feeds wherever they occur. */
  function StripNewlines(s: Bytes): (r: Bytes)
    ensures |r| <= |s|
  {
    if s == [] then []
    else if s[0] == '\r' || s[0] == '\n' then StripNewlines(s[1..])
    else [s[0]] + StripNewlines(s[1..])
  }

  /** What `base64.NewDecoder(base64.StdEncoding, ...)` yields for well-formed
      input; None stands for corrupt input. */
  function Decode(s: Bytes): (r: Option<Bytes>)
  {
    DecodeGroups(StripNewlines(s))
  }

  lemma {:induction false} StripNewlinesEncoded(s: Bytes)
    requires Encoded(s)
    ensures StripNewlines(s) == s
  {
    if s != [] {
      assert Encoded(s[1..]) by {
        forall i | 0 <= i < |s[1..]| ensures Sextet(s[1..][i]).Some? || s[1..][i] == Pad {
          assert s[1..][i] == s[i + 1];
        }
      }
      StripNewlinesEncoded(s[1..]);
      assert s == [s[0]] + s[1..];
    }
  }

  lemma FullRoundTrip(b0: byte, b1: byte, b2: byte)
    ensures DecodeFull(Quantum3(b0, b1, b2)) == Some([b0, b1, b2])
  {
    var x0, x1, x2 := b0 as int, b1 as int, b2 as int;
    var v0, v1, v2, v3 := x0 / 4, (x0 % 4) * 16 + x1 / 16, (x1 % 16) * 4 + x2 / 64, x2 % 64;
    SextetOfChar(v0);
    SextetOfChar(v1);
    SextetOfChar(v2);
    SextetOfChar(v3);
    assert v0 * 4 + v1 / 16 == x0;
    assert (v1 % 16) * 16 + v2 / 4 == x1;
    assert (v2 % 4) * 64 + v3 == x2;
  }

  lemma TwoRoundTrip(b0: byte, b1: byte)
    ensures DecodeLast(Encode([b0, b1])) == Some([b0, b1])
  {
    var x0, x1 := b0 as int, b1 as int;
    var v0, v1, v2 := x0 / 4, (x0 % 4) * 16 + x1 / 16, (x1 % 16) * 4;
    SextetOfChar(v0);
    SextetOfChar(v1);
    SextetOfChar(v2);
    assert v0 * 4 + v1 / 16 == x0;
    assert (v1 % 16) * 16 + v2 / 4 == x1;
  }

  lemma OneRoundTrip(b0: byte)
    ensures DecodeLast(Encode([b0])) == Some([b0])
  {
    var x0 := b0 as int;
    var v0, v1 := x0 / 4, (x0 % 4) * 16;
    SextetOfChar(v0);
    SextetOfChar(v1);
    assert v0 * 4 + v1 / 16 == x0;
  }

  /** The encoder emits only alphabet characters and padding. */
  lemma {:induction false} EncodeEncoded(b: Bytes)
    ensures Encoded(Encode(b))
    decreases |b|
  {
    var s := Encode(b);
    if |b| == 1 || |b| == 2 {
      assert s[2] == Pad || Sextet(s[2]).Some? by {
        if |b| == 2 { SextetOfChar((b[1] as int % 16) * 4); }
      }
      SextetOfChar(b[0] as int / 4);
      SextetOfChar((b[0] as int % 4) * 16 + (if |b| == 2 then b[1] as int / 16 else 0));
    } else if |b| >= 3 {
      EncodeEncoded(b[3..]);
      var q := Quantum3(b[0], b[1], b[2]);
      SextetOfChar(b[0] as int / 4);
      SextetOfChar((b[0] as int % 4) * 16 + b[1] as int / 16);
      SextetOfChar((b[1] as int % 16) * 4 + b[2] as int / 64);
      SextetOfChar(b[2] as int % 64);
      assert Encoded(q);
      assert s == q + Encode(b[3..]);
      forall i | 0 <= i < |s| ensures Sextet(s[i]).Some? || s[i] == Pad {
        if i >= 4 {
          assert s[i] == Encode(b[3..])[i - 4];
        }
      }
    }
  }

  /** Decoding what the encoder wrote gives back the original bytes. */
  lemma DecodeEncode(b: Bytes)
    ensures Decode(Encode(b)) == Some(b)
  {
    EncodeEncoded(b);
    StripNewlinesEncoded(Encode(b));
    EncodeGroups(b);
  }

  lemma {:induction false} EncodeGroups(b: Bytes)
    ensures DecodeGroups(Encode(b)) == Some(b)
    decreases |b|
  {
    if 0 < |b| <= 3 {
      ShortGroups(b);
    } else if |b| > 3 {
      EncodeGroups(b[3..]);
      EncodeGroupsStep(b);
    }
  }

  /** Input of one, two or three bytes encodes to a single group that
      decodes back to it. */
  // Not inductive: the attribute keeps Dafny from trying induction on `b`,
  // which makes this proof far more expensive.
  lemma {:induction false} ShortGroups(b: Bytes)
    requires 0 < |b| <= 3
    ensures DecodeGroups(Encode(b)) == Some(b)
  {
    if |b| == 1 {
      OneRoundTrip(b[0]);
      assert b == [b[0]];
    } else if |b| == 2 {
      TwoRoundTrip(b[0], b[1]);
      assert b == [b[0], b[1]];
    } else {
      FullRoundTrip(b[0], b[1], b[2]);
      assert Encode(b) == Quantum3(b[0], b[1], b[2]);
      assert b == [b[0], b[1], b[2]];
    }
  }

  /** One full group followed by text that decodes on its own. */
  // Not inductive: the attribute keeps Dafny from trying induction on `b`,
  // which makes this proof far more expensive.
  lemma {:induction false} EncodeGroupsStep(b: Bytes)
    requires |b| > 3
    requires DecodeGroups(Encode(b[3..])) == Some(b[3..])
    ensures DecodeGroups(Encode(b)) == Some(b)
  {
    var q := Quantum3(b[0], b[1], b[2]);
    assert Encode(b) == q + Encode(b[3..]);
    FullRoundTrip(b[0], b[1], b[2]);
    DecodeGroupsCons(q, Encode(b[3..]));
    assert b == [b[0], b[1], b[2]] + b[3..];
  }

  /** A full group in front of decodable text decodes group by group. */
  lemma DecodeGroupsCons(q: Bytes, rest: Bytes)
    requires |q| == 4 && |rest| > 0
    requires DecodeFull(q).Some? && DecodeGroups(rest).Some?
    ensures DecodeGroups(q + rest) == Some(DecodeFull(q).value + DecodeGroups(rest).value)
  {
    var s := q + rest;
    assert s[..4] == q && s[4..] == rest;
  }

  /** Encoded text never holds the cookie separator `|`. */
  lemma EncodePipeFree(b: Bytes)
    ensures PipeFree(Encode(b))
  {
    var s := Encode(b);
    EncodeEncoded(b);
    forall i | 0 <= i < |s| ensures s[i] != Pipe {
      assert Sextet(s[i]).Some? || s[i] == Pad;
    }
  }
}
