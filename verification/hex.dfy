/** Lower-case hexadecimal rendering of a byte string, as `fmt.Sprintf("%02x", b)`
    formats a `[]byte`: two digits per byte, high nibble first. */
module Hex {
  import opened GoBytes

  /** The lower-case hex digit for a nibble. */
  function Digit(v: nat): (c: byte)
    requires v < 16
  {
    if v < 10 then ByteOf('0' as int + v) else ByteOf('a' as int + v - 10)
  }

  /** The nibble a lower-case hex digit stands for. */
  function DigitValue(c: byte): (v: Option<nat>)
    ensures v.Some? ==> v.value < 16
  {
    if '0' <= c <= '9' then Some(c as int - '0' as int)
    else if 'a' <= c <= 'f' then Some(c as int - 'a' as int + 10)
    else None
  }

  /** `fmt.Sprintf("%02x", b)` for a non-empty `b`, which is all the signer
      passes it. For an empty `b` Go pads the output to two spaces, which
      this function does not do. */
  function Hex(b: Bytes): (s: Bytes)
    ensures |s| == 2 * |b|
  {
    if b == [] then []
    else [Digit(b[0] as int / 16), Digit(b[0] as int % 16)] + Hex(b[1..])
  }

  /** Reads back text written by `Hex`; None when a digit is not lower-case
      hex or the length is odd. */
  function Unhex(s: Bytes): (r: Option<Bytes>)
    decreases |s|
  {
    if s == [] then Some([])
    else if |s| == 1 then None
    else match (DigitValue(s[0]), DigitValue(s[1]), Unhex(s[2..]))
      case (Some(hi), Some(lo), Some(rest)) => Some([ByteOf(hi * 16 + lo)] + rest)
      case _ => None
  }

  lemma DigitRoundTrip(v: nat)
    requires v < 16
    ensures DigitValue(Digit(v)) == Some(v)
  {
  }

  /** Reading back the rendering gives the original bytes. */
  lemma {:induction false} UnhexHex(b: Bytes)
    ensures Unhex(Hex(b)) == Some(b)
  {
    if b != [] {
      var s := Hex(b);
      DigitRoundTrip(b[0] as int / 16);
      DigitRoundTrip(b[0] as int % 16);
      UnhexHex(b[1..]);
      assert s[2..] == Hex(b[1..]);
      assert b == [b[0]] + b[1..];
    }
  }

  /** Distinct byte strings render to distinct hex text. */
  lemma HexInjective(a: Bytes, b: Bytes)
    requires Hex(a) == Hex(b)
    ensures a == b
  {
    UnhexHex(a);
    UnhexHex(b);
  }

  /** Hex text never holds the cookie separator `|`. */
  lemma {:induction false} HexPipeFree(b: Bytes)
    ensures PipeFree(Hex(b))
    ensures forall i :: 0 <= i < |Hex(b)| ==> DigitValue(Hex(b)[i]).Some?
  {
    if b != [] {
      HexPipeFree(b[1..]);
      var s := Hex(b);
      DigitRoundTrip(b[0] as int / 16);
      DigitRoundTrip(b[0] as int % 16);
      forall i | 0 <= i < |s| ensures DigitValue(s[i]).Some? && s[i] != Pipe {
        if i >= 2 {
          assert s[i] == Hex(b[1..])[i - 2];
        }
      }
    }
  }
}
