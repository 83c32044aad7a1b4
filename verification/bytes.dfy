/** Go strings as byte sequences, and the two `strings` operations the cookie
    codec relies on: `SplitN(s, "|", 3)` and `Join(parts, "|")`. */
module GoBytes {

  datatype Option<T> = None | Some(value: T)

  /** A Go byte, represented by the character with the same code so that
      byte strings are also Dafny strings. */
  type byte = c: char | c as int < 256 witness '\0'

  /** A Go `string` or `[]byte` whose bytes matter. */
  type Bytes = seq<byte>

  /** The separator of the signed cookie's three fields. */
  const Pipe: byte := '|'

  function ByteOf(x: int): (b: byte)
    requires 0 <= x < 256
    ensures b as int == x
  {
    x as char
  }

  /** `s` holds no `|`. */
  predicate PipeFree(s: Bytes)
  {
    forall i :: 0 <= i < |s| ==> s[i] != Pipe
  }

  /** Index of the first `|` in `s`, or `|s|` when there is none. */
  function FirstPipe(s: Bytes): (k: nat)
    ensures k <= |s|
    ensures forall i :: 0 <= i < k ==> s[i] != Pipe
    ensures k < |s| ==> s[k] == Pipe
  {
    if s == [] then 0
    else if s[0] == Pipe then 0
    else FirstPipe(s[1..]) + 1
  }

  /** `strings.SplitN(s, "|", n)` for n >= 1: at most n parts, the last one
      keeping any further separators. */
  function SplitN(s: Bytes, n: nat): (parts: seq<Bytes>)
    requires n >= 1
    decreases n
  {
    var k := FirstPipe(s);
    if n == 1 || k == |s| then [s]
    else [s[..k]] + SplitN(s[k + 1..], n - 1)
  }

  /** `strings.Join(parts, "|")`. */
  function Join(parts: seq<Bytes>): (s: Bytes)
  {
    if parts == [] then []
    else if |parts| == 1 then parts[0]
    else parts[0] + [Pipe] + Join(parts[1..])
  }

  /** `SplitN(s, "|", n)` yields between one and n parts. */
  lemma {:induction false} SplitNCount(s: Bytes, n: nat)
    requires n >= 1
    ensures 1 <= |SplitN(s, n)| <= n
    decreases n
  {
    var k := FirstPipe(s);
    if n > 1 && k < |s| {
      SplitNCount(s[k + 1..], n - 1);
    }
  }

  /** Joining the parts of `SplitN(s, "|", n)` gives back `s`. */
  lemma {:induction false} SplitNJoin(s: Bytes, n: nat)
    requires n >= 1
    ensures Join(SplitN(s, n)) == s
    decreases n
  {
    var k := FirstPipe(s);
    if n > 1 && k < |s| {
      var rest := SplitN(s[k + 1..], n - 1);
      SplitNJoin(s[k + 1..], n - 1);
      SplitNCount(s[k + 1..], n - 1);
      var p := SplitN(s, n);
      assert p == [s[..k]] + rest;
      assert p[1..] == rest;
      assert s == s[..k] + [Pipe] + s[k + 1..];
    }
  }

  /** Every part of `SplitN(s, "|", n)` but the last is free of `|`, and the
      last is too unless the split stopped at n parts. */
  lemma {:induction false} SplitNPipeFree(s: Bytes, n: nat, i: nat)
    requires n >= 1
    requires i < |SplitN(s, n)|
    requires i < |SplitN(s, n)| - 1 || |SplitN(s, n)| < n
    ensures PipeFree(SplitN(s, n)[i])
    decreases n
  {
    var k := FirstPipe(s);
    if n > 1 && k < |s| {
      var p := SplitN(s, n);
      var rest := SplitN(s[k + 1..], n - 1);
      assert p == [s[..k]] + rest;
      if i == 0 {
        assert p[0] == s[..k];
      } else {
        assert p[i] == rest[i - 1];
        SplitNPipeFree(s[k + 1..], n - 1, i - 1);
      }
    } else if k == |s| {
      assert SplitN(s, n) == [s];
    }
  }

  /** The first `|` of `a + [|] + rest` is the one after `a` when `a` has none. */
  lemma PipeAfterFreePrefix(a: Bytes, rest: Bytes)
    requires PipeFree(a)
    ensures FirstPipe(a + [Pipe] + rest) == |a|
  {
    var s := a + [Pipe] + rest;
    assert s[|a|] == Pipe;
    assert s[..|a|] == a;
  }

  /** Splitting text built by joining three fields, the first two free of `|`,
      gives back exactly those three fields. */
  lemma SplitJoin3(a: Bytes, b: Bytes, c: Bytes)
    requires PipeFree(a) && PipeFree(b)
    ensures SplitN(a + [Pipe] + b + [Pipe] + c, 3) == [a, b, c]
  {
    var t := b + [Pipe] + c;
    var s := a + [Pipe] + t;
    assert s == a + [Pipe] + b + [Pipe] + c;
    PipeAfterFreePrefix(a, t);
    PipeAfterFreePrefix(b, c);
    assert s[..|a|] == a && s[|a| + 1..] == t;
    assert t[..|b|] == b && t[|b| + 1..] == c;
    assert SplitN(t, 2) == [b] + SplitN(c, 1);
  }

  /** Three fields joined by `|`, the first two free of `|`, split back into
      the same three fields. */
  lemma JoinSplit3(a: Bytes, b: Bytes, c: Bytes)
    requires PipeFree(a) && PipeFree(b)
    ensures SplitN(Join([a, b, c]), 3) == [a, b, c]
  {
    assert [a, b, c][1..] == [b, c];
    assert [b, c][1..] == [c];
    assert Join([b, c]) == b + [Pipe] + c;
    assert Join([a, b, c]) == a + [Pipe] + (b + [Pipe] + c);
    assert a + [Pipe] + (b + [Pipe] + c) == a + [Pipe] + b + [Pipe] + c;
    SplitJoin3(a, b, c);
  }

  /** A split into three parts means the text is the first two parts, each
      free of `|`, and the rest, joined by `|`. */
  lemma SplitThree(s: Bytes)
    requires |SplitN(s, 3)| == 3
    ensures s == SplitN(s, 3)[0] + [Pipe] + SplitN(s, 3)[1] + [Pipe] + SplitN(s, 3)[2]
    ensures PipeFree(SplitN(s, 3)[0]) && PipeFree(SplitN(s, 3)[1])
  {
    var p := SplitN(s, 3);
    SplitNPipeFree(s, 3, 0);
    SplitNPipeFree(s, 3, 1);
    SplitNJoin(s, 3);
    assert p[1..][1..] == [p[2]];
    assert Join(p[1..]) == p[1] + [Pipe] + p[2];
  }

  /** `strings.HasPrefix`. */
  predicate HasPrefix(s: string, prefix: string)
  {
    |prefix| <= |s| && s[..|prefix|] == prefix
  }

  /** `strings.HasSuffix`. */
  predicate HasSuffix(s: string, suffix: string)
  {
    |suffix| <= |s| && s[|s| - |suffix|..] == suffix
  }
}
