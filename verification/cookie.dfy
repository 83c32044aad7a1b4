/** The signed-cookie codec: the signer (`getCookieSig`), the value
    `SetSecureCookie` writes, and the decision `GetSecureCookie` takes on
    the cookies of a request. The cookie value is
    `base64(raw) | decimal(now) | hex(HMAC-SHA1(secret, base64(raw) ++ decimal(now)))`. */
module SecureCookie {
  import opened GoBytes
  import Base64
  import Hex
  import opened Strconv

  /** HMAC-SHA1 (RFC 2104) keyed by the first argument over the second; the
      hash itself is not modelled, so every property below holds for any
      keyed function. HMAC-SHA1 always yields 20 bytes, so the digest is
      never empty. */
  type Mac = (Bytes, Bytes) -> Bytes

  /** The validity window: 31 days, in seconds. */
  const MaxAge: int := 31 * 86400

  /** The expiry of a cookie set with age 0: 2^31 - 1 seconds after the epoch. */
  const Permanent: Int64 := 2147483647

  /** An `http.Cookie` as the writer builds it. */
  datatype Cookie = Cookie(name: string, value: Bytes, expires: Int64)

  /** A cookie as the request carries it: a name and a value. */
  datatype RequestCookie = RequestCookie(name: string, value: Bytes)

  /** `getCookieSig`: the lower-case hex of the MAC, keyed by the secret, over
      the value bytes followed by the timestamp text. */
  function CookieSig(mac: Mac, key: Bytes, val: Bytes, timestamp: Bytes): (sig: Bytes)
    ensures Hex.Unhex(sig) == Some(mac(key, val + timestamp))
    ensures PipeFree(sig)
  {
    var digest := mac(key, val + timestamp);
    Hex.UnhexHex(digest);
    Hex.HexPipeFree(digest);
    Hex.Hex(digest)
  }

  /** `NewCookie`: age 0 means the cookie never expires in practice
      (`Permanent`), any other age counts from `now` in `int64` arithmetic. */
  function NewCookie(name: string, value: Bytes, age: Int64, now: Int64): (c: Cookie)
    ensures c.name == name && c.value == value
    ensures age == 0 ==> c.expires == Permanent
    ensures age != 0 && MinInt64 <= now + age <= MaxInt64 ==> c.expires == now + age
  {
    Cookie(name, value, if age == 0 then Permanent else Wrap64(now + age))
  }

  /** The cookie value `SetSecureCookie` writes at time `now`: its three
      `|`-separated fields are the base64 text, the decimal timestamp and the
      signature over those two. */
  function SignedValue(mac: Mac, secret: Bytes, val: Bytes, now: Int64): (v: Bytes)
    ensures SplitN(v, 3) == [Base64.Encode(val), FormatInt(now),
                             CookieSig(mac, secret, Base64.Encode(val), FormatInt(now))]
  {
    var vs := Base64.Encode(val);
    var ts := FormatInt(now);
    var sig := CookieSig(mac, secret, vs, ts);
    Base64.EncodePipeFree(val);
    FormatPipeFree(now);
    JoinSplit3(vs, ts, sig);
    Join([vs, ts, sig])
  }

  /** The cookie `SetSecureCookie` hands to the response, or None when the
      secret is empty and it returns without doing anything. */
  function SecureCookieFor(mac: Mac, secret: Bytes, name: string, val: Bytes, age: Int64, now: Int64)
    : (c: Option<Cookie>)
    ensures c.None? <==> secret == []
    ensures c.Some? ==> c.value.name == name
    ensures c.Some? ==> SplitN(c.value.value, 3)[0] == Base64.Encode(val)
  {
    if |secret| == 0 then None
    else Some(NewCookie(name, SignedValue(mac, secret, val, now), age, now))
  }

  /** How `GetSecureCookie` ends. The source reports the first two as
      `(value, true)` and the next three as `("", false)`; `Panic` is the
      index-out-of-range crash on a value with fewer than two `|`. */
  datatype Outcome =
    | Accepted(value: Bytes)
    | AcceptedUndecodable
    | NoCookie
    | BadSignature
    | Expired
    | Panic
  {
    /** The boolean `GetSecureCookie` returns. */
    predicate Ok() { Accepted? || AcceptedUndecodable? }
  }

  /** The timestamp the reader compares, after `ParseInt(ts, 0, 64)` with its
      error ignored. */
  function Timestamp(ts: Bytes): Int64
  {
    ParseInt(ts).value
  }

  /** The decision on the first cookie whose name matches: split into three
      fields, check the signature, check the 31-day window (in `int64`
      arithmetic), then base64-decode the first field. */
  function Verify(mac: Mac, secret: Bytes, value: Bytes, now: Int64): (r: Outcome)
    ensures r != NoCookie
    ensures r == Panic <==> |SplitN(value, 3)| < 3
  {
    var parts := SplitN(value, 3);
    SplitNCount(value, 3);
    if |parts| < 3 then Panic
    else
      var val, ts, sig := parts[0], parts[1], parts[2];
      if CookieSig(mac, secret, val, ts) != sig then BadSignature
      else if Wrap64(now - MaxAge) > Timestamp(ts) then Expired
      else match Base64.Decode(val)
        case Some(raw) => Accepted(raw)
        case None => AcceptedUndecodable
  }

  /** The result of `GetSecureCookie(name)` over the request's cookies in
      order: the first cookie named `name` decides. */
  function Lookup(mac: Mac, secret: Bytes, cookies: seq<RequestCookie>, name: string, now: Int64)
    : (r: Outcome)
  {
    if cookies == [] then NoCookie
    else if cookies[0].name != name then Lookup(mac, secret, cookies[1..], name, now)
    else Verify(mac, secret, cookies[0].value, now)
  }

  // ----- Properties of the codec -----

  /** Round trip: a value written at `t0` and read back no later than 31 days
      after `t0` (or at any time before it) is accepted with the original
      bytes. */
  lemma RoundTrip(mac: Mac, secret: Bytes, val: Bytes, t0: Int64, now: Int64)
    requires now >= MinInt64 + MaxAge
    requires now - MaxAge <= t0
    ensures Verify(mac, secret, SignedValue(mac, secret, val, t0), now) == Accepted(val)
  {
    var ts := FormatInt(t0);
    ParseFormat(t0);
    assert Timestamp(ts) == t0;
    Base64.DecodeEncode(val);
  }

  /** The first cookie named `name` decides: cookies before it with other
      names are skipped, cookies after it are never looked at. */
  lemma {:induction false} FirstMatchDecides(mac: Mac, secret: Bytes, cookies: seq<RequestCookie>,
                                             name: string, now: Int64, k: nat)
    requires k < |cookies| && cookies[k].name == name
    requires forall j :: 0 <= j < k ==> cookies[j].name != name
    ensures Lookup(mac, secret, cookies, name, now) == Verify(mac, secret, cookies[k].value, now)
  {
    if k > 0 {
      FirstMatchDecides(mac, secret, cookies[1..], name, now, k - 1);
    }
  }

  /** No cookie of that name gives `("", false)`, and only then is the
      result `NoCookie`. */
  lemma {:induction false} NoCookieIffNoName(mac: Mac, secret: Bytes, cookies: seq<RequestCookie>,
                                             name: string, now: Int64)
    ensures Lookup(mac, secret, cookies, name, now) == NoCookie
            <==> forall j :: 0 <= j < |cookies| ==> cookies[j].name != name
  {
    if cookies != [] {
      NoCookieIffNoName(mac, secret, cookies[1..], name, now);
      if cookies[0].name != name {
        assert forall j :: 1 <= j < |cookies| ==> cookies[j] == cookies[1..][j - 1];
      }
    }
  }

  /** End to end: when the request's first cookie named `name` carries the
      value the writer produced at `t0`, the reader returns the original
      value within the window, whatever other cookies the request holds. */
  lemma RoundTripThroughRequest(mac: Mac, secret: Bytes, name: string, val: Bytes, age: Int64,
                                t0: Int64, now: Int64,
                                before: seq<RequestCookie>, after: seq<RequestCookie>)
    requires SecureCookieFor(mac, secret, name, val, age, t0).Some?
    requires forall j :: 0 <= j < |before| ==> before[j].name != name
    requires now >= MinInt64 + MaxAge && now - MaxAge <= t0
    ensures
      var c := SecureCookieFor(mac, secret, name, val, age, t0).value;
      Lookup(mac, secret, before + [RequestCookie(c.name, c.value)] + after, name, now) == Accepted(val)
  {
    var c := SecureCookieFor(mac, secret, name, val, age, t0).value;
    var cookies := before + [RequestCookie(c.name, c.value)] + after;
    assert cookies[|before|] == RequestCookie(c.name, c.value);
    assert forall j :: 0 <= j < |before| ==> cookies[j] == before[j];
    FirstMatchDecides(mac, secret, cookies, name, now, |before|);
    RoundTrip(mac, secret, val, t0, now);
  }

  /** A value with fewer than two `|` crashes the reader. That nothing else
      does is the second ensures of `Verify`. */
  lemma ShortValuePanics(mac: Mac, secret: Bytes, a: Bytes, now: Int64)
    requires PipeFree(a)
    ensures Verify(mac, secret, a, now) == Panic
    ensures forall b :: PipeFree(b) ==> Verify(mac, secret, a + [Pipe] + b, now) == Panic
  {
    forall b | PipeFree(b) ensures Verify(mac, secret, a + [Pipe] + b, now) == Panic {
      PipeAfterFreePrefix(a, b);
      var s := a + [Pipe] + b;
      assert s[|a| + 1..] == b;
    }
  }

  /** The signature check: a three-field value is rejected as tampered
      exactly when its third field differs from the signature recomputed over
      the first two. */
  lemma SignatureCheck(mac: Mac, secret: Bytes, a: Bytes, t: Bytes, s: Bytes, now: Int64)
    requires PipeFree(a) && PipeFree(t)
    ensures Verify(mac, secret, a + [Pipe] + t + [Pipe] + s, now) == BadSignature
            <==> s != CookieSig(mac, secret, a, t)
  {
    SplitJoin3(a, t, s);
  }

  /** Freshness: a correctly signed value is rejected as expired exactly when
      `now - 31 days` (in `int64` arithmetic) is past its timestamp. */
  lemma FreshnessWindow(mac: Mac, secret: Bytes, a: Bytes, t: Bytes, now: Int64)
    requires PipeFree(a) && PipeFree(t)
    ensures var v := a + [Pipe] + t + [Pipe] + CookieSig(mac, secret, a, t);
      Verify(mac, secret, v, now) == Expired <==> Wrap64(now - MaxAge) > Timestamp(t)
  {
    SplitJoin3(a, t, CookieSig(mac, secret, a, t));
  }

  /** Away from `int64` wrap-around the window is `now - ts <= 31 days`: the
      boundary `ts == now - 31 days` is accepted and a timestamp in the future
      is never rejected. */
  lemma WindowBoundary(mac: Mac, secret: Bytes, a: Bytes, t: Bytes, now: Int64)
    requires PipeFree(a) && PipeFree(t)
    requires now >= MinInt64 + MaxAge
    ensures var v := a + [Pipe] + t + [Pipe] + CookieSig(mac, secret, a, t);
      (Verify(mac, secret, v, now) == Expired <==> now - Timestamp(t) > MaxAge)
      && (Timestamp(t) == now - MaxAge ==> Verify(mac, secret, v, now).Ok())
      && (Timestamp(t) >= now ==> Verify(mac, secret, v, now).Ok())
  {
    FreshnessWindow(mac, secret, a, t, now);
    SplitJoin3(a, t, CookieSig(mac, secret, a, t));
  }

  /** A validly signed timestamp whose first byte is not a digit, a sign or
      `_` reads as 0, so it is rejected as expired once more than 31 days
      have passed since the epoch. A leading `_` is different: the digit
      loop skips it, so the text can still overflow and clamp to the largest
      `int64`. In every case a syntax error reads as 0, by the ensures of
      `ParseInt`. */
  lemma NonNumericTimestamp(mac: Mac, secret: Bytes, a: Bytes, t: Bytes, now: Int64)
    requires PipeFree(a) && PipeFree(t)
    requires |t| > 0 && !IsDecDigit(t[0]) && t[0] != '+' && t[0] != '-' && t[0] != '_'
    requires now >= MinInt64 + MaxAge
    ensures Timestamp(t) == 0
    ensures var v := a + [Pipe] + t + [Pipe] + CookieSig(mac, secret, a, t);
      Verify(mac, secret, v, now) == Expired <==> now > MaxAge
  {
    NonNumericParsesToZero(t);
    FreshnessWindow(mac, secret, a, t, now);
  }

  /** A value accepted by the reader carries, as its third field, exactly the
      hex of the MAC over its first two fields under the reader's secret. */
  lemma AcceptedIsSigned(mac: Mac, secret: Bytes, v: Bytes, now: Int64)
    requires Verify(mac, secret, v, now).Ok()
    ensures |SplitN(v, 3)| == 3
    ensures Hex.Unhex(SplitN(v, 3)[2]) == Some(mac(secret, SplitN(v, 3)[0] + SplitN(v, 3)[1]))
  {
    var p := SplitN(v, 3);
    SplitNCount(v, 3);
    assert CookieSig(mac, secret, p[0], p[1]) == p[2];
  }

  /** A value written under one secret is rejected under another whenever
      the two keys give different MACs over the signed text. */
  lemma CrossSecretRejected(mac: Mac, s1: Bytes, s2: Bytes, val: Bytes, t0: Int64, now: Int64)
    requires mac(s1, Base64.Encode(val) + FormatInt(t0)) != mac(s2, Base64.Encode(val) + FormatInt(t0))
    ensures Verify(mac, s2, SignedValue(mac, s1, val, t0), now) == BadSignature
  {
    var vs, ts := Base64.Encode(val), FormatInt(t0);
    if CookieSig(mac, s2, vs, ts) == CookieSig(mac, s1, vs, ts) {
      Hex.HexInjective(mac(s2, vs + ts), mac(s1, vs + ts));
    }
  }

  /** Replacing the first two fields of a signed value by others whose MAC
      differs makes the reader reject it. */
  lemma TamperedPayloadRejected(mac: Mac, secret: Bytes, val: Bytes, t0: Int64,
                                                   a: Bytes, t: Bytes, now: Int64)
    requires PipeFree(a) && PipeFree(t)
    requires mac(secret, a + t) != mac(secret, Base64.Encode(val) + FormatInt(t0))
    ensures var sig := SplitN(SignedValue(mac, secret, val, t0), 3)[2];
      Verify(mac, secret, a + [Pipe] + t + [Pipe] + sig, now) == BadSignature
  {
    var vs, ts := Base64.Encode(val), FormatInt(t0);
    var sig := CookieSig(mac, secret, vs, ts);
    SignatureCheck(mac, secret, a, t, sig, now);
    if CookieSig(mac, secret, a, t) == sig {
      Hex.HexInjective(mac(secret, a + t), mac(secret, vs + ts));
    }
  }
}
