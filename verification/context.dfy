/** The per-request `Context`: its response headers, its `Params` and `Data`
    maps, and the methods that update them, including the two secure-cookie
    operations built on the codec. */
module Web {
  import opened GoBytes
  import opened Strconv
  import Base64
  import opened SecureCookie

  /** Response headers, `http.Header`: each key holds its values in order. */
  type Header = map<string, seq<string>>

  /** `Header.Set`: `value` becomes the only value of `key`. */
  function HeaderSet(h: Header, key: string, value: string): (r: Header)
    ensures key in r && r[key] == [value]
    ensures forall k :: k != key ==> (k in r <==> k in h) && (k in h ==> r[k] == h[k])
  {
    h[key := [value]]
  }

  /** `Header.Add`: `value` goes after the values `key` already has. */
  function HeaderAdd(h: Header, key: string, value: string): (r: Header)
    ensures key in r && r[key] == (if key in h then h[key] else []) + [value]
    ensures forall k :: k != key ==> (k in r <==> k in h) && (k in h ==> r[k] == h[k])
  {
    h[key := (if key in h then h[key] else []) + [value]]
  }

  /** `Header.Get`: the first value of `key`, or "" when it has none. */
  function HeaderGet(h: Header, key: string): string
  {
    if key in h && |h[key]| > 0 then h[key][0] else ""
  }

  /** After `Set`, `Get` reads the value just set; after `Add`, `Get` still
      reads the first value, which is the new one only if there was none. */
  lemma HeaderGetAfterUpdate(h: Header, key: string, value: string)
    ensures HeaderGet(HeaderSet(h, key, value), key) == value
    ensures HeaderGet(HeaderAdd(h, key, value), key)
            == (if key in h && |h[key]| > 0 then h[key][0] else value)
  {
    var a := HeaderAdd(h, key, value);
    if key in h && |h[key]| > 0 {
      assert a[key][0] == h[key][0];
    }
  }

  /** `Set` is idempotent: setting the same value twice is setting it once. */
  lemma HeaderSetIdempotent(h: Header, key: string, value: string)
    ensures HeaderSet(HeaderSet(h, key, value), key, value) == HeaderSet(h, key, value)
  {
    var once := HeaderSet(h, key, value);
    var twice := HeaderSet(once, key, value);
    assert twice.Keys == once.Keys;
  }

  /** `webTime`: an RFC 1123 date ending in `UTC` is given the suffix `GMT`
      instead, as HTTP dates require; any other text is kept. The RFC 1123
      formatting itself is done by the caller. */
  function WebTime(formatted: string): (r: string)
    ensures |r| == |formatted|
    ensures HasSuffix(formatted, "UTC") ==> r[..|r| - 3] == formatted[..|formatted| - 3] && HasSuffix(r, "GMT")
    ensures !HasSuffix(formatted, "UTC") ==> r == formatted
  {
    if HasSuffix(formatted, "UTC") then formatted[..|formatted| - 3] + "GMT" else formatted
  }

  /** Formatting twice changes nothing more: a result never ends in `UTC`. */
  lemma WebTimeIdempotent(formatted: string)
    ensures !HasSuffix(WebTime(formatted), "UTC")
    ensures WebTime(WebTime(formatted)) == WebTime(formatted)
  {
    var r := WebTime(formatted);
    if HasSuffix(formatted, "UTC") {
      assert r[|r| - 3] == 'G';
    }
  }

  /** The extension `ContentType` looks up: `val` with a `.` put in front
      unless it already starts with one. */
  function Extension(val: string): (ext: string)
    ensures HasPrefix(ext, ".")
  {
    if HasPrefix(val, ".") then val else "." + val
  }

  /** `mime.TypeByExtension` over a given table; "" when the table has no
      entry. */
  function TypeByExtension(mimeTypes: map<string, string>, ext: string): string
  {
    if ext in mimeTypes then mimeTypes[ext] else ""
  }

  /** The content type `ContentType(val)` chooses: `val` itself when it holds
      a `/`, otherwise the table's type for its extension. */
  function ContentTypeFor(val: string, mimeTypes: map<string, string>): (ctype: string)
    ensures '/' in val ==> ctype == val
    ensures '/' !in val ==> (ctype == "" || ctype in mimeTypes.Values)
    ensures '/' !in val && Extension(val) in mimeTypes ==> ctype == mimeTypes[Extension(val)]
    ensures '/' !in val && Extension(val) !in mimeTypes ==> ctype == ""
  {
    if '/' in val then val else TypeByExtension(mimeTypes, Extension(val))
  }

  /** `ContentType("json")` and `ContentType(".json")` choose the same type. */
  lemma LeadingDotOptional(val: string, mimeTypes: map<string, string>)
    requires '/' !in val && !HasPrefix(val, ".")
    ensures ContentTypeFor("." + val, mimeTypes) == ContentTypeFor(val, mimeTypes)
  {
    assert ("." + val)[..1] == ".";
    assert forall i :: 0 <= i < |"." + val| ==> ("." + val)[i] != '/' by {
      forall i | 0 <= i < |"." + val| ensures ("." + val)[i] != '/' {
        if i > 0 { assert ("." + val)[i] == val[i - 1]; }
      }
    }
  }

  /** A value stored in `Context.Data` (an `interface{}` map): the kinds the
      model stores or reads back. */
  datatype Value = Text(s: string) | Number(n: int) | Flag(b: bool) | ErrorValue(msg: string)

  /** The result of a Go type assertion `x.(T)`: the value, or a panic when the
      dynamic type is not T. */
  datatype Asserted<T> = Holds(value: T) | TypePanic

  /** `HasError` and `HasApiError`: a missing `HasError` entry reads as false,
      a boolean entry as itself, and any other entry makes `.(bool)` panic. */
  function ErrorFlag(data: map<string, Value>): (r: Asserted<bool>)
    ensures "HasError" !in data ==> r == Holds(false)
    ensures r == Holds(true) <==> "HasError" in data && data["HasError"] == Flag(true)
    ensures r == TypePanic <==> "HasError" in data && !data["HasError"].Flag?
  {
    if "HasError" !in data then Holds(false)
    else match data["HasError"]
      case Flag(b) => Holds(b)
      case _ => TypePanic
  }

  /** `GetErrMsg`: `Data["ErrorMsg"].(string)`, which panics unless the entry
      is present and holds a string. */
  function ErrorMessage(data: map<string, Value>): (r: Asserted<string>)
    ensures r.Holds? <==> "ErrorMsg" in data && data["ErrorMsg"].Text?
    ensures r.Holds? ==> r.value == data["ErrorMsg"].s
  {
    if "ErrorMsg" in data && data["ErrorMsg"].Text? then Holds(data["ErrorMsg"].s) else TypePanic
  }

  /** Go's `/` on integers truncates toward zero. */
  function Quot(a: int, b: int): int
    requires b > 0
  {
    if a >= 0 then a / b else -((-a) / b)
  }

  /** The title `Handle` shows for a status. */
  function TitleFor(status: Int64): string
  {
    if status == 404 then "Page Not Found"
    else if status == 500 then "Internal Server Error"
    else "Status - " + FormatInt(status)
  }

  /** The template `Handle` renders: `status/<status/10>x`. */
  function TemplateName(status: Int64): string
  {
    "status/" + FormatInt(Quot(status, 10)) + "x"
  }

  /** The two environment names martini compares in `Handle`. */
  const Dev: string := "development"
  const Prod: string := "production"

  /** What `Handle` leaves in `Data`. The source guards the error message with
      `martini.Dev != martini.Prod`, a comparison of two different constants,
      so the message is stored in every environment. */
  function HandleData(data: map<string, Value>, status: Int64, desc: string, err: Option<string>)
    : (r: map<string, Value>)
    ensures r.Keys == data.Keys + {"Description", "Status", "Title"} + (if err.Some? then {"ErrorMsg"} else {})
    ensures r["Description"] == Text("desc:" + desc) && r["Status"] == Number(status)
    ensures r["Title"] == Text(TitleFor(status))
    ensures err.Some? ==> r["ErrorMsg"] == ErrorValue(err.value)
    ensures err.None? && "ErrorMsg" in data ==> r["ErrorMsg"] == data["ErrorMsg"]
    ensures forall k :: k in data && k !in {"Description", "Status", "Title", "ErrorMsg"} ==> r[k] == data[k]
  {
    var d := if err.Some? && Dev != Prod then data["ErrorMsg" := ErrorValue(err.value)] else data;
    d["Description" := Text("desc:" + desc)]["Status" := Number(status)]["Title" := Text(TitleFor(status))]
  }

  /** Distinct statuses get distinct titles. */
  lemma TitleInjective(a: Int64, b: Int64)
    requires TitleFor(a) == TitleFor(b)
    ensures a == b
  {
    var pre := "Status - ";
    var ta, tb := TitleFor(a), TitleFor(b);
    assert |ta| == |tb| && ta[0] == tb[0];
    if a != 404 && a != 500 {
      assert ta[0] == 'S';
    }
    if b != 404 && b != 500 {
      assert tb[0] == 'S';
    }
    if a != 404 && a != 500 && b != 404 && b != 500 {
      assert FormatInt(a) == ta[|pre|..];
      assert FormatInt(b) == tb[|pre|..];
      ParseFormat(a);
      ParseFormat(b);
    }
  }

  /** Two statuses share a template exactly when they agree once the last
      digit is dropped (404 and 401 both render `status/40x`). */
  lemma TemplateByTens(a: Int64, b: Int64)
    ensures TemplateName(a) == TemplateName(b) <==> Quot(a, 10) == Quot(b, 10)
  {
    var ta, tb := FormatInt(Quot(a, 10)), FormatInt(Quot(b, 10));
    if TemplateName(a) == TemplateName(b) {
      assert |ta| == |tb|;
      assert ta == TemplateName(a)[7..|TemplateName(a)| - 1];
      assert tb == TemplateName(b)[7..|TemplateName(b)| - 1];
      ParseFormat(Quot(a, 10));
      ParseFormat(Quot(b, 10));
    }
  }

  /** After `Handle` reports an error, `GetErrMsg` panics: the entry holds an
      error value, and `.(string)` does not accept it. */
  lemma ErrMsgAfterHandlePanics(data: map<string, Value>, status: Int64, desc: string, msg: string)
    ensures ErrorMessage(HandleData(data, status, desc, Some(msg))) == TypePanic
  {
  }

  /** The loop that copies the first value of every form field into `Params`. */
  method CopyForm(form: map<string, seq<string>>) returns (params: map<string, string>)
    requires forall k :: k in form ==> |form[k]| > 0
    ensures params.Keys == form.Keys
    ensures forall k :: k in form ==> params[k] == form[k][0]
  {
    params := map[];
    var todo := form.Keys;
    while todo != {}
      invariant todo <= form.Keys
      invariant params.Keys == form.Keys - todo
      invariant forall k :: k in params ==> params[k] == form[k][0]
      decreases todo
    {
      var k :| k in todo;
      params := params[k := form[k][0]];
      todo := todo - {k};
    }
  }

  class Context {
    /** The server's cookie secret; empty disables `SetSecureCookie`. */
    const secret: Bytes
    /** The request's cookies, in the order `Request.Cookies()` gives them. */
    const cookies: seq<RequestCookie>
    var params: map<string, string>
    var data: map<string, Value>
    var header: Header

    /** The per-request part of `ContextWithCookieSecret`: a fresh context
        whose `Params` hold the first value of each form field, with the
        `Date` and default `Content-Type` headers set. `date` is the current
        time already formatted as RFC 1123. */
    constructor (secret: Bytes, cookies: seq<RequestCookie>, form: map<string, seq<string>>,
                 header: Header, date: string)
      requires forall k :: k in form ==> |form[k]| > 0
      ensures this.secret == secret && this.cookies == cookies
      ensures params.Keys == form.Keys && forall k :: k in form ==> params[k] == form[k][0]
      ensures data == map[]
      ensures this.header == HeaderSet(HeaderSet(header, "Date", WebTime(date)),
                                       "Content-Type", "text/html; charset=utf-8")
    {
      this.secret := secret;
      this.cookies := cookies;
      data := map[];
      var p := CopyForm(form);
      params := p;
      this.header := HeaderSet(HeaderSet(header, "Date", WebTime(date)),
                               "Content-Type", "text/html; charset=utf-8");
    }

    /** `SetHeader`: replace the values of `hdr` when `unique`, append
        otherwise; no other header changes. */
    method SetHeader(hdr: string, val: string, unique: bool)
      modifies this`header
      ensures header == if unique then HeaderSet(old(header), hdr, val) else HeaderAdd(old(header), hdr, val)
    {
      if unique {
        header := HeaderSet(header, hdr, val);
      } else {
        header := HeaderAdd(header, hdr, val);
      }
    }

    /** `SetCookie`: always appends a `Set-Cookie` header; `render` is the
        cookie's `String()` form. */
    method SetCookie(cookie: Cookie, render: Cookie -> string)
      modifies this`header
      ensures header == HeaderAdd(old(header), "Set-Cookie", render(cookie))
    {
      SetHeader("Set-Cookie", render(cookie), false);
    }

    /** `SetSecureCookie`: with an empty secret nothing happens; otherwise one
        `Set-Cookie` header is appended for the signed value written at
        `now`. */
    method SetSecureCookie(mac: Mac, name: string, val: Bytes, age: Int64, now: Int64,
                           render: Cookie -> string)
      modifies this`header
      ensures secret == [] ==> header == old(header)
      ensures secret != [] ==>
        header == HeaderAdd(old(header), "Set-Cookie", render(SecureCookieFor(mac, secret, name, val, age, now).value))
    {
      if |secret| == 0 {
        return;
      }
      var vs := Base64.Encode(val);
      var timestamp := FormatInt(now);
      var sig := CookieSig(mac, secret, vs, timestamp);
      var cookie := Join([vs, timestamp, sig]);
      SetCookie(NewCookie(name, cookie, age, now), render);
    }

    /** `GetSecureCookie`: walks the request's cookies and returns at the
        first one named `name`. */
    method GetSecureCookie(mac: Mac, name: string, now: Int64) returns (r: Outcome)
      ensures r == Lookup(mac, secret, cookies, name, now)
      ensures r == NoCookie <==> forall j :: 0 <= j < |cookies| ==> cookies[j].name != name
    {
      NoCookieIffNoName(mac, secret, cookies, name, now);
      var i := 0;
      while i < |cookies|
        invariant 0 <= i <= |cookies|
        invariant Lookup(mac, secret, cookies, name, now) == Lookup(mac, secret, cookies[i..], name, now)
      {
        if cookies[i].name != name {
          assert cookies[i..][1..] == cookies[i + 1..];
          i := i + 1;
          continue;
        }
        var parts := SplitN(cookies[i].value, 3);
        SplitNCount(cookies[i].value, 3);
        if |parts| < 3 {
          // parts[1] or parts[2] is out of range
          return Panic;
        }
        var val, timestamp, sig := parts[0], parts[1], parts[2];
        if CookieSig(mac, secret, val, timestamp) != sig {
          return BadSignature;
        }
        var ts := ParseInt(timestamp).value;
        if Wrap64(now - MaxAge) > ts {
          return Expired;
        }
        var res := Base64.Decode(val);
        if res.Some? {
          return Accepted(res.value);
        }
        return AcceptedUndecodable;
      }
      return NoCookie;
    }

    /** `ContentType`: chooses the type and sets the `Content-Type` header
        only when the choice is not empty. */
    method ContentType(val: string, mimeTypes: map<string, string>) returns (ctype: string)
      modifies this`header
      ensures ctype == ContentTypeFor(val, mimeTypes)
      ensures header == if ctype != "" then HeaderSet(old(header), "Content-Type", ctype) else old(header)
    {
      if '/' in val {
        ctype := val;
      } else {
        var ext := val;
        if !HasPrefix(ext, ".") {
          ext := "." + ext;
        }
        ctype := TypeByExtension(mimeTypes, ext);
      }
      if ctype != "" {
        SetHeader("Content-Type", ctype, true);
      }
    }

    /** `HasApiError`. */
    method HasApiError() returns (r: Asserted<bool>)
      ensures r == ErrorFlag(data)
    {
      if "HasError" !in data {
        return Holds(false);
      }
      r := if data["HasError"].Flag? then Holds(data["HasError"].b) else TypePanic;
    }

    /** `HasError`. */
    method HasError() returns (r: Asserted<bool>)
      ensures r == ErrorFlag(data)
    {
      if "HasError" !in data {
        return Holds(false);
      }
      r := if data["HasError"].Flag? then Holds(data["HasError"].b) else TypePanic;
    }

    /** `GetErrMsg`. */
    method GetErrMsg() returns (r: Asserted<string>)
      ensures r == ErrorMessage(data)
    {
      r := if "ErrorMsg" in data && data["ErrorMsg"].Text? then Holds(data["ErrorMsg"].s) else TypePanic;
    }

    /** `Handle`: records the error (if any), the description, the status and
        a title in `Data`, and returns the template it renders. */
    method Handle(status: Int64, desc: string, err: Option<string>) returns (template: string)
      modifies this`data
      ensures data == HandleData(old(data), status, desc, err)
      ensures template == TemplateName(status)
    {
      if err.Some? {
        if Dev != Prod {
          data := data["ErrorMsg" := ErrorValue(err.value)];
        }
      }
      data := data["Description" := Text("desc:" + desc)];
      data := data["Status" := Number(status)];
      if status == 404 {
        data := data["Title" := Text("Page Not Found")];
      } else if status == 500 {
        data := data["Title" := Text("Internal Server Error")];
      } else {
        data := data["Title" := Text("Status - " + FormatInt(status))];
      }
      template := "status/" + FormatInt(Quot(status, 10)) + "x";
    }
  }
}
