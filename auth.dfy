/** The authorization middleware (src/util/auth.js): it reads the `Authorization` header,
    takes the token out of it with `split('Bearer ')[1]`, verifies it, and either stores the
    verified claims on the request and calls the next handler or answers with an error.
    Token verification (signature, secret, expiry) is a parameter `verify`: `None` is its
    thrown error, `Some(c)` the decoded claims. */
module Auth {
  import opened Common

  /** The claims a session token carries. */
  datatype Claims = Claims(id: ObjectId, email: string, username: string)

  const Marker := "Bearer "

  const MissingHeader := "Authorization header is required"
  const MalformedHeader := "Authentication token should contain 'Bearer [token]"
  const InvalidToken := "Invalid/Expired Token"

  /** The marker's seven characters stand in s from position i on. */
  predicate MarkerAt(s: string, i: nat)
  {
    && i + |Marker| <= |s|
    && s[i] == 'B' && s[i + 1] == 'e' && s[i + 2] == 'a' && s[i + 3] == 'r'
    && s[i + 4] == 'e' && s[i + 5] == 'r' && s[i + 6] == ' '
  }

  predicate NoMarker(s: string)
  {
    forall k: nat :: k < |s| ==> !MarkerAt(s, k)
  }

  /** `s.indexOf('Bearer ', from)`: the first occurrence of the marker at or after from. */
  function IndexOfMarker(s: string, from: nat): (r: Option<nat>)
    decreases |s| - from
    ensures r.Some? ==> from <= r.value && MarkerAt(s, r.value)
    ensures r.Some? ==> forall k: nat :: from <= k < r.value ==> !MarkerAt(s, k)
    ensures r.None? <==> forall k: nat :: from <= k < |s| ==> !MarkerAt(s, k)
  {
    if |s| < from + |Marker| then None
    else if MarkerAt(s, from) then Some(from)
    else IndexOfMarker(s, from + 1)
  }

  /** A marker inside a slice of s is a marker of s. */
  lemma MarkerInSlice(s: string, lo: nat, hi: nat, k: nat)
    requires lo <= hi <= |s|
    requires MarkerAt(s[lo..hi], k)
    ensures MarkerAt(s, lo + k) && lo + k + |Marker| <= hi
  {
    var t := s[lo..hi];
    assert t[k] == s[lo + k] && t[k + 6] == s[lo + k + 6];
    assert t[k + 1] == s[lo + k + 1] && t[k + 2] == s[lo + k + 2] && t[k + 3] == s[lo + k + 3];
    assert t[k + 4] == s[lo + k + 4] && t[k + 5] == s[lo + k + 5];
  }

  /** `header.split('Bearer ')[1]`, with `None` for JavaScript's `undefined`: the text after
      the first marker, up to the next marker or the end. */
  function ExtractToken(header: string): (r: Option<string>)
    ensures r.None? <==> NoMarker(header)
    ensures r.Some? ==> NoMarker(r.value) && |r.value| + |Marker| <= |header|
  {
    match IndexOfMarker(header, 0)
    case None => None
    case Some(p) =>
      var start := p + |Marker|;
      var stop := match IndexOfMarker(header, start) case None => |header| case Some(q) => q;
      var t := header[start..stop];
      assert NoMarker(t) by {
        forall k: nat | k < |t| ensures !MarkerAt(t, k) {
          if MarkerAt(t, k) { MarkerInSlice(header, start, stop, k); }
        }
      }
      Some(t)
  }

  /** Behind a marker-free prefix, the marker that follows it is the first one. */
  lemma FirstMarkerAfter(a: string, b: string)
    requires NoMarker(a) && MarkerAt(b, 0)
    ensures IndexOfMarker(a + b, 0) == Some(|a|)
  {
    var s := a + b;
    assert MarkerAt(s, |a|) by {
      assert s[|a|] == b[0] && s[|a| + 6] == b[6];
      assert s[|a| + 1] == b[1] && s[|a| + 2] == b[2] && s[|a| + 3] == b[3];
      assert s[|a| + 4] == b[4] && s[|a| + 5] == b[5];
    }
    assert s[0..|a|] == a;
    forall k: nat | k < |a| ensures !MarkerAt(s, k) {
      if k + |Marker| <= |a| && MarkerAt(s, k) {
        MarkerInSliceBack(s, 0, |a|, k);
      }
    }
  }

  /** From the start of a marker-free segment, the next marker is where the rest begins. */
  lemma NextMarkerAfter(a: string, t: string, rest: string)
    requires NoMarker(t)
    requires rest == [] || MarkerAt(rest, 0)
    ensures IndexOfMarker(a + t + rest, |a|)
         == if rest == [] then None else Some(|a| + |t|)
  {
    var s := a + t + rest;
    var q := |a| + |t|;
    forall k: nat | |a| <= k < q ensures !MarkerAt(s, k) {
      if k + |Marker| <= q && MarkerAt(s, k) {
        assert s[|a|..q] == t;
        MarkerInSliceBack(s, |a|, q, k);
      }
    }
    if rest != [] {
      assert MarkerAt(s, q) by {
        assert s[q] == rest[0] && s[q + 6] == rest[6];
        assert s[q + 1] == rest[1] && s[q + 2] == rest[2] && s[q + 3] == rest[3];
        assert s[q + 4] == rest[4] && s[q + 5] == rest[5];
      }
    }
  }

  /** A marker of s that lies inside a slice is a marker of the slice. */
  lemma MarkerInSliceBack(s: string, lo: nat, hi: nat, k: nat)
    requires lo <= k && k + |Marker| <= hi <= |s|
    requires MarkerAt(s, k)
    ensures MarkerAt(s[lo..hi], k - lo)
  {
    var t := s[lo..hi];
    var j := k - lo;
    assert t[j] == s[k] && t[j + 6] == s[k + 6];
    assert t[j + 1] == s[k + 1] && t[j + 2] == s[k + 2] && t[j + 3] == s[k + 3];
    assert t[j + 4] == s[k + 4] && t[j + 5] == s[k + 5];
  }

  /** The extraction, stated from the other side: a header made of a marker-free prefix,
      the marker, a marker-free token and a rest that is empty or starts a new marker
      yields exactly that token. The marker need not open the header. */
  lemma ExtractTokenOf(pre: string, t: string, rest: string)
    requires NoMarker(pre) && NoMarker(t)
    requires rest == [] || MarkerAt(rest, 0)
    ensures ExtractToken(pre + Marker + t + rest) == Some(t)
  {
    var h := pre + Marker + t + rest;
    assert h == pre + (Marker + t + rest);
    FirstMarkerAfter(pre, Marker + t + rest);
    var a := pre + Marker;
    assert h == a + t + rest;
    NextMarkerAfter(a, t, rest);
    assert h[|a|..|a| + |t|] == t;
  }

  /** The outcome of the middleware: the next handler runs with the claims attached, or the
      first error response is sent. */
  datatype Decision = Proceed(claims: Claims) | Reject(error: string)

  /** The middleware's decision. An absent or empty header is falsy; so is an undefined or
      empty token. */
  function Gate(header: Option<string>, verify: string -> Option<Claims>): (d: Decision)
    ensures (header.None? || header == Some("")) ==> d == Reject(MissingHeader)
    ensures header.Some? && header.value != "" && NoMarker(header.value) ==> d == Reject(MalformedHeader)
    ensures header.Some? && ExtractToken(header.value) == Some("") ==> d == Reject(MalformedHeader)
    ensures d.Proceed? <==> header.Some? && ExtractToken(header.value).Some?
                             && ExtractToken(header.value).value != ""
                             && verify(ExtractToken(header.value).value).Some?
    ensures header.Some? && ExtractToken(header.value).Some? && ExtractToken(header.value).value != ""
            && verify(ExtractToken(header.value).value).None? ==>
              d == Reject(InvalidToken)
    ensures d.Proceed? ==> Some(d.claims) == verify(ExtractToken(header.value).value)
    ensures d.Reject? ==> d.error in {MissingHeader, MalformedHeader, InvalidToken}
  {
    if header.None? || header.value == "" then Reject(MissingHeader)
    else match ExtractToken(header.value)
      case None => Reject(MalformedHeader)
      case Some(token) =>
        if token == "" then Reject(MalformedHeader)
        else match verify(token)
          case None => Reject(InvalidToken)
          case Some(c) => Proceed(c)
  }

  /** With a well-formed `Bearer <token>` header the request goes through exactly when the
      token verifies, and then with the verified claims. */
  lemma BearerHeader(t: string, verify: string -> Option<Claims>)
    requires t != [] && NoMarker(t)
    ensures Gate(Some(Marker + t), verify)
         == if verify(t).Some? then Proceed(verify(t).value) else Reject(InvalidToken)
  {
    ExtractTokenOf("", t, "");
    assert "" + Marker + t + "" == Marker + t;
  }

  /** The request object as far as the middleware is concerned. */
  class Request {
    const authorization: Option<string>
    var user: Option<Claims>

    constructor (authorization: Option<string>)
      ensures this.authorization == authorization && user.None?
    {
      this.authorization := authorization;
      user := None;
    }
  }

  /** Runs the middleware on a request: on `Proceed` the claims are stored in `req.user`
      (and the next handler is called); otherwise the first error is the response. */
  method CheckAuth(req: Request, verify: string -> Option<Claims>) returns (d: Decision)
    modifies req
    ensures d == Gate(req.authorization, verify)
    ensures req.user == if d.Proceed? then Some(d.claims) else old(req.user)
  {
    var header := req.authorization;
    if header.None? || header.value == "" {
      return Reject(MissingHeader);
    }
    var token := ExtractToken(header.value);
    if token.None? || token.value == "" {
      return Reject(MalformedHeader);
    }
    var verified := verify(token.value);
    if verified.None? {
      return Reject(InvalidToken);
    }
    req.user := verified;
    return Proceed(verified.value);
  }
}
