/**
 The request filters' helpers of pkg/filters/filters.go: where a request
 came from, and the per-request context created on first use. The request
 id generator (a UUID) is a parameter.
 */
module Filters {
  import opened GoStrings

  /** The header a proxy sets; Go's header map stores it under this canonical key. */
  const ForwardedFor: string := "X-Forwarded-For"

  /**
   extractOriginatingIP: with the proxy header, its values joined by single
   spaces; without it, RemoteAddr up to its first ':' (the whole address when
   it has none). The flag says whether the header was present.
   */
  function ExtractOriginatingIP(headers: map<string, seq<string>>, remoteAddr: string): (r: (bool, string))
    ensures r.0 <==> ForwardedFor in headers
    ensures !r.0 ==> r.1 <= remoteAddr && ':' !in r.1
    ensures !r.0 && |r.1| < |remoteAddr| ==> remoteAddr[|r.1|] == ':'
    ensures r.0 && |headers[ForwardedFor]| == 0 ==> r.1 == ""
    ensures r.0 && |headers[ForwardedFor]| > 0 ==> headers[ForwardedFor][0] <= r.1
    ensures r.0 && |headers[ForwardedFor]| > 1 ==> OccursAt(r.1, " ", |headers[ForwardedFor][0]|)
  {
    if ForwardedFor in headers then (true, Join(headers[ForwardedFor], " "))
    else (false, Split(remoteAddr, ':')[0])
  }

  /** Without the header, an address with no ':' is returned whole. */
  lemma AddressWithoutPortIsWhole(headers: map<string, seq<string>>, remoteAddr: string)
    requires ForwardedFor !in headers && ':' !in remoteAddr
    ensures ExtractOriginatingIP(headers, remoteAddr) == (false, remoteAddr)
  {
  }

  /** "host:port" with a colon-free host gives back the host. */
  lemma HostOfHostPort(headers: map<string, seq<string>>, host: string, port: string)
    requires ForwardedFor !in headers && ':' !in host
    ensures ExtractOriginatingIP(headers, host + ":" + port) == (false, host)
  {
    var addr := host + ":" + port;
    var r := ExtractOriginatingIP(headers, addr).1;
    assert forall i | 0 <= i < |host| :: addr[i] == host[i];
    assert addr[|host|] == ':';
    // a shorter piece would end at a ':' inside the host
    assert |r| >= |host|;
    // a longer one would contain the separator
    assert |r| <= |host|;
    assert r == addr[..|host|] == host;
  }

  /** An IPv6 address in brackets is cut at its first ':', leaving only "[". */
  lemma BracketedIPv6Truncated()
    ensures ExtractOriginatingIP(map[], "[::1]:80") == (false, "[")
  {
    HostOfHostPort(map[], "[", ":1]:80");
    assert "[" + ":" + ":1]:80" == "[::1]:80";
  }

  /** Joining with one-character separators is injective on separator-free parts. */
  lemma {:induction false} JoinInjective(a: seq<string>, b: seq<string>, c: char)
    requires |a| > 0 && |b| > 0
    requires forall k | 0 <= k < |a| :: c !in a[k]
    requires forall k | 0 <= k < |b| :: c !in b[k]
    requires Join(a, [c]) == Join(b, [c])
    ensures a == b
    decreases |a|
  {
    var s := Join(a, [c]);
    if |a| == 1 && |b| == 1 {
    } else if |a| == 1 || |b| == 1 {
    } else {
      assert s == a[0] + [c] + Join(a[1..], [c]);
      assert s == b[0] + [c] + Join(b[1..], [c]);
      assert s[|a[0]|] == c && s[|b[0]|] == c;
      assert forall i | 0 <= i < |a[0]| :: s[i] == a[0][i];
      assert forall i | 0 <= i < |b[0]| :: s[i] == b[0][i];
      // each first part ends at the first separator of `s`
      assert |a[0]| <= |b[0]|;
      assert |b[0]| <= |a[0]|;
      assert a[0] == s[..|a[0]|] == b[0];
      assert Join(a[1..], [c]) == s[|a[0]| + 1..] == Join(b[1..], [c]);
      JoinInjective(a[1..], b[1..], c);
      assert a == [a[0]] + a[1..] && b == [b[0]] + b[1..];
    }
  }

  /**
   The proxy header's values can be recovered from the joined result by
   splitting on spaces, provided there is at least one and none holds a space.
   */
  lemma ForwardedValuesRecoverable(headers: map<string, seq<string>>, remoteAddr: string)
    requires ForwardedFor in headers && |headers[ForwardedFor]| > 0
    requires forall k | 0 <= k < |headers[ForwardedFor]| :: ' ' !in headers[ForwardedFor][k]
    ensures ExtractOriginatingIP(headers, remoteAddr).0
    ensures Split(ExtractOriginatingIP(headers, remoteAddr).1, ' ') == headers[ForwardedFor]
  {
    var joined := ExtractOriginatingIP(headers, remoteAddr).1;
    JoinInjective(Split(joined, ' '), headers[ForwardedFor], ' ');
  }

  /** A single proxy hop reports its value as it is. */
  lemma SingleHopForwarded(headers: map<string, seq<string>>, remoteAddr: string, v: string)
    requires ForwardedFor in headers && headers[ForwardedFor] == [v]
    ensures ExtractOriginatingIP(headers, remoteAddr) == (true, v)
  {
  }

  /** The value stored under "ctx": the request context carries the request id. */
  datatype Context = Context(requestId: string)

  /** A request attribute: a context, or anything else stored under the same key. */
  datatype Attribute = ContextAttr(ctx: Context) | OtherAttr

  const CtxKey: string := "ctx"

  /**
   GetRequestContext: the context stored under "ctx" if there is one;
   otherwise a new one with request id `newId`, stored under "ctx" (over
   anything else there) and returned. No other attribute changes.
   */
  function GetRequestContext(attrs: map<string, Attribute>, newId: string): (r: (Context, map<string, Attribute>))
    ensures CtxKey in attrs && attrs[CtxKey].ContextAttr? ==> r == (attrs[CtxKey].ctx, attrs)
    ensures !(CtxKey in attrs && attrs[CtxKey].ContextAttr?) ==> r.0.requestId == newId
    ensures r.1.Keys == attrs.Keys + {CtxKey} && r.1[CtxKey] == ContextAttr(r.0)
    ensures forall k | k in attrs && k != CtxKey :: r.1[k] == attrs[k]
  {
    if CtxKey in attrs && attrs[CtxKey].ContextAttr? then (attrs[CtxKey].ctx, attrs)
    else
      var ctx := Context(newId);
      (ctx, attrs[CtxKey := ContextAttr(ctx)])
  }

  /**
   Once a context is stored, later calls return it and change nothing,
   whatever id the generator would have produced.
   */
  lemma RequestContextIsStable(attrs: map<string, Attribute>, id1: string, id2: string)
    ensures var (ctx, attrs') := GetRequestContext(attrs, id1);
      GetRequestContext(attrs', id2) == (ctx, attrs')
  {
  }
}
