/** The QPACK static table (src/app/qpack/qpack/static_table.c:9-110; Appendix A of
    RFC 9204), each column read by halving the index range. */
module QpackStaticTable {
  import opened Arith
  import opened Options

  const STATIC_COUNT := 99

  /** The field names, in index order. */
  function StaticName(i: nat): string
    requires i < STATIC_COUNT
  {
    if i < 56 then (
      if i < 14 then (
        if i < 7 then (
          if i < 4 then (
            if i < 2 then (if i < 1 then ":authority" else ":path")
            else if i < 3 then "age" else "content-disposition"
          )
          else if i < 6 then (if i < 5 then "content-length" else "cookie")
          else "date"
        )
        else if i < 11 then (
          if i < 9 then (if i < 8 then "etag" else "if-modified-since")
          else if i < 10 then "if-none-match" else "last-modified"
        )
        else if i < 13 then (if i < 12 then "link" else "location")
        else "referer"
      )
      else if i < 33 then (
        if i < 29 then (
          if i < 22 then (if i < 15 then "set-cookie" else ":method")
          else if i < 24 then ":scheme" else ":status"
        )
        else if i < 32 then (if i < 31 then "accept" else "accept-encoding")
        else "accept-ranges"
      )
      else if i < 42 then (
        if i < 36 then (if i < 35 then "access-control-allow-headers" else "access-control-allow-origin")
        else "cache-control"
      )
      else if i < 55 then (if i < 44 then "content-encoding" else "content-type")
      else "range"
    )
    else if i < 85 then (
      if i < 75 then (
        if i < 63 then (
          if i < 61 then (if i < 59 then "strict-transport-security" else "vary")
          else if i < 62 then "x-content-type-options" else "x-xss-protection"
        )
        else if i < 73 then (if i < 72 then ":status" else "accept-language")
        else "access-control-allow-credentials"
      )
      else if i < 81 then (
        if i < 79 then (if i < 76 then "access-control-allow-headers" else "access-control-allow-methods")
        else if i < 80 then "access-control-expose-headers" else "access-control-request-headers"
      )
      else if i < 84 then (if i < 83 then "access-control-request-method" else "alt-svc")
      else "authorization"
    )
    else if i < 92 then (
      if i < 89 then (
        if i < 87 then (if i < 86 then "content-security-policy" else "early-data")
        else if i < 88 then "expect-ct" else "forwarded"
      )
      else if i < 91 then (if i < 90 then "if-range" else "origin")
      else "purpose"
    )
    else if i < 95 then (
      if i < 94 then (if i < 93 then "server" else "timing-allow-origin")
      else "upgrade-insecure-requests"
    )
    else if i < 97 then (if i < 96 then "user-agent" else "x-forwarded-for")
    else "x-frame-options"
  }

  /** The field values, in index order. */
  function StaticValue(i: nat): string
    requires i < STATIC_COUNT
  {
    if i < 52 then (
      if i < 31 then (
        if i < 20 then (
          if i < 15 then (
            if i < 3 then (
              if i < 2 then (if i < 1 then "" else "/")
              else "0"
            )
            else if i < 5 then (if i < 4 then "" else "0")
            else ""
          )
          else if i < 18 then (
            if i < 17 then (if i < 16 then "CONNECT" else "DELETE")
            else "GET"
          )
          else if i < 19 then "HEAD" else "OPTIONS"
        )
        else if i < 26 then (
          if i < 23 then (
            if i < 22 then (if i < 21 then "POST" else "PUT")
            else "http"
          )
          else if i < 25 then (if i < 24 then "https" else "103")
          else "200"
        )
        else if i < 29 then (
          if i < 28 then (if i < 27 then "304" else "404")
          else "503"
        )
        else if i < 30 then "*/*" else "application/dns-message"
      )
      else if i < 42 then (
        if i < 37 then (
          if i < 34 then (
            if i < 33 then (if i < 32 then "gzip, deflate, br" else "bytes")
            else "cache-control"
          )
          else if i < 36 then (if i < 35 then "content-type" else "*")
          else "max-age=0"
        )
        else if i < 40 then (
          if i < 39 then (if i < 38 then "max-age=2592000" else "max-age=604800")
          else "no-cache"
        )
        else if i < 41 then "no-store" else "public, max-age=31536000"
      )
      else if i < 47 then (
        if i < 45 then (
          if i < 44 then (if i < 43 then "br" else "gzip")
          else "application/dns-message"
        )
        else if i < 46 then "application/javascript" else "application/json"
      )
      else if i < 50 then (
        if i < 49 then (if i < 48 then "application/x-www-form-urlencoded" else "image/gif")
        else "image/jpeg"
      )
      else if i < 51 then "image/png" else "text/css"
    )
    else if i < 74 then (
      if i < 63 then (
        if i < 58 then (
          if i < 55 then (
            if i < 54 then (if i < 53 then "text/html; charset=utf-8" else "text/plain")
            else "text/plain;charset=utf-8"
          )
          else if i < 57 then (if i < 56 then "bytes=0-" else "max-age=31536000")
          else "max-age=31536000; includesubdomains"
        )
        else if i < 61 then (
          if i < 60 then (if i < 59 then "max-age=31536000; includesubdomains; preload" else "accept-encoding")
          else "origin"
        )
        else if i < 62 then "nosniff" else "1; mode=block"
      )
      else if i < 69 then (
        if i < 66 then (
          if i < 65 then (if i < 64 then "100" else "204")
          else "206"
        )
        else if i < 68 then (if i < 67 then "302" else "400")
        else "403"
      )
      else if i < 72 then (
        if i < 71 then (if i < 70 then "421" else "425")
        else "500"
      )
      else if i < 73 then "" else "FALSE"
    )
    else if i < 85 then (
      if i < 80 then (
        if i < 77 then (
          if i < 76 then (if i < 75 then "TRUE" else "*")
          else "get"
        )
        else if i < 79 then (if i < 78 then "get, post, options" else "options")
        else "content-length"
      )
      else if i < 83 then (
        if i < 82 then (if i < 81 then "content-type" else "get")
        else "post"
      )
      else if i < 84 then "clear" else ""
    )
    else if i < 93 then (
      if i < 91 then (
        if i < 87 then (if i < 86 then "script-src 'none'; object-src 'none'; base-uri 'none'" else "1")
        else ""
      )
      else if i < 92 then "prefetch" else ""
    )
    else if i < 97 then (
      if i < 95 then (if i < 94 then "*" else "1")
      else ""
    )
    else if i < 98 then "deny" else "sameorigin"
  }

  /** A C string: the bytes before the first NUL. */
  function NulAt(mem: seq<byte>): (k: nat)
    ensures k <= |mem|
    ensures forall i :: 0 <= i < k ==> mem[i] != 0
    ensures k < |mem| ==> mem[k] == 0
  {
    if |mem| == 0 || mem[0] == 0 then 0
    else
      var k := 1 + NulAt(mem[1..]);
      assert forall i :: 0 < i < k ==> mem[i] == mem[1..][i - 1];
      k
  }

  function CStr(mem: seq<byte>): seq<byte>
  {
    mem[..NulAt(mem)]
  }

  lemma {:induction false} CStrIs(mem: seq<byte>, k: nat)
    requires k < |mem| && mem[k] == 0 && forall i :: 0 <= i < k ==> mem[i] != 0
    ensures CStr(mem) == mem[..k]
  {
  }

  /** A string constant's bytes with its terminator. */
  function Mem(s: string): (m: seq<byte>)
    ensures |m| == |s| + 1 && m[|s|] == 0
  {
    seq(|s|, i requires 0 <= i < |s| => (s[i] as int) % 256) + [0]
  }

  function NameOf(i: nat): seq<byte>
    requires i < STATIC_COUNT
  {
    CStr(Mem(StaticName(i)))
  }

  function ValueOf(i: nat): seq<byte>
    requires i < STATIC_COUNT
  {
    CStr(Mem(StaticValue(i)))
  }

  /** The first entry from i on with this name and this value. */
  function FindFrom(i: nat, name: seq<byte>, value: seq<byte>): (r: Option<nat>)
    requires i <= STATIC_COUNT
    ensures r.Some? ==> i <= r.value < STATIC_COUNT && NameOf(r.value) == name && ValueOf(r.value) == value
    ensures forall j :: i <= j < (if r.Some? then r.value else STATIC_COUNT) ==>
            NameOf(j) != name || ValueOf(j) != value
    decreases STATIC_COUNT - i
  {
    if i == STATIC_COUNT then None
    else if NameOf(i) == name && ValueOf(i) == value then Some(i)
    else FindFrom(i + 1, name, value)
  }

  /** Byte by byte up to the terminator both must reach together. */
  method StrEq(a: seq<byte>, b: seq<byte>) returns (same: bool)
    requires 0 in a && 0 in b
    ensures same == (CStr(a) == CStr(b))
  {
    var i := 0;
    while a[i] == b[i]
      invariant i < |a| && i < |b| && a[..i] == b[..i]
      invariant forall k :: 0 <= k < i ==> a[k] != 0 && b[k] != 0
      decreases |a| - i
    {
      if a[i] == 0 {
        return true;
      }
      i := i + 1;
      Longer(a, i);
      Longer(b, i);
    }
    Differ(a, b, i);
    return false;
  }

  lemma {:induction false} Longer(a: seq<byte>, i: nat)
    requires 0 in a && i <= |a| && forall k :: 0 <= k < i ==> a[k] != 0
    ensures i < |a| && i <= NulAt(a) < |a|
  {
    var z :| 0 <= z < |a| && a[z] == 0;
    assert z >= NulAt(a);
  }

  lemma {:induction false} Differ(a: seq<byte>, b: seq<byte>, i: nat)
    requires 0 in a && 0 in b && i < |a| && i < |b| && a[i] != b[i]
    requires forall k :: 0 <= k < i ==> a[k] != 0 && b[k] != 0
    ensures CStr(a) != CStr(b)
  {
    Longer(a, i);
    Longer(b, i);
    if NulAt(a) == NulAt(b) {
      assert CStr(a)[i] == a[i] && CStr(b)[i] == b[i];
    }
  }

  method StaticFind(name: seq<byte>, value: seq<byte>) returns (index: int)
    requires 0 in name && 0 in value
    ensures var r := FindFrom(0, CStr(name), CStr(value)); index == if r.Some? then r.value else -1
  {
    hide StaticName, StaticValue, CStr;
    for i := 0 to STATIC_COUNT
      invariant FindFrom(0, CStr(name), CStr(value)) == FindFrom(i, CStr(name), CStr(value))
    {
      var same := StrEq(Mem(StaticName(i)), name);
      if same {
        same := StrEq(Mem(StaticValue(i)), value);
        if same {
          return i;
        }
      }
    }
    return -1;
  }

  /** A value with no NUL in it is its own C string; one with a NUL never is. */
  lemma {:induction false} NulFree(v: seq<byte>)
    ensures CStr(v + [0]) == v <==> 0 !in v
  {
    if 0 !in v {
      CStrIs(v + [0], |v|);
    } else {
      var k := NulAt(v + [0]);
      var i :| 0 <= i < |v| && v[i] == 0;
      assert (v + [0])[i] == 0;
    }
  }
}
