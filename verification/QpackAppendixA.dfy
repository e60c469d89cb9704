/** Appendix A of RFC 9204, written out row by row, and the table read against it. */
module QpackAppendixA {
  import opened QpackStaticTable

  const APPENDIX_A: seq<(string, string)> := [
    (":authority", ""),
    (":path", "/"),
    ("age", "0"),
    ("content-disposition", ""),
    ("content-length", "0"),
    ("cookie", ""),
    ("date", ""),
    ("etag", ""),
    ("if-modified-since", ""),
    ("if-none-match", ""),
    ("last-modified", "")
  ] + [
    ("link", ""),
    ("location", ""),
    ("referer", ""),
    ("set-cookie", ""),
    (":method", "CONNECT"),
    (":method", "DELETE"),
    (":method", "GET"),
    (":method", "HEAD"),
    (":method", "OPTIONS"),
    (":method", "POST"),
    (":method", "PUT")
  ] + [
    (":scheme", "http"),
    (":scheme", "https"),
    (":status", "103"),
    (":status", "200"),
    (":status", "304"),
    (":status", "404"),
    (":status", "503"),
    ("accept", "*/*"),
    ("accept", "application/dns-message"),
    ("accept-encoding", "gzip, deflate, br"),
    ("accept-ranges", "bytes")
  ] + [
    ("access-control-allow-headers", "cache-control"),
    ("access-control-allow-headers", "content-type"),
    ("access-control-allow-origin", "*"),
    ("cache-control", "max-age=0"),
    ("cache-control", "max-age=2592000"),
    ("cache-control", "max-age=604800"),
    ("cache-control", "no-cache"),
    ("cache-control", "no-store"),
    ("cache-control", "public, max-age=31536000"),
    ("content-encoding", "br"),
    ("content-encoding", "gzip")
  ] + [
    ("content-type", "application/dns-message"),
    ("content-type", "application/javascript"),
    ("content-type", "application/json"),
    ("content-type", "application/x-www-form-urlencoded"),
    ("content-type", "image/gif"),
    ("content-type", "image/jpeg"),
    ("content-type", "image/png"),
    ("content-type", "text/css"),
    ("content-type", "text/html; charset=utf-8"),
    ("content-type", "text/plain"),
    ("content-type", "text/plain;charset=utf-8")
  ] + [
    ("range", "bytes=0-"),
    ("strict-transport-security", "max-age=31536000"),
    ("strict-transport-security", "max-age=31536000; includesubdomains"),
    ("strict-transport-security", "max-age=31536000; includesubdomains; preload"),
    ("vary", "accept-encoding"),
    ("vary", "origin"),
    ("x-content-type-options", "nosniff"),
    ("x-xss-protection", "1; mode=block"),
    (":status", "100"),
    (":status", "204"),
    (":status", "206")
  ] + [
    (":status", "302"),
    (":status", "400"),
    (":status", "403"),
    (":status", "421"),
    (":status", "425"),
    (":status", "500"),
    ("accept-language", ""),
    ("access-control-allow-credentials", "FALSE"),
    ("access-control-allow-credentials", "TRUE"),
    ("access-control-allow-headers", "*"),
    ("access-control-allow-methods", "get")
  ] + [
    ("access-control-allow-methods", "get, post, options"),
    ("access-control-allow-methods", "options"),
    ("access-control-expose-headers", "content-length"),
    ("access-control-request-headers", "content-type"),
    ("access-control-request-method", "get"),
    ("access-control-request-method", "post"),
    ("alt-svc", "clear"),
    ("authorization", ""),
    ("content-security-policy", "script-src 'none'; object-src 'none'; base-uri 'none'"),
    ("early-data", "1"),
    ("expect-ct", "")
  ] + [
    ("forwarded", ""),
    ("if-range", ""),
    ("origin", ""),
    ("purpose", "prefetch"),
    ("server", ""),
    ("timing-allow-origin", "*"),
    ("upgrade-insecure-requests", "1"),
    ("user-agent", ""),
    ("x-forwarded-for", ""),
    ("x-frame-options", "deny"),
    ("x-frame-options", "sameorigin")
  ]

  lemma {:induction false} Rows0(i: nat)
    requires 0 <= i < 11
    ensures |APPENDIX_A| == 99 && APPENDIX_A[i] == (StaticName(i), StaticValue(i))
  {
    assert i == 0 || i == 1 || i == 2 || i == 3 || i == 4 || i == 5 ||
           i == 6 || i == 7 || i == 8 || i == 9 || i == 10;
  }

  lemma {:induction false} Rows11(i: nat)
    requires 11 <= i < 22
    ensures |APPENDIX_A| == 99 && APPENDIX_A[i] == (StaticName(i), StaticValue(i))
  {
    assert i == 11 || i == 12 || i == 13 || i == 14 || i == 15 || i == 16 ||
           i == 17 || i == 18 || i == 19 || i == 20 || i == 21;
  }

  lemma {:induction false} Rows22(i: nat)
    requires 22 <= i < 33
    ensures |APPENDIX_A| == 99 && APPENDIX_A[i] == (StaticName(i), StaticValue(i))
  {
    assert i == 22 || i == 23 || i == 24 || i == 25 || i == 26 || i == 27 ||
           i == 28 || i == 29 || i == 30 || i == 31 || i == 32;
  }

  lemma {:induction false} Rows33(i: nat)
    requires 33 <= i < 44
    ensures |APPENDIX_A| == 99 && APPENDIX_A[i] == (StaticName(i), StaticValue(i))
  {
    assert i == 33 || i == 34 || i == 35 || i == 36 || i == 37 || i == 38 ||
           i == 39 || i == 40 || i == 41 || i == 42 || i == 43;
  }

  lemma {:induction false} Rows44(i: nat)
    requires 44 <= i < 55
    ensures |APPENDIX_A| == 99 && APPENDIX_A[i] == (StaticName(i), StaticValue(i))
  {
    assert i == 44 || i == 45 || i == 46 || i == 47 || i == 48 || i == 49 ||
           i == 50 || i == 51 || i == 52 || i == 53 || i == 54;
  }

  lemma {:induction false} Rows55(i: nat)
    requires 55 <= i < 66
    ensures |APPENDIX_A| == 99 && APPENDIX_A[i] == (StaticName(i), StaticValue(i))
  {
    assert i == 55 || i == 56 || i == 57 || i == 58 || i == 59 || i == 60 ||
           i == 61 || i == 62 || i == 63 || i == 64 || i == 65;
  }

  lemma {:induction false} Rows66(i: nat)
    requires 66 <= i < 77
    ensures |APPENDIX_A| == 99 && APPENDIX_A[i] == (StaticName(i), StaticValue(i))
  {
    assert i == 66 || i == 67 || i == 68 || i == 69 || i == 70 || i == 71 ||
           i == 72 || i == 73 || i == 74 || i == 75 || i == 76;
  }

  lemma {:induction false} Rows77(i: nat)
    requires 77 <= i < 88
    ensures |APPENDIX_A| == 99 && APPENDIX_A[i] == (StaticName(i), StaticValue(i))
  {
    assert i == 77 || i == 78 || i == 79 || i == 80 || i == 81 || i == 82 ||
           i == 83 || i == 84 || i == 85 || i == 86 || i == 87;
  }

  lemma {:induction false} Rows88(i: nat)
    requires 88 <= i < 99
    ensures |APPENDIX_A| == 99 && APPENDIX_A[i] == (StaticName(i), StaticValue(i))
  {
    assert i == 88 || i == 89 || i == 90 || i == 91 || i == 92 || i == 93 ||
           i == 94 || i == 95 || i == 96 || i == 97 || i == 98;
  }

  /** Every row, by name and value. */
  lemma {:induction false} TableIsAppendixA(i: nat)
    requires i < STATIC_COUNT
    ensures |APPENDIX_A| == 99 && APPENDIX_A[i] == (StaticName(i), StaticValue(i))
  {
    hide StaticName, StaticValue;
    if i < 11 {
      Rows0(i);
    } else if i < 22 {
      Rows11(i);
    } else if i < 33 {
      Rows22(i);
    } else if i < 44 {
      Rows33(i);
    } else if i < 55 {
      Rows44(i);
    } else if i < 66 {
      Rows55(i);
    } else if i < 77 {
      Rows66(i);
    } else if i < 88 {
      Rows77(i);
    } else {
      Rows88(i);
    }
  }
}
