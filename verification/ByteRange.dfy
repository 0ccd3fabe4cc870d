/** Serving part of a file: `split_range` on a `Range` header, and the range decision of `send_file_gio`. */
module ByteRange {
  import opened CStrings

  const INT32_MAX: int := 0x7fff_ffff

  // ----- The header value

  predicate IsDelim(c: char) { c == '=' || c == ' ' || c == '-' }

  /** `strtok_r(s, "= -")`, all tokens. */
  function Tokens(s: string): seq<string> { Pieces(s, IsDelim) }

  predicate IsDigit(c: char) { '0' <= c <= '9' }

  function DigitOf(v: nat): char
    requires v < 10
  {
    "0123456789"[v]
  }

  /** `atoi`, on text without a minus sign: blanks, an optional plus sign, and the value of the digits. */
  function Atoi(s: string): nat {
    if s != "" && IsSpace(s[0]) then Atoi(s[1..])
    else if s != "" && s[0] == '+' then AtoiFrom(s[1..], 0)
    else AtoiFrom(s, 0)
  }

  function AtoiFrom(s: string, v: nat): nat {
    if s == "" || !IsDigit(s[0]) then v else AtoiFrom(s[1..], 10 * v + (s[0] as int - '0' as int))
  }

  function Decimal(v: nat): (s: string)
    ensures s != "" && forall i :: 0 <= i < |s| ==> IsDigit(s[i])
  {
    if v < 10 then [DigitOf(v)] else Decimal(v / 10) + [DigitOf(v % 10)]
  }

  /** The bounds that a list of tokens asks for. */
  function Bound(tokens: seq<string>, i: nat, default: int): int {
    if i < |tokens| && Lower(tokens[i]) != "bytes" then Atoi(tokens[i]) else default
  }

  method SplitRange(value: string) returns (first: int, last: int)
    ensures first == Bound(Tokens(value), 1, 0) && last == Bound(Tokens(value), 2, INT32_MAX)
  {
    first, last := 0, INT32_MAX;
    var tokens := Tokens(value);
    var i := 0;
    while i < |tokens|
      invariant 0 <= i <= |tokens|
      invariant first == if i > 1 then Bound(tokens, 1, 0) else 0
      invariant last == if i > 2 then Bound(tokens, 2, INT32_MAX) else INT32_MAX
    {
      if Lower(tokens[i]) != "bytes" {
        if i == 1 { first := Atoi(tokens[i]); } else if i == 2 { last := Atoi(tokens[i]); }
      }
      i := i + 1;
    }
  }

  lemma {:induction false} AtoiConcat(a: string, c: char, v: nat)
    requires IsDigit(c) && forall i :: 0 <= i < |a| ==> IsDigit(a[i])
    ensures AtoiFrom(a + [c], v) == 10 * AtoiFrom(a, v) + (c as int - '0' as int)
  {
    if a == "" {
      assert a + [c] == [c];
    } else {
      AtoiConcat(a[1..], c, 10 * v + (a[0] as int - '0' as int));
      assert (a + [c])[1..] == a[1..] + [c];
    }
  }

  lemma {:induction false} AtoiDecimal(v: nat)
    ensures AtoiFrom(Decimal(v), 0) == v
  {
    if v < 10 {
      DigitValue(v);
      AtoiConcat("", DigitOf(v), 0);
      assert "" + [DigitOf(v)] == Decimal(v);
    } else {
      AtoiDecimal(v / 10);
      DigitValue(v % 10);
      AtoiConcat(Decimal(v / 10), DigitOf(v % 10), 0);
    }
  }

  lemma {:induction false} DigitValue(v: nat)
    requires v < 10
    ensures IsDigit(DigitOf(v)) && DigitOf(v) as int - '0' as int == v
  {
    assert v == 0 || v == 1 || v == 2 || v == 3 || v == 4 || v == 5 || v == 6 || v == 7 || v == 8 || v == 9;
  }

  lemma {:induction false} NotBytes(s: string)
    requires s != "" && IsDigit(s[0])
    ensures Lower(s) != "bytes"
  {
    assert Lower(s)[0] == s[0];
  }

  lemma {:induction false} FirstToken(t: string, rest: string)
    requires t != "" && (forall i :: 0 <= i < |t| ==> !IsDelim(t[i])) && (rest == "" || IsDelim(rest[0]))
    ensures Tokens(t + rest) == [t] + Tokens(rest)
  {
    SpanConcat(t, rest, IsDelim);
    assert (t + rest)[..|t|] == t && (t + rest)[|t|..] == rest;
  }

  function RangeHeader(a: nat, b: nat): string { "bytes" + ("=" + (Decimal(a) + ("-" + Decimal(b)))) }

  /** `bytes=a-b` asks for `a` to `b`. */
  lemma {:induction false} RangeHeaderRead(a: nat, b: nat)
    ensures var tokens := Tokens(RangeHeader(a, b)); Bound(tokens, 1, 0) == a && Bound(tokens, 2, INT32_MAX) == b
  {
    hide Bound, Tokens;
    var da, db := Decimal(a), Decimal(b);
    DigitsNotDelim(da);
    DigitsNotDelim(db);
    LastToken(db);
    SkipDelim('-', db);
    FirstToken(da, "-" + db);
    AfterUnit(da + ("-" + db));
    assert Tokens(RangeHeader(a, b)) == ["bytes", da, db];
    BoundOf(Tokens(RangeHeader(a, b)), a, b);
  }

  lemma {:induction false} LastToken(t: string)
    requires t != "" && forall i :: 0 <= i < |t| ==> !IsDelim(t[i])
    ensures Tokens(t) == [t]
  {
    FirstToken(t, "");
    assert t + "" == t;
    NoTokens();
  }

  lemma {:induction false} AfterUnit(rest: string)
    ensures Tokens("bytes" + ("=" + rest)) == ["bytes"] + Tokens(rest)
  {
    hide Tokens;
    SkipDelim('=', rest);
    FirstToken("bytes", "=" + rest);
  }

  /** `bytes=a-` asks for `a` to the greatest number there is. `bytes=-a`, meant for the last `a` bytes, is
      read as the very same request. */
  lemma {:induction false} OpenRangeRead(a: nat)
    ensures var tokens := Tokens("bytes" + ("=" + (Decimal(a) + "-")));
            Bound(tokens, 1, 0) == a && Bound(tokens, 2, INT32_MAX) == 0x7fff_ffff
    ensures var tokens := Tokens("bytes" + ("=" + ("-" + Decimal(a))));
            Bound(tokens, 1, 0) == a && Bound(tokens, 2, INT32_MAX) == 0x7fff_ffff
  {
    hide Bound, Tokens;
    var da := Decimal(a);
    DigitsNotDelim(da);
    SkipDelim('-', "");
    NoTokens();
    assert "-" + "" == "-";
    FirstToken(da, "-");
    AfterUnit(da + "-");
    LastToken(da);
    SkipDelim('-', da);
    AfterUnit("-" + da);
    assert [da] + [] == [da];
    OpenBound(["bytes"] + [da], a);
  }

  lemma {:induction false} OpenBound(tokens: seq<string>, a: nat)
    requires tokens == ["bytes"] + [Decimal(a)]
    ensures Bound(tokens, 1, 0) == a && Bound(tokens, 2, INT32_MAX) == 0x7fff_ffff
  {
    AtoiDecimal(a);
    assert IsDigit(Decimal(a)[0]);
    NotBytes(Decimal(a));
  }

  lemma DigitsNotDelim(s: string)
    requires forall i :: 0 <= i < |s| ==> IsDigit(s[i])
    ensures forall i :: 0 <= i < |s| ==> !IsDelim(s[i])
  {
  }

  lemma SkipDelim(c: char, rest: string)
    requires IsDelim(c)
    ensures Tokens([c] + rest) == Tokens(rest)
  {
    assert ([c] + rest)[1..] == rest;
  }

  lemma NoTokens()
    ensures Tokens("") == []
  {
  }

  lemma {:induction false} BoundOf(tokens: seq<string>, a: nat, b: nat)
    requires tokens == ["bytes", Decimal(a), Decimal(b)]
    ensures Bound(tokens, 1, 0) == a && Bound(tokens, 2, INT32_MAX) == b
  {
    AtoiDecimal(a);
    AtoiDecimal(b);
    assert IsDigit(Decimal(a)[0]) && IsDigit(Decimal(b)[0]);
    NotBytes(Decimal(a));
    NotBytes(Decimal(b));
  }

  // ----- The decision

  /** A requested range, as the header left it in the request: both bounds or none. */
  datatype Request = Whole | Range(first: int, last: int)

  /** The header has a Content-Length only for 200 and 206. */
  datatype Reply = Reply(status: int, s: int, e: int, contentLength: Option<int>, body: seq<bv8>)

  /** Can anything be sent? A file of `size` bytes is treated as having one byte less. */
  predicate Satisfiable(size: nat, q: Request) {
    size >= 2 && (q.Range? ==> q.first < size - 1 && q.last >= 0 && q.first <= q.last)
  }

  function FirstByte(q: Request): int { if q.Whole? || q.first < 0 then 0 else q.first }

  function LastByte(size: nat, q: Request): int {
    if q.Whole? || q.last >= size - 2 then size - 2 else q.last
  }

  /** For every file and request (the send being complete): success exactly when the tag does not match
      and the range is satisfiable; then the bounds are in order and inside the length the server
      uses, and Content-Length, the width of Content-Range and the bytes sent agree. A matching tag
      never yields 304 but 416, and the bytes of a satisfiable range are sent even then. */
  method SendFile(file: seq<bv8>, q: Request, tagMatches: bool) returns (r: Reply)
    // without a range: all bytes but the last
    ensures q.Whole? && |file| >= 2 ==> r.body == file[..|file| - 1]
    ensures q.Whole? && |file| >= 2 && !tagMatches ==> r.status == 200 && r.contentLength == Some(|file| - 1)
    // nothing to send, or the tag matches
    ensures |file| < 2 || tagMatches ==> r.status == 416
    ensures |file| < 2 ==> r.body == []
    ensures r.status == 416 <==>
            || |file| < 2 || tagMatches
            || (q.Range? && (q.first >= |file| - 1 || q.last < 0 || q.first > q.last))
    ensures r.status == 206 ==> q.Range?
    // the last byte a range can reach
    ensures q.Range? ==> r.e <= |file| - 2 && (r.e == |file| - 2 <==> q.last >= |file| - 2)
    ensures q.Range? && q.last < |file| - 2 ==> r.e == q.last
    ensures q.Range? ==> r.s == if q.first < 0 then 0 else q.first
    ensures r.contentLength.Some? <==> r.status != 416
    // in general
    ensures r.s == FirstByte(q) && r.e == LastByte(|file|, q)
    ensures r.status == if tagMatches || !Satisfiable(|file|, q) then 416 else if q.Whole? then 200 else 206
    ensures r.status != 416 ==> 0 <= r.s <= r.e < |file| - 1
    ensures r.status != 416 ==> r.contentLength == Some(r.e - r.s + 1) && |r.body| == r.e - r.s + 1
    ensures Satisfiable(|file|, q) ==> 0 <= r.s <= r.e < |file| && r.body == file[r.s..r.e + 1]
    ensures q.Range? && Satisfiable(|file|, q) ==> r.body == BodyOf(file, q)
    ensures !Satisfiable(|file|, q) ==> r.body == []
  {
    var full := |file| - 1;
    var length := full;
    var s := if q.Whole? then 0 else q.first;
    var e := if q.Whole? then length - 1 else q.last;
    s := if s > 0 then s else 0;
    e := if e < length - 1 then e else length - 1;
    var status := if q.Range? then 206 else 200;
    if tagMatches {
      status := 304;
      length := 0;
    }
    if s >= length || e < 0 || s > e {
      status := 416;
      length := 0;
    }
    var contentLength := None;
    if status != 416 {
      length := e - s + 1;
      contentLength := Some(length);
    }
    var body := [];
    if status != 304 {
      var count := e - s + 1;
      if count > 0 { body := file[s..s + count]; }
    }
    r := Reply(status, s, e, contentLength, body);
  }

  /** The body of a satisfiable range request. */
  function BodyOf(file: seq<bv8>, q: Request): seq<bv8>
    requires q.Range? && Satisfiable(|file|, q)
  {
    file[FirstByte(q)..LastByte(|file|, q) + 1]
  }

  /** The request that the header `bytes=a-b` leads to. */
  function Asked(a: nat, b: nat): Request {
    var tokens := Tokens(RangeHeader(a, b));
    Range(Bound(tokens, 1, 0), Bound(tokens, 2, INT32_MAX))
  }

  /** An open range reaches the last byte served, for every file shorter than 2 GiB, and a suffix range of
      `a` bytes skips `a` bytes instead. */
  lemma {:induction false} OpenRangeBody(file: seq<bv8>, a: nat, header: string)
    requires header == "bytes" + ("=" + (Decimal(a) + "-")) || header == "bytes" + ("=" + ("-" + Decimal(a)))
    requires |file| <= 0x8000_0000
    ensures var q := Range(Bound(Tokens(header), 1, 0), Bound(Tokens(header), 2, INT32_MAX));
            && (Satisfiable(|file|, q) <==> a < |file| - 1)
            && (a < |file| - 1 ==> BodyOf(file, q) == file[a..|file| - 1])
  {
    hide Tokens, Bound;
    OpenRangeRead(a);
  }

  /** The bodies of adjacent ranges: `cuts[i]` to `cuts[i + 1] - 1`. */
  function Bodies(file: seq<bv8>, cuts: seq<nat>, n: nat): seq<bv8>
    requires n < |cuts|
    requires forall i :: 0 <= i < n ==>
               cuts[i] < cuts[i + 1] && Satisfiable(|file|, Asked(cuts[i], cuts[i + 1] - 1))
  {
    if n == 0 then [] else Bodies(file, cuts, n - 1) + BodyOf(file, Asked(cuts[n - 1], cuts[n] - 1))
  }

  /** Asking for adjacent ranges that tile the length the server uses gives, put together, exactly that
      much of the file. */
  lemma {:induction false} Tiling(file: seq<bv8>, cuts: seq<nat>, n: nat)
    requires n < |cuts| && cuts[0] == 0 && cuts[|cuts| - 1] == |file| - 1
    requires forall i, j :: 0 <= i < j < |cuts| ==> cuts[i] < cuts[j]
    ensures forall i :: 0 <= i < n ==> cuts[i] < cuts[i + 1] && Satisfiable(|file|, Asked(cuts[i], cuts[i + 1] - 1))
    ensures cuts[n] <= |file| && Bodies(file, cuts, n) == file[..cuts[n]]
    ensures n + 1 == |cuts| ==> Bodies(file, cuts, n) == file[..|file| - 1]
  {
    hide Tokens, RangeHeader, Bound;
    forall i | 0 <= i < n
      ensures cuts[i] < cuts[i + 1] && Satisfiable(|file|, Asked(cuts[i], cuts[i + 1] - 1))
    {
      RangeHeaderRead(cuts[i], cuts[i + 1] - 1);
      assert cuts[i + 1] <= cuts[|cuts| - 1];
    }
    if n > 0 {
      Tiling(file, cuts, n - 1);
      RangeHeaderRead(cuts[n - 1], cuts[n] - 1);
      assert cuts[n] <= cuts[|cuts| - 1];
      assert file[..cuts[n]] == file[..cuts[n - 1]] + file[cuts[n - 1]..cuts[n]];
    }
  }
}
