/** `read_line`: reading a request line byte by byte through a three-character shift register, and the
    header loop of `http_parse` around it. */
module LineReader {
  import opened CStrings
  import opened Blanks

  /** Where the first CR LF of `s` begins, or the length of `s` if it has none. */
  function LineEnd(s: string): (k: nat)
    ensures k <= |s|
    ensures k < |s| ==> k + 1 < |s| && s[k] == '\r' && s[k + 1] == '\n'
    ensures forall i :: 0 <= i < k && i + 1 < |s| ==> !(s[i] == '\r' && s[i + 1] == '\n')
  {
    if |s| < 2 then |s|
    else if s[0] == '\r' && s[1] == '\n' then 0
    else 1 + LineEnd(s[1..])
  }

  lemma LineEndUnique(s: string, k: nat)
    requires k < |s| ==> k + 1 < |s| && s[k] == '\r' && s[k + 1] == '\n'
    requires k <= |s| && forall i :: 0 <= i < k && i + 1 < |s| ==> !(s[i] == '\r' && s[i + 1] == '\n')
    ensures LineEnd(s) == k
  {
  }

  /** The bytes a connection still has to deliver before its end. */
  class Stream {
    var rest: string

    constructor (s: string)
      ensures rest == s
    {
      rest := s;
    }

    /** `read(fd, &c, 1)`: at the end of the stream `c` keeps its value. */
    method Read(c: char) returns (could: bool, c': char)
      modifies this
      ensures could <==> old(rest) != ""
      ensures could ==> c' == old(rest)[0] && rest == old(rest)[1..]
      ensures !could ==> c' == c && rest == old(rest)
    {
      if rest == "" { return false, c; }
      could, c', rest := true, rest[0], rest[1..];
    }
  }

  datatype LineResult = TooLong(rest: string) | Line(text: string, rest: string)

  /** What one call does to the stream `s`. A line is ended by CR LF; at the end of the stream the bytes
      that are left count as a line, with the last of them repeated. Lines up to `n + 1` bytes pass. */
  function ReadLineSpec(s: string, n: nat): LineResult {
    var k := LineEnd(s);
    if k < |s| then
      if k <= n + 1 then Line(s[..k], s[k + 2..]) else TooLong(s[n + 3..])
    else if |s| <= n + 2 then
      Line(if s == "" then "" else s + [s[|s| - 1]], "")
    else TooLong(s[n + 3..])
  }

  /** The byte `back` places before position `j`, or NUL if that is before the stream. */
  function Back(s: string, j: nat, back: nat): char
    requires j <= |s| && back >= 1
  {
    if back <= j then s[j - back] else NUL
  }

  /** After `j` successful reads: the register holds the last three bytes, all before it is in the buffer. */
  ghost predicate Register(s: string, rest: string, buffer: string, i: nat, j: nat, a: char, b: char, c: char) {
    && j <= |s|
    && rest == s[j..]
    && i == (if j <= 3 then 0 else j - 3)
    && i <= |buffer| && buffer[..i] == s[..i]
    && a == Back(s, j, 3) && b == Back(s, j, 2) && c == Back(s, j, 1)
    && (forall p :: 0 <= p && p + 2 < j ==> !(s[p] == '\r' && s[p + 1] == '\n'))
  }

  /** After the read that failed: everything has been read, and the last byte is there twice. */
  ghost predicate RegisterAtEnd(s: string, rest: string, buffer: string, i: nat, a: char, b: char, c: char) {
    && rest == ""
    && i == (if |s| <= 2 then 0 else |s| - 2)
    && i <= |buffer| && buffer[..i] == s[..i]
    && a == Back(s, |s|, 2) && b == c == Back(s, |s|, 1)
    && LineEnd(s) == |s|
  }

  lemma {:induction false} ReadOne(s: string, buffer: string, i: nat, j: nat, a: char, b: char, c: char,
                                   buffer': string, i': nat)
    requires j < |s| && Register(s, s[j..], buffer, i, j, a, b, c) && !(b == '\r' && c == '\n')
    requires if j >= 3 then i < |buffer| && i' == i + 1 && |buffer'| > i && buffer'[..i'] == buffer[..i] + [a]
             else i' == i && buffer' == buffer
    ensures Register(s, s[j + 1..], buffer', i', j + 1, b, c, s[j])
  {
    if j >= 3 { assert s[..i'] == s[..i] + [s[j - 3]]; }
  }

  lemma {:induction false} ReadNone(s: string, buffer: string, i: nat, a: char, b: char, c: char,
                                    buffer': string, i': nat)
    requires Register(s, "", buffer, i, |s|, a, b, c) && !(b == '\r' && c == '\n') && NulFree(s)
    requires if |s| >= 3 then i < |buffer| && i' == i + 1 && |buffer'| > i && buffer'[..i'] == buffer[..i] + [a]
             else i' == i && buffer' == buffer
    ensures RegisterAtEnd(s, "", buffer', i', b, c, c)
  {
    if |s| >= 3 { assert s[..i'] == s[..i] + [s[|s| - 3]]; }
    LineEndUnique(s, |s|);
  }

  lemma {:induction false} LineTooLong(s: string, rest: string, buffer: string, n: nat, j: nat,
                                       a: char, b: char, c: char)
    requires Register(s, rest, buffer, n, j, a, b, c) && !(b == '\r' && c == '\n') && j >= 3
    ensures ReadLineSpec(s, n) == TooLong(rest)
  {
  }

  lemma {:induction false} LineComplete(s: string, rest: string, buffer: string, n: nat, i: nat, j: nat,
                                        a: char, b: char, c: char)
    requires NulFree(s) && i <= n && Register(s, rest, buffer, i, j, a, b, c) && b == '\r' && c == '\n'
    ensures ReadLineSpec(s, n).Line? && ReadLineSpec(s, n).rest == rest
    ensures ReadLineSpec(s, n).text == buffer[..i] + if a != NUL then [a] else []
  {
    LineEndUnique(s, j - 2);
    if j >= 3 {
      assert s[j - 3] in s;
      assert s[..j - 2] == s[..i] + [a];
    }
  }

  lemma {:induction false} StreamEnded(s: string, buffer: string, n: nat, i: nat, a: char, b: char, c: char)
    requires NulFree(s) && i <= n && RegisterAtEnd(s, "", buffer, i, a, b, c)
    ensures ReadLineSpec(s, n).Line? && ReadLineSpec(s, n).rest == ""
    ensures ReadLineSpec(s, n).text ==
            buffer[..i] + (if a != NUL then [a] else []) + (if b != NUL then [b] else [])
            + (if c != NUL then [c] else [])
  {
    assert forall p :: 0 <= p < |s| ==> s[p] in s;
    if |s| >= 2 {
      assert s == s[..i] + [a] + [b];
    } else if |s| == 1 {
      assert s == [b];
    }
  }

  /** `if (c) buffer[i++] = c`. */
  method Push(buffer: array<char>, i: nat, c: char) returns (i': nat)
    requires i < buffer.Length
    modifies buffer
    ensures i' == (if c != NUL then i + 1 else i)
    ensures buffer[..i'] == old(buffer[..i]) + if c != NUL then [c] else []
    ensures forall k :: i' <= k < buffer.Length ==> buffer[k] == old(buffer[k])
  {
    i' := i;
    if c != NUL {
      buffer[i] := c;
      i' := i + 1;
    }
  }

  /** The reading loop: stops after CR LF, at the end of the stream, or when the buffer is full. */
  method Shift(stream: Stream, buffer: array<char>, n: nat, ghost s: string)
      returns (full: bool, i: nat, could: bool, a: char, b: char, c: char)
    requires NulFree(s) && stream.rest == s && buffer.Length >= n + 4
    modifies stream, buffer
    ensures full ==> ReadLineSpec(s, n) == TooLong(stream.rest)
    ensures !full ==> i <= n && forall k :: i < k < buffer.Length ==> buffer[k] == old(buffer[k])
    ensures !full && could ==>
              b == '\r' && c == '\n' && exists j: nat :: Register(s, stream.rest, buffer[..], i, j, a, b, c)
    ensures !full && !could ==> RegisterAtEnd(s, stream.rest, buffer[..], i, a, b, c)
  {
    hide Register, RegisterAtEnd, NulFree, ReadLineSpec;
    full, a, b, c, i, could := false, NUL, NUL, NUL, 0, true;
    var j := 0;
    RegisterEmpty(s, buffer[..]);
    while b != '\r' || c != '\n'
      invariant i <= n && 0 <= j && !full
      invariant could ==> Register(s, stream.rest, buffer[..], i, j, a, b, c)
      invariant !could ==> RegisterAtEnd(s, stream.rest, buffer[..], i, a, b, c)
      invariant forall k :: i < k < buffer.Length ==> buffer[k] == old(buffer[k])
      decreases |stream.rest|, could
    {
      if !could { return; }
      ghost var buffer0, i0 := buffer[..], i;
      RegisterFacts(s, stream.rest, buffer0, i, j, a, b, c);
      if j >= 3 {
        if i >= n {
          LineTooLong(s, stream.rest, buffer[..], n, j, a, b, c);
          full := true;
          return;
        }
        buffer[i] := a;
        i := i + 1;
        buffer[i] := NUL;
        assert buffer[..][..i] == buffer0[..i0] + [a];
      }
      if stream.rest == "" {
        ReadNone(s, buffer0, i0, a, b, c, buffer[..], i);
      } else {
        ReadOne(s, buffer0, i0, j, a, b, c, buffer[..], i);
      }
      a, b := b, c;
      could, c := stream.Read(c);
      j := j + 1;
    }
    assert could by {
      if !could { NoEndTwice(s, stream.rest, buffer[..], i, a, b, c); }
    }
  }

  lemma RegisterEmpty(s: string, buffer: string)
    ensures Register(s, s, buffer, 0, 0, NUL, NUL, NUL)
  {
  }

  lemma RegisterFacts(s: string, rest: string, buffer: string, i: nat, j: nat, a: char, b: char, c: char)
    requires Register(s, rest, buffer, i, j, a, b, c)
    ensures j <= |s| && rest == s[j..] && (rest == "" ==> j == |s|)
    ensures rest != "" ==> rest[0] == s[j] && rest[1..] == s[j + 1..]
  {
  }

  lemma NoEndTwice(s: string, rest: string, buffer: string, i: nat, a: char, b: char, c: char)
    requires RegisterAtEnd(s, rest, buffer, i, a, b, c)
    ensures b == c
  {
  }

  /** Every stream of non-NUL bytes. The cells of `buffer` past the first `n + 1` stand for the memory
      behind the array of the caller; `last` is the cell of the terminator, the last one written. */
  method ReadLine(stream: Stream, buffer: array<char>, n: nat) returns (ok: bool, last: nat)
    requires NulFree(stream.rest) && buffer.Length >= n + 4
    modifies stream, buffer
    ensures ok <==> ReadLineSpec(old(stream.rest), n).Line?
    ensures stream.rest == ReadLineSpec(old(stream.rest), n).rest
    ensures ok ==> last < buffer.Length && last == |ReadLineSpec(old(stream.rest), n).text|
    ensures ok ==> buffer[..last] == ReadLineSpec(old(stream.rest), n).text && buffer[last] == NUL
    ensures ok ==> forall k :: last < k < buffer.Length ==> buffer[k] == old(buffer[k])
  {
    hide Register, RegisterAtEnd, NulFree, ReadLineSpec;
    ghost var s := stream.rest;
    var full, i, could, a, b, c := Shift(stream, buffer, n, s);
    if full { return false, 0; }
    ghost var b0 := buffer[..];
    if could {
      ghost var j: nat :| Register(s, stream.rest, buffer[..], i, j, a, b, c);
      LineComplete(s, stream.rest, buffer[..], n, i, j, a, b, c);
      assert b0[..i] == buffer[..i];
      i := Push(buffer, i, a);
    } else {
      AtEndFacts(s, stream.rest, buffer[..], i, a, b, c);
      StreamEnded(s, buffer[..], n, i, a, b, c);
      assert b0[..i] == buffer[..i];
      i := Push(buffer, i, a);
      i := Push(buffer, i, b);
      i := Push(buffer, i, c);
    }
    buffer[i] := NUL;
    ok, last := true, i;
  }

  lemma AtEndFacts(s: string, rest: string, buffer: string, i: nat, a: char, b: char, c: char)
    requires RegisterAtEnd(s, rest, buffer, i, a, b, c)
    ensures rest == ""
  {
  }

  /** The line of a stream ended by CR LF: what precedes it, if that is at most `n + 1` bytes; the
      terminator falls inside the `n + 1` cells of the caller exactly for lines of at most `n` bytes. */
  lemma {:induction false} LineOf(line: string, more: string, n: nat)
    requires LineEnd(line) == |line|
    ensures ReadLineSpec(line + "\r\n" + more, n) ==
            if |line| <= n + 1 then Line(line, more) else TooLong((line + "\r\n" + more)[n + 3..])
  {
    var s := line + "\r\n" + more;
    forall i | 0 <= i < |line|
      ensures !(s[i] == '\r' && s[i + 1] == '\n')
    {
      if i + 1 < |line| { assert s[i] == line[i] && s[i + 1] == line[i + 1]; }
    }
    LineEndUnique(s, |line|);
    assert s[..|line|] == line && s[|line| + 2..] == more;
  }

  /** How many cells behind the `n + 1` cells of the caller one call writes, for every stream: one for a
      line of `n + 1` bytes; one to three for `n` to `n + 2` bytes that the end of the stream cuts off,
      because the last of them is repeated; none otherwise. */
  function Overrun(s: string, n: nat): nat {
    var k := LineEnd(s);
    if k < |s| then (if k == n + 1 then 1 else 0)
    else if s != "" && n <= |s| <= n + 2 then |s| + 1 - n
    else 0
  }

  lemma {:induction false} StaysInBuffer(s: string, n: nat)
    ensures var r := ReadLineSpec(s, n);
            && (r.Line? ==> (if |r.text| <= n then 0 else |r.text| - n) == Overrun(s, n))
            && ((r.Line? ==> |r.text| <= n) <==> Overrun(s, n) == 0)
  {
  }

  // ----- The line parsers

  /** A line is taken, refused, or stops the server: on an assertion or an uninitialised key. */
  datatype Verdict = Accepted | Refused | Aborts

  /** The request line: method, address and version. */
  function FirstLineVerdict(line: string): Verdict {
    if |Words(line)| == 3 then Accepted else if |Words(line)| < 3 then Refused else Aborts
  }

  method ParseFirstLine(line: string) returns (v: Verdict)
    ensures v == FirstLineVerdict(line)
  {
    var tokens := Words(line);
    var i := 0;
    while i < |tokens|
      invariant 0 <= i <= |tokens| && i <= 3
    {
      if i > 2 { return Aborts; }
      i := i + 1;
    }
    v := if i == 3 then Accepted else Refused;
  }

  predicate IsColon(c: char) { c == ':' }

  predicate NotColon(c: char) { c != ':' }

  /** A field line: a name, a colon and a value that is not empty; leading colons are skipped. */
  function FieldVerdict(line: string): Verdict {
    var t := line[Span(line, NotColon)..];
    if t == "" then Aborts
    else if Span(t, IsColon) + 1 < |t| then Accepted
    else Refused
  }

  function LineVerdict(i: nat, line: string): Verdict {
    if i == 0 then FirstLineVerdict(line) else FieldVerdict(line)
  }

  /** `strtok_r` on `s` from `from` on: the token is from `start` to `end`, none being left if `start` is the
      end of the text, and the next call goes on from `save`. */
  method StrTok(s: string, from: nat, delim: char -> bool) returns (start: nat, end: nat, save: nat)
    requires from <= |s|
    ensures from <= start <= end <= save <= |s|
    ensures forall k :: from <= k < start ==> delim(s[k])
    ensures start < |s| ==> start < end
    ensures forall k :: start <= k < end ==> !delim(s[k])
    ensures if end < |s| then delim(s[end]) && save == end + 1 else save == end
  {
    start := from;
    while start < |s| && delim(s[start])
      invariant from <= start <= |s| && forall k :: from <= k < start ==> delim(s[k])
    {
      start := start + 1;
    }
    end := start;
    while end < |s| && !delim(s[end])
      invariant start <= end <= |s| && forall k :: start <= k < end ==> !delim(s[k])
    {
      end := end + 1;
    }
    save := if end < |s| then end + 1 else end;
  }

  /** `t` is `s` without the white space at both ends. */
  ghost predicate Stripped(s: string, t: string) {
    && (t != "" ==> !IsSpace(t[0]) && !IsSpace(t[|t| - 1]))
    && exists lo, hi :: StrippedAt(s, t, lo, hi)
  }

  predicate StrippedAt(s: string, t: string, lo: int, hi: int) {
    && 0 <= lo <= hi <= |s| && t == s[lo..hi]
    && (forall k :: 0 <= k < lo ==> IsSpace(s[k]))
    && (forall k :: hi <= k < |s| ==> IsSpace(s[k]))
  }

  method Strip(s: string) returns (t: string)
    ensures Stripped(s, t)
  {
    var lo, hi := 0, |s|;
    while lo < |s| && IsSpace(s[lo])
      invariant 0 <= lo <= |s| && forall k :: 0 <= k < lo ==> IsSpace(s[k])
    {
      lo := lo + 1;
    }
    while hi > lo && IsSpace(s[hi - 1])
      invariant lo <= hi <= |s| && forall k :: hi <= k < |s| ==> IsSpace(s[k])
    {
      hi := hi - 1;
    }
    t := s[lo..hi];
    assert StrippedAt(s, t, lo, hi);
  }

  predicate Never(c: char) { false }

  /** The line is a name and a value, with a colon between them and perhaps some in front. */
  predicate Field(line: string, colons: string, name: string, value: string) {
    && line == colons + (name + (":" + value))
    && AllColons(colons)
    && name != "" && (forall k :: 0 <= k < |name| ==> name[k] != ':')
    && value != ""
  }

  predicate AllColons(s: string) { forall k :: 0 <= k < |s| ==> s[k] == ':' }

  ghost predicate IsField(line: string) {
    exists colons: string, name: string, value: string :: Field(line, colons, name, value)
  }

  /** What a line is, read off its characters: accepted with a name, a colon and a value; stopping the
      server with nothing but colons; refused otherwise. */
  lemma {:induction false} FieldOrNot(line: string)
    ensures FieldVerdict(line) == Accepted <==> IsField(line)
    ensures FieldVerdict(line) == Aborts <==> AllColons(line)
  {
    if FieldVerdict(line) == Accepted {
      AcceptedField(line);
    }
    forall colons: string, name: string, value: string | Field(line, colons, name, value)
      ensures FieldVerdict(line) == Accepted
    {
      hide FieldVerdict;
      FieldAccepted(name, value);
      ColonsSkipped(colons, name + (":" + value));
    }
    var a := Span(line, NotColon);
    if line[a..] == "" {
      assert line[..a] == line;
    }
  }

  lemma {:induction false} AcceptedField(line: string)
    requires FieldVerdict(line) == Accepted
    ensures IsField(line)
  {
    var a := Span(line, NotColon);
    var b := a + Span(line[a..], IsColon);
    CutField(line, a, b);
    assert Field(line, line[..a], line[a..b], line[b + 1..]);
  }

  lemma {:induction false} CutField(line: string, a: nat, b: nat)
    requires a <= b < |line| && line[b] == ':'
    ensures line == line[..a] + (line[a..b] + (":" + line[b + 1..]))
  {
  }

  lemma {:induction false} ColonsSkipped(colons: string, rest: string)
    requires AllColons(colons)
    ensures FieldVerdict(colons + rest) == FieldVerdict(rest)
  {
    SpanConcat(colons, rest, NotColon);
    var n := Span(rest, NotColon);
    assert (colons + rest)[|colons| + n..] == rest[n..];
  }

  /** A field line: the first token up to a colon, and all the rest as the second; there is never a third.
      The name is put in lower case, and both lose the white space around them. */
  method ParseNormalLine(line: string) returns (v: Verdict, key: string, value: string)
    ensures v == FieldVerdict(line)
    ensures v == Accepted ==> FieldRead(line, key, value)
  {
    hide FieldVerdict, Stripped;
    var i := 0;
    key, value := "", "";
    ghost var name, bare := "", "";
    var start, end, save := StrTok(line, 0, IsColon);
    ghost var a, b := start, end;
    while start < |line|
      invariant 0 <= i <= 2 && a <= b <= |line|
      invariant i == 0 ==> start == a && end == b && save == if end < |line| then end + 1 else end
      invariant i > 0 ==> a < b && name == line[a..b] && Stripped(name, bare) && key == Lower(bare)
      invariant i == 1 ==> end == |line| && save == |line| && start == if b < |line| then b + 1 else |line|
      invariant i == 2 ==> start == |line| && b + 1 < |line| && Stripped(line[b + 1..], value)
      invariant i == 0 && start == |line| ==> a == |line|
      decreases 2 - i
    {
      var token := Strip(line[start..end]);
      if i == 0 {
        name, bare := line[start..end], token;
        key := Lower(token);
      } else if i == 1 {
        value := token;
        assert line[start..end] == line[b + 1..];
      } else {
        assert false;
      }
      i := i + 1;
      ghost var from := save;
      start, end, save := StrTok(line, save, Never);
      assert start > from ==> Never(line[from]);
    }
    v := if i == 0 then Aborts else if i == 2 then Accepted else Refused;
    FieldTokens(line, a, b);
    if v == Accepted {
      CutField(line, a, b);
      assert Field(line, line[..a], name, line[b + 1..]);
      assert FieldReadAs(line, key, value, line[..a], name, line[b + 1..], bare);
    }
  }

  lemma {:induction false} FieldTokens(line: string, a: nat, b: nat)
    requires a <= b <= |line| && AllColons(line[..a]) && (a < |line| ==> a < b)
    requires forall k :: a <= k < b ==> !IsColon(line[k])
    requires b < |line| ==> IsColon(line[b])
    ensures FieldVerdict(line) == if a == |line| then Aborts else if b + 1 < |line| then Accepted else Refused
  {
    forall k | 0 <= k < a
      ensures !NotColon(line[k])
    {
      assert line[..a][k] == line[k];
    }
    SpanUnique(line, NotColon, a);
    var t := line[a..];
    SpanUnique(t, IsColon, b - a);
  }

  /** The fields that an accepted line gives. */
  ghost predicate FieldRead(line: string, key: string, value: string) {
    exists colons: string, name: string, rest: string, bare: string ::
      FieldReadAs(line, key, value, colons, name, rest, bare)
  }

  ghost predicate FieldReadAs(line: string, key: string, value: string,
                              colons: string, name: string, rest: string, bare: string) {
    Field(line, colons, name, rest) && Stripped(name, bare) && key == Lower(bare) && Stripped(rest, value)
  }

  /** A name and a value make a field line that is accepted. */
  lemma {:induction false} FieldAccepted(name: string, value: string)
    requires name != "" && value != "" && forall i :: 0 <= i < |name| ==> !IsColon(name[i])
    ensures FieldVerdict(name + (":" + value)) == Accepted
  {
    var line := name + (":" + value);
    assert line[0] == name[0];
    SpanUnique(line, NotColon, 0);
    assert line[0..] == line;
    SpanConcat(name, ":" + value, IsColon);
    assert Span(":" + value, IsColon) == 0;
  }

  // ----- The header loop

  /** How the loop over the lines ends: a line too long or refused; the server stopped; or the lines before
      the first empty one, and what is left of the stream. */
  datatype Header = Failed | Aborted | Lines(lines: seq<string>, rest: string)

  lemma {:induction false} Consumes(s: string, n: nat)
    ensures var r := ReadLineSpec(s, n);
            && (r.Line? && r.text != "" ==> |r.rest| < |s|)
            && (NulFree(s) ==> NulFree(r.rest) && (r.Line? && r.text != "" ==> r.text[0] != NUL))
  {
    assert forall k, c :: 0 <= k <= |s| && c in s[k..] ==> c in s;
    assert s != "" ==> s[0] in s;
  }

  function Prepend(line: string, h: Header): Header {
    if h.Lines? then Lines([line] + h.lines, h.rest) else h
  }

  /** The lines from the `i`-th on. */
  function HeaderSpec(s: string, n: nat, i: nat): Header
    decreases |s|
  {
    match ReadLineSpec(s, n)
    case TooLong(_) => Failed
    case Line(text, rest) =>
      if text == "" then Lines([], rest)
      else
        match LineVerdict(i, text)
        case Refused => Failed
        case Aborts => Aborted
        case Accepted =>
          Consumes(s, n);
          Prepend(text, HeaderSpec(rest, n, i + 1))
  }

  function PrependAll(lines: seq<string>, h: Header): Header {
    if h.Lines? then Lines(lines + h.lines, h.rest) else h
  }

  lemma PrependMore(lines: seq<string>, line: string, h: Header)
    ensures PrependAll(lines, Prepend(line, h)) == PrependAll(lines + [line], h)
    ensures PrependAll([], h) == h
  {
    if h.Lines? { assert lines + ([line] + h.lines) == (lines + [line]) + h.lines; }
  }

  method ParseHeader(stream: Stream, n: nat) returns (h: Header)
    requires NulFree(stream.rest)
    modifies stream
    ensures h == HeaderSpec(old(stream.rest), n, 0)
    ensures h.Lines? ==> stream.rest == h.rest
  {
    hide NulFree, ReadLineSpec, FirstLineVerdict, FieldVerdict, Prepend, PrependAll;
    var buffer := new char[n + 4];
    var i, lines := 0, [];
    ghost var whole := HeaderSpec(stream.rest, n, 0);
    PrependMore([], "", whole);
    while true
      invariant NulFree(stream.rest) && i >= 0
      invariant whole == PrependAll(lines, HeaderSpec(stream.rest, n, i))
      decreases |stream.rest|
    {
      Consumes(stream.rest, n);
      var ok, last := ReadLine(stream, buffer, n);
      NothingPrepended(lines, stream.rest);
      if !ok { return Failed; }
      assert last > 0 ==> buffer[..last][0] == buffer[0];
      if buffer[0] == NUL { return Lines(lines, stream.rest); }
      var text := buffer[..last];
      var v;
      if i == 0 {
        v := ParseFirstLine(text);
      } else {
        var key, value;
        v, key, value := ParseNormalLine(text);
      }
      if v == Refused { return Failed; }
      if v == Aborts { return Aborted; }
      PrependMore(lines, text, HeaderSpec(stream.rest, n, i + 1));
      lines, i := lines + [text], i + 1;
    }
  }

  lemma NothingPrepended(lines: seq<string>, rest: string)
    ensures PrependAll(lines, Failed) == Failed && PrependAll(lines, Aborted) == Aborted
    ensures PrependAll(lines, Lines([], rest)) == Lines(lines, rest)
  {
  }

  /** Header lines as they are sent, each ended by CR LF. */
  function Render(lines: seq<string>): string {
    if lines == [] then "" else lines[0] + "\r\n" + Render(lines[1..])
  }

  predicate HeaderLine(line: string, n: nat) { line != "" && LineEnd(line) == |line| && |line| <= n }

  /** The loop equals splitting at CR LF up to the first empty line, and leaves the stream at the body. */
  lemma {:induction false} HeaderRead(lines: seq<string>, body: string, n: nat, i: nat)
    requires forall k :: 0 <= k < |lines| ==> HeaderLine(lines[k], n + 1) && LineVerdict(i + k, lines[k]) == Accepted
    ensures HeaderSpec(Render(lines) + "\r\n" + body, n, i) == Lines(lines, body)
    decreases |lines|
  {
    hide ReadLineSpec, LineEnd, LineVerdict;
    if lines == [] {
      assert "" + "\r\n" + body == Render(lines) + "\r\n" + body;
      NoLine();
      LineOf("", body, n);
    } else {
      var more := Render(lines[1..]) + "\r\n" + body;
      assert Render(lines) + "\r\n" + body == lines[0] + "\r\n" + more;
      LineOf(lines[0], more, n);
      forall k | 0 <= k < |lines[1..]|
        ensures HeaderLine(lines[1..][k], n + 1) && LineVerdict(i + 1 + k, lines[1..][k]) == Accepted
      {
        assert lines[1..][k] == lines[k + 1] && i + 1 + k == i + (k + 1);
      }
      HeaderRead(lines[1..], body, n, i + 1);
      assert lines == [lines[0]] + lines[1..];
    }
  }

  /** Lines that pass, and then one that does not. */
  lemma {:induction false} HeaderStops(lines: seq<string>, bad: string, more: string, n: nat, i: nat)
    requires forall k :: 0 <= k < |lines| ==> HeaderLine(lines[k], n + 1) && LineVerdict(i + k, lines[k]) == Accepted
    requires bad != "" && LineEnd(bad) == |bad|
    ensures var h := HeaderSpec(Render(lines) + (bad + "\r\n" + more), n, i);
            && (|bad| > n + 1 ==> h == Failed)
            && (|bad| <= n + 1 && LineVerdict(i + |lines|, bad) == Refused ==> h == Failed)
            && (|bad| <= n + 1 && LineVerdict(i + |lines|, bad) == Aborts ==> h == Aborted)
    decreases |lines|
  {
    hide ReadLineSpec, LineEnd, LineVerdict;
    var end := bad + "\r\n" + more;
    if lines == [] {
      assert Render(lines) + end == end;
      LineOf(bad, more, n);
    } else {
      var rest := Render(lines[1..]) + end;
      assert Render(lines) + end == lines[0] + "\r\n" + rest;
      LineOf(lines[0], rest, n);
      forall k | 0 <= k < |lines[1..]|
        ensures HeaderLine(lines[1..][k], n + 1) && LineVerdict(i + 1 + k, lines[1..][k]) == Accepted
      {
        assert lines[1..][k] == lines[k + 1] && i + 1 + k == i + (k + 1);
      }
      HeaderStops(lines[1..], bad, more, n, i + 1);
    }
  }

  lemma {:induction false} HeaderAccepts(s: string, n: nat, i: nat)
    requires HeaderSpec(s, n, i).Lines?
    ensures var lines := HeaderSpec(s, n, i).lines;
            forall k :: 0 <= k < |lines| ==> LineVerdict(i + k, lines[k]) == Accepted
    decreases |s|
  {
    hide ReadLineSpec, LineVerdict;
    var text, rest := ReadLineSpec(s, n).text, ReadLineSpec(s, n).rest;
    if text != "" {
      Consumes(s, n);
      HeaderAccepts(rest, n, i + 1);
      var more, lines := HeaderSpec(rest, n, i + 1).lines, HeaderSpec(s, n, i).lines;
      forall k | 0 <= k < |lines|
        ensures LineVerdict(i + k, lines[k]) == Accepted
      {
        if k > 0 { assert lines[k] == more[k - 1] && i + 1 + (k - 1) == i + k; }
      }
    }
  }

  /** A request line of three words, and then fields. */
  ghost predicate Request(lines: seq<string>) {
    forall k :: 0 <= k < |lines| ==> if k == 0 then |Words(lines[0])| == 3 else IsField(lines[k])
  }

  lemma {:induction false} VerdictOf(i: nat, line: string)
    ensures LineVerdict(i, line) == Accepted <==> if i == 0 then |Words(line)| == 3 else IsField(line)
    ensures LineVerdict(i, line) == Aborts <==> if i == 0 then |Words(line)| > 3 else AllColons(line)
  {
    FieldOrNot(line);
  }

  /** Every header that is accepted is a request line of three words and fields of a name and a value. */
  lemma {:induction false} RequestAccepted(s: string, n: nat)
    requires HeaderSpec(s, n, 0).Lines?
    ensures Request(HeaderSpec(s, n, 0).lines)
  {
    hide LineVerdict, HeaderSpec, IsField;
    HeaderAccepts(s, n, 0);
    var lines := HeaderSpec(s, n, 0).lines;
    forall k | 0 <= k < |lines|
      ensures if k == 0 then |Words(lines[0])| == 3 else IsField(lines[k])
    {
      assert LineVerdict(0 + k, lines[k]) == Accepted;
      VerdictOf(k, lines[k]);
    }
  }

  /** And every request that goes wrong fails as its first wrong line says: a line of more than `n + 1`
      bytes, a request line of fewer than three words and a field line without name or value fail it; a
      longer request line and a line of colons stop the server. */
  lemma {:induction false} RequestRefused(lines: seq<string>, bad: string, more: string, n: nat)
    requires Request(lines) && forall k :: 0 <= k < |lines| ==> HeaderLine(lines[k], n + 1)
    requires bad != "" && LineEnd(bad) == |bad|
    requires |bad| > n + 1 || if lines == [] then |Words(bad)| != 3 else !IsField(bad)
    ensures HeaderSpec(Render(lines) + (bad + "\r\n" + more), n, 0) ==
            if |bad| <= n + 1 && (if lines == [] then |Words(bad)| > 3 else AllColons(bad)) then Aborted else Failed
  {
    hide LineVerdict, HeaderSpec, IsField, AllColons, LineEnd, Render;
    forall k | 0 <= k < |lines|
      ensures LineVerdict(0 + k, lines[k]) == Accepted
    {
      VerdictOf(k, lines[k]);
    }
    VerdictOf(|lines|, bad);
    HeaderStops(lines, bad, more, n, 0);
  }

  lemma NoLine()
    ensures LineEnd("") == 0
  {
  }

  predicate HeaderLines(lines: seq<string>, n: nat) { forall line :: line in lines ==> HeaderLine(line, n) }

  /** How a stream can have led to these lines and this rest: the lines, an empty line and the rest; or
      just the lines, the stream ending where an empty line should be; or all lines but the last and
      then, cut off by the end of the stream, the last one without its repeated byte. */
  predicate Sent(s: string, lines: seq<string>, rest: string, n: nat) {
    || (s == Render(lines) + "\r\n" + rest && HeaderLines(lines, n + 1))
    || (rest == "" && s == Render(lines) && HeaderLines(lines, n + 1))
    || (rest == "" && lines != [] && CutOff(s, lines[..|lines| - 1], lines[|lines| - 1], n))
  }

  predicate CutOff(s: string, lines: seq<string>, last: string, n: nat) {
    && 2 <= |last| <= n + 3
    && last[|last| - 1] == last[|last| - 2]
    && LineEnd(last[..|last| - 1]) == |last| - 1
    && s == Render(lines) + last[..|last| - 1]
    && HeaderLines(lines, n + 1)
  }

  /** Conversely, for every stream the loop accepts: what was sent. */
  lemma {:induction false} HeaderSent(s: string, n: nat, i: nat)
    requires HeaderSpec(s, n, i).Lines?
    ensures Sent(s, HeaderSpec(s, n, i).lines, HeaderSpec(s, n, i).rest, n)
    decreases |s|
  {
    hide ReadLineSpec, LineEnd, Render, LineVerdict;
    var text, rest := ReadLineSpec(s, n).text, ReadLineSpec(s, n).rest;
    LineTaken(s, n);
    RenderMore("", []);
    if s == text + "\r\n" + rest && LineEnd(text) == |text| <= n + 1 {
      if text == "" {
        assert "" + "\r\n" + rest == "\r\n" + rest;
      } else {
        Consumes(s, n);
        HeaderSent(rest, n, i + 1);
        var h := HeaderSpec(rest, n, i + 1);
        SentMore(text, rest, h.lines, h.rest, n);
      }
    } else if text != "" {
      HeaderAtEnd(n, i + 1);
      assert HeaderSpec(s, n, i).lines == [text];
      assert "" + text[..|text| - 1] == text[..|text| - 1];
      assert [text][..0] == [];
    }
  }

  lemma {:induction false} SentMore(line: string, s: string, lines: seq<string>, rest: string, n: nat)
    requires Sent(s, lines, rest, n) && HeaderLine(line, n + 1)
    ensures Sent(line + "\r\n" + s, [line] + lines, rest, n)
  {
    hide Render, HeaderLine, LineEnd;
    RenderMore(line, lines);
    var more := [line] + lines;
    if s == Render(lines) + "\r\n" + rest && HeaderLines(lines, n + 1) {
      assert line + "\r\n" + s == (line + "\r\n" + Render(lines)) + "\r\n" + rest;
    } else if lines != [] && CutOff(s, lines[..|lines| - 1], lines[|lines| - 1], n) {
      var m := |lines| - 1;
      RenderMore(line, lines[..m]);
      assert more[..m + 1] == [line] + lines[..m] && more[m + 1] == lines[m];
      assert line + "\r\n" + s == (line + "\r\n" + Render(lines[..m])) + lines[m][..|lines[m]| - 1];
    }
  }

  lemma RenderMore(line: string, lines: seq<string>)
    ensures Render([]) == "" && Render([line] + lines) == line + "\r\n" + Render(lines)
  {
  }

  /** A line was ended by CR LF, or the stream ended: with nothing left, or with the bytes of the line
      whose last one is repeated. */
  lemma {:induction false} LineTaken(s: string, n: nat)
    requires ReadLineSpec(s, n).Line?
    ensures var r := ReadLineSpec(s, n);
            || (s == r.text + "\r\n" + r.rest && LineEnd(r.text) == |r.text| <= n + 1)
            || (s == r.text == r.rest == "")
            || (2 <= |r.text| <= n + 3 && s == r.text[..|r.text| - 1] && LineEnd(s) == |s| && r.rest == ""
                && r.text[|r.text| - 1] == r.text[|r.text| - 2])
  {
    var k := LineEnd(s);
    if k < |s| {
      assert s[k..k + 2] == "\r\n";
      assert s == s[..k] + s[k..k + 2] + s[k + 2..];
      LineEndUnique(s[..k], k);
    }
  }

  lemma HeaderAtEnd(n: nat, i: nat)
    ensures HeaderSpec("", n, i) == Lines([], "")
  {
  }
}
