/** C strings as the two programs see them: a `string` is the text before the terminating NUL,
    and a buffer is an array of characters that may hold several NULs. */
module CStrings {
  const NUL: char := '\0'

  datatype Option<+T> = None | Some(value: T) {
    predicate IsFailure() { None? }
    function PropagateFailure<U>(): Option<U> requires None? { None }
    function Extract(): T requires Some? { value }
  }

  predicate IsNul(c: char) { c == NUL }

  predicate IsSpace(c: char) { c == ' ' || '\t' <= c <= '\r' }

  function Lower(s: string): string {
    seq(|s|, i requires 0 <= i < |s| => if 'A' <= s[i] <= 'Z' then (s[i] as int + 32) as char else s[i])
  }

  predicate NulFree(s: string) { NUL !in s }

  /** The character at `i`, where reading at the end of the text gives the terminator. */
  function CharAt(s: string, i: nat): (c: char)
    requires i <= |s|
  {
    if i < |s| then s[i] else NUL
  }

  /** Length of the longest prefix of `s` without a `stop` character (`strcspn`, and the distance
      `strpbrk` moves when its result is defaulted to the end of the text). */
  function Span(s: string, stop: char -> bool): (n: nat)
    ensures n <= |s|
    ensures forall i :: 0 <= i < n ==> !stop(s[i])
    ensures n < |s| ==> stop(s[n])
  {
    if s == "" || stop(s[0]) then 0 else 1 + Span(s[1..], stop)
  }

  /** The three facts that Span promises determine its value. */
  lemma SpanUnique(s: string, stop: char -> bool, n: nat)
    requires n <= |s|
    requires forall i :: 0 <= i < n ==> !stop(s[i])
    requires n < |s| ==> stop(s[n])
    ensures Span(s, stop) == n
  {
  }

  lemma {:induction false} SpanConcat(a: string, b: string, stop: char -> bool)
    requires forall i :: 0 <= i < |a| ==> !stop(a[i])
    ensures Span(a + b, stop) == |a| + Span(b, stop)
  {
    var s, n := a + b, |a| + Span(b, stop);
    forall i | 0 <= i < n
      ensures !stop(s[i])
    {
      if i < |a| { assert s[i] == a[i]; } else { assert s[i] == b[i - |a|]; }
    }
    SpanUnique(s, stop, n);
  }

  /** The maximal runs of `s` without a `stop` character (all the tokens of `strtok`). */
  function Pieces(s: string, stop: char -> bool): (ps: seq<string>)
    ensures forall p :: p in ps ==> p != "" && forall i :: 0 <= i < |p| ==> !stop(p[i])
    decreases |s|
  {
    if s == "" then []
    else if stop(s[0]) then Pieces(s[1..], stop)
    else
      var n := Span(s, stop);
      [s[..n]] + Pieces(s[n..], stop)
  }

  /** The text held in a buffer: everything before its first NUL. */
  function Held(buffer: string): (s: string)
    ensures NulFree(s)
  {
    buffer[..Span(buffer, IsNul)]
  }

  lemma {:induction false} HeldPrefix(buffer: string, n: nat)
    requires n < |buffer| && buffer[n] == NUL && NulFree(buffer[..n])
    ensures Held(buffer) == buffer[..n]
  {
    forall i | 0 <= i < n
      ensures !IsNul(buffer[i])
    {
      assert buffer[i] == buffer[..n][i];
    }
    SpanUnique(buffer, IsNul, n);
  }
}
