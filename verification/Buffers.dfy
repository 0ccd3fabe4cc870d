/** Character buffers that hold NUL-terminated text, and the string functions the explainer uses on them. */
module Buffers {
  import opened CStrings
  import opened Blanks

  lemma {:induction false} HeldFrom(b: string, from: nat, to: nat)
    requires from <= to < |b| && b[to] == NUL && forall i :: from <= i < to ==> b[i] != NUL
    ensures Held(b[from..]) == b[from..to]
  {
    SpanUnique(b[from..], IsNul, to - from);
  }

  /** `strpbrk`, the end of the text standing for "not found". */
  method Find(b: array<char>, from: nat, stop: char -> bool) returns (i: nat)
    requires from < b.Length && NUL in b[from..]
    ensures i == from + Span(Held(b[from..]), stop)
    ensures from <= i < b.Length && b[from..i] == Held(b[from..])[..i - from]
    ensures NUL in b[i..]
    ensures Held(b[i..]) == Held(b[from..])[i - from..]
  {
    ghost var k :| from <= k < b.Length && b[k] == NUL;
    i := from;
    while b[i] != NUL && !stop(b[i])
      invariant from <= i <= k
      invariant forall j :: from <= j < i ==> b[j] != NUL && !stop(b[j])
      decreases k - i
    {
      i := i + 1;
    }
    FindHeld(b[..], from, i, stop);
    assert b[..][i..] == b[i..] && b[..][from..] == b[from..] && b[..][from..i] == b[from..i];
    assert b[i..][k - i] == NUL;
  }

  lemma {:induction false} FindHeld(b: string, from: nat, i: nat, stop: char -> bool)
    requires from <= i < |b| && NUL in b[i..] && (b[i] == NUL || stop(b[i]))
    requires forall j :: from <= j < i ==> b[j] != NUL && !stop(b[j])
    ensures i == from + Span(Held(b[from..]), stop)
    ensures b[from..i] == Held(b[from..])[..i - from]
    ensures Held(b[i..]) == Held(b[from..])[i - from..]
  {
    var t := b[i..];
    var m := Span(t, IsNul);
    assert m < |t| by {
      var x :| 0 <= x < |t| && t[x] == NUL;
      assert IsNul(t[x]);
    }
    assert forall j :: i <= j < i + m ==> b[j] == t[j - i] && !IsNul(t[j - i]);
    HeldFrom(b, i, i + m);
    HeldFrom(b, from, i + m);
    var h := Held(b[from..]);
    assert h == b[from..i + m] && h[..i - from] == b[from..i] && h[i - from..] == b[i..i + m];
    SpanUnique(h, stop, i - from);
  }

  /** Dropping trailing blanks by overwriting them with NULs. */
  method TrimInPlace(b: array<char>)
    requires NUL in b[..]
    modifies b
    ensures NUL in b[..]
    ensures Held(b[..]) == TrimEnd(old(Held(b[..])))
  {
    hide Held, Span, NulFree;
    var n := Find(b, 0, IsNul);
    assert b[0..] == b[..];
    ghost var h := Held(b[..]);
    EndOfHeld(b[..]);
    while n > 0 && b[n - 1] == ' '
      invariant 0 <= n < b.Length && b[n] == NUL && NulFree(b[..n])
      invariant TrimEnd(b[..n]) == TrimEnd(h)
    {
      ghost var t := b[..n];
      n := n - 1;
      b[n] := NUL;
      assert b[..n] == t[..n];
      PrefixNulFree(t, n);
    }
    HeldPrefix(b[..], n);
    assert b[..][n] == NUL;
  }

  lemma {:induction false} EndOfHeld(b: string)
    requires NUL in b
    ensures var n := Span(Held(b), IsNul);
            n < |b| && b[n] == NUL && Held(b) == b[..n] && NulFree(b[..n])
  {
    assert Span(b, IsNul) < |b| by {
      var x :| 0 <= x < |b| && b[x] == NUL;
      assert IsNul(b[x]);
    }
    assert forall i :: 0 <= i < |Held(b)| ==> Held(b)[i] in Held(b);
    SpanUnique(Held(b), IsNul, |Held(b)|);
  }

  lemma {:induction false} PrefixNulFree(s: string, n: nat)
    requires n <= |s| && NulFree(s)
    ensures NulFree(s[..n])
  {
    assert forall c :: c in s[..n] ==> c in s;
  }

  lemma {:induction false} HeldHead(b: string, from: nat)
    requires from < |b| && NUL in b[from..]
    ensures var t := Held(b[from..]);
            && (b[from] == NUL <==> t == "")
            && (b[from] != NUL ==>
                  && t[0] == b[from] && from + 1 < |b| && NUL in b[from + 1..]
                  && Held(b[from + 1..]) == t[1..])
  {
    var t := b[from..];
    EndOfHeld(t);
    if b[from] != NUL {
      assert t[1..] == b[from + 1..];
      var x :| 0 <= x < |t| && t[x] == NUL;
      assert b[from + 1..][x - 1] == NUL;
      EndOfHeld(t[1..]);
      assert Span(t, IsNul) == 1 + Span(t[1..], IsNul);
    }
  }

  /** Buffer contents from `from` on, after a NUL has been written somewhere before `from`. */
  lemma {:induction false} TextAfter(b: string, c: string, from: nat, to: nat)
    requires NulFree(c) && from <= to <= |c| < |b| && b[to] == NUL
    requires forall i :: from <= i < to ==> b[i] == c[i]
    ensures NUL in b[from..] && Held(b[from..]) == c[from..to]
  {
    assert forall i :: from <= i < to ==> c[i] in c;
    HeldFrom(b, from, to);
    assert b[from..][to - from] == NUL;
    assert b[from..to] == c[from..to];
  }

  lemma {:induction false} HeldText(b: string, c: string)
    requires NUL in b && Held(b) == c
    ensures NulFree(c) && |c| < |b| && b[|c|] == NUL && forall i :: 0 <= i < |c| ==> b[i] == c[i] && c[i] != NUL
  {
    EndOfHeld(b);
    assert forall i :: 0 <= i < |c| ==> c[i] in c;
  }
}
