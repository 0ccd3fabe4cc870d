/** `construct_command_explained_with_the_rest`: rebuilding a command from the arguments that the
    iterator has not passed yet. */
module CommandRest {
  import opened CStrings
  import opened Blanks
  import opened CommandExplainer

  /** The joined text is one buffer; for no arguments at all its terminator is written past the end. */
  datatype Rebuilt = Rebuilt(outcome: Outcome) | WritesPastEnd

  /** A word that redirects nothing. */
  predicate Plain(w: string) { Word(w) && forall c :: c in w ==> !IsRedirect(c) && c != NUL }

  predicate AllPlain(ws: seq<string>) { forall w :: w in ws ==> Plain(w) }

  function JoinedSize(ws: seq<string>): nat {
    if ws == [] then 0 else |ws[0]| + 1 + JoinedSize(ws[1..])
  }

  lemma {:induction false} JoinedSizeUnwords(ws: seq<string>)
    ensures ws != [] ==> JoinedSize(ws) == |Unwords(ws)| + 1
  {
    if ws != [] { JoinedSizeUnwords(ws[1..]); }
  }

  // ----- The arguments of any built command are plain words

  lemma {:induction false} HeadWordsPlain(ws: seq<string>)
    requires AllWords(ws) && forall w :: w in ws ==> NulFree(w)
    ensures AllPlain(HeadWords(ws, IsRedirect))
  {
    if ws != [] {
      var w := ws[0];
      var n := Span(w, IsRedirect);
      assert w in ws && Word(w);
      assert forall c :: c in w[..n] ==> c in w;
      if n == |w| {
        assert w[..n] == w;
        HeadWordsPlain(ws[1..]);
      }
    }
  }

  lemma {:induction false} WordsNulFree(s: string)
    requires NulFree(s)
    ensures forall w :: w in Words(s) ==> NulFree(w)
    decreases |s|
  {
    if s != "" {
      assert forall c :: c in s[1..] ==> c in s;
      if s[0] == ' ' {
        WordsNulFree(s[1..]);
      } else {
        var n := Span(s, IsBlank);
        assert forall c :: c in s[..n] || c in s[n..] ==> c in s;
        WordsNulFree(s[n..]);
      }
    }
  }

  lemma {:induction false} ParamsPlain(s: string)
    requires NulFree(s) && Explain(s).Built?
    ensures AllPlain(Explain(s).explained.params)
  {
    hide NulFree, Words, HeadWords, Unwords, InName, OutName, Plain;
    WordsNulFree(s);
    HeadWordsPlain(Words(s));
    ParamsOfPlain(CommandWords(s));
  }

  lemma {:induction false} ParamsOfPlain(ws: seq<string>)
    requires AllPlain(ws)
    ensures AllPlain(Params(ws))
  {
    if ws != [] && "./" < ws[0] {
      assert Plain(ws[0]) by { assert ws[0] in ws; }
      assert forall c :: c in ws[0][2..] ==> c in ws[0];
      assert Plain("./") && Plain(ws[0][2..]);
      assert forall w :: w in ws[1..] ==> w in ws;
    }
  }

  // ----- Explaining joined plain words

  lemma {:induction false} HeadOfPlain(ws: seq<string>)
    requires AllPlain(ws)
    ensures HeadWords(ws, IsRedirect) == ws
  {
    if ws != [] {
      assert ws[0] in ws;
      assert forall i :: 0 <= i < |ws[0]| ==> ws[0][i] in ws[0];
      SpanUnique(ws[0], IsRedirect, |ws[0]|);
      HeadOfPlain(ws[1..]);
    }
  }

  lemma {:induction false} UnwordsPlain(ws: seq<string>)
    requires AllPlain(ws)
    ensures forall c :: c in Unwords(ws) ==> !IsRedirect(c) && c != NUL
  {
    if ws != [] {
      assert ws[0] in ws;
      UnwordsPlain(ws[1..]);
    }
  }

  /** The text of plain words explains to those words, with no redirection. */
  lemma {:induction false} ExplainPlain(ws: seq<string>)
    requires AllPlain(ws)
    ensures NulFree(Unwords(ws))
    ensures Explain(Unwords(ws)) ==
            if DetachedPrefix(ws) then AssertionFails
            else Built(Explained(Unwords(ws), Params(ws), None, None, None))
  {
    var c := Unwords(ws);
    WordsUnwords(ws);
    HeadOfPlain(ws);
    UnwordsPlain(ws);
    assert forall i :: 0 <= i < |c| ==> c[i] in c;
    SpanUnique(c, IsIn, |c|);
    SpanUnique(c, IsOut, |c|);
  }

  method CopyWord(s: array<char>, k: nat, w: string)
    requires k + |w| <= s.Length
    modifies s
    ensures s[..k + |w|] == old(s[..k]) + w
  {
    var j := 0;
    while j < |w|
      invariant 0 <= j <= |w|
      invariant s[..k + j] == old(s[..k]) + w[..j]
    {
      s[k + j] := w[j];
      assert s[..k + j + 1] == s[..k + j] + [w[j]];
      j := j + 1;
    }
  }

  method SizeOfRest(params: seq<string>, it: nat) returns (size: nat)
    requires it <= |params|
    ensures size == JoinedSize(params[it..])
  {
    size := 0;
    var i := it;
    while i < |params|
      invariant it <= i <= |params| && size + JoinedSize(params[i..]) == JoinedSize(params[it..])
    {
      assert params[i..][1..] == params[i + 1..];
      size := size + |params[i]| + 1;
      i := i + 1;
    }
  }

  lemma {:induction false} UnwordsStep(ws: seq<string>, i: nat)
    requires i < |ws|
    ensures Unwords(ws[i..]) == ws[i] + if i + 1 < |ws| then " " + Unwords(ws[i + 1..]) else ""
  {
    assert ws[i..][0] == ws[i] && ws[i..][1..] == ws[i + 1..];
  }

  method JoinRest(params: seq<string>, it: nat, s: array<char>) returns (k: nat)
    requires it <= |params| && s.Length >= |Unwords(params[it..])|
    modifies s
    ensures k <= s.Length && s[..k] == Unwords(params[it..])
  {
    hide Unwords;
    ghost var text := Unwords(params[it..]);
    EmptyRest(params);
    k := 0;
    var i := it;
    while i < |params|
      invariant it <= i <= |params| && k <= |text|
      invariant if i < |params| then s[..k] + Unwords(params[i..]) == text else s[..k] == text
    {
      UnwordsStep(params, i);
      ghost var before := s[..k];
      CopyWord(s, k, params[i]);
      k := k + |params[i]|;
      assert s[..k] == before + params[i];
      if i + 1 < |params| {
        s[k] := ' ';
        assert s[..k + 1] == before + params[i] + " ";
        assert text == s[..k + 1] + Unwords(params[i + 1..]);
        k := k + 1;
      }
      i := i + 1;
    }
  }

  lemma EmptyRest(ws: seq<string>)
    ensures Unwords(ws[|ws|..]) == "" && JoinedSize(ws[|ws|..]) == 0
  {
  }

  /** `size` cells are allocated for the joined text and `written` cells are written: exactly all of
      them, unless no argument is left, when the terminator goes one past the (empty) allocation. */
  method ConstructWithTheRest(params: seq<string>, it: nat)
      returns (r: Rebuilt, size: nat, written: nat)
    requires it <= |params| && AllPlain(params)
    ensures r.WritesPastEnd? <==> it == |params|
    ensures written <= size <==> it < |params|
    ensures it < |params| ==> written == size && r == Rebuilt(Explain(Unwords(params[it..])))
  {
    hide Unwords, JoinedSize, Explain, Plain;
    size := SizeOfRest(params, it);
    var s := new char[size];
    ghost var tail := params[it..];
    JoinedSizeUnwords(tail);
    EmptyRest(params);
    var k := JoinRest(params, it, s);
    written := k + 1;
    if k == s.Length { return WritesPastEnd, size, written; }
    s[k] := NUL;
    assert forall w :: w in tail ==> w in params;
    ExplainPlain(tail);
    var outcome := ConstructCommandExplained(s[..k]);
    r := Rebuilt(outcome);
  }

  /** Rebuilding from any non-empty tail of any built command's arguments gives exactly that tail
      without redirections if and only if its first word does not begin with `./`, or is all there is
      and is `./` itself. */
  lemma {:induction false} TailRebuilt(s: string, it: nat)
    requires NulFree(s) && Explain(s).Built? && it < |Explain(s).explained.params|
    ensures var tail := Explain(s).explained.params[it..];
            Explain(Unwords(tail)) == Built(Explained(Unwords(tail), tail, None, None, None))
            <==> !("./" <= tail[0]) || tail == ["./"]
  {
    hide Explain, Unwords, Plain;
    var tail := Explain(s).explained.params[it..];
    ParamsPlain(s);
    assert forall w :: w in tail ==> w in Explain(s).explained.params;
    ExplainPlain(tail);
    if "./" < tail[0] {
      assert Params(tail)[0] == "./" != tail[0];
    } else if "./" <= tail[0] && |tail| == 1 {
      assert tail[0] == "./" && tail == [tail[0]];
    }
  }
}
