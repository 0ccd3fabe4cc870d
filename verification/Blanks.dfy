/** Words separated by blanks (only `' '` is a blank), and the squeezing of blanks that the command
    explainer performs in place. */
module Blanks {
  import opened CStrings

  predicate IsBlank(c: char) { c == ' ' }

  predicate Word(w: string) { w != "" && ' ' !in w }

  predicate AllWords(ws: seq<string>) { forall w :: w in ws ==> Word(w) }

  /** The maximal blank-free runs of `s`. */
  function Words(s: string): (ws: seq<string>)
    ensures AllWords(ws)
  {
    Pieces(s, IsBlank)
  }

  /** Words joined by single blanks. */
  function Unwords(ws: seq<string>): string {
    if ws == [] then ""
    else if |ws| == 1 then ws[0]
    else ws[0] + (" " + Unwords(ws[1..]))
  }

  function TrimEnd(s: string): (t: string)
    ensures t <= s
    ensures t == "" || t[|t| - 1] != ' '
    ensures forall i :: |t| <= i < |s| ==> s[i] == ' '
  {
    if s != "" && s[|s| - 1] == ' ' then TrimEnd(s[..|s| - 1]) else s
  }

  /** What the compaction loop keeps of `s`, `was` telling whether a blank (or nothing) came before. */
  function Squeeze(s: string, was: bool): (t: string)
    ensures |t| <= |s|
  {
    if s == "" then ""
    else if s[0] != ' ' || !was then [s[0]] + Squeeze(s[1..], s[0] == ' ')
    else Squeeze(s[1..], was)
  }

  // ----- Words and joining

  lemma {:induction false} WordsHead(w: string, rest: string)
    requires Word(w) && (rest == "" || rest[0] == ' ')
    ensures Words(w + rest) == [w] + Words(rest)
  {
    var s := w + rest;
    forall i | 0 <= i < |w|
      ensures !IsBlank(w[i])
    {
      assert w[i] in w;
    }
    SpanConcat(w, rest, IsBlank);
    assert s[0] == w[0];
    assert s[..|w|] == w && s[|w|..] == rest;
  }

  lemma {:induction false} WordsUnwords(ws: seq<string>)
    requires AllWords(ws)
    ensures Words(Unwords(ws)) == ws
  {
    if |ws| == 1 {
      WordsHead(ws[0], "");
      assert ws[0] + "" == ws[0];
    } else if |ws| > 1 {
      var rest := Unwords(ws[1..]);
      WordsUnwords(ws[1..]);
      WordsHead(ws[0], " " + rest);
      assert (" " + rest)[1..] == rest;
    }
  }

  // ----- Squeezing and trimming give the words joined by single blanks

  lemma {:induction false} SqueezeWord(w: string, rest: string, was: bool)
    requires forall i :: 0 <= i < |w| ==> w[i] != ' '
    ensures Squeeze(w + rest, was) == w + Squeeze(rest, was && w == "")
  {
    if w == "" {
      assert w + rest == rest;
    } else {
      hide Squeeze;
      SqueezeWord(w[1..], rest, false);
      SqueezeLetter(w[0], w[1..] + rest, was);
      assert w + rest == [w[0]] + (w[1..] + rest);
      assert w + Squeeze(rest, false) == [w[0]] + (w[1..] + Squeeze(rest, false));
    }
  }

  lemma {:induction false} SqueezeLetter(c: char, rest: string, was: bool)
    requires c != ' '
    ensures Squeeze([c] + rest, was) == [c] + Squeeze(rest, false)
  {
    assert ([c] + rest)[1..] == rest;
  }

  lemma {:induction false} TrimConcat(a: string, b: string)
    ensures TrimEnd(a + b) == if TrimEnd(b) == "" then TrimEnd(a) else a + TrimEnd(b)
    decreases |b|
  {
    if b == "" {
      assert a + b == a;
    } else if b[|b| - 1] == ' ' {
      TrimConcat(a, b[..|b| - 1]);
      assert (a + b)[..|a + b| - 1] == a + b[..|b| - 1];
    }
  }

  lemma {:induction false} UnwordsNonEmpty(ws: seq<string>)
    requires AllWords(ws) && ws != []
    ensures Unwords(ws) != "" && Unwords(ws)[0] != ' '
  {
    assert ws[0] in ws;
    assert ws[0][0] in ws[0];
  }

  /** One word and a blank in front of text that is squeezed and trimmed to the joined words `ws`. */
  lemma {:induction false} CompactedWord(w: string, more: string, ws: seq<string>)
    requires Word(w) && AllWords(ws) && TrimEnd(Squeeze(more, true)) == Unwords(ws)
    ensures TrimEnd(Squeeze(w + (" " + more), true)) == Unwords([w] + ws)
  {
    var kept := Squeeze(more, true);
    assert forall i :: 0 <= i < |w| ==> w[i] in w;
    SqueezeWord(w, " " + more, true);
    assert (" " + more)[1..] == more;
    TrimConcat(w, " " + kept);
    TrimConcat(" ", kept);
    assert TrimEnd(w) == w && TrimEnd(" ") == "";
    if ws != [] {
      UnwordsNonEmpty(ws);
      assert ([w] + ws)[1..] == ws;
    }
  }

  lemma {:induction false} CompactedLast(w: string)
    requires Word(w)
    ensures TrimEnd(Squeeze(w, true)) == w
  {
    assert forall i :: 0 <= i < |w| ==> w[i] in w;
    SqueezeWord(w, "", true);
    assert w + "" == w;
  }

  lemma {:induction false} WordsSkip(s: string)
    ensures Words("") == []
    ensures Words(" " + s) == Words(s)
  {
    assert (" " + s)[1..] == s;
  }

  /** Squeezing then trimming is joining the words by single blanks. */
  lemma {:induction false} Compacted(s: string)
    ensures TrimEnd(Squeeze(s, true)) == Unwords(Words(s))
    decreases |s|
  {
    hide Words;
    if s == "" {
      WordsSkip("");
    } else if s[0] == ' ' {
      Compacted(s[1..]);
      WordsSkip(s[1..]);
      assert s == " " + s[1..];
    } else {
      hide Squeeze, TrimEnd;
      var n := Span(s, IsBlank);
      var w, rest := s[..n], s[n..];
      assert s == w + rest;
      WordsHead(w, rest);
      if rest == "" {
        CompactedLast(w);
        WordsSkip("");
        assert w + "" == w;
      } else {
        assert rest == " " + rest[1..];
        Compacted(rest[1..]);
        WordsSkip(rest[1..]);
        CompactedWord(w, rest[1..], Words(rest[1..]));
      }
    }
  }

  /** Compacting a compacted text changes nothing. */
  lemma {:induction false} CompactTwice(s: string)
    ensures var c := TrimEnd(Squeeze(s, true)); TrimEnd(Squeeze(c, true)) == c
  {
    Compacted(s);
    WordsUnwords(Words(s));
    Compacted(Unwords(Words(s)));
  }

  // ----- Squeezed texts

  /** No leading blank (unless one may stand here) and no two blanks in a row. */
  predicate Squeezed(s: string, was: bool) { Squeeze(s, was) == s }

  lemma {:induction false} SqueezeTwice(s: string, was: bool)
    ensures Squeezed(Squeeze(s, was), was)
  {
    if s != "" {
      if s[0] != ' ' || !was {
        SqueezeTwice(s[1..], s[0] == ' ');
        assert Squeeze(s, was)[1..] == Squeeze(s[1..], s[0] == ' ');
      } else {
        SqueezeTwice(s[1..], was);
      }
    }
  }

  lemma {:induction false} SqueezedTail(s: string, was: bool)
    requires Squeezed(s, was) && s != ""
    ensures (s[0] == ' ' ==> !was) && Squeezed(s[1..], s[0] == ' ')
  {
    if s[0] != ' ' || !was {
      assert Squeeze(s, was)[1..] == Squeeze(s[1..], s[0] == ' ');
    }
  }

  lemma {:induction false} SqueezedPrefix(s: string, was: bool, k: nat)
    requires k <= |s| && Squeezed(s, was)
    ensures Squeezed(s[..k], was)
  {
    if k > 0 {
      SqueezedTail(s, was);
      SqueezedPrefix(s[1..], s[0] == ' ', k - 1);
      assert s[..k][1..] == s[1..][..k - 1];
    }
  }

  /** A compacted text is squeezed, and so is everything before a cut in it. */
  lemma {:induction false} CompactedPrefix(ws: seq<string>, k: nat)
    requires AllWords(ws) && k <= |Unwords(ws)|
    ensures Squeezed(Unwords(ws)[..k], true)
    ensures TrimEnd(Unwords(ws)[..k]) == Unwords(Words(Unwords(ws)[..k]))
  {
    var c := Unwords(ws);
    WordsUnwords(ws);
    Compacted(c);
    SqueezeTwice(c, true);
    SqueezedPrefix(Squeeze(c, true), true, |c|);
    assert Squeeze(c, true)[..|c|] == c;
    SqueezedPrefix(c, true, k);
    Compacted(c[..k]);
  }

  // ----- Cutting a text before a stop character commutes with splitting it into words

  /** The words before the first `stop` character. */
  function HeadWords(ws: seq<string>, stop: char -> bool): seq<string> {
    if ws == [] then []
    else
      var n := Span(ws[0], stop);
      if n == |ws[0]| then [ws[0]] + HeadWords(ws[1..], stop)
      else if n == 0 then []
      else [ws[0][..n]]
  }

  lemma {:induction false} WordsOfHeadWord(w: string, rest: string, stop: char -> bool)
    requires Word(w) && (rest == "" || rest[0] == ' ') && !stop(' ')
    requires Words(rest[..Span(rest, stop)]) == HeadWords(Words(rest), stop)
    ensures Words((w + rest)[..Span(w + rest, stop)]) == HeadWords([w] + Words(rest), stop)
  {
    hide Words;
    var s, ws := w + rest, [w] + Words(rest);
    var k := Span(w, stop);
    assert ws[1..] == Words(rest);
    if k == |w| {
      SpanConcat(w, rest, stop);
      var m := Span(rest, stop);
      assert s[..k + m] == w + rest[..m];
      assert rest[..m] == "" || rest[..m][0] == ' ';
      WordsHead(w, rest[..m]);
    } else {
      assert forall i :: 0 <= i <= k ==> s[i] == w[i];
      SpanUnique(s, stop, k);
      assert s[..k] == w[..k];
      WordsSkip("");
      if k > 0 {
        assert ' ' !in w[..k];
        WordsHead(w[..k], "");
        assert w[..k] + "" == w[..k];
      }
    }
  }

  lemma {:induction false} WordsOfHead(s: string, stop: char -> bool)
    requires !stop(' ')
    ensures Words(s[..Span(s, stop)]) == HeadWords(Words(s), stop)
    decreases |s|
  {
    if s == "" {
    } else if s[0] == ' ' {
      WordsOfHead(s[1..], stop);
      var n := Span(s[1..], stop);
      assert s[..n + 1][1..] == s[1..][..n];
    } else {
      var n := Span(s, IsBlank);
      var w, rest := s[..n], s[n..];
      WordsOfHead(rest, stop);
      assert s == w + rest;
      WordsOfHeadWord(w, rest, stop);
    }
  }
}
