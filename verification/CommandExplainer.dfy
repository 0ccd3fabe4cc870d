/** `construct_command_explained`: one buffer is squeezed, cut and tokenised in place. */
module CommandExplainer {
  import opened CStrings
  import opened Blanks
  import opened Buffers

  predicate IsIn(c: char) { c == '<' }

  predicate IsOut(c: char) { c == '>' }

  predicate IsRedirect(c: char) { IsIn(c) || IsOut(c) }

  datatype Explained = Explained(
    command: string,
    params: seq<string>,
    fileToOverwrite: Option<string>,
    fileToRead: Option<string>,
    fileToAppend: Option<string>)

  /** The function ends with `assert(k == len)`, so it either builds a result or stops the shell. */
  datatype Outcome = Built(explained: Explained) | AssertionFails

  // ----- What the function computes

  /** A file name, `t` being the text after the redirection sign. */
  function NameAt(t: string): string {
    var u := if t != "" && t[0] == ' ' then t[1..] else t;
    u[..Span(u, IsBlank)]
  }

  function InName(c: string): Option<string> {
    var p := Span(c, IsIn);
    if p < |c| then Some(NameAt(c[p + 1..])) else None
  }

  /** The text after the first `>`; a later `<` has already been overwritten by a NUL. */
  function AfterOut(c: string): string
    requires Span(c, IsOut) < |c|
  {
    var p, q := Span(c, IsIn), Span(c, IsOut);
    if q < p then c[q + 1..p] else c[q + 1..]
  }

  function OutName(c: string, append: bool): Option<string> {
    if Span(c, IsOut) == |c| then None
    else
      var t := AfterOut(c);
      if (t != "" && t[0] == '>') != append then None
      else Some(NameAt(if append then t[1..] else t))
  }

  /** The argument vector for the words of a command: a leading `./` is an argument of its own. */
  function Params(ws: seq<string>): seq<string> {
    if ws != [] && "./" < ws[0] then ["./", ws[0][2..]] + ws[1..] else ws
  }

  /** The words before the first redirection sign. */
  function CommandWords(s: string): seq<string> { HeadWords(Words(s), IsRedirect) }

  /** The word count and the token count differ exactly for a lone `./` followed by more words. */
  predicate DetachedPrefix(ws: seq<string>) { |ws| > 1 && ws[0] == "./" }

  function Explain(s: string): Outcome {
    var c, ws := Unwords(Words(s)), CommandWords(s);
    if DetachedPrefix(ws) then AssertionFails
    else Built(Explained(Unwords(ws), Params(ws), OutName(c, false), InName(c), OutName(c, true)))
  }

  // ----- What the signs of a command decide

  /** Is the first `>` followed at once by another? */
  predicate Doubled(s: string) {
    if s == "" then false
    else if s[0] == '>' then |s| > 1 && s[1] == '>'
    else Doubled(s[1..])
  }

  lemma {:induction false} DoubledAt(s: string)
    ensures Doubled(s) <==> Span(s, IsOut) + 1 < |s| && s[Span(s, IsOut) + 1] == '>'
  {
    if s != "" && s[0] != '>' { DoubledAt(s[1..]); }
  }

  lemma {:induction false} SqueezeSigns(s: string, was: bool)
    ensures Doubled(Squeeze(s, was)) <==> Doubled(s)
    ensures '<' in Squeeze(s, was) <==> '<' in s
    ensures '>' in Squeeze(s, was) <==> '>' in s
  {
    if s != "" {
      assert s == [s[0]] + s[1..];
      if s[0] != ' ' || !was {
        SqueezeSigns(s[1..], s[0] == ' ');
        assert Squeeze(s, was)[1..] == Squeeze(s[1..], s[0] == ' ');
      } else {
        SqueezeSigns(s[1..], was);
      }
    }
  }

  lemma {:induction false} BlankAfter(s: string)
    ensures Doubled(s + " ") <==> Doubled(s)
  {
    if s != "" && s[0] != '>' {
      BlankAfter(s[1..]);
      assert (s + " ")[1..] == s[1..] + " ";
    }
  }

  lemma {:induction false} TrimSigns(s: string)
    ensures Doubled(TrimEnd(s)) <==> Doubled(s)
    ensures '<' in TrimEnd(s) <==> '<' in s
    ensures '>' in TrimEnd(s) <==> '>' in s
  {
    if s != "" && s[|s| - 1] == ' ' {
      var t := s[..|s| - 1];
      TrimSigns(t);
      BlankAfter(t);
      assert s == t + " ";
    }
  }

  lemma {:induction false} SignsSeen(c: string)
    ensures InName(c).Some? <==> '<' in c
    ensures OutName(c, false).Some? || OutName(c, true).Some? <==> '>' in c
    ensures OutName(c, true).Some? <==> Doubled(c)
  {
    hide NameAt;
    DoubledAt(c);
    assert '<' in c ==> exists i :: 0 <= i < |c| && IsIn(c[i]);
    assert '>' in c ==> exists i :: 0 <= i < |c| && IsOut(c[i]);
  }

  /** The character `<` asks for an input file; the character `>` for an output file, which is appended to
      exactly when the first `>` is followed at once by another. */
  ghost predicate SignsRead(s: string, e: Explained) {
    && (e.fileToRead.Some? <==> '<' in s)
    && (e.fileToOverwrite.Some? || e.fileToAppend.Some? <==> '>' in s)
    && (e.fileToAppend.Some? <==>
        exists q :: 0 <= q && q + 1 < |s| && s[q] == '>' && s[q + 1] == '>' && '>' !in s[..q])
  }

  lemma {:induction false} ExplainSigns(s: string)
    ensures Explain(s).Built? ==> SignsRead(s, Explain(s).explained)
  {
    hide InName, OutName, Squeeze, TrimEnd, Words, Unwords, CommandWords, Params;
    Compacted(s);
    SqueezeSigns(s, true);
    TrimSigns(Squeeze(s, true));
    SignsSeen(Unwords(Words(s)));
    FirstDouble(s);
  }

  lemma {:induction false} FirstDouble(s: string)
    ensures Doubled(s) <==> exists q :: 0 <= q && q + 1 < |s| && s[q] == '>' && s[q + 1] == '>' && '>' !in s[..q]
  {
    DoubledAt(s);
    var p := Span(s, IsOut);
    assert '>' !in s[..p];
    forall q | 0 <= q && q + 1 < |s| && s[q] == '>' && s[q + 1] == '>' && '>' !in s[..q]
      ensures q == p
    {
      assert forall i :: 0 <= i < q ==> s[i] in s[..q];
      SpanUnique(s, IsOut, q);
    }
  }

  // ----- Squeezing in place

  /** One round of the compaction loop, seen from what is still to be read. */
  lemma {:induction false} SqueezeOne(kept: string, s: string, i: nat, was: bool)
    requires i < |s|
    ensures s[i] != ' ' || !was ==>
              kept + Squeeze(s[i..], was) == (kept + [s[i]]) + Squeeze(s[i + 1..], s[i] == ' ')
    ensures !(s[i] != ' ' || !was) ==> Squeeze(s[i..], was) == Squeeze(s[i + 1..], was)
  {
    assert s[i..][1..] == s[i + 1..];
    if s[i] != ' ' || !was {
      assert kept + ([s[i]] + Squeeze(s[i + 1..], s[i] == ' ')) == (kept + [s[i]]) + Squeeze(s[i + 1..], s[i] == ' ');
    }
  }

  /** The compaction loop: the write index never passes the read index. */
  method SqueezeInPlace(b: array<char>, ghost s: string) returns (j: nat)
    requires NulFree(s) && b[..] == s + [NUL]
    modifies b
    ensures j < b.Length && b[..j] == Squeeze(s, true)
  {
    hide NulFree, Squeeze;
    var i, wasSpace := 0, true;
    j := 0;
    assert s[0..] == s;
    while b[i] != NUL
      invariant 0 <= j <= i < b.Length == |s| + 1
      invariant forall k :: i <= k < |s| ==> b[k] == s[k]
      invariant b[|s|] == NUL
      invariant b[..j] + Squeeze(s[i..], wasSpace) == Squeeze(s, true)
      invariant !wasSpace ==> j != 0
      decreases b.Length - i
    {
      ghost var kept := b[..j];
      SqueezeOne(kept, s, i, wasSpace);
      if b[i] != ' ' || (!wasSpace && j != 0) {
        wasSpace := b[i] == ' ';
        b[j] := b[i];
        j := j + 1;
        assert b[..j] == kept + [s[i]];
      }
      i := i + 1;
    }
    AtEnd(s, i);
    assert b[..j] + "" == b[..j];
  }

  /** The text `s` with its terminator, squeezed and trimmed within the same cells. */
  method Compact(b: array<char>, ghost s: string)
    requires NulFree(s) && b[..] == s + [NUL]
    modifies b
    ensures NUL in b[..]
    ensures Held(b[..]) == Unwords(Words(s))
  {
    hide NulFree, Held, Words, Unwords, TrimEnd, Squeeze;
    var j := SqueezeInPlace(b, s);
    b[j] := NUL;
    SqueezeNulFree(s, true);
    assert b[..][..j] == Squeeze(s, true);
    HeldPrefix(b[..], j);
    assert b[..][j] == NUL;
    TrimInPlace(b);
    Compacted(s);
  }

  lemma {:induction false} AtEnd(s: string, i: nat)
    requires NulFree(s) && i <= |s| && (i < |s| ==> s[i] == NUL)
    ensures Squeeze(s[i..], true) == "" && Squeeze(s[i..], false) == ""
  {
    assert forall x :: 0 <= x < |s| ==> s[x] in s;
  }

  lemma {:induction false} SqueezeNulFree(s: string, was: bool)
    requires NulFree(s)
    ensures NulFree(Squeeze(s, was))
  {
    if s != "" {
      SqueezeNulFree(s[1..], if s[0] != ' ' || !was then s[0] == ' ' else was);
      assert s[0] in s;
    }
  }

  // ----- Cutting at the redirection signs

  method ReadName(b: array<char>, from: nat) returns (name: string)
    requires from < b.Length && NUL in b[from..]
    ensures name == NameAt(Held(b[from..]))
  {
    hide Span, Held;
    HeldHead(b[..], from);
    assert b[..][from..] == b[from..] && b[..][from] == b[from];
    var start := from;
    if b[from] == ' ' {
      start := from + 1;
      assert b[..][from + 1..] == b[from + 1..];
    }
    var to := Find(b, start, IsBlank);
    name := b[start..to];
  }

  lemma {:induction false} FirstRedirect(c: string)
    ensures var p, q := Span(c, IsIn), Span(c, IsOut);
            Span(c, IsRedirect) == (if p < q then p else q) && (p == q ==> p == |c|)
  {
    var p, q := Span(c, IsIn), Span(c, IsOut);
    SpanUnique(c, IsRedirect, if p < q then p else q);
  }

  /** `b` holds the text `c`, but for a NUL that may have been written at `p`. */
  ghost predicate HoldsBut(b: string, c: string, p: nat) {
    && NulFree(c)
    && |c| < |b|
    && b[|c|] == NUL
    && p <= |c|
    && b[p] == NUL
    && (forall i :: 0 <= i < |c| && i != p ==> b[i] == c[i])
  }

  lemma {:induction false} TextAfterOut(b: string, c: string, p: nat, q: nat)
    requires p == Span(c, IsIn) && q == Span(c, IsOut) < |c| && HoldsBut(b, c, p)
    ensures var b' := b[q := NUL]; NUL in b'[q + 1..] && Held(b'[q + 1..]) == AfterOut(c)
  {
    hide Span, Held, NulFree, IsIn, IsOut;
    TextAfter(b[q := NUL], c, q + 1, if q < p then p else |c|);
    assert c[q + 1..|c|] == c[q + 1..];
  }

  /** Writes the NUL over the `>` at `q` and reads the name after it. */
  method CutOutput(b: array<char>, ghost c: string, ghost p: nat, q: nat) returns (name: string, isAppend: bool)
    requires p == Span(c, IsIn) && q == Span(c, IsOut) < |c| && HoldsBut(b[..], c, p)
    modifies b
    ensures b[..] == old(b[..])[q := NUL]
    ensures Some(name) == OutName(c, isAppend) && OutName(c, !isAppend) == None
  {
    hide Span, Held, NulFree, NameAt, IsIn, IsOut, HoldsBut, AfterOut;
    TextAfterOut(b[..], c, p, q);
    assert |c| < b.Length by { HoldsRoom(b[..], c, p); }
    ghost var b0 := b[..];
    b[q] := NUL;
    assert b[..] == b0[q := NUL];
    assert b[..][q + 1..] == b[q + 1..];
    HeldHead(b[..], q + 1);
    var command := q + 1;
    isAppend := false;
    if b[command] == '>' {
      isAppend := true;
      command := command + 1;
      assert b[..][q + 2..] == b[q + 2..];
    }
    name := ReadName(b, command);
  }

  lemma HoldsRoom(b: string, c: string, p: nat)
    requires HoldsBut(b, c, p)
    ensures |c| < |b|
  {
  }

  /** Writes the NUL over the `<` at `p` and reads the name after it. */
  method CutInput(b: array<char>, ghost c: string, p: nat) returns (name: string)
    requires NUL in b[..] && Held(b[..]) == c && p == Span(c, IsIn) < |c|
    modifies b
    ensures HoldsBut(b[..], c, p)
    ensures Some(name) == InName(c)
  {
    hide Span, Held, NulFree, NameAt, IsIn, IsOut;
    HeldText(b[..], c);
    b[p] := NUL;
    TextAfter(b[..], c, p + 1, |c|);
    assert b[..][p + 1..] == b[p + 1..] && c[p + 1..|c|] == c[p + 1..];
    name := ReadName(b, p + 1);
  }

  lemma {:induction false} Uncut(b: string, c: string)
    requires NUL in b && Held(b) == c
    ensures HoldsBut(b, c, |c|)
  {
    HeldText(b, c);
  }

  /** What the buffer holds once both signs have been overwritten. */
  lemma {:induction false} HeldAfterCuts(b: string, b': string, c: string, p: nat, q: nat)
    requires p == Span(c, IsIn) && q == Span(c, IsOut) && HoldsBut(b, c, p)
    requires if q < |c| then b' == b[q := NUL] else b' == b
    ensures NUL in b' && Held(b') == c[..Span(c, IsRedirect)]
  {
    hide Span, Held, NulFree, IsIn, IsOut;
    FirstRedirect(c);
    TextAfter(b', c, 0, if p < q then p else q);
    assert b'[0..] == b';
  }

  method CutRedirections(b: array<char>, ghost c: string)
      returns (read: Option<string>, overwrite: Option<string>, append: Option<string>)
    requires NUL in b[..] && Held(b[..]) == c
    modifies b
    ensures NUL in b[..] && Held(b[..]) == c[..Span(c, IsRedirect)]
    ensures read == InName(c) && overwrite == OutName(c, false) && append == OutName(c, true)
  {
    hide Span, Held, NulFree, NameAt, IsIn, IsOut, HoldsBut;
    read, overwrite, append := None, None, None;
    assert b[0..] == b[..];
    HeldText(b[..], c);
    var p := Find(b, 0, IsIn);
    var q := Find(b, 0, IsOut);
    var hasIn, hasOut := b[p] != NUL, b[q] != NUL;
    assert hasIn <==> p < |c|;
    assert hasOut <==> q < |c|;
    if hasIn {
      var name := CutInput(b, c, p);
      read := Some(name);
    } else {
      Uncut(b[..], c);
    }
    ghost var b0 := b[..];
    if hasOut {
      var name, isAppend := CutOutput(b, c, p, q);
      if isAppend { append := Some(name); } else { overwrite := Some(name); }
    }
    HeldAfterCuts(b0, b[..], c, p, q);
  }

  // ----- Tokenising

  function BlankCount(t: string): nat {
    if t == "" then 0 else (if t[0] == ' ' then 1 else 0) + BlankCount(t[1..])
  }

  /** Single blanks only, none at the end. */
  predicate Tidy(t: string) { Squeezed(t, false) && (t == "" || t[|t| - 1] != ' ') }

  lemma {:induction false} TidyTail(t: string)
    requires Tidy(t) && t != ""
    ensures Tidy(t[1..])
    ensures t[0] == ' ' ==> t[1..] != "" && t[1] != ' '
  {
    SqueezedTail(t, false);
    if t[1..] != "" && t[0] == ' ' {
      SqueezedTail(t[1..], true);
      assert Squeezed(t[1..], false);
    }
  }

  lemma {:induction false} TidyDrop(t: string, n: nat)
    requires Tidy(t) && n <= |t|
    ensures Tidy(t[n..])
  {
    if n == 0 {
      assert t[0..] == t;
    } else {
      TidyTail(t);
      TidyDrop(t[1..], n - 1);
      assert t[1..][n - 1..] == t[n..];
    }
  }

  /** Counting blanks counts words, but for one leading blank. */
  lemma {:induction false} CountWords(t: string)
    requires Tidy(t)
    ensures BlankCount(t) + (if t == "" then 0 else 1) == |Words(t)| + (if t != "" && t[0] == ' ' then 1 else 0)
    decreases |t|
  {
    hide Tidy;
    if t != "" {
      TidyTail(t);
      CountWords(t[1..]);
      if t[0] != ' ' {
        var n := Span(t, IsBlank);
        assert Span(t[1..], IsBlank) == n - 1;
        assert t[1..][n - 1..] == t[n..];
        if n > 1 { assert t[1..][0] != ' '; }
      }
    }
  }

  /** One round of the tokenising loop. */
  lemma {:induction false} NextToken(t: string)
    requires Tidy(t) && t != ""
    ensures var u := if t[0] == ' ' then t[1..] else t;
            var n := Span(u, IsBlank);
            && n > 0
            && Words(t) == [u[..n]] + Words(u[n..])
            && Tidy(u[n..])
  {
    TidyTail(t);
    var u := if t[0] == ' ' then t[1..] else t;
    var n := Span(u, IsBlank);
    TidyDrop(u, n);
    assert Words(t) == Words(u);
    assert Words(u) == [u[..n]] + Words(u[n..]);
  }

  predicate Dotted(k: string) { "./" <= k }

  /** The slots the explainer allocates for the arguments of `k`, the terminating NULL included. */
  function Slots(k: string): nat {
    var t := if Dotted(k) then k[2..] else k;
    (if Dotted(k) then 1 else 0) + BlankCount(t) + (if t == "" then 0 else 1) + 1
  }

  function Tokens(k: string): seq<string> {
    if Dotted(k) then ["./"] + Words(k[2..]) else Words(k)
  }

  /** The arguments written never need more slots than were allocated, whatever the command; they
      need one slot less exactly when the command begins with `./` and a blank. */
  lemma {:induction false} SlotsSuffice(k: string)
    requires Tidy(k) && (k == "" || k[0] != ' ')
    ensures |Tokens(k)| + 1 == Slots(k) - (if "./ " <= k then 1 else 0)
  {
    if Dotted(k) {
      TidyDrop(k, 2);
      CountWords(k[2..]);
    } else {
      CountWords(k);
    }
  }

  lemma {:induction false} HeldDotted(b: string)
    requires NUL in b
    ensures b[0] == '.' ==> |b| > 1
    ensures Dotted(Held(b)) <==> b[0] == '.' && b[1] == '/'
    ensures Dotted(Held(b)) ==> |b| > 2 && NUL in b[2..] && Held(b[2..]) == Held(b)[2..]
  {
    assert b[0..] == b;
    HeldHead(b, 0);
    if b[0] != NUL {
      HeldHead(b, 1);
    }
  }

  /** Where the words begin in the buffer, and how they make up the tokens and the slots. */
  lemma {:induction false} TokensAt(b: string, text: string)
    requires NUL in b && Held(b) == text && Tidy(text)
    ensures b[0] == '.' ==> |b| > 1
    ensures var dotted := b[0] == '.' && b[1] == '/';
            var pos := if dotted then 2 else 0;
            && pos < |b| && NUL in b[pos..] && Tidy(Held(b[pos..]))
            && Tokens(text) == (if dotted then ["./"] else []) + Words(Held(b[pos..]))
            && Slots(text) == (if dotted then 1 else 0) + BlankCount(Held(b[pos..]))
                              + (if Held(b[pos..]) == "" then 0 else 1) + 1
  {
    hide Held, Words, Tidy, BlankCount;
    HeldDotted(b);
    assert b[0..] == b;
    if Dotted(text) {
      TidyDrop(text, 2);
    }
  }

  lemma {:induction false} NoWords(b: string, pos: nat)
    requires pos < |b| && b[pos] == NUL
    ensures Words(Held(b[pos..])) == []
  {
    HeldFrom(b, pos, pos);
  }

  method CountBlanks(b: array<char>, from: nat) returns (n: nat, empty: bool)
    requires from < b.Length && NUL in b[from..]
    ensures n == BlankCount(Held(b[from..])) && (empty <==> Held(b[from..]) == "")
  {
    hide Held;
    ghost var end :| from <= end < b.Length && b[end] == NUL;
    var i := from;
    n := 0;
    empty := b[from] == NUL;
    HeldHead(b[..], from);
    assert b[..][from..] == b[from..];
    while b[i] != NUL
      invariant from <= i <= end && NUL in b[i..]
      invariant n + BlankCount(Held(b[i..])) == BlankCount(Held(b[from..]))
      decreases end - i
    {
      HeldHead(b[..], i);
      assert b[..][i..] == b[i..] && b[..][i + 1..] == b[i + 1..];
      if b[i] == ' ' { n := n + 1; }
      i := i + 1;
    }
    HeldHead(b[..], i);
    assert b[..][i..] == b[i..];
  }

  method ReadToken(b: array<char>, from: nat) returns (tok: string, to: nat)
    requires from < b.Length && NUL in b[from..] && Tidy(Held(b[from..])) && b[from] != NUL
    ensures to < b.Length && NUL in b[to..] && Tidy(Held(b[to..]))
    ensures Words(Held(b[from..])) == [tok] + Words(Held(b[to..]))
  {
    hide Held, Span, Words, Tidy;
    HeldHead(b[..], from);
    assert b[..][from..] == b[from..] && b[..][from + 1..] == b[from + 1..];
    NextToken(Held(b[from..]));
    var pos := if b[from] == ' ' then from + 1 else from;
    to := Find(b, pos, IsBlank);
    tok := b[pos..to];
  }

  /** The tokenising loop, from `pos` and slot `k0` on. */
  method FillArguments(b: array<char>, from: nat, args: array<Option<string>>, k0: nat) returns (k: nat)
    requires from < b.Length && NUL in b[from..] && Tidy(Held(b[from..]))
    requires k0 + |Words(Held(b[from..]))| < args.Length
    modifies args
    ensures k == k0 + |Words(Held(b[from..]))|
    ensures args[..k] == old(args[..k0]) + Somes(Words(Held(b[from..])))
  {
    hide Held, Span, Words, Tidy;
    ghost var toks := Words(Held(b[from..]));
    var pos := from;
    k := k0;
    ghost var done := 0;
    while b[pos] != NUL
      invariant 0 <= pos < b.Length && NUL in b[pos..]
      invariant done <= |toks| && k == k0 + done
      invariant Tidy(Held(b[pos..])) && Words(Held(b[pos..])) == toks[done..]
      invariant args[..k] == old(args[..k0]) + Somes(toks[..done])
      decreases |toks| - done
    {
      var tok, to := ReadToken(b, pos);
      assert tok == toks[done] && Words(Held(b[to..])) == toks[done..][1..] == toks[done + 1..];
      ghost var before := args[..k];
      args[k] := Some(tok);
      assert args[..k + 1] == before + [Some(toks[done])];
      SomesMore(toks, done);
      k, done, pos := k + 1, done + 1, to;
    }
    NoWords(b[..], pos);
    assert b[..][pos..] == b[pos..];
    assert toks[..done] == toks;
  }

  /** Non-NULL argument slots holding `ws`. */
  ghost function Somes(ws: seq<string>): (r: seq<Option<string>>)
    ensures |r| == |ws|
  {
    seq(|ws|, i requires 0 <= i < |ws| => Some(ws[i]))
  }

  lemma SomesConcat(a: seq<string>, b: seq<string>)
    ensures Somes(a + b) == Somes(a) + Somes(b)
  {
  }

  lemma SomesMore(ws: seq<string>, k: nat)
    requires k < |ws|
    ensures Somes(ws[..k + 1]) == Somes(ws[..k]) + [Some(ws[k])]
  {
  }

  /** Fills the argument slots from the buffer; `k` and `len` are the two numbers the source compares. */
  method Tokenise(b: array<char>, ghost text: string) returns (args: array<Option<string>>, k: nat, len: nat)
    requires NUL in b[..] && Held(b[..]) == text && Tidy(text) && (text == "" || text[0] != ' ')
    ensures k <= len == args.Length && k >= 1
    ensures args[..k - 1] == Somes(Tokens(text)) && args[k - 1] == None
    ensures k == len <==> !("./ " <= text)
  {
    hide Held, Span, Words, BlankCount, Tidy, Tokens, Slots, Dotted;
    SlotsSuffice(text);
    TokensAt(b[..], text);
    assert b[0..] == b[..] && b.Length == |b[..]| && (b.Length > 2 ==> b[..][2..] == b[2..]);
    assert b[..][0] == b[0] && (b.Length > 1 ==> b[..][1] == b[1]);
    var dotted := b[0] == '.' && b[1] == '/';
    var pos := if dotted then 2 else 0;
    var n, empty := CountBlanks(b, pos);
    len := (if dotted then 1 else 0) + n + (if empty then 0 else 1) + 1;
    args := new Option<string>[len](_ => None);
    k := 0;
    if dotted {
      args[k] := Some("./");
      k := k + 1;
    }
    ghost var prefix := if dotted then ["./"] else [];
    assert args[..k] == Somes(prefix);
    k := FillArguments(b, pos, args, k);
    SomesConcat(prefix, Words(Held(b[pos..])));
    args[k] := None;
    k := k + 1;
  }

  // ----- The whole function

  lemma {:induction false} TidyUnwords(ws: seq<string>)
    requires AllWords(ws)
    ensures Tidy(Unwords(ws)) && (Unwords(ws) == "" || Unwords(ws)[0] != ' ')
  {
    if ws != [] {
      var k := Unwords(ws);
      UnwordsNonEmpty(ws);
      CompactedPrefix(ws, |k|);
      assert k[..|k|] == k;
      WordsUnwords(ws);
      assert TrimEnd(k) == k;
      SqueezedAny(k);
    }
  }

  lemma {:induction false} SqueezedAny(s: string)
    requires Squeezed(s, true) && s != "" && s[0] != ' '
    ensures Squeezed(s, false)
  {
  }

  lemma {:induction false} DottedUnwords(ws: seq<string>)
    requires AllWords(ws)
    ensures Dotted(Unwords(ws)) <==> ws != [] && "./" <= ws[0]
    ensures "./ " <= Unwords(ws) <==> DetachedPrefix(ws)
  {
    if ws != [] {
      var k, w := Unwords(ws), ws[0];
      assert w in ws;
      var rest := if |ws| == 1 then "" else " " + Unwords(ws[1..]);
      assert k == w + rest;
      assert |w| == 1 ==> |k| == 1 || k[1] == ' ';
      assert |w| >= 2 ==> k[0] == w[0] && k[1] == w[1];
      assert |w| >= 3 ==> k[2] == w[2] && w[2] in w;
    }
  }

  lemma {:induction false} TokensDetached(ws: seq<string>)
    requires AllWords(ws) && ws != [] && ws[0] == "./"
    ensures Words(Unwords(ws)[2..]) == ws[1..]
  {
    hide Words;
    var k := Unwords(ws);
    if |ws| > 1 {
      var rest := Unwords(ws[1..]);
      assert k[2..] == " " + rest;
      WordsSkip(rest);
      WordsUnwords(ws[1..]);
    } else {
      assert k[2..] == "";
      WordsUnwords([]);
    }
  }

  lemma {:induction false} TokensGlued(ws: seq<string>)
    requires AllWords(ws) && ws != [] && "./" < ws[0]
    ensures Words(Unwords(ws)[2..]) == [ws[0][2..]] + ws[1..]
  {
    hide Words;
    var w := ws[0][2..];
    var vs := [w] + ws[1..];
    assert ws[0] in ws;
    assert forall c :: c in w ==> c in ws[0];
    assert vs[1..] == ws[1..];
    var rest := if |ws| == 1 then "" else " " + Unwords(ws[1..]);
    assert Unwords(ws) == ws[0] + rest && Unwords(vs) == w + rest;
    assert (ws[0] + rest)[2..] == w + rest;
    assert AllWords(vs);
    WordsUnwords(vs);
  }

  lemma {:induction false} TokensUnwords(ws: seq<string>)
    requires AllWords(ws)
    ensures Tokens(Unwords(ws)) == Params(ws)
  {
    hide Words, Unwords, Word;
    DottedUnwords(ws);
    WordsUnwords(ws);
    if Dotted(Unwords(ws)) {
      if ws[0] == "./" {
        TokensDetached(ws);
        assert ["./"] + ws[1..] == ws;
      } else {
        TokensGlued(ws);
        assert ["./"] + ([ws[0][2..]] + ws[1..]) == ["./", ws[0][2..]] + ws[1..];
      }
    }
  }

  /** What is left of the squeezed text before the first redirection sign, once trimmed. */
  lemma {:induction false} CommandText(s: string)
    ensures var c := Unwords(Words(s));
            TrimEnd(c[..Span(c, IsRedirect)]) == Unwords(CommandWords(s)) && AllWords(CommandWords(s))
  {
    var c := Unwords(Words(s));
    WordsUnwords(Words(s));
    WordsOfHead(c, IsRedirect);
    CompactedPrefix(Words(s), Span(c, IsRedirect));
  }

  /** For every command text: the assertion at the end fails exactly when the first word before any
      redirection is a lone `./` and more words follow; otherwise the result is the words of the
      command, a leading `./` split off, and the names after the first `<` and the first `>`. */
  method ConstructCommandExplained(s: string) returns (r: Outcome)
    requires NulFree(s)
    ensures r == Explain(s)
    ensures r.AssertionFails? <==> DetachedPrefix(CommandWords(s))
    ensures r.Built? ==> SignsRead(s, r.explained)
  {
    ExplainSigns(s);
    hide Held, Span, Words, HeadWords, Tidy, NulFree, Unwords, TrimEnd, Tokens, Params, InName, OutName, DetachedPrefix,
         SignsRead;
    var b := new char[|s| + 1](i => if 0 <= i < |s| then s[i] else NUL);
    assert b[..] == s + [NUL];
    Compact(b, s);
    ghost var c, ws := Unwords(Words(s)), CommandWords(s);
    var read, overwrite, append := CutRedirections(b, c);
    TrimInPlace(b);
    CommandText(s);
    TidyUnwords(ws);
    TokensUnwords(ws);
    DottedUnwords(ws);
    var args, k, len := Tokenise(b, Unwords(ws));
    if k != len { return AssertionFails; }
    var params := seq(k - 1, i requires 0 <= i < k - 1 && args[..k - 1] == Somes(Params(ws)) reads args =>
      args[i].value);
    assert params == Params(ws);
    var n := Find(b, 0, IsNul);
    assert b[0..] == b[..];
    EndOfHeld(b[..]);
    r := Built(Explained(b[..n], params, overwrite, read, append));
  }
}
