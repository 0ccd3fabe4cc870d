/** Writing one command down, its words and redirections in any order, and reading it back through the
    explainer. */
module WrittenCommand {
  import opened CStrings
  import opened Blanks
  import opened CommandExplainer
  import opened CommandRest

  // ----- Written commands

  /** One part of a written command: a word, an input or an output redirection. A blank may separate sign
      and name (`gap`), and a sign may follow the text before it immediately (`glue`). */
  datatype Item =
    | Arg(text: string)
    | From(name: string, gap: bool, glue: bool)
    | To(append: bool, name: string, gap: bool, glue: bool)
  {
    predicate Valid() { Plain(if Arg? then text else name) }

    predicate Glued() { !Arg? && glue }

    function Body(): string {
      match this
      case Arg(text) => text
      case From(name, gap, _) => "<" + (Gap(gap) + name)
      case To(append, name, gap, _) => ">" + (Second(append) + (Gap(gap) + name))
    }
  }

  function Gap(gap: bool): string { if gap then " " else "" }

  function Second(append: bool): string { if append then ">" else "" }

  predicate AllValid(items: seq<Item>) { forall it :: it in items ==> it.Valid() }

  function Sep(it: Item): string { if it.Glued() then "" else " " }

  /** The items after others. */
  function Tail(items: seq<Item>): string {
    if items == [] then "" else Sep(items[0]) + (items[0].Body() + Tail(items[1..]))
  }

  /** A command as text: its items in any order. */
  function Show(items: seq<Item>): string {
    if items == [] then "" else items[0].Body() + Tail(items[1..])
  }

  /** All the words, all the input names, and all the outputs, in the order written. */
  function Args(items: seq<Item>): seq<string> {
    if items == [] then [] else (if items[0].Arg? then [items[0].text] else []) + Args(items[1..])
  }

  function Inputs(items: seq<Item>): seq<string> {
    if items == [] then [] else (if items[0].From? then [items[0].name] else []) + Inputs(items[1..])
  }

  datatype Output = Output(append: bool, name: string)

  function Outputs(items: seq<Item>): seq<Output> {
    if items == [] then []
    else (if items[0].To? then [Output(items[0].append, items[0].name)] else []) + Outputs(items[1..])
  }

  /** The words before the first redirection sign. */
  function Head(items: seq<Item>): seq<string> {
    if items == [] || !items[0].Arg? then [] else [items[0].text] + Head(items[1..])
  }

  // ----- When a written command is read back

  function AsSeq<T>(o: Option<T>): seq<T> { if o.None? then [] else [o.value] }

  function OutputsOf(e: Explained): seq<Output> {
    (if e.fileToOverwrite.Some? then [Output(false, e.fileToOverwrite.value)] else [])
    + (if e.fileToAppend.Some? then [Output(true, e.fileToAppend.value)] else [])
  }

  /** The result holds all that was written: every word, every input name and every output. */
  predicate ComesBack(o: Outcome, items: seq<Item>) {
    match o
    case AssertionFails => DetachedPrefix(Args(items))
    case Built(e) =>
      && !DetachedPrefix(Args(items))
      && e.command == Unwords(Args(items))
      && e.params == Params(Args(items))
      && AsSeq(e.fileToRead) == Inputs(items)
      && OutputsOf(e) == Outputs(items)
  }

  /** No output sign is glued to an input name (`<in>out`). */
  predicate Unglued(items: seq<Item>) {
    forall k :: 0 < k < |items| && items[k - 1].From? && items[k].To? ==> !items[k].glue
  }

  /** What a writer must keep to: words first, at most one input and one output, and the output sign not
      glued to the input name. */
  predicate Faithful(items: seq<Item>) {
    Head(items) == Args(items) && |Inputs(items)| <= 1 && |Outputs(items)| <= 1 && Unglued(items)
  }

  // ----- The written form is already squeezed

  /** Squeezed, and ending in something that is not a blank. */
  predicate Settled(s: string) { Squeezed(s, true) && (s == "" || s[|s| - 1] != ' ') }

  lemma {:induction false} SettledFixed(s: string)
    requires Settled(s)
    ensures Unwords(Words(s)) == s
  {
    Compacted(s);
  }

  lemma {:induction false} SqueezedConcat(a: string, b: string, was: bool)
    requires Squeezed(a, was) && a != "" && a[|a| - 1] != ' ' && Squeezed(b, false)
    ensures Squeezed(a + b, was)
  {
    SqueezedTail(a, was);
    assert (a + b)[1..] == a[1..] + b;
    if |a| > 1 {
      SqueezedConcat(a[1..], b, a[0] == ' ');
    } else {
      assert a[1..] + b == b;
    }
  }

  lemma {:induction false} SqueezedWord(w: string, was: bool)
    requires Word(w)
    ensures Squeezed(w, was)
  {
    assert forall i :: 0 <= i < |w| ==> w[i] in w;
    SqueezeWord(w, "", was);
    assert w + "" == w;
  }

  /** A text that neither begins nor ends with a blank and has no two blanks in a row. */
  predicate Part(part: string) {
    part != "" && part[0] != ' ' && part[|part| - 1] != ' ' && Squeezed(part, false)
  }

  lemma {:induction false} WordIsPart(w: string)
    requires Word(w)
    ensures Part(w)
  {
    SqueezedWord(w, false);
    assert w[0] in w && w[|w| - 1] in w;
  }

  lemma {:induction false} PartJoin(a: string, sep: string, b: string)
    requires Part(a) && Part(b) && (sep == "" || sep == " ")
    ensures Part(a + (sep + b))
  {
    var t := sep + b;
    assert sep == "" ==> t == b;
    assert sep == " " ==> t[1..] == b && Squeezed(b, true);
    SqueezedConcat(a, t, false);
    assert t[|t| - 1] == b[|b| - 1];
  }

  lemma {:induction false} BodyIsPart(it: Item)
    requires it.Valid()
    ensures Part(it.Body())
  {
    hide Part, Plain, Word;
    match it
    case Arg(text) =>
      PlainIsWord(text);
      WordIsPart(text);
    case From(name, gap, _) =>
      SignWords();
      PlainIsWord(name);
      WordIsPart("<");
      WordIsPart(name);
      PartJoin("<", Gap(gap), name);
    case To(append, name, gap, _) =>
      SignWords();
      PlainIsWord(name);
      WordIsPart(name);
      var sign := ">" + Second(append);
      WordIsPart(sign);
      PartJoin(sign, Gap(gap), name);
      assert sign + (Gap(gap) + name) == ">" + (Second(append) + (Gap(gap) + name));
  }

  lemma SignWords()
    ensures Word("<") && Word(">" + Second(false)) && Word(">" + Second(true))
  {
  }

  lemma PlainIsWord(w: string)
    requires Plain(w)
    ensures Word(w)
  {
  }

  lemma {:induction false} ShowIsPart(items: seq<Item>)
    requires AllValid(items) && items != []
    ensures Part(Show(items))
    decreases |items|
  {
    hide Part, Item.Body;
    BodyIsPart(items[0]);
    var rest := items[1..];
    if rest == [] {
      assert items[0].Body() + "" == items[0].Body();
    } else {
      ShowIsPart(rest);
      TailIsShow(rest);
      PartJoin(items[0].Body(), Sep(rest[0]), Show(rest));
    }
  }

  lemma TailIsShow(items: seq<Item>)
    requires items != []
    ensures Tail(items) == Sep(items[0]) + Show(items)
  {
  }

  lemma {:induction false} ShowSettled(items: seq<Item>)
    requires AllValid(items)
    ensures Settled(Show(items))
  {
    if items != [] {
      hide Show;
      ShowIsPart(items);
    }
  }

  // ----- The words before the first sign

  /** What can follow the words of a written command. */
  predicate Opens(rest: string) {
    rest == "" || IsRedirect(rest[0]) || (|rest| > 1 && rest[0] == ' ' && IsRedirect(rest[1]))
  }

  lemma {:induction false} SignOpens(items: seq<Item>)
    requires items != [] && !items[0].Arg?
    ensures Opens(Show(items)) && Opens(Tail(items))
  {
    var text := items[0].Body();
    assert text != "" && IsRedirect(text[0]);
    assert Show(items)[0] == text[0];
    assert Tail(items) == Sep(items[0]) + Show(items);
    assert Sep(items[0]) == "" ==> Tail(items)[0] == text[0];
    assert Sep(items[0]) == " " ==> Tail(items)[1] == text[0];
  }

  lemma {:induction false} ShowHead(items: seq<Item>) returns (rest: string)
    ensures Show(items) == Unwords(Head(items)) + rest && Opens(rest)
    decreases |items|
  {
    if items == [] {
      rest := "";
    } else if !items[0].Arg? {
      rest := Show(items);
      SignOpens(items);
      assert "" + rest == rest;
    } else {
      var w, more := items[0].text, items[1..];
      ShowArg(items);
      hide Show, Tail, Head, Unwords, Opens;
      if more == [] {
        rest := "";
      } else if more[0].Arg? {
        rest := ShowHead(more);
        UnwordsMore(w, Head(more));
        Reassociate(w, " ", Unwords(Head(more)), rest);
      } else {
        rest := Tail(more);
        SignOpens(more);
      }
    }
  }

  lemma {:induction false} ShowArg(items: seq<Item>)
    requires items != [] && items[0].Arg?
    ensures var w, more := items[0].text, items[1..];
            && (more == [] ==> Head(items) == [w] && Show(items) == Unwords([w]) + "" && Opens(""))
            && (more != [] && more[0].Arg? ==>
                  && Head(items) == [w] + Head(more) && Head(more) != []
                  && Show(items) == w + (" " + Show(more)))
            && (more != [] && !more[0].Arg? ==> Head(items) == [w] && Show(items) == Unwords([w]) + Tail(more))
  {
    var more := items[1..];
    if more != [] {
      TailIsShow(more);
    }
  }

  lemma {:induction false} UnwordsMore(w: string, ws: seq<string>)
    requires ws != []
    ensures Unwords([w] + ws) == w + (" " + Unwords(ws))
  {
    assert ([w] + ws)[1..] == ws;
  }

  lemma {:induction false} CommandWordsShown(ws: seq<string>, rest: string)
    requires AllPlain(ws)
    requires Opens(rest)
    ensures var s := Unwords(ws) + rest; Words(s[..Span(s, IsRedirect)]) == ws
  {
    hide Words, Unwords;
    var text := Unwords(ws);
    var s := text + rest;
    UnwordsPlain(ws);
    assert forall i :: 0 <= i < |text| ==> text[i] in text;
    SpanConcat(text, rest, IsRedirect);
    WordsUnwords(ws);
    if rest != "" && rest[0] == ' ' {
      SpanUnique(rest, IsRedirect, 1);
      assert s[..|text| + 1] == text + " ";
      TrailingBlank(text);
    } else {
      assert s[..|text|] == text;
    }
  }

  lemma {:induction false} TrailingBlank(s: string)
    ensures Words(s + " ") == Words(s)
    decreases |s|
  {
    hide Words;
    if s == "" {
      WordsSkip("");
      assert s + " " == " " + "";
    } else if s[0] == ' ' {
      TrailingBlank(s[1..]);
      WordsSkip(s[1..]);
      WordsSkip(s[1..] + " ");
      assert s == " " + s[1..] && s + " " == " " + (s[1..] + " ");
    } else {
      var n := Span(s, IsBlank);
      var w, rest := s[..n], s[n..];
      TrailingBlank(rest);
      WordsHead(w, rest);
      WordsHead(w, rest + " ");
      assert s == w + rest && s + " " == w + (rest + " ");
    }
  }

  // ----- Finding the redirections

  ghost predicate Without(s: string, stop: char -> bool) { forall i :: 0 <= i < |s| ==> !stop(s[i]) }

  lemma {:induction false} WithoutConcat(a: string, b: string, stop: char -> bool)
    requires Without(a, stop) && Without(b, stop)
    ensures Without(a + b, stop)
  {
  }

  lemma {:induction false} PlainWithout(w: string)
    requires Plain(w)
    ensures Without(w, IsIn) && Without(w, IsOut)
  {
    assert forall i :: 0 <= i < |w| ==> w[i] in w;
  }

  /** The first `stop` character of `pre + (sign + post)` is the sign. */
  lemma {:induction false} FirstSign(pre: string, sign: string, post: string, stop: char -> bool)
    requires Without(pre, stop) && |sign| == 1 && stop(sign[0])
    ensures var c := pre + (sign + post);
            Span(c, stop) == |pre| < |c| && c[|pre| + 1..] == post
  {
    SpanConcat(pre, sign + post, stop);
  }

  lemma {:induction false} NameRead(gap: bool, name: string, post: string)
    requires Word(name) && (post == "" || post[0] == ' ')
    ensures NameAt(Gap(gap) + (name + post)) == name
  {
    var t, u := Gap(gap) + (name + post), name + post;
    assert u[0] == name[0] && name[0] in name;
    assert gap ==> t[1..] == u;
    assert !gap ==> t == u;
    assert forall i :: 0 <= i < |name| ==> name[i] in name;
    SpanConcat(name, post, IsBlank);
    assert u[..|name|] == name;
  }

  lemma {:induction false} NoSigns(s: string)
    ensures Without(s, IsIn) ==> InName(s) == None && Span(s, IsIn) == |s|
    ensures Without(s, IsOut) ==> OutName(s, false) == None && OutName(s, true) == None
  {
    if Without(s, IsIn) { SpanUnique(s, IsIn, |s|); }
    if Without(s, IsOut) { SpanUnique(s, IsOut, |s|); }
  }

  lemma {:induction false} LongName(gap: bool, name: string, post: string)
    requires Word(name) && post != "" && post[0] != ' '
    ensures NameAt(Gap(gap) + (name + post)) != name
  {
    var t, u := Gap(gap) + (name + post), name + post;
    assert u[0] == name[0] && name[0] in name;
    assert gap ==> t[1..] == u;
    assert !gap ==> t == u;
    assert forall i :: 0 <= i < |name| ==> name[i] in name;
    SpanConcat(name, post, IsBlank);
  }

  lemma {:induction false} BodyWithout(it: Item)
    requires it.Valid()
    ensures !it.From? ==> Without(it.Body(), IsIn)
    ensures !it.To? ==> Without(it.Body(), IsOut)
  {
    PlainWithout(if it.Arg? then it.text else it.name);
  }

  lemma SepWithout(it: Item)
    ensures Without(Sep(it), IsIn) && Without(Sep(it), IsOut)
  {
  }

  /** Items without an input hold no `<`, items without an output no `>`. */
  lemma {:induction false} NoSign(items: seq<Item>, stop: char -> bool)
    requires AllValid(items)
    requires (stop == IsIn && Inputs(items) == []) || (stop == IsOut && Outputs(items) == [])
    ensures Without(Show(items), stop) && Without(Tail(items), stop)
    decreases |items|
  {
    hide Without, Item.Body, Sep;
    if items == [] {
      EmptyWithout(stop);
    } else {
      var body := items[0].Body();
      BodyWithout(items[0]);
      SepWithout(items[0]);
      NoSign(items[1..], stop);
      WithoutConcat(body, Tail(items[1..]), stop);
      WithoutConcat(Sep(items[0]), body + Tail(items[1..]), stop);
    }
  }

  lemma EmptyWithout(stop: char -> bool)
    ensures Without("", stop)
  {
  }

  /** Everything before item `k`. */
  function Before(items: seq<Item>, k: nat): string
    requires k < |items|
  {
    if k == 0 then "" else Show(items[..k]) + Sep(items[k])
  }

  lemma {:induction false} TailAt(items: seq<Item>, k: nat)
    requires k < |items|
    ensures Tail(items) == Tail(items[..k]) + (Sep(items[k]) + (items[k].Body() + Tail(items[k + 1..])))
    decreases k
  {
    hide Item.Body, Sep;
    if k == 0 {
      assert "" + Tail(items) == Tail(items);
    } else {
      var more := items[1..];
      TailAt(more, k - 1);
      assert more[..k - 1] == items[..k][1..] && more[k..] == items[k + 1..];
      Reassociate(Sep(items[0]), items[0].Body(), Tail(more[..k - 1]),
                  Sep(items[k]) + (items[k].Body() + Tail(items[k + 1..])));
    }
  }

  lemma Reassociate(a: string, b: string, c: string, d: string)
    ensures a + (b + (c + d)) == (a + (b + c)) + d
  {
  }

  lemma {:induction false} ShowAt(items: seq<Item>, k: nat)
    requires k < |items|
    ensures Show(items) == Before(items, k) + (items[k].Body() + Tail(items[k + 1..]))
  {
    hide Item.Body, Sep, Tail;
    var rest := items[k].Body() + Tail(items[k + 1..]);
    if k == 0 {
      assert "" + rest == rest;
    } else {
      var more := items[1..];
      TailAt(more, k - 1);
      assert more[..k - 1] == items[..k][1..] && more[k..] == items[k + 1..] && more[k - 1] == items[k];
      Regroup(items[0].Body(), Tail(more[..k - 1]), Sep(items[k]), rest);
    }
  }

  lemma Regroup(a: string, b: string, c: string, d: string)
    ensures a + (b + (c + d)) == ((a + b) + c) + d
  {
  }

  lemma {:induction false} BeforeWithout(items: seq<Item>, k: nat, stop: char -> bool)
    requires AllValid(items) && k < |items|
    requires (stop == IsIn && Inputs(items[..k]) == []) || (stop == IsOut && Outputs(items[..k]) == [])
    ensures Without(Before(items, k), stop)
  {
    hide Without, Show, Sep;
    if k == 0 {
      EmptyWithout(stop);
    } else {
      assert AllValid(items[..k]);
      NoSign(items[..k], stop);
      SepWithout(items[k]);
      WithoutConcat(Show(items[..k]), Sep(items[k]), stop);
    }
  }

  lemma {:induction false} FirstFrom(items: seq<Item>) returns (k: nat)
    requires Inputs(items) != []
    ensures k < |items| && items[k].From? && items[k].name == Inputs(items)[0] && Inputs(items[..k]) == []
  {
    if items[0].From? {
      k := 0;
    } else {
      k := FirstFrom(items[1..]);
      assert items[..k + 1][1..] == items[1..][..k];
      k := k + 1;
    }
  }

  lemma {:induction false} FirstTo(items: seq<Item>) returns (k: nat)
    requires Outputs(items) != []
    ensures k < |items| && items[k].To? && Outputs(items[..k]) == []
    ensures Outputs(items)[0] == Output(items[k].append, items[k].name)
  {
    if items[0].To? {
      k := 0;
    } else {
      k := FirstTo(items[1..]);
      assert items[..k + 1][1..] == items[1..][..k];
      k := k + 1;
    }
  }

  /** Does the text `post` leave a name before it whole? */
  predicate Ends(post: string) { post == "" || post[0] == ' ' }

  lemma {:induction false} TailEnds(items: seq<Item>)
    ensures Ends(Tail(items)) <==> items == [] || !items[0].Glued()
  {
    if items != [] {
      TailIsShow(items);
      if items[0].Glued() {
        assert items[0].Body()[0] != ' ';
        assert Tail(items)[0] == items[0].Body()[0];
      } else {
        assert Tail(items)[0] == ' ';
      }
    }
  }

  /** The name read after a sign begins with the name written, and is that name unless something is
      glued to it. */
  lemma {:induction false} NameBegins(gap: bool, name: string, post: string)
    requires Word(name)
    ensures name <= NameAt(Gap(gap) + (name + post))
    ensures NameAt(Gap(gap) + (name + post)) == name <==> Ends(post)
  {
    if Ends(post) { NameRead(gap, name, post); } else { LongName(gap, name, post); }
    var t, u := Gap(gap) + (name + post), name + post;
    assert u[0] == name[0] && name[0] in name;
    assert gap ==> t[1..] == u;
    assert !gap ==> t == u;
    assert forall i :: 0 <= i < |name| ==> name[i] in name;
    SpanConcat(name, post, IsBlank);
    assert u[..|name|] == name;
  }

  lemma {:induction false} FromText(items: seq<Item>, k: nat)
    requires k < |items| && items[k].From?
    ensures Show(items) ==
            Before(items, k) + ("<" + (Gap(items[k].gap) + (items[k].name + Tail(items[k + 1..]))))
  {
    hide Show, Tail, Before;
    ShowAt(items, k);
    Reassociate("<", Gap(items[k].gap), items[k].name, Tail(items[k + 1..]));
  }

  /** The input the explainer sees: the first one, together with what is glued to its name. */
  lemma {:induction false} InputSeen(items: seq<Item>, k: nat)
    requires AllValid(items) && k < |items| && items[k].From? && Inputs(items[..k]) == []
    ensures Span(Show(items), IsIn) == |Before(items, k)|
    ensures InName(Show(items)).Some? && items[k].name <= InName(Show(items)).value
    ensures InName(Show(items)) == Some(items[k].name) <==> k + 1 == |items| || !items[k + 1].Glued()
  {
    hide Show, Tail, Before, Without, NameAt, Plain, Word, Ends, Gap;
    var it, post := items[k], Tail(items[k + 1..]);
    assert it.Valid() by { assert it in items; }
    FromText(items, k);
    BeforeWithout(items, k, IsIn);
    PlainIsWord(it.name);
    FirstSign(Before(items, k), "<", Gap(it.gap) + (it.name + post), IsIn);
    NameBegins(it.gap, it.name, post);
    TailEnds(items[k + 1..]);
  }

  lemma {:induction false} NoInputSeen(items: seq<Item>)
    requires AllValid(items) && Inputs(items) == []
    ensures InName(Show(items)) == None
  {
    hide Show, Without, InName;
    NoSign(items, IsIn);
    NoSigns(Show(items));
  }

  lemma FromBody(it: Item)
    requires it.From?
    ensures it.Body() != ""
  {
  }

  /** An input sign before item `k` stands in the text before it. */
  lemma {:induction false} InputStands(items: seq<Item>, k: nat)
    requires AllValid(items) && k < |items| && Inputs(items[..k]) != []
    ensures Span(Show(items), IsIn) < |Before(items, k)|
  {
    hide Show, Tail, Without, InName, Span, Item.Body, Sep;
    var pre := items[..k];
    var j := FirstFrom(pre);
    assert AllValid(pre);
    InputSeen(pre, j);
    ShowAt(pre, j);
    ShowAt(items, k);
    assert |pre[j].Body()| > 0 by { FromBody(pre[j]); }
    var rest := items[k].Body() + Tail(items[k + 1..]);
    SpanPrefix(Show(pre), Sep(items[k]) + rest, IsIn);
    assert (Show(pre) + Sep(items[k])) + rest == Show(pre) + (Sep(items[k]) + rest);
  }

  lemma {:induction false} SpanPrefix(a: string, b: string, stop: char -> bool)
    requires Span(a, stop) < |a|
    ensures Span(a + b, stop) == Span(a, stop)
  {
    var n := Span(a, stop);
    assert (a + b)[n] == a[n] && forall i :: 0 <= i < n ==> (a + b)[i] == a[i];
    SpanUnique(a + b, stop, n);
  }

  /** What the explainer looks at after the output name: all that follows, up to an input sign if none
      came before. */
  function AfterName(items: seq<Item>, k: nat): string
    requires k < |items|
  {
    var post := Tail(items[k + 1..]);
    if Inputs(items[..k]) != [] then post else post[..Span(post, IsIn)]
  }

  lemma {:induction false} AfterOutAt(t: string, body: string, post: string, first: bool)
    requires Without(t, IsOut) && Without(body, IsIn)
    requires var c := t + (">" + (body + post));
             if first then Without(t, IsIn) else Span(c, IsIn) < |t|
    ensures var c := t + (">" + (body + post));
            && Span(c, IsOut) == |t| < |c|
            && AfterOut(c) == body + if first then post[..Span(post, IsIn)] else post
  {
    hide Without, Span;
    FirstSign(t, ">", body + post, IsOut);
    if first {
      InputAfter(t, body, post);
      SliceAfter(t, body, post, Span(post, IsIn));
    }
  }

  lemma {:induction false} InputAfter(t: string, body: string, post: string)
    requires Without(t, IsIn) && Without(body, IsIn)
    ensures Span(t + (">" + (body + post)), IsIn) == |t| + 1 + |body| + Span(post, IsIn)
  {
    hide Span;
    SpanConcat(body, post, IsIn);
    SpanConcat(">", body + post, IsIn);
    SpanConcat(t, ">" + (body + post), IsIn);
  }

  lemma SliceAfter(t: string, body: string, post: string, n: nat)
    requires n <= |post|
    ensures (t + (">" + (body + post)))[|t| + 1..|t| + 1 + |body| + n] == body + post[..n]
  {
  }

  lemma {:induction false} ToText(items: seq<Item>, k: nat)
    requires k < |items| && items[k].To?
    ensures var body := Second(items[k].append) + (Gap(items[k].gap) + items[k].name);
            Show(items) == Before(items, k) + (">" + (body + Tail(items[k + 1..])))
  {
    hide Show, Tail, Before;
    ShowAt(items, k);
    var body := Second(items[k].append) + (Gap(items[k].gap) + items[k].name);
    assert (">" + body) + Tail(items[k + 1..]) == ">" + (body + Tail(items[k + 1..]));
  }

  /** The output the explainer sees. */
  lemma {:induction false} OutputSeen(items: seq<Item>, k: nat)
    requires AllValid(items) && k < |items| && items[k].To? && Outputs(items[..k]) == []
    ensures OutName(Show(items), items[k].append).Some? && OutName(Show(items), !items[k].append) == None
    ensures items[k].name <= OutName(Show(items), items[k].append).value
    ensures OutName(Show(items), items[k].append) == Some(items[k].name) <==> Ends(AfterName(items, k))
  {
    hide Show, Tail, Before, Without, NameAt, Plain, Word, Ends, AfterOut, Span, OutName, Gap, Second;
    var it, post, t := items[k], Tail(items[k + 1..]), Before(items, k);
    assert it.Valid() by { assert it in items; }
    ToText(items, k);
    BeforeWithout(items, k, IsOut);
    var first := Inputs(items[..k]) == [];
    if first { BeforeWithout(items, k, IsIn); } else { InputStands(items, k); }
    NameWithout(it.append, it.gap, it.name);
    var body := Second(it.append) + (Gap(it.gap) + it.name);
    AfterOutAt(t, body, post, first);
    var x := AfterName(items, k);
    Reassociate(Second(it.append), Gap(it.gap), it.name, x);
    OutputNamed(Show(items), it.append, it.gap, it.name, x);
  }

  lemma {:induction false} NameWithout(append: bool, gap: bool, name: string)
    requires Plain(name)
    ensures Without(Second(append) + (Gap(gap) + name), IsIn)
  {
    PlainWithout(name);
  }

  lemma {:induction false} OutputNamed(c: string, append: bool, gap: bool, name: string, post: string)
    requires Span(c, IsOut) < |c| && Plain(name)
    requires AfterOut(c) == Second(append) + (Gap(gap) + (name + post))
    ensures OutName(c, !append) == None && OutName(c, append).Some?
    ensures name <= OutName(c, append).value
    ensures OutName(c, append) == Some(name) <==> Ends(post)
  {
    hide NameAt, Ends, AfterOut, Span;
    var t, u := AfterOut(c), Gap(gap) + (name + post);
    NameBegins(gap, name, post);
    assert name[0] in name;
    if append {
      assert t[0] == '>' && t[1..] == u;
    } else {
      assert t == u && t[0] != '>';
    }
  }

  lemma {:induction false} NoOutputSeen(items: seq<Item>)
    requires AllValid(items) && Outputs(items) == []
    ensures OutName(Show(items), false) == None && OutName(Show(items), true) == None
  {
    hide Show, Without, OutName;
    NoSign(items, IsOut);
    NoSigns(Show(items));
  }

  // ----- Reading one command back

  lemma {:induction false} InputsSplit(items: seq<Item>, k: nat)
    requires k <= |items|
    ensures Inputs(items) == Inputs(items[..k]) + Inputs(items[k..])
  {
    if k == 0 {
      assert items[0..] == items;
    } else {
      InputsSplit(items[1..], k - 1);
      assert items[..k][1..] == items[1..][..k - 1] && items[1..][k - 1..] == items[k..];
    }
  }

  lemma {:induction false} OutputsSplit(items: seq<Item>, k: nat)
    requires k <= |items|
    ensures Outputs(items) == Outputs(items[..k]) + Outputs(items[k..])
  {
    if k == 0 {
      assert items[0..] == items;
    } else {
      OutputsSplit(items[1..], k - 1);
      assert items[..k][1..] == items[1..][..k - 1] && items[1..][k - 1..] == items[k..];
    }
  }

  /** With at most one input and one output, the sign at `k` leaves room for no second one after it. */
  lemma {:induction false} OnlySign(items: seq<Item>, k: nat)
    requires k < |items|
    ensures items[k].From? && |Inputs(items)| <= 1 ==>
              Inputs(items) == [items[k].name] && Inputs(items[..k]) == [] && Inputs(items[k + 1..]) == []
    ensures items[k].To? && |Outputs(items)| <= 1 ==>
              && Outputs(items) == [Output(items[k].append, items[k].name)]
              && Outputs(items[..k]) == []
              && Outputs(items[k + 1..]) == []
  {
    InputsSplit(items, k);
    OutputsSplit(items, k);
    assert items[k..][0] == items[k] && items[k..][1..] == items[k + 1..];
  }

  lemma {:induction false} HeadOfArgs(items: seq<Item>)
    requires AllValid(items)
    ensures Head(items) <= Args(items) && AllPlain(Args(items)) && AllPlain(Head(items))
  {
    if items != [] {
      assert items[0] in items;
      HeadOfArgs(items[1..]);
    }
  }

  /** What the explainer makes of a written command, for every arrangement and spacing of its items: the
      words before the first sign and nothing of the later ones; the first input and the first output,
      each with whatever is glued to its name, and nothing of the later ones. */
  lemma {:induction false} ExplainSees(items: seq<Item>, s: string)
    requires AllValid(items) && Words(s) == Words(Show(items))
    ensures Explain(s) ==
            if DetachedPrefix(Head(items)) then AssertionFails
            else Built(Explained(Unwords(Head(items)), Params(Head(items)), OutName(Show(items), false),
                                 InName(Show(items)), OutName(Show(items), true)))
    ensures InName(Show(items)).Some? <==> Inputs(items) != []
    ensures Inputs(items) != [] ==> Inputs(items)[0] <= InName(Show(items)).value
    ensures forall append :: OutName(Show(items), append).Some? <==>
              Outputs(items) != [] && Outputs(items)[0].append == append
    ensures Outputs(items) != [] ==> Outputs(items)[0].name <= OutName(Show(items), Outputs(items)[0].append).value
  {
    hide InName, OutName, Span, Unwords, Params, Show, Words, Head, Inputs, Outputs;
    var rest := ShowHead(items);
    ShowSettled(items);
    SettledFixed(Show(items));
    HeadOfArgs(items);
    CommandWordsShown(Head(items), rest);
    WordsOfHead(Show(items), IsRedirect);
    if Inputs(items) == [] {
      NoInputSeen(items);
    } else {
      var k := FirstFrom(items);
      InputSeen(items, k);
    }
    if Outputs(items) == [] {
      NoOutputSeen(items);
    } else {
      var k := FirstTo(items);
      OutputSeen(items, k);
    }
  }

  lemma {:induction false} FaithfulInput(items: seq<Item>)
    requires AllValid(items) && Faithful(items)
    ensures AsSeq(InName(Show(items))) == Inputs(items)
  {
    hide InName, Show, Inputs, Outputs, Head, Args;
    if Inputs(items) == [] {
      NoInputSeen(items);
    } else {
      var k := FirstFrom(items);
      InputSeen(items, k);
      OnlySign(items, k);
      if k + 1 < |items| && items[k + 1].From? { OnlySign(items, k + 1); }
      assert k + 1 < |items| && items[k + 1].Glued() ==> items[k + 1].From?;
      NextInput(items, k);
    }
  }

  lemma NextInput(items: seq<Item>, k: nat)
    requires k + 1 < |items| ==> Inputs(items[k + 1..]) == []
    ensures k + 1 < |items| ==> !items[k + 1].From?
  {
  }

  lemma NextOutput(items: seq<Item>, k: nat)
    requires k + 1 < |items| ==> Outputs(items[k + 1..]) == []
    ensures k + 1 < |items| ==> !items[k + 1].To?
  {
  }

  lemma {:induction false} FaithfulOutput(items: seq<Item>)
    requires AllValid(items) && Faithful(items)
    ensures forall append :: OutName(Show(items), append) ==
              if Outputs(items) != [] && Outputs(items)[0].append == append then Some(Outputs(items)[0].name) else None
  {
    hide OutName, Show, Inputs, Outputs, Head, Args, Ends;
    if Outputs(items) == [] {
      NoOutputSeen(items);
    } else {
      var k := FirstTo(items);
      OutputSeen(items, k);
      OnlySign(items, k);
      NextOutput(items, k);
      EndsAfterName(items, k);
    }
  }

  /** Nothing is glued to the output name but perhaps the one input sign, which has been cut away. */
  lemma {:induction false} EndsAfterName(items: seq<Item>, k: nat)
    requires AllValid(items) && k < |items| && |Inputs(items)| <= 1
    requires k + 1 < |items| ==> !items[k + 1].To?
    ensures Ends(AfterName(items, k))
  {
    hide Inputs, Item.Body;
    var more := items[k + 1..];
    var post := Tail(more);
    TailEnds(more);
    if more != [] && more[0].Glued() {
      OnlySign(items, k + 1);
      InputsSplit(items[..k + 1], k);
      assert items[..k + 1][..k] == items[..k];
      assert Inputs(items[..k]) == [];
      GluedFrom(more);
    }
  }

  lemma {:induction false} GluedFrom(items: seq<Item>)
    requires items != [] && items[0].From? && items[0].glue
    ensures Span(Tail(items), IsIn) == 0
  {
    TailIsShow(items);
    assert items[0].Body()[0] == '<';
    assert Tail(items)[0] == '<';
  }

  lemma {:induction false} BackFaithful(items: seq<Item>, s: string)
    requires AllValid(items) && Words(s) == Words(Show(items)) && !DetachedPrefix(Head(items))
    requires ComesBack(Explain(s), items)
    ensures Faithful(items)
  {
    hide InName, OutName, Unwords, Params, Show, Words, Head, Inputs, Outputs, Args, Explain;
    ExplainSees(items, s);
    HeadOfArgs(items);
    WordsUnwords(Head(items));
    WordsUnwords(Args(items));
    forall k | 0 < k < |items| && items[k - 1].From? && items[k].To?
      ensures !items[k].glue
    {
      OnlySign(items, k - 1);
      InputSeen(items, k - 1);
    }
  }

  /** For every written command and every re-spacing `s` of it: reading `s` gives back every word, input
      and output if and only if the words come first, there is at most one redirection of each kind and
      no output sign is glued to the input name (or the `./` assertion stops the shell either way). */
  lemma {:induction false} ExplainShow(items: seq<Item>, s: string)
    requires AllValid(items) && Words(s) == Words(Show(items))
    ensures ComesBack(Explain(s), items) <==> Faithful(items) || DetachedPrefix(Head(items))
  {
    hide InName, OutName, Unwords, Params, Show, Words, Head, Inputs, Outputs, Args, Explain, Unglued;
    ExplainSees(items, s);
    HeadOfArgs(items);
    if DetachedPrefix(Head(items)) {
    } else if Faithful(items) {
      FaithfulInput(items);
      FaithfulOutput(items);
      assert |Outputs(items)| == 1 ==> Outputs(items) == [Outputs(items)[0]];
    } else if ComesBack(Explain(s), items) {
      BackFaithful(items, s);
    }
  }
}
