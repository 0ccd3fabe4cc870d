/** `construct_split_commands`: cutting an accepted line into commands and linkages, and the normal
    form of a line that printing them back gives. */
module LineSplitter {
  import opened CStrings
  import opened LineGrammar

  datatype SplitCommands = SplitCommands(commands: seq<string>, linkages: seq<Linkage>)

  /** The commands and linkages of a derivable line. */
  function Split(s: string): Option<SplitCommands> {
    if s == "" then Some(SplitCommands([], []))
    else
      var l :- Parse(s);
      Some(SplitCommands(l.Segs(), l.Links()))
  }

  // ----- What the characters of an operator mean

  /** One bar pipes, two bars are an or, two ampersands an and; any number of semicolons is neither. */
  predicate Means(op: string, link: Linkage) {
    && op != ""
    && (link == Pipe <==> op == "|")
    && (link == Or <==> op == "||")
    && (link == And <==> op == "&&")
    && (link == Anyway <==> forall i :: 0 <= i < |op| ==> op[i] == ';')
  }

  /** Commands with operators between them. */
  function Interleave(commands: seq<string>, ops: seq<string>): string
    requires |commands| == |ops| + 1
  {
    if ops == [] then commands[0] else commands[0] + (ops[0] + Interleave(commands[1..], ops[1..]))
  }

  /** The line is its commands, between each two of them characters that mean their linkage, and then
      `closing`. */
  ghost predicate Written(s: string, sc: SplitCommands, closing: string) {
    |sc.commands| == |sc.linkages| + 1 &&
    exists ops: seq<string> ::
      && |ops| == |sc.linkages|
      && (forall i :: 0 <= i < |ops| ==> Means(ops[i], sc.linkages[i]))
      && s == Interleave(sc.commands, ops) + closing
  }

  lemma {:induction false} OpMeans(link: Linkage, run: nat)
    requires run >= 1
    ensures Means(OpText(link, run), link)
  {
    assert link == Anyway ==> OpText(link, run)[0] == ';';
    assert link != Anyway ==> OpText(link, run)[0] != ';';
  }

  lemma {:induction false} RestWritten(seg: string, r: Rest) returns (ops: seq<string>)
    requires r.WellFormed()
    ensures |ops| == |r.Links()| == |r.Segs()| && forall i :: 0 <= i < |ops| ==> Means(ops[i], r.Links()[i])
    ensures seg + r.Text() == Interleave([seg] + r.Segs(), ops) + Done(r.Closing()).Text()
    decreases r
  {
    hide Means;
    if r.Done? {
      ops := [];
    } else {
      var op := OpText(r.link, r.run);
      var more := RestWritten(r.seg, r.rest);
      OpMeans(r.link, r.run);
      ops := [op] + more;
      var closing := Done(r.Closing()).Text();
      assert ([seg] + r.Segs())[1..] == [r.seg] + r.rest.Segs() && ops[1..] == more;
      var body := Interleave([r.seg] + r.rest.Segs(), more);
      assert seg + (op + (body + closing)) == (seg + (op + body)) + closing;
    }
  }

  lemma {:induction false} LineWritten(l: Line)
    requires l.WellFormed()
    ensures Written(l.Text(), SplitCommands(l.Segs(), l.Links()), Done(l.rest.Closing()).Text())
  {
    hide Means, Interleave;
    var ops := RestWritten(l.seg, l.rest);
  }

  lemma {:induction false} MeansText(op: string, link: Linkage)
    requires Means(op, link)
    ensures |op| >= 1 && op == OpText(link, |op|) && (link != Anyway ==> |op| == |OpText(link, |op|)|)
  {
  }

  lemma {:induction false} WrittenRest(commands: seq<string>, linkages: seq<Linkage>, ops: seq<string>, closing: bool)
      returns (r: Rest)
    requires |commands| == |linkages| + 1 == |ops| + 1 && forall c :: c in commands ==> Segment(c)
    requires forall i :: 0 <= i < |ops| ==> Means(ops[i], linkages[i])
    ensures r.WellFormed() && r.Segs() == commands[1..] && r.Links() == linkages
    ensures commands[0] + r.Text() == Interleave(commands, ops) + Done(closing).Text()
    decreases |ops|
  {
    hide Means, Segment;
    if ops == [] {
      r := Done(closing);
    } else {
      forall i | 0 <= i < |ops[1..]|
        ensures Means(ops[1..][i], linkages[1..][i])
      {
        assert ops[1..][i] == ops[i + 1] && linkages[1..][i] == linkages[i + 1];
      }
      var more := WrittenRest(commands[1..], linkages[1..], ops[1..], closing);
      MeansText(ops[0], linkages[0]);
      assert commands[1] in commands;
      r := More(linkages[0], |ops[0]|, commands[1], more);
      assert commands[1..] == [commands[1]] + commands[1..][1..];
      assert linkages == [linkages[0]] + linkages[1..];
      var rest, end := Interleave(commands[1..], ops[1..]), Done(closing).Text();
      assert commands[0] + (ops[0] + (rest + end)) == (commands[0] + (ops[0] + rest)) + end;
    }
  }

  /** Conversely, any commands with characters that mean a linkage between each two of them, and perhaps a
      closing `;`, are split into exactly these commands and linkages. */
  lemma {:induction false} WrittenSplit(commands: seq<string>, linkages: seq<Linkage>, ops: seq<string>, closing: bool)
    requires |commands| == |linkages| + 1 == |ops| + 1 && forall c :: c in commands ==> Segment(c)
    requires forall i :: 0 <= i < |ops| ==> Means(ops[i], linkages[i])
    ensures Split(Interleave(commands, ops) + (if closing then ";" else "")) ==
            Some(SplitCommands(commands, linkages))
  {
    hide Means, Interleave;
    var r := WrittenRest(commands, linkages, ops, closing);
    var l := Line(commands[0], r);
    assert commands[0] in commands;
    assert l.Segs() == commands && l.Text() != "" by { assert commands == [commands[0]] + commands[1..]; }
    ParseComplete(l);
  }

  // ----- The splitting loop

  /** What the branches of the splitter read after a segment that is not the last one. */
  lemma {:induction false} OperatorChars(r: Rest)
    requires r.More? && r.WellFormed()
    ensures var t, n := r.Text(), |OpText(r.link, r.run)|;
            && |t| > n >= 1
            && n == r.run
            && t[n..] == r.seg + r.rest.Text()
            && IsText(t[n])
            && (forall i :: 0 <= i < n ==> t[i] == match r.link case Anyway => ';' case And => '&' case _ => '|')
            && Means(t[..n], r.link)
            && (r.link == Or || r.link == And ==> n == 2)
            && (r.link == Pipe ==> n == 1)
  {
    hide Means;
    var op, u := OpText(r.link, r.run), r.seg + r.rest.Text();
    assert r.Text() == op + u;
    assert r.Text()[..|op|] == op;
    assert u[0] == r.seg[0] && r.seg[0] in r.seg;
    OpMeans(r.link, r.run);
  }

  /** The linkage written at `from` and the position after it. The final `else` of the chain, where
      the splitter would give up, is never reached. */
  method ReadLinkage(s: string, from: nat, ghost r: Rest) returns (link: Linkage, pos: nat)
    requires from <= |s| && s[from..] == r.Text()
    requires r.More? && r.WellFormed()
    ensures link == r.link && pos <= |s| && s[pos..] == r.seg + r.rest.Text()
    ensures from < pos && Means(s[from..pos], link)
    ensures link == Anyway <==> s[from] == ';'
    ensures link == And <==> s[from] == '&'
    ensures link == Or <==> s[from] == '|' && CharAt(s, from + 1) == '|'
    ensures link == Pipe <==> s[from] == '|' && CharAt(s, from + 1) != '|'
  {
    hide Means, Rest.Text, Rest.WellFormed, OpText;
    OperatorAt(s, from, r);
    ghost var to := from + r.run;
    link, pos := Anyway, from;
    if s[pos] == ';' {
      while pos < |s| && s[pos] == ';'
        invariant from <= pos <= to
      {
        pos := pos + 1;
      }
    } else if s[pos] == '|' && CharAt(s, pos + 1) == '|' {
      link, pos := Or, pos + 2;
    } else if s[pos] == '|' {
      link, pos := Pipe, pos + 1;
    } else if s[pos] == '&' && CharAt(s, pos + 1) == '&' {
      link, pos := And, pos + 2;
    } else {
      assert false;
    }
    assert pos == to;
  }

  lemma {:induction false} OperatorAt(s: string, from: nat, r: Rest)
    requires from <= |s| && s[from..] == r.Text() && r.More? && r.WellFormed()
    ensures var to := from + r.run;
            && from < to < |s| && s[to..] == r.seg + r.rest.Text()
            && IsText(s[to])
            && (forall i :: from <= i < to ==> s[i] == match r.link case Anyway => ';' case And => '&' case _ => '|')
            && Means(s[from..to], r.link)
            && (r.link == Or || r.link == And ==> r.run == 2)
            && (r.link == Pipe ==> r.run == 1)
  {
    hide Means, Rest.Text, Rest.WellFormed, OpText;
    OperatorChars(r);
    var t, to := r.Text(), from + r.run;
    assert t[r.run..] == s[to..] && t[..r.run] == s[from..to];
    assert forall i :: from <= i < |s| ==> s[i] == t[i - from];
  }

  lemma {:induction false} SegsLinks(r: Rest)
    ensures |r.Segs()| == |r.Links()|
  {
    if r.More? { SegsLinks(r.rest); }
  }

  /** The part of the line from `pos` on is the derivation `cur`: its first segment ends where
      `strpbrk` stops. */
  lemma {:induction false} CutsAt(s: string, pos: nat, cur: Line)
    requires pos <= |s| && cur.WellFormed() && cur.Text() == s[pos..]
    ensures var to := pos + Span(s[pos..], IsOp);
            s[pos..to] == cur.seg && s[to..] == cur.rest.Text() && cur.rest.WellFormed()
  {
    RestStartsWithOp(cur.rest);
    SegmentSpan(cur.seg, cur.rest.Text());
    var to := pos + |cur.seg|;
    assert s[pos..][..|cur.seg|] == s[pos..to];
    assert s[pos..][|cur.seg|..] == s[to..];
  }

  lemma {:induction false} Counts(l: Line)
    ensures |l.Segs()| == |l.Links()| + 1
    ensures |l.Segs()| > 1 ==> l.rest.More?
    ensures |l.Segs()| == 1 ==>
              l.Segs() == [l.seg] && l.Links() == [] && l.rest.Text() == Done(l.rest.Closing()).Text()
  {
    SegsLinks(l.rest);
  }

  /** The second pass over a line that is not empty, trusting the count of the recogniser: it fills
      every slot of the two arrays sized by that count. */
  method FillCommands(s: string, commands: array<string>, linkages: array<Linkage>, ghost whole: Line)
      returns (ghost leftover: string)
    requires whole.WellFormed() && whole.Text() == s
    requires commands.Length == |whole.Segs()| && linkages.Length == commands.Length - 1
    modifies commands, linkages
    ensures commands[..] == whole.Segs() && linkages[..] == whole.Links()
    ensures leftover == Done(whole.rest.Closing()).Text()
  {
    hide *;
    ghost var cur := whole;
    Counts(whole);
    assert s[0..] == s;
    var n, i, pos := commands.Length, 0, 0;
    leftover := "";
    while i < n
      invariant 0 <= i <= n && 0 <= pos <= |s|
      invariant i < n ==> cur.WellFormed() && cur.Text() == s[pos..] && cur.rest.Closing() == whole.rest.Closing()
      invariant i < n ==> commands[..i] + cur.Segs() == whole.Segs() && linkages[..i] + cur.Links() == whole.Links()
      invariant i == n ==> commands[..] == whole.Segs() && linkages[..] == whole.Links()
      invariant i == n ==> leftover == Done(whole.rest.Closing()).Text()
    {
      Counts(cur);
      CutsAt(s, pos, cur);
      var findPos := pos + Span(s[pos..], IsOp);
      ghost var before := commands[..i];
      commands[i] := s[pos..findPos];
      assert commands[..i + 1] == before + [cur.seg];
      if i + 1 != n {
        ghost var links := linkages[..i];
        linkages[i], pos := ReadLinkage(s, findPos, cur.rest);
        assert linkages[..i + 1] == links + [cur.rest.link];
        cur := Next(cur);
      } else {
        leftover := s[findPos..];
        assert commands[..i + 1] == commands[..] && linkages[..i] == linkages[..];
      }
      i := i + 1;
    }
  }

  ghost function Next(l: Line): (next: Line)
    requires l.rest.More?
    ensures l.WellFormed() ==> next.WellFormed()
    ensures next.Text() == l.rest.seg + l.rest.rest.Text()
    ensures l.Segs() == [l.seg] + next.Segs() && l.Links() == [l.rest.link] + next.Links()
    ensures next.rest.Closing() == l.rest.Closing()
  {
    Line(l.rest.seg, l.rest.rest)
  }

  /** For every line: refused exactly when the grammar does not derive it; otherwise the commands and
      linkages of its derivation, stopping before nothing or before a single closing `;`. */
  method ConstructSplitCommands(s: string) returns (r: Option<SplitCommands>, ghost leftover: string)
    ensures r.None? <==> s != "" && !exists l: Line :: l.WellFormed() && l.Text() == s
    ensures forall l: Line :: l.WellFormed() && l.Text() == s ==>
              r == Some(SplitCommands(l.Segs(), l.Links())) && leftover == Done(l.rest.Closing()).Text()
    ensures r == Split(s)
    ensures leftover == "" || leftover == ";"
    ensures r.Some? && s != "" ==> Written(s, r.value, leftover)
  {
    hide Written;
    var n := IsValidLine(s);
    if n < 0 {
      ParseSound(s);
      return None, "";
    }
    var commands := new string[n];
    var linkages := new Linkage[if n == 0 then 0 else n - 1];
    leftover := "";
    if s != "" {
      ParseSound(s);
      SegsLinks(Parse(s).value.rest);
      leftover := FillCommands(s, commands, linkages, Parse(s).value);
      LineWritten(Parse(s).value);
    } else {
      assert commands[..] == [] && linkages[..] == [];
    }
    r := Some(SplitCommands(commands[..], linkages[..]));
    forall l: Line | l.WellFormed() && l.Text() == s
      ensures l == Parse(s).value
    {
      ParseComplete(l);
    }
  }

  // ----- The normal form of a line

  predicate Matching(commands: seq<string>, linkages: seq<Linkage>) {
    |linkages| == if commands == [] then 0 else |commands| - 1
  }

  /** The line written from commands and linkages, one `;` for each Anyway. */
  function Print(commands: seq<string>, linkages: seq<Linkage>): string
    requires Matching(commands, linkages)
    decreases |commands|
  {
    if commands == [] then ""
    else if linkages == [] then commands[0]
    else commands[0] + (OpText(linkages[0], 1) + Print(commands[1..], linkages[1..]))
  }

  /** Collapsing every run of `;` to one and dropping it at the end of the line, character by character. */
  function Collapse(s: string): string {
    if s == "" then ""
    else if s[0] == ';' && (|s| == 1 || s[1] == ';') then Collapse(s[1..])
    else [s[0]] + Collapse(s[1..])
  }

  /** The derivation with single `;` and no closing one. */
  function Normal(r: Rest): (n: Rest)
    ensures r.WellFormed() ==> n.WellFormed()
    ensures n.Segs() == r.Segs() && n.Links() == r.Links() && !n.Closing()
  {
    match r
    case Done(_) => Done(false)
    case More(link, run, seg, rest) => More(link, |OpText(link, 1)|, seg, Normal(rest))
  }

  lemma {:induction false} CollapseText(a: string, b: string)
    requires forall i :: 0 <= i < |a| ==> a[i] != ';'
    ensures Collapse(a + b) == a + Collapse(b)
  {
    if a == "" {
      assert a + b == b;
    } else {
      CollapseText(a[1..], b);
      assert (a + b)[1..] == a[1..] + b;
    }
  }

  lemma {:induction false} CollapseRun(n: nat, b: string)
    requires n >= 1 && b != "" && b[0] != ';'
    ensures Collapse(Repeat(';', n) + b) == ";" + Collapse(b)
  {
    var s := Repeat(';', n) + b;
    if n == 1 {
      assert s[1..] == b;
    } else {
      CollapseRun(n - 1, b);
      assert s[1..] == Repeat(';', n - 1) + b;
    }
  }

  lemma {:induction false} CollapseRest(r: Rest)
    requires r.WellFormed()
    ensures Collapse(r.Text()) == Normal(r).Text()
  {
    if r.More? {
      var op, u := OpText(r.link, r.run), r.seg + r.rest.Text();
      CollapseRest(r.rest);
      assert forall i :: 0 <= i < |r.seg| ==> r.seg[i] in r.seg;
      CollapseText(r.seg, r.rest.Text());
      if r.link == Anyway {
        CollapseRun(r.run, u);
        assert Repeat(';', 1) == ";";
      } else {
        CollapseText(op, u);
      }
    }
  }

  lemma {:induction false} PrintRest(seg: string, r: Rest)
    ensures |r.Segs()| == |r.Links()|
    ensures Print([seg] + r.Segs(), r.Links()) == seg + Normal(r).Text()
    decreases r
  {
    SegsLinks(r);
    if r.More? {
      PrintRest(r.seg, r.rest);
      assert ([seg] + r.Segs())[1..] == [r.seg] + r.rest.Segs();
      assert r.Links()[1..] == r.rest.Links();
    } else {
      assert seg + "" == seg;
    }
  }

  /** On every accepted line: printing its commands and linkages gives the line with `;` runs
      collapsed and the closing `;` dropped; that text is accepted and splits to the same commands
      and linkages, and collapsing it again changes nothing. */
  lemma {:induction false} NormalForm(s: string)
    requires Split(s).Some?
    ensures var sc := Split(s).value;
            && Matching(sc.commands, sc.linkages)
            && Print(sc.commands, sc.linkages) == Collapse(s)
            && Split(Collapse(s)) == Split(s)
            && Collapse(Collapse(s)) == Collapse(s)
  {
    if s != "" {
      ParseSound(s);
      var l := Parse(s).value;
      var norm := Line(l.seg, Normal(l.rest));
      assert forall i :: 0 <= i < |l.seg| ==> l.seg[i] in l.seg;
      CollapseText(l.seg, l.rest.Text());
      CollapseRest(l.rest);
      PrintRest(l.seg, l.rest);
      ParseComplete(norm);
      CollapseText(l.seg, norm.rest.Text());
      CollapseRest(norm.rest);
      NormalTwice(l.rest);
    }
  }

  lemma NormalTwice(r: Rest)
    ensures Normal(Normal(r)) == Normal(r)
  {
  }

  lemma {:induction false} RestOf(commands: seq<string>, linkages: seq<Linkage>) returns (r: Rest)
    requires |commands| == |linkages| && forall c :: c in commands ==> Segment(c)
    ensures r.WellFormed() && r.Segs() == commands && r.Links() == linkages && Normal(r) == r
  {
    if commands == [] {
      r := Done(false);
    } else {
      var rest := RestOf(commands[1..], linkages[1..]);
      r := More(linkages[0], |OpText(linkages[0], 1)|, commands[0], rest);
    }
  }

  /** Splitting undoes printing, for any operator-free non-empty commands joined by any linkages. */
  lemma {:induction false} SplitPrint(commands: seq<string>, linkages: seq<Linkage>)
    requires Matching(commands, linkages)
    requires forall c :: c in commands ==> Segment(c)
    ensures Split(Print(commands, linkages)) == Some(SplitCommands(commands, linkages))
  {
    if commands != [] {
      var r := RestOf(commands[1..], linkages);
      assert commands == [commands[0]] + commands[1..];
      PrintRest(commands[0], r);
      ParseComplete(Line(commands[0], r));
    }
  }
}
