/** Writing a whole line down and reading it back, through splitter and explainer. */
module WholeLine {
  import opened CStrings
  import opened Blanks
  import opened CommandExplainer
  import opened LineGrammar
  import opened LineSplitter
  import opened WrittenCommand

  /** The outcomes of the commands of a line and its linkages; a line with no outcome is refused. */
  datatype ReadLine = ReadLine(outcomes: seq<Outcome>, linkages: seq<Linkage>)

  function ExplainAll(commands: seq<string>): (outcomes: seq<Outcome>)
    ensures |outcomes| == |commands|
    ensures forall i :: 0 <= i < |commands| ==> outcomes[i] == Explain(commands[i])
  {
    seq(|commands|, i requires 0 <= i < |commands| => Explain(commands[i]))
  }

  function Read(line: string): Option<ReadLine> {
    var sc :- Split(line);
    Some(ReadLine(ExplainAll(sc.commands), sc.linkages))
  }

  lemma {:induction false} SegsNulFree(r: Rest)
    requires NulFree(r.Text())
    ensures forall c :: c in r.Segs() ==> NulFree(c)
  {
    if r.More? {
      assert NulFree(r.seg) && NulFree(r.rest.Text()) by {
        assert forall c :: c in r.seg || c in r.rest.Text() ==> c in r.Text();
      }
      SegsNulFree(r.rest);
    }
  }

  /** The first part of `control_split_commands`: split the line, then explain every command. */
  method ReadCommands(line: string) returns (r: Option<ReadLine>)
    requires NulFree(line)
    ensures r == Read(line)
  {
    hide Explain, Split, NulFree;
    var sc, _ := ConstructSplitCommands(line);
    if sc.None? { return None; }
    CommandsNulFree(line);
    var n := |sc.value.commands|;
    var explained := new Outcome[n](_ => AssertionFails);
    var i := 0;
    while i < n
      invariant 0 <= i <= n
      invariant forall j :: 0 <= j < i ==> explained[j] == Explain(sc.value.commands[j])
    {
      explained[i] := ConstructCommandExplained(sc.value.commands[i]);
      i := i + 1;
    }
    assert explained[..] == ExplainAll(sc.value.commands);
    r := Some(ReadLine(explained[..], sc.value.linkages));
  }

  lemma {:induction false} CommandsNulFree(line: string)
    requires NulFree(line) && Split(line).Some?
    ensures forall c :: c in Split(line).value.commands ==> NulFree(c)
  {
    if line != "" {
      ParseSound(line);
      var l := Parse(line).value;
      assert forall c :: c in l.seg || c in l.rest.Text() ==> c in l.Text();
      SegsNulFree(l.rest);
    }
  }

  /** Whole-line round trip. Write any commands, their items in any order, style and spacing, and join them
      as any derivation of the grammar does (any linkages, any number of `;`, a closing `;` or none).
      Splitting the line and explaining every piece gives the linkages back, and each command exactly
      when it was written faithfully. */
  lemma {:induction false} RoundTrip(commands: seq<seq<Item>>, l: Line)
    requires l.WellFormed() && |commands| == |l.Segs()|
    requires forall i :: 0 <= i < |commands| ==> AllValid(commands[i]) && Words(l.Segs()[i]) == Words(Show(commands[i]))
    ensures Read(l.Text()).Some?
    ensures Read(l.Text()).value.linkages == l.Links()
    ensures |Read(l.Text()).value.outcomes| == |commands|
    ensures forall i :: 0 <= i < |commands| ==>
              (ComesBack(Read(l.Text()).value.outcomes[i], commands[i]) <==>
               Faithful(commands[i]) || DetachedPrefix(Head(commands[i])))
  {
    hide ComesBack, Faithful, DetachedPrefix, Explain, Words, Show;
    ParseComplete(l);
    forall i | 0 <= i < |commands|
      ensures ComesBack(Explain(l.Segs()[i]), commands[i]) <==>
              Faithful(commands[i]) || DetachedPrefix(Head(commands[i]))
    {
      ExplainShow(commands[i], l.Segs()[i]);
    }
  }

  /** The texts of a list of commands. */
  function Texts(commands: seq<seq<Item>>): (ts: seq<string>)
    ensures |ts| == |commands| && forall i :: 0 <= i < |commands| ==> ts[i] == Show(commands[i])
  {
    seq(|commands|, i requires 0 <= i < |commands| => Show(commands[i]))
  }

  predicate OpFree(s: string) { forall c :: c in s ==> IsText(c) }

  lemma {:induction false} OpFreeConcat(a: string, b: string)
    requires OpFree(a) && OpFree(b)
    ensures OpFree(a + b)
  {
  }

  lemma BodyOpFree(it: Item)
    requires OpFree(if it.Arg? then it.text else it.name)
    ensures OpFree(it.Body()) && OpFree(Sep(it))
  {
  }

  lemma NothingOpFree()
    ensures OpFree("")
  {
  }

  /** A command that the line grammar lets through: something to write, and no operator character. */
  predicate Writable(items: seq<Item>) {
    items != [] && forall it :: it in items ==> OpFree(if it.Arg? then it.text else it.name)
  }

  lemma {:induction false} TailOpFree(items: seq<Item>)
    requires items == [] || Writable(items)
    ensures OpFree(Tail(items))
    decreases |items|
  {
    hide OpFree, Item.Body, Sep;
    if items == [] {
      NothingOpFree();
    } else {
      assert items[0] in items;
      BodyOpFree(items[0]);
      TailOpFree(items[1..]);
      OpFreeConcat(items[0].Body(), Tail(items[1..]));
      OpFreeConcat(Sep(items[0]), items[0].Body() + Tail(items[1..]));
    }
  }

  lemma {:induction false} ShowSegment(items: seq<Item>)
    requires AllValid(items) && Writable(items)
    ensures Segment(Show(items))
  {
    hide Item.Body, Tail;
    ShowIsPart(items);
    assert items[0] in items;
    BodyOpFree(items[0]);
    TailOpFree(items[1..]);
    OpFreeConcat(items[0].Body(), Tail(items[1..]));
  }

  /** The same for the plain way of writing the line: print the commands, joined by the linkages. */
  lemma {:induction false} PrintRoundTrip(commands: seq<seq<Item>>, linkages: seq<Linkage>)
    requires Matching(Texts(commands), linkages)
    requires forall items :: items in commands ==> AllValid(items) && Writable(items)
    ensures var r := Read(Print(Texts(commands), linkages));
            && r.Some?
            && r.value.linkages == linkages
            && |r.value.outcomes| == |commands|
            && forall i :: 0 <= i < |commands| ==>
                 (ComesBack(r.value.outcomes[i], commands[i]) <==>
                  Faithful(commands[i]) || DetachedPrefix(Head(commands[i])))
  {
    hide ComesBack, Faithful, DetachedPrefix, Explain, Words, Show, Writable, AllValid, Segment;
    var ts := Texts(commands);
    forall t | t in ts
      ensures Segment(t)
    {
      var i :| 0 <= i < |ts| && ts[i] == t;
      ShowSegment(commands[i]);
    }
    SplitPrint(ts, linkages);
    forall i | 0 <= i < |commands|
      ensures ComesBack(Explain(ts[i]), commands[i]) <==> Faithful(commands[i]) || DetachedPrefix(Head(commands[i]))
    {
      ExplainShow(commands[i], ts[i]);
    }
  }
}
