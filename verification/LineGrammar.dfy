/** The command-line grammar that `is_valid_line` recognises, and the recogniser itself:
        line ::= seg (op seg)* [";"]      op ::= "&&" | "||" | "|" | ";" ";"*
    with `seg` a non-empty text free of the three operator characters. */
module LineGrammar {
  import opened CStrings

  predicate IsOp(c: char) { c == '&' || c == '|' || c == ';' }

  predicate IsText(c: char) { !IsOp(c) }

  predicate Segment(s: string) { s != "" && forall c :: c in s ==> IsText(c) }

  datatype Linkage = And | Or | Anyway | Pipe

  function Repeat(c: char, n: nat): (s: string)
    ensures |s| == n && forall i :: 0 <= i < n ==> s[i] == c
  {
    seq(n, _ => c)
  }

  /** How a linkage is written; only `;` may be repeated. */
  function OpText(link: Linkage, run: nat): string {
    match link
    case And => "&&"
    case Or => "||"
    case Pipe => "|"
    case Anyway => Repeat(';', run)
  }

  /** What follows the first segment of a line. */
  datatype Rest =
    | Done(trailing: bool)
    | More(link: Linkage, run: nat, seg: string, rest: Rest)
  {
    predicate WellFormed() {
      More? ==>
        && Segment(seg)
        && run >= 1
        && (link != Anyway ==> run == |OpText(link, run)|)
        && rest.WellFormed()
    }

    function Text(): string {
      match this
      case Done(trailing) => if trailing then ";" else ""
      case More(link, run, seg, rest) => OpText(link, run) + (seg + rest.Text())
    }

    function Segs(): seq<string> {
      if Done? then [] else [seg] + rest.Segs()
    }

    function Links(): seq<Linkage> {
      if Done? then [] else [link] + rest.Links()
    }

    /** Does the line end with a `;` that joins nothing? */
    predicate Closing() {
      if Done? then trailing else rest.Closing()
    }
  }

  /** A derivation of a non-empty line. */
  datatype Line = Line(seg: string, rest: Rest) {
    predicate WellFormed() { Segment(seg) && rest.WellFormed() }

    function Text(): string { seg + rest.Text() }

    function Segs(): seq<string> { [seg] + rest.Segs() }

    function Links(): seq<Linkage> { rest.Links() }
  }

  /** The linkage an operator run stands for, if any. */
  function Operator(op: string): (link: Option<Linkage>)
    ensures link.Some? ==> |op| >= 1 && OpText(link.value, |op|) == op
  {
    if op == "&&" then Some(And)
    else if op == "||" then Some(Or)
    else if op == "|" then Some(Pipe)
    else if op != "" && forall i :: 0 <= i < |op| ==> op[i] == ';' then
      assert OpText(Anyway, |op|) == op;
      Some(Anyway)
    else None
  }

  function ParseRest(t: string): Option<Rest>
    decreases |t|
  {
    if t == "" then Some(Done(false))
    else if t == ";" then Some(Done(true))
    else
      var m := Span(t, IsText);
      var link :- Operator(t[..m]);
      var u := t[m..];
      var n := Span(u, IsOp);
      if n == 0 then None
      else
        var rest :- ParseRest(u[n..]);
        Some(More(link, m, u[..n], rest))
  }

  function Parse(s: string): Option<Line> {
    var n := Span(s, IsOp);
    if n == 0 then None
    else
      var rest :- ParseRest(s[n..]);
      Some(Line(s[..n], rest))
  }

  // ----- The parser finds exactly the derivations

  /** How a longer continuation was taken apart. */
  lemma {:induction false} ParsedMore(t: string) returns (op: string, tail: string)
    requires ParseRest(t).Some? && t != "" && t != ";"
    ensures ParseRest(t).value.More?
    ensures var r := ParseRest(t).value;
            && t == op + (r.seg + tail)
            && ParseRest(tail) == Some(r.rest)
            && |tail| < |t|
            && Segment(r.seg)
            && r.run == |op|
            && Operator(op) == Some(r.link)
  {
    hide Operator, Segment;
    var m := Span(t, IsText);
    var u := t[m..];
    var n := Span(u, IsOp);
    op, tail := t[..m], u[n..];
    SegmentPrefix(u);
    CutTwice(t, m, n);
  }

  lemma CutTwice(t: string, m: nat, n: nat)
    requires m <= |t| && n <= |t[m..]|
    ensures t == t[..m] + (t[m..][..n] + t[m..][n..])
  {
  }

  lemma SegmentPrefix(u: string)
    ensures Span(u, IsOp) > 0 ==> Segment(u[..Span(u, IsOp)])
  {
  }

  lemma {:induction false} MoreSound(link: Linkage, op: string, seg: string, rest: Rest)
    requires Operator(op) == Some(link) && Segment(seg) && rest.WellFormed()
    ensures More(link, |op|, seg, rest).WellFormed()
    ensures More(link, |op|, seg, rest).Text() == op + (seg + rest.Text())
  {
  }

  lemma {:induction false} ParseRestSound(t: string)
    ensures ParseRest(t).Some? ==> ParseRest(t).value.WellFormed() && ParseRest(t).value.Text() == t
    decreases |t|
  {
    if t != "" && t != ";" && ParseRest(t).Some? {
      hide ParseRest, Operator, Segment, Rest.WellFormed, Rest.Text;
      var op, tail := ParsedMore(t);
      var r := ParseRest(t).value;
      ParseRestSound(tail);
      MoreSound(r.link, op, r.seg, r.rest);
    }
  }

  lemma {:induction false} ParseSound(s: string)
    ensures Parse(s).Some? ==> Parse(s).value.WellFormed() && Parse(s).value.Text() == s
  {
    var n := Span(s, IsOp);
    ParseRestSound(s[n..]);
    assert s == s[..n] + s[n..];
  }

  lemma {:induction false} RestStartsWithOp(r: Rest)
    requires r.WellFormed()
    ensures r.Text() == "" || IsOp(r.Text()[0])
  {
    if r.More? {
      assert OpText(r.link, r.run) != "";
    }
  }

  lemma {:induction false} OperatorWritten(link: Linkage, run: nat)
    requires run >= 1 && (link != Anyway ==> run == |OpText(link, run)|)
    ensures Operator(OpText(link, run)) == Some(link) && |OpText(link, run)| == run
    ensures forall i :: 0 <= i < run ==> IsOp(OpText(link, run)[i])
    ensures OpText(link, run)[0] == ';' ==> link == Anyway
  {
    var op := OpText(link, run);
    assert link == And || link == Or || link == Pipe || op[0] == ';';
  }

  lemma {:induction false} SegmentSpan(seg: string, tail: string)
    requires Segment(seg) && (tail == "" || IsOp(tail[0]))
    ensures Span(seg + tail, IsOp) == |seg|
    ensures IsText((seg + tail)[0])
    ensures (seg + tail)[..|seg|] == seg && (seg + tail)[|seg|..] == tail
  {
    forall i | 0 <= i < |seg|
      ensures !IsOp(seg[i])
    {
      assert seg[i] in seg;
    }
    SpanConcat(seg, tail, IsOp);
    assert (seg + tail)[0] == seg[0];
  }

  lemma {:induction false} ParseRestStep(link: Linkage, run: nat, seg: string, tail: string)
    requires run >= 1 && (link != Anyway ==> run == |OpText(link, run)|)
    requires Segment(seg) && (tail == "" || IsOp(tail[0]))
    ensures var r := ParseRest(tail);
            ParseRest(OpText(link, run) + (seg + tail)) ==
            if r.None? then None else Some(More(link, run, seg, r.value))
  {
    var op, u := OpText(link, run), seg + tail;
    var t := op + u;
    OperatorWritten(link, run);
    SegmentSpan(seg, tail);
    SpanConcat(op, u, IsText);
    assert Span(t, IsText) == run;
    assert t[..run] == op && t[run..] == u;
    assert |t| >= 2;
  }

  lemma {:induction false} ParseRestComplete(r: Rest)
    requires r.WellFormed()
    ensures ParseRest(r.Text()) == Some(r)
    decreases r
  {
    if r.More? {
      ParseRestComplete(r.rest);
      RestStartsWithOp(r.rest);
      ParseRestStep(r.link, r.run, r.seg, r.rest.Text());
    }
  }

  /** The grammar is unambiguous: a well-formed derivation is recovered from its text. */
  lemma {:induction false} ParseComplete(l: Line)
    requires l.WellFormed()
    ensures Parse(l.Text()) == Some(l)
  {
    ParseRestComplete(l.rest);
    RestStartsWithOp(l.rest);
    SegmentSpan(l.seg, l.rest.Text());
  }

  // ----- The recogniser

  /** Segments still to come, `t` being read just after a segment character; -1 if `t` is no continuation. */
  function Further(t: string): int {
    var r := ParseRest(t[Span(t, IsOp)..]);
    if r.None? then -1 else |r.value.Segs()|
  }

  /** Adds `len` segments already seen to the ones still to come. */
  function Plus(len: int, further: int): int { if further < 0 then -1 else len + further }

  /** The number of segments of `s`, or -1. */
  function Tally(s: string): int {
    if Parse(s).None? then -1 else |Parse(s).value.Segs()|
  }

  function Flag(n: int): int { if n != 0 then 1 else 0 }

  lemma {:induction false} TallyStart(s: string)
    requires s != ""
    ensures Tally(s) == if IsOp(s[0]) then -1 else Plus(1, Further(s[1..]))
  {
    if IsText(s[0]) {
      var n := Span(s[1..], IsOp);
      assert Span(s, IsOp) == n + 1;
      assert s[n + 1..] == s[1..][n..];
    }
  }

  lemma {:induction false} FurtherText(t: string)
    requires t != "" && IsText(t[0])
    ensures Further(t) == Further(t[1..])
  {
    var n := Span(t[1..], IsOp);
    assert Span(t, IsOp) == n + 1;
    assert t[n + 1..] == t[1..][n..];
  }

  lemma {:induction false} FurtherOp(t: string)
    requires t != "" && IsOp(t[0])
    ensures Further(t) == if ParseRest(t).None? then -1 else |ParseRest(t).value.Segs()|
  {
    assert Span(t, IsOp) == 0 && t[0..] == t;
  }

  /** An operator run that ends where text begins. */
  lemma {:induction false} FurtherOperator(t: string, k: nat)
    requires 1 <= k < |t| && IsText(t[k])
    requires forall i :: 0 <= i < k ==> IsOp(t[i])
    ensures Further(t) == if Operator(t[..k]).None? then -1 else Plus(1, Further(t[k + 1..]))
  {
    FurtherOp(t);
    SpanUnique(t, IsText, k);
    var u := t[k..];
    var n := Span(u, IsOp);
    assert Span(u[1..], IsOp) == n - 1;
    assert u[n..] == t[k + 1..][n - 1..] && u[1..] == t[k + 1..];
  }

  /** `c` read after a run of another operator character, or a third `&` or `|`. */
  lemma {:induction false} FurtherBad(c: char, n: nat, d: char, t: string)
    requires IsOp(c) && IsOp(d) && n >= 1
    requires d != c || (n >= 2 && c != ';')
    ensures Further(Repeat(c, n) + ([d] + t)) == -1
  {
    var u := Repeat(c, n) + ([d] + t);
    FurtherOp(u);
    var op := u[..Span(u, IsText)];
    assert u[n] == d && forall i :: 0 <= i < n ==> u[i] == c;
    assert |op| >= n + 1 && op[0] == c && op[n] == d;
    assert Operator(op).None?;
  }

  /** The first text character after a run of `n` operator characters `c`. */
  lemma {:induction false} FurtherSegment(c: char, n: nat, t: string)
    requires IsOp(c) && n >= 1 && (n <= 2 || c == ';')
    requires t != "" && IsText(t[0])
    ensures Further(Repeat(c, n) + t) == if c == '&' && n == 1 then -1 else Plus(1, Further(t[1..]))
  {
    var u := Repeat(c, n) + t;
    FurtherOperator(u, n);
    assert u[..n] == Repeat(c, n) && u[n + 1..] == t[1..];
    var op := Repeat(c, n);
    assert n == 1 ==> op == [c];
    assert n == 2 ==> op == [c, c];
    assert Operator(op).None? <==> (c == '&' && n == 1);
  }

  lemma {:induction false} RepeatMore(c: char, n: nat, t: string)
    requires t != "" && t[0] == c
    ensures Repeat(c, n) + t == Repeat(c, n + 1) + t[1..]
  {
  }

  /** A line that ends inside a run of operator characters. */
  lemma {:induction false} FurtherEnd(c: char, n: nat)
    requires IsOp(c)
    ensures Further(Repeat(c, n)) == if n == 0 || (n == 1 && c == ';') then 0 else -1
  {
    var t := Repeat(c, n);
    if n > 0 {
      FurtherOp(t);
      SpanUnique(t, IsText, n);
      assert t == ";" <==> n == 1 && c == ';';
    }
  }

  /** The scan of the line, one counter update per character. The part already read ends with `n`
      operator characters `c`; when `n` is 0 it ends inside a segment (or is empty). */
  method Scan(s: string) returns (r: int)
    ensures s == "" ==> r == 0
    ensures s != "" ==> (r >= 0 ==> r == Tally(s)) && (r < 0 ==> Tally(s) == -1)
  {
    hide Tally, Further;
    var andd, orr, semicolon, text, sum, len := 0, 0, 0, 0, 0, 0;
    var i := 0;
    ghost var c, n := ';', 0;
    while i < |s|
      invariant 0 <= i <= |s|
      invariant text >= 0 && len >= 0 && n >= 0 && IsOp(c)
      invariant andd == (if c == '&' then n else 0) <= 2
      invariant orr == (if c == '|' then n else 0) <= 2
      invariant semicolon == (if c == ';' then n else 0)
      invariant sum == n
      invariant text == 0 <==> i == 0 || n > 0
      invariant i == 0 ==> n == len == 0
      invariant i > 0 ==> Tally(s) == Plus(len, Further(Repeat(c, n) + s[i..]))
    {
      ghost var t := s[i..];
      assert t[1..] == s[i + 1..] && Repeat(c, 0) + t == t;
      var state := 0;
      if s[i] == '&' {
        andd := andd + 1;
      } else if s[i] == '|' {
        orr := orr + 1;
      } else if s[i] == ';' {
        semicolon := semicolon + 1;
      } else {
        state := 1;
        text := text + 1;
      }
      var different := Flag(andd) + Flag(orr) + Flag(semicolon);
      sum := andd + orr + semicolon;
      if state == 0 {
        if sum == 1 {
          if text == 0 {
            TallyStart(s);
            return -4;
          }
          text := 0;
        }
        if n > 0 && (s[i] != c || (n >= 2 && c != ';')) {
          FurtherBad(c, n, s[i], t[1..]);
          assert t == [s[i]] + t[1..];
        }
        if different > 1 {
          return -1;
        } else if orr > 2 {
          return -6;
        } else if andd > 2 {
          return -7;
        }
        c := s[i];
        assert Repeat(c, 0) + t == t;
        RepeatMore(c, n, t);
        n := n + 1;
      } else {
        if text == 1 {
          if i == 0 { TallyStart(s); } else { FurtherSegment(c, n, t); }
          if andd == 1 { return -8; }
          andd, orr, semicolon, sum, different := 0, 0, 0, 0, 0;
          len := len + 1;
        } else {
          FurtherText(t);
        }
        n := 0;
      }
      assert Repeat(c, 0) + s[i + 1..] == s[i + 1..];
      i := i + 1;
    }
    FurtherEnd(c, n);
    assert Repeat(c, n) + s[i..] == Repeat(c, n);
    if sum - Flag(semicolon) != 0 { return -5; }
    return len;
  }

  /** For every line: non-negative exactly when the line is empty or derivable, and then the number
      of segments of its (only) derivation. */
  method IsValidLine(s: string) returns (r: int)
    ensures r >= 0 <==> s == "" || exists l: Line :: l.WellFormed() && l.Text() == s
    ensures forall l: Line :: l.WellFormed() && l.Text() == s ==> r == |l.Segs()|
    ensures s == "" ==> r == 0
    ensures s != "" && r >= 0 ==> Parse(s).Some? && r == |Parse(s).value.Segs()|
  {
    r := Scan(s);
    forall l: Line | l.WellFormed() && l.Text() == s
      ensures r == |l.Segs()|
    {
      ParseComplete(l);
    }
    ParseSound(s);
  }
}
