/** Printing the hash: an alphabet of 2^po printable characters, `po` hash bits to a character. */
module EtagTag {
  import opened EtagHash

  // ----- The alphabet

  /** The codes below `n` that belong to the class. */
  ghost function Class(isGraph: nat -> bool, n: nat): set<nat> {
    set i: nat | i < n && isGraph(i)
  }

  lemma {:induction false} ClassStep(isGraph: nat -> bool, n: nat)
    ensures |Class(isGraph, n + 1)| == |Class(isGraph, n)| + if isGraph(n) then 1 else 0
  {
    hide Class;
    ClassMore(isGraph, n);
    OneMore(Class(isGraph, n), n);
  }

  lemma {:induction false} ClassMore(isGraph: nat -> bool, n: nat)
    ensures n !in Class(isGraph, n)
    ensures Class(isGraph, n + 1) == if isGraph(n) then Class(isGraph, n) + {n} else Class(isGraph, n)
  {
  }

  lemma OneMore(s: set<nat>, n: nat)
    requires n !in s
    ensures |s + {n}| == |s| + 1
  {
  }

  method CountClass(isGraph: nat -> bool) returns (c: nat)
    ensures c == |Class(isGraph, 255)|
  {
    c := 0;
    var i := 0;
    assert Class(isGraph, 0) == {};
    while i < 255
      invariant 0 <= i <= 255 && c == |Class(isGraph, i)|
    {
      ClassStep(isGraph, i);
      c := c + if isGraph(i) then 1 else 0;
      i := i + 1;
    }
  }

  /** `c` is `n` shifted right by `k`. */
  ghost predicate Shifted(c: nat, k: nat, n: nat) { c * Pow2(k) <= n < (c + 1) * Pow2(k) }

  lemma {:induction false} ShiftOnce(c: nat, k: nat, n: nat)
    requires Shifted(c, k, n)
    ensures Shifted(c / 2, k + 1, n)
  {
    assert Pow2(k + 1) == 2 * Pow2(k);
    HalfOf(c, Pow2(k), n);
  }

  lemma {:induction false} HalfOf(c: nat, p: nat, n: nat)
    requires c * p <= n < (c + 1) * p
    ensures (c / 2) * (2 * p) <= n < (c / 2 + 1) * (2 * p)
  {
    var d := c / 2;
    Doubled(d, p);
    Doubled(d + 1, p);
    if c == 2 * d {
      assert (2 * (d + 1)) * p == (c + 1) * p + p;
    } else {
      assert c * p == (2 * d) * p + p;
    }
  }

  lemma Doubled(d: nat, p: nat)
    ensures d * (2 * p) == (2 * d) * p
  {
  }

  lemma ShiftedBounds(k: nat, n: nat)
    ensures Shifted(n, 0, n)
    ensures Shifted(1, k, n) ==> Pow2(k) <= n
    ensures Shifted(0, k, n) ==> n < Pow2(k)
  {
  }

  /** The shifting loop: the largest `po` with 2^po at most `n`. */
  method FloorLog2(n: nat) returns (po: nat)
    requires n >= 1
    ensures Pow2(po) <= n < Pow2(po + 1)
  {
    hide Shifted, Pow2;
    var c, k := n, 0;
    ShiftedBounds(k, n);
    while c != 0
      invariant k >= 0 && c >= 0 && Shifted(c, k, n)
      invariant c == 0 ==> k >= 1 && Pow2(k - 1) <= n
      decreases c
    {
      ShiftOnce(c, k, n);
      ShiftedBounds(k, n);
      c := c / 2;
      k := k + 1;
    }
    ShiftedBounds(k, n);
    po := k - 1;
  }

  /** An alphabet: distinct members of the class, and of those the smallest ones, in descending order. */
  ghost predicate Alphabet(printables: seq<nat>, isGraph: nat -> bool) {
    && (forall k :: 0 <= k < |printables| ==> printables[k] < 255 && isGraph(printables[k]))
    && (forall j, k :: 0 <= j < k < |printables| ==> printables[j] > printables[k])
    && (forall i: nat :: i < 255 && isGraph(i) && printables != [] && i <= printables[0] ==> i in printables)
  }

  /** The letters from `c` on are all the members below `i`, in descending order. */
  ghost predicate Filled(letters: seq<nat>, isGraph: nat -> bool, i: nat) {
    && (forall k :: 0 <= k < |letters| ==> letters[k] < i && isGraph(letters[k]))
    && (forall j, k :: 0 <= j < k < |letters| ==> letters[j] > letters[k])
    && (forall m: nat :: m < i && isGraph(m) ==> m in letters)
  }

  lemma {:induction false} FillOne(letters: seq<nat>, isGraph: nat -> bool, i: nat)
    requires Filled(letters, isGraph, i)
    ensures isGraph(i) ==> Filled([i] + letters, isGraph, i + 1)
    ensures !isGraph(i) ==> Filled(letters, isGraph, i + 1)
  {
    if isGraph(i) {
      var more := [i] + letters;
      assert forall m :: m in letters ==> m in more;
      assert more[0] == i;
    }
  }

  lemma {:induction false} FilledAlphabet(letters: seq<nat>, isGraph: nat -> bool, i: nat)
    requires Filled(letters, isGraph, i) && i <= 255
    ensures Alphabet(letters, isGraph)
  {
  }

  /** The filling loop: the smallest members of the class, from the last cell down. */
  method FillAlphabet(isGraph: nat -> bool, printables: array<nat>)
    requires printables.Length <= |Class(isGraph, 255)|
    modifies printables
    ensures Alphabet(printables[..], isGraph)
  {
    hide Class, Filled, Alphabet;
    var i, c := 0, printables.Length;
    NoneYet(isGraph);
    assert printables[c..] == [];
    while i < 255 && c != 0
      invariant 0 <= i <= 255 && 0 <= c <= printables.Length
      invariant c != 0 ==> c + |Class(isGraph, i)| == printables.Length
      invariant Filled(printables[c..], isGraph, i)
    {
      ghost var tail := printables[c..];
      ClassStep(isGraph, i);
      FillOne(tail, isGraph, i);
      if isGraph(i) {
        c := c - 1;
        printables[c] := i;
        assert printables[c..] == [i] + tail;
      }
      i := i + 1;
    }
    assert printables[0..] == printables[..];
    FilledAlphabet(printables[..], isGraph, i);
  }

  lemma NoneYet(isGraph: nat -> bool)
    ensures Filled([], isGraph, 0) && |Class(isGraph, 0)| == 0
  {
    assert Class(isGraph, 0) == {};
  }

  /** For every class with a member: the alphabet has 2^po letters, 2^po being the largest power of two
      that does not exceed the size of the class. */
  method EtagInit(isGraph: nat -> bool) returns (po: nat, printables: array<nat>)
    requires Class(isGraph, 255) != {}
    ensures Pow2(po) <= |Class(isGraph, 255)| < Pow2(po + 1)
    ensures printables.Length == Pow2(po) && Alphabet(printables[..], isGraph)
  {
    hide Class, Alphabet, Pow2;
    var n := CountClass(isGraph);
    po := FloorLog2(n);
    printables := new nat[Pow2(po)](_ => 0);
    FillAlphabet(isGraph, printables);
  }

  // ----- Packing bits into letters

  /** Hash bit `i`, zero past the end of the hash. */
  predicate HashBit(hash: seq<bool>, i: nat) { i < |hash| && i < BITS && hash[i] }

  /** The number that `r` hash bits from `base` on form, lowest bit first. */
  function Digit(hash: seq<bool>, base: nat, r: nat): (d: nat)
    ensures d < Pow2(r)
  {
    if r == 0 then 0
    else Digit(hash, base, r - 1) + if HashBit(hash, base + r - 1) then Pow2(r - 1) else 0
  }

  /** The printed tag: letter `k` stands for hash bits `k * po` to `k * po + po - 1`. */
  function Tag(hash: seq<bool>, size: nat, po: nat, printables: seq<nat>): (tag: seq<nat>)
    requires |printables| == Pow2(po)
    ensures |tag| == size && forall k :: 0 <= k < size ==> tag[k] == printables[Digit(hash, k * po, po)]
  {
    seq(size, k requires 0 <= k < size => printables[Digit(hash, k * po, po)])
  }

  lemma {:induction false} Gap(a: nat, b: nat, p: nat)
    requires a < b
    ensures a * p + p <= b * p
  {
    assert b * p == (b - 1) * p + p;
    if a < b - 1 { Gap(a, b - 1, p); }
  }

  lemma {:induction false} ModOf(cur: nat, po: nat, r: nat)
    requires r < po
    ensures (cur * po + r) % po == r && (cur * po + r) / po == cur
  {
    var x := cur * po + r;
    var q := x / po;
    assert x == q * po + x % po;
    if q < cur { Gap(q, cur, po); }
    if cur < q { Gap(cur, q, po); }
  }

  /** The packing loop, writing from cell `at` on: it ends, stays inside the alphabet, and prints the tag.
      In the source a bit is or-ed into `active`; as `active` is below that bit, this is the sum. */
  method Transform(buf: array<nat>, at: nat, size: nat, hash: seq<bool>, po: nat, printables: array<nat>)
    requires po >= 1 && printables.Length == Pow2(po) && |hash| == BITS
    requires at + size <= buf.Length && buf != printables
    modifies buf
    ensures buf[at..at + size] == Tag(hash, size, po, printables[..])
    ensures Letters(buf[at..at + size], hash, size, po, printables[..])
    ensures forall k :: 0 <= k < buf.Length && !(at <= k < at + size) ==> buf[k] == old(buf[k])
  {
    hide Letters;
    var i, cur, active := 0, 0, 0;
    ghost var r := 0;
    while cur < size
      invariant 0 <= cur <= size && 0 <= r < po && i == cur * po + r
      invariant active == Digit(hash, cur * po, r)
      invariant forall k :: 0 <= k < cur ==> buf[at + k] == printables[Digit(hash, k * po, po)]
      invariant forall k :: 0 <= k < buf.Length && !(at <= k < at + size) ==> buf[k] == old(buf[k])
      decreases size - cur, po - r
    {
      ModOf(cur, po, r);
      if i < BITS && hash[i] {
        active := active + Pow2(i % po);
      }
      assert active == Digit(hash, cur * po, r + 1);
      if i % po == po - 1 {
        assert (cur + 1) * po == cur * po + po;
        buf[at + cur] := printables[active];
        cur, active, r := cur + 1, 0, 0;
      } else {
        r := r + 1;
      }
      i := i + 1;
    }
    TagLetters(hash, size, po, printables[..]);
  }

  // ----- Which letter a group of bits becomes

  lemma {:induction false} PowSplit(a: nat, b: nat)
    ensures Pow2(a + b) == Pow2(a) * Pow2(b)
  {
    if b > 0 {
      PowSplit(a, b - 1);
      assert Pow2(a + b) == 2 * Pow2(a + (b - 1));
      assert Pow2(a) * (2 * Pow2(b - 1)) == 2 * (Pow2(a) * Pow2(b - 1));
    }
  }

  lemma {:induction false} DivAdd(x: nat, q: nat, p: nat)
    requires p >= 1
    ensures (x + q * p) / p == x / p + q
  {
    assert x == (x / p) * p + x % p;
    assert (x / p + q) * p == (x / p) * p + q * p;
    DivUnique(x + q * p, p, x / p + q, x % p);
  }

  /** A higher power of two leaves the parity of a quotient alone. */
  lemma {:induction false} HigherBit(x: nat, j: nat, r: nat)
    requires j < r
    ensures ((x + Pow2(r)) / Pow2(j)) % 2 == (x / Pow2(j)) % 2
  {
    hide Pow2;
    PowSplit(j, r - j);
    assert Pow2(r - j) == 2 * Pow2(r - j - 1) by { PowMore(r - j - 1); }
    DivAdd(x, Pow2(r - j), Pow2(j));
    assert Pow2(r - j) * Pow2(j) == Pow2(r) by { Commutes(Pow2(r - j), Pow2(j)); }
  }

  lemma Commutes(a: nat, b: nat)
    ensures a * b == b * a
  {
  }

  lemma PowMore(n: nat)
    ensures Pow2(n + 1) == 2 * Pow2(n)
  {
  }

  /** The binary digits of the number of a letter are the hash bits it stands for. */
  lemma {:induction false} DigitBits(hash: seq<bool>, base: nat, r: nat, j: nat)
    requires j < r
    ensures HashBit(hash, base + j) <==> (Digit(hash, base, r) / Pow2(j)) % 2 == 1
  {
    hide HashBit, Pow2;
    var low := Digit(hash, base, r - 1);
    if j < r - 1 {
      DigitBits(hash, base, r - 1, j);
      HigherBit(low, j, r - 1);
    } else {
      TopBit(low, Pow2(j));
    }
  }

  lemma {:induction false} TopBit(low: nat, p: nat)
    requires low < p
    ensures low / p == 0 && (low + p) / p == 1
  {
    DivAdd(low, 1, p);
  }

  /** `d` is the number whose binary digit `j`, the lowest being digit 0, is hash bit `base + j`. */
  ghost predicate Stands(d: nat, hash: seq<bool>, base: nat, po: nat) {
    d < Pow2(po) && forall j: nat :: j < po ==> (HashBit(hash, base + j) <==> (d / Pow2(j)) % 2 == 1)
  }

  lemma {:induction false} DigitStands(hash: seq<bool>, base: nat, po: nat)
    ensures Stands(Digit(hash, base, po), hash, base, po)
  {
    forall j: nat | j < po
      ensures HashBit(hash, base + j) <==> (Digit(hash, base, po) / Pow2(j)) % 2 == 1
    {
      DigitBits(hash, base, po, j);
    }
  }

  /** Letter `k` of the tag is the one whose number has hash bits `k * po` to `k * po + po - 1` as its
      binary digits. */
  ghost predicate Letters(tag: seq<nat>, hash: seq<bool>, size: nat, po: nat, printables: seq<nat>) {
    && |tag| == size && |printables| == Pow2(po)
    && forall k: nat :: k < size ==> LetterFor(tag[k], hash, k * po, po, printables)
  }

  ghost predicate LetterFor(letter: nat, hash: seq<bool>, base: nat, po: nat, printables: seq<nat>)
    requires |printables| == Pow2(po)
  {
    exists d: nat :: Stands(d, hash, base, po) && letter == printables[d]
  }

  lemma {:induction false} TagLetters(hash: seq<bool>, size: nat, po: nat, printables: seq<nat>)
    requires |printables| == Pow2(po)
    ensures Letters(Tag(hash, size, po, printables), hash, size, po, printables)
  {
    hide Digit;
    forall k: nat | k < size
      ensures LetterFor(Tag(hash, size, po, printables)[k], hash, k * po, po, printables)
    {
      DigitStands(hash, k * po, po);
    }
  }

  // ----- When two tags are equal

  ghost predicate SameBits(h: seq<bool>, g: seq<bool>, from: nat, to: nat) {
    forall i: nat :: from <= i < to ==> HashBit(h, i) == HashBit(g, i)
  }

  lemma {:induction false} DigitsEqual(h: seq<bool>, g: seq<bool>, base: nat, r: nat)
    ensures Digit(h, base, r) == Digit(g, base, r) <==> SameBits(h, g, base, base + r)
  {
    hide HashBit;
    if r > 0 {
      DigitsEqual(h, g, base, r - 1);
      var last := base + r - 1;
      assert Digit(h, base, r - 1) < Pow2(r - 1) && Digit(g, base, r - 1) < Pow2(r - 1);
      assert SameBits(h, g, base, base + r) <==>
        SameBits(h, g, base, last) && HashBit(h, last) == HashBit(g, last);
    }
  }

  lemma {:induction false} LastLetter(h: seq<bool>, g: seq<bool>, n: nat, po: nat, printables: seq<nat>)
    requires |printables| == Pow2(po)
    requires forall j, k :: 0 <= j < k < |printables| ==> printables[j] != printables[k]
    ensures Tag(h, n + 1, po, printables) == Tag(g, n + 1, po, printables) <==>
            Tag(h, n, po, printables) == Tag(g, n, po, printables) && Digit(h, n * po, po) == Digit(g, n * po, po)
  {
    hide Digit;
    TagMore(h, n, po, printables);
    TagMore(g, n, po, printables);
    var h', g' := Tag(h, n + 1, po, printables), Tag(g, n + 1, po, printables);
    assert h'[..n] == Tag(h, n, po, printables) && g'[..n] == Tag(g, n, po, printables);
    assert h'[n] == printables[Digit(h, n * po, po)] && g'[n] == printables[Digit(g, n * po, po)];
  }

  /** Two tags of one size are equal exactly when the first `size * po` hash bits are (bits past the
      end of the hash are zero, so at most the 160 bits of the hash matter). */
  lemma {:induction false} TagsEqual(h: seq<bool>, g: seq<bool>, size: nat, po: nat, printables: seq<nat>)
    requires po >= 1 && |printables| == Pow2(po)
    requires forall j, k :: 0 <= j < k < |printables| ==> printables[j] != printables[k]
    ensures Tag(h, size, po, printables) == Tag(g, size, po, printables) <==> SameBits(h, g, 0, size * po)
    decreases size
  {
    hide Tag, Digit, HashBit;
    if size == 0 {
      assert 0 * po == 0;
      TagEmpty(h, g, po, printables);
    } else {
      var n := size - 1;
      TagsEqual(h, g, n, po, printables);
      LastLetter(h, g, n, po, printables);
      DigitsEqual(h, g, n * po, po);
      assert size * po == n * po + po;
      assert SameBits(h, g, 0, size * po) <==> SameBits(h, g, 0, n * po) && SameBits(h, g, n * po, n * po + po);
    }
  }

  lemma TagEmpty(h: seq<bool>, g: seq<bool>, po: nat, printables: seq<nat>)
    requires |printables| == Pow2(po)
    ensures Tag(h, 0, po, printables) == Tag(g, 0, po, printables)
  {
  }

  /** A longer tag extends a shorter one. */
  lemma {:induction false} TagMore(h: seq<bool>, size: nat, po: nat, printables: seq<nat>)
    requires |printables| == Pow2(po)
    ensures Tag(h, size + 1, po, printables) ==
            Tag(h, size, po, printables) + [printables[Digit(h, size * po, po)]]
  {
  }

  lemma {:induction false} TagPrefix(h: seq<bool>, size: nat, more: nat, po: nat, printables: seq<nat>)
    requires |printables| == Pow2(po) && size <= more
    ensures Tag(h, size, po, printables) == Tag(h, more, po, printables)[..size]
  {
  }

  // ----- The tag of a file

  const QUOTE: nat := '"' as int

  function ColumnBits(file: seq<Byte>): (bits: seq<bool>)
    ensures |bits| == BITS && forall i :: 0 <= i < BITS ==> bits[i] == Column(file, i)
  {
    seq(BITS, i requires 0 <= i < BITS => Column(file, i))
  }

  /** `etag_generate`: the quoted tag of the column parities, then the terminator. */
  method EtagGenerate(buf: array<nat>, bufSize: nat, file: seq<Byte>, po: nat, printables: array<nat>)
    requires 3 < bufSize <= buf.Length && buf != printables
    requires po >= 1 && printables.Length == Pow2(po)
    modifies buf
    ensures buf[..bufSize] == [QUOTE] + Tag(ColumnBits(file), bufSize - 3, po, printables[..]) + [QUOTE, 0]
  {
    hide Tag, Column, Ones;
    var size := bufSize - 3;
    buf[0], buf[size + 2], buf[size + 1] := QUOTE, 0, QUOTE;
    var hash := new bool[BITS](_ => false);
    HashFile(file, hash);
    assert hash[..] == ColumnBits(file);
    Transform(buf, 1, size, hash[..], po, printables);
    assert buf[..bufSize] == [buf[0]] + buf[1..1 + size] + [buf[size + 1], buf[size + 2]];
  }

  ghost predicate SameColumns(f: seq<Byte>, g: seq<Byte>, n: nat) {
    forall ind: nat :: ind < BITS && ind < n ==> Column(f, ind) == Column(g, ind)
  }

  lemma {:induction false} BitsAreColumns(f: seq<Byte>, g: seq<Byte>, n: nat)
    ensures SameBits(ColumnBits(f), ColumnBits(g), 0, n) <==> SameColumns(f, g, n)
  {
    hide Column;
    var h, k := ColumnBits(f), ColumnBits(g);
    assert forall i: nat :: HashBit(h, i) == (i < BITS && Column(f, i));
    assert forall i: nat :: HashBit(k, i) == (i < BITS && Column(g, i));
    if SameBits(h, k, 0, n) {
      forall ind: nat | ind < BITS && ind < n
        ensures Column(f, ind) == Column(g, ind)
      {
        assert HashBit(h, ind) == HashBit(k, ind);
      }
    }
  }

  /** Two files get the same tag exactly when their column parities agree in the first `size * po` bits
      (of the 160 there are). */
  lemma {:induction false} SameTag(f: seq<Byte>, g: seq<Byte>, size: nat, po: nat, printables: seq<nat>)
    requires po >= 1 && |printables| == Pow2(po)
    requires forall j, k :: 0 <= j < k < |printables| ==> printables[j] != printables[k]
    ensures Tag(ColumnBits(f), size, po, printables) == Tag(ColumnBits(g), size, po, printables)
            <==> SameColumns(f, g, size * po)
  {
    hide Tag, Column, SameBits, SameColumns;
    TagsEqual(ColumnBits(f), ColumnBits(g), size, po, printables);
    BitsAreColumns(f, g, size * po);
  }

  // ----- The tag of a string

  function StringBits(text: seq<Byte>): (bits: seq<bool>)
    ensures |bits| == BITS && forall i :: 0 <= i < BITS ==> bits[i] == StringBit(text, |text|, i)
  {
    seq(BITS, i requires 0 <= i < BITS => StringBit(text, |text|, i))
  }

  /** `etag_generate_str`, called with the length of the text. */
  method EtagGenerateStr(buf: array<nat>, bufSize: nat, text: seq<Byte>, po: nat, printables: array<nat>)
    requires 3 < bufSize <= buf.Length && buf != printables
    requires po >= 1 && printables.Length == Pow2(po)
    modifies buf
    ensures buf[..bufSize] == [QUOTE] + Tag(StringBits(text), bufSize - 3, po, printables[..]) + [QUOTE, 0]
  {
    hide Tag, StringBit;
    var size := bufSize - 3;
    buf[0], buf[size + 2], buf[size + 1] := QUOTE, 0, QUOTE;
    var hash := new bool[BITS](_ => false);
    HashString(text, hash);
    assert hash[..] == StringBits(text);
    Transform(buf, 1, size, hash[..], po, printables);
    assert buf[..bufSize] == [buf[0]] + buf[1..1 + size] + [buf[size + 1], buf[size + 2]];
  }

  /** A text and a file with the same bytes get the same tag. */
  ghost predicate SameTagAsFile(text: seq<Byte>, size: nat, po: nat, printables: seq<nat>)
    requires |printables| == Pow2(po)
  {
    Tag(StringBits(text), size, po, printables) == Tag(ColumnBits(text), size, po, printables)
  }

  /** For every tag size and alphabet: texts without NUL of a given length all get the tag of the file with
      the same bytes exactly when that length is at most one chunk. */
  lemma {:induction false} StringAgrees(length: nat, size: nat, po: nat, printables: seq<nat>)
    requires size >= 1 && po >= 1 && |printables| == Pow2(po)
    requires forall j, k :: 0 <= j < k < |printables| ==> printables[j] != printables[k]
    ensures (forall text: seq<Byte> :: |text| == length && 0 !in text ==> SameTagAsFile(text, size, po, printables))
            <==> length <= 20
  {
    hide Tag, Column, StringBit, Pow2;
    if length <= CHUNK {
      forall text: seq<Byte> | |text| == length && 0 !in text
        ensures SameTagAsFile(text, size, po, printables)
      {
        forall ind: nat | ind < BITS ensures StringBit(text, |text|, ind) == Column(text, ind) {
          ShortAgrees(text, ind);
        }
        assert StringBits(text) == ColumnBits(text);
      }
    } else {
      var text := LongDisagrees(length);
      TagsEqual(StringBits(text), ColumnBits(text), size, po, printables);
      assert HashBit(StringBits(text), 0) != HashBit(ColumnBits(text), 0);
      assert size * po >= 1;
      assert !SameBits(StringBits(text), ColumnBits(text), 0, size * po);
      assert !SameTagAsFile(text, size, po, printables);
    }
  }

  /** Columns from `ceil(size * po / 8)` on never reach the tag: files that differ only there share it. */
  lemma {:induction false} UnseenColumns(f: seq<Byte>, g: seq<Byte>, ind: nat, cut: nat)
    requires |f| == |g| && ind < 8 * cut
    requires forall p :: 0 <= p < |f| && p % CHUNK < cut ==> f[p] == g[p]
    ensures Column(f, ind) == Column(g, ind)
  {
    if f != [] {
      var p := |f| - 1;
      UnseenColumns(f[..p], g[..p], ind, cut);
    }
  }

  /** Characters 33 to 126, the graphic ones of the C locale. */
  predicate GraphC(i: nat) { 33 <= i <= 126 }

  lemma {:induction false} ClassOfGraphC(n: nat)
    requires n <= 127
    ensures |Class(GraphC, n)| == if n < 33 then 0 else n - 33
  {
    if n == 0 {
      assert Class(GraphC, 0) == {};
    } else {
      ClassOfGraphC(n - 1);
      ClassStep(GraphC, n - 1);
    }
  }

  /** As the server uses it (20 cells, C locale): 6 bits to a letter and 17 letters, so exactly the first
      102 column parities decide the tag, and byte positions 13 to 19 modulo 20 never matter. */
  lemma {:induction false} ServerTag(f: seq<Byte>, g: seq<Byte>, po: nat, printables: seq<nat>)
    requires Pow2(po) <= |Class(GraphC, 255)| < Pow2(po + 1)
    requires |printables| == Pow2(po) && Alphabet(printables, GraphC)
    ensures po == 6
    ensures Tag(ColumnBits(f), 17, po, printables) == Tag(ColumnBits(g), 17, po, printables)
            <==> SameColumns(f, g, 102)
    ensures |f| == |g| && (forall p :: 0 <= p < |f| && p % 20 < 13 ==> f[p] == g[p])
            ==> Tag(ColumnBits(f), 17, po, printables) == Tag(ColumnBits(g), 17, po, printables)
  {
    ClassOfGraphC(127);
    assert Class(GraphC, 255) == Class(GraphC, 127);
    PowersAround94(po);
    SameTag(f, g, 17, po, printables);
    if |f| == |g| && forall p :: 0 <= p < |f| && p % 20 < 13 ==> f[p] == g[p] {
      forall ind: nat | ind < 102 ensures Column(f, ind) == Column(g, ind) { UnseenColumns(f, g, ind, 13); }
    }
  }

  lemma {:induction false} Pow2Grows(a: nat, b: nat)
    requires a <= b
    ensures Pow2(a) <= Pow2(b)
  {
    if a < b { Pow2Grows(a, b - 1); }
  }

  lemma {:induction false} PowersAround94(po: nat)
    requires Pow2(po) <= 94 < Pow2(po + 1)
    ensures po == 6
  {
    assert Pow2(3) == 8 && Pow2(6) == 64 && Pow2(7) == 128;
    if po >= 7 { Pow2Grows(7, po); }
    if po + 1 <= 6 { Pow2Grows(po + 1, 6); }
  }
}
