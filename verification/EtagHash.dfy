/** The hash behind the server's entity tags: 20-byte chunks of the file, XORed into 160 bits. */
module EtagHash {
  const CHUNK: nat := 20
  const BITS: nat := 160

  type Byte = bv8

  function Pow2(n: nat): (p: nat)
    ensures p >= 1
  {
    if n == 0 then 1 else 2 * Pow2(n - 1)
  }

  /** `1U << j`. */
  function Mask(j: nat): Byte
    requires j < 8
  {
    match j
    case 0 => 1
    case 1 => 2
    case 2 => 4
    case 3 => 8
    case 4 => 16
    case 5 => 32
    case 6 => 64
    case 7 => 128
  }

  predicate Masked(b: Byte, m: Byte) { b & m != 0 }

  predicate Bit(b: Byte, j: nat)
    requires j < 8
  {
    Masked(b, Mask(j))
  }

  function Value(b: Byte): nat { b as nat }

  /** Bit `j` is the one worth 2^j. */
  lemma {:induction false} BitValue(b: Byte, j: nat)
    requires j < 8
    ensures Bit(b, j) <==> (Value(b) / Pow2(j)) % 2 == 1
  {
    hide Masked, Value;
    if j == 0 {
      LowBit(b);
    } else {
      BitValue(b / 2, j - 1);
      NextBit(b, j);
      HalfByte(b);
      DivTwice(Value(b), Pow2(j - 1));
    }
  }

  lemma LowBit(b: Byte)
    ensures Masked(b, 1) <==> Value(b) % 2 == 1
  {
  }

  lemma HalfByte(b: Byte)
    ensures Value(b / 2) == Value(b) / 2
  {
  }

  lemma NextBit(b: Byte, j: nat)
    requires 0 < j < 8
    ensures Masked(b, Mask(j)) <==> Masked(b / 2, Mask(j - 1))
  {
  }

  lemma {:induction false} DivTwice(x: nat, p: nat)
    requires p >= 1
    ensures x / (2 * p) == (x / 2) / p
  {
    var q := (x / 2) / p;
    var r := (x / 2) % p;
    assert x / 2 == q * p + r;
    assert x == q * (2 * p) + (2 * r + x % 2);
    DivUnique(x, 2 * p, q, 2 * r + x % 2);
  }

  lemma {:induction false} DivUnique(x: nat, p: nat, q: nat, r: nat)
    requires r < p && x == q * p + r
    ensures x / p == q
  {
    var d := x / p - q;
    assert x == (x / p) * p + x % p;
    assert d * p == r - x % p;
    AtLeastOnce(d, p);
  }

  lemma AtLeastOnce(d: int, p: int)
    requires p >= 1
    ensures d >= 1 ==> d * p >= p
    ensures d <= -1 ==> d * p <= 0 - p
  {
  }

  /** Bit `ind` of one chunk laid out as bits; a short chunk ends in zeros. */
  predicate ChunkBit(chunk: seq<Byte>, ind: nat) {
    ind / 8 < |chunk| && Bit(chunk[ind / 8], ind % 8)
  }

  /** Does byte `b` at position `p` count for hash bit `ind`? */
  predicate Counts(b: Byte, p: nat, ind: nat) {
    p % CHUNK == ind / 8 && Bit(b, ind % 8)
  }

  /** The positions that count for hash bit `ind`: column `ind / 8`, with bit `ind % 8` set. */
  ghost function Ones(file: seq<Byte>, ind: nat): set<nat> {
    set p: nat | p < |file| && Counts(file[p], p, ind)
  }

  /** The parity of that set, byte by byte. */
  function Column(file: seq<Byte>, ind: nat): bool {
    if file == [] then false
    else
      var p := |file| - 1;
      Column(file[..p], ind) != Counts(file[p], p, ind)
  }

  lemma {:induction false} ColumnIsParity(file: seq<Byte>, ind: nat)
    ensures Column(file, ind) <==> |Ones(file, ind)| % 2 == 1
  {
    hide Counts;
    if file == [] {
      assert Ones(file, ind) == {};
    } else {
      var p := |file| - 1;
      ColumnIsParity(file[..p], ind);
      var before, after := Ones(file[..p], ind), Ones(file, ind);
      assert p !in before;
      if Counts(file[p], p, ind) {
        assert after == before + {p};
      } else {
        assert after == before;
      }
    }
  }

  // ----- The chunked loop computes the column parities

  method AddHash(hash: array<bool>, buf: seq<Byte>)
    requires hash.Length == BITS && |buf| <= CHUNK
    modifies hash
    ensures forall ind :: 0 <= ind < BITS ==> hash[ind] == (old(hash[ind]) != ChunkBit(buf, ind))
  {
    var i := 0;
    while i < |buf|
      invariant 0 <= i <= |buf|
      invariant forall ind :: 0 <= ind < 8 * i ==> hash[ind] == (old(hash[ind]) != ChunkBit(buf, ind))
      invariant forall ind :: 8 * i <= ind < BITS ==> hash[ind] == old(hash[ind])
    {
      var j := 0;
      while j < 8
        invariant 0 <= j <= 8
        invariant forall ind :: 0 <= ind < 8 * i + j ==> hash[ind] == (old(hash[ind]) != ChunkBit(buf, ind))
        invariant forall ind :: 8 * i + j <= ind < BITS ==> hash[ind] == old(hash[ind])
      {
        var ind := i * 8 + j;
        var ki := Bit(buf[i], j);
        assert ind / 8 == i && ind % 8 == j;
        hash[ind] := hash[ind] != ki;
        j := j + 1;
      }
      i := i + 1;
    }
  }

  lemma {:induction false} CountsShift(b: Byte, n: nat, p: nat, ind: nat)
    requires n % CHUNK == 0
    ensures Counts(b, n + p, ind) == Counts(b, p, ind)
  {
    hide Bit;
    assert (n + p) % CHUNK == p % CHUNK;
  }

  /** What comes after a whole number of chunks contributes as if it stood alone. */
  lemma {:induction false} ColumnConcat(a: seq<Byte>, b: seq<Byte>, ind: nat)
    requires |a| % CHUNK == 0
    ensures Column(a + b, ind) == (Column(a, ind) != Column(b, ind))
  {
    hide Counts;
    if b == [] {
      assert a + b == a;
    } else {
      var p := |b| - 1;
      ColumnConcat(a, b[..p], ind);
      assert (a + b)[..|a| + p] == a + b[..p] && (a + b)[|a| + p] == b[p];
      CountsShift(b[p], |a|, p, ind);
    }
  }

  lemma {:induction false} ColumnOfChunk(chunk: seq<Byte>, ind: nat)
    requires ind < BITS && |chunk| <= CHUNK
    ensures Column(chunk, ind) == ChunkBit(chunk, ind)
  {
    if chunk != [] {
      var p := |chunk| - 1;
      ColumnOfChunk(chunk[..p], ind);
      assert p % CHUNK == p;
    }
  }

  /** The read loop over a file delivered in full chunks with a possibly short last one: bit `ind` of
      the hash is the parity of bit `ind % 8` over the byte positions congruent to `ind / 8` modulo 20. */
  method HashFile(file: seq<Byte>, hash: array<bool>)
    requires hash.Length == BITS && forall ind :: 0 <= ind < BITS ==> !hash[ind]
    modifies hash
    ensures forall ind :: 0 <= ind < BITS ==> hash[ind] == Column(file, ind)
    ensures forall ind :: 0 <= ind < BITS ==> (hash[ind] <==> |Ones(file, ind)| % 2 == 1)
  {
    hide ChunkBit, Column, Ones;
    var pos := 0;
    assert file[..0] == [];
    forall ind: nat | ind < BITS ensures !Column([], ind) { ColumnOfChunk([], ind); NoChunk(ind); }
    while pos < |file|
      invariant 0 <= pos <= |file|
      invariant pos < |file| ==> pos % CHUNK == 0
      invariant forall ind :: 0 <= ind < BITS ==> hash[ind] == Column(file[..pos], ind)
    {
      var red := if |file| - pos < CHUNK then |file| - pos else CHUNK;
      var tmp := file[pos..pos + red];
      AddHash(hash, tmp);
      forall ind: nat | ind < BITS
        ensures hash[ind] == Column(file[..pos + red], ind)
      {
        ColumnConcat(file[..pos], tmp, ind);
        ColumnOfChunk(tmp, ind);
        assert file[..pos + red] == file[..pos] + tmp;
      }
      pos := pos + red;
    }
    assert file[..pos] == file;
    forall ind: nat | ind < BITS
      ensures Column(file, ind) <==> |Ones(file, ind)| % 2 == 1
    {
      ColumnIsParity(file, ind);
    }
  }

  lemma NoChunk(ind: nat)
    ensures !ChunkBit([], ind)
  {
  }

  // ----- Consequences

  function Xor(f: seq<Byte>, g: seq<Byte>): (h: seq<Byte>)
    requires |f| == |g|
    ensures |h| == |f| && forall i :: 0 <= i < |h| ==> h[i] == f[i] ^ g[i]
  {
    seq(|f|, i requires 0 <= i < |f| => f[i] ^ g[i])
  }

  /** One bit of an exclusive or. */
  lemma {:induction false} MaskXor(x: Byte, y: Byte, m: Byte)
    requires m == 1 || m == 2 || m == 4 || m == 8 || m == 16 || m == 32 || m == 64 || m == 128
    ensures Masked(x ^ y, m) == (Masked(x, m) != Masked(y, m))
  {
  }

  lemma {:induction false} BitXor(x: Byte, y: Byte, j: nat)
    requires j < 8
    ensures Bit(x ^ y, j) == (Bit(x, j) != Bit(y, j))
  {
    hide Masked;
    MaskXor(x, y, Mask(j));
  }

  lemma {:induction false} CountsXor(x: Byte, y: Byte, p: nat, ind: nat)
    ensures Counts(x ^ y, p, ind) == (Counts(x, p, ind) != Counts(y, p, ind))
  {
    hide Bit;
    BitXor(x, y, ind % 8);
  }

  /** The hash is linear over XOR of files of one length. */
  lemma {:induction false} Linear(f: seq<Byte>, g: seq<Byte>, ind: nat)
    requires |f| == |g|
    ensures Column(Xor(f, g), ind) == (Column(f, ind) != Column(g, ind))
  {
    hide Counts;
    if f != [] {
      var p := |f| - 1;
      Linear(f[..p], g[..p], ind);
      CountsXor(f[p], g[p], p, ind);
      assert Xor(f, g)[..p] == Xor(f[..p], g[..p]);
    }
  }

  lemma {:induction false} MaskOfMask(j: nat, k: nat)
    requires j < 8 && k < 8
    ensures Bit(Mask(j), k) <==> j == k
  {
  }

  lemma {:induction false} BitFlip(b: Byte, j: nat, k: nat)
    requires j < 8 && k < 8
    ensures Bit(b ^ Mask(j), k) == (Bit(b, k) != (j == k))
  {
    hide Bit;
    BitXor(b, Mask(j), k);
    MaskOfMask(j, k);
  }

  /** Flipping bit `j` of byte `p` flips hash bit `8 * (p % 20) + j` and no other. */
  lemma {:induction false} FlipOne(file: seq<Byte>, p: nat, j: nat, ind: nat)
    requires p < |file| && j < 8 && ind < BITS
    ensures var flipped := file[p := file[p] ^ Mask(j)];
            Column(flipped, ind) == (Column(file, ind) != (ind == 8 * (p % 20) + j))
  {
    hide Bit, Mask;
    var n := |file| - 1;
    var flipped := file[p := file[p] ^ Mask(j)];
    if p == n {
      assert flipped[..n] == file[..n];
      BitFlip(file[p], j, ind % 8);
    } else {
      FlipOne(file[..n], p, j, ind);
      assert flipped[..n] == file[..n][p := file[p] ^ Mask(j)];
    }
  }

  function Flatten(chunks: seq<seq<Byte>>): seq<Byte> {
    if chunks == [] then [] else chunks[0] + Flatten(chunks[1..])
  }

  predicate Full(chunks: seq<seq<Byte>>) { forall c :: c in chunks ==> |c| == CHUNK }

  lemma {:induction false} FlattenLength(chunks: seq<seq<Byte>>)
    requires Full(chunks)
    ensures |Flatten(chunks)| % CHUNK == 0
  {
    if chunks != [] {
      assert chunks[0] in chunks;
      FlattenLength(chunks[1..]);
    }
  }

  /** Moving chunk `k` to the front changes no bit. */
  lemma {:induction false} MoveToFront(chunks: seq<seq<Byte>>, k: nat, ind: nat)
    requires Full(chunks) && k < |chunks| && ind < BITS
    ensures Full(chunks[..k] + chunks[k + 1..])
    ensures Column(Flatten(chunks), ind) ==
            (Column(chunks[k], ind) != Column(Flatten(chunks[..k] + chunks[k + 1..]), ind))
  {
    hide Column;
    var others := chunks[..k] + chunks[k + 1..];
    assert forall c :: c in others ==> c in chunks;
    assert chunks[0] in chunks;
    FlattenLength(chunks[1..]);
    ColumnConcat(chunks[0], Flatten(chunks[1..]), ind);
    if k == 0 {
      assert others == chunks[1..];
    } else {
      MoveToFront(chunks[1..], k - 1, ind);
      assert chunks[1..][..k - 1] + chunks[1..][k..] == others[1..];
      ColumnConcat(chunks[0], Flatten(others[1..]), ind);
    }
  }

  /** The hash does not depend on the order of the full chunks. */
  lemma {:induction false} Permuted(a: seq<seq<Byte>>, b: seq<seq<Byte>>, tail: seq<Byte>, ind: nat)
    requires Full(a) && multiset(a) == multiset(b) && ind < BITS
    ensures Column(Flatten(a) + tail, ind) == Column(Flatten(b) + tail, ind)
  {
    assert Full(b) by {
      forall c | c in b ensures c in a { assert c in multiset(b); }
    }
    PermutedChunks(a, b, ind);
    FlattenLength(a);
    FlattenLength(b);
    ColumnConcat(Flatten(a), tail, ind);
    ColumnConcat(Flatten(b), tail, ind);
  }

  lemma {:induction false} RemoveSame<T>(a: seq<T>, b: seq<T>) returns (k: nat)
    requires a != [] && multiset(a) == multiset(b)
    ensures k < |b| && b[k] == a[0] && multiset(a[1..]) == multiset(b[..k] + b[k + 1..])
  {
    k := SameMember(a, b, a[0]);
    WithoutFirst(a);
    WithoutOne(b, k);
  }

  lemma {:induction false} SameMember<T>(a: seq<T>, b: seq<T>, x: T) returns (k: nat)
    requires multiset(a) == multiset(b) && x in a
    ensures k < |b| && b[k] == x
  {
    assert x in multiset(a);
    k :| k < |b| && b[k] == x;
  }

  lemma {:induction false} WithoutFirst<T>(s: seq<T>)
    requires s != []
    ensures multiset(s[1..]) == multiset(s) - multiset{s[0]}
  {
    assert s == [s[0]] + s[1..];
  }

  lemma {:induction false} WithoutOne<T>(s: seq<T>, k: nat)
    requires k < |s|
    ensures multiset(s[..k] + s[k + 1..]) == multiset(s) - multiset{s[k]}
  {
    assert s == (s[..k] + [s[k]]) + s[k + 1..];
  }

  lemma {:induction false} PermutedChunks(a: seq<seq<Byte>>, b: seq<seq<Byte>>, ind: nat)
    requires Full(a) && Full(b) && multiset(a) == multiset(b) && ind < BITS
    ensures Column(Flatten(a), ind) == Column(Flatten(b), ind)
    decreases |a|
  {
    hide Column, Flatten;
    if a != [] {
      var k := RemoveSame(a, b);
      MoveToFront(a, 0, ind);
      MoveToFront(b, k, ind);
      assert a[..0] + a[1..] == a[1..];
      PermutedChunks(a[1..], b[..k] + b[k + 1..], ind);
    } else {
      assert |multiset(b)| == 0;
      assert b == [];
    }
  }

  // ----- The string version

  /** `etag_generate_str` walks over `left` bytes in chunks but always hashes the beginning of its input. */
  function StringBit(text: seq<Byte>, left: nat, ind: nat): bool
    requires left <= |text|
  {
    if left == 0 then false
    else if left <= CHUNK then ChunkBit(text[..left], ind)
    else ChunkBit(text[..CHUNK], ind) != StringBit(text, left - CHUNK, ind)
  }

  method HashString(text: seq<Byte>, hash: array<bool>)
    requires hash.Length == BITS && forall ind :: 0 <= ind < BITS ==> !hash[ind]
    modifies hash
    ensures forall ind :: 0 <= ind < BITS ==> hash[ind] == StringBit(text, |text|, ind)
  {
    hide ChunkBit;
    var size, i := |text|, 0;
    while i < size
      invariant 0 <= i
      invariant forall ind :: 0 <= ind < BITS ==>
                  (hash[ind] != StringBit(text, if i < size then size - i else 0, ind)) == StringBit(text, size, ind)
    {
      AddHash(hash, text[..if CHUNK < size - i then CHUNK else size - i]);
      i := i + CHUNK;
    }
  }

  /** How many positions below `left` are `c` modulo 20. */
  function Visits(left: nat, c: nat): nat { if left <= c then 0 else (left - c + 19) / 20 }

  /** So hash bit `8 * c + j` of a text is bit `j` of its byte `c`, if the length visits position `c` modulo
      20 an odd number of times: the bytes after the first twenty never matter, the length does. */
  lemma {:induction false} StringBitIs(text: seq<Byte>, left: nat, c: nat, j: nat)
    requires left <= |text| && c < 20 && j < 8
    ensures StringBit(text, left, 8 * c + j) <==> c < left && Bit(text[c], j) && Visits(left, c) % 2 == 1
    decreases left
  {
    hide Bit;
    if left > CHUNK {
      StringBitIs(text, left - CHUNK, c, j);
      assert Visits(left, c) == Visits(left - 20, c) + 1;
    }
  }

  lemma {:induction false} ShortAgrees(text: seq<Byte>, ind: nat)
    requires |text| <= CHUNK && ind < BITS
    ensures StringBit(text, |text|, ind) == Column(text, ind)
  {
    hide ChunkBit, Column;
    ColumnOfChunk(text, ind);
    assert text[..|text|] == text;
    if text == [] { NoChunk(ind); }
  }

  /** A bit that is clear in every byte is clear in the hash, and in the hash of the string version if it
      is clear in the first chunk. */
  lemma {:induction false} ClearColumn(text: seq<Byte>, ind: nat)
    requires forall p :: 0 <= p < |text| ==> !Bit(text[p], ind % 8)
    ensures !Column(text, ind)
  {
    hide Bit;
    if text != [] { ClearColumn(text[..|text| - 1], ind); }
  }

  lemma {:induction false} ClearString(text: seq<Byte>, left: nat, ind: nat)
    requires left <= |text| && forall p :: 0 <= p < |text| && p < CHUNK ==> !Bit(text[p], ind % 8)
    ensures !StringBit(text, left, ind)
    decreases left
  {
    hide Bit;
    if left > CHUNK { ClearString(text, left - CHUNK, ind); }
  }

  /** A text without NUL, longer than a chunk, whose first hash bit the two versions disagree on: all bytes
      2, but 3 at the beginning of the second chunk. */
  lemma {:induction false} LongDisagrees(size: nat) returns (text: seq<Byte>)
    requires size > CHUNK
    ensures |text| == size && 0 !in text && Column(text, 0) != StringBit(text, size, 0)
  {
    var twos := seq(size, _ => 2 as Byte);
    text := twos[CHUNK := 2 ^ Mask(0)];
    TwoAndThree();
    forall p | 0 <= p < |text|
      ensures text[p] != 0
    {
    }
    ClearColumn(twos, 0);
    FlipOne(twos, CHUNK, 0, 0);
    ClearString(text, size, 0);
  }

  lemma TwoAndThree()
    ensures !Bit(2, 0) && 2 ^ Mask(0) != 0
  {
  }
}
