/** `Palette<Block>`: `len` small codes packed `index_bits` at a time into 64-bit words,
    each code an index into the append-only `lookup` vector of distinct blocks. Writing a
    block that is not yet in `lookup` appends it; when the codes no longer fit their
    width, the width doubles and every stored code is re-encoded into a fresh word vector.

    The palette is specialised to `Block`, its only instantiation: `Ord` and `==` on
    lookup entries are those of `Blocks` (by id). */
module Collections {
  import opened Common
  import opened Arith
  import opened Words
  import opened Blocks

  /** `usize::MAX.count_ones()`: the bits of one word. */
  const MAX_INDEX_BITS: nat := WORD_BITS

  /** The code widths the palette ever uses: it starts at one bit and only doubles. */
  predicate ValidWidth(b: nat)
  {
    b == 1 || b == 2 || b == 4 || b == 8 || b == 16 || b == 32 || b == 64
  }

  /** `compute_slices`: the number of words needed for `arrayLen` codes of `indexBits` bits,
      rounded up. */
  function ComputeSlices(indexBits: nat, arrayLen: nat): (r: nat)
    ensures r * MAX_INDEX_BITS >= indexBits * arrayLen
    ensures r * MAX_INDEX_BITS < indexBits * arrayLen + MAX_INDEX_BITS
  {
    ((indexBits * arrayLen) + (MAX_INDEX_BITS - 1)) / MAX_INDEX_BITS
  }

  /** `compute_mask`: sets bits 0 .. indexBits - 1 one at a time, giving 2^indexBits - 1. */
  method ComputeMask(indexBits: nat) returns (r: Word)
    requires indexBits <= MAX_INDEX_BITS
    ensures r == LowBits(indexBits)
    ensures ToNat(r) == Pow2(indexBits) - 1
  {
    r := ZERO;
    assert r == LowBits(0);
    var bit := 0;
    while bit < indexBits
      invariant bit <= indexBits
      invariant r == LowBits(bit)
    {
      OrShlOne(bit);
      r := Or(r, Shl(FromNat(1), bit));
      bit := bit + 1;
    }
    LowBitsValue(indexBits);
  }

  // ---------------------------------------------------------------------------
  // Where a code lives

  /** Code `index` lives in word `index * b / 64` at bit offset
      `(index - word * ips) * b`; for the widths in use these are `index / ips` and
      `(index % ips) * b`, the field fits inside its word, and a vector of
      `compute_slices(b, len)` words holds every index below `len` when `len` is a
      multiple of 64. */
  lemma Geometry(index: nat, b: nat, len: nat)
    requires ValidWidth(b) && len % 64 == 0 && index < len
    ensures (MAX_INDEX_BITS / b) * b == MAX_INDEX_BITS
    ensures index * b / MAX_INDEX_BITS == index / (MAX_INDEX_BITS / b)
    ensures index - (index * b / MAX_INDEX_BITS) * (MAX_INDEX_BITS / b) == index % (MAX_INDEX_BITS / b)
    ensures (index % (MAX_INDEX_BITS / b)) * b + b <= MAX_INDEX_BITS
    ensures index * b / MAX_INDEX_BITS < ComputeSlices(b, len)
  {
    WidthFacts(b);
    WordOf(index, b);
    SliceOf(index, b, len);
  }

  /** The word and field arithmetic of `Geometry`. */
  lemma WordOf(index: nat, b: nat)
    requires 0 < b && 0 < MAX_INDEX_BITS / b && (MAX_INDEX_BITS / b) * b == MAX_INDEX_BITS
    ensures index * b / MAX_INDEX_BITS == index / (MAX_INDEX_BITS / b)
    ensures index - (index * b / MAX_INDEX_BITS) * (MAX_INDEX_BITS / b) == index % (MAX_INDEX_BITS / b)
    ensures (index % (MAX_INDEX_BITS / b)) * b + b <= MAX_INDEX_BITS
  {
    var ips := MAX_INDEX_BITS / b;
    DivMod(index, ips);
    var q, r := index / ips, index % ips;
    MulLe(r + 1, ips, b);
    MulSucc(r, b);
    SplitProduct(q, ips, r, b);
    DivModUnique(index * b, MAX_INDEX_BITS, q, r * b);
  }

  /** The word of every index below `len` is inside the vector `compute_slices` sizes. */
  lemma SliceOf(index: nat, b: nat, len: nat)
    requires 0 < b && index < len
    ensures index * b / MAX_INDEX_BITS < ComputeSlices(b, len)
  {
    DivMod(index * b, MAX_INDEX_BITS);
    MulLe(index + 1, len, b);
    MulSucc(index, b);
    var slices := ComputeSlices(b, len);
    assert index * b < b * len <= slices * MAX_INDEX_BITS;
  }

  /** A width divides the word: `64 / b` codes of b bits fill it exactly. */
  lemma WidthFacts(b: nat)
    requires ValidWidth(b)
    ensures 0 < b <= MAX_INDEX_BITS && 0 < MAX_INDEX_BITS / b && (MAX_INDEX_BITS / b) * b == MAX_INDEX_BITS
  {
  }

  /** The words `compute_slices` allots hold a slot for every one of the `len` codes. */
  lemma LenFits(len: nat, b: nat)
    requires ValidWidth(b)
    ensures len <= ComputeSlices(b, len) * (MAX_INDEX_BITS / b)
  {
    var r := ComputeSlices(b, len);
    if b == 1 {
    } else if b == 2 {
    } else if b == 4 {
    } else if b == 8 {
    } else if b == 16 {
    } else if b == 32 {
    } else {
    }
  }

  lemma SplitProduct(q: nat, n: nat, r: nat, b: nat)
    ensures (q * n + r) * b == q * (n * b) + r * b
  {
  }

  /** Two different indexes in the same word occupy disjoint fields. */
  lemma SameWordDisjoint(i: nat, j: nat, b: nat, ips: nat)
    requires 0 < b && 0 < ips
    ensures i != j && i / ips == j / ips ==>
      (i % ips) * b + b <= (j % ips) * b || (j % ips) * b + b <= (i % ips) * b
  {
    if i != j && i / ips == j / ips {
      DivMod(i, ips);
      DivMod(j, ips);
      if i % ips < j % ips {
        MulLe(i % ips + 1, j % ips, b);
      } else {
        MulLe(j % ips + 1, i % ips, b);
      }
    }
  }

  /** Slot k of word t of a re-encoded vector is code `t * ips + k`, which is below `len`. */
  lemma ReencodeBounds(t: nat, k: nat, b: nat, len: nat)
    requires ValidWidth(b) && len % 64 == 0
    requires t < ComputeSlices(b, len) && k < MAX_INDEX_BITS / b
    ensures t * (MAX_INDEX_BITS / b) + k < len
    ensures k * b + b <= MAX_INDEX_BITS
  {
    var ips := MAX_INDEX_BITS / b;
    WidthFacts(b);
    DivMod(len, 64);
    var m := len / 64;
    var bm := b * m;
    Assoc(b, m, 64);
    assert b * len == bm * 64;
    assert t + 1 <= bm;
    MulLe(t + 1, bm, ips);
    Comm(b, m);
    Assoc(m, b, ips);
    Comm(b, ips);
    assert bm * ips == len;
    MulSucc(t, ips);
    MulLe(k + 1, ips, b);
    MulSucc(k, b);
  }

  lemma Assoc(x: nat, y: nat, z: nat)
    ensures (x * y) * z == x * (y * z)
  {
  }

  lemma Comm(x: nat, y: nat)
    ensures x * y == y * x
  {
  }

  lemma MulLe(x: nat, y: nat, c: nat)
    requires x <= y
    ensures x * c <= y * c
  {
  }

  lemma MulSucc(x: nat, c: nat)
    ensures (x + 1) * c == x * c + c
  {
  }

  lemma DivMod(j: nat, n: nat)
    requires n > 0
    ensures j == (j / n) * n + j % n && 0 <= j % n < n && 0 <= j / n
  {
  }

  /** An index below t runs of n lies in one of the first t runs. */
  lemma DivBelow(j: nat, n: nat, t: nat)
    requires n > 0
    ensures j < t * n <==> j / n < t
  {
    var q := j / n;
    DivMod(j, n);
    if q < t {
      MulLe(q + 1, t, n);
      MulSucc(q, n);
    } else {
      MulLe(t, q, n);
    }
  }

  /** The first `upto` codes sit, at width b, in field `j % n` of word `j / n`. */
  ghost predicate EncodedPrefix(palette: seq<Word>, b: nat, n: nat, upto: nat, codes: seq<nat>)
  {
    forall j :: 0 <= j < upto && j < |codes| ==> EncodedAt(palette, b, n, codes, j)
  }

  /** Code j sits, at width b, in field `j % n` of word `j / n`. */
  ghost predicate EncodedAt(palette: seq<Word>, b: nat, n: nat, codes: seq<nat>, j: nat)
  {
    n > 0 && j < |codes| && j / n < |palette| && Field(palette[j / n], b, j % n) == codes[j]
  }

  /** Storing the word that holds codes `s n .. s n + n - 1` as word s extends the
      encoded prefix by one word. */
  lemma EncodedExtend(prev: seq<Word>, w: Word, s: nat, first: nat, b: nat, n: nat, codes: seq<nat>)
    requires n > 0 && s < |prev| && first == s * n && EncodedPrefix(prev, b, n, first, codes)
    requires forall k :: 0 <= k < n && first + k < |codes| ==> Field(w, b, k) == codes[first + k]
    ensures EncodedPrefix(prev[s := w], b, n, first + n, codes)
  {
    var next := prev[s := w];
    forall j | 0 <= j < first + n && j < |codes|
      ensures EncodedAt(next, b, n, codes, j)
    {
      EncodedOne(prev, w, s, first, b, n, codes, j);
    }
  }

  /** `EncodedExtend` at one index j. */
  lemma EncodedOne(prev: seq<Word>, w: Word, s: nat, first: nat, b: nat, n: nat, codes: seq<nat>, j: nat)
    requires n > 0 && s < |prev| && first == s * n && EncodedPrefix(prev, b, n, first, codes)
    requires forall k :: 0 <= k < n && first + k < |codes| ==> Field(w, b, k) == codes[first + k]
    requires j < first + n && j < |codes|
    ensures EncodedAt(prev[s := w], b, n, codes, j)
  {
    DivMod(j, n);
    var q, r := j / n, j % n;
    if j < first {
      DivBelow(j, n, s);
      assert prev[s := w][q] == prev[q];
      assert EncodedAt(prev, b, n, codes, j);
    } else {
      var k := j - first;
      DivModUnique(j, n, s, k);
      assert prev[s := w][q] == w;
      assert Field(w, b, k) == codes[first + k];
    }
  }

  /** Doubling a width below 64 gives a width. */
  lemma WidthDoubles(b: nat)
    requires ValidWidth(b) && b < MAX_INDEX_BITS
    ensures ValidWidth(2 * b)
  {
  }

  /** One step of the re-encoding: OR-ing code `c` in at offset `off` of a word with
      nothing set from `off` upwards puts `c` in that slot, keeps every slot below it,
      and leaves nothing set above it. A 0 code is skipped, with the same effect. */
  lemma EncodeStep(before: Word, b: nat, off: nat, c: nat)
    requires 0 < b && off + b <= WORD_BITS && c < Pow2(b)
    requires forall i :: off <= i < WORD_BITS ==> !before[i]
    ensures var after := if c > 0 then Or(before, Shl(FromNat(c), off)) else before;
      && Slot(after, LowBits(b), off) == c
      && (forall i :: off + b <= i < WORD_BITS ==> !after[i])
      && (forall off2: nat :: off2 + b <= off ==> Slot(after, LowBits(b), off2) == Slot(before, LowBits(b), off2))
  {
    OrShlZero(before, off);
    SlotOrAt(before, b, off, c);
    forall off2: nat | off2 + b <= off
      ensures Slot(Or(before, Shl(FromNat(c), off)), LowBits(b), off2) == Slot(before, LowBits(b), off2)
    {
      SlotOrBelow(before, b, off, off2, c);
    }
  }

  /** Nothing is set in `w` from bit `off` upwards. */
  ghost predicate ClearFrom(w: Word, off: nat)
  {
    forall i :: off <= i < WORD_BITS ==> !w[i]
  }

  /** Fields 0 .. j - 1 of `w` at width b hold `codes[first ..]`. */
  ghost predicate SliceHolds(w: Word, b: nat, j: nat, codes: seq<nat>, first: nat)
  {
    forall k :: 0 <= k < j ==> first + k < |codes| && Field(w, b, k) == codes[first + k]
  }

  /** One iteration of the re-encoding's inner loop keeps both loop invariants. */
  lemma EncodeIter(before: Word, b: nat, j: nat, off: nat, c: nat, codes: seq<nat>, first: nat)
    requires 0 < b && off == j * b && off + b <= WORD_BITS && c < Pow2(b)
    requires ClearFrom(before, off) && SliceHolds(before, b, j, codes, first)
    requires first + j < |codes| && codes[first + j] == c
    ensures var after := if c > 0 then Or(before, Shl(FromNat(c), off)) else before;
      ClearFrom(after, off + b) && SliceHolds(after, b, j + 1, codes, first)
  {
    var after := if c > 0 then Or(before, Shl(FromNat(c), off)) else before;
    EncodeStep(before, b, off, c);
    LowerFieldsKept(before, after, b, j);
    assert Field(after, b, j) == c;
  }

  /** Slots that a step of the re-encoding leaves alone, read back as fields. */
  lemma LowerFieldsKept(before: Word, after: Word, b: nat, j: nat)
    requires 0 < b && j * b < WORD_BITS
    requires forall off2: nat :: off2 + b <= j * b ==> Slot(after, LowBits(b), off2) == Slot(before, LowBits(b), off2)
    ensures forall k :: 0 <= k < j ==> Field(after, b, k) == Field(before, b, k)
  {
    forall k | 0 <= k < j
      ensures Field(after, b, k) == Field(before, b, k)
    {
      MulLe(k + 1, j, b);
      assert Slot(after, LowBits(b), k * b) == Slot(before, LowBits(b), k * b);
    }
  }

  /** Slot k of width b in a word (0 for a slot that starts past the word). */
  function Field(w: Word, b: nat, k: nat): nat
  {
    if k * b < WORD_BITS then Slot(w, LowBits(b), k * b) else 0
  }

  /** The layout fields agree with the code width. */
  ghost predicate Layout(bits: nat, mask: Word, ips: nat)
  {
    ValidWidth(bits) && mask == LowBits(bits) && ips == MAX_INDEX_BITS / bits
  }

  /** The word vector has exactly the words `len` codes of the current width need. */
  ghost predicate Packed(data: seq<Word>, bits: nat, mask: Word, ips: nat, len: nat)
  {
    Layout(bits, mask, ips) && len % 64 == 0 && |data| == ComputeSlices(bits, len)
  }

  /** `get_lookup_index` over explicit fields: the b-bit field holding code `index`. */
  function LookupIndexIn(data: seq<Word>, bits: nat, mask: Word, ips: nat, len: nat, index: nat): nat
    requires Packed(data, bits, mask, ips, len) && index < len
  {
    Geometry(index, bits, len);
    var paletteIndex := (index * bits) / MAX_INDEX_BITS;
    var sliceOffset := (index - (paletteIndex * ips)) * bits;
    Slot(data[paletteIndex], mask, sliceOffset)
  }

  /** The code of `index` is slot `index % ips` of word `index / ips`. */
  lemma CodeIsField(data: seq<Word>, bits: nat, mask: Word, ips: nat, len: nat, index: nat)
    requires Packed(data, bits, mask, ips, len) && index < len
    ensures 0 < bits && 0 < ips && index / ips < |data| && (index % ips) * bits + bits <= MAX_INDEX_BITS
    ensures LookupIndexIn(data, bits, mask, ips, len, index) == Field(data[index / ips], bits, index % ips)
  {
    Geometry(index, bits, len);
  }

  /** Every code fits the width: it is below 2^bits. */
  lemma CodeFits(data: seq<Word>, bits: nat, mask: Word, ips: nat, len: nat, index: nat)
    requires Packed(data, bits, mask, ips, len) && index < len
    ensures LookupIndexIn(data, bits, mask, ips, len, index) < Pow2(bits)
  {
    CodeIsField(data, bits, mask, ips, len, index);
    var k := index % ips;
    assert k * bits < WORD_BITS;
    SlotBound(data[index / ips], bits, k * bits);
  }

  /** Rewriting the field at `off` sets it to `c` and leaves every field disjoint from it. */
  lemma PutSlot(w: Word, bits: nat, off: nat, off2: nat, c: nat)
    requires 0 < bits && off + bits <= WORD_BITS && off2 + bits <= WORD_BITS && c < Pow2(bits)
    requires off == off2 || off + bits <= off2 || off2 + bits <= off
    ensures Slot(Put(w, LowBits(bits), off, c), LowBits(bits), off2) == if off2 == off then c else Slot(w, LowBits(bits), off2)
  {
    if off2 == off {
      SlotPut(w, bits, off, c);
    } else {
      SlotPutOther(w, bits, off, off2, c);
    }
  }

  /** The word `set_value` rewrites holds the field of `index`. */
  lemma PutPosition(data: seq<Word>, bits: nat, mask: Word, ips: nat, len: nat, index: nat)
    requires Packed(data, bits, mask, ips, len) && index < len
    ensures index / ips < |data| && (index % ips) * bits + bits <= WORD_BITS
    ensures index * bits / MAX_INDEX_BITS == index / ips
    ensures index - (index * bits / MAX_INDEX_BITS) * ips == index % ips
  {
    Geometry(index, bits, len);
  }

  /** Replacing word `index / ips` by a word `w` that holds `c` in the field of `index`
      and agrees with the old word on every field disjoint from it sets the code of
      `index` to `c` and leaves every other code. */
  lemma SetValueAt(data: seq<Word>, d: seq<Word>, w: Word, bits: nat, mask: Word, ips: nat, len: nat,
                   index: nat, p: nat, off: nat, c: nat, j: nat)
    requires Packed(data, bits, mask, ips, len) && index < len && j < len
    requires p == index / ips && off == (index % ips) * bits
    requires p < |data| && off + bits <= WORD_BITS && d == data[p := w]
    requires Slot(w, mask, off) == c
    requires forall off2: nat ::
      (off2 + bits <= WORD_BITS && (off + bits <= off2 || off2 + bits <= off)) ==>
      Slot(w, mask, off2) == Slot(data[p], mask, off2)
    requires Packed(d, bits, mask, ips, len)
    ensures LookupIndexIn(d, bits, mask, ips, len, j) == if j == index then c else LookupIndexIn(data, bits, mask, ips, len, j)
  {
    CodeIsField(data, bits, mask, ips, len, j);
    CodeIsField(d, bits, mask, ips, len, j);
    SameWordDisjoint(index, j, bits, ips);
    DivMod(j, ips);
    var q, k := j / ips, j % ips;
    MulLe(0, k, bits);
    var offJ := k * bits;
    if p == q && off != offJ {
      assert Slot(w, mask, offJ) == Slot(data[p], mask, offJ);
    }
    SetValueWord(data, d, w, mask, bits, p, q, off, offJ, c);
    assert Field(d[q], bits, j % ips) == Slot(d[q], mask, offJ);
    assert Field(data[q], bits, j % ips) == Slot(data[q], mask, offJ);
  }

  /** The word-level step of `SetValueAt`, over plain word positions and offsets. */
  lemma SetValueWord(data: seq<Word>, d: seq<Word>, w: Word, mask: Word, bits: nat, p: nat, q: nat, offI: nat, offJ: nat, c: nat)
    requires p < |data| && q < |data| && d == data[p := w]
    requires 0 < bits && offI + bits <= WORD_BITS && offJ + bits <= WORD_BITS
    requires Slot(w, mask, offI) == c
    requires p == q && offI != offJ ==> Slot(w, mask, offJ) == Slot(data[p], mask, offJ)
    ensures Slot(d[q], mask, offJ) == if p == q && offI == offJ then c else Slot(data[q], mask, offJ)
  {
  }

  /** `[T]::binary_search` as implemented by the Rust standard library (1.52): the
      outcome is `Ok(i)` for a probed entry equal to the target, else `Err(i)` with `i`
      where the search ended. */
  datatype Search = Ok(index: nat) | Err(index: nat)

  function BinarySearch(s: seq<Block>, v: Block): (r: Search)
    ensures r.Ok? ==> r.index < |s| && Eq(s[r.index], v)
    ensures r.Err? ==> r.index <= |s|
  {
    SearchFrom(s, v, 0, |s|)
  }

  /** One round of the search loop on the window [left, right). */
  function SearchFrom(s: seq<Block>, v: Block, left: nat, right: nat): (r: Search)
    requires left <= right <= |s|
    ensures r.Ok? ==> left <= r.index < right && Eq(s[r.index], v)
    ensures r.Err? ==> left <= r.index <= right
    decreases right - left
  {
    if left < right then
      var size := right - left;
      var mid := left + size / 2;
      match Cmp(s[mid], v)
      case Less => SearchFrom(s, v, mid + 1, right)
      case Greater => SearchFrom(s, v, left, mid)
      case Equal => Ok(mid)
    else
      Err(left)
  }

  /** Entries in strictly increasing id order. */
  ghost predicate Sorted(s: seq<Block>)
  {
    forall i, j :: 0 <= i < j < |s| ==> s[i].id < s[j].id
  }

  /** `lookup.contains(&value)`: some entry equals `value` (by id). */
  predicate Contains(s: seq<Block>, v: Block)
  {
    exists k :: 0 <= k < |s| && Eq(s[k], v)
  }

  /** On a sorted lookup the search is exact: `Err(i)` exactly when no entry equals the
      target, and then `i` is where it would be inserted to keep the order. */
  lemma BinarySearchSorted(s: seq<Block>, v: Block)
    requires Sorted(s)
    ensures BinarySearch(s, v).Err? <==> !Contains(s, v)
    ensures BinarySearch(s, v).Err? ==>
      (forall k :: 0 <= k < BinarySearch(s, v).index ==> s[k].id < v.id) &&
      (forall k :: BinarySearch(s, v).index <= k < |s| ==> s[k].id > v.id)
  {
    SearchFromSorted(s, v, 0, |s|);
  }

  lemma {:induction false} SearchFromSorted(s: seq<Block>, v: Block, left: nat, right: nat)
    requires left <= right <= |s| && Sorted(s)
    requires forall k :: 0 <= k < left ==> s[k].id < v.id
    requires forall k :: right <= k < |s| ==> s[k].id > v.id
    ensures SearchFrom(s, v, left, right).Err? ==>
      (forall k :: 0 <= k < SearchFrom(s, v, left, right).index ==> s[k].id < v.id) &&
      (forall k :: SearchFrom(s, v, left, right).index <= k < |s| ==> s[k].id > v.id)
    decreases right - left
  {
    if left < right {
      var mid := left + (right - left) / 2;
      if s[mid].id < v.id {
        SearchFromSorted(s, v, mid + 1, right);
      } else if s[mid].id > v.id {
        SearchFromSorted(s, v, left, mid);
      }
    }
  }

  /** On a lookup that is not sorted the search can miss an entry that is present: with
      `[AIR, id 2, id 1]` it probes id 2, then AIR, and reports `Err(1)` for id 1. */
  lemma BinarySearchMissesOnUnsorted()
    ensures BinarySearch([AIR], New(2, 0, 0)) == Err(1)
    ensures BinarySearch([AIR, New(2, 0, 0)], New(1, 0, 0)) == Err(1)
    ensures BinarySearch([AIR, New(2, 0, 0), New(1, 0, 0)], New(1, 0, 0)) == Err(1)
    ensures !Contains([AIR], New(2, 0, 0)) && !Contains([AIR, New(2, 0, 0)], New(1, 0, 0))
    ensures Contains([AIR, New(2, 0, 0), New(1, 0, 0)], New(1, 0, 0))
  {
    var s := [AIR, New(2, 0, 0), New(1, 0, 0)];
    assert SearchFrom(s, New(1, 0, 0), 0, 1) == Err(1);
    assert SearchFrom(s, New(1, 0, 0), 0, 3) == Err(1);
    assert Eq(s[2], New(1, 0, 0));
  }

  class Palette {
    var lookup: seq<Block>
    var indexBits: nat
    var indexMask: Word
    var indexesPerSlice: nat
    var data: seq<Word>
    var len: nat

    /** The word vector is laid out for the current width. */
    ghost predicate Shaped()
      reads this`data, this`indexBits, this`indexMask, this`indexesPerSlice, this`len
    {
      Packed(data, indexBits, indexMask, indexesPerSlice, len)
    }

    /** Every stored code resolves to a lookup entry, and every lookup position is a code
        that fits the current width (`lookup.len() <= index_mask`). */
    ghost predicate Valid()
      reads this
    {
      && Shaped()
      && |lookup| < Pow2(indexBits)
      && (forall i :: 0 <= i < len ==> GetLookupIndex(i) < |lookup|)
    }

    /** A palette of `len` cells all holding `default`: one lookup entry, one-bit codes,
        all words zero. (The constructor is not part of the modelled source file; this is
        the state the mesher's callers rely on.) */
    constructor (len: nat, default: Block)
      requires len % 64 == 0
      ensures Valid() && this.len == len && lookup == [default] && indexBits == 1
      ensures forall i :: 0 <= i < len ==> Get(i) == default
    {
      lookup := [default];
      indexBits := 1;
      indexMask := LowBits(1);
      indexesPerSlice := MAX_INDEX_BITS;
      data := seq(ComputeSlices(1, len), _ => ZERO);
      this.len := len;
      new;
      forall i | 0 <= i < len
        ensures GetLookupIndex(i) == 0
      {
        CodeIsField(data, indexBits, indexMask, indexesPerSlice, len, i);
        SlotZero(LowBits(1), i % indexesPerSlice);
      }
    }

    /** `get_lookup_index`: the code of `index`, which always fits the code width (its
        place in the words is `CodeIsField`). */
    function GetLookupIndex(index: nat): (c: nat)
      reads this`data, this`indexBits, this`indexMask, this`indexesPerSlice, this`len
      requires Shaped() && index < len
      ensures c < Pow2(indexBits)
    {
      CodeFits(data, indexBits, indexMask, indexesPerSlice, len, index);
      LookupIndexIn(data, indexBits, indexMask, indexesPerSlice, len, index)
    }

    /** Every code, in index order. */
    ghost function Codes(): (r: seq<nat>)
      reads this`data, this`indexBits, this`indexMask, this`indexesPerSlice, this`len
      requires Shaped()
      ensures |r| == len && forall j :: 0 <= j < len ==> r[j] == GetLookupIndex(j)
    {
      var d, b, m, n, l := data, indexBits, indexMask, indexesPerSlice, len;
      seq(len, j requires 0 <= j < l && Packed(d, b, m, n, l) => LookupIndexIn(d, b, m, n, l, j))
    }

    /** `len`: the number of cells, every one of which has a slot in the word vector. */
    function Len(): (n: nat)
      reads this
      ensures Shaped() ==> n % 64 == 0 && n <= |data| * indexesPerSlice
    {
      SlotsCoverLen();
      len
    }

    lemma SlotsCoverLen()
      ensures Shaped() ==> len % 64 == 0 && len <= |data| * indexesPerSlice
    {
      if Shaped() {
        LenFits(len, indexBits);
      }
    }

    lemma CodeOfFirst()
      ensures Valid() && len > 0 ==> GetLookupIndex(0) < |lookup|
    {
    }

    /** `lookup_len`, used by the mesher's empty-chunk test: the table fits the code
        width, and a palette with cells has at least one entry. */
    function LookupLen(): (n: nat)
      reads this
      ensures Valid() ==> n < Pow2(indexBits) && (len > 0 ==> 1 <= n)
    {
      CodeOfFirst();
      |lookup|
    }

    /** `get_lookup_value`, used by the mesher's empty-chunk test: the value of every
        cell whose code is `i`. */
    function GetLookupValue(i: nat): (v: Block)
      reads this
      requires i < |lookup|
      ensures Valid() ==> forall j :: 0 <= j < len && GetLookupIndex(j) == i ==> Get(j) == v
    {
      lookup[i]
    }

    /** `get`: the lookup entry the code at `index` names, so always one of the palette's
        values. Indexes at or past `len` fall outside the word vector, where the source
        panics. */
    function Get(index: nat): (v: Block)
      reads this
      requires Valid() && index < len
      ensures v in lookup
    {
      lookup[GetLookupIndex(index)]
    }

    /** `set_value`: rewrites the field of `index` in its word and no other field. The
        source debug-asserts the read-back, which holds for codes that fit the width. */
    method SetValue(index: nat, lookupIndex: nat)
      requires Shaped() && index < len && lookupIndex < Pow2(indexBits)
      modifies this`data
      ensures Shaped()
      ensures Codes() == old(Codes())[index := lookupIndex]
    {
      PutPosition(data, indexBits, indexMask, indexesPerSlice, len, index);
      var paletteIndex := (index * indexBits) / MAX_INDEX_BITS;
      var sliceOffset := (index - (paletteIndex * indexesPerSlice)) * indexBits;
      ghost var oldData := data;
      var word := Put(data[paletteIndex], indexMask, sliceOffset, lookupIndex);
      PutSlot(oldData[paletteIndex], indexBits, sliceOffset, sliceOffset, lookupIndex);
      forall off2: nat | off2 + indexBits <= WORD_BITS && (sliceOffset + indexBits <= off2 || off2 + indexBits <= sliceOffset)
        ensures Slot(word, indexMask, off2) == Slot(oldData[paletteIndex], indexMask, off2)
      {
        PutSlot(oldData[paletteIndex], indexBits, sliceOffset, off2, lookupIndex);
      }
      data := data[paletteIndex := word];
      assert Shaped();
      ghost var oldCodes := old(Codes());
      forall j | 0 <= j < len
        ensures Codes()[j] == oldCodes[index := lookupIndex][j]
      {
        SetValueAt(oldData, data, word, indexBits, indexMask, indexesPerSlice, len, index, paletteIndex, sliceOffset, lookupIndex, j);
      }
    }

    /** `allocate_lookup_entry`: appends `entry` to `lookup` and returns its position.
        Panics when an equal entry is already present, and whenever the codes are
        already 64 bits wide. When the new position no longer fits `index_mask`, the
        width doubles and every code is re-encoded, keeping each index's code. */
    method AllocateLookupEntry(entry: Block) returns (r: Outcome<nat>)
      requires Valid()
      modifies this`lookup, this`indexBits, this`indexMask, this`indexesPerSlice, this`data
      ensures r.Done? <==> !Contains(old(lookup), entry) && old(indexBits) < MAX_INDEX_BITS
      ensures Contains(old(lookup), entry) ==> r == Panic("lookup entry already present")
      ensures !Contains(old(lookup), entry) && old(indexBits) == MAX_INDEX_BITS ==>
        r == Panic("palette cannot contain more than 64 entries")
      ensures r.Done? ==>
        && Valid()
        && r.value == old(|lookup|)
        && lookup == old(lookup) + [entry]
        && |lookup| <= ToNat(indexMask)
        && indexBits == (if old(|lookup|) + 1 > ToNat(old(indexMask)) then 2 * old(indexBits) else old(indexBits))
        && Codes() == old(Codes())
    {
      if Contains(lookup, entry) {
        return Panic("lookup entry already present");
      }
      var entryIndex := |lookup|;
      lookup := lookup + [entry];
      LowBitsValue(indexBits);

      if indexBits == MAX_INDEX_BITS {
        return Panic("palette cannot contain more than 64 entries");
      } else if |lookup| > ToNat(indexMask) {
        Grow();
        Pow2Monotone(old(indexBits) + 1, indexBits);
        LowBitsValue(indexBits);
      } else {
        forall j | 0 <= j < len
          ensures GetLookupIndex(j) == old(GetLookupIndex(j)) < |lookup|
        {
        }
      }
      r := Done(entryIndex);
    }

    /** The growth step of `allocate_lookup_entry`: doubles the code width, recomputes
        the mask and the codes per word, and re-encodes every code at the new width,
        so that every index keeps its code. */
    method Grow()
      requires Shaped() && indexBits < MAX_INDEX_BITS
      requires forall j :: 0 <= j < len ==> GetLookupIndex(j) < Pow2(indexBits)
      modifies this`indexBits, this`indexMask, this`indexesPerSlice, this`data
      ensures Shaped() && indexBits == 2 * old(indexBits) && indexMask == LowBits(indexBits)
      ensures forall j :: 0 <= j < len ==> GetLookupIndex(j) == old(GetLookupIndex(j))
    {
      var newIndexBits := indexBits * 2;
      WidthDoubles(indexBits);
      DivMod(MAX_INDEX_BITS, newIndexBits);
      var newIndexesPerSlice := MAX_INDEX_BITS / newIndexBits;
      var palette: seq<Word> := seq(ComputeSlices(newIndexBits, len), _ => ZERO);
      Pow2Monotone(indexBits, newIndexBits);
      forall j | 0 <= j < len
        ensures GetLookupIndex(j) < Pow2(newIndexBits)
      {
      }
      palette := Reencode(palette, newIndexBits, newIndexesPerSlice);
      ghost var oldData, oldBits, oldMask, oldIps := data, indexBits, indexMask, indexesPerSlice;
      indexBits := newIndexBits;
      indexMask := ComputeMask(newIndexBits);
      indexesPerSlice := newIndexesPerSlice;
      data := palette;
      assert Shaped();
      forall j | 0 <= j < len
        ensures GetLookupIndex(j) == LookupIndexIn(oldData, oldBits, oldMask, oldIps, len, j)
      {
      }
    }

    /** The re-encoding loop of `allocate_lookup_entry`: fills the zeroed vector
        `palette`, word by word, with every code at the doubled width `newBits`. A word
        whose codes are all 0 is left as it is. */
    method Reencode(palette0: seq<Word>, newBits: nat, newIps: nat) returns (palette: seq<Word>)
      requires Shaped() && ValidWidth(newBits) && newIps == MAX_INDEX_BITS / newBits
      requires |palette0| == ComputeSlices(newBits, len) && forall t :: 0 <= t < |palette0| ==> palette0[t] == ZERO
      requires forall j :: 0 <= j < len ==> GetLookupIndex(j) < Pow2(newBits)
      ensures Packed(palette, newBits, LowBits(newBits), newIps, len)
      ensures forall j :: 0 <= j < len ==> LookupIndexIn(palette, newBits, LowBits(newBits), newIps, len, j) == GetLookupIndex(j)
    {
      ghost var codes := Codes();
      palette := palette0;
      var index: nat := 0;
      var s := 0;
      WidthFacts(newBits);
      while s < |palette|
        invariant 0 <= s <= |palette| == |palette0|
        invariant index == s * newIps
        invariant forall t :: s <= t < |palette| ==> palette[t] == ZERO
        invariant EncodedPrefix(palette, newBits, newIps, index, codes)
      {
        ReencodeBounds(s, newIps - 1, newBits, len);
        assert index + newIps <= len;
        var newSlice := EncodeSlice(index, newBits, newIps);
        forall k | 0 <= k < newIps && index + k < |codes|
          ensures Field(newSlice, newBits, k) == codes[index + k]
        {
        }
        ghost var prev := palette;
        if ToNat(newSlice) > 0 {
          palette := palette[s := newSlice];
        } else {
          ZeroWord(newSlice);
          assert palette == prev[s := newSlice];
        }
        EncodedExtend(prev, newSlice, s, index, newBits, newIps, codes);
        MulSucc(s, newIps);
        index := index + newIps;
        s := s + 1;
      }
      assert Packed(palette, newBits, LowBits(newBits), newIps, len);
      forall j | 0 <= j < len
        ensures LookupIndexIn(palette, newBits, LowBits(newBits), newIps, len, j) == GetLookupIndex(j)
      {
        CodeIsField(palette, newBits, LowBits(newBits), newIps, len, j);
        DivBelow(j, newIps, s);
        DivMod(j, newIps);
        assert j < index;
        assert EncodedAt(palette, newBits, newIps, codes, j);
      }
    }

    /** The inner loop of the re-encoding: one word holding codes `first ..
        first + newIps - 1` at width `newBits`, each OR-ed into its slot unless it is 0. */
    method EncodeSlice(first: nat, newBits: nat, newIps: nat) returns (newSlice: Word)
      requires Shaped() && 0 < newBits && newIps * newBits == WORD_BITS
      requires first + newIps <= len
      requires forall j :: 0 <= j < len ==> GetLookupIndex(j) < Pow2(newBits)
      ensures forall k :: 0 <= k < newIps ==> Field(newSlice, newBits, k) == GetLookupIndex(first + k)
    {
      ghost var codes := Codes();
      newSlice := ZERO;
      var index := first;
      var sliceIndex: nat := 0;
      while sliceIndex < newIps
        invariant sliceIndex <= newIps && index == first + sliceIndex
        invariant ClearFrom(newSlice, sliceIndex * newBits)
        invariant SliceHolds(newSlice, newBits, sliceIndex, codes, first)
      {
        MulLe(sliceIndex + 1, newIps, newBits);
        MulSucc(sliceIndex, newBits);
        MulLe(0, sliceIndex, newBits);
        var offset := sliceIndex * newBits;
        var lookupIndex := GetLookupIndex(index);
        ghost var before := newSlice;
        if lookupIndex > 0 {
          newSlice := Or(newSlice, Shl(FromNat(lookupIndex), offset));
        }
        EncodeIter(before, newBits, sliceIndex, offset, lookupIndex, codes, first);
        index := index + 1;
        sliceIndex := sliceIndex + 1;
      }
    }

    /** The search-or-allocate half of `set`: the position in `lookup` of an entry equal
        to `value`, found by `binary_search` or appended by `allocate_lookup_entry`. A
        failed search of a lookup that does contain the value (possible once `lookup` is
        out of id order) panics in the allocation. Every index keeps its code. */
    method FindOrAllocate(value: Block) returns (r: Outcome<nat>)
      requires Valid()
      modifies this`lookup, this`indexBits, this`indexMask, this`indexesPerSlice, this`data
      ensures r.Panic? <==>
        BinarySearch(old(lookup), value).Err? && (Contains(old(lookup), value) || old(indexBits) == MAX_INDEX_BITS)
      ensures r.Panic? && Contains(old(lookup), value) ==> r.message == "lookup entry already present"
      ensures r.Done? ==> Valid() && Codes() == old(Codes())
      ensures r.Done? ==> r.value < |lookup| && Eq(lookup[r.value], value)
      ensures r.Done? ==>
        lookup == (if BinarySearch(old(lookup), value).Ok? then old(lookup) else old(lookup) + [value])
      ensures r.Done? && BinarySearch(old(lookup), value).Err? ==> lookup[r.value] == value
      ensures r.Done? ==> indexBits == old(indexBits) || indexBits == 2 * old(indexBits)
    {
      match BinarySearch(lookup, value) {
        case Ok(i) =>
          r := Done(i);
        case Err(_) =>
          r := AllocateLookupEntry(value);
      }
    }

    /** `set`: stores at `index` the position of an entry equal to `value`. Afterwards
        `get(index)` is an entry equal to `value` (the value itself when it was appended)
        and every other index reads what it read before. */
    method Set(index: nat, value: Block) returns (r: Outcome<()>)
      requires Valid() && index < len
      modifies this`lookup, this`indexBits, this`indexMask, this`indexesPerSlice, this`data
      ensures r.Panic? <==>
        BinarySearch(old(lookup), value).Err? && (Contains(old(lookup), value) || old(indexBits) == MAX_INDEX_BITS)
      ensures r.Panic? && Contains(old(lookup), value) ==> r.message == "lookup entry already present"
      ensures r.Done? ==> Valid() && Eq(Get(index), value)
      ensures r.Done? ==> forall j :: 0 <= j < len && j != index ==> Get(j) == old(Get(j))
      ensures r.Done? ==>
        lookup == (if BinarySearch(old(lookup), value).Ok? then old(lookup) else old(lookup) + [value])
      ensures r.Done? && BinarySearch(old(lookup), value).Err? ==> Get(index) == value
      ensures r.Done? ==> indexBits == old(indexBits) || indexBits == 2 * old(indexBits)
    {
      ghost var codes0, lookup0 := Codes(), lookup;
      var found := FindOrAllocate(value);
      if found.Panic? {
        return Panic(found.message);
      }
      ghost var lookup1 := lookup;
      SetValue(index, found.value);
      assert Valid();
      forall j | 0 <= j < len && j != index
        ensures Get(j) == lookup0[codes0[j]]
      {
        assert GetLookupIndex(j) == codes0[j] < |lookup0|;
      }
      r := Done(());
    }

    /** `copy_to_slice` (not part of the modelled source file): decodes every cell into
        `out`, so that `out[i] == get(i)`. */
    method CopyToSlice(out: array<Block>)
      requires Valid() && out.Length == len
      modifies out
      ensures forall i :: 0 <= i < len ==> out[i] == Get(i)
    {
      var i := 0;
      while i < len
        invariant 0 <= i <= len
        invariant forall k :: 0 <= k < i ==> out[k] == Get(k)
      {
        out[i] := Get(i);
        i := i + 1;
      }
    }
  }

  /** Writing id 2 and then id 1 into a fresh AIR palette leaves `lookup` out of id
      order, and writing id 1 a second time then panics instead of reusing its entry. */
  method OutOfOrderSetPanics() returns (r: Outcome<()>)
    ensures r == Panic("lookup entry already present")
  {
    BinarySearchMissesOnUnsorted();
    var p := new Palette(64, AIR);
    var first := p.Set(0, New(2, 0, 0));
    assert first.Done? && p.lookup == [AIR, New(2, 0, 0)] && p.indexBits <= 2;
    var second := p.Set(1, New(1, 0, 0));
    assert second.Done? && p.lookup == [AIR, New(2, 0, 0), New(1, 0, 0)];
    r := p.Set(2, New(1, 0, 0));
  }
}
