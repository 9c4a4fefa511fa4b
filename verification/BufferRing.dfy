/** The ring of send buffers: aligned buffers inside their own allocations, filled with a running pattern
    and linked into a cycle that is long enough for the transport. */
module BufferRing {
  import opened Division

  // ---------------------------------------------------------------- alignment

  function And(x: nat, y: nat): nat
    decreases x
  {
    if x == 0 || y == 0 then 0 else 2 * And(x / 2, y / 2) + (x % 2) * (y % 2)
  }

  /** `x & ~y`. */
  function AndNot(x: nat, y: nat): int { x - And(x, y) }

  function Pow2(k: nat): nat {
    if k == 0 then 1 else 2 * Pow2(k - 1)
  }

  ghost predicate IsPowerOfTwo(a: int) {
    exists k: nat :: a == Pow2(k)
  }

  /** Where the data of a buffer starts. */
  function BufferPtr(base: nat, alignment: nat, offset: nat): int
    requires alignment >= 1
  {
    AndNot(base + alignment - 1, alignment - 1) + offset
  }

  lemma {:induction false} AndAtMost(x: nat, y: nat)
    ensures And(x, y) <= y && And(x, y) <= x
    decreases x
  {
    if x != 0 && y != 0 {
      AndAtMost(x / 2, y / 2);
      assert (x % 2) * (y % 2) <= y % 2 && (x % 2) * (y % 2) <= x % 2;
    }
  }

  /** For every alignment, even one that is not a power of two, the buffer lies inside its allocation. */
  lemma InsideAllocation(base: nat, alignment: nat, offset: nat, bufferSize: nat)
    requires alignment >= 1
    ensures base + offset <= BufferPtr(base, alignment, offset)
    ensures BufferPtr(base, alignment, offset) + bufferSize < base + (bufferSize + alignment + offset)
  {
    AndAtMost(base + alignment - 1, alignment - 1);
  }

  lemma {:induction false} AndLowBits(x: nat, k: nat)
    ensures Pow2(k) >= 1 && And(x, Pow2(k) - 1) == x % Pow2(k)
    decreases k
  {
    if k > 0 {
      AndLowBits(x / 2, k - 1);
      AndOdd(x, Pow2(k - 1));
      HalfRemainder(x, Pow2(k - 1));
    }
  }

  lemma AndOdd(x: nat, p: nat)
    requires p >= 1
    ensures And(x, 2 * p - 1) == 2 * And(x / 2, p - 1) + x % 2
  {}

  lemma HalfRemainder(x: nat, p: nat)
    requires p >= 1
    ensures x % (2 * p) == 2 * (x / 2 % p) + x % 2
  {
    var q, r := x / 2 / p, x / 2 % p;
    assert x == 2 * (q * p + r) + x % 2;
    assert x == q * (2 * p) + (2 * r + x % 2);
    Remainder(x, q, 2 * p, 2 * r + x % 2);
  }

  lemma {:induction false} AndAbove(m: nat, k: nat)
    requires m < Pow2(k)
    ensures And(Pow2(k) + m, m) == m
    decreases k
  {
    if m != 0 {
      hide And;
      assert Pow2(k) == 2 * Pow2(k - 1);
      AndAbove(m / 2, k - 1);
      AndSameLowBit(Pow2(k - 1), m);
    }
  }

  lemma AndSameLowBit(p: nat, m: nat)
    requires m != 0 && And(p + m / 2, m / 2) == m / 2
    ensures And(2 * p + m, m) == m
  {
    hide And;
    AndUnfolds(2 * p + m, m);
    Remainder(2 * p + m, p + m / 2, 2, m % 2);
    BitSquared(m % 2);
  }

  lemma AndUnfolds(x: nat, y: nat)
    requires x != 0 && y != 0
    ensures And(x, y) == 2 * And(x / 2, y / 2) + (x % 2) * (y % 2)
  {}

  lemma BitSquared(b: nat)
    requires b < 2
    ensures b * b == b
  {}

  lemma {:induction false} FactorOfPower(a: nat, b: nat, k: nat)
    requires a * b == Pow2(k)
    ensures IsPowerOfTwo(a)
    decreases k, a
  {
    if k == 0 {
      UnitFactor(a, b);
      assert a == Pow2(0);
    } else if a % 2 == 0 {
      assert (a / 2) * b == Pow2(k - 1) by { assert 2 * (a / 2) * b == a * b; }
      FactorOfPower(a / 2, b, k - 1);
      var j: nat :| a / 2 == Pow2(j);
      assert a == Pow2(j + 1);
    } else {
      OddTimesOdd(a, b);
      assert a * (b / 2) == Pow2(k - 1) by { assert a * (b / 2) * 2 == a * b; }
      FactorOfPower(a, b / 2, k - 1);
    }
  }

  lemma UnitFactor(a: nat, b: nat)
    requires a * b == 1
    ensures a == 1
  {}

  lemma OddTimesOdd(a: nat, b: nat)
    requires a % 2 == 1 && a * b % 2 == 0
    ensures b % 2 == 0
  {
    var c, d, r := a / 2, b / 2, b % 2;
    assert a * b == 2 * (2 * c * d + c * r + d) + r;
  }

  lemma PowerAbove(a: nat) returns (k: nat)
    ensures a < Pow2(k)
  {
    k := 0;
    while Pow2(k) <= a
      invariant Pow2(k) >= k
      decreases a - Pow2(k)
    {
      k := k + 1;
    }
  }

  lemma Truncated(x: nat, d: nat)
    requires d >= 1
    ensures (x - x % d) % d == 0
  {
    Remainder(x - x % d, x / d, d, 0);
  }

  /** The mask aligns every allocation, before the offset is added, exactly when the alignment is a power of
      two. */
  lemma AlignedIff(alignment: nat)
    requires alignment >= 1
    ensures (forall base: nat, offset: nat :: (BufferPtr(base, alignment, offset) - offset) % alignment == 0)
       <==> IsPowerOfTwo(alignment)
  {
    hide BufferPtr, IsPowerOfTwo;
    if IsPowerOfTwo(alignment) {
      forall base: nat, offset: nat ensures (BufferPtr(base, alignment, offset) - offset) % alignment == 0 {
        PowerAligns(base, alignment);
        OffsetAdded(base, alignment, offset);
      }
    } else {
      var base := Misaligned(alignment);
      assert (BufferPtr(base, alignment, 0) - 0) % alignment != 0;
    }
  }

  lemma OffsetAdded(base: nat, alignment: nat, offset: nat)
    requires alignment >= 1
    ensures BufferPtr(base, alignment, offset) == BufferPtr(base, alignment, 0) + offset
  {}

  lemma PowerAligns(base: nat, alignment: nat)
    requires alignment >= 1 && IsPowerOfTwo(alignment)
    ensures BufferPtr(base, alignment, 0) % alignment == 0
  {
    var k: nat :| alignment == Pow2(k);
    var x := base + alignment - 1;
    AndLowBits(x, k);
    Truncated(x, alignment);
    hide And, Pow2;
    assert BufferPtr(base, alignment, 0) == x - x % alignment;
  }

  /** An allocation at a power of two above the alignment is left where it is. */
  lemma Misaligned(alignment: nat) returns (base: nat)
    requires alignment >= 1 && !IsPowerOfTwo(alignment)
    ensures BufferPtr(base, alignment, 0) % alignment != 0
  {
    hide BufferPtr, IsPowerOfTwo, Pow2;
    var k := PowerAbove(alignment);
    base := Pow2(k);
    LeftInPlace(alignment, k);
    NoMultiple(alignment, k);
  }

  lemma LeftInPlace(alignment: nat, k: nat)
    requires 1 <= alignment < Pow2(k)
    ensures BufferPtr(Pow2(k), alignment, 0) == Pow2(k)
  {
    hide And, Pow2;
    AndAbove(alignment - 1, k);
  }

  lemma NoMultiple(alignment: nat, k: nat)
    requires alignment >= 1 && !IsPowerOfTwo(alignment)
    ensures Pow2(k) % alignment != 0
  {
    hide IsPowerOfTwo, Pow2;
    var p := Pow2(k);
    if p % alignment == 0 {
      assert alignment * (p / alignment) == p;
      FactorOfPower(alignment, p / alignment, k);
    }
  }

  // ---------------------------------------------------------------- the ring

  /** The default fill: the word and its terminating NUL. */
  const DEFAULT_FILL := "netperf\0"

  function FillChar(k: nat): char {
    DEFAULT_FILL[k % 8]
  }

  /** n characters of the endlessly repeated default fill, from its k-th on. */
  function FillText(k: nat, n: nat): (s: string)
    ensures |s| == n
  {
    seq(n, j requires 0 <= j < n => FillChar(k + j))
  }

  /** n buffers of a size together. */
  function Bytes(n: nat, size: nat): nat { n * size }

  lemma BytesNext(n: nat, size: nat)
    ensures Bytes(0, size) == 0 && Bytes(n + 1, size) == Bytes(n, size) + size
  {}

  lemma CursorWraps(k: nat, n: nat)
    ensures (k % 8 + n) % 8 == (k + n) % 8
  {
    Remainder(k + n, k / 8 + (k % 8 + n) / 8, 8, (k % 8 + n) % 8);
  }

  lemma FillTextPeriodic(k: nat, n: nat)
    ensures FillText(k % 8, n) == FillText(k, n)
  {
    forall j | 0 <= j < n ensures FillText(k % 8, n)[j] == FillText(k, n)[j] {
      CursorWraps(k, j);
      assert FillText(k % 8, n)[j] == FillChar(k % 8 + j) && FillText(k, n)[j] == FillChar(k + j);
    }
  }

  lemma FillTextSnoc(k: nat, n: nat)
    ensures FillText(k, n + 1) == FillText(k, n) + [FillChar(k + n)]
  {}

  lemma FillTextConcat(k: nat, m: nat, n: nat)
    ensures FillText(k, m) + FillText(k + m, n) == FillText(k, m + n)
  {}

  class RingElt {
    var next: RingElt?
    /** The address malloc returned, and the bytes it returned. */
    const bufferBase: nat
    const memory: array<char>
    var bufferPtr: int

    constructor (bufferBase: nat, mallocSize: nat)
      ensures this.bufferBase == bufferBase && memory.Length == mallocSize && fresh(memory)
    {
      this.bufferBase := bufferBase;
      memory := new char[mallocSize](_ => '\0');
      next := null;
      bufferPtr := bufferBase;
    }
  }

  /** The address at which element i of a ring puts its data, and the data it holds there. */
  ghost predicate Filled(e: RingElt, i: nat, bufferSize: nat, alignment: nat, offset: nat)
    requires alignment >= 1
    reads e`bufferPtr, e.memory
  {
    && e.bufferPtr == BufferPtr(e.bufferBase, alignment, offset)
    && HasData(e, bufferSize)
    && Data(e, bufferSize) == FillText(Bytes(i, bufferSize), bufferSize)
  }

  /** The buffer lies inside its allocation. */
  ghost predicate HasData(e: RingElt, bufferSize: nat)
    reads e`bufferPtr
  {
    e.bufferBase <= e.bufferPtr && e.bufferPtr + bufferSize <= e.bufferBase + e.memory.Length
  }

  ghost function Data(e: RingElt, bufferSize: nat): seq<char>
    requires HasData(e, bufferSize)
    reads e`bufferPtr, e.memory
  {
    var start := e.bufferPtr - e.bufferBase;
    e.memory[start..start + bufferSize]
  }

  /** Each element points to the one allocated before it. */
  ghost predicate Chained(elts: seq<RingElt>)
    reads set e | e in elts
  {
    forall i :: 0 < i < |elts| ==> elts[i].next == elts[i - 1]
  }

  ghost predicate Distinct(elts: seq<RingElt>) {
    forall i, j :: 0 <= i < j < |elts| ==> elts[i] != elts[j]
  }

  /** One cycle through all elements: the first allocated closes it by pointing to the last. */
  ghost predicate IsRing(elts: seq<RingElt>)
    reads set e | e in elts
  {
    elts != [] && Distinct(elts) && Chained(elts) && elts[0].next == elts[|elts| - 1]
  }

  /** Fills a buffer from the cursor on, which wraps after the NUL. */
  method FillBuffer(memory: array<char>, start: nat, size: nat, cursor: nat) returns (cursor': nat)
    requires start + size <= memory.Length && cursor < 8
    modifies memory
    ensures memory[start..start + size] == FillText(cursor, size)
    ensures cursor' == (cursor + size) % 8
  {
    hide FillText;
    cursor' := cursor;
    for j := 0 to size
      invariant cursor' == (cursor + j) % 8
      invariant memory[start..start + j] == FillText(cursor, j)
    {
      ghost var done := memory[start..start + j];
      memory[start + j] := DEFAULT_FILL[cursor'];
      assert memory[start..start + j + 1] == done + [FillChar(cursor + j)];
      FillTextSnoc(cursor, j);
      cursor' := cursor' + 1;
      if cursor' > 7 {
        cursor' := 0;
      }
    }
  }

  /** One pass of the loop: the i-th element, its buffer aligned, offset and filled. */
  method NewElement(base: nat, ghost i: nat, bufferSize: nat, alignment: nat, offset: nat, cursor: nat)
    returns (e: RingElt, cursor': nat)
    requires alignment >= 1 && cursor == Bytes(i, bufferSize) % 8
    ensures fresh(e) && fresh(e.memory) && e.bufferBase == base
    ensures e.memory.Length == bufferSize + alignment + offset
    ensures Filled(e, i, bufferSize, alignment, offset)
    ensures cursor' == Bytes(i + 1, bufferSize) % 8
  {
    hide And, FillText, Bytes;
    e := new RingElt(base, bufferSize + alignment + offset);
    e.bufferPtr := AndNot(base + alignment - 1, alignment - 1);
    e.bufferPtr := e.bufferPtr + offset;
    InsideAllocation(base, alignment, offset, bufferSize);
    cursor' := FillBuffer(e.memory, e.bufferPtr - base, bufferSize, cursor);
    BytesNext(i, bufferSize);
    CursorWraps(Bytes(i, bufferSize), bufferSize);
    FillTextPeriodic(Bytes(i, bufferSize), bufferSize);
  }

  ghost predicate Allocated(e: RingElt, i: nat, base: nat, bufferSize: nat, alignment: nat, offset: nat)
    requires alignment >= 1
    reads e`bufferPtr, e.memory
  {
    && e.bufferBase == base && e.memory.Length == bufferSize + alignment + offset
    && Filled(e, i, bufferSize, alignment, offset)
  }

  /** `bases` are the addresses malloc returns; `elts` lists the elements in the order of allocation.  For a
      width below one there is no ring. */
  method AllocateBufferRing(width: int, bufferSize: nat, alignment: nat, offset: nat, bases: seq<nat>)
    returns (firstLink: RingElt?, ghost elts: seq<RingElt>)
    requires alignment >= 1 && |bases| == (if width < 1 then 0 else width)
    ensures |elts| == |bases| && (firstLink == null <==> width < 1)
    ensures width >= 1 ==> IsRing(elts) && firstLink == elts[0]
    ensures forall i :: 0 <= i < width ==> fresh(elts[i]) && fresh(elts[i].memory)
    ensures forall i :: 0 <= i < width ==> Allocated(elts[i], i, bases[i], bufferSize, alignment, offset)
  {
    hide Filled, Bytes;
    var first, prev, temp: RingElt? := null, null, null;
    var cursor := 0;
    elts := [];
    BytesNext(0, bufferSize);
    for i := 0 to |bases|
      invariant |elts| == i && cursor == Bytes(i, bufferSize) % 8
      invariant i == 0 ==> first == null && prev == null
      invariant i > 0 ==> first == elts[0] && prev == temp == elts[i - 1]
      invariant forall k :: 0 <= k < i ==> fresh(elts[k]) && fresh(elts[k].memory)
      invariant forall k :: 0 <= k < i ==> Allocated(elts[k], k, bases[k], bufferSize, alignment, offset)
      invariant Distinct(elts) && Chained(elts)
    {
      var e;
      e, cursor := NewElement(bases[i], i, bufferSize, alignment, offset, cursor);
      if i == 0 {
        first := e;
      }
      e.next := prev;
      prev, temp := e, e;
      elts := elts + [e];
    }
    if first != null {
      first.next := temp;
    }
    firstLink := first;
  }

  /** The contents of the buffers, one after the other in the order of allocation. */
  ghost function Contents(elts: seq<RingElt>, n: nat, bufferSize: nat): seq<char>
    requires n <= |elts|
    requires forall i :: 0 <= i < n ==> HasData(elts[i], bufferSize)
    reads set e | e in elts, set e | e in elts :: e.memory
  {
    if n == 0 then [] else Contents(elts, n - 1, bufferSize) + Data(elts[n - 1], bufferSize)
  }

  /** They are one running repetition of the default fill. */
  lemma ContentsPeriodic(elts: seq<RingElt>, n: nat, bufferSize: nat, alignment: nat, offset: nat)
    requires alignment >= 1 && n <= |elts|
    requires forall i :: 0 <= i < n ==> Filled(elts[i], i, bufferSize, alignment, offset)
    ensures forall i :: 0 <= i < n ==> HasData(elts[i], bufferSize)
    ensures |Contents(elts, n, bufferSize)| == n * bufferSize
    ensures forall j :: 0 <= j < n * bufferSize ==> Contents(elts, n, bufferSize)[j] == "netperf\0"[j % 8]
  {
    hide BufferPtr, FillText, Contents;
    ContentsAreFill(elts, n, bufferSize, alignment, offset);
    FillTextRepeats(Bytes(n, bufferSize));
  }

  lemma FillTextRepeats(n: nat)
    ensures forall j :: 0 <= j < n ==> FillText(0, n)[j] == "netperf\0"[j % 8]
  {
    forall j | 0 <= j < n ensures FillText(0, n)[j] == "netperf\0"[j % 8] {
      assert FillText(0, n)[j] == FillChar(0 + j);
    }
  }

  lemma {:induction false} ContentsAreFill(elts: seq<RingElt>, n: nat, bufferSize: nat, alignment: nat, offset: nat)
    requires alignment >= 1 && n <= |elts|
    requires forall i :: 0 <= i < n ==> Filled(elts[i], i, bufferSize, alignment, offset)
    ensures forall i :: 0 <= i < n ==> HasData(elts[i], bufferSize)
    ensures Contents(elts, n, bufferSize) == FillText(0, Bytes(n, bufferSize))
  {
    hide BufferPtr, FillText, Bytes;
    assert forall i :: 0 <= i < n ==> HasData(elts[i], bufferSize);
    BytesNext(if n > 0 then n - 1 else 0, bufferSize);
    if n > 0 {
      ContentsAreFill(elts, n - 1, bufferSize, alignment, offset);
      FillTextConcat(0, Bytes(n - 1, bufferSize), bufferSize);
    } else {
      assert |FillText(0, 0)| == 0;
    }
  }

  // ---------------------------------------------------------------- sending from the ring

  /** C's division, which truncates towards zero. */
  function TruncatedQuotient(a: int, b: int): int
    requires b > 0
  {
    if a >= 0 then a / b else -(-a / b)
  }

  /** The send size and the width of the ring, where the user asked for none. */
  function SendSize(asked: nat, lssSize: int): (size: int)
    ensures size > 0
  {
    if asked != 0 then asked else if lssSize > 0 then lssSize else 4096
  }

  function SendWidth(asked: int, lssSize: int, sendSize: int): int
    requires sendSize > 0
  {
    if asked != 0 then asked
    else if TruncatedQuotient(lssSize, sendSize) + 1 == 1 then 2
    else TruncatedQuotient(lssSize, sendSize) + 1
  }

  /** The element in use after m messages, when the walk starts at the first one allocated. */
  function Position(width: nat, m: nat): (p: int)
    requires width > 0
    ensures 0 <= p < width
  {
    if m % width == 0 then 0 else width - m % width
  }

  lemma NextPosition(width: nat, m: nat)
    requires width > 0
    ensures Position(width, m + 1) == if Position(width, m) == 0 then width - 1 else Position(width, m) - 1
  {
    var r := m % width;
    if r + 1 == width {
      Remainder(m + 1, m / width + 1, width, 0);
    } else {
      Remainder(m + 1, m / width, width, r + 1);
    }
  }

  /** The sending loop of a test ended by a byte count; `used` lists the buffers sent. */
  method SendMessages(ring: RingElt, testBytes: int, sendSize: nat, ghost elts: seq<RingElt>)
    returns (nummessages: nat, ghost used: seq<RingElt>)
    requires IsRing(elts) && ring == elts[0] && sendSize > 0
    ensures |used| == nummessages
    ensures testBytes <= Bytes(nummessages, sendSize)
    ensures nummessages > 0 ==> Bytes(nummessages - 1, sendSize) < testBytes
    ensures forall m :: 0 <= m < nummessages ==> used[m] == elts[Position(|elts|, m)]
  {
    hide Bytes, Position;
    nummessages, used := 0, [];
    BytesNext(0, sendSize);
    StartPosition(|elts|);
    var sendRing: RingElt? := ring;
    var bytesRemaining := testBytes;
    while bytesRemaining > 0
      invariant |used| == nummessages && bytesRemaining == testBytes - Bytes(nummessages, sendSize)
      invariant nummessages > 0 ==> Bytes(nummessages - 1, sendSize) < testBytes
      invariant sendRing == elts[Position(|elts|, nummessages)]
      invariant forall m :: 0 <= m < nummessages ==> used[m] == elts[Position(|elts|, m)]
    {
      used := used + [sendRing];
      NextPosition(|elts|, nummessages);
      BytesNext(nummessages, sendSize);
      nummessages := nummessages + 1;
      sendRing := sendRing.next;
      if bytesRemaining != 0 {
        bytesRemaining := bytesRemaining - sendSize;
      }
    }
  }

  lemma StartPosition(width: nat)
    requires width > 0
    ensures Position(width, 0) == 0
  {}

  /** Two uses of one buffer are a multiple of the width apart. */
  lemma SamePosition(width: nat, s: nat, m: nat)
    requires width > 0 && s < m && Position(width, s) == Position(width, m)
    ensures m - s >= width
  {
    assert s % width == m % width;
    var q := m / width - s / width;
    assert m - s == q * width by {
      assert m == m / width * width + m % width && s == s / width * width + s % width;
    }
    if q < 1 {
      Multiple(1 - q, width);
    } else {
      Multiple(q, width);
    }
  }

  /** No buffer is sent again before more bytes than the socket buffer holds have been sent since, exactly
      when the whole ring is larger than the socket buffer. */
  lemma ReuseIff(width: nat, sendSize: nat, lssSize: int)
    requires width > 0
    ensures (forall s: nat, m: nat ::
              s < m && Position(width, s) == Position(width, m) ==> (m - s) * sendSize > lssSize)
       <==> width * sendSize > lssSize
  {
    if width * sendSize > lssSize {
      forall s: nat, m: nat | s < m && Position(width, s) == Position(width, m)
        ensures (m - s) * sendSize > lssSize
      {
        SamePosition(width, s, m);
        assert (m - s - width) * sendSize >= 0;
      }
    } else {
      Remainder(width, 1, width, 0);
      assert Position(width, 0) == Position(width, width);
    }
  }

  /** The width chosen by default is at least two and large enough for every socket buffer size that is
      known.  A size of -1 still does, unless single bytes are sent: then no ring can be allocated. */
  lemma DefaultWidth(askedSize: nat, lssSize: int)
    ensures var sendSize := SendSize(askedSize, lssSize);
      var width := SendWidth(0, lssSize, sendSize);
      && (width >= 2 && width * sendSize > lssSize <==> lssSize + sendSize > 0)
      && (lssSize + sendSize <= 0 ==> width < 1)
      && (lssSize + sendSize > 0 ==> width == 2 || (width - 1) * sendSize <= lssSize)
      && (lssSize > 0 && askedSize == 0 ==> width == 2)
      && sendSize == (if askedSize > 0 then askedSize else if lssSize > 0 then lssSize else 4096)
      && forall asked :: asked != 0 ==> SendWidth(asked, lssSize, sendSize) == asked
  {
    var sendSize := SendSize(askedSize, lssSize);
    WidthBounds(sendSize, lssSize);
    if lssSize > 0 && askedSize == 0 {
      Remainder(lssSize, 1, sendSize, 0);
    }
    hide TruncatedQuotient;
  }

  /** A socket buffer size of -1 and single bytes: the default width is 0, and there is no ring to send from. */
  lemma NoRingForSingleBytes()
    ensures SendWidth(0, -1, SendSize(1, -1)) == 0
  {}

  lemma WidthBounds(sendSize: nat, lssSize: int)
    requires sendSize > 0
    ensures var width := SendWidth(0, lssSize, sendSize);
      && (width >= 2 && width * sendSize > lssSize <==> lssSize + sendSize > 0)
      && (lssSize + sendSize <= 0 ==> width < 1)
      && (lssSize + sendSize > 0 ==> width == 2 || (width - 1) * sendSize <= lssSize)
  {
    hide TruncatedQuotient;
    var q := TruncatedQuotient(lssSize, sendSize);
    QuotientBounds(lssSize, sendSize);
    assert (q + 1) * sendSize == q * sendSize + sendSize;
    if q >= 1 {
      Multiple(q, sendSize);
    }
  }

  lemma QuotientBounds(a: int, b: nat)
    requires b > 0
    ensures var q := TruncatedQuotient(a, b);
      && (a >= 0 ==> q >= 0 && q * b <= a < q * b + b)
      && (a < 0 ==> q <= 0 && (q == 0 <==> a + b > 0) && q * b >= a)
  {
    var k := (if a >= 0 then a else -a) / b;
    QuotientExact(if a >= 0 then a else -a, b);
    assert (-k) * b == -(k * b);
    if k >= 1 {
      Multiple(k, b);
    }
  }
}
