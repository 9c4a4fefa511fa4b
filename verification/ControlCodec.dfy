/** Control messages between hosts of different byte orders: which words are converted, and how doubles
    are laid out underneath the conversion of words. */
module ControlCodec {

  type byte = b: int | 0 <= b < 256

  const WORDS := 164
  const MESSAGE_BYTES := 4 * WORDS
  const TWO32 := 0x1_0000_0000

  datatype ByteOrder = BigEndian | LittleEndian

  /** `mixedFloats`: the order of the two words of a double is not the order of the bytes in a word. */
  datatype Host = Host(order: ByteOrder, mixedFloats: bool)

  // ---------------------------------------------------------------- words

  /** The number whose base-256 digits are given, most significant first. */
  function Digits(d3: int, d2: int, d1: int, d0: int): int {
    0x100_0000 * d3 + 0x1_0000 * d2 + 0x100 * d1 + d0
  }

  lemma DigitsInjective(a3: byte, a2: byte, a1: byte, a0: byte, b3: byte, b2: byte, b1: byte, b0: byte)
    requires Digits(a3, a2, a1, a0) == Digits(b3, b2, b1, b0)
    ensures a3 == b3 && a2 == b2 && a1 == b1 && a0 == b0
  {}

  /** The unsigned value of a word in memory. */
  function Load(order: ByteOrder, w: seq<byte>): (v: int)
    requires |w| == 4
    ensures 0 <= v < TWO32
  {
    if order == BigEndian then Digits(w[0], w[1], w[2], w[3]) else Digits(w[3], w[2], w[1], w[0])
  }

  function Store(order: ByteOrder, v: int): (w: seq<byte>)
    requires 0 <= v < TWO32
    ensures |w| == 4 && Load(order, w) == v
  {
    var q1 := v / 256;
    var q2 := q1 / 256;
    var q3 := q2 / 256;
    var b3: byte, b2: byte, b1: byte, b0: byte := q3, q2 % 256, q1 % 256, v % 256;
    assert Digits(b3, b2, b1, b0) == v;
    if order == BigEndian then [b3, b2, b1, b0] else [b0, b1, b2, b3]
  }

  function InNetworkOrder(order: ByteOrder, w: seq<byte>): (r: seq<byte>)
    requires |w| == 4
    ensures |r| == 4
  {
    if order == BigEndian then w else Mirrored(w)
  }

  function Mirrored(w: seq<byte>): seq<byte>
    requires |w| == 4
  {
    [w[3], w[2], w[1], w[0]]
  }

  lemma LoadInjective(order: ByteOrder, w: seq<byte>, w': seq<byte>)
    requires |w| == |w'| == 4 && Load(order, w) == Load(order, w')
    ensures w == w'
  {
    if order == BigEndian {
      DigitsInjective(w[0], w[1], w[2], w[3], w'[0], w'[1], w'[2], w'[3]);
    } else {
      DigitsInjective(w[3], w[2], w[1], w[0], w'[3], w'[2], w'[1], w'[0]);
    }
  }

  /** htonl and ntohl: nothing on a big-endian host, a byte swap of the value on the other. */
  function Htonl(order: ByteOrder, v: int): (n: int)
    requires 0 <= v < TWO32
    ensures 0 <= n < TWO32
  {
    if order == BigEndian then v else Load(BigEndian, Store(LittleEndian, v))
  }

  /** In memory the conversion of a word is its mirror image, or nothing. */
  lemma HtonlInMemory(order: ByteOrder, w: seq<byte>)
    requires |w| == 4
    ensures Store(order, Htonl(order, Load(order, w))) == InNetworkOrder(order, w)
  {
    LoadInjective(order, Store(order, Load(order, w)), w);
    if order == LittleEndian {
      var v := Htonl(order, Load(order, w));
      assert Load(LittleEndian, Mirrored(w)) == v;
      LoadInjective(LittleEndian, Store(LittleEndian, v), Mirrored(w));
    }
  }

  // ---------------------------------------------------------------- messages

  function Mirror(j: int): int { j - j % 4 + (3 - j % 4) }

  /** A message whose words from `lo` up to `hi` have been converted on a host. */
  function Converted(order: ByteOrder, m: seq<byte>, lo: int, hi: int): (c: seq<byte>)
    requires |m| % 4 == 0
    ensures |c| == |m|
  {
    seq(|m|, j requires 0 <= j < |m| =>
      if order == LittleEndian && 4 * lo <= j < 4 * hi then m[Mirror(j)] else m[j])
  }

  function Word(m: seq<byte>, i: nat): (w: seq<byte>)
    requires 4 * i + 4 <= |m|
    ensures |w| == 4
  {
    m[4 * i..4 * i + 4]
  }

  /** How many words a call with argument n converts. */
  function WordCount(n: int): int {
    if n < 0 then WORDS else if 2 + n > WORDS then WORDS else 2 + n
  }

  /** The second word of a request carries the processor affinity. */
  function WithAffinity(order: ByteOrder, m: seq<byte>, affinity: int): (r: seq<byte>)
    requires |m| == MESSAGE_BYTES
    ensures |r| == MESSAGE_BYTES
  {
    m[..4] + Store(order, affinity % TWO32) + m[8..]
  }

  /** The bytes a request puts on the wire. */
  function Sent(order: ByteOrder, m: seq<byte>, affinity: int, n: int): seq<byte>
    requires |m| == MESSAGE_BYTES
  {
    Converted(order, WithAffinity(order, m, affinity), 0, WordCount(n))
  }

  /** The loops over request_array and response_array. */
  method ConvertWords(order: ByteOrder, a: array<byte>, lo: nat, hi: nat)
    requires a.Length % 4 == 0 && 4 * hi <= a.Length
    modifies a
    ensures a[..] == Converted(order, old(a[..]), lo, hi)
  {
    var i := lo;
    assert a[..] == Converted(order, old(a[..]), lo, lo);
    while i < hi
      invariant lo <= i && (i <= hi || i == lo)
      invariant a[..] == Converted(order, old(a[..]), lo, i)
    {
      ghost var before := a[..];
      ConvertWord(order, a, i);
      ConvertedStep(order, old(a[..]), before, a[..], lo, i);
      i := i + 1;
    }
    assert a[..] == Converted(order, old(a[..]), lo, hi);
  }

  /** `a[i] = htonl(a[i])` on an array of words. */
  method ConvertWord(order: ByteOrder, a: array<byte>, i: nat)
    requires 4 * i + 4 <= a.Length
    modifies a
    ensures Word(a[..], i) == InNetworkOrder(order, old(Word(a[..], i)))
    ensures forall j :: 0 <= j < a.Length && !(4 * i <= j < 4 * i + 4) ==> a[j] == old(a[j])
  {
    hide Load, Store, Htonl;
    var w := a[4 * i..4 * i + 4];
    assert w == Word(a[..], i);
    HtonlInMemory(order, w);
    var c := Store(order, Htonl(order, Load(order, w)));
    a[4 * i], a[4 * i + 1], a[4 * i + 2], a[4 * i + 3] := c[0], c[1], c[2], c[3];
    assert a[..][4 * i..4 * i + 4] == c;
  }

  lemma UnconvertedByte(order: ByteOrder, m: seq<byte>, lo: nat, hi: nat, j: int)
    requires |m| % 4 == 0 && 4 * hi <= j < |m|
    ensures Converted(order, m, lo, hi)[j] == m[j]
  {}

  lemma WordByte(m: seq<byte>, i: nat, k: nat)
    requires 4 * i + 4 <= |m| && k < 4
    ensures Word(m, i)[k] == m[4 * i + k]
  {}

  lemma ConvertedStep(order: ByteOrder, m: seq<byte>, before: seq<byte>, after: seq<byte>, lo: nat, i: nat)
    requires |m| % 4 == 0 && lo <= i && 4 * i + 4 <= |m|
    requires before == Converted(order, m, lo, i) && |after| == |m|
    requires Word(after, i) == InNetworkOrder(order, Word(before, i))
    requires forall j :: 0 <= j < |m| && !(4 * i <= j < 4 * i + 4) ==> after[j] == before[j]
    ensures after == Converted(order, m, lo, i + 1)
  {
    forall j | 4 * i <= j < 4 * i + 4 ensures after[j] == Converted(order, m, lo, i + 1)[j] {
      var k := j - 4 * i;
      MirrorInWord(i, k);
      UnconvertedByte(order, m, lo, i, 4 * i + k);
      UnconvertedByte(order, m, lo, i, 4 * i + (3 - k));
      WordByte(before, i, k);
      WordByte(before, i, 3 - k);
      WordByte(after, i, k);
    }
  }

  // ---------------------------------------------------------------- what the receiver reads

  /** Word i of a message has the same number on both hosts. */
  ghost predicate SameNumber(s: ByteOrder, m: seq<byte>, r: ByteOrder, m': seq<byte>, i: nat)
    requires 4 * i + 4 <= |m| && 4 * i + 4 <= |m'|
  {
    Load(s, Word(m, i)) == Load(r, Word(m', i))
  }

  lemma ConvertedWord(order: ByteOrder, m: seq<byte>, lo: nat, hi: nat, i: nat)
    requires |m| % 4 == 0 && 4 * i + 4 <= |m|
    ensures Word(Converted(order, m, lo, hi), i)
         == if lo <= i < hi then InNetworkOrder(order, Word(m, i)) else Word(m, i)
  {
    ConvertedByte(order, m, lo, hi, i, 0);
    ConvertedByte(order, m, lo, hi, i, 1);
    ConvertedByte(order, m, lo, hi, i, 2);
    ConvertedByte(order, m, lo, hi, i, 3);
    hide Converted;
  }

  lemma ConvertedByte(order: ByteOrder, m: seq<byte>, lo: nat, hi: nat, i: nat, k: nat)
    requires |m| % 4 == 0 && 4 * i + 4 <= |m| && k < 4
    ensures Word(Converted(order, m, lo, hi), i)[k]
         == Word(m, i)[if order == LittleEndian && lo <= i < hi then 3 - k else k]
  {
    MirrorInWord(i, k);
    WordByte(Converted(order, m, lo, hi), i, k);
    WordByte(m, i, k);
    WordByte(m, i, 3 - k);
  }

  lemma MirrorInWord(i: nat, k: nat)
    requires k < 4
    ensures Mirror(4 * i + k) == 4 * i + (3 - k)
  {}

  /** Network order carries numbers between hosts of any two byte orders. */
  lemma NumbersArrive(s: ByteOrder, r: ByteOrder, w: seq<byte>)
    requires |w| == 4
    ensures Load(r, InNetworkOrder(r, InNetworkOrder(s, w))) == Load(s, w)
  {}

  /** A call with argument n converts the first n + 2 words, and every word where n is negative. */
  predicate Converts(n: int, i: nat) {
    i < WORDS && (n < 0 || i < n + 2)
  }

  lemma WordCountIff(n: int, i: nat)
    ensures i < WordCount(n) <==> Converts(n, i)
    ensures 2 <= WordCount(n) <= WORDS
  {}

  /** A request sent and received with the same argument: the words it converts keep their numbers, the second
      being the affinity, and all other bytes are unchanged. */
  lemma RequestArrives(s: ByteOrder, r: ByteOrder, m: seq<byte>, affinity: int, n: int)
    requires |m| == MESSAGE_BYTES
    ensures var m' := Converted(r, Sent(s, m, affinity, n), 0, WordCount(n));
      && (forall i: nat :: i < WORDS && i != 1 && (n < 0 || i < n + 2) ==> SameNumber(s, m, r, m', i))
      && Load(r, Word(m', 1)) == affinity % TWO32
      && (forall j :: 8 <= j < MESSAGE_BYTES && n >= 0 && j >= 4 * (n + 2) ==> m'[j] == m[j])
  {
    hide Load, Store, Converted, Word, WithAffinity, WordCount;
    var a, count := WithAffinity(s, m, affinity), WordCount(n);
    var m' := Converted(r, Sent(s, m, affinity, n), 0, count);
    WordCountIff(n, 1);
    forall i: nat | i < WORDS && (n < 0 || i < n + 2)
      ensures Load(r, Word(m', i)) == Load(s, if i == 1 then Store(s, affinity % TWO32) else Word(m, i))
    {
      WordCountIff(n, i);
      WordArrives(s, r, a, count, i);
      AffinityWord(s, m, affinity, i);
    }
    forall j | 8 <= j < MESSAGE_BYTES && n >= 0 && j >= 4 * (n + 2) ensures m'[j] == m[j] {
      WordCountIff(n, j / 4);
      LaterBytesStay(s, r, a, count, j);
      LaterByte(s, m, affinity, j);
    }
  }

  /** The same for a response. */
  lemma ResponseArrives(s: ByteOrder, r: ByteOrder, m: seq<byte>, n: int)
    requires |m| == MESSAGE_BYTES
    ensures var m' := Converted(r, Converted(s, m, 0, WordCount(n)), 0, WordCount(n));
      && (forall i: nat :: i < WORDS && (n < 0 || i < n + 2) ==> SameNumber(s, m, r, m', i))
      && (forall j :: 0 <= j < MESSAGE_BYTES && n >= 0 && j >= 4 * (n + 2) ==> m'[j] == m[j])
  {
    hide Load, Converted, Word, WordCount;
    var count := WordCount(n);
    forall i: nat | i < WORDS && (n < 0 || i < n + 2)
      ensures SameNumber(s, m, r, Converted(r, Converted(s, m, 0, count), 0, count), i)
    {
      WordCountIff(n, i);
      WordArrives(s, r, m, count, i);
    }
    forall j | 0 <= j < MESSAGE_BYTES && n >= 0 && j >= 4 * (n + 2)
      ensures Converted(r, Converted(s, m, 0, count), 0, count)[j] == m[j]
    {
      WordCountIff(n, j / 4);
      LaterBytesStay(s, r, m, count, j);
    }
  }

  /** What is on the wire is big-endian, whatever the sender's byte order. */
  lemma BigEndianOnTheWire(s: ByteOrder, m: seq<byte>, n: int, i: nat)
    requires |m| == MESSAGE_BYTES && Converts(n, i)
    ensures var wire := Converted(s, m, 0, WordCount(n));
      Load(s, Word(m, i))
        == 0x100_0000 * wire[4 * i] as int + 0x1_0000 * wire[4 * i + 1] as int
           + 0x100 * wire[4 * i + 2] as int + wire[4 * i + 3] as int
  {
    hide Converted;
    WordCountIff(n, i);
    ConvertedWord(s, m, 0, WordCount(n), i);
    var wire := Converted(s, m, 0, WordCount(n));
    assert Word(wire, i) == [wire[4 * i], wire[4 * i + 1], wire[4 * i + 2], wire[4 * i + 3]];
  }

  lemma LaterBytesStay(s: ByteOrder, r: ByteOrder, m: seq<byte>, count: nat, j: nat)
    requires |m| == MESSAGE_BYTES && j < MESSAGE_BYTES && count <= j / 4
    ensures Converted(r, Converted(s, m, 0, count), 0, count)[j] == m[j]
  {
    UnconvertedByte(s, m, 0, count, j);
    UnconvertedByte(r, Converted(s, m, 0, count), 0, count, j);
    hide Converted;
  }

  lemma WordArrives(s: ByteOrder, r: ByteOrder, a: seq<byte>, count: nat, i: nat)
    requires |a| == MESSAGE_BYTES && i < count <= WORDS
    ensures Load(r, Word(Converted(r, Converted(s, a, 0, count), 0, count), i)) == Load(s, Word(a, i))
  {
    hide Load, Converted, Word;
    ConvertedWord(s, a, 0, count, i);
    ConvertedWord(r, Converted(s, a, 0, count), 0, count, i);
    NumbersArrive(s, r, Word(a, i));
  }

  lemma AffinityWord(s: ByteOrder, m: seq<byte>, affinity: int, i: nat)
    requires |m| == MESSAGE_BYTES && i < WORDS
    ensures Word(WithAffinity(s, m, affinity), i) == if i == 1 then Store(s, affinity % TWO32) else Word(m, i)
  {
    hide Store;
    var a := WithAffinity(s, m, affinity);
    if i == 0 {
      assert a[0..4] == m[0..4];
    } else if i == 1 {
      assert a[4..8] == Store(s, affinity % TWO32);
    } else {
      assert forall k :: 4 * i <= k < 4 * i + 4 ==> a[k] == m[k];
    }
  }

  lemma LaterByte(s: ByteOrder, m: seq<byte>, affinity: int, j: nat)
    requires |m| == MESSAGE_BYTES && 8 <= j < MESSAGE_BYTES
    ensures WithAffinity(s, m, affinity)[j] == m[j]
  {
    hide Store;
  }

  /** Converting everything on receipt and undoing it from word n + 2 on is the same as converting the
      first n + 2 words only, whatever the two byte orders. */
  lemma FixupUndoes(r: ByteOrder, wire: seq<byte>, n: nat)
    requires |wire| == MESSAGE_BYTES
    ensures Converted(r, Converted(r, wire, 0, WORDS), n + 2, WORDS) == Converted(r, wire, 0, WordCount(n))
  {}

  /** With a negative count, which elsewhere means "everything", the fixup still undoes all words from
      n + 2 on: it is harmless only on a big-endian host. */
  lemma FixupOfEverything(r: ByteOrder, n: int)
    requires n == -1 || n == -2
    ensures r == BigEndian <==> forall wire: seq<byte> :: |wire| == MESSAGE_BYTES ==>
      Converted(r, Converted(r, wire, 0, WORDS), n + 2, WORDS) == Converted(r, wire, 0, WordCount(n))
  {
    var wire: seq<byte> := seq(MESSAGE_BYTES, i => if i == 4 then 1 else 0);
    if r == LittleEndian {
      assert Converted(r, wire, 0, WordCount(n))[7] == wire[4] == 1;
      assert Converted(r, Converted(r, wire, 0, WORDS), n + 2, WORDS)[7] == wire[7] == 0;
    }
  }

  // ---------------------------------------------------------------- doubles

  /** The memory of a double on a host; `v` lists its bytes from the sign on. */
  function InMemory(h: Host, v: seq<byte>): (d: seq<byte>)
    requires |v| == 8
    ensures |d| == 8
  {
    var high, low := v[..4], v[4..];
    var first, second := if (h.order == BigEndian) != h.mixedFloats then high else low,
                         if (h.order == BigEndian) != h.mixedFloats then low else high;
    InNetworkOrder(h.order, first) + InNetworkOrder(h.order, second)
  }

  /** The effect of htond, and of ntohd: on a little-endian host with plain floats the words change
      places, so that the conversion of words around it completes the swap. */
  function Exchanged(h: Host, d: seq<byte>): (r: seq<byte>)
    requires |d| == 8
    ensures |r| == 8
  {
    if h.order == LittleEndian && !h.mixedFloats then d[4..] + d[..4] else d
  }

  /** Both words of a double converted on their own. */
  function WordsInNetworkOrder(order: ByteOrder, d: seq<byte>): (r: seq<byte>)
    requires |d| == 8
    ensures |r| == 8
  {
    InNetworkOrder(order, d[..4]) + InNetworkOrder(order, d[4..])
  }

  lemma ConvertedDouble(order: ByteOrder, d: seq<byte>)
    requires |d| == 8
    ensures Converted(order, d, 0, 2) == WordsInNetworkOrder(order, d)
  {}

  method SwapBytes(conv: array<byte>)
    requires conv.Length == 8
    modifies conv
    ensures conv[..] == old(Mirrored(conv[4..]) + Mirrored(conv[..4]))
  {
    for i := 0 to 4
      invariant forall j :: 0 <= j < i ==> conv[j] == old(conv[7 - j]) && conv[7 - j] == old(conv[j])
      invariant forall j :: i <= j < 8 - i ==> conv[j] == old(conv[j])
    {
      var scratch := conv[i];
      conv[i] := conv[7 - i];
      conv[7 - i] := scratch;
    }
  }

  method SwapWords(conv: array<byte>)
    requires conv.Length == 8
    modifies conv
    ensures conv[..] == old(conv[4..] + conv[..4])
  {
    forall j | 0 <= j < 8 {
      conv[j] := conv[if j < 4 then j + 4 else j - 4];
    }
  }

  lemma NoOpOnlyOnBigEndian(order: ByteOrder)
    ensures Htonl(order, 1) == 1 <==> order == BigEndian
  {}

  method Htond(h: Host, hostDouble: seq<byte>) returns (r: seq<byte>)
    requires |hostDouble| == 8
    ensures r == Exchanged(h, hostDouble)
  {
    NoOpOnlyOnBigEndian(h.order);
    hide Htonl, Converted;
    if Htonl(h.order, 1) == 1 {
      return hostDouble;
    }
    var conv := new byte[8](i requires 0 <= i < 8 => hostDouble[i]);
    assert conv[..] == hostDouble;
    SwapBytes(conv);
    if h.mixedFloats {
      SwapWords(conv);
    }
    ConvertedDouble(h.order, conv[..]);
    ConvertWords(h.order, conv, 0, 2);
    r := conv[..];
  }

  method Ntohd(h: Host, netDouble: seq<byte>) returns (r: seq<byte>)
    requires |netDouble| == 8
    ensures r == Exchanged(h, netDouble)
  {
    NoOpOnlyOnBigEndian(h.order);
    hide Htonl, Converted;
    if Htonl(h.order, 1) == 1 {
      return netDouble;
    }
    var conv := new byte[8](i requires 0 <= i < 8 => netDouble[i]);
    assert conv[..] == netDouble;
    ConvertedDouble(h.order, conv[..]);
    ConvertWords(h.order, conv, 0, 2);
    SwapBytes(conv);
    if h.mixedFloats {
      SwapWords(conv);
    }
    r := conv[..];
  }

  function DoubleAt(m: seq<byte>, p: nat): seq<byte>
    requires 4 * p + 8 <= |m|
  {
    m[4 * p..4 * p + 8]
  }

  /** A double at any word of a response arrives bit for bit, for every double, exactly when sender and
      receiver agree on whether they are big-endian with mixed floats, the one layout that htond and
      ntohd leave alone. */
  lemma DoubleArrives(s: Host, r: Host, m: seq<byte>, p: nat, v: seq<byte>)
    requires |m| == MESSAGE_BYTES && p + 2 <= WORDS && |v| == 8
    requires DoubleAt(m, p) == Exchanged(s, InMemory(s, v))
    ensures var m' := Converted(r.order, Converted(s.order, m, 0, WORDS), 0, WORDS);
      Exchanged(r, DoubleAt(m', p)) == InMemory(r, v)
      <==> ((s.order == BigEndian && s.mixedFloats) == (r.order == BigEndian && r.mixedFloats)
            || v[..4] == v[4..])
  {
    var wire := Converted(s.order, m, 0, WORDS);
    DoubleInMessage(s.order, m, p);
    DoubleInMessage(r.order, wire, p);
    hide Converted;
    DoubleRoundTrip(s, r, v);
  }

  /** One, from a big-endian host with mixed float words to one with plain floats, arrives with its words
      exchanged. */
  lemma MixedFloatsGarble(m: seq<byte>, p: nat)
    requires |m| == MESSAGE_BYTES && p + 2 <= WORDS
    requires DoubleAt(m, p) == Exchanged(Host(BigEndian, true), InMemory(Host(BigEndian, true), One()))
    ensures DoubleAt(Converted(BigEndian, Converted(BigEndian, m, 0, WORDS), 0, WORDS), p)
         == [0, 0, 0, 0, 0x3F, 0xF0, 0, 0] != InMemory(Host(BigEndian, false), One())
  {
    var mixed, plain := InMemory(Host(BigEndian, true), One()), InMemory(Host(BigEndian, false), One());
    assert mixed == [0, 0, 0, 0, 0x3F, 0xF0, 0, 0] && plain[0] == 0x3F;
    DoubleInMessage(BigEndian, m, p);
    DoubleInMessage(BigEndian, Converted(BigEndian, m, 0, WORDS), p);
    hide Converted;
  }

  /** The bytes of 1.0 from the sign on. */
  function One(): (v: seq<byte>)
    ensures |v| == 8
  {
    [0x3F, 0xF0, 0, 0, 0, 0, 0, 0]
  }

  lemma DoubleInMessage(order: ByteOrder, m: seq<byte>, p: nat)
    requires |m| == MESSAGE_BYTES && p + 2 <= WORDS
    ensures DoubleAt(Converted(order, m, 0, WORDS), p) == WordsInNetworkOrder(order, DoubleAt(m, p))
  {
    var c := Converted(order, m, 0, WORDS);
    ConvertedWord(order, m, 0, WORDS, p);
    ConvertedWord(order, m, 0, WORDS, p + 1);
    hide Converted;
    assert DoubleAt(c, p) == Word(c, p) + Word(c, p + 1);
    assert DoubleAt(m, p)[..4] == Word(m, p) && DoubleAt(m, p)[4..] == Word(m, p + 1);
  }

  lemma DoubleRoundTrip(s: Host, r: Host, v: seq<byte>)
    requires |v| == 8
    ensures
      Exchanged(r, WordsInNetworkOrder(r.order, WordsInNetworkOrder(s.order, Exchanged(s, InMemory(s, v)))))
        == InMemory(r, v)
      <==> ((s.order == BigEndian && s.mixedFloats) == (r.order == BigEndian && r.mixedFloats)
            || v[..4] == v[4..])
  {}
}
