/**
 Extraction of a crashed buffer (`copy_crash_subbuf` and `copy_crash_data` of
 `src/bin/lttng-crash/lttng-crash.c`).

 The mapped file is taken as already split into its counters, its table of sub-buffers
 and its pages; header fields are 8 bytes wide or absent.  A write longer than a page
 stops at the end of the page.
 */
module CrashExtract {
  import opened Wrappers
  import opened MachineInt
  import opened Bytes
  import opened CrashGeometry

  /** `contentAt` and `packetAt` are the places of the size fields in a packet header. */
  datatype Layout = Layout(g: Geometry, overwrite: bool, order: ByteOrder, contentAt: Option<nat>, packetAt: Option<nat>)

  /** Positions, the commit counter and the identifier of each sub-buffer, and the
      page each identifier stands for. */
  datatype Image = Image(prod: nat, consumed: nat, cc: seq<nat>, ids: seq<nat>, table: seq<nat>)

  type Pages = seq<seq<byte>>

  datatype Copied = NoData | Data(pages: Pages, bytes: seq<byte>)

  predicate Fits(at: Option<nat>, size: nat) {
    at.Some? ==> at.value + 8 <= size
  }

  predicate Valid(l: Layout, img: Image, pages: Pages) {
    && l.g.Valid() && l.g.BufSize() <= TWO64 && |img.cc| == |img.ids| == l.g.Count()
    && Fits(l.contentAt, l.g.SubbufSize()) && Fits(l.packetAt, l.g.SubbufSize())
    && (forall i | 0 <= i < |img.ids| :: IdIndex(l.overwrite, img.ids[i], l.g.w) < |img.table|)
    && (forall k | 0 <= k < |img.table| :: img.table[k] < |pages|)
    && (forall k | 0 <= k < |pages| :: |pages[k]| >= l.g.SubbufSize())
  }

  function PageOf(l: Layout, img: Image, i: nat): nat
    requires i < |img.ids| && IdIndex(l.overwrite, img.ids[i], l.g.w) < |img.table|
  {
    img.table[IdIndex(l.overwrite, img.ids[i], l.g.w)]
  }

  /** `v` written over the 8 bytes at `at`, if the field exists. */
  function Patch(page: seq<byte>, at: Option<nat>, order: ByteOrder, v: nat): (r: seq<byte>)
    requires Fits(at, |page|)
    ensures |r| == |page|
  {
    if at.None? then page else page[..at.value] + Encode(order, v, 8) + page[at.value + 8..]
  }

  function Patched(l: Layout, page: seq<byte>, committed: nat): (r: seq<byte>)
    requires Fits(l.contentAt, |page|) && Fits(l.packetAt, |page|)
    ensures |r| == |page|
  {
    Patch(Patch(page, l.contentAt, l.order, 8 * committed), l.packetAt, l.order, 8 * committed)
  }

  function PacketSize(l: Layout, page: seq<byte>): nat
    requires Fits(l.packetAt, |page|)
  {
    if l.packetAt.None? then l.g.SubbufSize()
    else Decode(l.order, page[l.packetAt.value..l.packetAt.value + 8]) / 8
  }

  function Head(page: seq<byte>, size: nat): seq<byte> {
    if size <= |page| then page[..size] else page
  }

  /** What is written out for a page of which `p` bytes are valid. */
  function Packet(l: Layout, page: seq<byte>, p: nat): seq<byte>
    requires |page| >= l.g.SubbufSize() && Fits(l.contentAt, l.g.SubbufSize()) && Fits(l.packetAt, l.g.SubbufSize())
  {
    if p == l.g.SubbufSize() then Head(page, PacketSize(l, page)) else Head(Patched(l, page, p), p)
  }

  predicate BeforeConsumed(l: Layout, img: Image, x: nat)
    requires l.g.SubbufSize() <= TWO64
  {
    Behind(Trunc(x, l.g.SubbufSize()), Trunc(img.consumed, l.g.SubbufSize()))
  }

  /** `copy_crash_subbuf`. */
  function CopySubbuf(l: Layout, img: Image, pages: Pages, x: nat): Copied
    requires Valid(l, img, pages) && l.g.SubbufSize() <= TWO64
    requires SubbufIndex(x, l.g.BufSize(), l.g.SubbufSize()) < l.g.Count()
  {
    var i := SubbufIndex(x, l.g.BufSize(), l.g.SubbufSize());
    if BeforeConsumed(l, img, x) then NoData else
      var committed := CommittedBytes(l.g, img.cc[i], x);
      if committed == 0 then NoData else
        var k := PageOf(l, img, i);
        Data(if committed == l.g.SubbufSize() then pages else pages[k := Patched(l, pages[k], committed)],
             Packet(l, pages[k], committed))
  }

  /** The loop of `copy_crash_data` from position `x` on. */
  function CopyFrom(l: Layout, img: Image, pages: Pages, x: nat): seq<byte>
    requires Valid(l, img, pages) && img.prod + l.g.SubbufSize() <= TWO64
    decreases img.prod - x
  {
    if x >= img.prod then [] else
      IndexInRange(l.g, x);
      PatchKeepsValid(l, img, pages, x);
      match CopySubbuf(l, img, pages, x)
      case NoData => []
      case Data(pages', bytes) => bytes + CopyFrom(l, img, pages', x + l.g.SubbufSize())
  }

  lemma IndexInRange(g: Geometry, x: nat)
    requires g.Valid() && x < TWO64
    ensures g.BufSize() <= TWO64 && SubbufIndex(x, g.BufSize(), g.SubbufSize()) < g.Count()
  {
    BufferSizes(g);
    MaskedParts(x, g.s + g.n, g.SubbufSize(), g.Count());
    hide Pow2, BitAnd, SubbufIndex;
    IndexBelow(x, g.BufSize(), g.SubbufSize(), g.Count());
  }

  lemma IndexBelow(x: nat, B: nat, S: nat, N: nat)
    requires B == S * N > 0 && S > 0 && N > 0
    ensures IndexIn(x, B, S) < N
  {
    var q := (x % B) / S;
    MulDistributes(S, q, N);
    MulAtLeast(S, q - N);
  }

  /** Patching changes no length. */
  lemma PatchKeepsValid(l: Layout, img: Image, pages: Pages, x: nat)
    requires Valid(l, img, pages) && l.g.SubbufSize() <= TWO64
    requires SubbufIndex(x, l.g.BufSize(), l.g.SubbufSize()) < l.g.Count()
    ensures var c := CopySubbuf(l, img, pages, x); c.Data? ==> Valid(l, img, c.pages)
  {
    hide SubbufIndex, CommittedBytes, Patched, Packet, BeforeConsumed, IdIndex;
  }

  /** The first sub-buffer has data, so something is copied. */
  predicate CopiesAny(l: Layout, img: Image, pages: Pages)
    requires Valid(l, img, pages) && img.prod + l.g.SubbufSize() <= TWO64
  {
    img.consumed < img.prod && (IndexInRange(l.g, img.consumed); CopySubbuf(l, img, pages, img.consumed).Data?)
  }

  // ---------------------------------------------------------------------
  // The extraction in place
  // ---------------------------------------------------------------------

  class Extraction {
    const l: Layout
    const img: Image
    var pages: Pages
    var output: seq<byte>

    constructor (layout: Layout, image: Image, content: Pages)
      ensures l == layout && img == image && pages == content && output == []
    {
      l, img, pages, output := layout, image, content, [];
    }

    /** Copies one sub-buffer, patching its header when it is not complete. */
    method CopyOne(x: nat) returns (ok: bool)
      requires Valid(l, img, pages) && l.g.SubbufSize() <= TWO64
      requires SubbufIndex(x, l.g.BufSize(), l.g.SubbufSize()) < l.g.Count()
      modifies this
      ensures var c := CopySubbuf(l, img, old(pages), x);
              if c.Data? then ok && pages == c.pages && output == old(output) + c.bytes
              else !ok && pages == old(pages) && output == old(output)
    {
      hide SubbufIndex, Trunc, Behind, IdIndex, FullyCommitted, Offset;
      var i := SubbufIndex(x, l.g.BufSize(), l.g.SubbufSize());
      if Behind(Trunc(x, l.g.SubbufSize()), Trunc(img.consumed, l.g.SubbufSize())) {
        return false;
      }
      var committed := l.g.SubbufSize();
      if !FullyCommitted(l.g, img.cc[i], x) {
        committed := Offset(img.cc[i], l.g.SubbufSize());
        if committed == 0 {
          return false;
        }
      }
      var k := img.table[IdIndex(l.overwrite, img.ids[i], l.g.w)];
      var size := committed;
      if committed == l.g.SubbufSize() {
        size := PacketSize(l, pages[k]);
      } else {
        var patched := pages[k];
        if l.contentAt.Some? {
          patched := Patch(patched, l.contentAt, l.order, 8 * committed);
        }
        if l.packetAt.Some? {
          patched := Patch(patched, l.packetAt, l.order, 8 * committed);
        }
        pages := pages[k := patched];
      }
      output := output + Head(pages[k], size);
      return true;
    }

    /** Returns whether anything was copied.  The position does not wrap at 2^64. */
    method CopyData() returns (hasData: bool)
      requires Valid(l, img, pages) && img.prod + l.g.SubbufSize() <= TWO64
      requires output == []
      modifies this
      ensures output == CopyFrom(l, img, old(pages), img.consumed)
      ensures hasData <==> CopiesAny(l, img, old(pages))
    {
      hide CopySubbuf, CopyFrom, SubbufIndex, Valid, CopiesAny;
      FirstDecides(l, img, pages);
      hasData := false;
      var x := img.consumed;
      while x < img.prod
        invariant Valid(l, img, pages)
        invariant if hasData then CopiesAny(l, img, old(pages)) else x == img.consumed && pages == old(pages)
        invariant output + CopyFrom(l, img, pages, x) == CopyFrom(l, img, old(pages), img.consumed)
        decreases img.prod - x
      {
        CopyFromStep(l, img, pages, x);
        ghost var before, c := output, CopySubbuf(l, img, pages, x);
        var ok := CopyOne(x);
        if !ok {
          return;
        }
        hasData := true;
        x := x + l.g.SubbufSize();
        Associate(before, c.bytes, CopyFrom(l, img, pages, x));
      }
      CopyFromEnd(l, img, pages, x);
    }
  }

  lemma Associate<T>(a: seq<T>, b: seq<T>, c: seq<T>)
    ensures a + (b + c) == (a + b) + c
  {
  }

  lemma FirstDecides(l: Layout, img: Image, pages: Pages)
    requires Valid(l, img, pages) && img.prod + l.g.SubbufSize() <= TWO64
    ensures img.consumed < img.prod ==> SubbufIndex(img.consumed, l.g.BufSize(), l.g.SubbufSize()) < l.g.Count()
    ensures CopiesAny(l, img, pages) <==> img.consumed < img.prod && CopySubbuf(l, img, pages, img.consumed).Data?
  {
    hide CopySubbuf, SubbufIndex, Valid;
    if img.consumed < img.prod { CopyFromStep(l, img, pages, img.consumed); }
  }

  lemma CopyFromStep(l: Layout, img: Image, pages: Pages, x: nat)
    requires Valid(l, img, pages) && img.prod + l.g.SubbufSize() <= TWO64 && x < img.prod
    ensures l.g.SubbufSize() <= TWO64 && SubbufIndex(x, l.g.BufSize(), l.g.SubbufSize()) < l.g.Count()
    ensures var c := CopySubbuf(l, img, pages, x); c.Data? ==> Valid(l, img, c.pages)
    ensures var c := CopySubbuf(l, img, pages, x);
            CopyFrom(l, img, pages, x) ==
            if c.NoData? then [] else c.bytes + CopyFrom(l, img, c.pages, x + l.g.SubbufSize())
  {
    IndexInRange(l.g, x);
    hide SubbufIndex, CopySubbuf;
    PatchKeepsValid(l, img, pages, x);
  }

  lemma CopyFromEnd(l: Layout, img: Image, pages: Pages, x: nat)
    requires Valid(l, img, pages) && img.prod + l.g.SubbufSize() <= TWO64 && x >= img.prod
    ensures CopyFrom(l, img, pages, x) == []
  {
  }

  // ---------------------------------------------------------------------
  // What is extracted, in terms of what was committed
  // ---------------------------------------------------------------------

  /** The image of a buffer whose positions went from `r` bytes into sub-buffer number
      `m` up to `end`; `committed[k]` bytes of sub-buffer `m + k` were committed. */
  ghost predicate Describes(l: Layout, img: Image, m: nat, r: nat, end: nat, committed: seq<nat>)
    requires l.g.Valid() && |img.cc| == l.g.Count()
  {
    var S, N, K := l.g.SubbufSize(), l.g.Count(), |committed|;
    && l.g.BufSize() < l.g.WordEnd() && r < S && K <= N
    && img.consumed == InWord(l.g, PositionOf(S, m, r)) && img.prod == InWord(l.g, end)
    && PositionOf(S, m, r) <= end <= PositionOf(S, m + K, r)
    && (forall k | 0 <= k < K :: SubbufDescribed(l, img, m, r, end, committed, k))
  }

  /** Sub-buffer `m + k` begins before the end, and its counter is the stored one. */
  ghost predicate SubbufDescribed(l: Layout, img: Image, m: nat, r: nat, end: nat, committed: seq<nat>, k: nat)
    requires l.g.Valid() && |img.cc| == l.g.Count() && k < |committed|
  {
    var S, N := l.g.SubbufSize(), l.g.Count();
    && PositionOf(S, m + k, r) < end && committed[k] <= S
    && img.cc[IndexOf(m + k, N)] == InWord(l.g, Counter(l.g, LapOf(m + k, N), committed[k]))
  }

  /** How many sub-buffers after number `m` the one with index `i` comes. */
  function Distance(i: nat, m: nat, count: nat): (k: nat)
    requires count > 0
    ensures k < count
  {
    Mod(i - m, count)
  }

  lemma DistanceOf(m: nat, k: nat, count: nat)
    requires k < count
    ensures Distance(IndexOf(m + k, count), m, count) == k
  {
    var i, q := (m + k) % count, (m + k) / count;
    assert i - m == count * (0 - q) + k by { MulDistributes(count, 0, q); }
    ModUnique(i - m, count, 0 - q, k);
  }

  /** The counters a history leaves behind. */
  ghost function CountersOf(g: Geometry, m: nat, committed: seq<nat>): seq<nat>
    requires g.Valid()
  {
    seq(g.Count(), i requires 0 <= i < g.Count() =>
      var k := Distance(i, m, g.Count());
      if k < |committed| then InWord(g, Counter(g, LapOf(m + k, g.Count()), committed[k])) else 0)
  }

  /** Every history of at most one lap is described by an image. */
  lemma HistoryHasImage(l: Layout, m: nat, r: nat, end: nat, committed: seq<nat>, ids: seq<nat>, table: seq<nat>)
    requires l.g.Valid() && l.g.BufSize() < l.g.WordEnd() && r < l.g.SubbufSize() && |committed| <= l.g.Count()
    requires PositionOf(l.g.SubbufSize(), m, r) <= end <= PositionOf(l.g.SubbufSize(), m + |committed|, r)
    requires forall k | 0 <= k < |committed| ::
               PositionOf(l.g.SubbufSize(), m + k, r) < end && committed[k] <= l.g.SubbufSize()
    ensures var img := Image(InWord(l.g, end), InWord(l.g, PositionOf(l.g.SubbufSize(), m, r)),
                             CountersOf(l.g, m, committed), ids, table);
            Describes(l, img, m, r, end, committed)
  {
    hide Pow2, PositionOf, InWord, Counter, LapOf, IndexOf, Distance;
    var S, N := l.g.SubbufSize(), l.g.Count();
    var img := Image(InWord(l.g, end), InWord(l.g, PositionOf(S, m, r)), CountersOf(l.g, m, committed), ids, table);
    forall k | 0 <= k < |committed|
      ensures SubbufDescribed(l, img, m, r, end, committed, k)
    {
      DistanceOf(m, k, N);
      assert committed[k] <= S;
    }
    hide SubbufDescribed, CountersOf;
  }

  /** No two sub-buffers share a page. */
  ghost predicate DistinctPages(l: Layout, img: Image, pages: Pages)
    requires Valid(l, img, pages)
  {
    forall i, j | 0 <= i < j < |img.ids| :: PageOf(l, img, i) != PageOf(l, img, j)
  }

  /** The valid parts of the sub-buffers in order, up to the first empty one. */
  ghost function ValidParts(l: Layout, img: Image, pages: Pages, m: nat, committed: seq<nat>, k: nat): seq<byte>
    requires Valid(l, img, pages)
    decreases |committed| - k
  {
    if k >= |committed| || committed[k] == 0 then []
    else Packet(l, pages[PageNumber(l, img, pages, m, k)], committed[k]) + ValidParts(l, img, pages, m, committed, k + 1)
  }

  /** The page of sub-buffer number `m + k`. */
  ghost function PageNumber(l: Layout, img: Image, pages: Pages, m: nat, k: nat): (q: nat)
    requires Valid(l, img, pages)
    ensures q < |pages|
  {
    PageOf(l, img, IndexOf(m + k, l.g.Count()))
  }

  /** The pages of sub-buffers `m + k` and on are as they were. */
  ghost predicate Untouched(l: Layout, img: Image, pages: Pages, pages': Pages, m: nat, k: nat, K: nat)
    requires Valid(l, img, pages) && |pages'| == |pages|
  {
    forall j | k <= j < K :: pages'[PageNumber(l, img, pages, m, j)] == pages[PageNumber(l, img, pages, m, j)]
  }

  /** Patching the page of one sub-buffer leaves the others of the window. */
  lemma PatchLeavesOthers(l: Layout, img: Image, pages: Pages, pages': Pages, m: nat, k: nat, K: nat, page: seq<byte>)
    requires Valid(l, img, pages) && DistinctPages(l, img, pages) && k < K <= l.g.Count() && |pages'| == |pages|
    requires Untouched(l, img, pages, pages', m, k, K)
    ensures Untouched(l, img, pages, pages'[PageNumber(l, img, pages, m, k) := page], m, k + 1, K)
  {
    hide IdIndex, IndexOf, Pow2;
    forall j | k + 1 <= j < K
      ensures PageNumber(l, img, pages, m, j) != PageNumber(l, img, pages, m, k)
    {
      IndexesDiffer(m + k, j - k, l.g.Count());
    }
  }

  lemma IndexesDiffer(m: nat, d: nat, count: nat)
    requires 0 < d < count
    ensures IndexOf(m + d, count) != IndexOf(m, count)
  {
    ModSame(m, d, count);
  }

  lemma SpanOf(S: nat, m: nat, k: nat, r: nat)
    ensures PositionOf(S, m + k, r) == PositionOf(S, m, r) + S * k
  {
    MulDistributes(S, m, k);
  }

  /** Within one lap of the buffer, a stored position follows the stored beginning
      as long as the word has not wrapped since. */
  lemma NoWrap(C: nat, T: nat, P: nat, W: nat)
    requires W > 0 && C <= T <= P < C + W
    ensures C % W <= P % W ==> T % W == C % W + (T - C)
    ensures C % W <= P % W <==> C / W == P / W
  {
    var q, r := C / W, C % W;
    assert C == W * q + r;
    if r + (P - C) < W {
      ModUnique(P, W, q, r + (P - C));
      ModUnique(T, W, q, r + (T - C));
    } else {
      MulDistributes(W, q, 1);
      ModUnique(P, W, q + 1, r + (P - C) - W);
    }
  }

  lemma HalfWord(g: Geometry)
    requires g.Valid() && g.BufSize() < g.WordEnd()
    ensures g.BufSize() <= TWO63
  {
    Pow2Strict(g.s + g.n, g.w);
    Pow2Monotone(g.s + g.n, 63);
    Pow2Values();
  }

  lemma TruncKeepsOrder(a: nat, b: nat, k: nat)
    requires k <= 64 && b <= a < TWO64 && a - b + Pow2(k) <= TWO63
    ensures Pow2(k) <= TWO64 && !Behind(Trunc(a, Pow2(k)), Trunc(b, Pow2(k)))
  {
    MasksAreModulo(a, k);
    MasksAreModulo(b, k);
    hide Pow2, BitAnd, Trunc, Behind;
    RoundedOrder(a, b, Pow2(k), Trunc(a, Pow2(k)), Trunc(b, Pow2(k)));
  }

  /** A sub-buffer before the one being consumed gives nothing, whatever its counter says. */
  lemma ConsumedIsSkipped(l: Layout, img: Image, pages: Pages, x: nat)
    requires Valid(l, img, pages) && l.g.SubbufSize() <= TWO64
    requires SubbufIndex(x, l.g.BufSize(), l.g.SubbufSize()) < l.g.Count()
    requires x < img.consumed < TWO64 && img.consumed - x <= TWO63 - l.g.SubbufSize()
    requires x / l.g.SubbufSize() < img.consumed / l.g.SubbufSize()
    ensures CopySubbuf(l, img, pages, x) == NoData
  {
    MasksAreModulo(x, l.g.s);
    MasksAreModulo(img.consumed, l.g.s);
    hide Valid, SubbufIndex, CommittedBytes, Patched, Packet, IdIndex, Pow2, BitAnd, Trunc, Behind;
    var d := l.g.SubbufSize();
    RoundedBefore(x, img.consumed, d, Trunc(x, d), Trunc(img.consumed, d));
  }

  lemma RoundedBefore(a: nat, b: nat, d: nat, a': nat, b': nat)
    requires d > 0 && b - a + d <= TWO63 && a' == a - a % d && b' == b - b % d && a / d < b / d && b < TWO64
    ensures Behind(a', b')
  {
    var p, q := a / d, b / d;
    assert a' == d * p && b' == d * q;
    MulDistributes(d, q, p);
    MulAtLeast(d, q - p);
    assert 0 < b' - a' <= TWO63;
    LessIsBehind(a', b');
  }

  lemma LessIsBehind(a: nat, b: nat)
    requires a < b < TWO64 && b - a <= TWO63
    ensures Behind(a, b)
  {
  }

  lemma RoundedOrder(a: nat, b: nat, d: nat, a': nat, b': nat)
    requires d > 0 && b <= a && a - b + d <= TWO63 && a' == a - a % d && b' == b - b % d
    ensures !Behind(a', b')
  {
    var p, q := a / d, b / d;
    assert a' == d * p && b' == d * q;
    MulDistributes(d, p, q);
    MulAtLeast(d, p - q);
    SmallIsNotBehind(a', b');
  }

  lemma SmallIsNotBehind(a: nat, b: nat)
    requires b <= a < b + TWO63
    ensures !Behind(a, b)
  {
  }

  /** The window is within one lap, and less than half the 64-bit range. */
  lemma WindowSize(l: Layout, img: Image, m: nat, r: nat, end: nat, committed: seq<nat>, k: nat)
    requires l.g.Valid() && |img.cc| == l.g.Count() && Describes(l, img, m, r, end, committed) && k <= |committed|
    ensures var S, C := l.g.SubbufSize(), PositionOf(l.g.SubbufSize(), m, r);
            && C <= PositionOf(S, m + k, r) <= C + l.g.BufSize() && end < C + l.g.WordEnd()
            && (k < |committed| ==> PositionOf(S, m + k, r) + S <= C + l.g.BufSize() <= C + TWO63)
  {
    HalfWord(l.g);
    BufferSizes(l.g);
    hide Pow2, InWord, Counter, LapOf, IndexOf;
    var S, N := l.g.SubbufSize(), l.g.Count();
    SpanOf(S, m, k, r);
    SpanOf(S, m, |committed|, r);
    hide PositionOf;
    Multiples(S, k, |committed|, N);
  }

  lemma Multiples(S: nat, k: nat, K: nat, N: nat)
    requires k <= K <= N
    ensures 0 <= S * k <= S * K <= S * N && (k < K ==> S * k + S <= S * N)
  {
    MulMonotone(S, k, K);
    MulMonotone(S, K, N);
    if k < K {
      MulMonotone(S, k + 1, N);
      MulDistributes(S, k, 1);
    }
  }

  /** At the position of the `k`th sub-buffer, the extractor finds what was committed. */
  lemma SubbufAt(l: Layout, img: Image, m: nat, r: nat, end: nat, committed: seq<nat>, k: nat, x: nat)
    requires l.g.Valid() && |img.cc| == l.g.Count() && Describes(l, img, m, r, end, committed) && k < |committed|
    requires img.consumed <= img.prod
    requires x + PositionOf(l.g.SubbufSize(), m, r) == img.consumed + PositionOf(l.g.SubbufSize(), m + k, r)
    ensures l.g.BufSize() <= TWO64 && l.g.SubbufSize() <= TWO64 && x < img.prod
    ensures SubbufIndex(x, l.g.BufSize(), l.g.SubbufSize()) == IndexOf(m + k, l.g.Count())
    ensures !BeforeConsumed(l, img, x)
    ensures CommittedBytes(l.g, img.cc[IndexOf(m + k, l.g.Count())], x) == committed[k]
  {
    hide Counter, LapOf, IndexOf, PositionOf, SubbufIndex, CommittedBytes, InWord;
    StoredAt(l, img, m, r, end, committed, k, x);
    assert SubbufDescribed(l, img, m, r, end, committed, k);
    CommittedAt(l.g, m + k, r, committed[k]);
    hide Geometry.BufSize, Geometry.WordEnd, Geometry.Count, Trunc;
    TruncKeepsOrder(x, img.consumed, l.g.s);
  }

  /** The loop variable is the stored position of the `k`th sub-buffer. */
  lemma StoredAt(l: Layout, img: Image, m: nat, r: nat, end: nat, committed: seq<nat>, k: nat, x: nat)
    requires l.g.Valid() && |img.cc| == l.g.Count() && Describes(l, img, m, r, end, committed) && k < |committed|
    requires img.consumed <= img.prod
    requires x + PositionOf(l.g.SubbufSize(), m, r) == img.consumed + PositionOf(l.g.SubbufSize(), m + k, r)
    ensures x == InWord(l.g, PositionOf(l.g.SubbufSize(), m + k, r)) && img.consumed <= x < img.prod
    ensures x - img.consumed + l.g.SubbufSize() <= TWO63
  {
    hide Counter, LapOf, IndexOf, PositionOf, Pow2;
    var S, W := l.g.SubbufSize(), l.g.WordEnd();
    var C, T := PositionOf(S, m, r), PositionOf(S, m + k, r);
    WindowSize(l, img, m, r, end, committed, k);
    assert SubbufDescribed(l, img, m, r, end, committed, k);
    NoWrap(C, T, end, W);
    NoWrap(C, end, end, W);
  }

  /** From the `k`th sub-buffer on, the loop copies the valid parts. */
  lemma {:induction false} CopyFromIs(l: Layout, img: Image, pages: Pages, pages': Pages, m: nat, r: nat, end: nat,
                                      committed: seq<nat>, k: nat, x: nat)
    requires Valid(l, img, pages) && Valid(l, img, pages') && DistinctPages(l, img, pages)
    requires img.prod + l.g.SubbufSize() <= TWO64 && Describes(l, img, m, r, end, committed) && k <= |committed|
    requires img.consumed <= img.prod
    requires x + PositionOf(l.g.SubbufSize(), m, r) == img.consumed + PositionOf(l.g.SubbufSize(), m + k, r)
    requires |pages'| == |pages| && Untouched(l, img, pages, pages', m, k, |committed|)
    ensures CopyFrom(l, img, pages', x) == ValidParts(l, img, pages, m, committed, k)
    decreases |committed| - k
  {
    hide DistinctPages, Untouched, Pow2, Trunc, SubbufIndex, BeforeConsumed, CommittedBytes;
    hide Packet, Patched, PositionOf, CopyFrom, IdIndex;
    if k == |committed| {
      AtEnd(l, img, m, r, end, committed, x);
      CopyFromEnd(l, img, pages', x);
    } else {
      SubbufAt(l, img, m, r, end, committed, k, x);
      CopyFromStep(l, img, pages', x);
      CopiedAt(l, img, pages, pages', m, committed, k, x);
      NextPosition(l.g.SubbufSize(), m + k, r);
      hide CopySubbuf, Valid;
      if committed[k] != 0 {
        var c := CopySubbuf(l, img, pages', x);
        CopyFromIs(l, img, pages, c.pages, m, r, end, committed, k + 1, x + l.g.SubbufSize());
      }
    }
  }

  /** One iteration, given what the extractor finds. */
  lemma CopiedAt(l: Layout, img: Image, pages: Pages, pages': Pages, m: nat, committed: seq<nat>, k: nat, x: nat)
    requires Valid(l, img, pages) && Valid(l, img, pages') && DistinctPages(l, img, pages) && l.g.SubbufSize() <= TWO64
    requires k < |committed| <= l.g.Count() && |pages'| == |pages| && Untouched(l, img, pages, pages', m, k, |committed|)
    requires SubbufIndex(x, l.g.BufSize(), l.g.SubbufSize()) == IndexOf(m + k, l.g.Count()) && !BeforeConsumed(l, img, x)
    requires CommittedBytes(l.g, img.cc[IndexOf(m + k, l.g.Count())], x) == committed[k]
    ensures var c := CopySubbuf(l, img, pages', x);
            && (c.NoData? <==> committed[k] == 0)
            && (c.Data? ==> && c.bytes == Packet(l, pages[PageNumber(l, img, pages, m, k)], committed[k])
                            && |c.pages| == |pages| && Untouched(l, img, pages, c.pages, m, k + 1, |committed|))
  {
    hide Pow2, SubbufIndex, BeforeConsumed, CommittedBytes, Packet, Patched, IdIndex, IndexOf, DistinctPages;
    assert pages'[PageNumber(l, img, pages, m, k)] == pages[PageNumber(l, img, pages, m, k)];
    var c := CopySubbuf(l, img, pages', x);
    if c.Data? {
      var q := PageNumber(l, img, pages, m, k);
      PatchLeavesOthers(l, img, pages, pages', m, k, |committed|, c.pages[q]);
      assert c.pages == pages'[q := c.pages[q]];
    }
  }

  lemma AtEnd(l: Layout, img: Image, m: nat, r: nat, end: nat, committed: seq<nat>, x: nat)
    requires l.g.Valid() && |img.cc| == l.g.Count() && Describes(l, img, m, r, end, committed)
    requires img.consumed <= img.prod
    requires x + PositionOf(l.g.SubbufSize(), m, r) == img.consumed + PositionOf(l.g.SubbufSize(), m + |committed|, r)
    ensures x >= img.prod
  {
    var C := PositionOf(l.g.SubbufSize(), m, r);
    WindowSize(l, img, m, r, end, committed, |committed|);
    NoWrap(C, end, end, l.g.WordEnd());
    hide PositionOf, Counter, Pow2;
  }

  // ---------------------------------------------------------------------
  // The bytes extracted
  // ---------------------------------------------------------------------

  /** Byte `i` is in the 8-byte field at `at`. */
  predicate InField(at: Option<nat>, i: nat) {
    at.Some? && at.value <= i < at.value + 8
  }

  /** What a sub-buffer contributes, `p` bytes of it being committed.  If it is complete,
      the bytes that its header announces, or all of it if the header does not say.  If not,
      exactly the bytes committed, with `8 * p` in the size fields of the header. */
  ghost predicate IsPart(l: Layout, page: seq<byte>, p: nat, bytes: seq<byte>)
    requires Fits(l.packetAt, |page|) && p <= l.g.SubbufSize() <= |page|
  {
    var size := l.g.SubbufSize();
    if p == size then
      var announced := if l.packetAt.None? then size
                       else Decode(l.order, page[l.packetAt.value..l.packetAt.value + 8]) / 8;
      && |bytes| == (if announced <= |page| then announced else |page|)
      && forall i | 0 <= i < |bytes| :: bytes[i] == page[i]
    else
      && |bytes| == p
      && forall i | 0 <= i < p ::
           bytes[i] == if InField(l.packetAt, i) then Encode(l.order, 8 * p, 8)[i - l.packetAt.value]
                       else if InField(l.contentAt, i) then Encode(l.order, 8 * p, 8)[i - l.contentAt.value]
                       else page[i]
  }

  lemma PacketIsPart(l: Layout, page: seq<byte>, p: nat)
    requires |page| >= l.g.SubbufSize() && Fits(l.contentAt, l.g.SubbufSize()) && Fits(l.packetAt, l.g.SubbufSize())
    requires p <= l.g.SubbufSize()
    ensures IsPart(l, page, p, Packet(l, page, p))
  {
    hide Encode, Decode, Geometry.SubbufSize;
    if p != l.g.SubbufSize() {
      forall i | 0 <= i < p
        ensures Packet(l, page, p)[i] ==
                if InField(l.packetAt, i) then Encode(l.order, 8 * p, 8)[i - l.packetAt.value]
                else if InField(l.contentAt, i) then Encode(l.order, 8 * p, 8)[i - l.contentAt.value]
                else page[i]
      {
        PatchedByte(page, l.contentAt, l.order, 8 * p, i);
        PatchedByte(Patch(page, l.contentAt, l.order, 8 * p), l.packetAt, l.order, 8 * p, i);
        hide Patch;
      }
    }
  }

  lemma PatchedByte(page: seq<byte>, at: Option<nat>, order: ByteOrder, v: nat, i: nat)
    requires Fits(at, |page|) && i < |page|
    ensures Patch(page, at, order, v)[i] == if InField(at, i) then Encode(order, v, 8)[i - at.value] else page[i]
  {
    hide Encode;
  }

  /** The parts one after the other. */
  ghost function Joined(parts: seq<seq<byte>>): seq<byte> {
    if parts == [] then [] else parts[0] + Joined(parts[1..])
  }

  /** The page of sub-buffer `m + k`: its identifier, in overwrite mode the low half of the
      word, looked up in the table. */
  ghost function PageFor(l: Layout, img: Image, m: nat, k: nat): nat
    requires l.g.Valid() && |img.ids| == l.g.Count()
  {
    var id := img.ids[(m + k) % l.g.Count()];
    var index := if l.overwrite then id % Pow2(l.g.w / 2) else id;
    if index < |img.table| then img.table[index] else 0
  }

  lemma PageIs(l: Layout, img: Image, pages: Pages, m: nat, k: nat)
    requires Valid(l, img, pages)
    ensures PageFor(l, img, m, k) == PageNumber(l, img, pages, m, k)
  {
    var id := img.ids[(m + k) % l.g.Count()];
    IdIndexIsModulo(id, l.g.w);
    hide IdIndex, Pow2;
    assert IdIndex(l.overwrite, id, l.g.w) < |img.table|;
  }

  /** `bytes` is the part of sub-buffer `m + k`, in which something was committed. */
  ghost predicate IsPartOf(l: Layout, img: Image, pages: Pages, m: nat, committed: seq<nat>, k: nat, bytes: seq<byte>)
    requires l.g.Valid() && |img.ids| == l.g.Count() && k < |committed|
  {
    var q := PageFor(l, img, m, k);
    && 0 < committed[k] <= l.g.SubbufSize() && q < |pages| && l.g.SubbufSize() <= |pages[q]| && Fits(l.packetAt, |pages[q]|)
    && IsPart(l, pages[q], committed[k], bytes)
  }

  /** The parts that `ValidParts` puts together. */
  lemma {:induction false} PartsOf(l: Layout, img: Image, pages: Pages, m: nat, committed: seq<nat>, k: nat)
    returns (parts: seq<seq<byte>>)
    requires Valid(l, img, pages) && k <= |committed| && forall j | 0 <= j < |committed| :: committed[j] <= l.g.SubbufSize()
    ensures ValidParts(l, img, pages, m, committed, k) == Joined(parts) && k + |parts| <= |committed|
    ensures k + |parts| < |committed| ==> committed[k + |parts|] == 0
    ensures forall j | 0 <= j < |parts| :: IsPartOf(l, img, pages, m, committed, k + j, parts[j])
    decreases |committed| - k
  {
    hide IsPart, PageFor, Packet, PageNumber, Pow2;
    if k == |committed| || committed[k] == 0 {
      parts := [];
    } else {
      var rest := PartsOf(l, img, pages, m, committed, k + 1);
      PageIs(l, img, pages, m, k);
      var page := pages[PageNumber(l, img, pages, m, k)];
      PacketIsPart(l, page, committed[k]);
      parts := [Packet(l, page, committed[k])] + rest;
      assert parts[1..] == rest;
      assert IsPartOf(l, img, pages, m, committed, k, parts[0]);
      hide Valid, IsPartOf;
      forall j | 0 <= j < |parts|
        ensures IsPartOf(l, img, pages, m, committed, k + j, parts[j])
      {
        if j > 0 {
          assert IsPartOf(l, img, pages, m, committed, k + 1 + (j - 1), rest[j - 1]);
          assert k + j == k + 1 + (j - 1);
        }
      }
    }
  }

  /** The extraction is one part for each sub-buffer with something committed, in order, up
      to the first empty one, exactly when the stored positions have not wrapped between the
      consumer and the producer; otherwise nothing is extracted.  Data is reported exactly
      when there is a part. */
  lemma Extracted(l: Layout, img: Image, pages: Pages, m: nat, r: nat, end: nat, committed: seq<nat>)
    returns (parts: seq<seq<byte>>)
    requires Valid(l, img, pages) && DistinctPages(l, img, pages) && img.prod + l.g.SubbufSize() <= TWO64
    requires Describes(l, img, m, r, end, committed)
    ensures var wraps := (l.g.SubbufSize() * m + r) / l.g.WordEnd() != end / l.g.WordEnd();
            && CopyFrom(l, img, pages, img.consumed) == (if wraps then [] else Joined(parts))
            && (CopiesAny(l, img, pages) <==> !wraps && parts != [])
    ensures |parts| <= |committed| && (|parts| < |committed| ==> committed[|parts|] == 0)
    ensures forall k | 0 <= k < |parts| :: IsPartOf(l, img, pages, m, committed, k, parts[k])
  {
    hide Describes, DistinctPages, IsPart, PageFor, CopyFrom, CopiesAny, ValidParts, Joined;
    CommittedFit(l, img, m, r, end, committed);
    CopiedParts(l, img, pages, m, r, end, committed);
    FirstCopied(l, img, pages, m, r, end, committed);
    parts := PartsOf(l, img, pages, m, committed, 0);
    SomePart(l, img, pages, m, committed, parts);
    hide Valid, IsPartOf, Geometry.SubbufSize, Geometry.WordEnd;
  }

  lemma SomePart(l: Layout, img: Image, pages: Pages, m: nat, committed: seq<nat>, parts: seq<seq<byte>>)
    requires l.g.Valid() && |img.ids| == l.g.Count() && |parts| <= |committed|
    requires |parts| < |committed| ==> committed[|parts|] == 0
    requires forall k | 0 <= k < |parts| :: IsPartOf(l, img, pages, m, committed, k, parts[k])
    ensures parts != [] <==> committed != [] && committed[0] > 0
  {
    hide IsPart, PageFor;
    if parts != [] { assert IsPartOf(l, img, pages, m, committed, 0, parts[0]); }
  }

  lemma CommittedFit(l: Layout, img: Image, m: nat, r: nat, end: nat, committed: seq<nat>)
    requires l.g.Valid() && |img.cc| == l.g.Count() && Describes(l, img, m, r, end, committed)
    ensures forall j | 0 <= j < |committed| :: committed[j] <= l.g.SubbufSize()
  {
    forall j | 0 <= j < |committed|
      ensures committed[j] <= l.g.SubbufSize()
    {
      assert SubbufDescribed(l, img, m, r, end, committed, j);
    }
  }

  /** The first sub-buffer is copied exactly when something was committed there. */
  lemma FirstCopied(l: Layout, img: Image, pages: Pages, m: nat, r: nat, end: nat, committed: seq<nat>)
    requires Valid(l, img, pages) && DistinctPages(l, img, pages) && img.prod + l.g.SubbufSize() <= TWO64
    requires Describes(l, img, m, r, end, committed)
    ensures CopiesAny(l, img, pages) <==>
            && PositionOf(l.g.SubbufSize(), m, r) / l.g.WordEnd() == end / l.g.WordEnd()
            && committed != [] && committed[0] > 0
  {
    WindowSize(l, img, m, r, end, committed, 0);
    NoWrap(PositionOf(l.g.SubbufSize(), m, r), end, end, l.g.WordEnd());
    assert img.consumed <= img.prod <==> PositionOf(l.g.SubbufSize(), m, r) / l.g.WordEnd() == end / l.g.WordEnd();
    FirstDecides(l, img, pages);
    hide PositionOf, Geometry.WordEnd, Geometry.SubbufSize, CopiesAny, CopySubbuf, Pow2, SubbufIndex, CommittedBytes;
    hide Untouched, IdIndex;
    if img.consumed <= img.prod {
      if committed == [] {
        AtEnd(l, img, m, r, end, committed, img.consumed);
      } else {
        SubbufAt(l, img, m, r, end, committed, 0, img.consumed);
        SamePages(l, img, pages, m, |committed|);
        CopiedAt(l, img, pages, pages, m, committed, 0, img.consumed);
      }
    }
  }

  lemma SamePages(l: Layout, img: Image, pages: Pages, m: nat, K: nat)
    requires Valid(l, img, pages)
    ensures Untouched(l, img, pages, pages, m, 0, K)
  {
  }

  lemma CopiedParts(l: Layout, img: Image, pages: Pages, m: nat, r: nat, end: nat, committed: seq<nat>)
    requires Valid(l, img, pages) && DistinctPages(l, img, pages) && img.prod + l.g.SubbufSize() <= TWO64
    requires Describes(l, img, m, r, end, committed)
    ensures CopyFrom(l, img, pages, img.consumed) ==
            if PositionOf(l.g.SubbufSize(), m, r) / l.g.WordEnd() == end / l.g.WordEnd()
            then ValidParts(l, img, pages, m, committed, 0) else []
  {
    WindowSize(l, img, m, r, end, committed, 0);
    NoWrap(PositionOf(l.g.SubbufSize(), m, r), end, end, l.g.WordEnd());
    assert img.consumed <= img.prod <==> PositionOf(l.g.SubbufSize(), m, r) / l.g.WordEnd() == end / l.g.WordEnd();
    hide PositionOf, Geometry.WordEnd, Geometry.SubbufSize, Describes;
    if img.consumed <= img.prod {
      CopyFromIs(l, img, pages, pages, m, r, end, committed, 0, img.consumed);
    } else {
      CopyFromEnd(l, img, pages, img.consumed);
    }
  }

  /** A 32-bit program with two sub-buffers of 16 bytes whose positions wrap. */
  const WRAPPED_LAYOUT := Layout(Geometry(4, 1, 32), false, LittleEndian, None, None)

  lemma WrappedSizes()
    ensures var g := WRAPPED_LAYOUT.g;
            && g.Valid() && g.SubbufSize() == 16 && g.Count() == 2 && g.BufSize() == 32 && g.WordEnd() == TWO32
  {
    Pow2Values();
    assert Pow2(1) == 2 && Pow2(4) == 16 && Pow2(5) == 32;
  }

  /** Both sub-buffers are full, one on each side of the wrap, and nothing is extracted. */
  lemma WrappedBuffer(pages: Pages) returns (img: Image, m: nat)
    requires |pages| == 2 && |pages[0]| == |pages[1]| == 16
    ensures var l := WRAPPED_LAYOUT;
            && Valid(l, img, pages) && img.prod + l.g.SubbufSize() <= TWO64
            && Describes(l, img, m, 0, 16 * (m + 2), [16, 16])
            && CopyFrom(l, img, pages, img.consumed) == []
            && |ValidParts(l, img, pages, m, [16, 16], 0)| >= 16
  {
    WrappedSizes();
    hide Pow2;
    var l := WRAPPED_LAYOUT;
    m := TWO32 / 16 - 1;
    img := Image(InWord(l.g, 16 * (m + 2)), InWord(l.g, 16 * m), CountersOf(l.g, m, [16, 16]), [0, 1], [0, 1]);
    assert IdIndex(false, 0, 32) == 0 && IdIndex(false, 1, 32) == 1;
    assert PositionOf(16, m, 0) == 16 * m && PositionOf(16, m + 1, 0) == 16 * m + 16;
    assert PositionOf(16, m + 2, 0) == 16 * m + 32 == 16 * (m + 2);
    var committed := [16, 16];
    forall k | 0 <= k < |committed|
      ensures PositionOf(16, m + k, 0) < 16 * (m + 2) && committed[k] <= 16
    {
      assert k == 0 || k == 1;
    }
    HistoryHasImage(l, m, 0, 16 * (m + 2), [16, 16], [0, 1], [0, 1]);
    assert Valid(l, img, pages);
    hide CountersOf, Describes;
    assert InWord(l.g, 16 * (m + 2)) == 16 && InWord(l.g, 16 * m) == TWO32 - 16;
    CopyFromEnd(l, img, pages, img.consumed);
    assert |Packet(l, pages[PageNumber(l, img, pages, m, 0)], 16)| == 16;
  }

  /** The 8-byte fields do not overlap. */
  predicate Apart(a: nat, other: Option<nat>) {
    other.None? || other.value >= a + 8 || a >= other.value + 8
  }

  /** The header of an incomplete packet announces what was committed: the packet size
      always, the content size unless the packet size is written over it. */
  lemma PatchedHeader(l: Layout, page: seq<byte>, p: nat)
    requires Fits(l.contentAt, |page|) && Fits(l.packetAt, |page|) && 8 * p < TWO64
    ensures l.packetAt.Some? ==> PacketSize(l, Patched(l, page, p)) == p
    ensures l.contentAt.Some? && Apart(l.contentAt.value, l.packetAt) ==>
              Decode(l.order, Patched(l, page, p)[l.contentAt.value..l.contentAt.value + 8]) == 8 * p
  {
    hide Encode, Decode;
    Bounds();
    DecodeEncode(l.order, 8 * p, 8);
    var page', e := Patch(page, l.contentAt, l.order, 8 * p), Encode(l.order, 8 * p, 8);
    var patched := Patched(l, page, p);
    if l.packetAt.Some? {
      assert patched[l.packetAt.value..l.packetAt.value + 8] == e;
    }
    if l.contentAt.Some? {
      var a := l.contentAt.value;
      assert page'[a..a + 8] == e;
      if Apart(a, l.packetAt) {
        assert patched[a..a + 8] == page'[a..a + 8];
      }
    }
  }
}
