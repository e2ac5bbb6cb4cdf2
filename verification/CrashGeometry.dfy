/**
 Ring-buffer arithmetic of `src/bin/lttng-crash/lttng-crash.c`: from stored, wrapped
 counters to how many bytes of a sub-buffer are valid.

 A buffer has `2^n` sub-buffers of `2^s` bytes, and the traced program counts in words
 of `w` bits.  The extractor itself computes on 64 bits.  Positions and commit counters
 only grow; what is stored is their value modulo `2^w`.
 */
module CrashGeometry {
  import opened MachineInt

  datatype Geometry = Geometry(s: nat, n: nat, w: nat) {
    /** 4- or 8-byte words, and a buffer that a word can index. */
    predicate Valid() { (w == 32 || w == 64) && s + n <= w }

    function SubbufSize(): (r: nat) ensures r > 0 { Pow2(s) }

    function Count(): (r: nat) ensures r > 0 { Pow2(n) }

    function BufSize(): (r: nat) ensures r > 0 { Pow2(s + n) }

    /** One more than the largest word. */
    function WordEnd(): (r: nat) ensures r > 0 { Pow2(w) }
  }

  /** `x & ~(size - 1)` on 64 bits. */
  function Trunc(x: nat, size: nat): nat
    requires size <= TWO64
  {
    BitAnd(x, TWO64 - size)
  }

  /** `x & (size - 1)`. */
  function Offset(x: nat, size: nat): nat
    requires size > 0
  {
    BitAnd(x, size - 1)
  }

  function SubbufIndex(x: nat, bufSize: nat, subbufSize: nat): nat
    requires bufSize > 0 && subbufSize > 0
  {
    Offset(x, bufSize) / subbufSize
  }

  /** `subbuffer_id_get_index`: in overwrite mode the low half of the word. */
  function IdIndex(overwrite: bool, id: nat, wordBits: nat): nat {
    if overwrite then BitAnd(id, Pow2(wordBits / 2) - 1) else id
  }

  function CommitCountMask(wordEnd: nat, count: nat): nat
    requires wordEnd > 0 && count > 0
  {
    (wordEnd - 1) / count
  }

  /** The start of the buffer's lap, per sub-buffer. */
  function LapPart(x: nat, bufSize: nat, count: nat): nat
    requires bufSize <= TWO64 && count > 0
  {
    Trunc(x, bufSize) / count
  }

  predicate FullyCommitted(g: Geometry, seqCc: nat, offset: nat)
    requires g.BufSize() <= TWO64
  {
    Sub64(BitAnd(Sub64(seqCc, g.SubbufSize()), CommitCountMask(g.WordEnd(), g.Count())),
          LapPart(offset, g.BufSize(), g.Count())) == 0
  }

  /** How many bytes of the sub-buffer at `offset` are taken as valid; 0 is no data. */
  function CommittedBytes(g: Geometry, seqCc: nat, offset: nat): nat
    requires g.BufSize() <= TWO64
  {
    if FullyCommitted(g, seqCc, offset) then g.SubbufSize() else Offset(seqCc, g.SubbufSize())
  }

  // ---------------------------------------------------------------------
  // What the masks compute
  // ---------------------------------------------------------------------

  lemma MasksAreModulo(x: nat, k: nat)
    requires k <= 64 && x < TWO64
    ensures Pow2(k) <= TWO64 && Trunc(x, Pow2(k)) == x - x % Pow2(k) && Offset(x, Pow2(k)) == x % Pow2(k)
  {
    hide BitAnd;
    Pow2Values();
    hide Pow2;
    AndLowMask(x, k);
    AndHighMask(x, k, 64);
  }

  lemma IdIndexIsModulo(id: nat, wordBits: nat)
    ensures IdIndex(true, id, wordBits) == id % Pow2(wordBits / 2) && IdIndex(false, id, wordBits) == id
  {
    AndLowMask(id, wordBits / 2);
  }

  /** A word holds `R` buffers. */
  lemma BufferSizes(g: Geometry)
    requires g.Valid()
    ensures g.BufSize() == g.SubbufSize() * g.Count()
    ensures g.WordEnd() == g.BufSize() * Pow2(g.w - g.s - g.n)
    ensures g.BufSize() <= TWO64 && g.WordEnd() <= TWO64
  {
    hide Pow2;
    WordFits(g);
    Pow2Sum(g.s, g.n, g.s + g.n);
    Pow2Sum(g.s + g.n, g.w - g.s - g.n, g.w);
  }

  lemma WordFits(g: Geometry)
    requires g.Valid()
    ensures g.BufSize() <= TWO64 && g.WordEnd() <= TWO64
  {
    Pow2Values();
    Pow2Monotone(g.s + g.n, 64);
    Pow2Monotone(g.w, 64);
  }

  /** The commit counter is compared modulo `Q`, the word divided by the number of sub-buffers. */
  lemma QuotientSizes(g: Geometry)
    requires g.Valid()
    ensures g.WordEnd() == Pow2(g.w - g.n) * g.Count()
    ensures Pow2(g.w - g.n) == g.SubbufSize() * Pow2(g.w - g.s - g.n)
  {
    hide Pow2;
    Pow2Sum(g.w - g.n, g.n, g.w);
    Pow2Sum(g.s, g.w - g.s - g.n, g.w - g.n);
  }

  lemma WordDivides(g: Geometry)
    requires g.Valid()
    ensures TWO64 == g.WordEnd() * Pow2(64 - g.w)
  {
    hide Pow2;
    Pow2Values();
    Pow2Sum(g.w, 64 - g.w, 64);
  }

  /** The position `r` bytes into sub-buffer `i` of lap `lap`. */
  function Position(g: Geometry, lap: nat, i: nat, r: nat): nat {
    g.BufSize() * lap + (g.SubbufSize() * i + r)
  }

  /** The commit counter of a sub-buffer, `p` bytes into lap `lap`. */
  function Counter(g: Geometry, lap: nat, p: nat): nat {
    g.SubbufSize() * lap + p
  }

  /** How the traced program stores a position or a counter. */
  function InWord(g: Geometry, x: nat): (r: nat)
    ensures r < g.WordEnd()
  {
    Mod(x, g.WordEnd())
  }

  /** A commit counter as the extractor compares it. */
  function Residue(g: Geometry, x: int): (r: nat)
    requires g.Valid()
    ensures r < Pow2(g.w - g.n)
  {
    Mod(x, Pow2(g.w - g.n))
  }

  /** What the extractor makes of the lap of a position. */
  function LapStart(g: Geometry, lap: nat): nat
    requires g.Valid()
  {
    g.SubbufSize() * Mod(lap, Pow2(g.w - g.s - g.n))
  }

  /** A stored position leads to its sub-buffer and to its lap. */
  lemma StoredPosition(g: Geometry, lap: nat, i: nat, r: nat)
    requires g.Valid() && i < g.Count() && r < g.SubbufSize()
    ensures var x := InWord(g, Position(g, lap, i, r));
            && g.BufSize() <= TWO64 && x < TWO64
            && SubbufIndex(x, g.BufSize(), g.SubbufSize()) == i
            && LapPart(x, g.BufSize(), g.Count()) == LapStart(g, lap)
  {
    WordFits(g);
    hide BitAnd, Position, InWord, LapStart, IndexIn, LapIn, SubbufIndex, LapPart;
    hide Geometry.WordEnd, Geometry.SubbufSize, Geometry.Count;
    PositionIs(g, lap, i, r);
    MaskedParts(InWord(g, Position(g, lap, i, r)), g.s + g.n, g.SubbufSize(), g.Count());
    hide Pow2;
  }

  /** The sub-buffer of `x` in a buffer of `B` bytes, by division. */
  function IndexIn(x: nat, B: nat, S: nat): nat
    requires B > 0 && S > 0
  {
    (x % B) / S
  }

  /** The laps before `x`, scaled by the size of a sub-buffer. */
  function LapIn(x: nat, B: nat, N: nat): nat
    requires B > 0 && N > 0
  {
    (x - x % B) / N
  }

  lemma MaskedParts(x: nat, k: nat, S: nat, N: nat)
    requires k <= 64 && x < TWO64 && S > 0 && N > 0
    ensures Pow2(k) <= TWO64 && SubbufIndex(x, Pow2(k), S) == IndexIn(x, Pow2(k), S)
    ensures LapPart(x, Pow2(k), N) == LapIn(x, Pow2(k), N)
  {
    hide BitAnd;
    MasksAreModulo(x, k);
    hide Pow2;
  }

  lemma PositionIs(g: Geometry, lap: nat, i: nat, r: nat)
    requires g.Valid() && i < g.Count() && r < g.SubbufSize()
    ensures IndexIn(InWord(g, Position(g, lap, i, r)), g.BufSize(), g.SubbufSize()) == i
    ensures LapIn(InWord(g, Position(g, lap, i, r)), g.BufSize(), g.Count()) == LapStart(g, lap)
  {
    BufferSizes(g);
    hide Pow2, Mod, IndexIn, LapIn, Geometry.WordEnd, Geometry.Count, Geometry.BufSize, Geometry.SubbufSize;
    PositionParts(g.SubbufSize(), g.Count(), Pow2(g.w - g.s - g.n), g.BufSize(), g.WordEnd(), lap, i, r);
  }

  lemma PositionParts(S: nat, N: nat, R: nat, B: nat, W: nat, lap: nat, i: nat, r: nat)
    requires S > 0 && N > 0 && R > 0 && B == S * N && W == B * R > 0 && i < N && r < S
    ensures B > 0 && S * i + r < B
    ensures var x := Mod(B * lap + (S * i + r), W);
            IndexIn(x, B, S) == i && LapIn(x, B, N) == S * Mod(lap, R)
  {
    MulAtLeast(S, N - i);
    MulDistributes(S, N, i);
    MulAtLeast(S, N);
    var inside, l := S * i + r, lap % R;
    ModScaled(lap, inside, B, R);
    ModUnique(B * l + inside, B, l, inside);
    ModUnique(inside, S, i, r);
    assert B * l == N * (S * l) by { MulAssociates(N, S, l); }
    ModUnique(B * l, N, S * l, 0);
  }

  /** The masked counter, as the true counter modulo `Q`. */
  lemma StoredCounter(g: Geometry, cc: nat)
    requires g.Valid()
    ensures BitAnd(Sub64(InWord(g, cc), g.SubbufSize()), CommitCountMask(g.WordEnd(), g.Count()))
            == Residue(g, cc - g.SubbufSize())
  {
    CounterMod(g, cc);
    hide BitAnd, CommitCountMask, InWord, Sub64, Geometry.WordEnd, Geometry.SubbufSize, Geometry.Count;
    MaskIs(g);
    AndLowMask(Sub64(InWord(g, cc), g.SubbufSize()), g.w - g.n);
  }

  lemma MaskIs(g: Geometry)
    requires g.Valid()
    ensures CommitCountMask(g.WordEnd(), g.Count()) == Pow2(g.w - g.n) - 1
  {
    hide Pow2, CommitCountMask, Geometry.WordEnd, Geometry.Count, Geometry.SubbufSize;
    QuotientSizes(g);
    MaskIsQuotient(g.WordEnd(), Pow2(g.w - g.n), g.Count());
  }

  lemma MaskIsQuotient(W: nat, Q: nat, N: nat)
    requires W == N * Q > 0 && N > 0
    ensures CommitCountMask(W, N) == Q - 1
  {
    MulDistributes(N, Q, 1);
    ModUnique(W - 1, N, Q - 1, N - 1);
  }

  lemma CounterMod(g: Geometry, cc: nat)
    requires g.Valid()
    ensures Residue(g, Sub64(InWord(g, cc), g.SubbufSize())) == Residue(g, cc - g.SubbufSize())
  {
    QuotientSizes(g);
    WordDivides(g);
    hide Pow2, Mod, Sub64, Geometry.WordEnd, Geometry.SubbufSize, Geometry.Count;
    CounterResidue(cc, g.SubbufSize(), Pow2(g.w - g.n), g.Count(), g.WordEnd(), Pow2(64 - g.w));
  }

  lemma CounterResidue(cc: nat, S: nat, Q: nat, N: nat, W: nat, K: nat)
    requires Q > 0 && N > 0 && K > 0 && W == Q * N > 0 && TWO64 == W * K
    ensures Mod(Sub64(Mod(cc, W), S), Q) == Mod(cc - S, Q)
  {
    MulAssociates(Q, N, K);
    MulAtLeast(N, K);
    ModMod(cc % W - S, Q, N * K);
    ModMod(cc, Q, N);
    SubMod(cc, cc % W, S, Q);
  }

  lemma SubMod(a: int, b: int, c: int, d: nat)
    requires d > 0 && a % d == b % d
    ensures (a - c) % d == (b - c) % d
  {
    ModSame(b, a - b, d);
    ModSame(b - c, a - b, d);
  }

  // ---------------------------------------------------------------------
  // Classification
  // ---------------------------------------------------------------------

  /** The full test compares the counter with the end of the lap modulo `Q`. */
  lemma FullTest(g: Geometry, lap: nat, i: nat, r: nat, p: nat)
    requires g.Valid() && i < g.Count() && r < g.SubbufSize()
    ensures g.BufSize() <= TWO64
    ensures FullyCommitted(g, InWord(g, Counter(g, lap, p)), InWord(g, Position(g, lap, i, r)))
            <==> Residue(g, p - g.SubbufSize()) == 0
  {
    hide Pow2, BitAnd, Sub64, CommitCountMask, LapPart, Counter, Position, InWord, Residue, LapStart;
    hide Geometry.SubbufSize, Geometry.Count, Geometry.BufSize, Geometry.WordEnd;
    WordFits(g);
    StoredPosition(g, lap, i, r);
    StoredCounter(g, Counter(g, lap, p));
    LapDifference(g, lap, p);
  }

  lemma QuotientFits(g: Geometry)
    requires g.Valid()
    ensures Pow2(g.w - g.n) == g.SubbufSize() * Pow2(g.w - g.s - g.n) && Pow2(g.w - g.n) * g.Count() <= TWO64
  {
    QuotientSizes(g);
    WordFits(g);
    hide Pow2;
  }

  lemma LapDifference(g: Geometry, lap: nat, p: nat)
    requires g.Valid()
    ensures Sub64(Residue(g, Counter(g, lap, p) - g.SubbufSize()), LapStart(g, lap)) == 0
            <==> Residue(g, p - g.SubbufSize()) == 0
  {
    hide Pow2, Sub64, Mod, Geometry.SubbufSize, Geometry.Count;
    QuotientFits(g);
    LapResidue(g.SubbufSize(), Pow2(g.w - g.s - g.n), Pow2(g.w - g.n), g.Count(), lap, p,
               Counter(g, lap, p), LapStart(g, lap));
  }

  lemma LapResidue(S: nat, R: nat, Q: nat, N: nat, lap: nat, p: nat, c: nat, l: nat)
    requires S > 0 && R > 0 && N > 0 && Q == S * R > 0 && Q * N <= TWO64 && c == S * lap + p && l == S * Mod(lap, R)
    ensures Sub64(Mod(c - S, Q), l) == 0 <==> Mod(p - S, Q) == 0
  {
    hide Sub64;
    MulAtLeast(Q, N);
    ModScaled(lap, 0, S, R);
    ModSame(S * lap, p - S, Q);
    assert c - S == S * lap + (p - S);
    Sub64Zero((c - S) % Q, l);
  }

  /** In lap `lap`, `p` bytes of the sub-buffer being committed, the extractor takes
      exactly those, except that with a buffer as large as the word an empty
      sub-buffer passes for a full one. */
  lemma CommittedExactly(g: Geometry, lap: nat, i: nat, r: nat, p: nat)
    requires g.Valid() && i < g.Count() && r < g.SubbufSize() && p <= g.SubbufSize()
    ensures g.BufSize() <= TWO64
    ensures CommittedBytes(g, InWord(g, Counter(g, lap, p)), InWord(g, Position(g, lap, i, r))) == p
            <==> g.BufSize() < g.WordEnd() || p != 0
  {
    SmallerBuffer(g);
    hide FullyCommitted, Pow2, Offset, Counter, Position, InWord, Residue;
    hide Geometry.SubbufSize, Geometry.BufSize, Geometry.WordEnd, Geometry.Count;
    FullTest(g, lap, i, r, p);
    FullResidue(g, p);
    PartialBytes(g, lap, p);
  }

  lemma SmallerBuffer(g: Geometry)
    requires g.Valid()
    ensures g.BufSize() < g.WordEnd() <==> g.s + g.n < g.w
  {
    Pow2Strict(g.s + g.n, g.w);
  }

  lemma Pow2Strict(a: nat, b: nat)
    requires a <= b
    ensures Pow2(a) < Pow2(b) <==> a < b
  {
    Pow2Monotone(a, b);
  }

  /** The residue is zero for a full sub-buffer, and for an empty one that fills the word. */
  lemma FullResidue(g: Geometry, p: nat)
    requires g.Valid() && p <= g.SubbufSize()
    ensures Residue(g, p - g.SubbufSize()) == 0 <==> p == g.SubbufSize() || (p == 0 && g.s + g.n == g.w)
  {
    Pow2Monotone(g.s, g.w - g.n);
    hide Pow2, Mod;
    NegativeResidue(p, g.SubbufSize(), Pow2(g.w - g.n));
  }

  lemma NegativeResidue(p: nat, S: nat, Q: nat)
    requires 0 < S <= Q && p <= S
    ensures Mod(p - S, Q) == 0 <==> p == S || (p == 0 && S == Q)
  {
    if p < S {
      if p == 0 && S == Q {
        ModUnique(p - S, Q, -1, 0);
      } else {
        ModUnique(p - S, Q, -1, Q + p - S);
      }
    }
  }

  lemma PartialBytes(g: Geometry, lap: nat, p: nat)
    requires g.Valid() && p <= g.SubbufSize()
    ensures Offset(InWord(g, Counter(g, lap, p)), g.SubbufSize()) == if p == g.SubbufSize() then 0 else p
  {
    CounterRestIs(g, lap, p);
    hide BitAnd, Counter, InWord, Geometry.WordEnd;
    AndLowMask(InWord(g, Counter(g, lap, p)), g.s);
    hide Pow2;
  }

  lemma CounterRestIs(g: Geometry, lap: nat, p: nat)
    requires g.Valid() && p <= g.SubbufSize()
    ensures Mod(InWord(g, Counter(g, lap, p)), g.SubbufSize()) == if p == g.SubbufSize() then 0 else p
  {
    BufferSizes(g);
    hide Pow2, Mod, Geometry.WordEnd, Geometry.Count, Geometry.BufSize, Geometry.SubbufSize;
    CounterRest(g.SubbufSize(), g.Count(), Pow2(g.w - g.s - g.n), g.WordEnd(), lap, p);
  }

  lemma CounterRest(S: nat, N: nat, R: nat, W: nat, lap: nat, p: nat)
    requires S > 0 && N > 0 && R > 0 && W == (S * N) * R > 0 && p <= S
    ensures Mod(Mod(S * lap + p, W), S) == if p == S then 0 else p
  {
    MulAssociates(S, N, R);
    MulAtLeast(N, R);
    ModMod(S * lap + p, S, N * R);
    if p == S {
      MulDistributes(S, lap, 1);
      ModUnique(S * lap + p, S, lap + 1, 0);
    } else {
      ModUnique(S * lap + p, S, lap, p);
    }
  }

  /** A buffer as large as the word: an empty sub-buffer passes for full. */
  lemma WordSizedBuffer(g: Geometry, lap: nat, i: nat, r: nat)
    requires g.Valid() && g.s + g.n == g.w && i < g.Count() && r < g.SubbufSize()
    ensures g.BufSize() <= TWO64
    ensures CommittedBytes(g, InWord(g, Counter(g, lap, 0)), InWord(g, Position(g, lap, i, r))) == g.SubbufSize()
  {
    hide FullyCommitted, Pow2, Counter, Position, InWord, Residue;
    FullTest(g, lap, i, r, 0);
    FullResidue(g, 0);
  }

  // ---------------------------------------------------------------------
  // Sub-buffers numbered from the beginning of the trace
  // ---------------------------------------------------------------------

  function LapOf(m: nat, count: nat): nat
    requires count > 0
  {
    m / count
  }

  function IndexOf(m: nat, count: nat): (i: nat)
    requires count > 0
    ensures i < count
  {
    Mod(m, count)
  }

  /** The position `r` bytes into sub-buffer number `m`. */
  function PositionOf(subbufSize: nat, m: nat, r: nat): nat {
    subbufSize * m + r
  }

  lemma NextPosition(subbufSize: nat, m: nat, r: nat)
    ensures PositionOf(subbufSize, m + 1, r) == PositionOf(subbufSize, m, r) + subbufSize
  {
    MulDistributes(subbufSize, m, 1);
  }

  /** `CommittedExactly` for sub-buffer number `m`. */
  lemma CommittedAt(g: Geometry, m: nat, r: nat, p: nat)
    requires g.Valid() && g.BufSize() < g.WordEnd() && r < g.SubbufSize() && p <= g.SubbufSize()
    ensures var x := InWord(g, PositionOf(g.SubbufSize(), m, r));
            && g.BufSize() <= TWO64 && x < TWO64
            && SubbufIndex(x, g.BufSize(), g.SubbufSize()) == IndexOf(m, g.Count())
            && CommittedBytes(g, InWord(g, Counter(g, LapOf(m, g.Count()), p)), x) == p
  {
    hide Pow2, InWord, Counter, CommittedBytes, SubbufIndex, PositionOf, Position, LapOf, IndexOf;
    PositionLinear(g, m, r);
    StoredPosition(g, LapOf(m, g.Count()), IndexOf(m, g.Count()), r);
    CommittedExactly(g, LapOf(m, g.Count()), IndexOf(m, g.Count()), r, p);
  }

  lemma PositionLinear(g: Geometry, m: nat, r: nat)
    requires g.Valid()
    ensures Position(g, LapOf(m, g.Count()), IndexOf(m, g.Count()), r) == PositionOf(g.SubbufSize(), m, r)
  {
    BufferSizes(g);
    hide Pow2, Geometry.WordEnd, Geometry.Count, Geometry.BufSize, Geometry.SubbufSize;
    Regroup(g.SubbufSize(), g.Count(), g.BufSize(), m, r);
  }

  lemma Regroup(S: nat, N: nat, B: nat, m: nat, r: nat)
    requires N > 0 && B == S * N
    ensures B * LapOf(m, N) + (S * IndexOf(m, N) + r) == PositionOf(S, m, r)
  {
    var lap, i := m / N, m % N;
    assert m == N * lap + i;
    MulDistributes(S, N * lap, i);
    MulAssociates(S, N, lap);
  }
}
