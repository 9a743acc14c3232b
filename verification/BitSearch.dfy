/** Searching bitmaps (opensbi-1.2/lib/sbi/sbi_bitops.c) and for_each_set_bit
    (opensbi-1.2/include/sbi/sbi_bitops.h). */
module BitSearch {
  import opened Common
  import opened Bits
  import opened BitWords

  /** A bitmap as the plain sequence of its bits. */
  predicate BitAt(words: seq<Word>, i: nat)
    requires i < 64 * |words|
  {
    Bit(words[i / 64], i % 64)
  }

  /** r is the first position from `from` on, below size, whose bit is `want`; size if there is none. */
  ghost predicate IsFirst(words: seq<Word>, size: nat, from: nat, want: bool, r: nat) {
    && size <= 64 * |words| && from <= r <= size
    && (r < size ==> BitAt(words, r) == want)
    && forall i: nat | from <= i < r :: BitAt(words, i) != want
  }

  /** A scan that has found nothing so far goes on where it stands. */
  lemma FirstOn(words: seq<Word>, size: nat, from: nat, mid: nat, want: bool, r: nat)
    requires from <= mid && IsFirst(words, size, mid, want, r)
    requires mid <= size && size <= 64 * |words| && forall i: nat | from <= i < mid :: BitAt(words, i) != want
    ensures IsFirst(words, size, from, want, r)
  {
    hide BitAt;
  }

  /** The answer inside one word, of which only the bits lo .. hi - 1 count. */
  lemma InWord(words: seq<Word>, size: nat, base: nat, lo: nat, hi: nat, b: nat, want: bool)
    requires base % 64 == 0 && base / 64 < |words| && lo <= b < hi <= 64 && base + hi <= size <= 64 * |words|
    requires Bit(words[base / 64], b) == want && forall i: nat | lo <= i < b :: Bit(words[base / 64], i) != want
    ensures IsFirst(words, size, base + lo, want, base + b)
  {
    hide Bit;
    forall i: nat | base + lo <= i <= base + b
      ensures i / 64 == base / 64 && i % 64 == i - base
    {
    }
  }

  /** No answer among the bits lo .. hi - 1 of a word. */
  lemma NotInWord(words: seq<Word>, base: nat, lo: nat, hi: nat, want: bool)
    requires base % 64 == 0 && base / 64 < |words| && hi <= 64
    requires forall i: nat | lo <= i < hi :: Bit(words[base / 64], i) != want
    ensures forall i: nat | base + lo <= i < base + hi :: i < 64 * |words| && BitAt(words, i) != want
  {
    hide Bit;
    forall i: nat | base + lo <= i < base + hi
      ensures i < 64 * |words| && BitAt(words, i) != want
    {
      assert i / 64 == base / 64 && i % 64 == i - base;
    }
  }

  lemma WordZero(w: Word)
    ensures w == 0 <==> forall i: nat | i < 64 :: !Bit(w, i)
  {
    hide Bit;
    if w == 0 {
      forall i: nat | i < 64 ensures !Bit(w, i) { ZeroBits(i); }
    } else {
      LowestInWord(w);
      LowestBit(w);
      assert Bit(w, Lowest(w));
    }
  }

  // ---------------------------------------------------------------- set bits and cleared bits

  /** A word as a search for bits of value `want` sees it: searching a cleared bit is searching a set
      one in the complement. */
  function Seen(w: Word, want: bool): Word { if want then w else Complement(w) }

  /** The OR masks of the zero variants are the AND masks on the complement. */
  function FillLow(w: Word, k: nat): nat { KeepHigh(w, k) + Pow2(k) - 1 }
  function FillHigh(w: Word, k: nat): int { KeepLow(w, k) + WORD_END - Pow2(k) }

  lemma FillIsKeep(w: Word, k: nat)
    requires k <= 64
    ensures WORD_END - 1 - FillLow(w, k) == KeepHigh(Complement(w), k)
    ensures WORD_END - 1 - FillHigh(w, k) == KeepLow(Complement(w), k)
  {
    hide Pow2;
    Room(k);
    var p, n := Pow2(k), Pow2(64 - k);
    Pow2Word();
    Pow2Divides(k);
    var q, r := w / p, w % p;
    assert w == p * q + r;
    Steps(p, q, n);
    assert Complement(w) == p * (n - 1 - q) + (p - 1 - r) by { assert p * (n - 1 - q) == p * n - p - p * q; }
    DivMod(Complement(w), p, n - 1 - q, p - 1 - r);
  }

  lemma SeenBits(w: Word, want: bool)
    ensures forall i: nat | i < 64 :: Bit(Seen(w, want), i) <==> Bit(w, i) == want
  {
    hide Bit;
    forall i: nat | i < 64 ensures Bit(Complement(w), i) <==> !Bit(w, i) { ComplementBits(w, i); }
  }

  // ---------------------------------------------------------------- searching upwards

  /** find_first_bit and find_first_zero_bit. */
  method FindFirst(words: seq<Word>, size: nat, want: bool) returns (r: nat)
    requires size <= 64 * |words|
    ensures IsFirst(words, size, 0, want, r)
  {
    hide *;
    r := Scan(words, size, 0, want);
  }

  /** find_next_bit and find_next_zero_bit: the rest of the first word, then the scan. */
  method FindNext(words: seq<Word>, size: nat, offset: nat, want: bool) returns (r: nat)
    requires size <= 64 * |words|
    ensures if offset < size then IsFirst(words, size, offset, want, r) else r == size
  {
    hide Bit, BitAt, Pow2, IsFirst, KeepLow, KeepHigh, Complement;
    if offset >= size {
      return size;
    }
    var result, off := offset / 64 * 64, offset % 64;
    if off == 0 {
      r := Scan(words, size, result, want);
      return;
    }
    if size - result < 64 {
      r := LastWord(words, size, result, off, want);
      return;
    }
    var tmp := KeepHigh(Seen(words[result / 64], want), off);
    UpperBits(words[result / 64], off, want);
    if tmp != 0 {
      var b := Ffs(tmp);
      InWord(words, size, result, off, 64, b, want);
      return result + b;
    }
    forall i: nat | off <= i < 64 ensures Bit(words[result / 64], i) != want { ZeroBits(i); }
    NotInWord(words, result, off, 64, want);
    r := Scan(words, size, result + 64, want);
    FirstOn(words, size, offset, result + 64, want, r);
  }

  lemma UpperBits(w: Word, off: nat, want: bool)
    requires off < 64
    ensures 0 <= KeepHigh(Seen(w, want), off) < WORD_END
    ensures forall i: nat | i < 64 :: Bit(KeepHigh(Seen(w, want), off), i) <==> off <= i && Bit(w, i) == want
  {
    hide Bit, Seen, KeepHigh;
    SeenBits(w, want);
    HighBits(Seen(w, want), off, 0);
    KeepHighSmall(Seen(w, want), off);
    forall i: nat | i < 64
      ensures Bit(KeepHigh(Seen(w, want), off), i) <==> off <= i && Bit(w, i) == want
    {
      HighBits(Seen(w, want), off, i);
    }
  }

  lemma KeepHighSmall(w: Word, k: nat)
    ensures 0 <= KeepHigh(w, k) <= w
  {
  }

  /** From a word boundary on: whole words first, then what is left of the last one. */
  method Scan(words: seq<Word>, size: nat, start: nat, want: bool) returns (r: nat)
    requires size <= 64 * |words| && start % 64 == 0 && start <= size
    ensures IsFirst(words, size, start, want, r)
  {
    hide Bit, BitAt, Pow2, IsFirst, KeepLow, Seen;
    var result := start;
    while size - result >= 64
      invariant start <= result <= size && result % 64 == 0
      invariant forall i: nat | start <= i < result :: BitAt(words, i) != want
    {
      var tmp := Seen(words[result / 64], want);
      SeenBits(words[result / 64], want);
      if tmp != 0 {
        var b := Ffs(tmp);
        InWord(words, size, result, 0, 64, b, want);
        FirstOn(words, size, start, result, want, result + b);
        return result + b;
      }
      forall i: nat | i < 64 ensures Bit(words[result / 64], i) != want { ZeroBits(i); }
      NotInWord(words, result, 0, 64, want);
      result := result + 64;
    }
    if size == result {
      Nothing(words, size, start, want);
      return result;
    }
    r := LastWord(words, size, result, 0, want);
    FirstOn(words, size, start, result, want, r);
  }

  lemma Nothing(words: seq<Word>, size: nat, from: nat, want: bool)
    requires from <= size <= 64 * |words| && forall i: nat | from <= i < size :: BitAt(words, i) != want
    ensures IsFirst(words, size, from, want, size)
  {
    hide BitAt;
  }

  /** A last word of which fewer than 64 bits count, from bit `lo` on. */
  method LastWord(words: seq<Word>, size: nat, base: nat, lo: nat, want: bool) returns (r: nat)
    requires base % 64 == 0 && base + lo <= size < base + 64 && lo < 64 && size <= 64 * |words| && base < size
    ensures IsFirst(words, size, base + lo, want, r)
  {
    hide Bit, BitAt, Pow2, IsFirst, KeepLow, KeepHigh, Seen;
    var left := size - base;
    var w := words[base / 64];
    Masked(Seen(w, want), lo, left);
    SeenBits(w, want);
    var tmp := KeepLow(KeepHigh(Seen(w, want), lo), left);
    if tmp == 0 {
      forall i: nat | lo <= i < left ensures Bit(w, i) != want { ZeroBits(i); }
      NotInWord(words, base, lo, left, want);
      Nothing(words, size, base + lo, want);
      return size;
    }
    var b := Ffs(tmp);
    InWord(words, size, base, lo, left, b, want);
    r := base + b;
  }

  /** Both masks together select the bits lo .. hi - 1. */
  lemma Masked(w: Word, lo: nat, hi: nat)
    requires hi <= 64
    ensures 0 <= KeepHigh(w, lo) <= w && 0 <= KeepLow(KeepHigh(w, lo), hi) < WORD_END
    ensures forall i: nat :: Bit(KeepLow(KeepHigh(w, lo), hi), i) <==> lo <= i < hi && Bit(w, i)
  {
    HighBits(w, lo, 0);
    forall i: nat
      ensures Bit(KeepLow(KeepHigh(w, lo), hi), i) <==> lo <= i < hi && Bit(w, i)
    {
      HighBits(w, lo, i);
      LowBits(KeepHigh(w, lo), hi, i);
    }
  }

  // ---------------------------------------------------------------- searching downwards

  /** r is the last set position below size; size if there is none. */
  ghost predicate IsLast(words: seq<Word>, size: nat, r: nat) {
    && size <= 64 * |words| && r <= size
    && (r < size ==> BitAt(words, r))
    && forall i: nat | i < size && (r < i || r == size) :: !BitAt(words, i)
  }

  lemma LastInWord(words: seq<Word>, size: nat, base: nat, hi: nat, b: nat)
    requires base % 64 == 0 && base / 64 < |words| && b < hi <= 64 && base + hi <= size <= 64 * |words|
    requires Bit(words[base / 64], b) && forall i: nat | b < i < hi :: !Bit(words[base / 64], i)
    requires forall i: nat | base + hi <= i < size :: !BitAt(words, i)
    ensures IsLast(words, size, base + b)
  {
    hide Bit;
    assert (base + b) / 64 == base / 64 && (base + b) % 64 == b;
    forall i: nat | base + b < i < size
      ensures !BitAt(words, i)
    {
      if i < base + hi {
        assert i / 64 == base / 64 && i % 64 == i - base;
      }
    }
  }

  /** find_last_bit. */
  method FindLast(words: seq<Word>, size: nat) returns (r: nat)
    requires size <= 64 * |words|
    ensures IsLast(words, size, r)
  {
    hide Bit, BitAt, Pow2, KeepLow, KeepHigh;
    var n, rest := size / 64, size % 64;
    if rest != 0 {
      var w := words[n];
      Masked(w, 0, rest);
      KeepAll(w);
      var tmp := KeepLow(w, rest);
      if tmp != 0 {
        var b := Fls(tmp);
        assert Bit(tmp, b) && b < rest;
        LastInWord(words, size, 64 * n, rest, b);
        return 64 * n + b;
      }
      forall i: nat | i < rest ensures !Bit(w, i) { ZeroBits(i); }
      NotInWord(words, 64 * n, 0, rest, true);
    }
    while n > 0
      invariant 64 * n <= size
      invariant forall i: nat | 64 * n <= i < size :: !BitAt(words, i)
    {
      n := n - 1;
      var tmp := words[n];
      if tmp != 0 {
        var b := Fls(tmp);
        LastInWord(words, size, 64 * n, 64, b);
        return 64 * n + b;
      }
      WordZero(tmp);
      NotInWord(words, 64 * n, 0, 64, true);
    }
    r := size;
  }

  lemma KeepAll(w: nat)
    ensures KeepHigh(w, 0) == w
  {
  }

  // ---------------------------------------------------------------- visiting all set bits

  /** for_each_set_bit: the body runs for exactly the set bits, in ascending order. */
  method ForEachSetBit(words: seq<Word>, size: nat) returns (visited: seq<nat>)
    requires size <= 64 * |words|
    ensures forall k, l | 0 <= k < l < |visited| :: visited[k] < visited[l]
    ensures forall i: nat :: i in visited <==> i < size && BitAt(words, i)
  {
    hide Bit, BitAt;
    visited := [];
    var bit := FindFirst(words, size, true);
    while bit < size
      invariant bit <= size && (bit < size ==> BitAt(words, bit))
      invariant forall k, l | 0 <= k < l < |visited| :: visited[k] < visited[l]
      invariant forall k | 0 <= k < |visited| :: visited[k] < bit
      invariant forall i: nat | i < bit :: i in visited <==> i < size && BitAt(words, i)
      decreases size - bit
    {
      visited := visited + [bit];
      var next := FindNext(words, size, bit + 1, true);
      assert bit + 1 >= size ==> next == size;
      bit := next;
    }
  }
}
