/** Words as bit sequences: sbi_ffs, sbi_fls and the mask expressions of
    opensbi-1.2/include/sbi/sbi_bitops.h. */
module BitWords {
  import opened Common
  import opened Bits

  /** Bit i of a number. */
  predicate Bit(w: nat, i: nat) {
    if i == 0 then w % 2 == 1 else Bit(w / 2, i - 1)
  }

  // ---------------------------------------------------------------- masks, as arithmetic

  function Rest(w: nat, p: nat): (r: nat)
    requires p > 0
    ensures r <= w
  {
    w % p
  }

  /** w & (2^k - 1), w & (~0 << k), and ~w. */
  function KeepLow(w: nat, k: nat): nat { Rest(w, Pow2(k)) }
  function KeepHigh(w: nat, k: nat): nat { w - Rest(w, Pow2(k)) }
  function Complement(w: Word): Word { WORD_END - 1 - w }

  lemma {:induction false} Halves(w: nat, k: nat)
    ensures w % Pow2(k + 1) == 2 * (w / 2 % Pow2(k)) + w % 2
    ensures w / Pow2(k + 1) == w / 2 / Pow2(k)
  {
    hide Pow2;
    Pow2Step(k);
    var p, h := Pow2(k), w / 2;
    var q, r := h / p, h % p;
    assert h == p * q + r;
    assert w == 2 * p * q + (2 * r + w % 2);
    DivMod(w, 2 * p, q, 2 * r + w % 2);
  }

  lemma {:induction false} LowBits(w: nat, k: nat, i: nat)
    ensures Bit(KeepLow(w, k), i) <==> i < k && Bit(w, i)
  {
    if k == 0 {
      ZeroBits(i);
    } else {
      Halves(w, k - 1);
      var l := KeepLow(w, k);
      assert l / 2 == KeepLow(w / 2, k - 1) && l % 2 == w % 2;
      if i > 0 {
        LowBits(w / 2, k - 1, i - 1);
      }
    }
  }

  lemma {:induction false} ZeroBits(i: nat)
    ensures !Bit(0, i)
  {
    if i > 0 {
      ZeroBits(i - 1);
    }
  }

  lemma {:induction false} HighBits(w: nat, k: nat, i: nat)
    ensures Bit(KeepHigh(w, k), i) <==> i >= k && Bit(w, i)
  {
    if k > 0 {
      Halves(w, k - 1);
      if i > 0 {
        HighBits(w / 2, k - 1, i - 1);
      } else {
        HighBits(w / 2, k - 1, 0);
      }
      var h := KeepHigh(w, k);
      assert h == 2 * KeepHigh(w / 2, k - 1);
    }
  }

  /** w >> k. */
  function ShiftRight(w: nat, k: nat): nat { Quot(w, Pow2(k)) }

  function Quot(w: nat, p: nat): nat
    requires p > 0
  {
    w / p
  }

  lemma ShiftStep(w: nat, k: nat)
    ensures ShiftRight(w, 0) == w && ShiftRight(w, k + 1) == ShiftRight(w / 2, k)
  {
    hide Pow2;
    Pow2Step(0);
    Halves(w, k);
  }

  lemma {:induction false} ShiftBits(w: nat, k: nat, i: nat)
    ensures Bit(ShiftRight(w, k), i) <==> Bit(w, i + k)
  {
    hide ShiftRight;
    if k == 0 {
      ShiftStep(w, 0);
    } else {
      ShiftStep(w, k - 1);
      ShiftBits(w / 2, k - 1, i);
    }
  }

  lemma {:induction false} NotBits(w: nat, n: nat, i: nat)
    requires w < Pow2(n) && i < n
    ensures Bit(Pow2(n) - 1 - w, i) <==> !Bit(w, i)
  {
    Pow2Step(n - 1);
    var c := Pow2(n) - 1 - w;
    assert c / 2 == Pow2(n - 1) - 1 - w / 2 && c % 2 == 1 - w % 2;
    if i > 0 {
      NotBits(w / 2, n - 1, i - 1);
    }
  }

  lemma ComplementBits(w: Word, i: nat)
    requires i < 64
    ensures Bit(Complement(w), i) <==> !Bit(w, i)
  {
    Pow2Word();
    NotBits(w, 64, i);
  }

  /** A number below 2^m with another one above it. */
  lemma {:induction false} JoinBits(a: nat, b: nat, m: nat, i: nat)
    requires a < Pow2(m)
    ensures Bit(a + Pow2(m) * b, i) <==> if i < m then Bit(a, i) else Bit(b, i - m)
  {
    if m > 0 {
      Pow2Step(m - 1);
      var v := a + Pow2(m) * b;
      assert Pow2(m) * b == 2 * (Pow2(m - 1) * b);
      assert v % 2 == a % 2 && v / 2 == a / 2 + Pow2(m - 1) * b;
      if i > 0 {
        JoinBits(a / 2, b, m - 1, i - 1);
      }
    }
  }

  // ---------------------------------------------------------------- first and last set bit

  function Lowest(w: nat): nat
    requires w > 0
  {
    if w % 2 == 1 then 0 else 1 + Lowest(w / 2)
  }

  function Top(w: nat): nat { if w < 2 then 0 else 1 + Top(w / 2) }

  lemma {:induction false} LowestBit(w: nat)
    requires w > 0
    ensures Bit(w, Lowest(w)) && forall i: nat | i < Lowest(w) :: !Bit(w, i)
  {
    if w % 2 == 0 {
      LowestBit(w / 2);
      forall i: nat | i < Lowest(w)
        ensures !Bit(w, i)
      {
        if i > 0 {
          assert !Bit(w / 2, i - 1);
        }
      }
    }
  }

  lemma {:induction false} TopBit(w: nat)
    requires w > 0
    ensures Bit(w, Top(w)) && forall i: nat | i > Top(w) :: !Bit(w, i)
  {
    if w == 1 {
      forall i: nat | i > 0 ensures !Bit(1, i) { ZeroBits(i - 1); }
    } else {
      TopBit(w / 2);
      forall i: nat | i > Top(w)
        ensures !Bit(w, i)
      {
        assert !Bit(w / 2, i - 1);
      }
    }
  }

  /** Skipping k zeros. */
  lemma {:induction false} LowestSkip(w: nat, k: nat)
    requires w > 0
    ensures w % Pow2(k) == 0 ==> w / Pow2(k) > 0 && Lowest(w) == k + Lowest(w / Pow2(k))
    ensures w % Pow2(k) != 0 ==> Lowest(w) < k
  {
    if k > 0 {
      Halves(w, k - 1);
      if w % 2 == 0 {
        LowestSkip(w / 2, k - 1);
      }
    }
  }

  lemma {:induction false} TopShift(w: nat, k: nat)
    requires w > 0
    ensures Top(w * Pow2(k)) == Top(w) + k && w * Pow2(k) > 0
  {
    if k > 0 {
      TopShift(w, k - 1);
      Pow2Step(k - 1);
      assert w * Pow2(k) == 2 * (w * Pow2(k - 1));
    }
  }

  lemma {:induction false} TopBound(w: nat, k: nat)
    requires w > 0
    ensures w < Pow2(k) <==> Top(w) < k
  {
    if k > 0 && w > 1 {
      Pow2Step(k - 1);
      TopBound(w / 2, k - 1);
    } else if k > 0 {
      Pow2Step(k - 1);
    }
  }

  lemma Powers()
    ensures Pow2(1) == 2 && Pow2(2) == 4 && Pow2(4) == 0x10 && Pow2(8) == 0x100
    ensures Pow2(16) == 0x1_0000 && Pow2(32) == 0x1_0000_0000
    ensures Pow2(60) == WORD_END / 16 && Pow2(56) == WORD_END / 0x100 && Pow2(48) == WORD_END / 0x1_0000
    ensures Pow2(62) == WORD_END / 4 && Pow2(63) == WORD_END / 2 && Pow2(64) == WORD_END
  {
    hide Pow2;
    Pow2Step(0);
    Pow2Step(0);
    Pow2Step(1);
    Pow2Add(2, 2);
    Pow2Add(4, 4);
    Pow2Add(8, 8);
    Pow2Add(16, 16);
    Pow2Add(16, 32);
    Pow2Add(8, 48);
    Pow2Add(4, 56);
    Pow2Word();
  }

  /** One step of sbi_ffs: if the low k bits are 0 they are skipped. */
  method SkipLow(word: nat, k: nat, size: nat, before: nat) returns (w: nat, num: nat)
    requires word > 0 && size == Pow2(k) && Lowest(word) < 2 * k
    ensures w > 0 && Lowest(w) < k && num + Lowest(w) == before + Lowest(word)
  {
    hide Lowest;
    LowestSkip(word, k);
    w, num := word, before;
    if word % size == 0 {
      w, num := word / size, before + k;
    }
  }

  /** sbi_ffs: the position of the lowest set bit, by halving the field that is searched. */
  method Ffs(word: Word) returns (num: nat)
    requires word != 0
    ensures num < 64 && Bit(word, num) && forall i: nat | i < num :: !Bit(word, i)
  {
    hide Pow2, Bit, Lowest;
    Powers();
    LowestBit(word);
    LowestInWord(word);
    var w;
    w, num := SkipLow(word, 32, 0x1_0000_0000, 0);
    w, num := SkipLow(w, 16, 0x1_0000, num);
    w, num := SkipLow(w, 8, 0x100, num);
    w, num := SkipLow(w, 4, 0x10, num);
    w, num := SkipLow(w, 2, 4, num);
    w, num := SkipLow(w, 1, 2, num);
  }

  lemma LowestInWord(w: Word)
    requires w > 0
    ensures Lowest(w) < 64
  {
    hide Lowest;
    Pow2Word();
    LowestSkip(w, 64);
    SmallMod(w);
  }

  lemma SmallMod(w: Word)
    ensures w % WORD_END == w
  {
  }

  /** One step of sbi_fls: if the high k bits of the word are 0 they are shifted out. */
  method SkipHigh(word: Word, k: nat, size: nat, before: int) returns (w: Word, num: int)
    requires word > 0 && 0 < k <= 63 && size == Pow2(k) && Top(word) >= 64 - 2 * k
    ensures w > 0 && Top(w) >= 64 - k && Top(w) + num == Top(word) + before
  {
    hide Top;
    TopBound(word, 64 - k);
    TopBound(word, 64);
    TopShift(word, k);
    Room(k);
    w, num := word, before;
    if word < WORD_END / size {
      TopBound(word * size, 64);
      Pow2Word();
      w, num := word * size, before - k;
    }
  }

  lemma Room(k: nat)
    requires k <= 64
    ensures WORD_END / Pow2(k) == Pow2(64 - k)
  {
    Pow2Word();
    Pow2Add(k, 64 - k);
    hide Pow2;
    DivMod(WORD_END, Pow2(k), Pow2(64 - k), 0);
  }

  /** sbi_fls: the position of the highest set bit. */
  method Fls(word: Word) returns (num: nat)
    requires word != 0
    ensures num < 64 && Bit(word, num) && forall i: nat | num < i :: !Bit(word, i)
  {
    hide Pow2, Bit, Top;
    Powers();
    TopBit(word);
    TopBound(word, 64);
    var w, r;
    w, r := SkipHigh(word, 32, 0x1_0000_0000, 63);
    w, r := SkipHigh(w, 16, 0x1_0000, r);
    w, r := SkipHigh(w, 8, 0x100, r);
    w, r := SkipHigh(w, 4, 0x10, r);
    w, r := SkipHigh(w, 2, 4, r);
    w, r := SkipHigh(w, 1, 2, r);
    TopBound(w, 64);
    num := r;
  }
}
