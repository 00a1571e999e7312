/** The progress of a file transfer: byte counts scaled down to at most 2^16 steps. */
module TransferProgress {

  function Pow2(n: nat): (p: nat)
    ensures p >= 1
  {
    if n == 0 then 1 else 2 * Pow2(n - 1)
  }

  lemma {:induction false} Pow2Sum(a: nat, b: nat)
    ensures Pow2(a + b) == Pow2(a) * Pow2(b)
  {
    if a > 0 {
      Pow2Sum(a - 1, b);
      assert Pow2(a) * Pow2(b) == 2 * (Pow2(a - 1) * Pow2(b));
    }
  }

  lemma {:induction false} Pow2Monotone(a: nat, b: nat)
    requires a <= b
    ensures Pow2(a) <= Pow2(b)
    decreases b - a
  {
    if a < b {
      Pow2Monotone(a, b - 1);
    }
  }

  lemma Pow2Values()
    ensures Pow2(16) == 0x1_0000 && Pow2(31) == 0x8000_0000 && Pow2(46) == 0x4000_0000_0000
  {
    assert Pow2(8) == 256;
    Pow2Sum(8, 8);
    assert Pow2(16) == 0x1_0000;
    Pow2Sum(16, 8);
    assert Pow2(24) == 0x100_0000;
    assert Pow2(7) == 128;
    Pow2Sum(24, 7);
    assert Pow2(15) == 0x8000;
    Pow2Sum(31, 15);
  }

  // ---- steps ----

  /** How far a size is shifted: no further than leaves it 16 bits. */
  ghost predicate IsShift(big: nat, shift: nat) {
    if big < Pow2(16) then shift == 0 else Pow2(shift + 15) <= big < Pow2(shift + 16) && shift > 0
  }

  lemma Pow2Next(n: nat)
    ensures Pow2(n + 1) == 2 * Pow2(n)
  {
  }

  lemma Pow2Order(n: nat)
    requires n >= 16
    ensures Pow2(16) <= Pow2(n)
  {
    Pow2Monotone(16, n);
  }

  predicate HasBit(big: nat, val: nat)
    requires val >= 1
  {
    big / val % 2 == 1
  }

  lemma BitIsHighest(big: nat, val: nat)
    requires 1 <= val && big < 2 * val
    ensures HasBit(big, val) <==> big >= val
  {
    DivMod(big, val);
    var q := big / val;
    if q >= 2 {
      MulMonotone(2, q, val);
    }
    if q <= 0 {
      MulMonotone(q, 0, val);
    }
  }

  /** A size has one shift. */
  lemma ShiftIsUnique(big: nat, s: nat)
    requires IsShift(big, s)
    ensures forall t: nat :: IsShift(big, t) ==> s == t
  {
    hide Pow2;
    forall t: nat | IsShift(big, t)
      ensures s == t
    {
      if s < t {
        Pow2Monotone(s + 16, t + 15);
      } else if t < s {
        Pow2Monotone(t + 16, s + 15);
      }
    }
  }

  /** The highest bit of a signed 64-bit size, looked for from bit 63 down to bit 16. */
  method CalcShift(big: nat) returns (shift: nat)
    requires big < Pow2(63)
    ensures IsShift(big, shift) && forall t: nat :: IsShift(big, t) ==> t == shift
  {
    hide Pow2, HasBit;
    var val := Pow2(63);
    Pow2Next(63);
    for n := 48 downto 0
      invariant val == Pow2(n + 15) && big < 2 * val
    {
      BitIsHighest(big, val);
      Pow2Next(n + 15);
      if HasBit(big, val) {
        Pow2Next(n + 16);
        Pow2Order(n + 16);
        ShiftIsUnique(big, n + 1);
        return n + 1;
      }
      val := val / 2;
    }
    Pow2Next(15);
    ShiftIsUnique(big, 0);
    return 0;
  }

  /** The block of a step is an int: it is one just for sizes below 2^46. */
  predicate BlockFits(shift: nat) {
    Pow2(shift) < Pow2(31)
  }

  lemma BlockLimit(big: nat, shift: nat)
    requires IsShift(big, shift)
    ensures BlockFits(shift) <==> big < Pow2(46)
  {
    hide Pow2, IsShift;
    ShiftLimit(big, shift);
    Pow2Next(30);
    if shift <= 30 {
      Pow2Monotone(shift, 30);
      Pow2Monotone(shift + 16, 46);
    } else {
      Pow2Monotone(31, shift);
      Pow2Monotone(46, shift + 15);
    }
  }

  lemma ShiftLimit(big: nat, shift: nat)
    requires IsShift(big, shift)
    ensures big < Pow2(shift + 16) && (shift > 0 ==> Pow2(shift + 15) <= big)
  {
  }

  /** x >> n */
  function Shr(x: nat, n: nat): nat
    decreases n
  {
    if n == 0 then x else Shr(x / 2, n - 1)
  }

  /** What the size lacks of a multiple of the block. */
  function Complement(big: nat, shift: nat): nat
    requires BlockFits(shift)
  {
    var rem := big % Pow2(shift);
    if rem == 0 then 0 else Pow2(shift) - rem
  }

  function TotalSteps(big: nat, shift: nat): nat {
    if big < 1 then 0 else Shr(big - 1, shift) + 1
  }

  function ProgressStep(sent: nat, complement: nat, shift: nat): nat {
    Shr(sent + complement, shift)
  }

  lemma {:induction false} MulMonotone(a: int, c: int, b: nat)
    requires a <= c
    ensures a * b <= c * b
    decreases c - a
  {
    if a < c {
      MulMonotone(a, c - 1, b);
      assert c * b == (c - 1) * b + b;
    }
  }

  lemma {:induction false} ShrMeaning(x: nat, n: nat)
    ensures Shr(x, n) * Pow2(n) <= x < (Shr(x, n) + 1) * Pow2(n)
    decreases n
  {
    if n > 0 {
      ShrMeaning(x / 2, n - 1);
      var q, p := Shr(x, n), Pow2(n - 1);
      Twice(q, p);
      Twice(q + 1, p);
    }
  }

  lemma Twice(q: int, p: int)
    ensures q * (2 * p) == 2 * (q * p)
  {
  }

  /** The shifted value is at least q just when the value is at least q blocks. */
  lemma ShrAtLeast(x: nat, n: nat, q: nat)
    ensures Shr(x, n) >= q <==> x >= q * Pow2(n)
  {
    ShrMeaning(x, n);
    if Shr(x, n) >= q {
      MulMonotone(q, Shr(x, n), Pow2(n));
    } else {
      MulMonotone(Shr(x, n) + 1, q, Pow2(n));
    }
  }

  lemma Blocks(q: int, b: int)
    ensures (q + 1) * b == q * b + b && (q - 1) * b == q * b - b
  {
  }

  lemma DivMod(x: nat, b: nat)
    requires b >= 1
    ensures 0 <= x / b && x == x / b * b + x % b && 0 <= x % b < b
  {
    if x / b < 0 {
      MulMonotone(x / b, -1, b);
    }
  }

  /** The complement fills the last block up. */
  lemma Rounded(big: nat, shift: nat)
    requires BlockFits(shift)
    ensures big + Complement(big, shift) == TotalSteps(big, shift) * Pow2(shift)
  {
    var b := Pow2(shift);
    DivMod(big, b);
    RoundedBy(big, shift, big / b, big % b);
  }

  lemma RoundedBy(big: nat, shift: nat, q: nat, rem: nat)
    requires big == q * Pow2(shift) + rem && rem < Pow2(shift)
    ensures big + (if rem == 0 then 0 else Pow2(shift) - rem) == TotalSteps(big, shift) * Pow2(shift)
  {
    var b := Pow2(shift);
    hide Pow2, Shr;
    Blocks(q, b);
    if big == 0 {
      assert q * b >= 0;
    } else if rem == 0 {
      assert q > 0;
      ShrIs(big - 1, shift, q - 1);
    } else {
      ShrIs(big - 1, shift, q);
    }
  }

  lemma ShrIs(x: nat, n: nat, q: nat)
    requires q * Pow2(n) <= x < q * Pow2(n) + Pow2(n)
    ensures Shr(x, n) == q
  {
    Blocks(q, Pow2(n));
    ShrAtLeast(x, n, q);
    ShrAtLeast(x, n, q + 1);
  }

  /** The last step is reached when every byte of the file is counted, and left again when a whole block
      more than the file has been. */
  lemma DoneWhenAllSent(size: nat, shift: nat, sent: nat)
    requires BlockFits(shift)
    ensures var b := Pow2(shift);
            ProgressStep(sent, Complement(size, shift), shift) == TotalSteps(size, shift) <==> size <= sent < size + b
  {
    hide Shr, Complement, TotalSteps;
    var total := TotalSteps(size, shift);
    Rounded(size, shift);
    Blocks(total, Pow2(shift));
    ShrAtLeast(sent + Complement(size, shift), shift, total);
    ShrAtLeast(sent + Complement(size, shift), shift, total + 1);
  }

  lemma StepsMonotone(size: nat, shift: nat, sent: nat, more: nat)
    requires BlockFits(shift) && sent <= more
    ensures ProgressStep(sent, Complement(size, shift), shift) <= ProgressStep(more, Complement(size, shift), shift)
  {
    hide Shr, Complement;
    var x, y := sent + Complement(size, shift), more + Complement(size, shift);
    ShrMeaning(x, shift);
    ShrAtLeast(y, shift, Shr(x, shift));
  }

  /** The shift leaves 16 bits of the size, no fewer unless there are no more. */
  lemma ShiftMeaning(big: nat, shift: nat)
    ensures IsShift(big, shift) <==> Shr(big, shift) < 65536 && (shift > 0 ==> Shr(big, shift) >= 32768)
  {
    Pow2Values();
    hide Shr, Pow2;
    Pow2Next(15);
    Pow2Sum(16, shift);
    Pow2Sum(15, shift);
    ShrAtLeast(big, shift, 65536);
    ShrAtLeast(big, shift, 32768);
    if shift > 0 {
      Pow2Order(shift + 15);
    }
  }

  /** A step is a block: there are as many as it takes for all bytes, and as many are left as it takes for
      the bytes that are. */
  lemma StepsMeaning(size: nat, shift: nat, sent: nat)
    requires BlockFits(shift) && sent <= size
    ensures var (b, total) := (Pow2(shift), TotalSteps(size, shift));
            var left := total - ProgressStep(sent, Complement(size, shift), shift);
            && 0 <= Complement(size, shift) < b
            && (total - 1) * b < size <= total * b
            && (left - 1) * b < size - sent <= left * b
  {
    hide *;
    ComplementFits(size, shift);
    Rounded(size, shift);
    ProgressMeaning(sent, Complement(size, shift), shift);
    StepsLeft(size, sent, Pow2(shift), Complement(size, shift), TotalSteps(size, shift),
      ProgressStep(sent, Complement(size, shift), shift));
  }

  lemma ProgressMeaning(sent: nat, c: nat, shift: nat)
    ensures var step := ProgressStep(sent, c, shift);
            step * Pow2(shift) <= sent + c < (step + 1) * Pow2(shift)
  {
    ShrMeaning(sent + c, shift);
  }

  lemma ComplementFits(size: nat, shift: nat)
    requires BlockFits(shift)
    ensures 0 <= Complement(size, shift) < Pow2(shift)
  {
    DivMod(size, Pow2(shift));
    hide Pow2;
  }

  lemma StepsLeft(size: nat, sent: nat, b: nat, c: nat, total: nat, step: nat)
    requires size + c == total * b && c < b && step * b <= sent + c < (step + 1) * b
    ensures var left := total - step;
            (total - 1) * b < size <= total * b && (left - 1) * b < size - sent <= left * b
  {
    Blocks(total, b);
    Blocks(step, b);
    Blocks(total - step, b);
    Times(total, step, b);
  }

  lemma Times(a: int, c: int, b: int)
    ensures (a - c) * b == a * b - c * b
  {
  }

  /** There are at most 2^16 steps, and none is beyond the last while no more than the file is sent. */
  lemma StepsBounded(size: nat, shift: nat, sent: nat)
    requires IsShift(size, shift) && BlockFits(shift) && sent <= size
    ensures ProgressStep(sent, Complement(size, shift), shift) <= TotalSteps(size, shift) <= Pow2(16)
  {
    TotalBounded(size, shift);
    hide Shr, Complement, TotalSteps;
    StepsMonotone(size, shift, sent, size);
    DoneWhenAllSent(size, shift, size);
  }

  lemma TotalBounded(size: nat, shift: nat)
    requires IsShift(size, shift)
    ensures TotalSteps(size, shift) <= Pow2(16)
  {
    ShiftLimit(size, shift);
    hide Shr, Pow2, IsShift;
    if size >= 1 {
      Pow2Sum(16, shift);
      ShrAtLeast(size - 1, shift, Pow2(16));
    }
  }

  /** The bar of a transfer, out of 8192. */
  function Word(step: nat, total: nat): int {
    if total > 0 then step * 8192 / total else 8192
  }

  /** At every step the bar shows the part that is done, rounded down. */
  lemma WordMeaning(step: nat, total: nat)
    ensures total > 0 ==> Word(step, total) * total <= step * 8192 < (Word(step, total) + 1) * total
    ensures total == 0 ==> Word(step, total) == 8192
  {
    if total > 0 {
      DivMod(step * 8192, total);
      Blocks(Word(step, total), total);
    }
  }

  /** More bytes never give a smaller bar. */
  lemma BarGrows(size: nat, shift: nat, sent: nat, more: nat)
    requires BlockFits(shift) && sent <= more
    ensures var (c, total) := (Complement(size, shift), TotalSteps(size, shift));
            Word(ProgressStep(sent, c, shift), total) <= Word(ProgressStep(more, c, shift), total)
  {
    StepsMonotone(size, shift, sent, more);
    hide Shr, Complement, TotalSteps, ProgressStep;
    var (c, total) := (Complement(size, shift), TotalSteps(size, shift));
    WordGrows(ProgressStep(sent, c, shift), ProgressStep(more, c, shift), total);
  }

  lemma WordGrows(step: nat, more: nat, total: nat)
    requires step <= more
    ensures Word(step, total) <= Word(more, total)
  {
    WordMeaning(step, total);
    WordMeaning(more, total);
    if total > 0 && Word(step, total) > Word(more, total) {
      hide Word;
      MulMonotone(Word(more, total) + 1, Word(step, total), total);
    }
  }

  /** The product of the bar fits in 32 bits, and the bar is full just when all is sent. */
  lemma WordExact(size: nat, shift: nat, sent: nat)
    requires IsShift(size, shift) && size < Pow2(46) && sent <= size
    ensures BlockFits(shift)
    ensures var (step, total) := (ProgressStep(sent, Complement(size, shift), shift), TotalSteps(size, shift));
            step * 8192 < Pow2(31) && Word(step, total) <= 8192 && (Word(step, total) == 8192 <==> sent == size)
  {
    BlockLimit(size, shift);
    Pow2Values();
    StepsBounded(size, shift, sent);
    DoneWhenAllSent(size, shift, sent);
    var (step, total) := (ProgressStep(sent, Complement(size, shift), shift), TotalSteps(size, shift));
    if total > 0 {
      hide Shr, Complement, TotalSteps, ProgressStep;
      DivMod(step * 8192, total);
      var w := step * 8192 / total;
      if w > 8191 {
        MulMonotone(8192, w, total);
      }
      if w > 8192 {
        MulMonotone(8193, w, total);
      }
      if w < 8192 {
        MulMonotone(w + 1, 8192, total);
        Blocks(w, total);
      }
    }
  }

  // ---- a transfer in the dialog ----

  /** The last ten of some samples. */
  function LastTen(samples: seq<nat>): seq<nat> {
    if |samples| > 10 then samples[|samples| - 10..] else samples
  }

  /** What a run of samples leaves is the last ten of all of them, in order. */
  lemma LastTenMeaning(samples: seq<nat>, next: nat)
    ensures var last := LastTen(samples);
            && |last| == (if |samples| < 10 then |samples| else 10)
            && forall i :: 0 <= i < |last| ==> last[i] == samples[|samples| - |last| + i]
    ensures LastTen(LastTen(samples) + [next]) == LastTen(samples + [next])
  {
    if |samples| > 10 {
      var last, all := LastTen(samples) + [next], samples + [next];
      assert last == all[|all| - 11..];
    }
  }

  /** A FileTransferHandler, its TransferMapping and its item in the list, from the connection on. */
  class Transfer {
    const receiving: bool
    const fileSize: nat
    const shift: nat
    const complement: nat
    // bytes counted by the handler, and whether the connection is there
    var sent: nat
    var open: bool
    // the count and the step reported to the list last, and the samples taken every second
    var reported: nat
    var p: nat
    var at: nat
    const last: array<nat>
    // in the list of transfers; the item is done, or has failed; the .part file has its name
    var listed: bool
    var done: bool
    var failed: bool
    var renamed: bool

    ghost predicate Fixed() {
      IsShift(fileSize, shift) && BlockFits(shift) && complement == Complement(fileSize, shift)
    }

    /** The file is complete, and no block more. */
    ghost predicate Complete() reads `sent {
      fileSize <= sent < fileSize + Pow2(shift)
    }

    ghost predicate Valid()
      reads this
    {
      && Fixed() && last.Length == 10 && at <= 10
      && reported <= sent && p == ProgressStep(reported, complement, shift)
      && (done && !failed ==> Complete()) && (renamed <==> done && !failed && receiving)
      && (listed ==> !done && p != TotalSteps(fileSize, shift)) && (failed ==> done && !listed)
    }

    ghost function Samples(): seq<nat>
      requires at <= last.Length
      reads this, last
    {
      last[..at]
    }

    /** Shown when the connection is there, with no step reported yet: a file without bytes is done. From
        2^46 bytes on the block of a step overflows, and the complement is any number. */
    constructor (receiving: bool, fileSize: nat, offset: nat)
      requires fileSize < Pow2(63) && offset <= fileSize
      ensures Valid() <==> fileSize < Pow2(46)
      ensures sent == offset && reported == 0 && at == 0 && fresh(last)
      ensures this.receiving == receiving && this.fileSize == fileSize
      ensures (done <==> fileSize == 0) && (listed <==> !done) && !failed
    {
      hide Shr, Pow2, Complement, TotalSteps, ProgressStep, IsShift;
      this.receiving, this.fileSize := receiving, fileSize;
      var s := CalcShift(fileSize);
      BlockLimit(fileSize, s);
      var c: nat := *;
      if BlockFits(s) {
        c := Complement(fileSize, s);
        DoneWhenAllSent(fileSize, s, 0);
        StepZero(fileSize, s);
      }
      shift, complement := s, c;
      sent, open, reported, p, at := offset, true, 0, 0, 0;
      last := new nat[10];
      listed, done, failed, renamed := true, false, false, false;
      new;
      SmallestStep(fileSize, s);
      if p == TotalSteps(fileSize, shift) {
        UpdateProgress();
      }
    }

    static lemma SmallestStep(size: nat, shift: nat)
      ensures TotalSteps(size, shift) == 0 ==> size < Pow2(46)
    {
      assert Pow2(46) >= 1;
    }

    static lemma StepZero(size: nat, shift: nat)
      requires BlockFits(shift)
      ensures ProgressStep(0, Complement(size, shift), shift) == 0
    {
      DivMod(size, Pow2(shift));
      ShrIs(Complement(size, shift), shift, 0);
    }

    /** The item is marked, the mapping goes, and the .part file gets its name when all steps are made. */
    method UpdateProgress()
      requires Fixed() && listed && !done && !failed && !renamed
      requires p == TotalSteps(fileSize, shift) ==> Complete()
      modifies `listed, `done, `renamed
      ensures done == (p == TotalSteps(fileSize, shift)) && listed == !done && renamed == (done && receiving)
    {
      if p == TotalSteps(fileSize, shift) {
        done := true;
        listed := false;
        if receiving {
          renamed := true;
        }
      }
    }

    /** The handler reports its count and the step that makes. */
    method DoFinish()
      requires Valid() && listed
      modifies `open, `reported, `p, `listed, `done, `renamed
      ensures Valid() && (done <==> Complete()) && (listed <==> !done) && reported == sent
      ensures open == (old(open) && sent != fileSize)
    {
      hide Shr, Pow2, Complement, TotalSteps;
      if sent == fileSize {
        open := false;
      }
      DoneWhenAllSent(fileSize, shift, sent);
      reported, p := sent, ProgressStep(sent, complement, shift);
      UpdateProgress();
    }

    /** Bytes have been read or written: the transfer is done, and the file renamed, just when all of the
        file is counted, and at most the rest of a block more. */
    method BytesMoved(n: nat)
      requires Valid() && listed
      modifies `sent, `open, `reported, `p, `listed, `done, `renamed
      ensures Valid() && sent == old(sent) + n && reported == sent
      ensures done <==> fileSize <= sent < fileSize + Pow2(shift)
      ensures sent <= fileSize ==> (done <==> sent == fileSize)
      ensures (listed <==> !done) && (renamed <==> done && receiving)
      ensures open == (old(open) && sent != fileSize)
    {
      sent := sent + n;
      DoFinish();
    }

    /** An error takes the transfer off the list and closes it. The item is done, as failed; the .part file
        stays as it is. */
    method Error()
      requires Valid() && listed
      modifies `listed, `done, `failed, `open
      ensures Valid() && !listed && done && failed && !renamed && !open
    {
      open := false;
      listed := false;
      done, failed := true, true;
    }

    method LogSent()
      requires at <= last.Length == 10
      modifies `at, last
      ensures at <= 10 && Samples() == LastTen(old(Samples()) + [reported])
    {
      if at == 10 {
        for n := 0 to at - 1
          invariant at == 10 && forall k :: 0 <= k < n ==> last[k] == old(last[k + 1])
          invariant forall k :: n <= k < 10 ==> last[k] == old(last[k])
        {
          last[n] := last[n + 1];
        }
        at := at - 1;
      }
      last[at] := reported;
      at := at + 1;
    }

    /** Every second; the list stays as it is. */
    method UpdateItems()
      requires Valid() && listed
      modifies `at, last, `listed, `done, `renamed
      ensures Valid() && listed && Samples() == LastTen(old(Samples()) + [reported])
    {
      LogSent();
      UpdateProgress();
    }
  }
}
