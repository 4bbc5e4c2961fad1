/**
  The header checksum of tunvpn/util/ipframe.go against sections 1 and 4.1 of RFC 1071: the program
  folds the carries of the 16-bit sum once, the standard until none is left.
 */
module Checksum {
  import opened Bytes

  /** Sum of the first n 16-bit words. */
  function WordSum(bytes: seq<byte>, n: nat): nat
    requires 2 * n <= |bytes|
  {
    if n == 0 then 0 else WordSum(bytes, n - 1) + BytesToUint16(bytes, 2 * n - 2)
  }

  /** The sum with all carries folded back, as RFC 1071 computes it. */
  function Fold(sum: nat): uint16 {
    if sum < 65536 then sum else Fold(sum / 65536 + sum % 65536)
  }

  function OnesComplementSum(bytes: seq<byte>): uint16 {
    Fold(WordSum(bytes, |bytes| / 2))
  }

  function High(bytes: seq<byte>): nat {
    WordSum(bytes, |bytes| / 2) % 4294967296 / 65536
  }

  function Low(bytes: seq<byte>): nat {
    WordSum(bytes, |bytes| / 2) % 65536
  }

  /** The value toCheckSum stores. */
  function Stored(bytes: seq<byte>): uint16 {
    65535 - (High(bytes) + Low(bytes)) % 65536
  }

  method ToCheckSum(bytes: seq<byte>) returns (sum: uint16)
    ensures sum == Stored(bytes)
  {
    var checkSum := 0;
    var num := |bytes| / 2;
    for i := 0 to num
      invariant checkSum == WordSum(bytes, i) % 4294967296
    {
      WrapOnce(WordSum(bytes, i), BytesToUint16(bytes, i * 2));
      checkSum := (checkSum + BytesToUint16(bytes, i * 2)) % 4294967296;
    }
    ModLow(WordSum(bytes, num));
    sum := 65535 - (checkSum / 65536 + checkSum % 65536) % 65536;
  }

  lemma WrapOnce(s: nat, w: nat)
    ensures (s % 4294967296 + w) % 4294967296 == (s + w) % 4294967296
  {
    var q := s / 4294967296;
    assert s + w == (s % 4294967296 + w) + 4294967296 * q;
    Wrap(s % 4294967296 + w, q);
  }

  lemma Wrap(x: nat, q: nat)
    ensures (x + 4294967296 * q) % 4294967296 == x % 4294967296
  {
  }

  lemma ModLow(s: nat)
    ensures s % 4294967296 % 65536 == s % 65536
  {
    LowHalf(s % 4294967296, 65536 * (s / 4294967296));
    assert s == s % 4294967296 + 65536 * (65536 * (s / 4294967296));
  }

  lemma LowHalf(x: nat, q: nat)
    ensures (x + 65536 * q) % 65536 == x % 65536
  {
  }

  lemma {:induction false} SumOfReplaced(bytes: seq<byte>, k: nat, hi: byte, lo: byte, n: nat)
    requires 2 * k + 1 < |bytes| && 2 * n <= |bytes|
    ensures WordSum(bytes[2 * k := hi][2 * k + 1 := lo], n) ==
            WordSum(bytes, n) + if k < n then hi as int * 256 + lo as int - BytesToUint16(bytes, 2 * k) else 0
  {
    if n > 0 {
      SumOfReplaced(bytes, k, hi, lo, n - 1);
    }
  }

  lemma {:induction false} SumOfZeros(bytes: seq<byte>, n: nat)
    requires 2 * n <= |bytes| && forall i :: 0 <= i < |bytes| ==> bytes[i] == 0
    ensures WordSum(bytes, n) == 0
  {
    if n > 0 {
      SumOfZeros(bytes, n - 1);
    }
  }

  /**
    The word sum weighs every byte: replacing one aligned pair, wherever it is, changes the sum by
    the difference of the two words, and the sum of zeros is 0.
   */
  lemma EveryWordCounts(bytes: seq<byte>, k: nat, hi: byte, lo: byte)
    requires 2 * k + 1 < |bytes|
    ensures WordSum(bytes[2 * k := hi][2 * k + 1 := lo], |bytes| / 2) ==
            WordSum(bytes, |bytes| / 2) + (hi as int * 256 + lo as int)
            - (bytes[2 * k] as int * 256 + bytes[2 * k + 1] as int)
    ensures (forall i :: 0 <= i < |bytes| ==> bytes[i] == 0) ==> WordSum(bytes, |bytes| / 2) == 0
  {
    SumOfReplaced(bytes, k, hi, lo, |bytes| / 2);
    if forall i :: 0 <= i < |bytes| ==> bytes[i] == 0 {
      SumOfZeros(bytes, |bytes| / 2);
    }
  }

  /** The checksum of a header between 10.0.0.1 and 10.0.0.2. */
  lemma ChecksumOfHeader()
    ensures Stored([0x45, 0, 0, 20, 0, 0, 0, 0, 64, 17, 0, 0, 10, 0, 0, 1, 10, 0, 0, 2]) == 0x66d7
  {
    var header: seq<byte> := [0x45, 0, 0, 20, 0, 0, 0, 0, 64, 17, 0, 0, 10, 0, 0, 1, 10, 0, 0, 2];
    assert WordSum(header, 2) == 0x4514;
    assert WordSum(header, 4) == 0x4514;
    assert WordSum(header, 6) == 0x8525;
    assert WordSum(header, 8) == 0x8f26;
    assert WordSum(header, 10) == 0x9928;
    hide WordSum;
  }

  /** One's-complement sums are remainders modulo 65535 with 65535 for non-zero multiples. */
  lemma {:induction false} FoldIsRemainder(sum: nat)
    ensures Fold(sum) == if sum == 0 then 0 else (sum - 1) % 65535 + 1
    decreases sum
  {
    if sum >= 65536 {
      var next := sum / 65536 + sum % 65536;
      FoldIsRemainder(next);
      assert sum - next == 65535 * (sum / 65536);
      SameRemainder(next - 1, sum / 65536);
    }
  }

  lemma SameRemainder(x: nat, q: nat)
    ensures (x + 65535 * q) % 65535 == x % 65535
  {
  }

  /** A header with the checksum bytes 10 and 11 set to value. */
  function Patched(header: seq<byte>, value: uint16): (finished: seq<byte>)
    requires |header| >= 12
    ensures |finished| == |header|
  {
    header[10 := value / 256][11 := value % 256]
  }

  lemma {:induction false} PatchedSum(header: seq<byte>, value: uint16, n: nat)
    requires |header| >= 12 && 2 * n <= |header| && header[10] == 0 && header[11] == 0
    ensures WordSum(Patched(header, value), n) == WordSum(header, n) + if n >= 6 then value else 0
  {
    if n > 0 {
      PatchedSum(header, value, n - 1);
    }
  }

  lemma {:induction false} SumBound(bytes: seq<byte>, n: nat)
    requires 2 * n <= |bytes|
    ensures WordSum(bytes, n) <= 65535 * n
  {
    if n > 0 {
      SumBound(bytes, n - 1);
    }
  }

  /**
    A finished header sums to 0xffff, as a receiver demands, exactly when adding the two halves of
    the word sum gives no carry. Otherwise the carry is lost, and the stored value is one more than
    the checksum of RFC 1071.
   */
  lemma ChecksumIff(header: seq<byte>)
    requires 12 <= |header| <= 60 && |header| % 2 == 0 && header[10] == 0 && header[11] == 0
    ensures OnesComplementSum(Patched(header, Stored(header))) == 65535 <==> High(header) + Low(header) < 65536
    ensures Stored(header) == 65535 - OnesComplementSum(header) + (if High(header) + Low(header) < 65536 then 0 else 1)
  {
    hide Fold, WordSum, Patched;
    var n := |header| / 2;
    SumBound(header, n);
    PatchedSum(header, Stored(header), n);
    assert WordSum(header, n) % 4294967296 == WordSum(header, n);
    HalvesOfSum(WordSum(header, n));
  }

  lemma HalvesOfSum(sum: nat)
    requires sum <= 65535 * 30
    ensures var hi, lo := sum / 65536, sum % 65536;
            var stored: uint16 := 65535 - (hi + lo) % 65536;
            && (Fold(sum + stored) == 65535 <==> hi + lo < 65536)
            && stored == 65535 - Fold(sum) + (if hi + lo < 65536 then 0 else 1)
  {
    var hi, lo := sum / 65536, sum % 65536;
    FoldOnce(sum);
    if hi + lo < 65536 {
      hide Fold;
      AllOnes(hi + 1);
      assert sum + (65535 - (hi + lo)) == 65535 * (hi + 1);
      FoldSmall(hi + lo);
    } else {
      hide Fold;
      assert (hi + lo) / 65536 == 1 && (hi + lo) % 65536 == hi + lo - 65536;
      FoldOnce(hi + lo);
      FoldSmall(hi + lo - 65535);
      assert sum + (65535 - (hi + lo - 65536)) == 65535 * (hi + 1) + 65536;
      AllOnesAndCarry(hi + 1);
    }
  }

  lemma FoldSmall(sum: nat)
    requires sum < 65536
    ensures Fold(sum) == sum
  {
  }

  lemma FoldOnce(sum: nat)
    ensures Fold(sum) == Fold(sum / 65536 + sum % 65536)
  {
  }

  lemma AllOnes(k: nat)
    requires k > 0
    ensures Fold(65535 * k) == 65535
  {
    FoldIsRemainder(65535 * k);
    SameRemainder(65534, k - 1);
  }

  lemma AllOnesAndCarry(k: nat)
    ensures Fold(65535 * k + 65536) == 1
  {
    FoldIsRemainder(65535 * k + 65536);
    SameRemainder(0, k + 1);
  }

  /** A 20-byte header, with every field in its width, on which the carry is lost. */
  lemma CarryIsLost()
    ensures var header := [0x45, 0, 0, 20, 0xff, 0xff, 0, 0, 0, 0, 0, 0, 0xba, 0xec, 0, 0, 0, 0, 0, 0];
            High(header) + Low(header) == 65536
            && OnesComplementSum(Patched(header, Stored(header))) == 1
  {
    var header: seq<byte> := [0x45, 0, 0, 20, 0xff, 0xff, 0, 0, 0, 0, 0, 0, 0xba, 0xec, 0, 0, 0, 0, 0, 0];
    hide Fold, WordSum, Patched;
    CarryWords(header);
    LostCarry(header);
  }

  lemma LostCarry(header: seq<byte>)
    requires |header| == 20 && header[10] == 0 && header[11] == 0 && WordSum(header, 10) == 0x1ffff
    ensures High(header) + Low(header) == 65536 && OnesComplementSum(Patched(header, Stored(header))) == 1
  {
    hide Fold, WordSum, Patched;
    PatchedSum(header, Stored(header), 10);
    assert Stored(header) == 65535;
    AllOnesAndCarry(2);
  }

  lemma CarryWords(header: seq<byte>)
    requires header == [0x45, 0, 0, 20, 0xff, 0xff, 0, 0, 0, 0, 0, 0, 0xba, 0xec, 0, 0, 0, 0, 0, 0]
    ensures WordSum(header, 10) == 0x1ffff
  {
    assert WordSum(header, 1) == 0x4500;
    assert WordSum(header, 2) == 0x4514;
    assert WordSum(header, 3) == 0x14513;
    assert WordSum(header, 4) == 0x14513;
    assert WordSum(header, 6) == 0x14513;
    assert WordSum(header, 8) == 0x1ffff;
  }
}
