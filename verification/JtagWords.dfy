/** Bytes and words on the host's side of the JTAG link. Bits and bytes go least significant first. */
module JtagWords {
  import opened Bits
  import opened Bytes
  import Modular
  import Sequences

  type Word = seq<bool>

  function ToWord(bs: seq<Byte>): (w: Word)
    ensures |w| == 8 * |bs|
  {
    if bs == [] then [] else ToBits(bs[0], 8) + ToWord(bs[1..])
  }

  function FromWord(w: Word): (bs: seq<Byte>)
    requires |w| % 8 == 0
    ensures 8 * |bs| == |w|
  {
    if w == [] then []
    else
      ByteRange(w[..8]);
      [ToNat(w[..8])] + FromWord(w[8..])
  }

  lemma ByteRange(w: Word)
    requires |w| == 8
    ensures ToNat(w) < 256
  {
    ToBitsInvertsToNat(w);
    PowersOfTwo();
  }

  lemma PowersOfTwo()
    ensures Pow2(8) == 0x100 && Pow2(16) == 0x1_0000 && Pow2(24) == 0x100_0000 && Pow2(32) == 0x1_0000_0000
  {
    assert Pow2(4) == 16;
    Pow2OfSum(4, 4);
    Pow2OfSum(8, 8);
    Pow2OfSum(16, 8);
    Pow2OfSum(16, 16);
  }

  lemma {:induction false} Pow2OfSum(m: nat, n: nat)
    ensures Pow2(m + n) == Pow2(m) * Pow2(n)
    decreases m
  {
    if m > 0 {
      Pow2OfSum(m - 1, n);
      TimesTwo(Pow2(m - 1), Pow2(n));
    }
  }

  lemma {:induction false} FromToWord(bs: seq<Byte>)
    ensures FromWord(ToWord(bs)) == bs
  {
    if bs != [] {
      var w := ToWord(bs);
      assert w[..8] == ToBits(bs[0], 8) && w[8..] == ToWord(bs[1..]);
      PowersOfTwo();
      ToNatInvertsToBits(bs[0], 8);
      FromToWord(bs[1..]);
    }
  }

  lemma {:induction false} ToFromWord(w: Word)
    requires |w| % 8 == 0
    ensures ToWord(FromWord(w)) == w
  {
    if w != [] {
      ToBitsInvertsToNat(w[..8]);
      ToFromWord(w[8..]);
      assert w == w[..8] + w[8..];
      assert FromWord(w)[1..] == FromWord(w[8..]);
    }
  }

  // ---------- Numbers in words ----------

  function LittleEndian(bs: seq<Byte>): nat {
    if bs == [] then 0 else bs[0] + 256 * LittleEndian(bs[1..])
  }

  lemma {:induction false} ToNatOfAppend(a: Word, b: Word)
    ensures ToNat(a + b) == ToNat(a) + Pow2(|a|) * ToNat(b)
  {
    if a == [] {
      assert a + b == b;
    } else {
      assert (a + b)[0] == a[0] && (a + b)[1..] == a[1..] + b;
      ToNatOfAppend(a[1..], b);
      assert ToNat(a + b) == (if a[0] then 1 else 0) + 2 * ToNat(a[1..] + b);
      TimesTwo(Pow2(|a| - 1), ToNat(b));
    }
  }

  lemma TimesTwo(p: nat, x: nat)
    ensures 2 * (p * x) == (2 * p) * x
  {}

  lemma {:induction false} WordIsLittleEndian(bs: seq<Byte>)
    ensures ToNat(ToWord(bs)) == LittleEndian(bs)
  {
    if bs != [] {
      ToNatOfAppend(ToBits(bs[0], 8), ToWord(bs[1..]));
      PowersOfTwo();
      ToNatInvertsToBits(bs[0], 8);
      WordIsLittleEndian(bs[1..]);
    }
  }

  function Zeros(n: nat): (bs: seq<Byte>)
    ensures |bs| == n
  {
    seq(n, _ => 0)
  }

  /** A number as a word of `width` bytes. Of words wider than four bytes only one byte is written. */
  function CopyToWord(value: nat, width: nat): (bs: seq<Byte>)
    requires width > 0
    ensures |bs| == width
  {
    if width == 1 then [value % 256]
    else if width == 2 then [value % 256, value / 0x100 % 256]
    else if width == 3 then [value % 256, value / 0x100 % 256, value / 0x1_0000 % 256]
    else if width == 4 then [value % 256, value / 0x100 % 256, value / 0x1_0000 % 256, value / 0x100_0000 % 256]
    else Zeros(width)[width - 4 := value % 256]
  }

  /** The number in a word; of words wider than four bytes the last four are read. */
  function CopyFromWord(bs: seq<Byte>): nat {
    if |bs| <= 4 then LittleEndian(bs) else LittleEndian(bs[|bs| - 4..])
  }

  /** The low `n` bytes of a number. */
  function LowBytes(value: nat, n: nat): (bs: seq<Byte>)
    ensures |bs| == n
  {
    if n == 0 then [] else [value % 256] + LowBytes(value / 256, n - 1)
  }

  lemma RemainderBy(v: nat, h: nat)
    requires h > 0
    ensures v % (256 * h) == v % 256 + 256 * ((v / 256) % h)
  {
    var q := (v / 256) / h;
    assert v / 256 == h * q + (v / 256) % h;
    assert (256 * h) * q == 256 * (h * q);
    Modular.Unique(v, 256 * h, q, v % 256 + 256 * ((v / 256) % h));
  }

  lemma {:induction false} LowBytesAre(value: nat, n: nat)
    ensures LittleEndian(LowBytes(value, n)) == value % Pow2(8 * n)
    decreases n
  {
    if n == 0 {
      Modular.Unique(value, 1, value, 0);
    } else {
      var bs := LowBytes(value, n);
      assert bs[1..] == LowBytes(value / 256, n - 1);
      LowBytesAre(value / 256, n - 1);
      Pow2OfSum(8, 8 * (n - 1));
      PowersOfTwo();
      RemainderBy(value, Pow2(8 * (n - 1)));
    }
  }

  lemma CopyIsLowBytes(value: nat, width: nat)
    requires 1 <= width <= 4
    ensures CopyToWord(value, width) == LowBytes(value, width)
  {
    assert value / 0x100 / 256 == value / 0x1_0000 && value / 0x1_0000 / 256 == value / 0x100_0000;
    assert LowBytes(value, 1) == [value % 256];
    assert LowBytes(value, 2) == [value % 256] + LowBytes(value / 256, 1);
    assert LowBytes(value, 3) == [value % 256] + LowBytes(value / 256, 2);
    assert LowBytes(value, 4) == [value % 256] + LowBytes(value / 256, 3);
  }

  lemma CopyToWordIs(value: nat, width: nat)
    requires 1 <= width <= 4
    ensures LittleEndian(CopyToWord(value, width)) == value % Pow2(8 * width)
  {
    CopyIsLowBytes(value, width);
    LowBytesAre(value, width);
  }

  lemma {:induction false} LittleEndianOfZeros(n: nat, last: seq<Byte>)
    ensures LittleEndian(Zeros(n) + last) == Pow2(8 * n) * LittleEndian(last)
    decreases n
  {
    if n == 0 {
      assert Zeros(0) + last == last;
    } else {
      assert (Zeros(n) + last)[1..] == Zeros(n - 1) + last;
      LittleEndianOfZeros(n - 1, last);
      Pow2OfSum(8, 8 * (n - 1));
      PowersOfTwo();
      Times256(Pow2(8 * (n - 1)), LittleEndian(last));
    }
  }

  lemma Times256(p: nat, x: nat)
    ensures 256 * (p * x) == (256 * p) * x
  {}

  /** In wider words the number lands four bytes below the top, out of the logic's sight unless it is zero. */
  lemma WideWordIs(value: nat, width: nat)
    requires width > 4
    ensures LittleEndian(CopyToWord(value, width)) == Pow2(8 * (width - 4)) * (value % 256)
    ensures CopyFromWord(CopyToWord(value, width)) == value % 256
  {
    var low := value % 256;
    var rest: seq<Byte> := [low, 0, 0, 0];
    assert CopyToWord(value, width) == Zeros(width - 4) + rest;
    LittleEndianOfZeros(width - 4, rest);
    assert rest[1..] == Zeros(3) + [];
    LittleEndianOfZeros(3, []);
    assert CopyToWord(value, width)[width - 4..] == rest;
  }

  lemma NarrowHeader(value: nat, width: nat)
    requires 1 <= width <= 4
    ensures ToNat(ToWord(CopyToWord(value, width))) == value % Pow2(8 * width)
  {
    WordIsLittleEndian(CopyToWord(value, width));
    CopyToWordIs(value, width);
  }

  lemma WideHeader(value: nat, width: nat)
    requires width > 4
    ensures ToNat(ToWord(CopyToWord(value, width))) == value <==> value == 0
  {
    WordIsLittleEndian(CopyToWord(value, width));
    WideWordIs(value, width);
    Pow2OfSum(8, 8 * (width - 5));
    PowersOfTwo();
    MultipleOf256(Pow2(8 * (width - 5)), value);
  }

  lemma MultipleOf256(p: nat, value: nat)
    ensures (256 * p) * (value % 256) == value <==> value == 0
  {
    var low := value % 256;
    Times256(p, low);
    if value == 256 * (p * low) {
      Modular.Unique(value, 256, p * low, 0);
      assert low == 0;
    }
  }

  /** The logic reads the number that the host wrote exactly if it fits a word of at most four bytes, or is zero. */
  lemma HeaderUnderstood(value: nat, width: nat)
    requires width > 0
    ensures ToNat(ToWord(CopyToWord(value, width))) == value
      <==> if width <= 4 then value < Pow2(8 * width) else value == 0
  {
    if width <= 4 {
      NarrowHeader(value, width);
      FitsOrNot(value, Pow2(8 * width));
    } else {
      WideHeader(value, width);
    }
  }

  /** Numbers written by the host are read back by the host. */
  lemma NumbersSurvive(value: nat, width: nat)
    requires 1 <= width <= 4
    ensures CopyFromWord(CopyToWord(value, width)) == value <==> value < Pow2(8 * width)
  {
    CopyToWordIs(value, width);
    FitsOrNot(value, Pow2(8 * width));
  }

  lemma FitsOrNot(value: nat, p: nat)
    requires p > 0
    ensures value % p == value <==> value < p
  {
    if value < p {
      Modular.Small(value, p);
    }
  }

  /** A count sent bit by bit by the logic is read as a number by the host. */
  lemma CountsAreRead(value: nat, width: nat)
    requires 1 <= width <= 4 && value < Pow2(8 * width)
    ensures CopyFromWord(FromWord(ToBits(value, 8 * width))) == value
  {
    var w := ToBits(value, 8 * width);
    ToFromWord(w);
    WordIsLittleEndian(FromWord(w));
    ToNatInvertsToBits(value, 8 * width);
  }

  // ---------- Runs of words ----------

  /** The bytes of `n` words of `width` bytes. */
  function ToBytes(width: nat, n: nat): nat
    decreases n, width
  {
    if n == 0 then 0 else width + ToBytes(width, n - 1)
  }

  lemma {:induction false} ToBytesIs(width: nat, n: nat)
    ensures ToBytes(width, n) == width * n
    decreases n
  {
    if n > 0 {
      ToBytesIs(width, n - 1);
      assert width * n == width + width * (n - 1);
    }
  }

  lemma {:induction false} ToBytesOfSum(width: nat, m: nat, n: nat)
    ensures ToBytes(width, m + n) == ToBytes(width, m) + ToBytes(width, n)
    decreases m
  {
    if m > 0 {
      ToBytesOfSum(width, m - 1, n);
    }
  }

  /** Whole words of `width` bytes; what is left over at the end is ignored. */
  function Words(bs: seq<Byte>, width: nat): (ws: seq<Word>)
    requires width > 0
    decreases |bs|
  {
    if |bs| < width then [] else [ToWord(bs[..width])] + Words(bs[width..], width)
  }

  predicate AllOf(ws: seq<Word>, width: nat) { forall i :: 0 <= i < |ws| ==> |ws[i]| == 8 * width }

  function Flat(ws: seq<Word>, width: nat): (bs: seq<Byte>)
    requires AllOf(ws, width)
    ensures |bs| == ToBytes(width, |ws|)
  {
    if ws == [] then [] else FromWord(ws[0]) + Flat(ws[1..], width)
  }

  lemma AllOfAppend(a: seq<Word>, b: seq<Word>, width: nat)
    requires AllOf(a, width) && AllOf(b, width)
    ensures AllOf(a + b, width)
  {}

  lemma FlatOfFirst(ws: seq<Word>, first: Word, rest: seq<Word>, width: nat)
    requires AllOf(ws, width) && AllOf(rest, width) && ws == [first] + rest && |first| == 8 * width
    ensures Flat(ws, width) == FromWord(first) + Flat(rest, width)
  {
    assert ws[1..] == rest && ws[0] == first;
  }

  lemma {:induction false} FlatOfAppend(a: seq<Word>, b: seq<Word>, width: nat)
    requires AllOf(a, width) && AllOf(b, width)
    ensures AllOf(a + b, width) && Flat(a + b, width) == Flat(a, width) + Flat(b, width)
    decreases |a|
  {
    AllOfAppend(a, b, width);
    if a == [] {
      assert a + b == b;
    } else {
      var first, rest := a[0], a[1..];
      FlatOfAppend(rest, b, width);
      assert a + b == [first] + (rest + b) && a == [first] + rest;
      FlatOfFirst(a + b, first, rest + b, width);
      Sequences.Associate(FromWord(first), Flat(rest, width), Flat(b, width));
    }
  }

  lemma {:induction false} FlatOfWords(bs: seq<Byte>, width: nat, n: nat)
    requires width > 0 && |bs| == ToBytes(width, n)
    ensures |Words(bs, width)| == n && AllOf(Words(bs, width), width) && Flat(Words(bs, width), width) == bs
    decreases n
  {
    if n > 0 {
      FlatOfWords(bs[width..], width, n - 1);
      FromToWord(bs[..width]);
      assert Words(bs, width)[1..] == Words(bs[width..], width);
      assert bs == bs[..width] + bs[width..];
    }
  }

  lemma {:induction false} WordsOfAppend(a: seq<Byte>, b: seq<Byte>, width: nat, n: nat)
    requires width > 0 && |a| == ToBytes(width, n)
    ensures Words(a + b, width) == Words(a, width) + Words(b, width)
    decreases n
  {
    if n == 0 {
      assert a + b == b;
    } else {
      assert (a + b)[..width] == a[..width] && (a + b)[width..] == a[width..] + b;
      WordsOfAppend(a[width..], b, width, n - 1);
    }
  }
}
