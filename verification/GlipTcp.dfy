/**
 * The simulation's TCP backend: bytes from the queue become words for the design, and words of the
 * design become bytes, resumably, a bit at a time as the queues allow.
 */
module GlipTcp {
  import opened Bits
  import opened Bytes
  import opened Sequences
  import Modular

  const CAPACITY: nat := 16 * 1024

  /** The item is a 64-bit number. */
  const MAX_BYTES: nat := 8

  /** The weight of the byte that has `k` bytes below it. */
  function Weight(k: nat): (w: nat)
    ensures w > 0
  {
    Pow2(8 * k)
  }

  lemma WeightNext(k: nat)
    ensures Weight(k + 1) == 256 * Weight(k)
  {
    assert Pow2(8 * k + 2) == 4 * Pow2(8 * k);
    assert Pow2(8 * k + 4) == 16 * Pow2(8 * k);
    assert Pow2(8 * k + 6) == 64 * Pow2(8 * k);
    assert Pow2(8 * k + 8) == 256 * Pow2(8 * k);
  }

  // ---------- Words and bytes ----------

  /** The word whose bytes, most significant first, are `bs`. */
  function BigEndian(bs: seq<Byte>): nat {
    if bs == [] then 0 else BigEndian(bs[..|bs| - 1]) * 256 + bs[|bs| - 1]
  }

  /** The low `n` bytes of a word, most significant first. */
  function Expand(n: nat, w: nat): (bs: seq<Byte>)
    ensures |bs| == n
  {
    if n == 0 then [] else Expand(n - 1, w / 256) + [w % 256]
  }

  function ExpandAll(n: nat, ws: seq<nat>): (bs: seq<Byte>) {
    if ws == [] then [] else ExpandAll(n, ws[..|ws| - 1]) + Expand(n, ws[|ws| - 1])
  }

  lemma {:induction false} ExpandInvertsBigEndian(bs: seq<Byte>)
    ensures Expand(|bs|, BigEndian(bs)) == bs && BigEndian(bs) < Weight(|bs|)
  {
    if bs != [] {
      var high := bs[..|bs| - 1];
      ExpandInvertsBigEndian(high);
      WeightNext(|high|);
      assert BigEndian(bs) / 256 == BigEndian(high) && BigEndian(bs) % 256 == bs[|bs| - 1];
      assert bs == high + [bs[|bs| - 1]];
    }
  }

  lemma {:induction false} BigEndianInvertsExpand(n: nat, w: nat)
    requires w < Weight(n)
    ensures BigEndian(Expand(n, w)) == w
  {
    if n > 0 {
      WeightNext(n - 1);
      BigEndianInvertsExpand(n - 1, w / 256);
      assert Expand(n, w)[..n - 1] == Expand(n - 1, w / 256);
    }
  }

  /** Byte `i` is what the shift and the mask pick out. */
  lemma {:induction false} ExpandAt(n: nat, w: nat, i: nat)
    requires i < n
    ensures Expand(n, w)[i] == (w / Weight(n - i - 1)) % 256
  {
    if i < n - 1 {
      ExpandAt(n - 1, w / 256, i);
      WeightNext(n - i - 2);
      DivideTwice(w, Weight(n - i - 2));
    }
  }

  lemma DivideTwice(w: nat, b: nat)
    requires b > 0
    ensures (w / 256) / b == w / (256 * b)
  {
    var q := (w / 256) / b;
    var r := (w / 256) % b;
    assert w / 256 == b * q + r;
    assert 256 * (b * q) == (256 * b) * q;
    Modular.Unique(w, 256 * b, q, 256 * r + w % 256);
  }

  lemma {:induction false} ExpandAllInjective(n: nat, vs: seq<nat>, ws: seq<nat>)
    requires n > 0 && ExpandAll(n, vs) == ExpandAll(n, ws)
    requires forall i :: 0 <= i < |vs| ==> vs[i] < Weight(n)
    requires forall i :: 0 <= i < |ws| ==> ws[i] < Weight(n)
    ensures vs == ws
    decreases |vs|
  {
    ExpandAllLength(n, vs);
    ExpandAllLength(n, ws);
    SameLength(n, |vs|, |ws|);
    if vs != [] {
      var v, w := vs[|vs| - 1], ws[|ws| - 1];
      var front, back := ExpandAll(n, vs[..|vs| - 1]), ExpandAll(n, ws[..|ws| - 1]);
      ExpandAllLength(n, vs[..|vs| - 1]);
      ExpandAllLength(n, ws[..|ws| - 1]);
      assert front == (front + Expand(n, v))[..|front|] && back == (back + Expand(n, w))[..|front|];
      assert Expand(n, v) == (front + Expand(n, v))[|front|..] && Expand(n, w) == (back + Expand(n, w))[|front|..];
      ExpandAllInjective(n, vs[..|vs| - 1], ws[..|ws| - 1]);
      BigEndianInvertsExpand(n, v);
      BigEndianInvertsExpand(n, w);
      assert vs == vs[..|vs| - 1] + [v] && ws == ws[..|ws| - 1] + [w];
    }
  }

  lemma {:induction false} ExpandAllLength(n: nat, ws: seq<nat>)
    ensures |ExpandAll(n, ws)| == n * |ws|
    decreases |ws|
  {
    if ws != [] {
      ExpandAllLength(n, ws[..|ws| - 1]);
      assert n * |ws| == n * (|ws| - 1) + n;
    }
  }

  lemma SameLength(n: nat, a: nat, b: nat)
    requires n > 0 && n * a == n * b
    ensures a == b
  {
    Modular.Unique(n * a, n, a, 0);
    Modular.Unique(n * b, n, b, 0);
  }

  // ---------- Gathering bytes as the code does ----------

  /** Bitwise `x | y`. */
  function Or(x: nat, y: nat): nat
    decreases x + y
  {
    if x == 0 then y else if y == 0 then x
    else (if x % 2 == 1 || y % 2 == 1 then 1 else 0) + 2 * Or(x / 2, y / 2)
  }

  lemma {:induction false} OrDisjoint(x: nat, y: nat, s: nat)
    requires x % Pow2(s) == 0 && y < Pow2(s)
    ensures Or(x, y) == x + y
    decreases s
  {
    if x != 0 && y != 0 {
      var h := Pow2(s - 1);
      RemainderByEvenPower(x, h);
      OrDisjoint(x / 2, y / 2, s - 1);
    }
  }

  /** The byte is promoted to a signed 32-bit integer before it is shifted. */
  predicate ShiftDefined(n: nat, i: nat) { i < n && 8 * (n - i - 1) < 32 }

  /** Only for words of up to four bytes are all the shifts within the promoted width. */
  lemma ShiftsDefinedUpToFour(n: nat)
    ensures (forall i :: 0 <= i < n ==> ShiftDefined(n, i)) <==> n <= 4
  {
    assert n > 4 ==> !ShiftDefined(n, 0);
  }

  const HIGH_HALF: nat := 0x1_0000_0000_0000_0000 - 0x1_0000_0000

  /** The shifted byte, widened to 64 bits: bit 31 is the sign. */
  function Shifted(b: Byte, k: nat): nat
    requires k < 4
  {
    (if k == 3 && b >= 0x80 then HIGH_HALF else 0) + b * Weight(k)
  }

  /** The item's value after the bytes `bs` of `n`. */
  function Gathered(n: nat, bs: seq<Byte>): nat
    requires |bs| <= n <= 4
  {
    if bs == [] then 0 else Or(Gathered(n, bs[..|bs| - 1]), Shifted(bs[|bs| - 1], n - |bs|))
  }

  predicate SignExtends(n: nat, bs: seq<Byte>) { n == 4 && bs != [] && bs[0] >= 0x80 }

  lemma Weights()
    ensures Weight(0) == 1 && Weight(1) == 0x100 && Weight(2) == 0x1_0000 && Weight(3) == 0x100_0000
    ensures Weight(4) == 0x1_0000_0000
  {
    WeightNext(0);
    WeightNext(1);
    WeightNext(2);
    WeightNext(3);
  }

  lemma HighHalfIsMultiple(k: nat) returns (e: nat)
    requires k <= 3
    ensures HIGH_HALF == Weight(k) * e
  {
    Weights();
    e := if k == 0 then HIGH_HALF else if k == 1 then HIGH_HALF / 0x100
         else if k == 2 then HIGH_HALF / 0x1_0000 else HIGH_HALF / 0x100_0000;
  }

  lemma SumIsMultiple(high: nat, p: nat, extra: nat, e: nat)
    requires p > 0 && (extra == 0 || extra == p * e)
    ensures (high * p + extra) % p == 0
  {
    if extra == 0 {
      Modular.Unique(high * p, p, high, 0);
    } else {
      assert high * p + p * e == p * (high + e);
      Modular.Unique(p * (high + e), p, high + e, 0);
    }
  }

  lemma BigEndianShifted(bs: seq<Byte>, k: nat)
    requires bs != []
    ensures BigEndian(bs) * Weight(k) == BigEndian(bs[..|bs| - 1]) * Weight(k + 1) + bs[|bs| - 1] * Weight(k)
    ensures bs[|bs| - 1] * Weight(k) < Weight(k + 1)
  {
    WeightNext(k);
    Scale(BigEndian(bs[..|bs| - 1]), bs[|bs| - 1], Weight(k));
  }

  lemma Scale(high: nat, last: Byte, w: nat)
    requires w > 0
    ensures (high * 256 + last) * w == high * (256 * w) + last * w && last * w < 256 * w
  {
    assert (256 - last) * w > 0;
    assert (high * 256) * w == high * (256 * w);
  }

  lemma GatheredNext(n: nat, bs: seq<Byte>, b: Byte)
    requires |bs| < n <= 4
    ensures Gathered(n, bs + [b]) == Or(Gathered(n, bs), Shifted(b, n - |bs| - 1))
  {
    assert (bs + [b])[..|bs|] == bs;
  }

  lemma OrShifted(high: nat, last: Byte, k: nat, extra: nat, x: nat, y: nat)
    requires k <= 2 && (extra == 0 || extra == HIGH_HALF)
    requires x == high * Weight(k + 1) + extra && y == last * Weight(k)
    ensures Or(x, y) == x + y
  {
    var e := HighHalfIsMultiple(k + 1);
    WeightNext(k);
    Scale(high, last, Weight(k));
    OrMultiple(high, extra, e, y, 8 * (k + 1));
  }

  lemma OrMultiple(high: nat, extra: nat, e: nat, y: nat, s: nat)
    requires y < Pow2(s) && (extra == 0 || extra == Pow2(s) * e)
    ensures Or(high * Pow2(s) + extra, y) == high * Pow2(s) + extra + y
  {
    SumIsMultiple(high, Pow2(s), extra, e);
    OrDisjoint(high * Pow2(s) + extra, y, s);
  }

  function Extra(n: nat, bs: seq<Byte>): nat { if SignExtends(n, bs) then HIGH_HALF else 0 }

  lemma {:induction false} GatheredIs(n: nat, bs: seq<Byte>)
    requires |bs| <= n <= 4
    ensures Gathered(n, bs) == BigEndian(bs) * Weight(n - |bs|) + Extra(n, bs)
    decreases |bs|
  {
    if |bs| == 1 {
      FirstGathered(n, bs);
    } else if bs != [] {
      GatheredIs(n, bs[..|bs| - 1]);
      LaterGathered(n, bs, n - |bs|, Gathered(n, bs[..|bs| - 1]));
    }
  }

  lemma LaterGathered(n: nat, bs: seq<Byte>, k: nat, before: nat)
    requires 1 < |bs| && |bs| + k == n <= 4
    requires before == BigEndian(bs[..|bs| - 1]) * Weight(k + 1) + Extra(n, bs[..|bs| - 1])
    ensures Or(before, Shifted(bs[|bs| - 1], k)) == BigEndian(bs) * Weight(k) + Extra(n, bs)
  {
    var init, last := bs[..|bs| - 1], bs[|bs| - 1];
    BigEndianShifted(bs, k);
    OrShifted(BigEndian(init), last, k, Extra(n, init), before, last * Weight(k));
  }

  lemma FirstGathered(n: nat, bs: seq<Byte>)
    requires |bs| == 1 <= n <= 4
    ensures Gathered(n, bs) == BigEndian(bs) * Weight(n - |bs|) + Extra(n, bs)
  {
    assert bs[..0] == [];
  }

  /** The word's low bits are the bytes in big-endian order; the bits above them are zero or the sign. */
  lemma GatheredWord(n: nat, bs: seq<Byte>)
    requires |bs| == n <= 4
    ensures Gathered(n, bs) % Weight(n) == BigEndian(bs)
    ensures Gathered(n, bs) == BigEndian(bs) <==> !SignExtends(n, bs)
  {
    GatheredIs(n, bs);
    ExpandInvertsBigEndian(bs);
    Weights();
    if SignExtends(n, bs) {
      Modular.Unique(BigEndian(bs) + HIGH_HALF, Weight(4), 0xffff_ffff, BigEndian(bs));
    } else {
      Modular.Small(BigEndian(bs), Weight(n));
    }
  }

  // ---------- The backend ----------

  /** The bytes of all acknowledged words and of the current one are what was taken from the queue. */
  ghost predicate ReadHolds(n: nat, value: nat, current: seq<Byte>, acknowledged: seq<nat>, taken: seq<Byte>) {
    && 1 <= n <= MAX_BYTES && |current| <= n && taken == ExpandAll(n, acknowledged) + current
    && (if n <= 4 then value == Gathered(n, current) else current == [])
  }

  /** The bytes put into the queue are those of all words, but for the rest of the current one. */
  ghost predicate WriteHolds(n: nat, valid: bool, partial: nat, value: nat, words: seq<nat>, put: seq<Byte>) {
    && partial <= n && (valid ==> words != [] && words[|words| - 1] == value)
    && put == if valid then ExpandAll(n, words[..|words| - 1]) + Expand(n, value)[..partial] else ExpandAll(n, words)
  }

  lemma ByteTaken(n: nat, value: nat, current: seq<Byte>, acknowledged: seq<nat>, taken: seq<Byte>, b: Byte)
    requires ReadHolds(n, value, current, acknowledged, taken) && |current| < n <= 4
    ensures ReadHolds(n, Or(value, Shifted(b, n - |current| - 1)), current + [b], acknowledged, taken + [b])
  {
    GatheredNext(n, current, b);
    Associate(ExpandAll(n, acknowledged), current, [b]);
  }

  lemma WordTaken(n: nat, value: nat, current: seq<Byte>, acknowledged: seq<nat>, taken: seq<Byte>)
    requires ReadHolds(n, value, current, acknowledged, taken) && |current| == n
    ensures ReadHolds(n, 0, [], acknowledged + [BigEndian(current)], taken) && BigEndian(current) < Weight(n)
  {
    WordIsIn(n, acknowledged, current);
    ExpandInvertsBigEndian(current);
  }

  lemma WordStarted(n: nat, partial: nat, value: nat, words: seq<nat>, put: seq<Byte>, w: nat)
    requires WriteHolds(n, false, partial, value, words, put)
    ensures WriteHolds(n, true, 0, w, words + [w], put)
  {
    assert (words + [w])[..|words|] == words;
    assert put + [] == put;
  }

  lemma BytePut(n: nat, partial: nat, value: nat, words: seq<nat>, put: seq<Byte>)
    requires WriteHolds(n, true, partial, value, words, put) && partial < n
    ensures WriteHolds(n, true, partial + 1, value, words, put + [Expand(n, value)[partial]])
  {
    NextOf(Expand(n, value), partial, ExpandAll(n, words[..|words| - 1]));
  }

  lemma WordPut(n: nat, value: nat, words: seq<nat>, put: seq<Byte>)
    requires WriteHolds(n, true, n, value, words, put)
    ensures WriteHolds(n, false, n, value, words, put)
  {
    WordIsOut(n, words, value);
  }

  // ---------- One end of the connection ----------

  /** The two queues that the network thread fills and empties, and the two items. */
  datatype End = End(dataIn: seq<Byte>, dataOut: seq<Byte>,
                     readValid: bool, readPartial: nat, readValue: nat,
                     writeValid: bool, writePartial: nat, writeValue: nat)

  function TakeOne(e: End, n: nat): End
    requires e.dataIn != [] && e.readPartial < n <= 4
  {
    e.(dataIn := e.dataIn[1..], readPartial := e.readPartial + 1,
       readValue := Or(e.readValue, Shifted(e.dataIn[0], n - e.readPartial - 1)))
  }

  /** The item filled as far as there are bytes. */
  function Fetched(e: End, n: nat): (e': End)
    requires e.readPartial <= n && (n <= 4 || e.dataIn == [])
    ensures e.readPartial <= e'.readPartial <= n && (e'.readValid <==> e'.readPartial == n)
    ensures e'.readPartial == n || e'.dataIn == []
    ensures e'.readPartial + |e'.dataIn| == e.readPartial + |e.dataIn|
    ensures e' == e.(dataIn := e'.dataIn, readValid := e'.readValid, readPartial := e'.readPartial,
                     readValue := e'.readValue)
    decreases |e.dataIn|
  {
    if e.readPartial < n && e.dataIn != [] then Fetched(TakeOne(e, n), n) else e.(readValid := e.readPartial == n)
  }

  function PutOne(e: End, n: nat): End
    requires e.writePartial < n
  {
    var data := (e.writeValue / Weight(n - e.writePartial - 1)) % 256;
    e.(dataOut := e.dataOut + [data], writePartial := e.writePartial + 1)
  }

  /** The item sent as far as there is room. */
  function Emitted(e: End, n: nat): (e': End)
    requires e.writePartial <= n && |e.dataOut| <= CAPACITY
    ensures e.writePartial <= e'.writePartial <= n && (e'.writeValid <==> e'.writePartial < n)
    ensures e'.writePartial == n || |e'.dataOut| == CAPACITY
    ensures |e'.dataOut| - |e.dataOut| == e'.writePartial - e.writePartial && |e'.dataOut| <= CAPACITY
    ensures e' == e.(dataOut := e'.dataOut, writeValid := e'.writeValid, writePartial := e'.writePartial)
    decreases n - e.writePartial
  {
    if e.writePartial < n && |e.dataOut| < CAPACITY then Emitted(PutOne(e, n), n)
    else e.(writeValid := e.writePartial < n)
  }

  predicate Fits(e: End, n: nat) {
    && 1 <= n <= MAX_BYTES && e.readPartial <= n && (e.readValid <==> e.readPartial == n)
    && e.writePartial <= n && (e.writeValid ==> e.writePartial < n) && |e.dataOut| <= CAPACITY
  }

  /** A valid item waits for the design; another one is filled. */
  function ReadMoved(e: End, n: nat): (e': End)
    requires Fits(e, n) && (n <= 4 || e.dataIn == [])
    ensures Fits(e', n) && (n <= 4 || e'.dataIn == []) && |e'.dataIn| <= |e.dataIn|
    ensures e' == e.(dataIn := e'.dataIn, readValid := e'.readValid, readPartial := e'.readPartial,
                     readValue := e'.readValue)
  {
    if e.readValid then e else Fetched(e, n)
  }

  /** A valid item is sent; without one there is nothing to do. */
  function WriteMoved(e: End, n: nat): (e': End)
    requires Fits(e, n)
    ensures Fits(e', n)
    ensures e' == e.(dataOut := e'.dataOut, writeValid := e'.writeValid, writePartial := e'.writePartial)
  {
    if e.writeValid then Emitted(e, n) else e
  }

  function AfterCycle(e: End, n: nat): (e': End)
    requires Fits(e, n) && (n <= 4 || e.dataIn == [])
    ensures Fits(e', n)
  {
    WriteMoved(ReadMoved(e, n), n)
  }

  function AfterAck(e: End): End { e.(readValid := false, readPartial := 0, readValue := 0) }

  function AfterWrite(e: End, w: nat): End { e.(writeValid := true, writePartial := 0, writeValue := w) }

  /**
   * Words of one to eight bytes can be sent. Bytes can be gathered to words of up to four, because the
   * shift of the first byte of a longer one is undefined.
   */
  class Backend {
    const n: nat
    /** The two queues that the network thread fills and empties. */
    var dataIn: seq<Byte>
    var dataOut: seq<Byte>
    var readValid: bool
    var readPartial: nat
    var readValue: nat
    var writeValid: bool
    var writePartial: nat
    var writeValue: nat
    /** All bytes taken from the input queue, and the words acknowledged by the design. */
    ghost var taken: seq<Byte>
    ghost var acknowledged: seq<nat>
    ghost var current: seq<Byte>
    /** All words the design has written, and the bytes put into the output queue. */
    ghost var words: seq<nat>
    ghost var put: seq<Byte>

    ghost function Value(): End
      reads this
    {
      End(dataIn, dataOut, readValid, readPartial, readValue, writeValid, writePartial, writeValue)
    }

    ghost predicate ReadOk()
      reads this
    {
      ReadHolds(n, readValue, current, acknowledged, taken) && |current| == readPartial
    }

    ghost predicate WriteOk()
      reads this
    {
      WriteHolds(n, writeValid, writePartial, writeValue, words, put)
    }

    ghost predicate Valid()
      reads this
    {
      ReadOk() && WriteOk() && (readValid <==> readPartial == n) && (writeValid ==> writePartial < n)
    }

    constructor (n: nat)
      requires 1 <= n <= MAX_BYTES
      ensures Valid() && this.n == n && dataIn == dataOut == []
      ensures taken == put == [] && acknowledged == words == [] && !readValid && !writeValid
    {
      this.n := n;
      dataIn, dataOut := [], [];
      readValid, readPartial, readValue := false, 0, 0;
      writeValid, writePartial, writeValue := false, 0, 0;
      taken, acknowledged, current, words, put := [], [], [], [], [];
    }

    method TakeByte()
      requires ReadOk() && readPartial < n <= 4 && dataIn != []
      modifies `dataIn, `readPartial, `readValue, `taken, `current
      ensures ReadOk() && Value() == TakeOne(old(Value()), n)
      ensures taken + dataIn == old(taken + dataIn)
    {
      FirstMoves(taken, dataIn);
      AddByte(dataIn[0]);
      dataIn := dataIn[1..];
    }

    method AddByte(data: Byte)
      requires ReadOk() && readPartial < n <= 4
      modifies `readPartial, `readValue, `taken, `current
      ensures ReadOk() && taken == old(taken) + [data] && readPartial == old(readPartial) + 1
      ensures readValue == Or(old(readValue), Shifted(data, n - old(readPartial) - 1))
    {
      ByteTaken(n, readValue, current, acknowledged, taken, data);
      readValue := Or(readValue, Shifted(data, n - readPartial - 1));
      readPartial := readPartial + 1;
      taken, current := taken + [data], current + [data];
    }

    /** Takes the missing bytes of the item from the input queue, as far as they are there. */
    method TakeBytes()
      requires ReadOk() && !readValid && (n <= 4 || dataIn == [])
      modifies `dataIn, `readPartial, `readValue, `taken, `current
      ensures ReadOk() && taken + dataIn == old(taken + dataIn) && readPartial <= n
      ensures Fetched(old(Value()), n) == Value().(readValid := readPartial == n)
    {
      for i := readPartial to n
        invariant ReadOk() && i == readPartial && !readValid && (n <= 4 || dataIn == [])
        invariant Fetched(Value(), n) == Fetched(old(Value()), n)
        invariant taken + dataIn == old(taken + dataIn)
      {
        if dataIn == [] {
          break;
        }
        TakeByte();
      }
    }

    /** The item is done once it has all its bytes. */
    method Fetch()
      requires Valid() && !readValid && (n <= 4 || dataIn == [])
      modifies `dataIn, `readValid, `readPartial, `readValue, `taken, `current
      ensures Valid() && taken + dataIn == old(taken + dataIn) && |dataIn| <= old(|dataIn|)
      ensures readValid <==> old(readPartial + |dataIn|) >= n
      ensures Value() == Fetched(old(Value()), n)
    {
      TakeBytes();
      readValid := readPartial == n;
    }

    /** The next byte of the item, picked out by shift and mask, goes into the queue. */
    method PutByte() returns (data: Byte)
      requires WriteOk() && writeValid && writePartial < n
      modifies `dataOut, `writePartial, `put
      ensures WriteOk() && Value() == PutOne(old(Value()), n)
      ensures dataOut == old(dataOut) + [data] && put == old(put) + [data]
    {
      data := (writeValue / Weight(n - writePartial - 1)) % 256;
      ExpandAt(n, writeValue, writePartial);
      BytePut(n, writePartial, writeValue, words, put);
      dataOut := dataOut + [data];
      writePartial := writePartial + 1;
      put := put + [data];
    }

    /** Puts the missing bytes of the item into the output queue, as far as there is room. */
    method PutBytes()
      requires WriteOk() && writeValid && |dataOut| <= CAPACITY
      modifies `dataOut, `writePartial, `put
      ensures WriteOk() && |dataOut| <= CAPACITY
      ensures old(dataOut) <= dataOut && put == old(put) + dataOut[|old(dataOut)|..]
      ensures writePartial <= n && |dataOut| - |old(dataOut)| == writePartial - old(writePartial)
      ensures writePartial < n ==> |dataOut| == CAPACITY
      ensures Emitted(old(Value()), n) == Value().(writeValid := writePartial < n)
    {
      ghost var size, before := |dataOut|, put;
      assert put + dataOut[size..] == put;
      while writePartial < n && |dataOut| < CAPACITY
        invariant WriteOk() && writePartial <= n && size <= |dataOut| <= CAPACITY
        invariant |dataOut| - size == writePartial - old(writePartial)
        invariant Emitted(Value(), n) == Emitted(old(Value()), n)
        invariant old(dataOut) <= dataOut && put == before + dataOut[size..]
      {
        ghost var queue := dataOut;
        var data := PutByte();
        TailGrows(before, queue, size, data);
      }
    }

    /** The item is done once all its bytes are in the queue. */
    method Emit()
      requires Valid() && writeValid && |dataOut| <= CAPACITY
      modifies `dataOut, `writeValid, `writePartial, `put
      ensures Valid() && |dataOut| <= CAPACITY
      ensures old(dataOut) <= dataOut && put == old(put) + dataOut[|old(dataOut)|..]
      ensures writeValid <==> n - old(writePartial) > CAPACITY - |old(dataOut)|
      ensures Value() == Emitted(old(Value()), n)
    {
      PutBytes();
      if writePartial == n {
        WordPut(n, writeValue, words, put);
        writeValid := false;
      }
    }

    method MoveReadItem()
      requires Valid() && |dataOut| <= CAPACITY && (n <= 4 || dataIn == [])
      modifies `dataIn, `readValid, `readPartial, `readValue, `taken, `current
      ensures Valid() && Value() == ReadMoved(old(Value()), n) && taken + dataIn == old(taken + dataIn)
    {
      if !readValid {
        Fetch();
      }
    }

    method MoveWriteItem()
      requires Valid() && |dataOut| <= CAPACITY
      modifies `dataOut, `writeValid, `writePartial, `put
      ensures Valid() && Value() == WriteMoved(old(Value()), n)
      ensures old(dataOut) <= dataOut && put == old(put) + dataOut[|old(dataOut)|..]
    {
      assert put == put + dataOut[|dataOut|..];
      if writeValid {
        Emit();
      }
    }

    /** What the design asks for once a clock cycle: is there a word to read, and may one be written? */
    method NextCycle(connected: bool) returns (incoming: bool, outgoing: bool)
      requires Valid() && |dataOut| <= CAPACITY && (n <= 4 || dataIn == [])
      modifies `dataIn, `readValid, `readPartial, `readValue, `taken, `current, `dataOut, `writeValid, `writePartial
      modifies `put
      ensures Valid() && |dataOut| <= CAPACITY
      ensures taken + dataIn == old(taken + dataIn) && |dataIn| <= old(|dataIn|)
      ensures old(dataOut) <= dataOut && put == old(put) + dataOut[|old(dataOut)|..]
      ensures connected ==> incoming == readValid && outgoing == !writeValid && Value() == AfterCycle(old(Value()), n)
      ensures !connected ==> !incoming && !outgoing && unchanged(this)
    {
      if !connected {
        assert put == put + dataOut[|dataOut|..];
        return false, false;
      }
      MoveReadItem();
      MoveWriteItem();
      return readValid, !writeValid;
    }

    method ReadData() returns (w: nat)
      requires Valid() && readValid
      ensures w % Weight(n) == BigEndian(current) && Expand(n, w % Weight(n)) == current
    {
      w := readValue;
      GatheredWord(n, current);
      ExpandInvertsBigEndian(current);
    }

    method ReadAck()
      requires Valid() && readValid
      modifies `readValid, `readPartial, `readValue, `acknowledged, `current
      ensures Valid() && !readValid && acknowledged == old(acknowledged) + [BigEndian(old(current))]
      ensures BigEndian(old(current)) < Weight(n) && Value() == AfterAck(old(Value()))
    {
      WordTaken(n, readValue, current, acknowledged, taken);
      ghost var all := acknowledged + [BigEndian(current)];
      readValid, readPartial, readValue := false, 0, 0;
      acknowledged, current := all, [];
    }

    method WriteData(w: nat)
      requires Valid() && !writeValid
      modifies `writeValid, `writePartial, `writeValue, `words
      ensures Valid() && words == old(words) + [w] && Value() == AfterWrite(old(Value()), w)
    {
      WordStarted(n, writePartial, writeValue, words, put, w);
      writeValid, writePartial, writeValue := true, 0, w;
      words := words + [w];
    }
  }

  lemma FirstMoves<T>(a: seq<T>, b: seq<T>)
    requires b != []
    ensures a + [b[0]] + b[1..] == a + b
  {}

  lemma TailGrows<T>(a: seq<T>, b: seq<T>, n: nat, x: T)
    requires n <= |b|
    ensures a + (b + [x])[n..] == a + b[n..] + [x]
  {}

  lemma WordIsIn(n: nat, words: seq<nat>, bs: seq<Byte>)
    requires |bs| == n
    ensures ExpandAll(n, words) + bs == ExpandAll(n, words + [BigEndian(bs)]) + []
  {
    ExpandInvertsBigEndian(bs);
    ExpandAllOfAppend(n, words, BigEndian(bs));
  }

  lemma WordIsOut(n: nat, words: seq<nat>, w: nat)
    requires words != [] && words[|words| - 1] == w
    ensures ExpandAll(n, words[..|words| - 1]) + Expand(n, w)[..n] == ExpandAll(n, words)
  {
    assert Expand(n, w)[..n] == Expand(n, w);
  }

  lemma NextOf(bytes: seq<Byte>, i: nat, before: seq<Byte>)
    requires i < |bytes|
    ensures before + bytes[..i + 1] == before + bytes[..i] + [bytes[i]]
  {}

  lemma ExpandAllOfAppend(n: nat, ws: seq<nat>, w: nat)
    ensures ExpandAll(n, ws + [w]) == ExpandAll(n, ws) + Expand(n, w)
  {
    assert (ws + [w])[..|ws|] == ws;
  }

  /** Words whose bytes are among the first of those of other words are the first of these words. */
  lemma {:induction false} FirstBytesFirstWords(n: nat, words: seq<nat>, acknowledged: seq<nat>, taken: seq<Byte>)
    requires 1 <= n && (forall i :: 0 <= i < |words| ==> words[i] < Weight(n))
    requires forall i :: 0 <= i < |acknowledged| ==> acknowledged[i] < Weight(n)
    requires ExpandAll(n, acknowledged) <= taken <= ExpandAll(n, words)
    ensures acknowledged <= words
    decreases |words|
  {
    ExpandAllLength(n, words);
    ExpandAllLength(n, acknowledged);
    if |acknowledged| >= |words| {
      AtLeast(n, |words|, |acknowledged|);
      ExpandAllInjective(n, acknowledged, words);
    } else {
      var front, last := words[..|words| - 1], words[|words| - 1];
      ExpandAllLength(n, front);
      AtLeast(n, |acknowledged|, |front|);
      assert ExpandAll(n, acknowledged) == ExpandAll(n, words)[..n * |acknowledged|];
      assert ExpandAll(n, words)[..n * |acknowledged|] == ExpandAll(n, front)[..n * |acknowledged|];
      FirstBytesFirstWords(n, front, acknowledged, ExpandAll(n, acknowledged));
    }
  }

  lemma AtLeast(n: nat, a: nat, b: nat)
    requires a <= b
    ensures n * a <= n * b
  {}
}
