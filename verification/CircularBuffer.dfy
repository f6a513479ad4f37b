/**
 * The circular buffer between the user's thread and a communication thread, as one object:
 * every operation of the copying and of the zero-copy interface, against one byte queue.
 */
module CircularBuffer {
  import opened Bits
  import opened Bytes
  import Modular

  /** The size of a temporary buffer is computed in a signed 32-bit integer, which holds it for requests below this. */
  const TMP_LIMIT: nat := 0x4000_0000

  /** A split read keeps the length up to the end of the array in a signed 32-bit integer. */
  const INT_LIMIT: nat := 0x8000_0000

  datatype Status = Ok | Einval

  /** The pointer handed out by reserve and peek. */
  datatype Region = Nowhere | InPlace(offset: nat) | Temporary(buf: array<Byte>)

  /** The position `i` places after `start` in a ring of `size` places. */
  function Wrap(start: nat, i: nat, size: nat): (p: nat)
    requires start < size && i <= size
    ensures p < size
  {
    if start + i < size then start + i else start + i - size
  }

  /** `n` bytes of the ring `d` from position `start` on, wrapping at its end. */
  function Slots(d: seq<Byte>, start: nat, n: nat): (s: seq<Byte>)
    requires start < |d| && n <= |d|
    ensures |s| == n
  {
    seq(n, i requires 0 <= i < n => d[Wrap(start, i, |d|)])
  }

  lemma SlotsInPieces(d: seq<Byte>, start: nat, n: nat)
    requires start < |d| && n <= |d|
    ensures start + n <= |d| ==> Slots(d, start, n) == d[start..start + n]
    ensures |d| < start + n ==> Slots(d, start, n) == d[start..] + d[..n - (|d| - start)]
  {}

  lemma SlotsTail(d: seq<Byte>, start: nat, n: nat, k: nat)
    requires start < |d| && k <= n <= |d|
    ensures Slots(d, Wrap(start, k, |d|), n - k) == Slots(d, start, n)[k..]
  {}

  lemma SlotsPrefix(d: seq<Byte>, start: nat, k: nat, n: nat)
    requires start < |d| && k <= n <= |d|
    ensures Slots(d, start, k) == Slots(d, start, n)[..k]
  {}

  /** `d` with the bytes `s` copied over it from position `p` on. */
  function Overwrite(d: seq<Byte>, p: nat, s: seq<Byte>): (d': seq<Byte>)
    requires p + |s| <= |d|
    ensures |d'| == |d|
  {
    d[..p] + s + d[p + |s|..]
  }

  /** Bytes copied behind `n` used slots, in one piece or split at the end, extend the slots. */
  lemma SlotsExtend(d: seq<Byte>, start: nat, n: nat, s: seq<Byte>)
    requires start < |d| && n + |s| <= |d|
    ensures var p := Wrap(start, n, |d|);
      && (p + |s| <= |d| ==> Slots(Overwrite(d, p, s), start, n + |s|) == Slots(d, start, n) + s)
      && (|d| < p + |s| ==>
            var e := |d| - p;
            Slots(Overwrite(Overwrite(d, p, s[..e]), 0, s[e..]), start, n + |s|) == Slots(d, start, n) + s)
  {}

  /** Free bytes that are already in place become used slots when the pointer passes them. */
  lemma SlotsAbsorb(d: seq<Byte>, start: nat, n: nat, k: nat)
    requires start < |d| && n + k <= |d| && Wrap(start, n, |d|) + k <= |d|
    ensures Slots(d, start, n + k) == Slots(d, start, n) + d[Wrap(start, n, |d|)..Wrap(start, n, |d|) + k]
  {}

  /** The array position of a pointer: `p & (size - 1)`, see `MasksAreWraps`. */
  function Index(p: nat, size: nat): (i: nat)
    requires p < 2 * size
    ensures i < size
  {
    if p < size then p else p - size
  }

  /** Adding to a pointer: `(val1 + val2) & (2 * size - 1)`, see `MasksAreWraps`. */
  function PtrAdd(val1: nat, val2: nat, size: nat): (p: nat)
    requires val1 + val2 < 4 * size
    ensures p < 2 * size
  {
    if val1 + val2 < 2 * size then val1 + val2 else val1 + val2 - 2 * size
  }

  /** The other lap of a position: `p ^ size`, see `MasksAreWraps`. */
  function OtherLap(p: nat, size: nat): (q: nat)
    requires p < 2 * size
    ensures q < 2 * size
  {
    if p < size then p + size else p - size
  }

  lemma MaskIsPtrAdd(p: nat, size: nat, k: nat)
    requires size == Pow2(k) && p < 4 * size
    ensures And(p, 2 * size - 1) == PtrAdd(p, 0, size)
  {
    MaskIsRemainder(p, k + 1);
    Modular.Unique(p, 2 * size, if p < 2 * size then 0 else 1, PtrAdd(p, 0, size));
  }

  lemma MaskIsIndex(p: nat, size: nat, k: nat)
    requires size == Pow2(k) && p < 2 * size
    ensures And(p, size - 1) == Index(p, size)
  {
    MaskIsRemainder(p, k);
    Modular.Unique(p, size, if p < size then 0 else 1, Index(p, size));
  }

  /** On the sizes that initialisation accepts, the bit operations are the wraps used here. */
  lemma MasksAreWraps(p: nat, size: nat)
    requires size != 0 && And(size, size - 1) == 0
    ensures p < 4 * size ==> And(p, 2 * size - 1) == PtrAdd(p, 0, size)
    ensures p < 2 * size ==> And(p, size - 1) == Index(p, size) && Xor(p, size) == OtherLap(p, size)
  {
    var k := PowerOfTwoTest(size);
    if p < 4 * size {
      MaskIsPtrAdd(p, size, k);
    }
    if p < 2 * size {
      MaskIsIndex(p, size, k);
      XorTopBit(p, k);
    }
  }

  /** The number of stored bytes that the two pointers stand for. */
  function Stored(wr: nat, rd: nat, size: nat): (n: int) {
    if wr >= rd then wr - rd else wr + 2 * size - rd
  }

  ghost predicate PointersFit(wr: nat, rd: nat, size: nat) {
    wr < 2 * size && rd < 2 * size && 0 <= Stored(wr, rd, size) <= size
  }

  function IsFull(wr: nat, rd: nat, size: nat): bool
    requires rd < 2 * size
  {
    wr == OtherLap(rd, size)
  }

  /** The distance of the two array positions, which cannot tell a full buffer from an empty one. */
  function PositionDistance(wr: nat, rd: nat, size: nat): (level: int)
    requires wr < 2 * size && rd < 2 * size
    ensures PointersFit(wr, rd, size) ==>
      level == if Stored(wr, rd, size) == size then 0 else Stored(wr, rd, size)
  {
    var level := Index(wr, size) - Index(rd, size);
    if level < 0 then level + size else level
  }

  /** The fill level the C code computes from the two positions. */
  function FillLevel(wr: nat, rd: nat, size: nat): (level: int)
    requires wr < 2 * size && rd < 2 * size
    ensures PointersFit(wr, rd, size) ==> level == Stored(wr, rd, size)
    ensures PointersFit(wr, rd, size) ==> (IsFull(wr, rd, size) <==> level == size)
  {
    if IsFull(wr, rd, size) then size else PositionDistance(wr, rd, size)
  }

  /**
   * A power of two above the request, or the maximum if that is smaller: the size of a
   * temporary buffer.
   */
  method CalcBufsize(sizeReq: nat, sizeMax: nat) returns (r: nat)
    requires 0 < sizeReq < TMP_LIMIT
    ensures IsNextPowerOrMax(sizeReq, sizeMax, r)
    ensures r <= sizeMax && (sizeReq <= sizeMax ==> sizeReq <= r)
  {
    var log2Size := 0;
    var sizeTmp: nat := sizeReq / 2;
    while sizeTmp != 0
      invariant IsShifted(sizeReq, log2Size + 1, sizeTmp)
      invariant Pow2(log2Size) <= sizeReq
      decreases sizeTmp
    {
      ShiftOnce(sizeReq, log2Size + 1, sizeTmp);
      log2Size, sizeTmp := log2Size + 1, sizeTmp / 2;
    }
    ShiftOnce(sizeReq, log2Size + 1, sizeTmp);
    var powTwo := Pow2(log2Size + 1);
    r := if powTwo > sizeMax then sizeMax else powTwo;
    assert Pow2(log2Size) <= sizeReq < Pow2(log2Size + 1);
  }

  ghost predicate IsNextPowerOrMax(sizeReq: nat, sizeMax: nat, r: nat) {
    exists k: nat :: Pow2(k) <= sizeReq < Pow2(k + 1) && r == if Pow2(k + 1) > sizeMax then sizeMax else Pow2(k + 1)
  }

  /** `y` is `x >> k`. */
  ghost predicate IsShifted(x: nat, k: nat, y: nat) {
    Pow2(k) * y <= x < Pow2(k) * (y + 1)
  }

  lemma ShiftOnce(x: nat, k: nat, y: nat)
    requires IsShifted(x, k, y)
    ensures IsShifted(x, k + 1, y / 2)
    ensures y != 0 ==> Pow2(k) <= x
    ensures y == 0 ==> x < Pow2(k)
  {
    var p, h, c := Pow2(k), y / 2, y % 2;
    assert p * y == (2 * p) * h + p * c && p * (y + 1) == (2 * p) * h + p * (c + 1);
    if y != 0 {
      Modular.MulAtLeast(p, y);
    }
  }

  method MemCpy(dst: array<Byte>, p: nat, src: seq<Byte>)
    requires p + |src| <= dst.Length
    modifies dst
    ensures dst[..] == Overwrite(old(dst[..]), p, src)
  {
    forall i | 0 <= i < |src| {
      dst[p + i] := src[i];
    }
  }

  /** Copies `bytes` behind the `stored` used slots, in one piece or split at the end. */
  method CopyIn(data: array<Byte>, position: nat, bytes: seq<Byte>, ghost start: nat, ghost stored: nat)
    requires start < data.Length && stored + |bytes| <= data.Length
    requires position == Wrap(start, stored, data.Length)
    modifies data
    ensures Slots(data[..], start, stored + |bytes|) == Slots(old(data[..]), start, stored) + bytes
  {
    SlotsExtend(data[..], start, stored, bytes);
    if position + |bytes| <= data.Length {
      MemCpy(data, position, bytes);
    } else {
      var sizeAtEnd := data.Length - position;
      MemCpy(data, position, bytes[..sizeAtEnd]);
      MemCpy(data, 0, bytes[sizeAtEnd..]);
    }
  }

  /**
   * Copies a temporary buffer back for a commit of `n` bytes. The part up to the array's end
   * is copied whole even if fewer bytes are committed; it lies within the reserved space.
   */
  method CopyBack(data: array<Byte>, position: nat, buf: array<Byte>, n: nat, ghost m: nat,
                  ghost start: nat, ghost stored: nat)
    requires data != buf && start < data.Length && n <= m <= buf.Length && stored + m <= data.Length
    requires position == Wrap(start, stored, data.Length) && data.Length < position + m
    modifies data
    ensures Slots(data[..], start, stored + n) == Slots(old(data[..]), start, stored) + buf[..n]
  {
    var sizeAtEnd := data.Length - position;
    MemCpy(data, position, buf[..sizeAtEnd]);
    SlotsExtend(old(data[..]), start, stored, buf[..sizeAtEnd]);
    if n > sizeAtEnd {
      MemCpy(data, 0, buf[sizeAtEnd..n]);
      SlotsExtend(old(data[..]), start, stored, buf[..n]);
      assert buf[..n][..sizeAtEnd] == buf[..sizeAtEnd] && buf[..n][sizeAtEnd..] == buf[sizeAtEnd..n];
    } else {
      SlotsPrefix(data[..], start, stored + n, stored + sizeAtEnd);
    }
  }

  /** Copies `n` bytes that wrap at the array's end together. */
  method CopyTogether(tmp: array<Byte>, data: array<Byte>, position: nat, n: nat)
    requires tmp != data && n <= tmp.Length
    requires position < data.Length && n <= data.Length < position + n
    modifies tmp
    ensures tmp[..n] == Slots(data[..], position, n)
  {
    SlotsInPieces(data[..], position, n);
    var sizeToEnd := data.Length - position;
    MemCpy(tmp, 0, data[position..]);
    MemCpy(tmp, sizeToEnd, data[..n - sizeToEnd]);
    assert data[..][position..] + data[..][..n - sizeToEnd] == tmp[..n];
  }

  /** The first `n` bytes behind a handed-out pointer. */
  ghost function BytesAt(data: array<Byte>, h: Region, n: nat): (s: seq<Byte>)
    reads data, if h.Temporary? then {h.buf} else {}
    requires h.InPlace? ==> h.offset + n <= data.Length
    requires h.Temporary? ==> n <= h.buf.Length
    requires h.Nowhere? ==> n == 0
    ensures |s| == n
  {
    match h
    case Nowhere => []
    case InPlace(offset) => data[offset..offset + n]
    case Temporary(buf) => buf[..n]
  }

  /** A temporary buffer for `n` bytes is there, hinted at, or small enough for its size to be computed. */
  predicate CanHold(n: nat, tmp: array?<Byte>, hint: nat) {
    n < TMP_LIMIT || n <= hint || (tmp != null && n <= tmp.Length)
  }

  class CBuf {
    const size: nat
    const data: array<Byte>
    var wrPtr: nat
    var rdPtr: nat
    var hintMaxReadSize: nat
    var readTmp: array?<Byte>
    var hintMaxWriteSize: nat
    var writeTmp: array?<Byte>
    /** The space last reserved and not yet committed. */
    ghost var reserved: Region
    ghost var reservedSize: nat

    ghost predicate Valid()
      reads this
    {
      && PointersFit(wrPtr, rdPtr, size)
      && data.Length == size
      && data != readTmp && data != writeTmp && (readTmp != null ==> readTmp != writeTmp)
      && ReservationValid()
    }

    /** A reservation lies within the free space, at the write position. */
    ghost predicate ReservationValid()
      reads this
      requires PointersFit(wrPtr, rdPtr, size)
    {
      && reservedSize <= size - Stored(wrPtr, rdPtr, size)
      && match reserved
         case Nowhere => reservedSize == 0
         case InPlace(offset) => offset == Index(wrPtr, size) && offset + reservedSize <= size
         case Temporary(buf) =>
           && buf == writeTmp && reservedSize <= buf.Length
           && size < Index(wrPtr, size) + reservedSize
    }

    ghost function Contents(): (s: seq<Byte>)
      reads this, data
      requires Valid()
      ensures |s| == Stored(wrPtr, rdPtr, size)
    {
      Slots(data[..], Index(rdPtr, size), Stored(wrPtr, rdPtr, size))
    }

    ghost function ReservedBytes(): (s: seq<Byte>)
      reads this, data, if reserved.Temporary? then {reserved.buf} else {}
      requires Valid()
      ensures |s| == reservedSize
    {
      BytesAt(data, reserved, reservedSize)
    }

    constructor (size: nat)
      requires size != 0 && And(size, size - 1) == 0
      ensures Valid() && Contents() == [] && this.size == size && fresh(data)
    {
      this.size := size;
      data := new Byte[size](_ => 0);
      wrPtr, rdPtr := 0, 0;
      hintMaxReadSize, readTmp := 0, null;
      hintMaxWriteSize, writeTmp := 0, null;
      reserved, reservedSize := Nowhere, 0;
    }

    /** Copies `bytes` in, or copies nothing at all. */
    method Write(bytes: seq<Byte>) returns (rv: Status)
      requires Valid()
      modifies this`wrPtr, this`reserved, this`reservedSize, data
      ensures Valid()
      ensures rv == Ok <==> |bytes| <= size - |old(Contents())|
      ensures Contents() == if rv == Ok then old(Contents()) + bytes else old(Contents())
      ensures rv == Einval ==> unchanged(this) && unchanged(data)
    {
      var freeLevel := size - FillLevel(wrPtr, rdPtr, size);
      if |bytes| > freeLevel {
        return Einval;
      }
      CopyIn(data, Index(wrPtr, size), bytes, Index(rdPtr, size), Stored(wrPtr, rdPtr, size));
      Publish(|bytes|);
      return Ok;
    }

    /** Hands out room for `n` bytes at the write position; nothing is stored yet. */
    method Reserve(n: nat) returns (rv: Status, h: Region)
      requires Valid()
      requires n <= size - |Contents()| && size < Index(wrPtr, size) + n ==> CanHold(n, writeTmp, hintMaxWriteSize)
      modifies this`writeTmp, this`reserved, this`reservedSize
      ensures Valid() && Contents() == old(Contents())
      ensures rv == Ok <==> n <= size - |Contents()|
      ensures rv == Ok ==> h == reserved && !h.Nowhere? && reservedSize == n
      ensures old(writeTmp) != null ==> writeTmp != null && writeTmp.Length >= old(writeTmp).Length
      ensures rv == Einval ==> unchanged(this)
      ensures writeTmp == old(writeTmp) || fresh(writeTmp)
    {
      var freeLevel := size - FillLevel(wrPtr, rdPtr, size);
      if n > freeLevel {
        return Einval, Nowhere;
      }
      if Index(wrPtr, size) + n <= size {
        h := InPlace(Index(wrPtr, size));
      } else {
        if writeTmp == null || writeTmp.Length < n {
          var tmpSize := hintMaxWriteSize;
          if hintMaxWriteSize < n {
            tmpSize := CalcBufsize(n, size);
          }
          writeTmp := new Byte[tmpSize](_ => 0);
        }
        h := Temporary(writeTmp);
      }
      reserved, reservedSize := h, n;
      return Ok, h;
    }

    /** The device behind the zero-copy interface stores one byte into the reserved space. */
    method StoreReserved(h: Region, i: nat, b: Byte)
      requires Valid() && h == reserved && i < reservedSize
      modifies data, if h.Temporary? then {h.buf} else {}
      ensures Valid() && Contents() == old(Contents())
      ensures ReservedBytes() == old(ReservedBytes())[i := b]
    {
      match h
      case InPlace(offset) => data[offset + i] := b;
      case Temporary(buf) => buf[i] := b;
    }

    /** Stores the first `n` reserved bytes; fewer than reserved is allowed. */
    method Commit(h: Region, n: nat) returns (rv: Status)
      requires Valid() && n <= reservedSize && (n > 0 ==> h == reserved)
      modifies this`wrPtr, this`reserved, this`reservedSize, data
      ensures Valid() && rv == Ok
      ensures Contents() == old(Contents()) + old(ReservedBytes())[..n]
    {
      if n == 0 {
        return Ok;
      }
      PlaceReserved(h, n);
      Publish(n);
      return Ok;
    }

    /** Brings the first `n` reserved bytes to their final place behind the stored ones. */
    method PlaceReserved(h: Region, n: nat)
      requires Valid() && n <= reservedSize && h == reserved && !h.Nowhere?
      modifies data
      ensures Valid()
      ensures Slots(data[..], Index(rdPtr, size), Stored(wrPtr, rdPtr, size) + n)
        == old(Contents()) + old(ReservedBytes())[..n]
    {
      ghost var bytes := ReservedBytes();
      assert BytesAt(data, h, n) == bytes[..n];
      if h.Temporary? && h.buf == writeTmp {
        CopyBack(data, Index(wrPtr, size), h.buf, n, reservedSize, Index(rdPtr, size), Stored(wrPtr, rdPtr, size));
      } else {
        SlotsAbsorb(data[..], Index(rdPtr, size), Stored(wrPtr, rdPtr, size), n);
      }
    }

    /** Moves the write position over `n` bytes that are already in place. */
    method Publish(n: nat)
      requires Valid() && Stored(wrPtr, rdPtr, size) + n <= size
      modifies this`wrPtr, this`reserved, this`reservedSize
      ensures Valid()
      ensures Contents() == Slots(data[..], Index(rdPtr, size), old(Stored(wrPtr, rdPtr, size)) + n)
    {
      wrPtr := PtrAdd(wrPtr, n, size);
      reserved, reservedSize := Nowhere, 0;
    }

    /** A read of `n` bytes either does not wrap, or the length up to the end of the array fits its integer. */
    ghost predicate SplitFits(n: nat)
      reads this, data
      requires Valid()
    {
      n <= |Contents()| && size < Index(rdPtr, size) + n ==> size - Index(rdPtr, size) < INT_LIMIT
    }

    method Read(n: nat) returns (rv: Status, bytes: seq<Byte>)
      requires Valid() && SplitFits(n)
      modifies this`rdPtr
      ensures Valid()
      ensures rv == Ok <==> n <= |old(Contents())|
      ensures rv == Ok ==> bytes == old(Contents())[..n] && Contents() == old(Contents())[n..]
      ensures rv == Einval ==> unchanged(this)
    {
      if n == 0 {
        return Ok, [];
      }
      if FillLevel(wrPtr, rdPtr, size) < n {
        return Einval, [];
      }
      var position := Index(rdPtr, size);
      SlotsInPieces(data[..], position, n);
      if position + n <= size {
        bytes := data[position..position + n];
      } else {
        var sizeToEnd := size - position;
        bytes := data[position..] + data[..n - sizeToEnd];
      }
      Advance(n);
      return Ok, bytes;
    }

    /** Moves the read position over `n` stored bytes. */
    method Advance(n: nat)
      requires Valid() && n <= |Contents()|
      modifies this`rdPtr
      ensures Valid() && Contents() == old(Contents())[n..]
    {
      SlotsTail(data[..], Index(rdPtr, size), Stored(wrPtr, rdPtr, size), n);
      rdPtr := PtrAdd(rdPtr, n, size);
    }

    /** Makes the temporary buffer large enough for `n` bytes. */
    method GrowReadTmp(n: nat)
      requires Valid() && n <= size && CanHold(n, readTmp, hintMaxReadSize)
      modifies this`readTmp
      ensures Valid() && readTmp != null && n <= readTmp.Length
      ensures readTmp == old(readTmp) || fresh(readTmp)
      ensures old(readTmp) != null ==> readTmp.Length >= old(readTmp).Length
    {
      if readTmp == null || readTmp.Length < n {
        var tmpSize := hintMaxReadSize;
        if hintMaxReadSize < n {
          tmpSize := CalcBufsize(n, size);
        }
        readTmp := new Byte[tmpSize](_ => 0);
      }
    }

    /** A pointer to the next `n` bytes in one piece, copied together if they wrap. */
    method Peek(n: nat) returns (rv: Status, h: Region)
      requires Valid() && SplitFits(n)
      requires n <= |Contents()| && size < Index(rdPtr, size) + n ==> CanHold(n, readTmp, hintMaxReadSize)
      modifies this`readTmp, if readTmp == null then {} else {readTmp}
      ensures Valid() && Contents() == old(Contents())
      ensures rv == Ok <==> n <= |Contents()|
      ensures rv == Ok ==>
        && (n == 0 <==> h.Nowhere?)
        && (h.InPlace? ==> h.offset + n <= data.Length)
        && (h.Temporary? ==> h.buf == readTmp && n <= h.buf.Length)
        && BytesAt(data, h, n) == Contents()[..n]
      ensures old(readTmp) != null ==> readTmp != null && readTmp.Length >= old(readTmp).Length
      ensures readTmp == old(readTmp) || fresh(readTmp)
    {
      if n == 0 {
        return Ok, Nowhere;
      }
      if FillLevel(wrPtr, rdPtr, size) < n {
        return Einval, Nowhere;
      }
      var position := Index(rdPtr, size);
      SlotsInPieces(data[..], position, n);
      if position + n <= size {
        return Ok, InPlace(position);
      }
      GrowReadTmp(n);
      CopyTogether(readTmp, data, position, n);
      return Ok, Temporary(readTmp);
    }

    method Discard(n: nat) returns (rv: Status)
      requires Valid()
      modifies this`rdPtr
      ensures Valid()
      ensures rv == Ok <==> n <= |old(Contents())|
      ensures Contents() == if rv == Ok then old(Contents())[n..] else old(Contents())
      ensures rv == Einval ==> unchanged(this)
    {
      if FillLevel(wrPtr, rdPtr, size) < n {
        return Einval;
      }
      Advance(n);
      return Ok;
    }
  }
}
