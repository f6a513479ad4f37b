/**
 * The text interface to OpenOCD: words as little-endian hexadecimal fields, and a reader that
 * takes the answer in pieces and keeps an unfinished field for the next piece.
 */
module JtagHex {
  import opened Bytes
  import Sequences

  const SPACE: char := ' '
  const END: char := '\U{1A}'
  const DIGITS: string := "0123456789abcdef"

  predicate IsSeparator(c: char) { c == SPACE || c == END }

  function HexDigit(d: nat): char
    requires d < 16
  {
    DIGITS[d]
  }

  predicate IsHexDigit(c: char) { '0' <= c <= '9' || 'a' <= c <= 'f' || 'A' <= c <= 'F' }

  /** The value of a digit in either case. */
  function HexValue(c: char): (v: nat)
    requires IsHexDigit(c)
    ensures v < 16
  {
    if c <= '9' then c as int - '0' as int
    else if c <= 'F' then c as int - 'A' as int + 10
    else c as int - 'a' as int + 10
  }

  predicate IsBlank(c: char) { c == ' ' || '\U{9}' <= c <= '\U{D}' }

  function HexByte(b: Byte): (s: string)
    ensures |s| == 2
  {
    [HexDigit(b / 16), HexDigit(b % 16)]
  }

  /** The number at the start of two characters, after a blank or a sign; none counts as zero. */
  function ByteOf(s: string): (b: Byte)
    requires |s| == 2
  {
    if IsHexDigit(s[0]) then
      if IsHexDigit(s[1]) then 16 * HexValue(s[0]) + HexValue(s[1]) else HexValue(s[0])
    else if !IsHexDigit(s[1]) then 0
    else if s[0] == '-' then (256 - HexValue(s[1])) % 256
    else if s[0] == '+' || IsBlank(s[0]) then HexValue(s[1])
    else 0
  }

  // ---------- The number at the start of a string ----------

  function SkipBlanks(s: string): string {
    if s != [] && IsBlank(s[0]) then SkipBlanks(s[1..]) else s
  }

  /** The digits at the start, after `n` has been read. */
  function Digits(n: nat, s: string): nat
    decreases |s|
  {
    if s != [] && IsHexDigit(s[0]) then Digits(16 * n + HexValue(s[0]), s[1..]) else n
  }

  /** Blanks, a sign, and digits as far as they go. A prefix `0x` needs a digit behind it. */
  function ToNumber(s: string): int {
    var t := SkipBlanks(s);
    var negative := t != [] && t[0] == '-';
    var n := Digits(0, if t != [] && (negative || t[0] == '+') then t[1..] else t);
    if negative then 0 - n else n
  }

  lemma DigitsOfOne(n: nat, d: char)
    ensures Digits(n, [d]) == if IsHexDigit(d) then 16 * n + HexValue(d) else n
  {
    assert [d][1..] == [];
  }

  lemma DigitsOfTwo(s: string)
    requires |s| == 2
    ensures Digits(0, s) == if IsHexDigit(s[0]) then Digits(HexValue(s[0]), [s[1]]) else 0
  {
    assert s[1..] == [s[1]];
  }

  lemma BlankSkipped(s: string)
    requires |s| == 2
    ensures SkipBlanks(s) == if !IsBlank(s[0]) then s else if IsBlank(s[1]) then [] else [s[1]]
  {
    if IsBlank(s[0]) {
      assert s[1..] == [s[1]];
      OneSkipped(s[1..]);
    }
  }

  lemma OneSkipped(s: string)
    requires |s| == 1
    ensures SkipBlanks(s) == if IsBlank(s[0]) then [] else s
  {
    assert s[1..] == [];
  }

  lemma DigitIsFirst(s: string)
    requires |s| == 2 && IsHexDigit(s[0])
    ensures ByteOf(s) == ToNumber(s) % 256
  {
    BlankSkipped(s);
    DigitsOfTwo(s);
    DigitsOfOne(HexValue(s[0]), s[1]);
  }

  lemma SignIsFirst(s: string)
    requires |s| == 2 && (s[0] == '-' || s[0] == '+')
    ensures ByteOf(s) == ToNumber(s) % 256
  {
    BlankSkipped(s);
    DigitsOfOne(0, s[1]);
    assert s[1..] == [s[1]];
  }

  lemma BlankIsFirst(s: string)
    requires |s| == 2 && IsBlank(s[0])
    ensures ByteOf(s) == ToNumber(s) % 256
  {
    BlankSkipped(s);
    DigitsOfOne(0, s[1]);
    assert [s[1]][1..] == [];
  }

  /** The value of two characters, whatever they are, is that number, cut to a byte. */
  lemma ByteIsNumber(s: string)
    requires |s| == 2
    ensures ByteOf(s) == ToNumber(s) % 256
  {
    if IsHexDigit(s[0]) {
      DigitIsFirst(s);
    } else if s[0] == '-' || s[0] == '+' {
      SignIsFirst(s);
    } else if IsBlank(s[0]) {
      BlankIsFirst(s);
    } else {
      BlankSkipped(s);
      DigitsOfTwo(s);
    }
  }

  lemma HexDigitHasValue(d: nat)
    requires d < 16
    ensures IsHexDigit(HexDigit(d)) && HexValue(HexDigit(d)) == d && !IsSeparator(HexDigit(d))
  {
    if d < 10 {
      assert HexDigit(d) == "0123456789"[d];
    } else {
      assert HexDigit(d) == "abcdef"[d - 10];
    }
  }

  lemma HexByteHasValue(b: Byte)
    ensures ByteOf(HexByte(b)) == b
  {
    HexDigitHasValue(b / 16);
    HexDigitHasValue(b % 16);
  }

  /** A field: the last byte comes first. */
  function EncodeField(bs: seq<Byte>): (s: string)
    ensures |s| == 2 * |bs|
  {
    if bs == [] then [] else EncodeField(bs[1..]) + HexByte(bs[0])
  }

  function DecodeField(s: string): (bs: seq<Byte>)
    ensures |bs| == |s| / 2
  {
    if |s| < 2 then [] else [ByteOf(s[|s| - 2..])] + DecodeField(s[..|s| - 2])
  }

  lemma {:induction false} DecodeInvertsEncode(bs: seq<Byte>)
    ensures DecodeField(EncodeField(bs)) == bs
  {
    if bs != [] {
      var s := EncodeField(bs);
      assert s[|s| - 2..] == HexByte(bs[0]) && s[..|s| - 2] == EncodeField(bs[1..]);
      HexByteHasValue(bs[0]);
      DecodeInvertsEncode(bs[1..]);
    }
  }

  function LowerCase(c: char): char { if 'A' <= c <= 'F' then c - 'A' + 'a' else c }

  lemma CaseDoesNotMatter(c: char)
    ensures IsHexDigit(LowerCase(c)) <==> IsHexDigit(c)
    ensures IsHexDigit(c) ==> HexValue(c) == HexValue(LowerCase(c))
  {}

  /** The same text but for the case of its hexadecimal digits, which are lower case in `t`. */
  predicate SameButCase(s: string, t: string) {
    |s| == |t| && forall i :: 0 <= i < |s| ==> LowerCase(s[i]) == t[i]
  }

  lemma CasesInTwo(s: string, t: string, n: nat)
    requires SameButCase(s, t) && n <= |s|
    ensures SameButCase(s[..n], t[..n]) && SameButCase(s[n..], t[n..])
  {}

  /** A field is read in either case, or in both. */
  lemma {:induction false} EitherCaseDecodes(s: string, bs: seq<Byte>)
    requires SameButCase(s, EncodeField(bs))
    ensures DecodeField(s) == bs
    decreases |bs|
  {
    if bs != [] {
      var n, t := |s| - 2, EncodeField(bs);
      assert t[..n] == EncodeField(bs[1..]) && t[n..] == HexByte(bs[0]);
      CasesInTwo(s, t, n);
      HexByteHasValue(bs[0]);
      PairInEitherCase(s[n..], t[n..]);
      EitherCaseDecodes(s[..n], bs[1..]);
    }
  }

  lemma PairInEitherCase(s: string, t: string)
    requires SameButCase(s, t) && |s| == 2
    ensures ByteOf(s) == ByteOf(t)
  {
    CaseDoesNotMatter(s[0]);
    CaseDoesNotMatter(s[1]);
  }

  /** Writing a field byte by byte, as the request is built. */
  method WriteField(req: seq<Byte>, at: nat, size: nat) returns (text: string)
    requires at + size <= |req|
    ensures text == EncodeField(req[at..at + size])
  {
    text := [];
    ghost var field := req[at..at + size];
    for i := 0 to size
      invariant text == EncodeField(field[size - i..])
    {
      var b := req[at + (size - 1) - i];
      assert field[size - i - 1..] == [b] + field[size - i..];
      text := text + HexByte(b);
    }
    assert field[0..] == field;
  }

  const MAX_FIELD_SIZE: nat := 4

  /** The bytes that these fields stand for. */
  function DecodeAll(fields: seq<string>): seq<Byte> {
    if fields == [] then [] else DecodeAll(fields[..|fields| - 1]) + DecodeField(fields[|fields| - 1])
  }

  /** No field is empty or longer than allowed. */
  predicate FieldsAllowed(fields: seq<string>) {
    forall i :: 0 <= i < |fields| ==> 2 <= |fields[i]| <= 2 * MAX_FIELD_SIZE
  }

  lemma FieldAdded(req: seq<Byte>, sent: nat, size: nat, fields: seq<string>)
    requires sent + size <= |req| && DecodeAll(fields) == req[..sent]
    ensures DecodeAll(fields + [EncodeField(req[sent..sent + size])]) == req[..sent + size]
  {
    var field := EncodeField(req[sent..sent + size]);
    DecodeInvertsEncode(req[sent..sent + size]);
    assert (fields + [field])[..|fields|] == fields;
    assert req[..sent + size] == req[..sent] + req[sent..sent + size];
  }

  lemma FieldAllowed(fields: seq<string>, field: string)
    requires FieldsAllowed(fields) && 2 <= |field| <= 2 * MAX_FIELD_SIZE
    ensures FieldsAllowed(fields + [field])
  {}

  /** A request is cut into fields of at most four bytes, which together decode to the request. */
  method WriteRequest(req: seq<Byte>) returns (fields: seq<string>)
    ensures DecodeAll(fields) == req
    ensures FieldsAllowed(fields)
  {
    fields := [];
    var sent := 0;
    while sent < |req|
      invariant sent <= |req| && DecodeAll(fields) == req[..sent]
      invariant FieldsAllowed(fields)
      decreases |req| - sent
    {
      var size := if |req| - sent < MAX_FIELD_SIZE then |req| - sent else MAX_FIELD_SIZE;
      var field := WriteField(req, sent, size);
      FieldAdded(req, sent, size, fields);
      FieldAllowed(fields, field);
      fields, sent := fields + [field], sent + size;
    }
    assert req[..sent] == req;
  }

  /** `done` is what has been decoded of the text but for its first `c` characters. */
  predicate Decoded(text: string, c: nat, done: seq<Byte>) {
    c <= |text| && done + DecodeField(text[..c]) == DecodeField(text)
  }

  lemma NothingDecoded(text: string)
    ensures Decoded(text, |text|, [])
  {
    assert text[..|text|] == text;
    Sequences.NothingBefore(DecodeField(text));
  }

  lemma AllDecoded(text: string, done: seq<Byte>)
    requires Decoded(text, 0, done)
    ensures done == DecodeField(text)
  {
    assert text[..0] == [];
    Sequences.NothingBehind(done);
  }

  lemma PairDecoded(text: string, c: nat, done: seq<Byte>)
    requires 2 <= c && Decoded(text, c, done)
    ensures Decoded(text, c - 2, done + [ByteOf(text[c - 2..c])])
  {
    var s := text[..c];
    assert s[|s| - 2..] == text[c - 2..c] && s[..|s| - 2] == text[..c - 2];
    Sequences.Associate(done, [ByteOf(text[c - 2..c])], DecodeField(text[..c - 2]));
  }

  method StoreByte(out: array<Byte>, at: nat, pos: nat, b: Byte)
    requires at <= pos < out.Length
    modifies out
    ensures out[..at] == old(out[..at]) && out[at..pos + 1] == old(out[at..pos]) + [b]
  {
    out[pos] := b;
  }

  /** Reading a field from its end, into the bytes from `at` on. */
  method HexStringToBytes(text: string, out: array<Byte>, at: nat)
    requires |text| % 2 == 0 && at + |text| / 2 <= out.Length
    modifies out
    ensures out[..at] == old(out[..at]) && out[at..at + |text| / 2] == DecodeField(text)
  {
    var c, pos := |text|, at;
    ghost var done: seq<Byte>, left, size := [], |text| / 2, |text| / 2;
    NothingDecoded(text);
    while c >= 2
      invariant 0 <= c <= |text| && c == 2 * left && at <= pos && pos + left == at + size
      invariant out[..at] == old(out[..at]) && out[at..pos] == done && Decoded(text, c, done)
    {
      PairDecoded(text, c, done);
      done := done + [ByteOf(text[c - 2..c])];
      StoreByte(out, at, pos, ByteOf(text[c - 2..c]));
      c, pos, left := c - 2, pos + 1, left - 1;
    }
    AllDecoded(text, done);
  }

  // ---------- The answer, read in one go ----------

  /** A field of odd length, or more bytes than expected, fails an assertion. */
  datatype Status = Reading | Complete | Aborted

  /** The characters since the last separator, and the bytes of all fields before it. */
  datatype Progress = Progress(pending: string, out: seq<Byte>, status: Status)

  const START := Progress([], [], Reading)

  predicate FieldFits(field: string, out: seq<Byte>, size: nat) {
    |field| % 2 == 0 && |out| + |field| / 2 <= size
  }

  function Feed(p: Progress, c: char, size: nat): Progress {
    if p.status != Reading then p
    else if !IsSeparator(c) then p.(pending := p.pending + [c])
    else if !FieldFits(p.pending, p.out, size) then p.(status := Aborted)
    else Progress([], p.out + DecodeField(p.pending), if c == END then Complete else Reading)
  }

  function FeedAll(p: Progress, s: string, size: nat): Progress {
    if s == [] then p else Feed(FeedAll(p, s[..|s| - 1], size), s[|s| - 1], size)
  }

  lemma {:induction false} FeedAllOfAppend(p: Progress, s: string, t: string, size: nat)
    ensures FeedAll(p, s + t, size) == FeedAll(FeedAll(p, s, size), t, size)
    decreases |t|
  {
    if t == [] {
      assert s + t == s;
    } else {
      assert (s + t)[..|s + t| - 1] == s + t[..|t| - 1];
      FeedAllOfAppend(p, s, t[..|t| - 1], size);
    }
  }

  predicate HasSeparator(s: string) { exists i :: 0 <= i < |s| && IsSeparator(s[i]) }

  // ---------- What the answer says ----------

  function Flat(blocks: seq<seq<Byte>>): seq<Byte> {
    if blocks == [] then [] else blocks[0] + Flat(blocks[1..])
  }

  /** Fields separated by spaces, and the end of the answer. */
  function AnswerText(first: seq<Byte>, rest: seq<seq<Byte>>): string
    decreases |rest|
  {
    if rest == [] then EncodeField(first) + [END]
    else EncodeField(first) + [SPACE] + AnswerText(rest[0], rest[1..])
  }

  lemma {:induction false} EncodedFieldIsClean(bs: seq<Byte>)
    ensures !HasSeparator(EncodeField(bs))
  {
    if bs != [] {
      EncodedFieldIsClean(bs[1..]);
      HexDigitHasValue(bs[0] / 16);
      HexDigitHasValue(bs[0] % 16);
      assert forall i :: 0 <= i < |EncodeField(bs[1..])| ==> EncodeField(bs)[i] == EncodeField(bs[1..])[i];
    }
  }

  lemma {:induction false} PendingGrows(p: Progress, s: string, size: nat)
    requires p.status == Reading && !HasSeparator(s)
    ensures FeedAll(p, s, size) == p.(pending := p.pending + s)
  {
    if s == [] {
      assert p.pending + s == p.pending;
    } else {
      LastOrEarlier(s[..|s| - 1], s[|s| - 1]);
      assert s == s[..|s| - 1] + [s[|s| - 1]];
      PendingGrows(p, s[..|s| - 1], size);
      assert p.pending + s == p.pending + s[..|s| - 1] + [s[|s| - 1]];
    }
  }

  lemma CleanFieldIsRead(p: Progress, field: string, c: char, size: nat)
    requires p.status == Reading && p.pending == [] && IsSeparator(c)
    requires !HasSeparator(field) && FieldFits(field, p.out, size)
    ensures FeedAll(p, field + [c], size)
         == Progress([], p.out + DecodeField(field), if c == END then Complete else Reading)
  {
    PendingGrows(p, field, size);
    assert (field + [c])[..|field|] == field && p.pending + field == field;
  }

  lemma FieldIsRead(p: Progress, bs: seq<Byte>, c: char, size: nat)
    requires p.status == Reading && p.pending == [] && IsSeparator(c) && |p.out| + |bs| <= size
    ensures FeedAll(p, EncodeField(bs) + [c], size) == Progress([], p.out + bs, if c == END then Complete else Reading)
  {
    EncodedFieldIsClean(bs);
    DecodeInvertsEncode(bs);
    CleanFieldIsRead(p, EncodeField(bs), c, size);
  }

  lemma TwoParts(p: Progress, head: string, first: seq<Byte>, tail: string, rest: seq<Byte>, size: nat)
    requires FeedAll(p, head, size) == Progress([], p.out + first, Reading)
    requires FeedAll(Progress([], p.out + first, Reading), tail, size) == Progress([], p.out + first + rest, Complete)
    ensures FeedAll(p, head + tail, size) == Progress([], p.out + (first + rest), Complete)
  {
    FeedAllOfAppend(p, head, tail, size);
    assert p.out + first + rest == p.out + (first + rest);
  }

  /** An answer of encoded fields gives back their bytes. */
  lemma {:induction false} AnswerGivesBytes(p: Progress, first: seq<Byte>, rest: seq<seq<Byte>>, size: nat)
    requires p.status == Reading && p.pending == [] && |p.out| + |first + Flat(rest)| <= size
    ensures FeedAll(p, AnswerText(first, rest), size) == Progress([], p.out + (first + Flat(rest)), Complete)
    decreases |rest|
  {
    if rest == [] {
      FieldIsRead(p, first, END, size);
      assert first + Flat(rest) == first;
    } else {
      FieldIsRead(p, first, SPACE, size);
      AnswerGivesBytes(Progress([], p.out + first, Reading), rest[0], rest[1..], size);
      TwoParts(p, EncodeField(first) + [SPACE], first, AnswerText(rest[0], rest[1..]), Flat(rest), size);
    }
  }

  // ---------- What an answer must not say ----------

  lemma UnfitFieldAborts(p: Progress, field: string, c: char, size: nat)
    requires p.status == Reading && p.pending == [] && IsSeparator(c) && !HasSeparator(field)
    requires !FieldFits(field, p.out, size)
    ensures FeedAll(p, field + [c], size).status == Aborted
  {
    PendingGrows(p, field, size);
    assert (field + [c])[..|field|] == field && p.pending + field == field;
  }

  /** A field of odd length fails an assertion. */
  lemma OddFieldAborts(p: Progress, field: string, c: char, size: nat)
    requires p.status == Reading && p.pending == [] && IsSeparator(c) && !HasSeparator(field) && |field| % 2 == 1
    ensures FeedAll(p, field + [c], size).status == Aborted
  {
    UnfitFieldAborts(p, field, c, size);
  }

  lemma LongFieldAborts(p: Progress, bs: seq<Byte>, c: char, size: nat)
    requires p.status == Reading && p.pending == [] && IsSeparator(c) && |p.out| + |bs| > size
    ensures FeedAll(p, EncodeField(bs) + [c], size).status == Aborted
  {
    EncodedFieldIsClean(bs);
    UnfitFieldAborts(p, EncodeField(bs), c, size);
  }

  lemma {:induction false} AbortedStays(p: Progress, s: string, size: nat)
    requires p.status == Aborted
    ensures FeedAll(p, s, size) == p
    decreases |s|
  {
    if s != [] {
      AbortedStays(p, s[..|s| - 1], size);
    }
  }

  /** And so does an answer with more bytes than asked for, and no other answer of encoded fields. */
  lemma {:induction false} LongAnswerAborts(p: Progress, first: seq<Byte>, rest: seq<seq<Byte>>, size: nat)
    requires p.status == Reading && p.pending == []
    ensures FeedAll(p, AnswerText(first, rest), size).status
      == if |p.out| + |first + Flat(rest)| <= size then Complete else Aborted
    decreases |rest|
  {
    if |p.out| + |first + Flat(rest)| <= size {
      AnswerGivesBytes(p, first, rest, size);
    } else if rest == [] {
      LongFieldAborts(p, first, END, size);
    } else {
      var head, tail := EncodeField(first) + [SPACE], AnswerText(rest[0], rest[1..]);
      FeedAllOfAppend(p, head, tail, size);
      if |p.out| + |first| <= size {
        FieldIsRead(p, first, SPACE, size);
        LongAnswerAborts(Progress([], p.out + first, Reading), rest[0], rest[1..], size);
      } else {
        LongFieldAborts(p, first, SPACE, size);
        AbortedStays(FeedAll(p, head, size), tail, size);
      }
    }
  }

  // ---------- The answer, read in pieces ----------

  /** The reader: its buffer, where the current field starts, and where it last saw a field end. */
  datatype Reader = Reader(buf: string, fieldStart: int, fieldEnd: nat, out: seq<Byte>, status: Status)

  /** Looks at the character at `end`; a separator completes the field in front of it. */
  function Look(r: Reader, end: nat, size: nat): (r': Reader)
    requires 0 <= r.fieldStart <= end < |r.buf|
  {
    if r.status != Reading || !IsSeparator(r.buf[end]) then r
    else if !FieldFits(r.buf[r.fieldStart..end], r.out, size) then r.(fieldEnd := end, status := Aborted)
    else r.(fieldStart := end + 1, fieldEnd := end, out := r.out + DecodeField(r.buf[r.fieldStart..end]),
            status := if r.buf[end] == END then Complete else Reading)
  }

  /** Looks at the characters from `a` to `b`. */
  function Scan(r: Reader, a: nat, b: nat, size: nat): (r': Reader)
    requires 0 <= r.fieldStart <= a <= b <= |r.buf|
    ensures r'.buf == r.buf && 0 <= r'.fieldStart <= b
    ensures r'.fieldEnd == r.fieldEnd || r'.fieldEnd < b
    decreases b
  {
    if a == b then r else Look(Scan(r, a, b - 1, size), b - 1, size)
  }

  /** Everything before the last field end is moved out of the buffer, unless reading is over. */
  function Moved(r: Reader): Reader {
    if r.status != Reading then r
    else r.(buf := if r.fieldEnd <= |r.buf| then r.buf[r.fieldEnd..] else [], fieldStart := r.fieldStart - r.fieldEnd)
  }

  function Loaded(r: Reader, piece: string): Reader { r.(buf := r.buf + piece) }

  function AfterPiece(r: Reader, piece: string, size: nat): Reader
    requires 0 <= r.fieldStart <= |r.buf|
  {
    Moved(Scan(Loaded(r, piece), |r.buf|, |r.buf| + |piece|, size))
  }

  /** Up to `end`, the reader is where reading in one go would be. */
  predicate TracksTo(r: Reader, p: Progress, end: nat) {
    && r.out == p.out && r.status == p.status
    && (r.status == Reading ==> 0 <= r.fieldStart <= end <= |r.buf| && r.buf[r.fieldStart..end] == p.pending)
  }

  predicate Tracks(r: Reader, p: Progress) { TracksTo(r, p, |r.buf|) }

  lemma LookTracks(r: Reader, p: Progress, end: nat, size: nat)
    requires 0 <= r.fieldStart <= end < |r.buf| && TracksTo(r, p, end)
    ensures TracksTo(Look(r, end, size), Feed(p, r.buf[end], size), end + 1)
  {
    if r.status == Reading && !IsSeparator(r.buf[end]) {
      assert r.buf[r.fieldStart..end + 1] == r.buf[r.fieldStart..end] + [r.buf[end]];
    }
  }

  lemma {:induction false} ScanTracks(r: Reader, p: Progress, a: nat, s: string, size: nat)
    requires 0 <= r.fieldStart <= a && a + |s| <= |r.buf| && r.buf[a..a + |s|] == s && TracksTo(r, p, a)
    ensures TracksTo(Scan(r, a, a + |s|, size), FeedAll(p, s, size), a + |s|)
  {
    if s != [] {
      var init, end := s[..|s| - 1], a + |s| - 1;
      Sequences.InitOfSlice(r.buf, a, s);
      var t, q := Scan(r, a, end, size), FeedAll(p, init, size);
      ScanTracks(r, p, a, init, size);
      LookTracks(t, q, end, size);
      assert FeedAll(p, s, size) == Feed(q, t.buf[end], size) && Scan(r, a, end + 1, size) == Look(t, end, size);
    }
  }

  /** After these characters the recorded field end is that of the last separator, if there is one. */
  predicate EndFound(r: Reader, t: Reader, s: string) {
    if HasSeparator(s) then t.status == Reading ==> t.fieldStart == t.fieldEnd + 1 else t == r
  }

  lemma NextEnd(r: Reader, t: Reader, s: string, end: nat, size: nat)
    requires EndFound(r, t, s) && t.buf == r.buf && r.status == Reading && 0 <= t.fieldStart <= end < |r.buf|
    ensures EndFound(r, Look(t, end, size), s + [r.buf[end]])
  {
    LastOrEarlier(s, r.buf[end]);
  }

  lemma {:induction false} ScanFindsEnd(r: Reader, a: nat, s: string, size: nat)
    requires r.status == Reading && 0 <= r.fieldStart <= a && a + |s| <= |r.buf| && r.buf[a..a + |s|] == s
    ensures EndFound(r, Scan(r, a, a + |s|, size), s)
  {
    if s != [] {
      var init, end := s[..|s| - 1], a + |s| - 1;
      Sequences.InitOfSlice(r.buf, a, s);
      ScanFindsEnd(r, a, init, size);
      NextEnd(r, Scan(r, a, end, size), init, end, size);
      assert s == init + [s[|s| - 1]];
    }
  }

  lemma LastOrEarlier(s: string, c: char)
    ensures HasSeparator(s + [c]) <==> HasSeparator(s) || IsSeparator(c)
  {
    if IsSeparator(c) {
      assert IsSeparator((s + [c])[|s|]);
    }
    if HasSeparator(s) {
      var i :| 0 <= i < |s| && IsSeparator(s[i]);
      assert IsSeparator((s + [c])[i]);
    }
  }

  /**
   * A piece is read correctly if and only if it holds a separator, or the last field end still
   * recorded is not behind the start of the field: otherwise that many characters are dropped a
   * second time, and the field starts before the buffer, where the next separator makes it be read.
   */
  lemma PieceIsReadIff(r: Reader, p: Progress, piece: string, size: nat)
    requires r.status == Reading && Tracks(r, p)
    ensures Tracks(AfterPiece(r, piece, size), FeedAll(p, piece, size))
            <==> HasSeparator(piece) || r.fieldEnd <= r.fieldStart
    ensures !Tracks(AfterPiece(r, piece, size), FeedAll(p, piece, size)) <==> AfterPiece(r, piece, size).fieldStart < 0
    ensures HasSeparator(piece) || AfterPiece(r, piece, size).fieldEnd == r.fieldEnd
  {
    var t := PieceScanned(r, p, piece, size);
    MovedIff(r, t, FeedAll(p, piece, size), piece);
  }

  lemma MovedIff(r: Reader, t: Reader, p: Progress, piece: string)
    requires r.status == Reading && Tracks(t, p) && t.fieldStart >= 0
    requires if HasSeparator(piece) then t.status == Reading ==> t.fieldEnd < t.fieldStart else t == Loaded(r, piece)
    ensures Tracks(Moved(t), p) <==> HasSeparator(piece) || r.fieldEnd <= r.fieldStart
    ensures !Tracks(Moved(t), p) <==> Moved(t).fieldStart < 0
    ensures HasSeparator(piece) || Moved(t).fieldEnd == r.fieldEnd
  {
    if t.status == Reading {
      MoveTracks(t, p);
    }
  }

  lemma PieceScanned(r: Reader, p: Progress, piece: string, size: nat) returns (t: Reader)
    requires r.status == Reading && Tracks(r, p)
    ensures t == Scan(Loaded(r, piece), |r.buf|, |r.buf| + |piece|, size) && Tracks(t, FeedAll(p, piece, size))
    ensures if HasSeparator(piece) then t.status == Reading ==> t.fieldEnd < t.fieldStart else t == Loaded(r, piece)
    ensures t.fieldStart >= 0
  {
    var loaded, a, b := Loaded(r, piece), |r.buf|, |r.buf| + |piece|;
    LoadTracks(r, p, piece);
    ScanTracks(loaded, p, a, piece, size);
    ScanFindsEnd(loaded, a, piece, size);
    t := Scan(loaded, a, b, size);
  }

  lemma LoadTracks(r: Reader, p: Progress, piece: string)
    requires r.status == Reading && Tracks(r, p)
    ensures TracksTo(Loaded(r, piece), p, |r.buf|) && Loaded(r, piece).buf[|r.buf|..|r.buf| + |piece|] == piece
  {
    assert (r.buf + piece)[r.fieldStart..|r.buf|] == r.buf[r.fieldStart..|r.buf|];
  }

  /** Moving the unfinished field to the front keeps it, unless more is moved away than was there. */
  lemma MoveTracks(t: Reader, p: Progress)
    requires t.status == Reading && Tracks(t, p)
    ensures Tracks(Moved(t), p) <==> t.fieldEnd <= t.fieldStart
  {
    if t.fieldEnd <= t.fieldStart {
      assert t.buf[t.fieldEnd..][t.fieldStart - t.fieldEnd..] == t.buf[t.fieldStart..];
    }
  }

  /** The reader after a first piece that ends with a space. */
  lemma FirstFieldRead(r: Reader, field: string, size: nat)
    requires r == Reader([], 0, 0, [], Reading) && FieldFits(field, [], size) && !HasSeparator(field)
    ensures var r' := AfterPiece(r, field + [SPACE], size);
      r'.status == Reading && r'.fieldEnd == |field| && r'.fieldStart == 1 && r'.buf == [SPACE]
  {
    var n, text := |field|, field + [SPACE];
    var loaded := Reader(text, 0, 0, [], Reading);
    Sequences.NothingBefore(text);
    FieldInFront(field, SPACE);
    ScanFindsEnd(loaded, 0, field, size);
    assert Scan(loaded, 0, n + 1, size) == Look(loaded, n, size);
    assert AfterPiece(r, text, size) == Moved(Look(loaded, n, size));
  }

  lemma FieldInFront(field: string, c: char)
    ensures var text := field + [c];
      text[0..|field|] == field && text[|field|] == c && text[|field|..] == [c] && |text| == |field| + 1
  {}

  /** A piece without a separator that meets a field end behind the start of the field. */
  lemma PieceIsMisread(r: Reader, p: Progress, piece: string, size: nat)
    requires r.status == Reading && Tracks(r, p) && !HasSeparator(piece) && r.fieldEnd > r.fieldStart
    ensures !Tracks(AfterPiece(r, piece, size), FeedAll(p, piece, size))
    ensures AfterPiece(r, piece, size).fieldStart == r.fieldStart - r.fieldEnd < 0
  {
    PieceIsReadIff(r, p, piece, size);
    var loaded := Loaded(r, piece);
    LoadTracks(r, p, piece);
    ScanFindsEnd(loaded, |r.buf|, piece, size);
  }

  lemma TwoFields(first: seq<Byte>, second: seq<Byte>, size: nat)
    requires |first| + |second| <= size
    ensures FeedAll(START, AnswerText(first, [second]), size) == Progress([], first + second, Complete)
    ensures AnswerText(first, [second]) == EncodeField(first) + [SPACE] + EncodeField(second) + [END]
  {
    assert Flat([second]) == second + [] == second && [] + (first + second) == first + second;
    AnswerGivesBytes(START, first, [second], size);
    assert AnswerText(second, []) == EncodeField(second) + [END] && [second][1..] == [];
    Sequences.Associate(EncodeField(first) + [SPACE], EncodeField(second), [END]);
  }

  /**
   * An answer of two fields that is misread, whatever its bytes, because it arrives in pieces cut
   * behind the space and behind the second field.
   */
  lemma MisreadExists(r: Reader, first: seq<Byte>, second: seq<Byte>, size: nat)
    returns (head: string, tail: string, r1: Reader, r2: Reader)
    requires r == Reader([], 0, 0, [], Reading) && first != [] && |first| + |second| <= size
    ensures AnswerText(first, [second]) == head + tail + [END]
    ensures FeedAll(START, AnswerText(first, [second]), size) == Progress([], first + second, Complete)
    ensures r1 == AfterPiece(r, head, size) && Tracks(r1, FeedAll(START, head, size))
    ensures 0 <= r1.fieldStart <= |r1.buf| && r2 == AfterPiece(r1, tail, size)
    ensures !Tracks(r2, FeedAll(START, head + tail, size)) && r2.fieldStart == 1 - 2 * |first| < 0
  {
    head, tail := EncodeField(first) + [SPACE], EncodeField(second);
    TwoFields(first, second, size);
    EncodedFieldIsClean(first);
    EncodedFieldIsClean(second);
    FirstFieldRead(r, EncodeField(first), size);
    FirstFieldTracks(r, head, size);
    r1 := AfterPiece(r, head, size);
    PieceIsMisread(r1, FeedAll(START, head, size), tail, size);
    FeedAllOfAppend(START, head, tail, size);
    r2 := AfterPiece(r1, tail, size);
  }

  lemma FirstFieldTracks(r: Reader, head: string, size: nat)
    requires r == Reader([], 0, 0, [], Reading) && head != [] && head[|head| - 1] == SPACE
    ensures Tracks(AfterPiece(r, head, size), FeedAll(START, head, size))
  {
    assert IsSeparator(head[|head| - 1]);
    PieceIsReadIff(r, START, head, size);
  }

  /** `t` is the reader before it moves the rest of its buffer, and `p` where it is in the text then. */
  predicate Scanned(r: Reader, piece: string, size: nat, t: Reader, p: Progress) {
    && 0 <= r.fieldStart <= |r.buf| && t == Scan(Loaded(r, piece), |r.buf|, |r.buf| + |piece|, size)
    && Tracks(Moved(t), p) && (t.status == Reading ==> t.fieldEnd <= t.fieldStart <= |t.buf|)
  }

  /** A piece read correctly: what the reader is like before and after it moves the rest of its buffer. */
  lemma TextIsRead(r: Reader, text: string, piece: string, size: nat) returns (t: Reader)
    requires r.status == Reading && Tracks(r, FeedAll(START, text, size))
    requires HasSeparator(piece) || r.fieldEnd <= r.fieldStart
    ensures Scanned(r, piece, size, t, FeedAll(START, text + piece, size))
    ensures HasSeparator(piece) || t.fieldEnd == r.fieldEnd
  {
    var p := FeedAll(START, text, size);
    t := PieceScanned(r, p, piece, size);
    PieceIsReadIff(r, p, piece, size);
    FeedAllOfAppend(START, text, piece, size);
  }

  lemma {:induction false} ScanIsOver(r: Reader, a: nat, i: nat, b: nat, size: nat)
    requires 0 <= r.fieldStart <= a <= i <= b <= |r.buf| && Scan(r, a, i, size).status != Reading
    ensures Scan(r, a, b, size) == Scan(r, a, i, size)
    decreases b
  {
    if i < b {
      ScanIsOver(r, a, i, b - 1, size);
    }
  }

  // ---------- All pieces ----------

  function Join(pieces: seq<string>): string {
    if pieces == [] then [] else Join(pieces[..|pieces| - 1]) + pieces[|pieces| - 1]
  }

  /** After the first separator, every piece holds one. */
  predicate WellCut(pieces: seq<string>) {
    forall i, j :: 0 <= i < j < |pieces| && HasSeparator(pieces[i]) ==> HasSeparator(pieces[j])
  }

  lemma JoinNext(pieces: seq<string>, k: nat)
    requires k < |pieces|
    ensures Join(pieces[..k + 1]) == Join(pieces[..k]) + pieces[k]
  {
    assert pieces[..k + 1][..k] == pieces[..k];
  }

  /**
   * The reader with its buffers. Whatever has been read so far, the bytes in the response are those
   * of the text read in one go.
   */
  class AnswerReader {
    var buf: array<char>
    var bufPos: nat
    var fieldStart: nat
    var fieldEnd: nat
    const resp: array<Byte>
    var respPos: nat
    var status: Status
    ghost var text: string

    ghost predicate InBounds()
      reads this
    {
      0 < buf.Length && bufPos <= buf.Length && respPos <= resp.Length
    }

    ghost function View(): Reader
      requires InBounds()
      reads this, buf, resp
    {
      Reader(buf[..bufPos], fieldStart, fieldEnd, resp[..respPos], status)
    }

    ghost predicate Valid()
      reads this, buf, resp
    {
      InBounds() && Tracks(View(), FeedAll(START, text, resp.Length))
    }

    constructor (resp: array<Byte>)
      ensures Valid() && fresh(buf) && this.resp == resp && text == [] && fieldEnd == 0 && status == Reading
    {
      buf, bufPos, fieldStart, fieldEnd := new char[2048](_ => SPACE), 0, 0, 0;
      this.resp, respPos, status, text := resp, 0, Reading, [];
    }

    /** There is always room to read on; nothing stored is lost. */
    method GrowIfNeeded()
      requires Valid()
      modifies this`buf
      ensures Valid() && View() == old(View()) && bufPos < buf.Length
      ensures buf == old(buf) || fresh(buf)
    {
      if bufPos >= buf.Length {
        var was := buf;
        var grown := new char[Grown(buf.Length)](
          i requires 0 <= i reads was => if i < was.Length then was[i] else SPACE);
        assert grown[..bufPos] == buf[..bufPos];
        buf := grown;
      }
    }

    method Load(piece: string)
      requires InBounds() && |piece| <= buf.Length - bufPos
      modifies buf
      ensures InBounds() && buf[..bufPos] == old(buf[..bufPos]) && buf[bufPos..bufPos + |piece|] == piece
      ensures resp[..respPos] == old(resp[..respPos])
    {
      forall i | 0 <= i < |piece| {
        buf[bufPos + i] := piece[i];
      }
    }

    ghost function Window(n: nat): Reader
      requires n <= buf.Length && respPos <= resp.Length
      reads this, buf, resp
    {
      Reader(buf[..n], fieldStart, fieldEnd, resp[..respPos], status)
    }

    method TakeField(field: string)
      requires InBounds() && |field| % 2 == 0 && respPos + |field| / 2 <= resp.Length
      modifies this`respPos, resp
      ensures InBounds() && resp[..respPos] == old(resp[..respPos]) + DecodeField(field)
    {
      HexStringToBytes(field, resp, respPos);
      assert resp[..respPos + |field| / 2] == resp[..respPos] + resp[respPos..respPos + |field| / 2];
      respPos := respPos + |field| / 2;
    }

    /** One character: a separator ends a field, whose bytes go to the response. */
    method LookAt(end: nat, n: nat)
      requires InBounds() && status == Reading && fieldStart <= end < n <= buf.Length
      modifies this`fieldStart, this`fieldEnd, this`respPos, this`status, resp
      ensures InBounds() && Window(n) == Look(old(Window(n)), end, resp.Length)
    {
      if IsSeparator(buf[end]) {
        fieldEnd := end;
        var field := buf[fieldStart..fieldEnd];
        assert field == buf[..n][fieldStart..fieldEnd];
        if |field| % 2 != 0 || respPos + |field| / 2 > resp.Length {
          status := Aborted;
        } else {
          TakeField(field);
          fieldStart := fieldEnd + 1;
          if buf[end] == END {
            status := Complete;
          }
        }
      }
    }

    /** The characters of a piece, up to the end of the answer. */
    method ScanPiece(n: nat)
      requires InBounds() && status == Reading && fieldStart <= bufPos && bufPos + n <= buf.Length
      modifies this`fieldStart, this`fieldEnd, this`respPos, this`status, resp
      ensures InBounds()
      ensures Window(bufPos + n) == Scan(old(Window(bufPos + n)), bufPos, bufPos + n, resp.Length)
    {
      var b := bufPos + n;
      ghost var r := Window(b);
      var end := ScanUntilOver(bufPos, b);
      if status != Reading {
        ScanIsOver(r, bufPos, end, b, resp.Length);
      }
    }

    /** The characters from `a` to `b`, but none after the end of the answer. */
    method ScanUntilOver(a: nat, b: nat) returns (end: nat)
      requires InBounds() && status == Reading && fieldStart <= a <= b <= buf.Length
      modifies this`fieldStart, this`fieldEnd, this`respPos, this`status, resp
      ensures InBounds() && a <= end <= b && Window(b) == Scan(old(Window(b)), a, end, resp.Length)
      ensures end == b || status != Reading
    {
      end := a;
      ghost var r := Window(b);
      while end < b && status == Reading
        invariant a <= end <= b && InBounds() && Window(b) == Scan(r, a, end, resp.Length)
      {
        LookAt(end, b);
        end := end + 1;
      }
    }

    method LoadAndScan(piece: string)
      requires InBounds() && status == Reading && fieldStart <= bufPos && |piece| <= buf.Length - bufPos
      modifies this`fieldStart, this`fieldEnd, this`respPos, this`status, buf, resp
      ensures InBounds()
      ensures Window(bufPos + |piece|) == Scan(Loaded(old(View()), piece), bufPos, bufPos + |piece|, resp.Length)
    {
      Load(piece);
      assert buf[..bufPos + |piece|] == buf[..bufPos] + buf[bufPos..bufPos + |piece|];
      ScanPiece(|piece|);
    }

    /** Moves everything from the last field end on to the front of the buffer. */
    method Compact(n: nat)
      requires InBounds() && status == Reading && fieldEnd <= fieldStart <= bufPos + n <= buf.Length
      modifies this`bufPos, this`fieldStart, buf
      ensures InBounds() && View() == Moved(old(Window(bufPos + n)))
    {
      ghost var was := buf[..];
      forall i | 0 <= i < buf.Length - fieldEnd {
        buf[i] := buf[i + fieldEnd];
      }
      bufPos, fieldStart := bufPos + n - fieldEnd, fieldStart - fieldEnd;
      assert buf[..bufPos] == was[fieldEnd..fieldEnd + bufPos] == was[..fieldEnd + bufPos][fieldEnd..];
    }

    /** After a piece: what is left of it is kept in front, unless reading is over. */
    method Finish(n: nat, ghost t: Reader, ghost p: Progress)
      requires InBounds() && bufPos + n <= buf.Length && Window(bufPos + n) == t
      requires Tracks(Moved(t), p) && (t.status == Reading ==> t.fieldEnd <= t.fieldStart <= |t.buf|)
      modifies this`bufPos, this`fieldStart, buf
      ensures InBounds() && Tracks(View(), p)
    {
      if status == Reading {
        Compact(n);
      }
    }

    method Process(piece: string, ghost t: Reader, ghost p: Progress)
      requires InBounds() && status == Reading && fieldStart <= bufPos && |piece| <= buf.Length - bufPos
      requires Scanned(View(), piece, resp.Length, t, p)
      modifies this`bufPos, this`fieldStart, this`fieldEnd, this`respPos, this`status, buf, resp
      ensures InBounds() && Tracks(View(), p) && fieldEnd == t.fieldEnd
    {
      LoadAndScan(piece);
      Finish(|piece|, t, p);
    }

    /** A piece arrives behind what is left of those before. */
    method Receive(piece: string)
      requires Valid() && status == Reading && |piece| <= buf.Length - bufPos
      requires HasSeparator(piece) || fieldEnd <= fieldStart
      modifies this, buf, resp
      ensures Valid() && buf == old(buf) && text == old(text) + piece
      ensures HasSeparator(piece) || fieldEnd == old(fieldEnd)
    {
      ghost var t := TextIsRead(View(), text, piece, resp.Length);
      ghost var all := text + piece;
      Process(piece, t, FeedAll(START, all, resp.Length));
      text := all;
    }
  }

  /**
   * Reads an answer piece by piece, until it is complete or a piece is larger than the room a read
   * can fill. However the pieces are cut, if each after the first separator holds one, the bytes
   * are those of the answer read in one go.
   */
  method ReadAnswer(pieces: seq<string>, resp: array<Byte>)
    returns (size: nat, status: Status, used: nat, room: nat)
    requires WellCut(pieces)
    modifies resp
    ensures size <= resp.Length && used <= |pieces|
    ensures resp[..size] == FeedAll(START, Join(pieces[..used]), resp.Length).out
    ensures status == FeedAll(START, Join(pieces[..used]), resp.Length).status
    ensures status == Reading ==> used == |pieces| || |pieces[used]| > room > 0
  {
    var reader := new AnswerReader(resp);
    used, room := 0, 1;
    assert pieces[..0] == [];
    while used < |pieces| && reader.status == Reading
      invariant used <= |pieces| && reader.resp == resp && fresh(reader) && fresh(reader.buf) && reader.Valid()
      invariant reader.text == Join(pieces[..used])
      invariant reader.status == Reading && reader.fieldEnd != 0
        ==> exists i :: 0 <= i < used && HasSeparator(pieces[i])
    {
      reader.GrowIfNeeded();
      room := reader.buf.Length - reader.bufPos;
      if |pieces[used]| > room {
        return reader.respPos, Reading, used, room;
      }
      JoinNext(pieces, used);
      reader.Receive(pieces[used]);
      used := used + 1;
    }
    size, status := reader.respPos, reader.status;
  }
}
