/**
 The index of a zip container, as `scripts/drive-export-members.ts` reads it:
 sections 4.3.12 and 4.3.16 of PKWARE's APPNOTE.TXT, little-endian throughout.
 */
module ZipMembers {
  import opened Common

  type Byte = b: int | 0 <= b < 256

  /** What bytes say as UTF-8: the decoder's to answer. */
  type Decoder = seq<Byte> -> string

  datatype ZipMember = ZipMember(name: string, crc32: nat, size: nat, stamp: nat)

  datatype Failure =
    | EntryRunsPast(count: nat, entry: nat)
    | NoSignature(entry: nat)
    | NameRunsPast(entry: nat)

  const EOCD_SIGNATURE := 0x06054b50
  const CENTRAL_SIGNATURE := 0x02014b50
  const CENTRAL_HEADER_BYTES := 46
  const EOCD_BYTES := 22

  function U16(bytes: seq<Byte>, at: nat): (r: nat)
    requires at + 2 <= |bytes|
    ensures r < 0x10000
  {
    var low: int, high: int := bytes[at], bytes[at + 1];
    low + 256 * high
  }

  function U32(bytes: seq<Byte>, at: nat): (r: nat)
    requires at + 4 <= |bytes|
    ensures r < 0x1_0000_0000
  {
    U16(bytes, at) + 0x10000 * U16(bytes, at + 2)
  }

  // ---------------------------------------------------------------------
  // The end record
  // ---------------------------------------------------------------------

  predicate EndRecordAt(bytes: seq<Byte>, at: int) {
    0 <= at <= |bytes| - EOCD_BYTES && U32(bytes, at) == EOCD_SIGNATURE
  }

  /** How far back the record may begin: a comment is at most 0xffff bytes. */
  function Earliest(bytes: seq<Byte>): int {
    if |bytes| - EOCD_BYTES - 0xffff < 0 then 0 else |bytes| - EOCD_BYTES - 0xffff
  }

  /** The last place in the scan's range that holds the signature. */
  ghost predicate IsLastEndRecord(bytes: seq<Byte>, at: int) {
    && Earliest(bytes) <= at
    && EndRecordAt(bytes, at)
    && forall k :: at < k ==> !EndRecordAt(bytes, k)
  }

  /** `findEndOfCentralDirectory`; -1 exactly when the range holds no signature. */
  method FindEndOfCentralDirectory(bytes: seq<Byte>) returns (r: int)
    ensures r == -1 || IsLastEndRecord(bytes, r)
    ensures r == -1 <==> forall k :: Earliest(bytes) <= k ==> !EndRecordAt(bytes, k)
  {
    var at := |bytes| - EOCD_BYTES;
    while at >= Earliest(bytes)
      invariant at <= |bytes| - EOCD_BYTES
      invariant forall k :: at < k ==> !EndRecordAt(bytes, k)
      decreases at
    {
      if U32(bytes, at) == EOCD_SIGNATURE {
        assert EndRecordAt(bytes, at);
        return at;
      }
      at := at - 1;
    }
    return -1;
  }

  // ---------------------------------------------------------------------
  // The central directory
  // ---------------------------------------------------------------------

  /** The member whose header is at `at`. */
  function MemberAt(bytes: seq<Byte>, at: nat, decode: Decoder): ZipMember
    requires at + CENTRAL_HEADER_BYTES <= |bytes|
    requires at + CENTRAL_HEADER_BYTES + U16(bytes, at + 28) <= |bytes|
  {
    var nameAt := at + CENTRAL_HEADER_BYTES;
    ZipMember(decode(bytes[nameAt..nameAt + U16(bytes, at + 28)]),
              U32(bytes, at + 16), U32(bytes, at + 24), U16(bytes, at + 14) * 0x10000 + U16(bytes, at + 12))
  }

  /** Where the header after the one at `at` begins. */
  function NextHeader(bytes: seq<Byte>, at: nat): nat
    requires at + CENTRAL_HEADER_BYTES <= |bytes|
  {
    at + CENTRAL_HEADER_BYTES + U16(bytes, at + 28) + U16(bytes, at + 30) + U16(bytes, at + 32)
  }

  /** The members of entries `i` and on, or the first way the index contradicts itself. */
  function ReadFrom(bytes: seq<Byte>, at: nat, i: nat, count: nat, decode: Decoder): Result<seq<ZipMember>, Failure>
    requires i <= count
    decreases count - i
  {
    if i == count then Ok([])
    else if at + CENTRAL_HEADER_BYTES > |bytes| then Err(EntryRunsPast(count, i + 1))
    else if U32(bytes, at) != CENTRAL_SIGNATURE then Err(NoSignature(i + 1))
    else if at + CENTRAL_HEADER_BYTES + U16(bytes, at + 28) > |bytes| then Err(NameRunsPast(i + 1))
    else
      After([MemberAt(bytes, at, decode)], ReadFrom(bytes, NextHeader(bytes, at), i + 1, count, decode))
  }

  function After(members: seq<ZipMember>, r: Result<seq<ZipMember>, Failure>): Result<seq<ZipMember>, Failure> {
    if r.Err? then r else Ok(members + r.value)
  }

  lemma AfterTwice(a: seq<ZipMember>, b: seq<ZipMember>, r: Result<seq<ZipMember>, Failure>)
    ensures After(a, After(b, r)) == After(a + b, r)
    ensures After([], r) == r
  {
    if r.Ok? {
      assert a + (b + r.value) == a + b + r.value;
      assert [] + r.value == r.value;
    }
  }

  function ReadIndex(bytes: seq<Byte>, eocd: nat, decode: Decoder): Result<seq<ZipMember>, Failure>
    requires EndRecordAt(bytes, eocd)
  {
    ReadFrom(bytes, U32(bytes, eocd + 16), 0, U16(bytes, eocd + 10), decode)
  }

  /** `readZipMembers`: null is `None`. Every read is within the bytes. */
  method ReadZipMembers(bytes: seq<Byte>, decode: Decoder) returns (r: Option<Result<seq<ZipMember>, Failure>>)
    ensures r.None? <==> forall k :: Earliest(bytes) <= k ==> !EndRecordAt(bytes, k)
    ensures forall eocd: nat :: IsLastEndRecord(bytes, eocd) ==> r == Some(ReadIndex(bytes, eocd, decode))
  {
    var eocd := FindEndOfCentralDirectory(bytes);
    if eocd < 0 { return None; }
    assert forall k: nat :: IsLastEndRecord(bytes, k) ==> k == eocd;
    var members := ReadCentral(bytes, eocd, decode);
    return Some(members);
  }

  method ReadCentral(bytes: seq<Byte>, eocd: nat, decode: Decoder) returns (r: Result<seq<ZipMember>, Failure>)
    requires EndRecordAt(bytes, eocd)
    ensures r == ReadIndex(bytes, eocd, decode)
  {
    hide U16;
    hide U32;
    var count := U16(bytes, eocd + 10);
    var at: nat := U32(bytes, eocd + 16);
    var members: seq<ZipMember> := [];
    AfterTwice([], [], ReadIndex(bytes, eocd, decode));
    for i := 0 to count
      invariant ReadIndex(bytes, eocd, decode) == After(members, ReadFrom(bytes, at, i, count, decode))
    {
      if at + CENTRAL_HEADER_BYTES > |bytes| { return Err(EntryRunsPast(count, i + 1)); }
      if U32(bytes, at) != CENTRAL_SIGNATURE { return Err(NoSignature(i + 1)); }
      var nameLength := U16(bytes, at + 28);
      var extraLength := U16(bytes, at + 30);
      var commentLength := U16(bytes, at + 32);
      var nameAt := at + CENTRAL_HEADER_BYTES;
      if nameAt + nameLength > |bytes| { return Err(NameRunsPast(i + 1)); }
      var member := ZipMember(decode(bytes[nameAt..nameAt + nameLength]), U32(bytes, at + 16), U32(bytes, at + 24),
                              U16(bytes, at + 14) * 0x10000 + U16(bytes, at + 12));
      AfterTwice(members, [member], ReadFrom(bytes, NextHeader(bytes, at), i + 1, count, decode));
      members := members + [member];
      at := nameAt + nameLength + extraLength + commentLength;
    }
    assert members + [] == members;
    return Ok(members);
  }

  // ---------------------------------------------------------------------
  // Writing one
  // ---------------------------------------------------------------------

  function W16(v: nat): seq<Byte>
    requires v < 0x10000
  {
    [v % 256, v / 256]
  }

  function W32(v: nat): seq<Byte>
    requires v < 0x1_0000_0000
  {
    W16(v % 0x10000) + W16(v / 0x10000)
  }

  /** A central directory header; `head`, `packed` and `tail` are the fields the reader passes over. */
  datatype Header = Header(
    head: seq<Byte>, time: nat, date: nat, crc32: nat, packed: seq<Byte>, size: nat, tail: seq<Byte>,
    name: seq<Byte>, extra: seq<Byte>, comment: seq<Byte>)

  predicate Fits(h: Header) {
    && |h.head| == 8 && |h.packed| == 4 && |h.tail| == 12
    && h.time < 0x10000 && h.date < 0x10000
    && h.crc32 < 0x1_0000_0000 && h.size < 0x1_0000_0000
    && |h.name| < 0x10000 && |h.extra| < 0x10000 && |h.comment| < 0x10000
  }

  /** Section 4.3.12. */
  function WriteFixed(h: Header): (r: seq<Byte>)
    requires Fits(h)
    ensures |r| == CENTRAL_HEADER_BYTES
  {
    W32(CENTRAL_SIGNATURE) + h.head + W16(h.time) + W16(h.date) + W32(h.crc32) + h.packed + W32(h.size)
    + W16(|h.name|) + W16(|h.extra|) + W16(|h.comment|) + h.tail
  }

  function WriteHeader(h: Header): seq<Byte>
    requires Fits(h)
  {
    WriteFixed(h) + h.name + h.extra + h.comment
  }

  function WriteAll(hs: seq<Header>): seq<Byte>
    requires forall k :: 0 <= k < |hs| ==> Fits(hs[k])
  {
    if hs == [] then [] else WriteHeader(hs[0]) + WriteAll(hs[1..])
  }

  /** Section 4.3.16; `disks` and `size` are the fields the reader passes over. */
  function WriteEnd(disks: seq<Byte>, count: nat, size: seq<Byte>, offset: nat, comment: seq<Byte>): (r: seq<Byte>)
    requires |disks| == 6 && |size| == 4 && count < 0x10000 && offset < 0x1_0000_0000 && |comment| < 0x10000
    ensures |r| == EOCD_BYTES + |comment|
  {
    W32(EOCD_SIGNATURE) + disks + W16(count) + size + W32(offset) + W16(|comment|) + comment
  }

  // ---------------------------------------------------------------------
  // Reading back what was written
  // ---------------------------------------------------------------------

  lemma ReadsW16(bytes: seq<Byte>, at: nat, v: nat)
    requires v < 0x10000 && at + 2 <= |bytes| && bytes[at..at + 2] == W16(v)
    ensures U16(bytes, at) == v
  {
    var w := W16(v);
    assert bytes[at] == w[0] by { assert bytes[at..at + 2][0] == w[0]; }
    assert bytes[at + 1] == w[1] by { assert bytes[at..at + 2][1] == w[1]; }
  }

  lemma ReadsW32(bytes: seq<Byte>, at: nat, v: nat)
    requires v < 0x1_0000_0000 && at + 4 <= |bytes| && bytes[at..at + 4] == W32(v)
    ensures U32(bytes, at) == v
  {
    var w := W32(v);
    assert bytes[at..at + 2] == bytes[at..at + 4][..2] == w[..2] == W16(v % 0x10000);
    assert bytes[at + 2..at + 4] == bytes[at..at + 4][2..] == w[2..] == W16(v / 0x10000);
    ReadsW16(bytes, at, v % 0x10000);
    ReadsW16(bytes, at + 2, v / 0x10000);
  }

  /** A part of a concatenation, by where it begins. */
  lemma PartAt(before: seq<Byte>, part: seq<Byte>, after: seq<Byte>)
    ensures var all := before + part + after; all[|before|..|before| + |part|] == part
  {
  }

  /** A part of a part. */
  lemma PartOfPart(bytes: seq<Byte>, at: nat, part: seq<Byte>, k: nat, n: nat)
    requires at + |part| <= |bytes| && bytes[at..at + |part|] == part && k + n <= |part|
    ensures bytes[at + k..at + k + n] == part[k..k + n]
  {
    var whole := bytes[at..at + |part|];
    var a, b := bytes[at + k..at + k + n], whole[k..k + n];
    forall i | 0 <= i < |a|
      ensures a[i] == b[i]
    {
      assert a[i] == bytes[at + (k + i)] == whole[k + i];
    }
    assert a == b;
  }

  /** Where each field the reader wants lies in a header. */
  lemma FieldsOfHeader(h: Header)
    requires Fits(h)
    ensures var f := WriteFixed(h);
            && f[0..4] == W32(CENTRAL_SIGNATURE)
            && f[12..14] == W16(h.time) && f[14..16] == W16(h.date)
            && f[16..20] == W32(h.crc32) && f[24..28] == W32(h.size)
            && f[28..30] == W16(|h.name|) && f[30..32] == W16(|h.extra|) && f[32..34] == W16(|h.comment|)
  {
    hide W32;
    hide W16;
    FieldSizes(h);
    var sig, time, date, crc, size := W32(CENTRAL_SIGNATURE), W16(h.time), W16(h.date), W32(h.crc32), W32(h.size);
    var a, b, c := W16(|h.name|), W16(|h.extra|), W16(|h.comment|);
    var rest := a + b + c + h.tail;
    var left := sig + h.head + time + date;
    var right := crc + h.packed + size;
    assert WriteFixed(h) == left + right + rest;
    assert left[0..4] == sig && left[12..14] == time && left[14..16] == date;
    assert right[0..4] == crc && right[8..12] == size;
    assert rest[0..2] == a && rest[2..4] == b && rest[4..6] == c;
    SliceOfThree(left, right, rest);
  }

  lemma FieldSizes(h: Header)
    requires Fits(h)
    ensures |W32(CENTRAL_SIGNATURE)| == |W32(h.crc32)| == |W32(h.size)| == 4
    ensures |W16(h.time)| == |W16(h.date)| == |W16(|h.name|)| == |W16(|h.extra|)| == |W16(|h.comment|)| == 2
  {
  }

  lemma SliceOfThree(a: seq<Byte>, b: seq<Byte>, c: seq<Byte>)
    ensures var all := a + b + c;
            && (forall i, j :: 0 <= i <= j <= |a| ==> all[i..j] == a[i..j])
            && (forall i, j :: 0 <= i <= j <= |b| ==> all[|a| + i..|a| + j] == b[i..j])
            && (forall i, j :: 0 <= i <= j <= |c| ==> all[|a| + |b| + i..|a| + |b| + j] == c[i..j])
  {
  }

  /** The fixed part of a header is read field by field, wherever it lies. */
  lemma FixedIsRead(bytes: seq<Byte>, at: nat, h: Header)
    requires Fits(h) && at + CENTRAL_HEADER_BYTES <= |bytes| && bytes[at..at + CENTRAL_HEADER_BYTES] == WriteFixed(h)
    ensures U32(bytes, at) == CENTRAL_SIGNATURE && U16(bytes, at + 12) == h.time && U16(bytes, at + 14) == h.date
    ensures U32(bytes, at + 16) == h.crc32 && U32(bytes, at + 24) == h.size
    ensures U16(bytes, at + 28) == |h.name| && U16(bytes, at + 30) == |h.extra| && U16(bytes, at + 32) == |h.comment|
  {
    hide U16;
    hide U32;
    hide W16;
    hide W32;
    hide WriteFixed;
    var fixed := WriteFixed(h);
    FieldsOfHeader(h);
    PartOfPart(bytes, at, fixed, 0, 4);
    PartOfPart(bytes, at, fixed, 12, 2);
    PartOfPart(bytes, at, fixed, 14, 2);
    PartOfPart(bytes, at, fixed, 16, 4);
    PartOfPart(bytes, at, fixed, 24, 4);
    PartOfPart(bytes, at, fixed, 28, 2);
    PartOfPart(bytes, at, fixed, 30, 2);
    PartOfPart(bytes, at, fixed, 32, 2);
    ReadsW32(bytes, at, CENTRAL_SIGNATURE);
    ReadsW16(bytes, at + 12, h.time);
    ReadsW16(bytes, at + 14, h.date);
    ReadsW32(bytes, at + 16, h.crc32);
    ReadsW32(bytes, at + 24, h.size);
    ReadsW16(bytes, at + 28, |h.name|);
    ReadsW16(bytes, at + 30, |h.extra|);
    ReadsW16(bytes, at + 32, |h.comment|);
  }

  /** A written header is read field by field. */
  lemma HeaderIsRead(bytes: seq<Byte>, at: nat, h: Header, decode: Decoder)
    requires Fits(h) && at + |WriteHeader(h)| <= |bytes| && bytes[at..at + |WriteHeader(h)|] == WriteHeader(h)
    ensures U32(bytes, at) == CENTRAL_SIGNATURE
    ensures at + CENTRAL_HEADER_BYTES + U16(bytes, at + 28) <= |bytes|
    ensures MemberAt(bytes, at, decode) == MemberOf(h, decode)
    ensures NextHeader(bytes, at) == at + |WriteHeader(h)|
  {
    hide U16;
    hide U32;
    hide W16;
    hide W32;
    hide WriteFixed;
    var all, fixed := WriteHeader(h), WriteFixed(h);
    PartAt([], fixed, h.name + h.extra + h.comment);
    assert all == [] + fixed + (h.name + h.extra + h.comment);
    PartOfPart(bytes, at, all, 0, CENTRAL_HEADER_BYTES);
    assert bytes[at..at + CENTRAL_HEADER_BYTES] == fixed;
    FixedIsRead(bytes, at, h);
    PartAt(fixed, h.name, h.extra + h.comment);
    assert all == fixed + h.name + (h.extra + h.comment);
    PartOfPart(bytes, at, all, CENTRAL_HEADER_BYTES, |h.name|);
  }

  function MemberOf(h: Header, decode: Decoder): ZipMember {
    ZipMember(decode(h.name), h.crc32, h.size, h.date * 0x10000 + h.time)
  }

  function MembersOf(hs: seq<Header>, decode: Decoder): seq<ZipMember> {
    if hs == [] then [] else [MemberOf(hs[0], decode)] + MembersOf(hs[1..], decode)
  }

  lemma {:induction false} CentralIsRead(bytes: seq<Byte>, at: nat, hs: seq<Header>, i: nat, count: nat,
                                         decode: Decoder)
    requires forall k :: 0 <= k < |hs| ==> Fits(hs[k])
    requires count == i + |hs|
    requires at + |WriteAll(hs)| <= |bytes| && bytes[at..at + |WriteAll(hs)|] == WriteAll(hs)
    ensures ReadFrom(bytes, at, i, count, decode) == Ok(MembersOf(hs, decode))
    decreases |hs|
  {
    hide U16;
    hide U32;
    hide WriteHeader;
    hide MemberAt;
    hide NextHeader;
    if hs == [] {
    } else {
      var first, rest := WriteHeader(hs[0]), WriteAll(hs[1..]);
      PartOfPart(bytes, at, WriteAll(hs), 0, |first|);
      assert WriteAll(hs)[0..|first|] == first;
      HeaderIsRead(bytes, at, hs[0], decode);
      PartOfPart(bytes, at, WriteAll(hs), |first|, |rest|);
      assert WriteAll(hs)[|first|..|first| + |rest|] == rest;
      CentralIsRead(bytes, at + |first|, hs[1..], i + 1, count, decode);
      hide WriteAll;
    }
  }

  /** A zip file: anything at all, the central directory, the end record and its comment. */
  function WriteZip(leading: seq<Byte>, hs: seq<Header>, disks: seq<Byte>, size: seq<Byte>,
                    comment: seq<Byte>): seq<Byte>
    requires forall k :: 0 <= k < |hs| ==> Fits(hs[k])
    requires |hs| < 0x10000 && |leading| < 0x1_0000_0000 && |disks| == 6 && |size| == 4 && |comment| < 0x10000
  {
    leading + WriteAll(hs) + WriteEnd(disks, |hs|, size, |leading|, comment)
  }

  lemma EndIsRead(bytes: seq<Byte>, at: nat, disks: seq<Byte>, count: nat, size: seq<Byte>, offset: nat,
                  comment: seq<Byte>)
    requires |disks| == 6 && |size| == 4 && count < 0x10000 && offset < 0x1_0000_0000 && |comment| < 0x10000
    requires at + EOCD_BYTES + |comment| == |bytes| && bytes[at..] == WriteEnd(disks, count, size, offset, comment)
    ensures EndRecordAt(bytes, at) && U16(bytes, at + 10) == count && U32(bytes, at + 16) == offset
  {
    hide W16;
    hide W32;
    hide U16;
    hide U32;
    var all := WriteEnd(disks, count, size, offset, comment);
    var sig, n, o := W32(EOCD_SIGNATURE), W16(count), W32(offset);
    assert |sig| == 4 && |n| == 2 && |o| == 4 by { EndSizes(count, offset); }
    assert all[0..4] == sig && all[10..12] == n && all[16..20] == o;
    assert bytes[at..at + |all|] == all;
    PartOfPart(bytes, at, all, 0, 4);
    PartOfPart(bytes, at, all, 10, 2);
    PartOfPart(bytes, at, all, 16, 4);
    ReadsW32(bytes, at, EOCD_SIGNATURE);
    ReadsW16(bytes, at + 10, count);
    ReadsW32(bytes, at + 16, offset);
  }

  lemma EndSizes(count: nat, offset: nat)
    requires count < 0x10000 && offset < 0x1_0000_0000
    ensures |W32(EOCD_SIGNATURE)| == |W32(offset)| == 4 && |W16(count)| == 2
  {
  }

  /**
   Reading undoes writing: whatever bytes lead and whatever the comment says,
   so long as nothing after the end record looks like another one, the reader
   gives the members written, all of them and in order.
   */
  lemma ReadUndoesWrite(leading: seq<Byte>, hs: seq<Header>, disks: seq<Byte>, size: seq<Byte>, comment: seq<Byte>,
                        decode: Decoder)
    requires forall k :: 0 <= k < |hs| ==> Fits(hs[k])
    requires |hs| < 0x10000 && |leading| < 0x1_0000_0000 && |disks| == 6 && |size| == 4 && |comment| < 0x10000
    requires var bytes := WriteZip(leading, hs, disks, size, comment);
             forall k :: |leading| + |WriteAll(hs)| < k ==> !EndRecordAt(bytes, k)
    ensures var bytes, eocd := WriteZip(leading, hs, disks, size, comment), |leading| + |WriteAll(hs)|;
            IsLastEndRecord(bytes, eocd) && ReadIndex(bytes, eocd, decode) == Ok(MembersOf(hs, decode))
  {
    hide U16;
    hide U32;
    hide WriteAll;
    hide WriteEnd;
    hide ReadFrom;
    var bytes, central := WriteZip(leading, hs, disks, size, comment), WriteAll(hs);
    var end := WriteEnd(disks, |hs|, size, |leading|, comment);
    assert |end| == EOCD_BYTES + |comment|;
    var eocd := |leading| + |central|;
    assert bytes[eocd..] == end;
    EndIsRead(bytes, eocd, disks, |hs|, size, |leading|, comment);
    PartAt(leading, central, end);
    CentralIsRead(bytes, |leading|, hs, 0, |hs|, decode);
  }

  // ---------------------------------------------------------------------
  // Byte by byte
  // ---------------------------------------------------------------------

  /** Two bytes are a number exactly when they are its digits to the base of 256, the low one first. */
  lemma LengthInBytes(bytes: seq<Byte>, at: nat, a: nat, b: nat)
    requires at + 2 <= |bytes| && a < 0x100 && b < 0x100
    ensures U16(bytes, at) == a + 0x100 * b <==> bytes[at..at + 2] == [a, b]
  {
    assert bytes[at..at + 2] == [bytes[at], bytes[at + 1]];
  }

  /** And so four. */
  lemma NumberInBytes(bytes: seq<Byte>, at: nat, a: nat, b: nat, c: nat, d: nat)
    requires at + 4 <= |bytes| && a < 0x100 && b < 0x100 && c < 0x100 && d < 0x100
    ensures U32(bytes, at) == a + 0x100 * b + 0x1_0000 * c + 0x100_0000 * d <==> bytes[at..at + 4] == [a, b, c, d]
  {
    LengthInBytes(bytes, at, a, b);
    LengthInBytes(bytes, at + 2, c, d);
    var low: nat, high: nat := bytes[at], bytes[at + 2];
    assert bytes[at..at + 4] == bytes[at..at + 2] + bytes[at + 2..at + 4];
    if bytes[at..at + 4] == [a, b, c, d] {
      assert bytes[at..at + 2] == [a, b] by { assert bytes[at..at + 4][..2] == [a, b]; }
      assert bytes[at + 2..at + 4] == [c, d] by { assert bytes[at..at + 4][2..] == [c, d]; }
    }
  }

  /** `PK\x05\x06`, with room behind it for an end record. */
  lemma EndRecordIsItsBytes(bytes: seq<Byte>, at: nat)
    ensures EndRecordAt(bytes, at) <==> at + 22 <= |bytes| && bytes[at..at + 4] == [0x50, 0x4b, 5, 6]
    ensures Earliest(bytes) <= at <==> |bytes| <= at + 22 + 65535
  {
    if at + 22 <= |bytes| { NumberInBytes(bytes, at, 0x50, 0x4b, 5, 6); }
  }

  /** A header that can be read: 46 bytes that start with `PK\x01\x02`, and its name behind them. */
  predicate IsHeader(bytes: seq<Byte>, at: nat) {
    at + 46 <= |bytes| && bytes[at..at + 4] == [0x50, 0x4b, 1, 2] && at + 46 + U16(bytes, at + 28) <= |bytes|
  }

  /** What is read of a header, field by field; the next is behind its name, its extra field and its comment. */
  predicate IsStep(bytes: seq<Byte>, at: nat, next: nat, decode: Decoder, m: ZipMember) {
    && IsHeader(bytes, at)
    && m.name == decode(bytes[at + 46..at + 46 + U16(bytes, at + 28)])
    && m.stamp == U32(bytes, at + 12)
    && m.crc32 == U32(bytes, at + 16)
    && m.size == U32(bytes, at + 24)
    && next == at + 46 + U16(bytes, at + 28) + U16(bytes, at + 30) + U16(bytes, at + 32)
  }

  /** Why a header cannot be read, the first reason of three. */
  predicate IsStop(bytes: seq<Byte>, at: nat, i: nat, count: nat, e: Failure) {
    if |bytes| < at + 46 then e == EntryRunsPast(count, i + 1)
    else if bytes[at..at + 4] != [0x50, 0x4b, 1, 2] then e == NoSignature(i + 1)
    else e == NameRunsPast(i + 1) && at + 46 + U16(bytes, at + 28) > |bytes|
  }

  /** The headers read in turn from `at` on, and where each begins. */
  predicate AreSteps(bytes: seq<Byte>, ats: seq<nat>, decode: Decoder, members: seq<ZipMember>) {
    && |ats| == |members| + 1
    && forall k :: 0 <= k < |members| ==> IsStep(bytes, ats[k], ats[k + 1], decode, members[k])
  }

  lemma {:induction false} ReadFromIsSteps(bytes: seq<Byte>, at: nat, i: nat, count: nat, decode: Decoder)
    returns (ats: seq<nat>, members: seq<ZipMember>)
    requires i <= count
    ensures AreSteps(bytes, ats, decode, members) && ats[0] == at && i + |members| <= count
    ensures var r := ReadFrom(bytes, at, i, count, decode);
            if i + |members| == count then r == Ok(members)
            else r.Err? && IsStop(bytes, ats[|members|], i + |members|, count, r.error)
    decreases count - i
  {
    ats, members := [at], [];
    if i < count && at + 46 <= |bytes| {
      NumberInBytes(bytes, at, 0x50, 0x4b, 1, 2);
      if IsHeader(bytes, at) {
        var next, m := NextHeader(bytes, at), MemberAt(bytes, at, decode);
        assert IsStep(bytes, at, next, decode, m);
        hide U16;
        hide U32;
        hide IsStep;
        var more, rest := ReadFromIsSteps(bytes, next, i + 1, count, decode);
        ats, members := [at] + more, [m] + rest;
        forall k | 0 <= k < |members|
          ensures IsStep(bytes, ats[k], ats[k + 1], decode, members[k])
        {
          if k > 0 { assert IsStep(bytes, more[k - 1], more[k], decode, rest[k - 1]); }
        }
      }
    }
  }

  /**
   The central directory byte by byte: as many headers as the end record
   counts, the first where it says, each read field by field and the next
   right behind it; or as many as can be, and why no more can.
   */
  lemma ReadsHeaderByHeader(bytes: seq<Byte>, eocd: nat, decode: Decoder)
    returns (ats: seq<nat>, members: seq<ZipMember>)
    requires EndRecordAt(bytes, eocd)
    ensures AreSteps(bytes, ats, decode, members) && ats[0] == U32(bytes, eocd + 16)
    ensures var count, r := U16(bytes, eocd + 10), ReadIndex(bytes, eocd, decode);
            && |members| <= count
            && if |members| == count then r == Ok(members)
               else r.Err? && IsStop(bytes, ats[|members|], |members|, count, r.error)
  {
    hide IsStep;
    hide IsStop;
    ats, members := ReadFromIsSteps(bytes, U32(bytes, eocd + 16), 0, U16(bytes, eocd + 10), decode);
  }
}
