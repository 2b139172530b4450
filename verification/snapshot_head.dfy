/** The snapshot head: the list of saved chunks as bytes, and where head, body and history lie. */
module SnapshotHead {
  import opened Bytes

  /** `count` pages of the volume starting at page `onVolume`, saved at page `onSnapshot`. */
  datatype Entry = Entry(onVolume: nat, onSnapshot: nat, count: nat)

  // The encoded head.

  const HEADER: nat := 16
  const RECORD: nat := 18
  /** sizeof the descriptor, which contains the first record. */
  const DESCRIPTOR: nat := 34
  const PAGE: nat := 4096
  const SECTOR: nat := 512
  const MAGIC: nat := 0x65534e50
  /** The longest list whose length in bytes fits a 16-bit field. */
  const MAX_ENTRIES: nat := 3639

  function EncodeEntry(e: Entry): (s: seq<byte>)
    ensures |s| == RECORD
  {
    Le(e.onVolume, 8) + Le(e.onSnapshot, 8) + Le(e.count, 2)
  }

  function Records(list: seq<Entry>): (s: seq<byte>)
    ensures |s| == RECORD * |list|
  {
    if list == [] then [] else Records(list[..|list| - 1]) + EncodeEntry(list[|list| - 1])
  }

  function Header(n: nat, mount: nat, version: nat): (s: seq<byte>)
    ensures |s| == HEADER
  {
    Le(MAGIC, 4) + Le(mount, 4) + Le(version, 4) + Le(n, 2) + Le(HEADER + RECORD * n, 2)
  }

  /** Header, records, and the checksum of as many bytes as the 16-bit offset field says. */
  function Encode(list: seq<Entry>, mount: nat, version: nat, crc: seq<byte> -> nat): (s: seq<byte>)
    ensures |s| == HEADER + RECORD * |list| + 4
  {
    var body := Header(|list|, mount, version) + Records(list);
    body + Le(crc(body[..|body| % WORD16]), 4)
  }

  predicate Present(head: seq<byte>) {
    |head| >= 4 && head[..4] == Le(MAGIC, 4)
  }

  function CountField(head: seq<byte>): nat
    requires |head| >= HEADER
  {
    FromLe(head[12..14])
  }

  function OffsetField(head: seq<byte>): nat
    requires |head| >= HEADER
  {
    FromLe(head[14..16])
  }

  /** The checksum test of the restore path. */
  predicate Accepted(head: seq<byte>, crc: seq<byte> -> nat) {
    && |head| >= HEADER
    && var off := OffsetField(head);
       off + 4 <= |head| && crc(head[..off]) % WORD32 == FromLe(head[off..off + 4])
  }

  function DecodeEntry(s: seq<byte>): Entry
    requires |s| == RECORD
  {
    Entry(FromLe(s[..8]), FromLe(s[8..16]), FromLe(s[16..18]))
  }

  /** The first `n` records of a head. */
  function DecodeRecords(head: seq<byte>, n: nat): (list: seq<Entry>)
    requires |head| >= HEADER + RECORD * n
    ensures |list| == n
  {
    if n == 0 then []
    else var at := HEADER + RECORD * (n - 1);
         DecodeRecords(head, n - 1) + [DecodeEntry(head[at..at + RECORD])]
  }

  function Decode(head: seq<byte>): seq<Entry> {
    if |head| >= HEADER && |head| >= HEADER + RECORD * CountField(head)
    then DecodeRecords(head, CountField(head))
    else []
  }

  /** The values that the fields of a record can hold. */
  predicate Fits(e: Entry) {
    e.onVolume < Pow256(8) && e.onSnapshot < Pow256(8) && e.count < WORD16
  }

  lemma EntryRoundTrip(e: Entry)
    requires Fits(e)
    ensures DecodeEntry(EncodeEntry(e)) == e
  {
    hide Pow256, Le, FromLe;
    var a, b, c := Le(e.onVolume, 8), Le(e.onSnapshot, 8), Le(e.count, 2);
    ThreeParts(a, b, c);
    LeRoundTrip(e.onVolume, 8);
    LeRoundTrip(e.onSnapshot, 8);
    LeWords(e.count);
  }

  lemma ThreeParts(a: seq<byte>, b: seq<byte>, c: seq<byte>)
    requires |a| == |b| == 8 && |c| == 2
    ensures var s := a + b + c; s[..8] == a && s[8..16] == b && s[16..18] == c
  {
  }

  lemma {:induction false} RecordsRoundTrip(list: seq<Entry>, h: seq<byte>, tail: seq<byte>)
    requires |h| == HEADER && forall e :: e in list ==> Fits(e)
    ensures DecodeRecords(h + Records(list) + tail, |list|) == list
    decreases |list|
  {
    hide Fits, EncodeEntry, DecodeEntry;
    if list != [] {
      var n := |list| - 1;
      var last := EncodeEntry(list[n]);
      var rest := last + tail;
      assert h + Records(list) + tail == h + Records(list[..n]) + rest;
      RecordsRoundTrip(list[..n], h, rest);
      var at := HEADER + RECORD * n;
      assert (h + Records(list) + tail)[at..at + RECORD] == last;
      EntryRoundTrip(list[n]);
      assert list == list[..n] + [list[n]];
    }
  }

  /** The two 16-bit fields of the header, modulo their width. */
  lemma HeaderFields(n: nat, mount: nat, version: nat, tail: seq<byte>)
    ensures var head := Header(n, mount, version) + tail;
            && Present(head)
            && CountField(head) == n % WORD16 && OffsetField(head) == (HEADER + RECORD * n) % WORD16
  {
    hide Le, FromLe, Pow256;
    var head := Header(n, mount, version) + tail;
    assert head[..4] == Le(MAGIC, 4) && head[12..14] == Le(n, 2) && head[14..16] == Le(HEADER + RECORD * n, 2);
    LeWords(n);
    LeWords(HEADER + RECORD * n);
  }

  /** A committed head reads back as the list it was made from, whatever follows it in the head area. */
  lemma HeadRoundTrip(list: seq<Entry>, mount: nat, version: nat, crc: seq<byte> -> nat, tail: seq<byte>)
    requires |list| < WORD16 && forall e :: e in list ==> Fits(e)
    ensures var head := Encode(list, mount, version, crc) + tail; Present(head) && Decode(head) == list
  {
    hide Pow256, Le, FromLe, Records, DecodeRecords, Header, Present, Fits;
    var h, rs := Header(|list|, mount, version), Records(list);
    var sum := Le(crc((h + rs)[..|h + rs| % WORD16]), 4);
    var head := Encode(list, mount, version, crc) + tail;
    assert head == h + rs + (sum + tail);
    assert head == h + (rs + (sum + tail));
    HeaderFields(|list|, mount, version, rs + (sum + tail));
    RecordsRoundTrip(list, h, sum + tail);
    assert CountField(head) == |list|;
  }

  /** The checksum is looked for where it was put exactly when the list is not too long. */
  lemma ChecksumPlace(list: seq<Entry>, mount: nat, version: nat, crc: seq<byte> -> nat, tail: seq<byte>)
    ensures var head := Encode(list, mount, version, crc) + tail;
            OffsetField(head) == HEADER + RECORD * |list| <==> |list| <= MAX_ENTRIES
  {
    hide Pow256, Le, FromLe, Records, Header;
    var h, rs := Header(|list|, mount, version), Records(list);
    var sum := Le(crc((h + rs)[..|h + rs| % WORD16]), 4);
    assert Encode(list, mount, version, crc) + tail == h + (rs + sum + tail);
    HeaderFields(|list|, mount, version, rs + sum + tail);
  }

  /** A head that is not too long passes the checksum test. */
  lemma HeadAccepted(list: seq<Entry>, mount: nat, version: nat, crc: seq<byte> -> nat, tail: seq<byte>)
    requires |list| <= MAX_ENTRIES
    ensures Accepted(Encode(list, mount, version, crc) + tail, crc)
  {
    hide Pow256, Le, FromLe, Records, Header, OffsetField;
    ChecksumPlace(list, mount, version, crc, tail);
    var body := Header(|list|, mount, version) + Records(list);
    var head := Encode(list, mount, version, crc) + tail;
    var off := HEADER + RECORD * |list|;
    assert head[..off] == body == body[..off];
    assert head[off..off + 4] == Le(crc(body), 4);
    LeWords(crc(body));
  }

  /** Where a list that is too long has the restore path look for the checksum: among its own records. */
  lemma MisplacedChecksum(list: seq<Entry>, mount: nat, version: nat, tail: seq<byte>) returns (crc: seq<byte> -> nat)
    requires |list| > MAX_ENTRIES
    ensures !Accepted(Encode(list, mount, version, crc) + tail, crc)
  {
    hide Le, FromLe, Records, Header, CountField, Present;
    var h, rs := Header(|list|, mount, version), Records(list);
    var body := h + rs;
    assert |body| >= WORD16;
    var off := |body| % WORD16;
    assert off + 4 <= |body|;
    var seen := FromLe(body[off..off + 4]);
    crc := _ => seen + 1;
    var head := Encode(list, mount, version, crc) + tail;
    var rest := Le(seen + 1, 4) + tail;
    assert head == body + rest == h + (rs + rest);
    assert head[off..off + 4] == body[off..off + 4];
    HeaderFields(|list|, mount, version, rs + rest);
    FromLeBound(body[off..off + 4]);
    assert Pow256(1) == 256 && Pow256(3) == 0x100_0000;
  }

  /** A head is sure to be accepted exactly when its length in bytes fits the 16-bit field. */
  lemma AcceptedIffShort(list: seq<Entry>, mount: nat, version: nat, tail: seq<byte>)
    ensures (forall crc: seq<byte> -> nat :: Accepted(Encode(list, mount, version, crc) + tail, crc))
            <==> |list| <= MAX_ENTRIES
  {
    hide Encode, Accepted;
    if |list| <= MAX_ENTRIES {
      forall crc: seq<byte> -> nat ensures Accepted(Encode(list, mount, version, crc) + tail, crc) {
        HeadAccepted(list, mount, version, crc, tail);
      }
    } else {
      var crc := MisplacedChecksum(list, mount, version, tail);
    }
  }

  /** Stores one record. */
  method PutEntry(buf: array<byte>, at: nat, e: Entry)
    requires at + RECORD <= buf.Length
    modifies buf
    ensures buf[..] == Put(old(buf[..]), at, EncodeEntry(e))
  {
    hide Le, Put;
    ghost var b, x, y, z := buf[..], Le(e.onVolume, 8), Le(e.onSnapshot, 8), Le(e.count, 2);
    PutLe(buf, at, e.onVolume, 8);
    PutLe(buf, at + 8, e.onSnapshot, 8);
    PutLe(buf, at + 16, e.count, 2);
    PutTwice(b, at, x, y);
    PutTwice(b, at, x + y, z);
  }

  /** Stores the list in the mapped head pages; an empty list is refused. */
  method TreeToSnapshot(list: seq<Entry>, buf: array<byte>, mount: nat, version: nat, crc: seq<byte> -> nat)
      returns (ok: bool)
    requires HEADER + RECORD * |list| + 4 <= buf.Length
    modifies buf
    ensures ok <==> list != []
    ensures ok ==> buf[..] == Encode(list, mount, version, crc) + old(buf[HEADER + RECORD * |list| + 4..])
  {
    hide Le, Records, Encode, Put;
    ghost var b0 := buf[..];
    PutLe(buf, 0, MAGIC, 4);
    ghost var b1 := buf[..];
    PutNothing(b1, HEADER);
    var n, at := 0, HEADER;
    while n < |list|
      invariant n <= |list| && at == HEADER + RECORD * n
      invariant buf[..] == Put(b1, HEADER, Records(list[..n]))
    {
      PutEntry(buf, at, list[n]);
      NextRecord(b1, list, n);
      n, at := n + 1, at + RECORD;
    }
    if n == 0 {
      return false;
    }
    assert list[..n] == list;
    PutLe(buf, 12, n, 2);
    PutLe(buf, 14, at, 2);
    PutLe(buf, 4, mount, 4);
    PutLe(buf, 8, version, 4);
    PutHeader(b0, list, mount, version);
    var sum := crc(buf[..at % WORD16]);
    PutLe(buf, at, sum, 4);
    PutChecksum(b0, list, mount, version, crc);
    ok := true;
  }

  lemma PutNothing(b: seq<byte>, at: nat)
    requires at <= |b|
    ensures Put(b, at, []) == b && Records([]) == []
  {
  }

  lemma NextRecord(b: seq<byte>, list: seq<Entry>, n: nat)
    requires n < |list| && HEADER + RECORD * |list| <= |b|
    ensures Put(Put(b, HEADER, Records(list[..n])), HEADER + RECORD * n, EncodeEntry(list[n]))
            == Put(b, HEADER, Records(list[..n + 1]))
  {
    hide Put, EncodeEntry;
    assert list[..n + 1][..n] == list[..n];
    PutTwice(b, HEADER, Records(list[..n]), EncodeEntry(list[n]));
  }

  /** The fields of the header are stored out of order. */
  lemma PutFields(m: seq<byte>, x: seq<byte>, y: seq<byte>, z: seq<byte>, w: seq<byte>, rest: seq<byte>,
                  mc: seq<byte>, v: seq<byte>, c: seq<byte>, o: seq<byte>)
    requires |m| == |x| == |y| == |mc| == |v| == 4 && |z| == |w| == |c| == |o| == 2
    ensures Put(Put(Put(Put(m + x + y + z + w + rest, 12, c), 14, o), 4, mc), 8, v) == m + mc + v + c + o + rest
  {
    hide Put;
    var b := m + x + y + z + w + rest;
    assert b == (m + x + y) + z + (w + rest);
    PutIn(b, m + x + y, z, c, w + rest);
    assert (m + x + y) + c + (w + rest) == (m + x + y + c) + w + rest;
    PutIn(Put(b, 12, c), m + x + y + c, w, o, rest);
    assert (m + x + y + c) + o + rest == m + x + (y + c + o + rest);
    PutIn(Put(Put(b, 12, c), 14, o), m, x, mc, y + c + o + rest);
    assert m + mc + (y + c + o + rest) == (m + mc) + y + (c + o + rest);
    PutIn(Put(Put(Put(b, 12, c), 14, o), 4, mc), m + mc, y, v, c + o + rest);
    assert (m + mc) + v + (c + o + rest) == m + mc + v + c + o + rest;
  }

  /** Magic and records in place, the other fields still as they were. */
  lemma PutBody(b0: seq<byte>, m: seq<byte>, rs: seq<byte>)
    requires |m| == 4 && HEADER + |rs| <= |b0|
    ensures Put(Put(b0, 0, m), HEADER, rs) ==
            m + b0[4..8] + b0[8..12] + b0[12..14] + b0[14..16] + (rs + b0[HEADER + |rs|..])
  {
    assert b0[4..16] == b0[4..8] + b0[8..12] + b0[12..14] + b0[14..16];
    assert Put(b0, 0, m) == m + b0[4..16] + b0[16..];
  }

  lemma HeaderIs(n: nat, mount: nat, version: nat)
    ensures Header(n, mount, version)
            == Le(MAGIC, 4) + Le(mount, 4) + Le(version, 4) + Le(n, 2) + Le(HEADER + RECORD * n, 2)
  {
  }

  lemma PutHeader(b0: seq<byte>, list: seq<Entry>, mount: nat, version: nat)
    requires HEADER + RECORD * |list| <= |b0|
    ensures var n := |list|; var at := HEADER + RECORD * n;
            var b := Put(Put(b0, 0, Le(MAGIC, 4)), HEADER, Records(list));
            Put(Put(Put(Put(b, 12, Le(n, 2)), 14, Le(at, 2)), 4, Le(mount, 4)), 8, Le(version, 4))
            == Header(n, mount, version) + Records(list) + b0[at..]
  {
    hide Le, Records, Put, Header;
    HeaderIs(|list|, mount, version);
    var n, rs := |list|, Records(list);
    var at := HEADER + RECORD * n;
    PutBody(b0, Le(MAGIC, 4), rs);
    PutFields(Le(MAGIC, 4), b0[4..8], b0[8..12], b0[12..14], b0[14..16], rs + b0[at..],
              Le(mount, 4), Le(version, 4), Le(n, 2), Le(at, 2));
    Reassoc(Header(n, mount, version), rs, b0[at..]);
  }

  lemma PutChecksum(b0: seq<byte>, list: seq<Entry>, mount: nat, version: nat, crc: seq<byte> -> nat)
    requires HEADER + RECORD * |list| + 4 <= |b0|
    ensures var at := HEADER + RECORD * |list|;
            var b := Header(|list|, mount, version) + Records(list) + b0[at..];
            Put(b, at, Le(crc(b[..at % WORD16]), 4)) == Encode(list, mount, version, crc) + b0[at + 4..]
  {
    hide Le, Records, Header, Put, Encode;
    var at := HEADER + RECORD * |list|;
    var body := Header(|list|, mount, version) + Records(list);
    EncodeIs(list, mount, version, crc, body);
    PutSum(body, b0, at, at % WORD16, Le(crc(body[..at % WORD16]), 4));
  }

  lemma EncodeIs(list: seq<Entry>, mount: nat, version: nat, crc: seq<byte> -> nat, body: seq<byte>)
    requires body == Header(|list|, mount, version) + Records(list)
    ensures Encode(list, mount, version, crc) == body + Le(crc(body[..|body| % WORD16]), 4)
  {
  }

  lemma PutSum(body: seq<byte>, b0: seq<byte>, at: nat, off: nat, sum: seq<byte>)
    requires |body| == at && at + 4 <= |b0| && |sum| == 4 && off <= at
    ensures (body + b0[at..])[..off] == body[..off] && Put(body + b0[at..], at, sum) == body + sum + b0[at + 4..]
  {
    assert b0[at..] == b0[at..at + 4] + b0[at + 4..];
    PutIn(body + b0[at..], body, b0[at..at + 4], sum, b0[at + 4..]);
  }
}
