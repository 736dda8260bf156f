/** Byte-granular transfers over a device that moves whole 512-byte sectors.

    A request moves `count` sectors between the disk and a buffer made of one page of 4 KiB, one of
    8 KiB, or several of 8 KiB; reads past the end of the sectors leave page memory as it was, and
    fresh pages hold arbitrary bytes. */
module Block {
  import opened Wrappers
  import opened Bits

  const SECTOR: nat := 512

  datatype Result<+T> = Ok(value: T) | EINVAL

  // ----- the flat device

  lemma OverwriteNothing(bytes: seq<Byte>, at: nat)
    requires at <= |bytes|
    ensures Overwrite(bytes, at, []) == bytes
  {}

  lemma OverwriteThen(bytes: seq<Byte>, at: nat, a: seq<Byte>, b: seq<Byte>, mid: nat)
    requires at + |a| + |b| <= |bytes| && mid == at + |a|
    ensures Overwrite(Overwrite(bytes, at, a), mid, b) == Overwrite(bytes, at, a + b)
  {}

  /** The bytes at a place; the device with bytes patched in there.  Out of range, nothing. */
  function Peek(bytes: seq<Byte>, at: nat, len: nat): seq<Byte> { if at + len <= |bytes| then bytes[at..at + len] else [] }

  function Patched(bytes: seq<Byte>, at: nat, data: seq<Byte>): seq<Byte> {
    if at + |data| <= |bytes| then Overwrite(bytes, at, data) else bytes
  }

  /** A write is read back; the bytes around it are as before. */
  lemma PatchedIs(bytes: seq<Byte>, at: nat, data: seq<Byte>, other: nat, len: nat)
    requires at + |data| <= |bytes|
    ensures |Patched(bytes, at, data)| == |bytes| && Peek(Patched(bytes, at, data), at, |data|) == data
    ensures other + len <= at || at + |data| <= other ==> Peek(Patched(bytes, at, data), other, len) == Peek(bytes, other, len)
  {}

  lemma PatchedThen(bytes: seq<Byte>, at: nat, data: seq<Byte>, k: nat, n: nat)
    requires k + n <= |data| && (k > 0 ==> at + k <= |bytes|)
    ensures at + k + n <= |bytes| ==>
              Patched(Patched(bytes, at, data[..k]), at + k, data[k..][..n]) == Patched(bytes, at, data[..k + n])
  {
    var a, b := data[..k], data[k..][..n];
    assert a + b == data[..k + n];
    PatchedTwice(bytes, at, a, b, at + k);
  }

  lemma PatchedTwice(bytes: seq<Byte>, at: nat, a: seq<Byte>, b: seq<Byte>, mid: nat)
    requires mid == at + |a|
    ensures mid + |b| <= |bytes| ==> Patched(Patched(bytes, at, a), mid, b) == Patched(bytes, at, a + b)
  {
    if mid + |b| <= |bytes| { OverwriteThen(bytes, at, a, b, mid); }
  }

  lemma PeekThen(bytes: seq<Byte>, at: nat, k: nat, n: nat)
    requires at + k + n <= |bytes|
    ensures Peek(bytes, at, k) + Peek(bytes, at + k, n) == Peek(bytes, at, k + n)
  {}

  /** A write through a window of sectors leaves every byte outside the window as it was. */
  lemma OutsideWindow(bytes: seq<Byte>, lba: nat, sectors: nat, offset: nat, data: seq<Byte>, other: nat, len: nat)
    requires (lba + sectors) * SECTOR <= |bytes| && offset + |data| <= sectors * SECTOR
    requires other + len <= lba * SECTOR || (lba + sectors) * SECTOR <= other
    ensures Peek(Patched(bytes, lba * SECTOR + offset, data), other, len) == Peek(bytes, other, len)
  {
    PatchedIs(bytes, lba * SECTOR + offset, data, other, len);
  }

  // ----- buffers

  /** What memory just allocated holds: any bytes, for each request told apart by its first sector. */
  type Memory = (nat, nat) -> Byte

  /** The pages for a request of n sectors out of the number still wanted: how large, how many, and their bytes. */
  function PageBytes(wanted: nat): nat { if wanted <= 8 then 4096 else 8192 }
  function PageCount(wanted: nat, n: nat): nat { if wanted <= 16 then 1 else (n + 15) / 16 }
  function BufferBytes(wanted: nat, n: nat): nat {
    if wanted <= 8 then 4096 else if wanted <= 16 then 8192 else (n + 15) / 16 * 8192
  }

  /** The pages hold the sectors.  For more than 16 sectors they hold nothing else exactly for multiples of 16. */
  lemma BufferFits(wanted: nat, n: nat)
    requires n <= wanted && (wanted <= 16 ==> n == wanted)
    ensures n * SECTOR <= BufferBytes(wanted, n) == PageCount(wanted, n) * PageBytes(wanted)
    ensures wanted > 16 ==> (n * SECTOR == BufferBytes(wanted, n) <==> n % 16 == 0)
  {
    if wanted > 16 { assert PageCount(wanted, n) * PageBytes(wanted) == (n + 15) / 16 * 8192; }
  }

  function Blank(key: nat, size: nat, memory: Memory): (r: seq<Byte>)
    ensures |r| == size
  {
    seq(size, i requires 0 <= i => memory(key, i))
  }

  /** Memory pages with bytes of the disk at their front. */
  function Loaded(bytes: seq<Byte>, at: nat, len: nat, key: nat, size: nat, memory: Memory): (r: seq<Byte>)
    requires at + len <= |bytes| && len <= size
    ensures |r| == size
  {
    bytes[at..at + len] + Blank(key, size, memory)[len..]
  }

  /** buffer.fill for each page in turn, the first from an offset: takes the bytes in order until the
      reader has enough (then it says stop) or the pages are used up. */
  method FillFrom(buffer: seq<Byte>, page: nat, pages: nat, first: nat, room: nat) returns (taken: seq<Byte>, stop: bool)
    requires |buffer| == pages * page && first < page && pages > 0
    ensures first + Min(room, |buffer| - first) <= |buffer| && taken == buffer[first..first + Min(room, |buffer| - first)]
    ensures stop <==> room < |buffer| - first
  {
    var cur, skip, i := 0, first, 0;
    taken, stop := [], false;
    assert 0 * page == 0;
    while i < pages
      invariant i <= pages && cur == i * page && skip == (if i == 0 then first else 0)
      invariant cur <= |buffer| && |taken| <= room
      invariant if i == 0 then taken == [] else first <= cur && taken == buffer[first..cur]
    {
      StepPage(i, pages, page);
      var n := Min(page - skip, room - |taken|);
      taken := taken + buffer[cur + skip..cur + skip + n];
      assert taken == buffer[first..cur + skip + n];
      if n < page - skip {
        stop := true;
        return;
      }
      cur, skip, i := cur + page, 0, i + 1;
    }
  }

  lemma StepPage(i: nat, pages: nat, page: nat)
    requires i < pages
    ensures (i + 1) * page == i * page + page && i * page + page <= pages * page
  {
    MulAtLeast(pages, i, page);
  }

  /** The pages with the data copied in from an offset, as much as fits. */
  method CopyInto(buffer: seq<Byte>, page: nat, pages: nat, first: nat, data: seq<Byte>) returns (out: seq<Byte>, copied: nat)
    requires |buffer| == pages * page && first < page && pages > 0
    ensures copied == Min(|data|, |buffer| - first) && first + copied <= |buffer|
    ensures out == Overwrite(buffer, first, data[..copied])
  {
    var cur, skip, i := 0, first, 0;
    copied, out := 0, buffer;
    assert 0 * page == 0;
    OverwriteNothing(buffer, first);
    while i < pages
      invariant i <= pages && cur == i * page && skip == (if i == 0 then first else 0)
      invariant cur <= |buffer| && copied <= |data| && (if i == 0 then copied == 0 else first + copied == cur)
      invariant first + copied <= |buffer| && out == Overwrite(buffer, first, data[..copied])
    {
      StepPage(i, pages, page);
      var n := Min(|data| - copied, page - skip);
      if n == 0 { break; }
      out := CopyPage(buffer, first, data, copied, n, out);
      copied := copied + n;
      if copied >= |data| { break; }
      cur, skip, i := cur + page, 0, i + 1;
    }
  }

  /** The next n bytes of the data go where the copy has got to. */
  method CopyPage(buffer: seq<Byte>, first: nat, data: seq<Byte>, copied: nat, n: nat, out: seq<Byte>) returns (next: seq<Byte>)
    requires copied + n <= |data| && first + copied + n <= |buffer| && out == Overwrite(buffer, first, data[..copied])
    ensures next == Overwrite(buffer, first, data[..copied + n])
  {
    OverwriteThen(buffer, first, data[..copied], data[copied..copied + n], first + copied);
    assert data[..copied] + data[copied..copied + n] == data[..copied + n];
    next := Overwrite(out, first + copied, data[copied..copied + n]);
  }

  // ----- the loops as functions of disk and memory

  /** A whole disk (offset 0) or a partition, and the sectors its queue takes at once. */
  datatype Window = Window(lba: nat, sectors: nat, limit: nat)

  predicate OnDisk(w: Window, bytes: seq<Byte>) { (w.lba + w.sectors) * SECTOR <= |bytes| && w.limit > 0 }

  function Sectors(first: nat, len: nat): nat { (first + len + SECTOR - 1) / SECTOR }

  /** Where a read has got to: the sectors still wanted, the bytes still wanted, what it has, and whether the reader
      said stop. */
  datatype Reading = Reading(start: nat, first: nat, count: nat, room: nat, out: seq<Byte>, stopped: bool)

  /** The sectors of one read request. */
  function ReadSize(count: nat, limit: nat): nat { if count <= 16 then count else Min(count, limit) }

  predicate ReadsOn(w: Window, s: Reading) {
    s.first < SECTOR && s.count > 0 && !s.stopped && s.start + ReadSize(s.count, w.limit) <= w.sectors
  }

  /** One request: the reader takes what it wants of the pages, which hold the sectors and then fresh memory. */
  function ReadOnce(bytes: seq<Byte>, w: Window, memory: Memory, s: Reading): Reading
    requires OnDisk(w, bytes) && ReadsOn(w, s)
  {
    var n := ReadSize(s.count, w.limit);
    BufferFits(s.count, n);
    var size := BufferBytes(s.count, n);
    var buffer := Loaded(bytes, (w.lba + s.start) * SECTOR, n * SECTOR, s.start, size, memory);
    var k := Min(s.room, size - s.first);
    Reading(s.start + n, 0, s.count - n, s.room - k, s.out + buffer[s.first..s.first + k], k < size - s.first)
  }

  function ReadLoop(bytes: seq<Byte>, w: Window, memory: Memory, s: Reading): Reading
    requires OnDisk(w, bytes)
    decreases s.count
  {
    if ReadsOn(w, s) then ReadLoop(bytes, w, memory, ReadOnce(bytes, w, memory, s)) else s
  }

  function ReadStart(offset: nat, total: nat): Reading {
    Reading(offset / SECTOR, offset % SECTOR, Sectors(offset % SECTOR, total), total, [], false)
  }

  function ReadEnd(s: Reading): Result<seq<Byte>> { if s.count == 0 || s.stopped then Ok(s.out) else EINVAL }

  function ReadAnswer(bytes: seq<Byte>, w: Window, offset: nat, total: nat, memory: Memory): Result<seq<Byte>>
    requires OnDisk(w, bytes)
  {
    ReadEnd(ReadLoop(bytes, w, memory, ReadStart(offset, total)))
  }

  /** Where a write has got to: the disk so far and the data still to go. */
  datatype Writing = Writing(bytes: seq<Byte>, start: nat, first: nat, rest: seq<Byte>)

  function WriteSize(w: Window, s: Writing): nat { Min(Sectors(s.first, |s.rest|), w.limit) }

  predicate WritesOn(w: Window, s: Writing) {
    OnDisk(w, s.bytes) && s.first < SECTOR && s.rest != [] && s.start + WriteSize(w, s) <= w.sectors
  }

  /** One request: the data is put in place as far as the sectors hold it, and used up as far as the pages do. */
  function WriteOnce(w: Window, s: Writing): (r: Writing)
    requires WritesOn(w, s)
    ensures |r.bytes| == |s.bytes| && |r.rest| < |s.rest|
  {
    var n := WriteSize(w, s);
    BufferFits(n, n);
    var k := Min(|s.rest|, n * SECTOR - s.first);
    var bytes := Patched(s.bytes, (w.lba + s.start) * SECTOR + s.first, s.rest[..k]);
    Writing(bytes, s.start + n, 0, s.rest[Min(|s.rest|, BufferBytes(n, n) - s.first)..])
  }

  function WriteLoop(w: Window, s: Writing): Writing
    decreases |s.rest|
  {
    if WritesOn(w, s) then WriteLoop(w, WriteOnce(w, s)) else s
  }

  /** The disk afterwards, and the data left over: none unless a request was refused. */
  function WriteAnswer(bytes: seq<Byte>, w: Window, offset: nat, data: seq<Byte>): Writing {
    WriteLoop(w, Writing(bytes, offset / SECTOR, offset % SECTOR, data))
  }

  // ----- reads

  predicate ReadFits(limit: nat, count: nat) { count <= 16 || count <= limit || limit % 16 == 0 }

  /** The wanted part of the sectors in a buffer is the wanted part of the disk. */
  lemma Chunk(bytes: seq<Byte>, at: nat, len: nat, key: nat, size: nat, memory: Memory, a: nat, k: nat)
    requires at + len <= |bytes| && len <= size && a + k <= len
    ensures Loaded(bytes, at, len, key, size, memory)[a..a + k] == Peek(bytes, at + a, k)
  {
    var s := Loaded(bytes, at, len, key, size, memory);
    forall i | a <= i < a + k ensures s[i] == bytes[at + i] { assert s[..len][i] == s[i]; }
  }

  /** How much of the request is wanted, for a limit that fits: never more than the sectors hold. */
  lemma ReadAmount(limit: nat, first: nat, room: nat, count: nat, n: nat, k: nat)
    requires first < SECTOR && count == Sectors(first, room) > 0 && limit > 0 && ReadFits(limit, count)
    requires n == ReadSize(count, limit) && BufferBytes(count, n) >= first && k == Min(room, BufferBytes(count, n) - first)
    ensures 0 < n <= count && first + k <= n * SECTOR && count - n == Sectors(0, room - k)
    ensures k < room ==> first + k == n * SECTOR && k == BufferBytes(count, n) - first
    ensures k < BufferBytes(count, n) - first ==> n == count
    ensures ReadFits(limit, count - n)
  {
    BufferFits(count, n);
  }

  /** What a read of `total` bytes at `at` has is the bytes there, and the sectors it still wants hold the others. */
  ghost predicate HasRead(bytes: seq<Byte>, at: nat, total: nat, s: Reading) {
    |s.out| + s.room == total && s.out == Peek(bytes, at, |s.out|)
  }

  ghost predicate ReadPlace(w: Window, at: nat, total: nat, begin: nat, end: nat, s: Reading) {
    && s.first < SECTOR && s.count == Sectors(s.first, s.room) && ReadFits(w.limit, s.count) && s.room <= total
    && (s.room > 0 ==> (w.lba + s.start) * SECTOR + s.first == at + total - s.room)
    && begin <= s.start && s.start + s.count == end && (begin < s.start ==> s.start <= w.sectors)
    && (s.stopped ==> s.count == 0)
  }

  ghost predicate ReadInv(bytes: seq<Byte>, w: Window, at: nat, total: nat, begin: nat, end: nat, s: Reading) {
    HasRead(bytes, at, total, s) && ReadPlace(w, at, total, begin, end, s)
  }

  /** A request of n sectors of which k bytes are wanted, all of them from the sectors. */
  lemma OnceTakes(bytes: seq<Byte>, w: Window, memory: Memory, s: Reading, n: nat, size: nat, k: nat)
    requires OnDisk(w, bytes) && ReadsOn(w, s) && n == ReadSize(s.count, w.limit) && size == BufferBytes(s.count, n)
    requires size >= n * SECTOR >= s.first + k && k == Min(s.room, size - s.first)
    ensures (w.lba + s.start) * SECTOR + s.first + k <= |bytes|
    ensures var taken := Peek(bytes, (w.lba + s.start) * SECTOR + s.first, k);
            ReadOnce(bytes, w, memory, s) == Reading(s.start + n, 0, s.count - n, s.room - k, s.out + taken, k < size - s.first)
  {
    OnceReading(bytes, w, memory, s, n, size, k);
    Chunk(bytes, (w.lba + s.start) * SECTOR, n * SECTOR, s.start, size, memory, s.first, k);
  }

  lemma OnceReading(bytes: seq<Byte>, w: Window, memory: Memory, s: Reading, n: nat, size: nat, k: nat)
    requires OnDisk(w, bytes) && ReadsOn(w, s) && n == ReadSize(s.count, w.limit) && size == BufferBytes(s.count, n)
    requires size >= n * SECTOR && size >= s.first && k == Min(s.room, size - s.first)
    ensures var buffer := Loaded(bytes, (w.lba + s.start) * SECTOR, n * SECTOR, s.start, size, memory);
            ReadOnce(bytes, w, memory, s) ==
            Reading(s.start + n, 0, s.count - n, s.room - k, s.out + buffer[s.first..s.first + k], k < size - s.first)
  {}

  lemma HasReadThen(bytes: seq<Byte>, at: nat, total: nat, s: Reading, pos: nat, k: nat, t: Reading)
    requires HasRead(bytes, at, total, s) && k <= s.room && (s.room > 0 ==> pos == at + |s.out| && pos + k <= |bytes|)
    requires t.room == s.room - k && t.out == s.out + Peek(bytes, pos, k) && pos + k <= |bytes|
    ensures HasRead(bytes, at, total, t)
  {
    if s.room > 0 { PeekThen(bytes, at, |s.out|, k); }
  }

  lemma ReadPlaceThen(w: Window, at: nat, total: nat, begin: nat, end: nat, s: Reading, n: nat, k: nat, t: Reading)
    requires ReadPlace(w, at, total, begin, end, s) && 0 < n <= s.count && k <= s.room && s.start + n <= w.sectors
    requires s.count - n == Sectors(0, s.room - k) && ReadFits(w.limit, s.count - n) && (k < s.room ==> s.first + k == n * SECTOR)
    requires t.start == s.start + n && t.first == 0 && t.count == s.count - n && t.room == s.room - k && (t.stopped ==> n == s.count)
    ensures ReadPlace(w, at, total, begin, end, t)
  {}

  lemma OnceReads(bytes: seq<Byte>, w: Window, memory: Memory, at: nat, total: nat, begin: nat, end: nat, s: Reading, t: Reading)
    requires OnDisk(w, bytes) && ReadsOn(w, s) && ReadInv(bytes, w, at, total, begin, end, s) && t == ReadOnce(bytes, w, memory, s)
    ensures ReadInv(bytes, w, at, total, begin, end, t)
  {
    var n := ReadSize(s.count, w.limit);
    BufferFits(s.count, n);
    var size := BufferBytes(s.count, n);
    var k := Min(s.room, size - s.first);
    ReadAmount(w.limit, s.first, s.room, s.count, n, k);
    OnceTakes(bytes, w, memory, s, n, size, k);
    HasReadThen(bytes, at, total, s, (w.lba + s.start) * SECTOR + s.first, k, t);
    ReadPlaceThen(w, at, total, begin, end, s, n, k, t);
  }

  lemma {:induction false} ReadGood(bytes: seq<Byte>, w: Window, memory: Memory, at: nat, total: nat, begin: nat, end: nat, s: Reading)
    requires OnDisk(w, bytes) && ReadInv(bytes, w, at, total, begin, end, s)
    ensures ReadInv(bytes, w, at, total, begin, end, ReadLoop(bytes, w, memory, s)) && !ReadsOn(w, ReadLoop(bytes, w, memory, s))
    decreases s.count
  {
    if ReadsOn(w, s) {
      OnceReads(bytes, w, memory, at, total, begin, end, s, ReadOnce(bytes, w, memory, s));
      ReadGood(bytes, w, memory, at, total, begin, end, ReadOnce(bytes, w, memory, s));
    }
  }

  /** Exactly the bytes asked for, or an error exactly when they need a sector past the end. */
  ghost predicate ReadsRight(bytes: seq<Byte>, w: Window, offset: nat, total: nat, r: Result<seq<Byte>>) {
    var count := Sectors(offset % SECTOR, total);
    && (r == EINVAL <==> count > 0 && offset / SECTOR + count > w.sectors)
    && (r.Ok? ==> r.value == Peek(bytes, w.lba * SECTOR + offset, total))
  }

  lemma ReadDone(bytes: seq<Byte>, w: Window, offset: nat, total: nat, at: nat, begin: nat, end: nat, t: Reading)
    requires ReadInv(bytes, w, at, total, begin, end, t) && !ReadsOn(w, t)
    requires at == w.lba * SECTOR + offset && begin == offset / SECTOR && end == begin + Sectors(offset % SECTOR, total)
    ensures ReadsRight(bytes, w, offset, total, ReadEnd(t))
  {}

  lemma ReadFitting(bytes: seq<Byte>, w: Window, offset: nat, total: nat, memory: Memory)
    requires OnDisk(w, bytes) && ReadFits(w.limit, Sectors(offset % SECTOR, total))
    ensures ReadsRight(bytes, w, offset, total, ReadAnswer(bytes, w, offset, total, memory))
  {
    var at, begin, s := w.lba * SECTOR + offset, offset / SECTOR, ReadStart(offset, total);
    assert (w.lba + begin) * SECTOR + offset % SECTOR == at;
    ReadGood(bytes, w, memory, at, total, begin, begin + s.count, s);
    ReadDone(bytes, w, offset, total, at, begin, begin + s.count, ReadLoop(bytes, w, memory, s));
  }

  /** In any other case the byte after the sectors of the first request is whatever its last page held. */
  ghost predicate HasJunk(w: Window, memory: Memory, begin: nat, first: nat, s: Reading) {
    var k := w.limit * SECTOR - first;
    0 <= k < |s.out| && s.out[k] == memory(begin, w.limit * SECTOR)
  }

  lemma FirstJunk(bytes: seq<Byte>, w: Window, memory: Memory, s: Reading)
    requires OnDisk(w, bytes) && ReadsOn(w, s) && s.out == []
    requires s.count == Sectors(s.first, s.room) && !ReadFits(w.limit, s.count)
    ensures HasJunk(w, memory, s.start, s.first, ReadOnce(bytes, w, memory, s)) && w.limit * SECTOR - s.first < s.room
  {
    BufferFits(s.count, w.limit);
    var at, len, size := (w.lba + s.start) * SECTOR, w.limit * SECTOR, BufferBytes(s.count, w.limit);
    assert Loaded(bytes, at, len, s.start, size, memory)[len] == Blank(s.start, size, memory)[len..][0];
  }

  lemma {:induction false} JunkStays(bytes: seq<Byte>, w: Window, memory: Memory, begin: nat, first: nat, s: Reading)
    requires OnDisk(w, bytes) && HasJunk(w, memory, begin, first, s)
    ensures HasJunk(w, memory, begin, first, ReadLoop(bytes, w, memory, s))
    decreases s.count
  {
    if ReadsOn(w, s) { JunkStays(bytes, w, memory, begin, first, ReadOnce(bytes, w, memory, s)); }
  }

  lemma {:induction false} ReadEnds(bytes: seq<Byte>, w: Window, memory: Memory, s: Reading)
    requires OnDisk(w, bytes) && s.first < SECTOR && s.start + s.count <= w.sectors
    ensures ReadEnd(ReadLoop(bytes, w, memory, s)).Ok?
    decreases s.count
  {
    if ReadsOn(w, s) { ReadEnds(bytes, w, memory, ReadOnce(bytes, w, memory, s)); }
  }

  ghost predicate ReadsAll(bytes: seq<Byte>, w: Window, offset: nat, total: nat, memory: Memory)
    requires OnDisk(w, bytes)
  {
    ReadAnswer(bytes, w, offset, total, memory) == Ok(Peek(bytes, w.lba * SECTOR + offset, total))
  }

  /** A read on the device gives exactly the bytes asked for, whatever fresh memory holds, exactly for these limits. */
  lemma ReadExactly(bytes: seq<Byte>, w: Window, offset: nat, total: nat)
    requires OnDisk(w, bytes) && offset / SECTOR + Sectors(offset % SECTOR, total) <= w.sectors
    ensures (forall memory: Memory :: ReadsAll(bytes, w, offset, total, memory)) <==> ReadFits(w.limit, Sectors(offset % SECTOR, total))
  {
    if ReadFits(w.limit, Sectors(offset % SECTOR, total)) {
      forall memory: Memory ensures ReadsAll(bytes, w, offset, total, memory) { ReadFitting(bytes, w, offset, total, memory); }
    } else {
      var memory := WrongMemory(bytes, w, offset, total);
    }
  }

  lemma ReadBad(bytes: seq<Byte>, w: Window, memory: Memory, s: Reading, t: Reading)
    requires OnDisk(w, bytes) && s.out == [] && !s.stopped && s.first < SECTOR && s.start + s.count <= w.sectors
    requires s.count == Sectors(s.first, s.room) && !ReadFits(w.limit, s.count) && t == ReadLoop(bytes, w, memory, s)
    ensures ReadEnd(t) == Ok(t.out) && HasJunk(w, memory, s.start, s.first, t) && w.limit * SECTOR - s.first < s.room
  {
    FirstJunk(bytes, w, memory, s);
    JunkStays(bytes, w, memory, s.start, s.first, ReadOnce(bytes, w, memory, s));
    ReadEnds(bytes, w, memory, s);
  }

  lemma WrongMemory(bytes: seq<Byte>, w: Window, offset: nat, total: nat) returns (memory: Memory)
    requires OnDisk(w, bytes) && offset / SECTOR + Sectors(offset % SECTOR, total) <= w.sectors
    requires !ReadFits(w.limit, Sectors(offset % SECTOR, total))
    ensures !ReadsAll(bytes, w, offset, total, memory)
  {
    var s, right, k := ReadStart(offset, total), Peek(bytes, w.lba * SECTOR + offset, total), w.limit * SECTOR - offset % SECTOR;
    var wrong: Byte := if 0 <= k < |right| && right[k] == 0 then 1 else 0;
    memory := (_, _) => wrong;
    ReadsJunk(bytes, w, memory, s, right);
  }

  lemma ReadsJunk(bytes: seq<Byte>, w: Window, memory: Memory, s: Reading, right: seq<Byte>)
    requires OnDisk(w, bytes) && s.out == [] && !s.stopped && s.first < SECTOR && s.start + s.count <= w.sectors
    requires s.count == Sectors(s.first, s.room) && !ReadFits(w.limit, s.count)
    requires var k := w.limit * SECTOR - s.first; 0 <= k < |right| ==> right[k] != memory(s.start, w.limit * SECTOR)
    ensures ReadEnd(ReadLoop(bytes, w, memory, s)) != Ok(right)
  {
    ReadBad(bytes, w, memory, s, ReadLoop(bytes, w, memory, s));
  }

  // ----- writes

  predicate WriteFits(limit: nat, count: nat) { count <= limit || limit % 16 == 0 || limit == 8 }

  /** Sectors read, patched and written back, or overwritten as a whole: only the patch has changed, as far as it
      lies in the sectors. */
  lemma Merged(disk: seq<Byte>, at: nat, len: nat, buffer: seq<Byte>, first: nat, patch: seq<Byte>, kept: nat)
    requires at + len <= |disk| && len <= |buffer| && first < len && first + |patch| <= |buffer| && kept == Min(|patch|, len - first)
    requires buffer[..len] == disk[at..at + len] || (first == 0 && |patch| >= len)
    ensures Overwrite(disk, at, Overwrite(buffer, first, patch)[..len]) == Overwrite(disk, at + first, patch[..kept])
  {
    var out := Overwrite(buffer, first, patch)[..len];
    var l, r := Overwrite(disk, at, out), Overwrite(disk, at + first, patch[..kept]);
    forall i | 0 <= i < |disk| ensures l[i] == r[i] {
      OverwriteAt(disk, at, out, i);
      OverwriteAt(disk, at + first, patch[..kept], i);
      if at <= i < at + len {
        OverwriteAt(buffer, first, patch, i - at);
        if !(first <= i - at < first + kept) { assert buffer[..len][i - at] == disk[at..at + len][i - at]; }
      }
    }
  }

  /** The disk with the front of the pages written back. */
  lemma MergedOnce(w: Window, s: Writing, n: nat, at: nat, buffer: seq<Byte>, copied: nat)
    requires WritesOn(w, s) && n == WriteSize(w, s) && at == (w.lba + s.start) * SECTOR && |buffer| == BufferBytes(n, n)
    requires n * SECTOR <= |buffer| && copied == Min(|s.rest|, |buffer| - s.first)
    requires buffer[..n * SECTOR] == s.bytes[at..at + n * SECTOR] || (s.first == 0 && |s.rest| >= n * SECTOR)
    ensures var bytes := Overwrite(s.bytes, at, Overwrite(buffer, s.first, s.rest[..copied])[..n * SECTOR]);
            Writing(bytes, s.start + n, 0, s.rest[copied..]) == WriteOnce(w, s)
  {
    var kept := Min(|s.rest|, n * SECTOR - s.first);
    assert kept == Min(copied, n * SECTOR - s.first);
    MergedBytes(s.bytes, at, n * SECTOR, buffer, s.first, s.rest, copied, kept);
    OnceShape(w, s, n, at + s.first, kept, copied);
  }

  lemma MergedBytes(disk: seq<Byte>, at: nat, len: nat, buffer: seq<Byte>, first: nat, data: seq<Byte>, copied: nat, kept: nat)
    requires at + len <= |disk| && len <= |buffer| && first < len && copied <= |data| && first + copied <= |buffer|
    requires kept == Min(copied, len - first) && (buffer[..len] == disk[at..at + len] || (first == 0 && copied >= len))
    ensures Overwrite(disk, at, Overwrite(buffer, first, data[..copied])[..len]) == Patched(disk, at + first, data[..kept])
  {
    Merged(disk, at, len, buffer, first, data[..copied], kept);
    assert data[..copied][..kept] == data[..kept];
  }

  lemma OnceShape(w: Window, s: Writing, n: nat, pos: nat, kept: nat, used: nat)
    requires WritesOn(w, s) && n == WriteSize(w, s) && n * SECTOR >= s.first && kept == Min(|s.rest|, n * SECTOR - s.first)
    requires BufferBytes(n, n) >= s.first && used == Min(|s.rest|, BufferBytes(n, n) - s.first) && pos == (w.lba + s.start) * SECTOR + s.first
    ensures WriteOnce(w, s) == Writing(Patched(s.bytes, pos, s.rest[..kept]), s.start + n, 0, s.rest[used..])
  {}

  /** What a request uses up, and the sectors then needed: as many as are left, if the limit fits. */
  lemma WriteAmount(limit: nat, first: nat, len: nat, n: nat, used: nat)
    requires first < SECTOR && len > 0 && limit > 0 && n == Min(Sectors(first, len), limit)
    requires BufferBytes(n, n) >= first && used == Min(len, BufferBytes(n, n) - first)
    ensures 0 < n && n + Sectors(0, len - used) <= Sectors(first, len)
    ensures WriteFits(limit, Sectors(first, len)) ==>
              && used == Min(len, n * SECTOR - first) && n + Sectors(0, len - used) == Sectors(first, len)
              && WriteFits(limit, Sectors(0, len - used)) && (used < len ==> first + used == n * SECTOR)
    ensures !WriteFits(limit, Sectors(first, len)) ==> n == limit && n * SECTOR - first < used
  {
    BufferFits(n, n);
  }

  /** What a write of the data at `at` has used up is in place, and nothing else has changed. */
  ghost predicate HasWritten(was: seq<Byte>, at: nat, data: seq<Byte>, bytes: seq<Byte>, rest: seq<Byte>) {
    |rest| <= |data| && rest == data[|data| - |rest|..] && bytes == Patched(was, at, data[..|data| - |rest|])
  }

  ghost predicate WritePlace(w: Window, at: nat, total: nat, end: nat, start: nat, first: nat, left: nat) {
    && first < SECTOR && WriteFits(w.limit, Sectors(first, left)) && left <= total
    && (left > 0 ==> (w.lba + start) * SECTOR + first == at + total - left && start + Sectors(first, left) == end)
    && (left < total ==> at + total - left <= (w.lba + w.sectors) * SECTOR)
    && (left == 0 && total > 0 ==> end <= w.sectors)
  }

  ghost predicate WriteInv(was: seq<Byte>, w: Window, at: nat, data: seq<Byte>, end: nat, s: Writing) {
    OnDisk(w, was) && HasWritten(was, at, data, s.bytes, s.rest) && WritePlace(w, at, |data|, end, s.start, s.first, |s.rest|)
  }

  lemma WrittenThen(was: seq<Byte>, at: nat, data: seq<Byte>, bytes: seq<Byte>, rest: seq<Byte>, used: nat, pos: nat)
    requires HasWritten(was, at, data, bytes, rest) && used <= |rest| && pos == at + |data| - |rest| && pos + used <= |was|
    ensures HasWritten(was, at, data, Patched(bytes, pos, rest[..used]), rest[used..])
  {
    var k := |data| - |rest|;
    PatchedThen(was, at, data, k, used);
    assert data[k..][used..] == data[k + used..];
  }

  lemma PlaceThen(w: Window, at: nat, total: nat, end: nat, start: nat, first: nat, left: nat, n: nat, used: nat)
    requires WritePlace(w, at, total, end, start, first, left) && w.limit > 0 && left > 0
    requires n == Min(Sectors(first, left), w.limit) && start + n <= w.sectors
    requires BufferBytes(n, n) >= first && used == Min(left, BufferBytes(n, n) - first)
    ensures used <= left && used == Min(left, n * SECTOR - first) && WritePlace(w, at, total, end, start + n, 0, left - used)
  {
    WriteAmount(w.limit, first, left, n, used);
  }

  lemma OnceWrites(was: seq<Byte>, w: Window, at: nat, data: seq<Byte>, end: nat, s: Writing, t: Writing)
    requires WritesOn(w, s) && WriteInv(was, w, at, data, end, s) && t == WriteOnce(w, s)
    ensures WriteInv(was, w, at, data, end, t)
  {
    var n, pos := WriteSize(w, s), at + |data| - |s.rest|;
    BufferFits(n, n);
    var used := Min(|s.rest|, BufferBytes(n, n) - s.first);
    PlaceThen(w, at, |data|, end, s.start, s.first, |s.rest|, n, used);
    OnceShape(w, s, n, pos, used, used);
    WrittenThen(was, at, data, s.bytes, s.rest, used, pos);
  }

  lemma {:induction false} WriteGood(was: seq<Byte>, w: Window, at: nat, data: seq<Byte>, end: nat, s: Writing)
    requires WriteInv(was, w, at, data, end, s)
    ensures WriteInv(was, w, at, data, end, WriteLoop(w, s)) && !WritesOn(w, WriteLoop(w, s))
    decreases |s.rest|
  {
    if WritesOn(w, s) {
      OnceWrites(was, w, at, data, end, s, WriteOnce(w, s));
      WriteGood(was, w, at, data, end, WriteOnce(w, s));
    }
  }

  /** All data in place and nothing else changed, or an error exactly when it needs a sector past the end, with a
      prefix of it in place. */
  ghost predicate WritesRight(was: seq<Byte>, w: Window, offset: nat, data: seq<Byte>, s: Writing) {
    && |s.rest| <= |data| && s.bytes == Patched(was, w.lba * SECTOR + offset, data[..|data| - |s.rest|])
    && (s.rest != [] <==> data != [] && offset / SECTOR + Sectors(offset % SECTOR, |data|) > w.sectors)
    && (|s.rest| < |data| ==> offset + |data| - |s.rest| <= w.sectors * SECTOR)
  }

  lemma WroteRight(bytes: seq<Byte>, w: Window, offset: nat, data: seq<Byte>, at: nat, end: nat, t: Writing)
    requires WriteInv(bytes, w, at, data, end, t) && !WritesOn(w, t)
    requires at == w.lba * SECTOR + offset && end == offset / SECTOR + Sectors(offset % SECTOR, |data|)
    ensures WritesRight(bytes, w, offset, data, t)
  {}

  lemma WriteFitting(bytes: seq<Byte>, w: Window, offset: nat, data: seq<Byte>)
    requires OnDisk(w, bytes) && WriteFits(w.limit, Sectors(offset % SECTOR, |data|))
    ensures WritesRight(bytes, w, offset, data, WriteAnswer(bytes, w, offset, data))
  {
    var at, begin, first := w.lba * SECTOR + offset, offset / SECTOR, offset % SECTOR;
    assert (w.lba + begin) * SECTOR + first == at && data[0..] == data;
    var end, s := begin + Sectors(first, |data|), Writing(bytes, begin, first, data);
    WriteGood(bytes, w, at, data, end, s);
    WroteRight(bytes, w, offset, data, at, end, WriteLoop(w, s));
  }

  /** A byte below the sectors still to be written keeps its value, and on the device all data is used up. */
  lemma {:induction false} WriteAbove(w: Window, s: Writing, i: nat)
    requires i < |s.bytes| && i < (w.lba + s.start) * SECTOR
    ensures |WriteLoop(w, s).bytes| == |s.bytes| && WriteLoop(w, s).bytes[i] == s.bytes[i]
    decreases |s.rest|
  {
    if WritesOn(w, s) { WriteAbove(w, WriteOnce(w, s), i); }
  }

  lemma WriteHead(w: Window, s: Writing, r: Writing)
    requires WritesOn(w, s) && s.first == 0 && r == WriteLoop(w, s)
    ensures |r.bytes| == |s.bytes| && (w.lba + s.start) * SECTOR < |s.bytes| && r.bytes[(w.lba + s.start) * SECTOR] == s.rest[0]
  {
    WriteAbove(w, WriteOnce(w, s), (w.lba + s.start) * SECTOR);
  }

  /** A request whose pages hold more than its sectors uses up data it does not write. */
  lemma OnceLoses(w: Window, s: Writing, k: nat, i: nat, next: Writing)
    requires WritesOn(w, s) && s.start + Sectors(s.first, |s.rest|) <= w.sectors && next == WriteOnce(w, s)
    requires !WriteFits(w.limit, Sectors(s.first, |s.rest|)) && s.first + k == w.limit * SECTOR && i == (w.lba + s.start + w.limit) * SECTOR
    ensures k < |s.rest| && i < |s.bytes| && next.bytes[i] == s.bytes[i]
    ensures next.start == s.start + w.limit && next.first == 0 && |s.rest| - |next.rest| > k && next.rest == s.rest[|s.rest| - |next.rest|..]
    ensures next.start + Sectors(0, |next.rest|) <= w.sectors
  {
    var n := w.limit;
    BufferFits(n, n);
    WriteAmount(w.limit, s.first, |s.rest|, n, Min(|s.rest|, BufferBytes(n, n) - s.first));
  }

  /** So the first byte after those sectors ends up as it was, or as a later byte of the data. */
  lemma WriteBad(w: Window, s: Writing, k: nat, i: nat, r: Writing)
    requires OnDisk(w, s.bytes) && s.first < SECTOR && s.start + Sectors(s.first, |s.rest|) <= w.sectors && r == WriteLoop(w, s)
    requires !WriteFits(w.limit, Sectors(s.first, |s.rest|)) && s.first + k == w.limit * SECTOR && i == (w.lba + s.start + w.limit) * SECTOR
    ensures k < |s.rest| && |r.bytes| == |s.bytes| && i < |s.bytes|
    ensures r.bytes[i] == s.bytes[i] || exists j :: k < j < |s.rest| && r.bytes[i] == s.rest[j]
  {
    var next := WriteOnce(w, s);
    OnceLoses(w, s, k, i, next);
    LostByte(w, s, k, i, next, r);
  }

  lemma LostByte(w: Window, s: Writing, k: nat, i: nat, next: Writing, r: Writing)
    requires OnDisk(w, next.bytes) && |next.bytes| == |s.bytes| && r == WriteLoop(w, next)
    requires k < |s.rest| - |next.rest| && next.rest == s.rest[|s.rest| - |next.rest|..] && i < |s.bytes| && next.bytes[i] == s.bytes[i]
    requires next.first == 0 && next.start + Sectors(0, |next.rest|) <= w.sectors && i == (w.lba + next.start) * SECTOR
    ensures |r.bytes| == |s.bytes| && (r.bytes[i] == s.bytes[i] || exists j :: k < j < |s.rest| && r.bytes[i] == s.rest[j])
  {
    if next.rest != [] {
      WriteHead(w, next, r);
      var j := |s.rest| - |next.rest|;
      assert r.bytes[i] == next.rest[0] == s.rest[j];
    }
  }

  ghost predicate WritesAll(bytes: seq<Byte>, w: Window, offset: nat, data: seq<Byte>) {
    WriteAnswer(bytes, w, offset, data).bytes == Patched(bytes, w.lba * SECTOR + offset, data)
  }

  /** A write on the device changes exactly its bytes, whatever they are, exactly for these limits. */
  lemma WriteExactly(bytes: seq<Byte>, w: Window, offset: nat, len: nat)
    requires OnDisk(w, bytes) && offset / SECTOR + Sectors(offset % SECTOR, len) <= w.sectors && len > 0
    ensures (forall data: seq<Byte> | |data| == len :: WritesAll(bytes, w, offset, data)) <==> WriteFits(w.limit, Sectors(offset % SECTOR, len))
  {
    if WriteFits(w.limit, Sectors(offset % SECTOR, len)) {
      forall data: seq<Byte> | |data| == len ensures WritesAll(bytes, w, offset, data) {
        WriteFitting(bytes, w, offset, data);
        assert data[..|data| - 0] == data;
      }
    } else {
      var data := WrongData(bytes, w, offset, len);
    }
  }

  /** Data of one value but for one byte tells whether that byte arrived. */
  lemma Misses(bytes: seq<Byte>, pos: nat, data: seq<Byte>, k: nat, i: nat, r: seq<Byte>)
    requires |r| == |bytes| && i == pos + k < |bytes| && k < |data| && pos + |data| <= |bytes|
    requires data[k] != bytes[i] && forall j | k < j < |data| :: data[j] == bytes[i]
    requires r[i] == bytes[i] || exists j :: k < j < |data| && r[i] == data[j]
    ensures r != Patched(bytes, pos, data)
  {
    assert Patched(bytes, pos, data)[i] == data[k];
  }

  lemma WrongData(bytes: seq<Byte>, w: Window, offset: nat, len: nat) returns (data: seq<Byte>)
    requires OnDisk(w, bytes) && offset / SECTOR + Sectors(offset % SECTOR, len) <= w.sectors
    requires !WriteFits(w.limit, Sectors(offset % SECTOR, len))
    ensures |data| == len && !WritesAll(bytes, w, offset, data)
  {
    var start, first, pos := offset / SECTOR, offset % SECTOR, w.lba * SECTOR + offset;
    var k, i := w.limit * SECTOR - first, (w.lba + start + w.limit) * SECTOR;
    assert i == pos + k && k < len && i < |bytes| && pos + len <= |bytes|;
    var was := bytes[i];
    var other: Byte := if was == 0 then 1 else 0;
    data := seq(len, j => if j == k then other else was);
    var s := Writing(bytes, start, first, data);
    WriteBad(w, s, k, i, WriteLoop(w, s));
    Misses(bytes, pos, data, k, i, WriteLoop(w, s).bytes);
  }

  /** A queue of 20 sectors: reading 40 can return fresh memory, and writing 40 can lose data. */
  lemma LimitTwenty(bytes: seq<Byte>)
    requires |bytes| == 40 * SECTOR
    ensures exists memory: Memory :: !ReadsAll(bytes, Window(0, 40, 20), 0, 40 * SECTOR, memory)
    ensures exists data: seq<Byte> :: |data| == 40 * SECTOR && !WritesAll(bytes, Window(0, 40, 20), 0, data)
  {
    var w := Window(0, 40, 20);
    assert Sectors(0, 40 * SECTOR) == 40;
    ReadExactly(bytes, w, 0, 40 * SECTOR);
    WriteExactly(bytes, w, 0, 40 * SECTOR);
  }

  // ----- devices

  /** A disk, as the request queue behind it sees it. */
  class Disk {
    var bytes: seq<Byte>

    method SubmitRead(sector: nat, count: nat, buffer: seq<Byte>) returns (r: seq<Byte>)
      requires (sector + count) * SECTOR <= |bytes| && count * SECTOR <= |buffer|
      ensures r == bytes[sector * SECTOR..(sector + count) * SECTOR] + buffer[count * SECTOR..]
    {
      r := bytes[sector * SECTOR..(sector + count) * SECTOR] + buffer[count * SECTOR..];
    }

    method SubmitWrite(sector: nat, count: nat, buffer: seq<Byte>)
      requires (sector + count) * SECTOR <= |bytes| && count * SECTOR <= |buffer|
      modifies this
      ensures bytes == Overwrite(old(bytes), sector * SECTOR, buffer[..count * SECTOR])
    {
      bytes := Overwrite(bytes, sector * SECTOR, buffer[..count * SECTOR]);
    }
  }

  class BlockDevice {
    const disk: Disk
    const window: Window

    constructor (disk: Disk, window: Window)
      ensures this.disk == disk && this.window == window
    {
      this.disk, this.window := disk, window;
    }

    /** The window lies on the disk, and the queue takes at least one sector. */
    ghost predicate Valid()
      reads disk
    {
      OnDisk(window, disk.bytes)
    }

    method CommitRead(sector: nat, count: nat, buffer: seq<Byte>) returns (r: Result<seq<Byte>>)
      requires Valid() && count * SECTOR <= |buffer|
      ensures r == EINVAL <==> sector + count > window.sectors
      ensures r.Ok? ==> |r.value| == |buffer| && r.value[count * SECTOR..] == buffer[count * SECTOR..]
      ensures r.Ok? ==> r.value[..count * SECTOR] == disk.bytes[(window.lba + sector) * SECTOR..(window.lba + sector + count) * SECTOR]
    {
      if sector + count > window.sectors { return EINVAL; }
      var b := disk.SubmitRead(sector + window.lba, count, buffer);
      return Ok(b);
    }

    method CommitWrite(sector: nat, count: nat, buffer: seq<Byte>) returns (r: Result<()>)
      requires Valid() && count * SECTOR <= |buffer|
      modifies disk
      ensures Valid() && |disk.bytes| == |old(disk.bytes)|
      ensures r == EINVAL <==> sector + count > window.sectors
      ensures r == EINVAL ==> disk.bytes == old(disk.bytes)
      ensures r.Ok? ==> disk.bytes == Overwrite(old(disk.bytes), (window.lba + sector) * SECTOR, buffer[..count * SECTOR])
    {
      if sector + count > window.sectors { return EINVAL; }
      disk.SubmitWrite(sector + window.lba, count, buffer);
      return Ok(());
    }

    /** Pages with the sectors of one request read into them. */
    method Load(sector: nat, wanted: nat, n: nat, memory: Memory) returns (r: Result<seq<Byte>>)
      requires Valid() && n <= wanted && (wanted <= 16 ==> n == wanted)
      ensures r == EINVAL <==> sector + n > window.sectors
      ensures n * SECTOR <= BufferBytes(wanted, n)
      ensures r.Ok? ==> r.value == Loaded(disk.bytes, (window.lba + sector) * SECTOR, n * SECTOR, sector, BufferBytes(wanted, n), memory)
    {
      BufferFits(wanted, n);
      r := CommitRead(sector, n, Blank(sector, BufferBytes(wanted, n), memory));
      if r.Ok? { assert r.value == r.value[..n * SECTOR] + r.value[n * SECTOR..]; }
    }

    /** One request of ReadSome. */
    method ReadNext(s: Reading, memory: Memory) returns (r: Result<Reading>)
      requires Valid() && s.first < SECTOR && s.count > 0 && !s.stopped
      ensures r.Ok? <==> ReadsOn(window, s)
      ensures r.Ok? ==> r.value == ReadOnce(disk.bytes, window, memory, s)
    {
      var n := ReadSize(s.count, window.limit);
      var got := Load(s.start, s.count, n, memory);
      if got == EINVAL { return EINVAL; }
      BufferFits(s.count, n);
      var taken, stop := FillFrom(got.value, PageBytes(s.count), PageCount(s.count, n), s.first, s.room);
      return Ok(Reading(s.start + n, 0, s.count - n, s.room - |taken|, s.out + taken, stop));
    }

    method ReadSome(offset: nat, total: nat, memory: Memory) returns (r: Result<seq<Byte>>)
      requires Valid()
      ensures r == ReadAnswer(disk.bytes, window, offset, total, memory)
      ensures ReadFits(window.limit, Sectors(offset % SECTOR, total)) ==> ReadsRight(disk.bytes, window, offset, total, r)
    {
      if ReadFits(window.limit, Sectors(offset % SECTOR, total)) { ReadFitting(disk.bytes, window, offset, total, memory); }
      var s := ReadStart(offset, total);
      while s.count != 0 && !s.stopped
        invariant s.first < SECTOR
        invariant ReadLoop(disk.bytes, window, memory, ReadStart(offset, total)) == ReadLoop(disk.bytes, window, memory, s)
        decreases s.count
      {
        var got := ReadNext(s, memory);
        if got == EINVAL { return EINVAL; }
        s := got.value;
      }
      return Ok(s.out);
    }

    /** One request of WriteSome: reads the sectors first unless all of them are overwritten. */
    method WriteNext(start: nat, first: nat, rest: seq<Byte>, n: nat, memory: Memory) returns (r: Result<nat>)
      requires Valid() && first < SECTOR && rest != [] && n == Min(Sectors(first, |rest|), window.limit)
      modifies disk
      ensures Valid() && (r.Ok? <==> WritesOn(window, Writing(old(disk.bytes), start, first, rest)))
      ensures r == EINVAL ==> disk.bytes == old(disk.bytes)
      ensures r.Ok? ==> 0 < r.value <= |rest|
      ensures r.Ok? ==> Writing(disk.bytes, start + n, 0, rest[r.value..]) == WriteOnce(window, Writing(old(disk.bytes), start, first, rest))
    {
      ghost var s := Writing(disk.bytes, start, first, rest);
      BufferFits(n, n);
      var buffer := Blank(start, BufferBytes(n, n), memory);
      if first != 0 || |rest| < n * SECTOR {
        var got := Load(start, n, n, memory);
        if got == EINVAL { return EINVAL; }
        buffer := got.value;
      }
      var out, copied := CopyInto(buffer, PageBytes(n), PageCount(n, n), first, rest);
      var done := CommitWrite(start, n, out);
      if done == EINVAL { return EINVAL; }
      MergedOnce(window, s, n, (window.lba + start) * SECTOR, buffer, copied);
      return Ok(copied);
    }

    method WriteSome(offset: nat, data: seq<Byte>, memory: Memory) returns (r: Result<nat>, ghost left: seq<Byte>)
      requires Valid()
      modifies disk
      ensures var s := WriteAnswer(old(disk.bytes), window, offset, data);
              Valid() && disk.bytes == s.bytes && left == s.rest && r == if s.rest == [] then Ok(|data|) else EINVAL
      ensures WriteFits(window.limit, Sectors(offset % SECTOR, |data|)) ==>
                WritesRight(old(disk.bytes), window, offset, data, WriteAnswer(old(disk.bytes), window, offset, data))
    {
      if WriteFits(window.limit, Sectors(offset % SECTOR, |data|)) { WriteFitting(disk.bytes, window, offset, data); }
      var start: nat, first: nat, rest, written := offset / SECTOR, offset % SECTOR, data, 0;
      ghost var s := Writing(disk.bytes, start, first, rest);
      while rest != []
        invariant Valid() && first < SECTOR && written + |rest| == |data| && s == Writing(disk.bytes, start, first, rest)
        invariant WriteAnswer(old(disk.bytes), window, offset, data) == WriteLoop(window, s)
        decreases |rest|
      {
        var n := Min(Sectors(first, |rest|), window.limit);
        var got := WriteNext(start, first, rest, n, memory);
        if got == EINVAL { return EINVAL, rest; }
        s := WriteOnce(window, s);
        rest, written, start, first := rest[got.value..], written + got.value, start + n, 0;
      }
      return Ok(written), rest;
    }
  }
}
