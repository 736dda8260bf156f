/** The page cache of a tmpfs file, against a flat sequence of bytes.

    The backend stores nothing: a page that is not cached reads as zeros, and the size is kept beside
    the cache.  Each cached page also records how many of its bytes are valid, and a read stops
    where a page runs out of valid bytes. */
module PageCache {
  import opened Wrappers
  import opened AddrRange

  datatype CachePage = CachePage(bytes: seq<Byte>, valid: nat, dirty: bool)

  type Pages = map<nat, CachePage>

  // ----- the flat file

  function FileByte(file: seq<Byte>, o: nat): Byte { if o < |file| then file[o] else 0 }

  function Zeros(n: nat): seq<Byte> { seq(n, _ => 0) }

  /** An empty write changes nothing; one past the end fills the gap with zeros. */
  function FlatWrite(file: seq<Byte>, offset: nat, data: seq<Byte>): seq<Byte> {
    if data == [] then file
    else
      var padded := if |file| < offset then file + Zeros(offset - |file|) else file;
      padded[..offset] + data + (if offset + |data| < |padded| then padded[offset + |data|..] else [])
  }

  function FlatTruncate(file: seq<Byte>, size: nat): seq<Byte> {
    if size <= |file| then file[..size] else file + Zeros(size - |file|)
  }

  function FlatRead(file: seq<Byte>, offset: nat, len: nat): seq<Byte> {
    if offset >= |file| then [] else if offset + len <= |file| then file[offset..offset + len] else file[offset..]
  }

  lemma FlatWriteIs(file: seq<Byte>, offset: nat, data: seq<Byte>)
    ensures |FlatWrite(file, offset, data)| == if data == [] then |file| else Max(|file|, offset + |data|)
    ensures forall o: nat :: FileByte(FlatWrite(file, offset, data), o) ==
                        if offset <= o < offset + |data| then data[o - offset] else FileByte(file, o)
  {}

  /** What was written is read back. */
  lemma ReadBack(file: seq<Byte>, offset: nat, data: seq<Byte>)
    ensures FlatRead(FlatWrite(file, offset, data), offset, |data|) == data
  {
    FlatWriteIs(file, offset, data);
    var next := FlatWrite(file, offset, data);
    if data != [] {
      forall i | 0 <= i < |data| ensures next[offset + i] == data[i] { assert FileByte(next, offset + i) == data[i]; }
    }
  }

  // ----- agreement

  function ByteAt(pages: Pages, o: nat): Byte {
    if o / PAGE_SIZE in pages && o % PAGE_SIZE < |pages[o / PAGE_SIZE].bytes| then pages[o / PAGE_SIZE].bytes[o % PAGE_SIZE] else 0
  }

  /** The part of a page that lies below a size. */
  function Clamp(size: nat, id: nat): nat {
    if size <= id * PAGE_SIZE then 0 else Min(size - id * PAGE_SIZE, PAGE_SIZE)
  }

  ghost predicate WholeAt(pages: Pages, id: nat) { id in pages ==> |pages[id].bytes| == PAGE_SIZE && pages[id].valid <= PAGE_SIZE }

  ghost predicate Whole(pages: Pages) { forall id: nat {:trigger WholeAt(pages, id)} :: WholeAt(pages, id) }

  ghost predicate ValidAt(pages: Pages, size: nat, id: nat) { id in pages ==> pages[id].valid == Clamp(size, id) }

  ghost predicate SameAt(pages: Pages, file: seq<Byte>, o: nat) { ByteAt(pages, o) == FileByte(file, o) }

  /** The cache holds this file. */
  ghost predicate Agree(pages: Pages, size: nat, file: seq<Byte>) {
    && |file| == size
    && (forall id: nat {:trigger ValidAt(pages, size, id)} :: ValidAt(pages, size, id))
    && (forall o: nat {:trigger SameAt(pages, file, o)} :: SameAt(pages, file, o))
  }

  ghost predicate Cached(pages: Pages, size: nat, file: seq<Byte>) { Whole(pages) && Agree(pages, size, file) }

  // ----- what reads answer

  /** The bytes a read delivers; slicing a page beyond its valid bytes panics. */
  datatype Answer = Bytes(bytes: seq<Byte>) | Panic

  datatype Progress = Going | Stopped | Panicked

  /** Where a read has got to: the position, the room left in the buffer, and what is in it. */
  datatype Fetch = Fetch(cur: nat, room: nat, out: seq<Byte>, progress: Progress)

  /** The page a read finds: a missing one is put in with the valid size its place in the file calls for. */
  function PageFor(pages: Pages, size: nat, id: nat): CachePage {
    if id in pages then pages[id] else CachePage(Zeros(PAGE_SIZE), Clamp(size, id), false)
  }

  /** One page of a read, of any cache, whether or not it holds the file it should. */
  function FetchOnce(page: CachePage, size: nat, s: Fetch): Fetch
    requires s.cur < size && page.valid <= |page.bytes|
  {
    var inner := s.cur % PAGE_SIZE;
    if inner > page.valid then s.(progress := Panicked)
    else
      var n := Min(page.valid - inner, size - s.cur);
      var k := Min(n, s.room);
      Fetch(s.cur + n, s.room - k, s.out + page.bytes[inner..inner + k], if n == 0 || n >= s.room then Stopped else Going)
  }

  ghost function FetchNext(pages: Pages, size: nat, s: Fetch): Fetch
    requires Whole(pages) && s.cur < size
  {
    assert WholeAt(pages, s.cur / PAGE_SIZE);
    FetchOnce(PageFor(pages, size, s.cur / PAGE_SIZE), size, s)
  }

  ghost function FetchAll(pages: Pages, size: nat, s: Fetch): Fetch
    requires Whole(pages)
    decreases size - s.cur, if s.progress == Going then 1 else 0
  {
    if s.progress == Going && s.cur < size then FetchAll(pages, size, FetchNext(pages, size, s)) else s
  }

  function Begin(offset: nat, len: nat): Fetch { Fetch(offset, len, [], Going) }

  function AnswerOf(s: Fetch): Answer { if s.progress == Panicked then Panic else Bytes(s.out) }

  ghost function ReadFrom(pages: Pages, size: nat, offset: nat, len: nat): Answer
    requires Whole(pages)
  {
    AnswerOf(FetchAll(pages, size, Begin(offset, len)))
  }

  /** The position is not past the valid bytes of its page. */
  ghost predicate Sliceable(pages: Pages, size: nat, s: Fetch) {
    s.progress != Panicked && (s.progress == Going && s.cur < size ==> s.cur % PAGE_SIZE <= PageFor(pages, size, s.cur / PAGE_SIZE).valid)
  }

  lemma {:induction false} StaysSliceable(pages: Pages, size: nat, s: Fetch)
    requires Whole(pages) && Sliceable(pages, size, s)
    ensures Sliceable(pages, size, FetchAll(pages, size, s))
    decreases size - s.cur, if s.progress == Going then 1 else 0
  {
    if s.progress == Going && s.cur < size {
      var page := PageFor(pages, size, s.cur / PAGE_SIZE);
      assert WholeAt(pages, s.cur / PAGE_SIZE);
      NextPlace(s.cur, Min(page.valid - s.cur % PAGE_SIZE, size - s.cur), page.valid);
      StaysSliceable(pages, size, FetchNext(pages, size, s));
    }
  }

  /** Where a read goes on: at the end of the valid bytes, or at the start of the next page. */
  lemma NextPlace(cur: nat, n: nat, valid: nat)
    requires cur % PAGE_SIZE + n <= valid <= PAGE_SIZE
    ensures (cur + n) % PAGE_SIZE <= valid && ((cur + n) / PAGE_SIZE == cur / PAGE_SIZE || (cur + n) % PAGE_SIZE == 0)
  {}

  /** A read panics exactly if its first page is cached with fewer valid bytes than the offset into it. */
  lemma PanicsExactly(pages: Pages, size: nat, offset: nat, len: nat)
    requires Whole(pages)
    ensures ReadFrom(pages, size, offset, len) == Panic <==>
            offset < size && offset / PAGE_SIZE in pages && offset % PAGE_SIZE > pages[offset / PAGE_SIZE].valid
  {
    var s := Begin(offset, len);
    if Sliceable(pages, size, s) {
      StaysSliceable(pages, size, s);
    } else {
      assert FetchAll(pages, size, s) == FetchNext(pages, size, s);
    }
  }

  /** A byte below the end that a read can reach and gets right. */
  ghost predicate SeenAt(pages: Pages, size: nat, file: seq<Byte>, o: nat) {
    o < size ==> (o / PAGE_SIZE in pages ==> o % PAGE_SIZE < pages[o / PAGE_SIZE].valid) && ByteAt(pages, o) == FileByte(file, o)
  }

  ghost predicate Seen(pages: Pages, size: nat, file: seq<Byte>) {
    |file| == size && forall o: nat {:trigger SeenAt(pages, size, file, o)} :: SeenAt(pages, size, file, o)
  }

  ghost predicate RightAt(pages: Pages, size: nat, file: seq<Byte>, offset: nat, len: nat)
    requires Whole(pages)
  {
    ReadFrom(pages, size, offset, len) == Bytes(FlatRead(file, offset, len))
  }

  /** All a caller can see, the size and the answer to every read, is as in the flat file. */
  ghost predicate Faithful(pages: Pages, size: nat, file: seq<Byte>)
    requires Whole(pages)
  {
    |file| == size && forall offset: nat, len: nat {:trigger RightAt(pages, size, file, offset, len)} :: RightAt(pages, size, file, offset, len)
  }

  lemma SeenChunk(pages: Pages, size: nat, file: seq<Byte>, cur: nat, k: nat)
    requires Whole(pages) && Seen(pages, size, file) && cur + k <= size && cur % PAGE_SIZE + k <= PAGE_SIZE
    ensures var page := PageFor(pages, size, cur / PAGE_SIZE);
            |page.bytes| == PAGE_SIZE && page.bytes[cur % PAGE_SIZE..cur % PAGE_SIZE + k] == file[cur..cur + k]
  {
    var page := PageFor(pages, size, cur / PAGE_SIZE);
    assert WholeAt(pages, cur / PAGE_SIZE);
    var got := page.bytes[cur % PAGE_SIZE..cur % PAGE_SIZE + k];
    forall i | 0 <= i < k ensures got[i] == file[cur..cur + k][i] {
      assert SeenAt(pages, size, file, cur + i);
      SamePage(cur, i);
    }
  }

  lemma SamePage(cur: nat, i: nat)
    requires cur % PAGE_SIZE + i < PAGE_SIZE
    ensures (cur + i) / PAGE_SIZE == cur / PAGE_SIZE && (cur + i) % PAGE_SIZE == cur % PAGE_SIZE + i
  {}

  /** The buffer holds the stretch of the file from the offset on. */
  ghost predicate Fetched(file: seq<Byte>, offset: nat, len: nat, s: Fetch) {
    && s.progress != Panicked && |s.out| + s.room == len
    && (if offset < |file| then offset + |s.out| <= |file| && s.out == file[offset..offset + |s.out|] else s.out == [])
    && (s.progress == Going ==> s.cur == offset + |s.out|) && (s.progress == Stopped ==> s.room == 0)
  }

  lemma FetchedThen(pages: Pages, size: nat, file: seq<Byte>, offset: nat, len: nat, s: Fetch, t: Fetch)
    requires Whole(pages) && Seen(pages, size, file) && Fetched(file, offset, len, s) && s.progress == Going && s.cur < size
    requires t == FetchNext(pages, size, s)
    ensures Fetched(file, offset, len, t)
  {
    var page, inner := PageFor(pages, size, s.cur / PAGE_SIZE), s.cur % PAGE_SIZE;
    assert WholeAt(pages, s.cur / PAGE_SIZE) && SeenAt(pages, size, file, s.cur);
    var n := Min(page.valid - inner, size - s.cur);
    var k := Min(n, s.room);
    SeenChunk(pages, size, file, s.cur, k);
    NextIs(page, size, s, n, k);
    FetchedMore(file, offset, len, s, n, k, t);
  }

  lemma NextIs(page: CachePage, size: nat, s: Fetch, n: nat, k: nat)
    requires s.cur < size && s.cur % PAGE_SIZE < page.valid <= |page.bytes|
    requires n == Min(page.valid - s.cur % PAGE_SIZE, size - s.cur) && k == Min(n, s.room)
    ensures FetchOnce(page, size, s) ==
            Fetch(s.cur + n, s.room - k, s.out + page.bytes[s.cur % PAGE_SIZE..s.cur % PAGE_SIZE + k], if n >= s.room then Stopped else Going)
  {}

  lemma FetchedMore(file: seq<Byte>, offset: nat, len: nat, s: Fetch, n: nat, k: nat, t: Fetch)
    requires Fetched(file, offset, len, s) && s.progress == Going && 0 < n && s.cur + n <= |file| && k == Min(n, s.room)
    requires t == Fetch(s.cur + n, s.room - k, s.out + file[s.cur..s.cur + k], if n >= s.room then Stopped else Going)
    ensures Fetched(file, offset, len, t)
  {
    Joined(file, offset, s.cur, k);
  }

  lemma {:induction false} SeenIsRight(pages: Pages, size: nat, file: seq<Byte>, offset: nat, len: nat, s: Fetch)
    requires Whole(pages) && Seen(pages, size, file) && Fetched(file, offset, len, s)
    ensures AnswerOf(FetchAll(pages, size, s)) == Bytes(FlatRead(file, offset, len))
    decreases size - s.cur, if s.progress == Going then 1 else 0
  {
    if s.progress == Going && s.cur < size {
      FetchedThen(pages, size, file, offset, len, s, FetchNext(pages, size, s));
      SeenIsRight(pages, size, file, offset, len, FetchNext(pages, size, s));
    }
  }

  /** A byte not seen is a wrong answer to a read of that byte alone. */
  lemma UnseenIsWrong(pages: Pages, size: nat, file: seq<Byte>, o: nat)
    requires Whole(pages) && |file| == size && !SeenAt(pages, size, file, o)
    ensures !RightAt(pages, size, file, o, 1)
  {
    var s := Begin(o, 1);
    var next := FetchNext(pages, size, s);
    assert WholeAt(pages, o / PAGE_SIZE);
    assert next.progress != Going && FetchAll(pages, size, s) == next;
    assert FlatRead(file, o, 1) == [file[o]];
    assert next.out == [] || next.out[0] == ByteAt(pages, o);
  }

  /** Every answer is right exactly when every byte below the end is seen. */
  lemma AnswersExactly(pages: Pages, size: nat, file: seq<Byte>)
    requires Whole(pages)
    ensures Faithful(pages, size, file) <==> Seen(pages, size, file)
  {
    if Seen(pages, size, file) {
      forall offset: nat, len: nat ensures RightAt(pages, size, file, offset, len) {
        SeenIsRight(pages, size, file, offset, len, Begin(offset, len));
      }
    } else if |file| == size {
      var o: nat :| !SeenAt(pages, size, file, o);
      UnseenIsWrong(pages, size, file, o);
    }
  }

  lemma CachedIsSeen(pages: Pages, size: nat, file: seq<Byte>)
    requires Cached(pages, size, file)
    ensures Seen(pages, size, file)
  {
    forall o: nat ensures SeenAt(pages, size, file, o) { assert ValidAt(pages, size, o / PAGE_SIZE) && SameAt(pages, file, o); }
  }

  /** Pages put in by a read change no answer. */
  ghost predicate SamePagesAt(p: Pages, q: Pages, size: nat, id: nat) { PageFor(p, size, id) == PageFor(q, size, id) }

  ghost predicate SamePages(p: Pages, q: Pages, size: nat) { forall id: nat {:trigger SamePagesAt(p, q, size, id)} :: SamePagesAt(p, q, size, id) }

  lemma {:induction false} SameAnswers(p: Pages, q: Pages, size: nat, s: Fetch)
    requires Whole(p) && Whole(q) && SamePages(p, q, size)
    ensures FetchAll(p, size, s) == FetchAll(q, size, s)
    decreases size - s.cur, if s.progress == Going then 1 else 0
  {
    if s.progress == Going && s.cur < size {
      assert SamePagesAt(p, q, size, s.cur / PAGE_SIZE);
      SameAnswers(p, q, size, FetchNext(p, size, s));
    }
  }

  // ----- a write in progress: k bytes of the data are in

  function WByte(file: seq<Byte>, offset: nat, data: seq<Byte>, k: nat, o: nat): Byte
    requires k <= |data|
  {
    if offset <= o < offset + k then data[o - offset] else FileByte(file, o)
  }

  ghost predicate WSameAt(pages: Pages, file: seq<Byte>, offset: nat, data: seq<Byte>, k: nat, o: nat) {
    k <= |data| && ByteAt(pages, o) == WByte(file, offset, data, k, o)
  }

  /** How far the write has reached into a page. */
  function Reach(offset: nat, k: nat, id: nat): nat {
    if k > 0 && offset / PAGE_SIZE <= id then Clamp(offset + k, id) else 0
  }

  /** A page put in for a write at or past the end starts with no valid bytes. */
  ghost predicate WValidAt(pages: Pages, size: nat, offset: nat, k: nat, blank: bool, id: nat) {
    id in pages ==>
      pages[id].valid == if blank && id == offset / PAGE_SIZE then 0 else Max(Clamp(size, id), Reach(offset, k, id))
  }

  ghost predicate Writing(pages: Pages, size: nat, file: seq<Byte>, offset: nat, data: seq<Byte>, k: nat, blank: bool) {
    && k <= |data| && (blank ==> k == 0 && offset >= size)
    && (k > 0 ==> (offset + k - 1) / PAGE_SIZE in pages)
    && Whole(pages)
    && (forall id: nat {:trigger WValidAt(pages, size, offset, k, blank, id)} :: WValidAt(pages, size, offset, k, blank, id))
    && (forall o: nat {:trigger WSameAt(pages, file, offset, data, k, o)} :: WSameAt(pages, file, offset, data, k, o))
  }

  /** A page not cached yet: zeros, with the valid size its place in the file calls for. */
  function NewPage(size: nat, at: nat): CachePage {
    CachePage(Zeros(PAGE_SIZE), if at >= size then 0 else Clamp(size, at / PAGE_SIZE), false)
  }

  lemma InsertStep(pages: Pages, size: nat, file: seq<Byte>, offset: nat, data: seq<Byte>, k: nat, blank: bool)
    requires Writing(pages, size, file, offset, data, k, blank) && (offset + k) / PAGE_SIZE !in pages
    ensures Writing(pages[(offset + k) / PAGE_SIZE := NewPage(size, offset + k)], size, file, offset, data, k, k == 0 && offset >= size)
  {
    var id, empty := (offset + k) / PAGE_SIZE, k == 0 && offset >= size;
    var next := pages[id := NewPage(size, offset + k)];
    forall i: nat ensures WholeAt(next, i) { assert WholeAt(pages, i); }
    forall i: nat ensures WValidAt(next, size, offset, k, empty, i) { assert WValidAt(pages, size, offset, k, blank, i); }
    forall o: nat ensures WSameAt(next, file, offset, data, k, o) { assert WSameAt(pages, file, offset, data, k, o); }
  }

  function Stored(page: CachePage, inner: nat, chunk: seq<Byte>): CachePage
    requires inner + |chunk| <= |page.bytes|
  {
    CachePage(Overwrite(page.bytes, inner, chunk), Max(page.valid, inner + |chunk|), true)
  }

  /** The page at the cursor with the next n bytes stored. */
  function Poll(pages: Pages, offset: nat, data: seq<Byte>, k: nat, n: nat): Pages
    requires k + n <= |data| && (offset + k) % PAGE_SIZE + n <= PAGE_SIZE
    requires (offset + k) / PAGE_SIZE in pages && |pages[(offset + k) / PAGE_SIZE].bytes| == PAGE_SIZE
  {
    var id := (offset + k) / PAGE_SIZE;
    pages[id := Stored(pages[id], (offset + k) % PAGE_SIZE, data[k..k + n])]
  }

  lemma PollSame(pages: Pages, file: seq<Byte>, offset: nat, data: seq<Byte>, k: nat, n: nat, o: nat)
    requires k + n <= |data| && (offset + k) % PAGE_SIZE + n <= PAGE_SIZE
    requires (offset + k) / PAGE_SIZE in pages && |pages[(offset + k) / PAGE_SIZE].bytes| == PAGE_SIZE
    requires WSameAt(pages, file, offset, data, k, o)
    ensures WSameAt(Poll(pages, offset, data, k, n), file, offset, data, k + n, o)
  {}

  lemma PollStep(pages: Pages, size: nat, file: seq<Byte>, offset: nat, data: seq<Byte>, k: nat, blank: bool, n: nat, l: nat)
    requires Writing(pages, size, file, offset, data, k, blank) && (offset + k) / PAGE_SIZE in pages
    requires 0 < n == Min(PAGE_SIZE - (offset + k) % PAGE_SIZE, |data| - k) && l == k + n
    ensures |pages[(offset + k) / PAGE_SIZE].bytes| == PAGE_SIZE
    ensures Writing(Poll(pages, offset, data, k, n), size, file, offset, data, l, false)
  {
    assert WholeAt(pages, (offset + k) / PAGE_SIZE);
    var next := Poll(pages, offset, data, k, n);
    forall i: nat ensures WholeAt(next, i) { assert WholeAt(pages, i); }
    forall i: nat ensures WValidAt(next, size, offset, l, false, i) { assert WValidAt(pages, size, offset, k, blank, i); }
    forall o: nat ensures WSameAt(next, file, offset, data, l, o) {
      assert WSameAt(pages, file, offset, data, k, o);
      PollSame(pages, file, offset, data, k, n, o);
    }
  }

  // ----- when an operation keeps the agreement

  /** A non-empty write agrees unless it leaves behind a cached page between the end and its start; an
      empty one unless it moves the end or puts in a blank page over the file's last bytes. */
  ghost predicate WriteSafe(pages: Pages, size: nat, offset: nat, data: seq<Byte>) {
    if data != [] then forall id: nat | size / PAGE_SIZE <= id < offset / PAGE_SIZE :: id !in pages
    else offset < size || (offset == size && (size % PAGE_SIZE == 0 || size / PAGE_SIZE in pages))
  }

  /** A shrink drops the page at the new end: it agrees exactly if that page held only zeros up to there.
      Growing agrees unless a page past the one at the old end is cached and becomes part of the file. */
  ghost predicate TruncateSafe(pages: Pages, file: seq<Byte>, n: nat) {
    if n < |file| then forall o: nat | n / PAGE_SIZE * PAGE_SIZE <= o < n :: file[o] == 0
    else forall id: nat | |file| / PAGE_SIZE < id && id * PAGE_SIZE < n :: id !in pages
  }

  lemma WriteStart(pages: Pages, size: nat, file: seq<Byte>, offset: nat, data: seq<Byte>)
    requires Cached(pages, size, file)
    ensures Writing(pages, size, file, offset, data, 0, false)
  {
    forall i: nat ensures WValidAt(pages, size, offset, 0, false, i) { assert ValidAt(pages, size, i); }
    forall o: nat ensures WSameAt(pages, file, offset, data, 0, o) { assert SameAt(pages, file, o); }
  }

  ghost predicate BelowAt(was: Pages, pages: Pages, id: nat) { id in pages <==> id in was }

  /** Which pages a write has put in so far. */
  ghost predicate Since(was: Pages, pages: Pages, size: nat, offset: nat, k: nat, blank: bool) {
    && (forall id: nat {:trigger BelowAt(was, pages, id)} | id < offset / PAGE_SIZE :: BelowAt(was, pages, id))
    && (k == 0 ==> if offset / PAGE_SIZE in pages then blank <==> offset >= size && offset / PAGE_SIZE !in was else pages == was)
  }

  lemma SinceInsert(was: Pages, pages: Pages, size: nat, offset: nat, k: nat, blank: bool)
    requires Since(was, pages, size, offset, k, blank) && (offset + k) / PAGE_SIZE !in pages
    ensures Since(was, pages[(offset + k) / PAGE_SIZE := NewPage(size, offset + k)], size, offset, k, k == 0 && offset >= size)
  {
    var next := pages[(offset + k) / PAGE_SIZE := NewPage(size, offset + k)];
    forall id: nat | id < offset / PAGE_SIZE ensures BelowAt(was, next, id) { assert BelowAt(was, pages, id); }
  }

  lemma SincePoll(was: Pages, pages: Pages, size: nat, offset: nat, k: nat, blank: bool, page: CachePage, l: nat)
    requires Since(was, pages, size, offset, k, blank) && l > k
    ensures Since(was, pages[(offset + k) / PAGE_SIZE := page], size, offset, l, false)
  {
    var next := pages[(offset + k) / PAGE_SIZE := page];
    forall id: nat | id < offset / PAGE_SIZE ensures BelowAt(was, next, id) { assert BelowAt(was, pages, id); }
  }

  /** All data is in: the contents agree; whether the valid sizes do is the question. */
  lemma WriteEnd(was: Pages, pages: Pages, size: nat, file: seq<Byte>, offset: nat, data: seq<Byte>, blank: bool)
    requires Cached(was, size, file) && Writing(pages, size, file, offset, data, |data|, blank)
    requires Since(was, pages, size, offset, |data|, blank) && (data == [] ==> offset / PAGE_SIZE in pages)
    ensures Agree(pages, Max(size, offset + |data|), FlatWrite(file, offset, data)) <==> WriteSafe(was, size, offset, data)
    ensures Seen(pages, Max(size, offset + |data|), FlatWrite(file, offset, data)) <==> WriteSafe(was, size, offset, data)
  {
    var end, next := Max(size, offset + |data|), FlatWrite(file, offset, data);
    FlatWriteIs(file, offset, data);
    forall o: nat ensures SameAt(pages, next, o) { assert WSameAt(pages, file, offset, data, |data|, o); }
    if data != [] {
      if WriteSafe(was, size, offset, data) {
        forall id: nat ensures ValidAt(pages, end, id) {
          assert WValidAt(pages, size, offset, |data|, blank, id);
          assert id < offset / PAGE_SIZE ==> BelowAt(was, pages, id);
        }
      } else {
        var id: nat :| size / PAGE_SIZE <= id < offset / PAGE_SIZE && id in was;
        assert BelowAt(was, pages, id);
        assert WValidAt(pages, size, offset, |data|, blank, id);
        assert !ValidAt(pages, end, id) && !SeenAt(pages, end, next, id * PAGE_SIZE + Clamp(size, id));
      }
    } else if offset <= size {
      forall id: nat ensures ValidAt(pages, end, id) || (blank && id == offset / PAGE_SIZE) {
        assert WValidAt(pages, size, offset, |data|, blank, id);
      }
      assert WValidAt(pages, size, offset, |data|, blank, offset / PAGE_SIZE);
      assert ValidAt(pages, end, offset / PAGE_SIZE) <==> WriteSafe(was, size, offset, data);
      assert !WriteSafe(was, size, offset, data) ==> !SeenAt(pages, end, next, offset / PAGE_SIZE * PAGE_SIZE);
    }
    if WriteSafe(was, size, offset, data) { CachedIsSeen(pages, end, next); }
  }

  lemma WriteDone(was: Pages, pages: Pages, size: nat, file: seq<Byte>, offset: nat, data: seq<Byte>, blank: bool)
    requires Cached(was, size, file) && Writing(pages, size, file, offset, data, |data|, blank)
    requires Since(was, pages, size, offset, |data|, blank) && (data == [] ==> offset / PAGE_SIZE in pages)
    requires Dirtied(was, pages, offset, |data|)
    ensures Whole(pages) && Left(was, pages, size, offset, data)
    ensures Agree(pages, Max(size, offset + |data|), FlatWrite(file, offset, data)) <==> WriteSafe(was, size, offset, data)
    ensures Faithful(pages, Max(size, offset + |data|), FlatWrite(file, offset, data)) <==> WriteSafe(was, size, offset, data)
  {
    WriteEnd(was, pages, size, file, offset, data, blank);
    AnswersExactly(pages, Max(size, offset + |data|), FlatWrite(file, offset, data));
    WriteLeaves(was, pages, size, file, offset, data, blank);
  }

  /** The pages written to are dirty, and the others are as dirty as they were. */
  ghost predicate DirtyAt(was: Pages, pages: Pages, offset: nat, k: nat, id: nat) {
    if k > 0 && offset / PAGE_SIZE <= id <= (offset + k - 1) / PAGE_SIZE then id in pages && pages[id].dirty
    else id in pages ==> pages[id].dirty == (id in was && was[id].dirty)
  }

  ghost predicate Dirtied(was: Pages, pages: Pages, offset: nat, k: nat) {
    forall id: nat {:trigger DirtyAt(was, pages, offset, k, id)} :: DirtyAt(was, pages, offset, k, id)
  }

  lemma DirtyInsert(was: Pages, pages: Pages, offset: nat, k: nat, size: nat)
    requires Dirtied(was, pages, offset, k) && (offset + k) / PAGE_SIZE !in pages && (offset + k) / PAGE_SIZE !in was
    ensures Dirtied(was, pages[(offset + k) / PAGE_SIZE := NewPage(size, offset + k)], offset, k)
  {
    var next := pages[(offset + k) / PAGE_SIZE := NewPage(size, offset + k)];
    forall id: nat ensures DirtyAt(was, next, offset, k, id) { assert DirtyAt(was, pages, offset, k, id); }
  }

  lemma DirtyPoll(was: Pages, pages: Pages, offset: nat, k: nat, l: nat, page: CachePage)
    requires Dirtied(was, pages, offset, k) && page.dirty && k < l <= k + PAGE_SIZE - (offset + k) % PAGE_SIZE
    ensures Dirtied(was, pages[(offset + k) / PAGE_SIZE := page], offset, l)
  {
    var next := pages[(offset + k) / PAGE_SIZE := page];
    forall id: nat ensures DirtyAt(was, next, offset, l, id) { assert DirtyAt(was, pages, offset, k, id); }
  }

  /** What a write leaves: the page it ends in is cached, and pages below it are as valid as they were. */
  ghost predicate Left(was: Pages, pages: Pages, size: nat, offset: nat, data: seq<Byte>) {
    && Dirtied(was, pages, offset, |data|)
    && (offset + |data| - (if data == [] then 0 else 1)) / PAGE_SIZE in pages
    && forall id: nat {:trigger BelowAt(was, pages, id)} | id < offset / PAGE_SIZE && id in was :: id in pages && pages[id].valid == Clamp(size, id)
  }

  lemma WriteLeaves(was: Pages, pages: Pages, size: nat, file: seq<Byte>, offset: nat, data: seq<Byte>, blank: bool)
    requires Writing(pages, size, file, offset, data, |data|, blank) && (data == [] ==> offset / PAGE_SIZE in pages)
    requires Since(was, pages, size, offset, |data|, blank) && Dirtied(was, pages, offset, |data|)
    ensures Left(was, pages, size, offset, data)
  {
    forall id: nat | id < offset / PAGE_SIZE && id in was ensures id in pages && pages[id].valid == Clamp(size, id) {
      assert BelowAt(was, pages, id) && WValidAt(pages, size, offset, |data|, blank, id);
    }
  }

  lemma ShrinkEnd(was: Pages, pages: Pages, size: nat, file: seq<Byte>, n: nat)
    requires Cached(was, size, file) && n < size
    requires forall id: nat :: id in pages <==> id in was && !(n / PAGE_SIZE <= id && id * PAGE_SIZE < size)
    requires forall id | id in pages :: pages[id] == was[id]
    ensures Whole(pages)
    ensures Agree(pages, n, FlatTruncate(file, n)) <==> TruncateSafe(was, file, n)
    ensures Seen(pages, n, FlatTruncate(file, n)) <==> TruncateSafe(was, file, n)
  {
    var next := FlatTruncate(file, n);
    forall id: nat ensures WholeAt(pages, id) && ValidAt(pages, n, id) { assert WholeAt(was, id) && ValidAt(was, size, id); }
    if TruncateSafe(was, file, n) {
      forall o: nat ensures SameAt(pages, next, o) {
        assert SameAt(was, file, o);
        assert n / PAGE_SIZE <= o / PAGE_SIZE && o < n ==> file[o] == 0;
      }
    } else {
      var o: nat :| n / PAGE_SIZE * PAGE_SIZE <= o < n && file[o] != 0;
      assert !SameAt(pages, next, o) && !SeenAt(pages, n, next, o);
    }
    if TruncateSafe(was, file, n) { CachedIsSeen(pages, n, next); }
  }

  /** The page at the old end, if cached, follows the end. */
  function Grown(pages: Pages, size: nat, n: nat): Pages
    requires size <= n
  {
    var id := size / PAGE_SIZE;
    if id !in pages then pages
    else
      var old_valid, valid := pages[id].valid, Min(n - id * PAGE_SIZE, PAGE_SIZE);
      if old_valid < valid <= |pages[id].bytes|
      then pages[id := pages[id].(bytes := Overwrite(pages[id].bytes, old_valid, Zeros(valid - old_valid)), valid := valid)]
      else pages
  }

  lemma GrowEnd(pages: Pages, size: nat, file: seq<Byte>, n: nat)
    requires Cached(pages, size, file) && n >= size
    ensures Whole(Grown(pages, size, n))
    ensures Agree(Grown(pages, size, n), n, FlatTruncate(file, n)) <==> TruncateSafe(pages, file, n)
    ensures Seen(Grown(pages, size, n), n, FlatTruncate(file, n)) <==> TruncateSafe(pages, file, n)
  {
    var next, grown, id := FlatTruncate(file, n), Grown(pages, size, n), size / PAGE_SIZE;
    assert WholeAt(pages, id) && ValidAt(pages, size, id);
    forall i: nat ensures WholeAt(grown, i) { assert WholeAt(pages, i); }
    forall o: nat ensures SameAt(grown, next, o) { assert SameAt(pages, file, o); }
    if TruncateSafe(pages, file, n) {
      forall i: nat ensures ValidAt(grown, n, i) { assert ValidAt(pages, size, i); }
    } else {
      var i: nat :| size / PAGE_SIZE < i && i * PAGE_SIZE < n && i in pages;
      assert ValidAt(pages, size, i);
      assert !ValidAt(grown, n, i) && !SeenAt(grown, n, next, i * PAGE_SIZE);
    }
    if TruncateSafe(pages, file, n) { CachedIsSeen(grown, n, next); }
  }

  lemma Joined(file: seq<Byte>, a: nat, b: nat, n: nat)
    requires a <= b && b + n <= |file|
    ensures file[a..b] + file[b..b + n] == file[a..b + n]
  {}

  lemma InsertKeeps(pages: Pages, size: nat, file: seq<Byte>, cur: nat)
    requires Cached(pages, size, file) && cur / PAGE_SIZE !in pages && cur < size
    ensures Cached(pages[cur / PAGE_SIZE := NewPage(size, cur)], size, file)
  {
    var next := pages[cur / PAGE_SIZE := NewPage(size, cur)];
    forall id: nat ensures WholeAt(next, id) && ValidAt(next, size, id) { assert WholeAt(pages, id) && ValidAt(pages, size, id); }
    forall o: nat ensures SameAt(next, file, o) { assert SameAt(pages, file, o); }
  }

  lemma InsertWhole(was: Pages, pages: Pages, size: nat, cur: nat)
    requires Whole(pages) && SamePages(was, pages, size) && cur / PAGE_SIZE !in pages && cur < size
    ensures Whole(pages[cur / PAGE_SIZE := NewPage(size, cur)]) && SamePages(was, pages[cur / PAGE_SIZE := NewPage(size, cur)], size)
  {
    var next := pages[cur / PAGE_SIZE := NewPage(size, cur)];
    forall id: nat ensures WholeAt(next, id) && SamePagesAt(was, next, size, id) {
      assert WholeAt(pages, id) && SamePagesAt(was, pages, size, id);
    }
  }

  // ----- runs

  datatype Op = ReadAt(offset: nat, len: nat) | WriteAt(offset: nat, data: seq<Byte>) | Cut(size: nat)

  function FlatStep(file: seq<Byte>, op: Op): seq<Byte> {
    match op
    case ReadAt(_, _) => file
    case WriteAt(offset, data) => FlatWrite(file, offset, data)
    case Cut(n) => FlatTruncate(file, n)
  }

  function FlatAnswer(file: seq<Byte>, op: Op): seq<Byte> {
    if op.ReadAt? then FlatRead(file, op.offset, op.len) else []
  }

  function FlatAfter(file: seq<Byte>, ops: seq<Op>): seq<Byte>
    decreases |ops|
  {
    if ops == [] then file else FlatAfter(FlatStep(file, ops[0]), ops[1..])
  }

  function FlatAnswers(file: seq<Byte>, ops: seq<Op>): seq<seq<Byte>>
    decreases |ops|
  {
    if ops == [] then [] else [FlatAnswer(file, ops[0])] + FlatAnswers(FlatStep(file, ops[0]), ops[1..])
  }

  /** An operation that is safe whatever is cached: a non-empty write that starts in a page the file reaches or ends
      at, an empty one inside the file or where a blank page hides nothing, a shrink that cuts off no data of the page
      at the new end, growth within that page. */
  ghost predicate Gentle(file: seq<Byte>, op: Op) {
    match op
    case ReadAt(_, _) => true
    case WriteAt(offset, data) =>
      if data != [] then offset / PAGE_SIZE <= |file| / PAGE_SIZE
      else offset < |file| || (offset == |file| && (|file| % PAGE_SIZE == 0 || !Blank(file, |file|)))
    case Cut(n) => if n < |file| then Blank(file, n) else n <= (|file| / PAGE_SIZE + 1) * PAGE_SIZE
  }

  /** The file is zero from the start of the page of `n` up to `n`. */
  ghost predicate Blank(file: seq<Byte>, n: nat)
    requires n <= |file|
  {
    forall o: nat | n / PAGE_SIZE * PAGE_SIZE <= o < n :: file[o] == 0
  }

  ghost predicate SafeOn(pages: Pages, file: seq<Byte>, op: Op) {
    match op
    case ReadAt(_, _) => true
    case WriteAt(offset, data) => WriteSafe(pages, |file|, offset, data)
    case Cut(n) => TruncateSafe(pages, file, n)
  }

  lemma GentleIsSafe(pages: Pages, file: seq<Byte>, op: Op)
    requires Cached(pages, |file|, file) && Gentle(file, op)
    ensures SafeOn(pages, file, op)
  {
    if op.WriteAt? && op.data == [] && op.offset == |file| && |file| % PAGE_SIZE != 0 {
      var o: nat :| |file| / PAGE_SIZE * PAGE_SIZE <= o < |file| && file[o] != 0;
      assert SameAt(pages, file, o) && o / PAGE_SIZE == |file| / PAGE_SIZE;
    }
  }

  /** The first n pages of a file, cached; the rest of the file must be zero. */
  ghost function CacheOf(file: seq<Byte>, n: nat): Pages {
    map id: nat | id < n :: CachePage(seq(PAGE_SIZE, i requires 0 <= i => FileByte(file, id * PAGE_SIZE + i)), Clamp(|file|, id), false)
  }

  lemma CacheOfHolds(file: seq<Byte>, n: nat)
    requires forall o: nat | n * PAGE_SIZE <= o < |file| :: file[o] == 0
    ensures Cached(CacheOf(file, n), |file|, file)
  {
    var pages := CacheOf(file, n);
    forall id: nat ensures WholeAt(pages, id) && ValidAt(pages, |file|, id) {}
    forall o: nat ensures SameAt(pages, file, o) { assert o / PAGE_SIZE * PAGE_SIZE + o % PAGE_SIZE == o; }
  }

  /** Exactly the gentle operations are safe on every cache of the file. */
  lemma GentleExactly(file: seq<Byte>, op: Op)
    ensures Gentle(file, op) <==> forall pages: Pages | Cached(pages, |file|, file) :: SafeOn(pages, file, op)
  {
    if Gentle(file, op) {
      forall pages: Pages | Cached(pages, |file|, file) ensures SafeOn(pages, file, op) { GentleIsSafe(pages, file, op); }
    } else {
      var last := |file| / PAGE_SIZE;
      var n := if op.WriteAt? && op.data == [] && op.offset == |file| then last else last + 2;
      CacheOfHolds(file, n);
      assert n == last + 2 ==> last in CacheOf(file, n) && last + 1 in CacheOf(file, n);
      assert !SafeOn(CacheOf(file, n), file, op);
    }
  }

  ghost predicate AllGentle(file: seq<Byte>, ops: seq<Op>)
    decreases |ops|
  {
    ops != [] ==> Gentle(file, ops[0]) && AllGentle(FlatStep(file, ops[0]), ops[1..])
  }

  // ----- the file

  datatype WriteOffset = Position(offset: nat) | End

  /** One page of a read: the valid bytes from the position on, as many as the file has and the buffer takes. */
  method FillFrom(page: CachePage, size: nat, s: Fetch) returns (t: Fetch)
    requires s.cur < size && s.progress == Going && page.valid <= |page.bytes|
    ensures t == FetchOnce(page, size, s)
  {
    var inner := s.cur % PAGE_SIZE;
    if inner > page.valid { return s.(progress := Panicked); }
    var data := page.bytes[..page.valid][inner..];
    var n := Min(|data|, size - s.cur);
    var fill := Min(n, s.room);
    assert data[..fill] == page.bytes[inner..inner + fill];
    t := s.(room := s.room - fill, out := s.out + data[..fill], cur := s.cur + n);
    if n == 0 || fill < n || t.room == 0 { t := t.(progress := Stopped); }
  }

  class TmpFile {
    var pages: Pages
    var size: nat
    ghost var file: seq<Byte>

    ghost predicate Valid()
      reads this
    {
      Cached(pages, size, file)
    }

    constructor ()
      ensures Valid() && file == [] && pages == map[]
    {
      pages, size, file := map[], 0, [];
      new;
      forall id: nat ensures WholeAt(pages, id) && ValidAt(pages, size, id) {}
      forall o: nat ensures SameAt(pages, file, o) {}
    }

    /** PageCache::read: page by page, putting in those that are missing. */
    method ReadPages(offset: nat, len: nat) returns (r: Answer)
      requires Whole(pages)
      modifies this`pages
      ensures Whole(pages) && SamePages(old(pages), pages, size) && (old(Valid()) ==> Valid())
      ensures r == ReadFrom(old(pages), size, offset, len)
    {
      var s := Begin(offset, len);
      ghost var was := pages;
      forall id: nat ensures SamePagesAt(pages, pages, size, id) {}
      while s.cur < size && s.progress == Going
        invariant Whole(pages) && SamePages(was, pages, size) && (old(Valid()) ==> Valid())
        invariant FetchAll(was, size, Begin(offset, len)) == FetchAll(was, size, s)
        decreases size - s.cur, if s.progress == Going then 1 else 0, if s.cur / PAGE_SIZE in pages then 0 else 1
      {
        var id := s.cur / PAGE_SIZE;
        if id in pages {
          assert SamePagesAt(was, pages, size, id) && WholeAt(pages, id);
          s := FillFrom(pages[id], size, s);
        } else {
          InsertWhole(was, pages, size, s.cur);
          if Valid() { InsertKeeps(pages, size, file, s.cur); }
          pages := pages[id := NewPage(size, s.cur)];
        }
      }
      return AnswerOf(s);
    }

    /** FileInode::read: the bytes below the end that fit the buffer, in order.  Any cache can be read, but one that
        does not hold its file may answer short or wrong, or panic. */
    method Read(offset: nat, len: nat) returns (r: Answer)
      requires Whole(pages)
      modifies this`pages
      ensures Whole(pages) && SamePages(old(pages), pages, size)
      ensures r == Panic <==> old(offset < size && offset / PAGE_SIZE in pages && offset % PAGE_SIZE > pages[offset / PAGE_SIZE].valid)
      ensures old(Faithful(pages, size, file)) ==> r == Bytes(FlatRead(file, offset, len))
      ensures old(Valid()) ==> Valid() && r == Bytes(FlatRead(file, offset, len))
    {
      PanicsExactly(pages, size, offset, len);
      if Faithful(pages, size, file) { assert RightAt(pages, size, file, offset, len); }
      if Valid() {
        CachedIsSeen(pages, size, file);
        SeenIsRight(pages, size, file, offset, len, Begin(offset, len));
      }
      r := ReadPages(offset, len);
    }

    /** PageCache::write: stores all the data, page by page; how many bytes it wrote. */
    method WritePages(offset: nat, data: seq<Byte>) returns (wrote: nat)
      requires Valid()
      modifies this`pages
      ensures wrote == |data| && Whole(pages)
      ensures Agree(pages, Max(size, offset + |data|), FlatWrite(file, offset, data)) <==> WriteSafe(old(pages), size, offset, data)
      ensures Faithful(pages, Max(size, offset + |data|), FlatWrite(file, offset, data)) <==> WriteSafe(old(pages), size, offset, data)
      ensures Left(old(pages), pages, size, offset, data)
    {
      ghost var blank := false;
      wrote := 0;
      WriteStart(pages, size, file, offset, data);
      forall i: nat ensures DirtyAt(pages, pages, offset, 0, i) {}
      while true
        invariant Writing(pages, size, file, offset, data, wrote, blank)
        invariant Dirtied(old(pages), pages, offset, wrote) && forall i | i in old(pages) :: i in pages
        invariant Since(old(pages), pages, size, offset, wrote, blank)
        decreases |data| - wrote, if (offset + wrote) / PAGE_SIZE in pages then 0 else 1
      {
        var at := offset + wrote;
        var id := at / PAGE_SIZE;
        if id in pages {
          if wrote >= |data| { break; }
          var inner := at % PAGE_SIZE;
          var n := Min(PAGE_SIZE - inner, |data| - wrote);
          PollStep(pages, size, file, offset, data, wrote, blank, n, wrote + n);
          SincePoll(old(pages), pages, size, offset, wrote, blank, Stored(pages[id], inner, data[wrote..wrote + n]), wrote + n);
          DirtyPoll(old(pages), pages, offset, wrote, wrote + n, Stored(pages[id], inner, data[wrote..wrote + n]));
          pages := pages[id := Stored(pages[id], inner, data[wrote..wrote + n])];
          blank, wrote := false, wrote + n;
        } else {
          InsertStep(pages, size, file, offset, data, wrote, blank);
          SinceInsert(old(pages), pages, size, offset, wrote, blank);
          DirtyInsert(old(pages), pages, offset, wrote, size);
          pages := pages[id := NewPage(size, at)];
          blank := wrote == 0 && offset >= size;
        }
      }
      WriteDone(old(pages), pages, size, file, offset, data, blank);
    }

    /** FileInode::write.  The ghost file is what a flat file would hold; the cache holds it too, and every read and
        the size are as there, exactly when the write is safe. */
    method Write(at: WriteOffset, data: seq<Byte>) returns (wrote: nat, end: nat)
      requires Valid()
      modifies this
      ensures wrote == |data| && end == (if at.End? then |old(file)| else at.offset) + wrote
      ensures file == FlatWrite(old(file), end - wrote, data) && size == Max(old(size), end) && Whole(pages)
      ensures Valid() <==> WriteSafe(old(pages), old(size), end - wrote, data)
      ensures Faithful(pages, size, file) <==> WriteSafe(old(pages), old(size), end - wrote, data)
      ensures Left(old(pages), pages, old(size), end - wrote, data)
    {
      var offset := if at.End? then size else at.offset;
      wrote := WritePages(offset, data);
      end := offset + wrote;
      size := Max(size, end);
      file := FlatWrite(file, offset, data);
    }

    /** PageCache::resize to a smaller size: drops every page from the one at the new end on. */
    method DropPages(n: nat)
      requires Valid() && n < size
      modifies this`pages
      ensures Whole(pages) && forall i: nat :: i in pages <==> i in old(pages) && !(n / PAGE_SIZE <= i && i * PAGE_SIZE < size)
      ensures Agree(pages, n, FlatTruncate(file, n)) <==> TruncateSafe(old(pages), file, n)
      ensures Faithful(pages, n, FlatTruncate(file, n)) <==> TruncateSafe(old(pages), file, n)
    {
      var id, end := n / PAGE_SIZE, (size + PAGE_SIZE - 1) / PAGE_SIZE;
      while id < end
        invariant n / PAGE_SIZE <= id <= end
        invariant forall i: nat :: i in pages <==> i in old(pages) && !(n / PAGE_SIZE <= i < id)
        invariant forall i | i in pages :: pages[i] == old(pages)[i]
      {
        pages := pages - {id};
        id := id + 1;
      }
      ShrinkEnd(old(pages), pages, size, file, n);
      AnswersExactly(pages, n, FlatTruncate(file, n));
    }

    /** FileInode::truncate; again the cache, and every answer, is as in the flat file exactly when that is safe. */
    method Truncate(n: nat)
      requires Valid()
      modifies this
      ensures file == FlatTruncate(old(file), n) && size == n && Whole(pages)
      ensures Valid() <==> TruncateSafe(old(pages), old(file), n)
      ensures Faithful(pages, size, file) <==> TruncateSafe(old(pages), old(file), n)
      ensures n < old(size) ==> forall i: nat :: i in pages <==> i in old(pages) && !(n / PAGE_SIZE <= i && i * PAGE_SIZE < old(size))
      ensures n >= old(size) ==> pages == Grown(old(pages), old(size), n)
    {
      if n < size {
        DropPages(n);
      } else {
        GrowEnd(pages, size, file, n);
        pages := Grown(pages, size, n);
        AnswersExactly(pages, n, FlatTruncate(file, n));
      }
      size := n;
      file := FlatTruncate(file, n);
    }

    method Perform(op: Op) returns (r: seq<Byte>)
      requires Valid() && Gentle(file, op)
      modifies this
      ensures Valid() && file == FlatStep(old(file), op) && r == FlatAnswer(old(file), op)
    {
      r := [];
      GentleIsSafe(pages, file, op);
      match op {
        case ReadAt(offset, len) =>
          var answer := Read(offset, len);
          r := answer.bytes;
        case WriteAt(offset, data) =>
          var wrote, end := Write(Position(offset), data);
        case Cut(n) => Truncate(n);
      }
    }

    /** Every run of reads and of writes and truncations that are safe whatever is cached gives the answers a flat
        file gives. */
    method Execute(ops: seq<Op>) returns (out: seq<seq<Byte>>)
      requires Valid() && AllGentle(file, ops)
      modifies this
      ensures Valid() && file == FlatAfter(old(file), ops) && out == FlatAnswers(old(file), ops)
    {
      out := [];
      for i := 0 to |ops|
        invariant Valid() && AllGentle(file, ops[i..])
        invariant FlatAfter(file, ops[i..]) == FlatAfter(old(file), ops)
        invariant out + FlatAnswers(file, ops[i..]) == FlatAnswers(old(file), ops)
      {
        ghost var rest := ops[i..];
        assert rest[0] == ops[i] && rest[1..] == ops[i + 1..];
        var r := Perform(ops[i]);
        assert out + ([r] + FlatAnswers(file, ops[i + 1..])) == out + [r] + FlatAnswers(file, ops[i + 1..]);
        out := out + [r];
      }
      assert ops[|ops|..] == [];
    }
  }

  // ----- runs in which the answers differ

  /** Writing past a cached page: a read in between panics. */
  method SkippingWrite() returns (r: Answer)
    ensures r == Panic
  {
    var f := new TmpFile();
    var wrote, end := f.Write(Position(0), [7, 7]);
    ghost var was := f.pages;
    wrote, end := f.Write(Position(2 * PAGE_SIZE), [1]);
    assert BelowAt(was, f.pages, 0);
    r := f.Read(100, 1);
  }

  /** Shrinking inside a page that holds data: the data is gone. */
  method ShrinkInside() returns (f: TmpFile)
    ensures Whole(f.pages) && !Faithful(f.pages, f.size, f.file)
  {
    f := new TmpFile();
    var wrote, end := f.Write(Position(0), [7, 7]);
    assert f.file[0] == 7;
    f.Truncate(1);
  }

  /** An empty write at the end of a file whose last page is not cached: that page reads as empty. */
  method EmptyWrite() returns (f: TmpFile)
    ensures Whole(f.pages) && !Faithful(f.pages, f.size, f.file)
  {
    f := new TmpFile();
    f.Truncate(5);
    var wrote, end := f.Write(Position(5), []);
  }

  /** Growing over a page left behind the end by an empty write and a shrink: that page reads as empty. */
  method GrowOver() returns (f: TmpFile)
    ensures Whole(f.pages) && !Faithful(f.pages, f.size, f.file)
  {
    f := new TmpFile();
    var wrote, end := f.Write(Position(0), Zeros(PAGE_SIZE));
    wrote, end := f.Write(Position(PAGE_SIZE), []);
    f.Truncate(0);
    assert 1 in f.pages;
    f.Truncate(2 * PAGE_SIZE);
  }
}
