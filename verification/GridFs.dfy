/**
 GridFS files (mgo.v2/gridfs.go): a writer that cuts what is written into chunks, inserted in the
 background in any order, and a reader with seeking and a read-ahead cache.
 */
module GridFs {
  import opened Base

  const PENDING_LIMIT: nat := 0x10_0000

  // ------------------------------------------------------------------ chunks

  /** Chunk n of a file. */
  function ChunkOf(data: bytes, n: nat, cs: nat): bytes
    requires n * cs <= |data|
  {
    data[n * cs..Min((n + 1) * cs, |data|)]
  }

  /** The collection holds this file: a chunk for every n below its end, and no others. */
  ghost predicate Stored(chunks: map<nat, bytes>, data: bytes, cs: nat)
  {
    && (forall n: nat :: n in chunks <==> n * cs < |data|)
    && (forall n: nat :: n in chunks ==> chunks[n] == ChunkOf(data, n, cs))
  }

  /** The first n chunks one after the other. */
  function Joined(chunks: map<nat, bytes>, n: nat): bytes
    requires forall k: nat :: k < n ==> k in chunks
  {
    if n == 0 then [] else Joined(chunks, n - 1) + chunks[n - 1]
  }

  lemma PrefixAndChunk(data: bytes, n: nat, cs: nat)
    requires n * cs <= |data|
    ensures data[..n * cs] + ChunkOf(data, n, cs) == data[..Min((n + 1) * cs, |data|)]
  {
    assert (n + 1) * cs == n * cs + cs;
  }

  lemma {:induction false} JoinedIsPrefix(chunks: map<nat, bytes>, data: bytes, cs: nat, n: nat)
    requires cs > 0 && Stored(chunks, data, cs) && forall k: nat :: k < n ==> k in chunks
    ensures Joined(chunks, n) == data[..Min(n * cs, |data|)]
  {
    hide ChunkOf;
    if n > 0 {
      JoinedIsPrefix(chunks, data, cs, n - 1);
      assert n - 1 in chunks;
      PrefixAndChunk(data, n - 1, cs);
    }
  }

  /** The number of chunks of a file of this length. */
  function Count(length: nat, cs: nat): nat
    requires cs > 0
  {
    (length + cs - 1) / cs
  }

  lemma CountIsRight(length: nat, cs: nat, n: nat)
    requires cs > 0
    ensures n < Count(length, cs) <==> n * cs < length
  {
    var c, x := Count(length, cs), length + cs - 1;
    assert c * cs <= x < c * cs + cs by {
      assert x == x / cs * cs + x % cs;
    }
    if n < c {
      assert n * cs <= (c - 1) * cs == c * cs - cs;
    } else {
      assert n * cs >= c * cs;
    }
  }

  lemma ChunkSizes(data: bytes, cs: nat, n: nat)
    requires cs > 0 && n * cs < |data|
    ensures (n + 1) * cs < |data| ==> |ChunkOf(data, n, cs)| == cs
    ensures 0 < |ChunkOf(data, n, cs)| <= cs
  {
    assert (n + 1) * cs == n * cs + cs;
  }

  /** The stored chunks are the file cut into pieces: together they are the data, all but the last have
      the chunk size, and the last is not empty. */
  lemma StoredIsTheFile(chunks: map<nat, bytes>, data: bytes, cs: nat)
    requires cs > 0 && Stored(chunks, data, cs)
    ensures forall n: nat :: n in chunks <==> n < Count(|data|, cs)
    ensures Joined(chunks, Count(|data|, cs)) == data
    ensures forall n: nat :: n + 1 < Count(|data|, cs) ==> |chunks[n]| == cs
    ensures data != [] ==> Count(|data|, cs) > 0 && 0 < |chunks[Count(|data|, cs) - 1]| <= cs
  {
    hide ChunkOf, Count;
    var c := Count(|data|, cs);
    forall n: nat ensures n in chunks <==> n < c {
      CountIsRight(|data|, cs, n);
    }
    JoinedIsPrefix(chunks, data, cs, c);
    CountIsRight(|data|, cs, c);
    assert data[..|data|] == data;
    forall n: nat | n + 1 < c
      ensures |chunks[n]| == cs
    {
      CountIsRight(|data|, cs, n + 1);
      assert n in chunks;
      ChunkSizes(data, cs, n);
    }
    if data != [] {
      CountIsRight(|data|, cs, 0);
      assert c - 1 in chunks;
      ChunkSizes(data, cs, c - 1);
    }
  }

  // ------------------------------------------------------------------ writing

  function Flatten(chunks: seq<bytes>): bytes
  {
    if chunks == [] then [] else chunks[0] + Flatten(chunks[1..])
  }

  lemma {:induction false} FlattenSnoc(chunks: seq<bytes>, last: bytes)
    ensures Flatten(chunks + [last]) == Flatten(chunks) + last
  {
    if chunks == [] {
      assert (chunks + [last])[1..] == [];
    } else {
      assert (chunks + [last])[1..] == chunks[1..] + [last];
      FlattenSnoc(chunks[1..], last);
      assert chunks[0] + (Flatten(chunks[1..]) + last) == chunks[0] + Flatten(chunks[1..]) + last;
    }
  }

  predicate AllOfSize(chunks: seq<bytes>, cs: nat)
  {
    forall k :: 0 <= k < |chunks| ==> |chunks[k]| == cs
  }

  /** Cut as a closed file is: only the last chunk may be shorter, and none is empty. */
  predicate CutRight(chunks: seq<bytes>, cs: nat)
  {
    chunks == [] || (AllOfSize(chunks[..|chunks| - 1], cs) && 0 < |chunks[|chunks| - 1]| <= cs)
  }

  lemma HeadChunk(first: bytes, flat: bytes, cs: nat)
    requires 0 < |first| <= cs && (flat == [] || |first| == cs)
    ensures ChunkOf(first + flat, 0, cs) == first
  {
    assert (first + flat)[0..Min(cs, |first + flat|)] == first;
  }

  lemma TailChunk(first: bytes, flat: bytes, cs: nat, n: nat)
    requires |first| == cs
    ensures (n + 1) * cs < |first + flat| <==> n * cs < |flat|
    ensures n * cs <= |flat| ==> (n + 1) * cs <= |first + flat| && ChunkOf(first + flat, n + 1, cs) == ChunkOf(flat, n, cs)
  {
    assert (n + 1) * cs == n * cs + cs && (n + 2) * cs == (n + 1) * cs + cs;
    if n * cs <= |flat| {
      Shifted(first, flat, n * cs, Min((n + 1) * cs, |flat|));
    }
  }

  lemma Shifted(first: bytes, rest: bytes, i: nat, j: nat)
    requires i <= j <= |rest|
    ensures (first + rest)[|first| + i..|first| + j] == rest[i..j]
  {
  }

  lemma CutRightRest(chunks: seq<bytes>, cs: nat)
    requires chunks != [] && CutRight(chunks, cs)
    ensures CutRight(chunks[1..], cs)
    ensures 0 < |chunks[0]| <= cs || cs == 0
    ensures |chunks| > 1 ==> |chunks[0]| == cs
  {
    var rest, most := chunks[1..], chunks[..|chunks| - 1];
    if rest != [] {
      assert most[0] == chunks[0] && rest[|rest| - 1] == chunks[|chunks| - 1];
      assert forall k :: 0 <= k < |rest| - 1 ==> rest[k] == most[k + 1];
    }
  }

  lemma NoMultiple(n: nat, cs: nat, length: nat)
    requires length <= cs && n > 0
    ensures n * cs >= length
  {
    assert n * cs == (n - 1) * cs + cs;
  }

  /** The n-th of the chunks is where chunk n of the file should be. */
  lemma {:induction false} ChunkInFlat(chunks: seq<bytes>, cs: nat, n: nat)
    requires cs > 0 && CutRight(chunks, cs)
    ensures n < |chunks| <==> n * cs < |Flatten(chunks)|
    ensures n < |chunks| ==> chunks[n] == ChunkOf(Flatten(chunks), n, cs)
    decreases |chunks|
  {
    hide ChunkOf, CutRight;
    if chunks != [] {
      var first, rest := chunks[0], chunks[1..];
      CutRightRest(chunks, cs);
      if n == 0 {
        HeadChunk(first, Flatten(rest), cs);
      } else if rest == [] {
        assert first + [] == first;
        NoMultiple(n, cs, |first|);
      } else {
        ChunkInFlat(rest, cs, n - 1);
        TailChunk(first, Flatten(rest), cs, n - 1);
      }
    }
  }

  /** Every chunk stored or under way has its number, and unless an insert has failed every chunk handed
      over is one or the other. */
  ghost predicate AllAccounted(stored: map<nat, bytes>, pending: map<nat, bytes>, chunks: seq<bytes>, failed: bool)
  {
    && (forall k: nat :: k in stored ==> k < |chunks| && stored[k] == chunks[k])
    && (forall k: nat :: k in pending ==> k < |chunks| && pending[k] == chunks[k])
    && (!failed ==> forall k: nat :: k < |chunks| ==> (k in stored <==> k !in pending))
  }

  lemma OneHandedOver(stored: map<nat, bytes>, pending: map<nat, bytes>, chunks: seq<bytes>, failed: bool, data: bytes)
    requires AllAccounted(stored, pending, chunks, failed)
    ensures AllAccounted(stored, pending[|chunks| := data], chunks + [data], failed)
    ensures AllAccounted(stored, pending, chunks + [data], true)
    ensures |pending[|chunks| := data]| == |pending| + 1
  {
    var n, more, next := |chunks|, chunks + [data], pending[|chunks| := data];
    forall k: nat
      ensures k in stored ==> k < |more| && stored[k] == more[k]
      ensures k in pending ==> k < |more| && pending[k] == more[k]
      ensures k in next ==> k < |more| && next[k] == more[k]
      ensures !failed && k < |more| ==> (k in stored <==> k !in next)
    {
      if k < n {
        assert more[k] == chunks[k];
      }
    }
    assert n !in pending;
    OneMore(pending, n, data);
  }

  lemma OneDone(stored: map<nat, bytes>, pending: map<nat, bytes>, chunks: seq<bytes>, failed: bool, k: nat)
    requires AllAccounted(stored, pending, chunks, failed) && k in pending
    ensures AllAccounted(stored[k := pending[k]], pending - {k}, chunks, failed)
    ensures AllAccounted(stored, pending - {k}, chunks, true)
    ensures |pending - {k}| == |pending| - 1
  {
    OneLess(pending, pending - {k}, k);
  }

  class FileWriter {
    const chunkSize: nat

    // Which chunks the collection accepts when they are inserted, and whether the file's own document is.
    const accepts: nat -> bool
    const registers: bool

    var chunk: nat
    var wbuf: bytes
    var wpending: nat
    var length: nat
    var failed: bool

    // The chunks collection, the inserts under way, and the length in the file's document once there is one.
    var stored: map<nat, bytes>
    var pending: map<nat, bytes>
    var document: Option<nat>

    // The chunks handed to insertChunk, in order.
    ghost var chunks: seq<bytes>

    ghost predicate Accounted()
      reads this`wpending, this`pending, this`chunk, this`chunks, this`stored, this`failed
    {
      && wpending == |pending| && chunk == |chunks| && AllAccounted(stored, pending, chunks, failed)
      && OnlyAccepted(stored)
      && (failed ==> !AllAccepted(|chunks|)) && Bounded(wpending)
    }

    /** Behind one chunk less than a megabyte is under way. */
    predicate Bounded(n: nat)
    {
      n > 0 ==> chunkSize * (n - 1) < 0x10_0000
    }

    lemma BoundedByMore(n: nat)
      requires n > 0 && Bounded(n)
      ensures Bounded(n - 1)
    {
      if n > 1 {
        assert chunkSize * (n - 1) == chunkSize * (n - 2) + chunkSize;
      }
    }

    ghost predicate OnlyAccepted(m: map<nat, bytes>)
    {
      forall k <- m :: accepts(k)
    }

    lemma OneAccepted(m: map<nat, bytes>, k: nat, data: bytes)
      requires OnlyAccepted(m) && accepts(k)
      ensures OnlyAccepted(m[k := data])
    {
    }

    lemma OneRefused(k: nat, n: nat)
      requires k < n && !accepts(k)
      ensures !AllAccepted(n)
    {
    }

    /** None of the first n chunks is refused. */
    ghost predicate AllAccepted(n: nat)
    {
      forall k: nat :: k < n ==> accepts(k)
    }

    ghost predicate Valid()
      reads this
    {
      && chunkSize > 0 && Accounted() && document == None
      && length == |Written()| && |wbuf| <= chunkSize && AllOfSize(chunks, chunkSize)
    }

    /** Everything written so far. */
    ghost function Written(): bytes
      reads this
    {
      Flatten(chunks) + wbuf
    }

    constructor (chunkSize: nat, accepts: nat -> bool, registers: bool)
      requires chunkSize > 0
      ensures Valid() && !failed && Written() == []
      ensures this.chunkSize == chunkSize && this.accepts == accepts && this.registers == registers
    {
      this.chunkSize, this.accepts, this.registers := chunkSize, accepts, registers;
      document := None;
      chunk, wbuf, wpending, length, failed := 0, [], 0, 0, false;
      stored, pending, chunks := map[], map[], [];
    }

    /** Wait: some insert under way ends, well or badly. */
    method WaitForOne()
      requires Accounted() && wpending > 0
      modifies this`stored, this`pending, this`wpending, this`failed
      ensures Accounted() && wpending == old(wpending) - 1
      ensures old(failed) ==> failed
    {
      HandedOver();
      hide AllAccounted, Bounded, OnlyAccepted, AllAccepted;
      BoundedByMore(wpending);
      assert pending.Keys != {};
      var k :| k in pending;
      var data := pending[k];
      OneDone(stored, pending, chunks, failed, k);
      pending := pending - {k};
      wpending := wpending - 1;
      if accepts(k) {
        OneAccepted(stored, k, data);
        stored := stored[k := data];
      } else {
        OneRefused(k, |chunks|);
        failed := true;
      }
    }

    /** An error is that of a refused chunk. */
    lemma Refused()
      requires Accounted()
      ensures failed ==> !AllAccepted(|chunks|)
    {
    }

    lemma HandedOver()
      requires Accounted()
      ensures forall k <- pending :: k < |chunks|
    {
    }

    /** An insert ends between two calls. */
    method InsertEnds()
      requires Valid() && wpending > 0
      modifies this`stored, this`pending, this`wpending, this`failed
      ensures Valid() && (old(failed) ==> failed) && wpending == old(wpending) - 1
    {
      hide AllAccounted, Flatten, Bounded;
      WaitForOne();
    }

    /** insertChunk's wait while a megabyte is under way. */
    method WaitForRoom() returns (gaveUp: bool)
      requires Accounted()
      modifies this`stored, this`pending, this`wpending, this`failed
      ensures Accounted() && (old(failed) ==> failed) && (gaveUp ==> failed)
      ensures gaveUp || chunkSize * wpending < PENDING_LIMIT
    {
      hide Accounted;
      while chunkSize * wpending >= PENDING_LIMIT
        invariant Accounted() && (old(failed) ==> failed)
        decreases wpending
      {
        assert wpending > 0;
        WaitForOne();
        if failed {
          return true;
        }
      }
      return false;
    }

    /** insertChunk; it gives up when an insert fails while it waits. */
    method InsertChunk(data: bytes)
      requires Accounted()
      modifies this`stored, this`pending, this`wpending, this`failed, this`chunk, this`chunks
      ensures Accounted() && chunks == old(chunks) + [data] && (old(failed) ==> failed)
    {
      hide AllAccounted;
      var n := chunk;
      var gaveUp := WaitForRoom();
      assert !gaveUp ==> Bounded(wpending + 1);
      hide Bounded;
      OneHandedOver(stored, pending, chunks, failed, data);
      chunk := n + 1;
      chunks := chunks + [data];
      if gaveUp {
        return;
      }
      wpending := wpending + 1;
      pending := pending[n := data];
    }

    /** insertChunk of a whole chunk. */
    method Cut(data: bytes)
      requires Accounted() && AllOfSize(chunks, chunkSize) && |data| == chunkSize
      modifies this`stored, this`pending, this`wpending, this`failed, this`chunk, this`chunks
      ensures Accounted() && AllOfSize(chunks, chunkSize) && Flatten(chunks) == old(Flatten(chunks)) + data
    {
      hide Bounded, Flatten, Accounted, AllOfSize;
      FlattenSnoc(chunks, data);
      SizeSnoc(chunks, data, chunkSize);
      InsertChunk(data);
    }

    /** Write. */
    method Write(data: bytes) returns (n: nat, ok: bool)
      requires Valid()
      modifies this
      ensures Valid()
      ensures old(failed) ==> n == 0 && !ok && failed && Written() == old(Written())
      ensures !old(failed) ==> n == |data| && ok == !failed && Written() == old(Written()) + data
      ensures AllAccepted(|chunks|) ==> !failed
    {
      hide Bounded, Flatten, Accounted, AllOfSize, AllAccepted;
      Refused();
      if failed {
        return 0, false;
      }
      n := |data|;
      length := length + n;
      ghost var before := Written();
      if |wbuf| + |data| < chunkSize {
        Regroup(Flatten(chunks), wbuf, data, |data|);
        wbuf := wbuf + data;
        return n, true;
      }
      var rest := data;
      if |wbuf| > 0 {
        var missing := Min(chunkSize - |wbuf|, |rest|);
        Regroup(Flatten(chunks), wbuf, rest, missing);
        wbuf := wbuf + rest[..missing];
        rest := rest[missing..];
        Cut(wbuf);
        wbuf := [];
      }
      Regroup(Flatten(chunks), [], rest, |rest|);
      while |rest| > chunkSize
        invariant Accounted() && document == None && wbuf == [] && length == old(length) + |data|
        invariant AllOfSize(chunks, chunkSize) && before + data == Flatten(chunks) + rest
        decreases |rest|
      {
        var size := Min(chunkSize, |rest|);
        Regroup(Flatten(chunks), [], rest, size);
        Cut(rest[..size]);
        rest := rest[size..];
      }
      wbuf := wbuf + rest;
      Refused();
      return n, !failed;
    }

    /** Close of a file being written: the last chunk goes out, every insert under way is awaited, and then the
        file's document is inserted; after any error the chunks are removed. */
    method Close() returns (ok: bool)
      requires Valid()
      modifies this
      ensures ok <==> AllAccepted(Count(|old(Written())|, chunkSize)) && registers
      ensures pending == map[]
      ensures ok ==> Stored(stored, old(Written()), chunkSize) && document == Some(|old(Written())|)
      ensures !ok ==> stored == map[] && document == None
    {
      hide Bounded, Flatten, Accounted, AllOfSize, CutRight, Count;
      ghost var before := Written();
      assert |wbuf| == 0 ==> before == Flatten(chunks);
      LastChunk(chunks, wbuf, chunkSize);
      ChunkCount(chunks, wbuf, chunkSize);
      if |wbuf| > 0 && !failed {
        FlattenSnoc(chunks, wbuf);
        InsertChunk(wbuf);
        wbuf := [];
      }
      Refused();
      CompleteWrite();
      return !failed;
    }

    /** completeWrite. */
    method CompleteWrite()
      requires Accounted() && chunkSize > 0 && document == None
      modifies this`stored, this`pending, this`wpending, this`failed, this`document
      ensures pending == map[]
      ensures failed ==> old(failed) || !AllAccepted(|chunks|) || !registers
      ensures !failed ==> !old(failed) && AllAccepted(|chunks|) && registers && document == Some(length)
      ensures !failed && CutRight(chunks, chunkSize) ==> Stored(stored, Flatten(chunks), chunkSize)
      ensures failed ==> stored == map[] && document == None
    {
      hide Flatten, Stored, Accounted, CutRight;
      while wpending > 0
        invariant Accounted() && (old(failed) ==> failed) && document == None
        decreases wpending
      {
        WaitForOne();
      }
      NoneUnderWay();
      if !failed {
        if CutRight(chunks, chunkSize) {
          AllStored(stored, chunks, chunkSize);
        }
        if registers {
          document := Some(length);
        } else {
          failed := true;
        }
      }
      if failed {
        stored := map[];
      }
    }

    lemma NoneUnderWay()
      requires Accounted() && wpending == 0
      ensures pending == map[] && (failed ==> !AllAccepted(|chunks|))
      ensures !failed ==> AllAccepted(|chunks|) && (forall k: nat :: k in stored <==> k < |chunks|)
      ensures forall k: nat :: k in stored ==> k < |chunks| && stored[k] == chunks[k]
    {
      assert pending.Keys == {};
    }
  }

  lemma SizeSnoc(chunks: seq<bytes>, last: bytes, cs: nat)
    ensures AllOfSize(chunks, cs) && |last| == cs ==> AllOfSize(chunks + [last], cs)
  {
  }

  // ------------------------------------------------------------------ reading

  /** A chunk read ahead; no data is the error of a query that finds none. */
  datatype Cached = Cached(n: int, data: Option<bytes>)

  /** What a seek comes to: the offset asked for, "seek past end of file", the error of the query for a chunk
      that is not there, or a slice from a negative position. */
  datatype Sought = Moved | PastEnd | Missing | OutOfRange

  datatype Whence = FromStart | FromCurrent | FromEnd

  class FileReader {
    const chunkSize: nat
    const length: nat
    const chunks: map<nat, bytes>
    var chunk: int
    var offset: int
    var rbuf: bytes
    var rcache: Option<Cached>

    ghost const content: bytes

    /** The collection holds the file; before its end, rbuf is what lies between the offset and the end of
        the chunk last read; and what the cache holds is what a fetch would bring. */
    ghost predicate Valid()
      reads this
    {
      && chunkSize > 0 && Stored(chunks, content, chunkSize) && length == |content|
      && 0 <= offset <= length && 0 <= chunk
      && (offset < length ==> Buffered(content, chunkSize, chunk, offset, rbuf))
      && CacheIsRight()
    }

    /** What a query for a chunk brings. */
    function Fetched(n: int): Option<bytes>
    {
      if n >= 0 && n in chunks then Some(chunks[n]) else None
    }

    ghost predicate CacheIsRight()
      reads this
    {
      rcache.Some? ==> rcache.value.data == Fetched(rcache.value.n)
    }

    lemma StoredIsFetched(n: nat)
      requires Stored(chunks, content, chunkSize)
      ensures n * chunkSize < |content| ==> Fetched(n) == Some(ChunkOf(content, n, chunkSize))
      ensures n * chunkSize >= |content| ==> Fetched(n) == None
    {
      hide ChunkOf;
    }

    /** A file as opened for reading. */
    constructor (chunkSize: nat, chunks: map<nat, bytes>, length: nat, ghost content: bytes)
      requires chunkSize > 0 && Stored(chunks, content, chunkSize) && length == |content|
      ensures Valid() && offset == 0 && this.content == content
    {
      this.chunkSize, this.chunks, this.length, this.content := chunkSize, chunks, length, content;
      chunk, offset, rbuf, rcache := 0, 0, [], None;
    }

    /** getChunk: from the cache when it is for this chunk, and the next chunk is read ahead. */
    method GetChunk() returns (data: Option<bytes>)
      requires CacheIsRight()
      modifies this`chunk, this`rcache
      ensures data == Fetched(old(chunk)) && chunk == old(chunk) + 1 && CacheIsRight()
    {
      var cache := rcache;
      rcache := None;
      if cache.Some? && cache.value.n == chunk {
        data := cache.value.data;
      } else {
        data := Fetched(chunk);
      }
      chunk := chunk + 1;
      if chunk * chunkSize < length {
        rcache := Some(Cached(chunk, Fetched(chunk)));
      }
    }

    /** Seek. A position before the start is not checked: the first chunk is sliced out of range, and a chunk
        before it is not found. */
    method Seek(distance: int, whence: Whence) returns (r: Sought)
      requires Valid()
      modifies this
      ensures var target := distance + match whence case FromStart => 0 case FromCurrent => old(offset) case FromEnd => length;
              if target > length then r == PastEnd && offset == old(offset) && Valid()
              else if target >= 0 then r == Moved && offset == target && Valid()
              else r == if length > 0 && -target < chunkSize then OutOfRange else Missing
    {
      hide Valid;
      var target: int := distance;
      if whence == FromCurrent {
        target := target + offset;
      } else if whence == FromEnd {
        target := target + length;
      }
      if target > length {
        return PastEnd;
      }
      r := MoveTo(target);
    }

    /** The rest of Seek: the offset is not past the end. */
    method MoveTo(target: int) returns (r: Sought)
      requires Valid() && target <= length
      modifies this
      ensures target >= 0 ==> r == Moved && Valid() && offset == target
      ensures target < 0 ==> r == if length > 0 && -target < chunkSize then OutOfRange else Missing
    {
      hide Stored, ChunkOf, Buffered, ChunkIndex, Fetched;
      if target == length {
        offset := target;
        return Moved;
      }
      var c := if target >= 0 then ChunkIndex(target, chunkSize) else 0 - ChunkIndex(0 - target, chunkSize);
      if c + 1 == chunk && target >= offset {
        SkipWithin(content, chunkSize, chunk, offset, rbuf, target);
        rbuf := rbuf[target - offset..];
        offset := target;
        return Moved;
      }
      offset := target;
      chunk := c;
      rbuf := [];
      if target >= 0 {
        ChunkHolds(content, chunkSize, c, target);
        ChunkStart(target, chunkSize);
        StoredIsFetched(c);
      } else {
        BeforeStart(target, c);
      }
      var data := GetChunk();
      if data.None? {
        return Missing;
      }
      rbuf := data.value;
      if offset - c * chunkSize < 0 {
        return OutOfRange;
      }
      rbuf := rbuf[offset - c * chunkSize..];
      return Moved;
    }

    lemma BeforeStart(target: int, c: int)
      requires chunkSize > 0 && Stored(chunks, content, chunkSize) && length == |content|
      requires target < 0 && c == 0 - ChunkIndex(0 - target, chunkSize)
      ensures Fetched(c) == None || c == 0
      ensures c == 0 <==> -target < chunkSize
      ensures Fetched(0).Some? <==> length > 0
    {
      hide ChunkOf;
      ChunkStart(0 - target, chunkSize);
      assert 0 * chunkSize == 0;
      StoredIsFetched(0);
      if c == 0 {
        assert (0 - target) / chunkSize * chunkSize == 0;
      } else {
        assert (0 - target) / chunkSize >= 1;
        assert (0 - target) / chunkSize * chunkSize >= chunkSize;
      }
    }

    /** Read: fills b as far as the file goes; eof only when already at its end. */
    method Read(b: array<byte>) returns (n: nat, eof: bool)
      requires Valid()
      modifies this, b
      ensures Valid()
      ensures eof <==> old(offset) == length
      ensures n == Min(b.Length, length - old(offset)) && offset == old(offset) + n
      ensures b[..n] == content[old(offset)..old(offset) + n]
    {
      hide Stored, ChunkOf, Buffered, Fetched;
      n := 0;
      assert b[..0] == content[offset..offset];
      if offset == length {
        return 0, true;
      }
      ghost var start := offset;
      while true
        invariant Valid() && offset < length && offset == start + n && n <= b.Length
        invariant b[..n] == content[start..offset]
        decreases length - offset, if rbuf == [] then 1 else 0
      {
        var i := Min(b.Length - n, |rbuf|);
        TakeFrom(content, chunkSize, chunk, start, offset, rbuf, i);
        Fill(b, n, rbuf[..i]);
        n := n + i;
        offset := offset + i;
        var room := b.Length - n;
        rbuf := rbuf[i..];
        if room == 0 || offset == length {
          break;
        }
        NextChunk(content, chunkSize, chunk, offset);
        StoredIsFetched(chunk);
        var data := GetChunk();
        rbuf := data.value;
      }
      return n, false;
    }
  }

  /** rbuf is the part of the file from the offset to the end of the chunk before this one. */
  predicate Buffered(content: bytes, cs: nat, chunk: nat, offset: nat, rbuf: bytes)
  {
    var end := Min(chunk * cs, |content|);
    offset <= end && rbuf == content[offset..end]
  }

  /** The chunk an offset lies in. */
  function ChunkIndex(target: nat, cs: nat): nat
    requires cs > 0
  {
    target / cs
  }

  lemma SkipWithin(content: bytes, cs: nat, chunk: nat, offset: nat, rbuf: bytes, target: nat)
    requires cs > 0 && Buffered(content, cs, chunk, offset, rbuf)
    requires offset <= target < |content| && ChunkIndex(target, cs) + 1 == chunk
    ensures target - offset <= |rbuf| && Buffered(content, cs, chunk, target, rbuf[target - offset..])
  {
    ChunkStart(target, cs);
    assert chunk * cs == target / cs * cs + cs;
  }

  lemma ChunkStart(target: nat, cs: nat)
    requires cs > 0
    ensures target / cs * cs <= target < target / cs * cs + cs
  {
    assert target == target / cs * cs + target % cs;
  }

  lemma ChunkHolds(content: bytes, cs: nat, c: nat, target: nat)
    requires cs > 0 && c == ChunkIndex(target, cs) && target < |content|
    ensures c * cs <= target && c * cs <= |content| && target - c * cs <= |ChunkOf(content, c, cs)|
    ensures Buffered(content, cs, c + 1, target, ChunkOf(content, c, cs)[target - c * cs..])
  {
    ChunkStart(target, cs);
    assert (c + 1) * cs == c * cs + cs;
  }

  lemma TakeFrom(content: bytes, cs: nat, chunk: nat, start: nat, offset: nat, rbuf: bytes, i: nat)
    requires Buffered(content, cs, chunk, offset, rbuf) && start <= offset && i <= |rbuf|
    ensures offset + i <= |content| && Buffered(content, cs, chunk, offset + i, rbuf[i..])
    ensures content[start..offset] + rbuf[..i] == content[start..offset + i]
    ensures i == |rbuf| && offset + i < |content| ==> offset + i == chunk * cs
  {
  }

  lemma NextChunk(content: bytes, cs: nat, chunk: nat, offset: nat)
    requires cs > 0 && offset == chunk * cs < |content|
    ensures Buffered(content, cs, chunk + 1, offset, ChunkOf(content, chunk, cs))
    ensures ChunkOf(content, chunk, cs) != []
  {
    assert (chunk + 1) * cs == chunk * cs + cs;
  }

  /** copy into b from n on. */
  method Fill(b: array<byte>, n: nat, data: bytes)
    requires n + |data| <= b.Length
    modifies b
    ensures b[..n + |data|] == old(b[..n]) + data
  {
    forall i | 0 <= i < |data| {
      b[n + i] := data[i];
    }
  }

  lemma Regroup(flat: bytes, wbuf: bytes, data: bytes, k: nat)
    requires k <= |data|
    ensures flat + wbuf + data == flat + (wbuf + data[..k]) + data[k..]
    ensures data[k..] == [] ==> flat + wbuf + data == flat + (wbuf + data)
    ensures wbuf == [] ==> flat + wbuf + data == flat + data == flat + data[..k] + data[k..]
  {
    assert data == data[..k] + data[k..];
  }

  lemma LastChunk(chunks: seq<bytes>, wbuf: bytes, cs: nat)
    requires cs > 0 && AllOfSize(chunks, cs) && |wbuf| <= cs
    ensures CutRight(chunks, cs) && (wbuf != [] ==> CutRight(chunks + [wbuf], cs))
  {
    assert (chunks + [wbuf])[..|chunks|] == chunks;
  }

  /** The chunks of what has been written: those handed over, and one more for what is held. */
  lemma ChunkCount(chunks: seq<bytes>, wbuf: bytes, cs: nat)
    requires cs > 0 && AllOfSize(chunks, cs) && |wbuf| <= cs
    ensures Count(|Flatten(chunks) + wbuf|, cs) == |chunks| + if wbuf == [] then 0 else 1
  {
    hide Flatten, CutRight, Count;
    LastChunk(chunks, wbuf, cs);
    FlattenSnoc(chunks, wbuf);
    var all := if wbuf == [] then chunks else chunks + [wbuf];
    assert Flatten(all) == Flatten(chunks) + wbuf;
    var n, c := |all|, Count(|Flatten(all)|, cs);
    ChunkInFlat(all, cs, n);
    CountIsRight(|Flatten(all)|, cs, n);
    if n < c || n > c {
      ChunkInFlat(all, cs, c);
      CountIsRight(|Flatten(all)|, cs, c);
    }
  }

  /** When nothing is under way any more, the collection holds the file. */
  lemma AllStored(stored: map<nat, bytes>, chunks: seq<bytes>, cs: nat)
    requires cs > 0 && CutRight(chunks, cs)
    requires forall k: nat :: k in stored <==> k < |chunks|
    requires forall k: nat :: k in stored ==> stored[k] == chunks[k]
    ensures Stored(stored, Flatten(chunks), cs)
  {
    hide ChunkOf, CutRight;
    forall n: nat
      ensures n in stored <==> n * cs < |Flatten(chunks)|
      ensures n in stored ==> stored[n] == ChunkOf(Flatten(chunks), n, cs)
    {
      ChunkInFlat(chunks, cs, n);
    }
  }

  lemma OneLess(a: map<nat, bytes>, b: map<nat, bytes>, k: nat)
    requires k in a && b.Keys == a.Keys - {k}
    ensures |b| == |a| - 1
  {
    assert |a.Keys| == |b.Keys| + 1;
    assert |a| == |a.Keys| && |b| == |b.Keys|;
  }

  lemma OneMore(a: map<nat, bytes>, k: nat, data: bytes)
    requires k !in a
    ensures |a[k := data]| == |a| + 1
  {
    assert a[k := data].Keys == a.Keys + {k};
    assert |a| == |a.Keys| && |a[k := data]| == |a[k := data].Keys|;
  }
}
