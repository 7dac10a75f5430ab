/** The prefetch buffer of one file handle: a chain of chunks ahead of the reader and a window of bytes behind. */
module Prefetch {
  import opened Options

  newtype Byte = x: int | 0 <= x < 256

  const INITIAL_WINDOW: nat := 8 * 1048576
  const MAX_WINDOW: nat := 128 * 1048576
  const SEEK_WINDOW: nat := 1048576
  const FORWARD_SKIP: nat := 16 * 1048576

  datatype Strategy = StartStream | ContinueStream | RangeDownload

  datatype FetchPlan = FetchPlan(strategy: Strategy, fetchSize: nat)

  /** What a download delivered. */
  datatype Fetched = Fetched(chunks: seq<seq<Byte>>, total: nat) | FetchFailed

  datatype ReadResult = Data(bytes: seq<Byte>, eof: bool) | ReadError

  function Min(a: nat, b: nat): nat { if a <= b then a else b }
  function Max(a: nat, b: nat): nat { if a <= b then b else a }

  function Flat(chunks: seq<seq<Byte>>): seq<Byte> {
    if chunks == [] then [] else chunks[0] + Flat(chunks[1..])
  }

  lemma {:induction false} FlatAppend(a: seq<seq<Byte>>, b: seq<seq<Byte>>)
    ensures Flat(a + b) == Flat(a) + Flat(b)
  {
    if a == [] {
      assert a + b == b;
    } else {
      assert (a + b)[1..] == a[1..] + b;
      FlatAppend(a[1..], b);
    }
  }

  lemma FlatOne(chunk: seq<Byte>)
    ensures Flat([chunk]) == chunk
  {
  }

  /** The unread part of a chain whose first chunk is partly consumed. */
  function Unread(chunks: seq<seq<Byte>>, front: nat): (r: seq<Byte>)
    requires FrontOk(chunks, front)
    ensures chunks == [] ==> r == []
    ensures chunks != [] ==> r == chunks[0][front..] + Flat(chunks[1..])
  {
    Flat(chunks)[front..]
  }

  predicate FrontOk(chunks: seq<seq<Byte>>, front: nat) {
    if chunks == [] then front == 0 else front <= |chunks[0]|
  }

  lemma SliceOfSlice(s: seq<Byte>, a: nat, c: nat, d: nat)
    requires a <= |s| && c <= d <= |s| - a
    ensures s[a..][c..d] == s[a + c..a + d] && s[a..][c..] == s[a + c..]
  {
  }

  /** `data` are the bytes of the file from `start` on. */
  ghost predicate SliceAt(file: seq<Byte>, start: nat, data: seq<Byte>) {
    start + |data| <= |file| && data == file[start..start + |data|]
  }

  lemma PartOfSlice(file: seq<Byte>, start: nat, data: seq<Byte>, c: nat, d: nat)
    requires SliceAt(file, start, data) && c <= d <= |data|
    ensures SliceAt(file, start + c, data[c..d]) && SliceAt(file, start + c, data[c..])
    ensures data[c..d] == file[start + c..start + d]
  {
    forall k | 0 <= k < |data| ensures data[k] == file[start + k] {
      assert file[start..start + |data|][k] == file[start + k];
    }
    assert data[c..] == file[start + c..start + |data|];
    assert data[c..d] == file[start + c..start + d];
    assert |data[c..d]| == d - c;
  }

  lemma JoinSlices(file: seq<Byte>, start: nat, a: seq<Byte>, b: seq<Byte>)
    requires SliceAt(file, start, a) && SliceAt(file, start + |a|, b)
    ensures SliceAt(file, start, a + b)
  {
  }

  lemma PopFront(chunks: seq<seq<Byte>>, front: nat)
    requires chunks != [] && FrontOk(chunks, front)
    ensures |chunks[0]| - front <= |Unread(chunks, front)|
    ensures FrontOk(chunks[1..], 0) && Unread(chunks[1..], 0) == Unread(chunks, front)[|chunks[0]| - front..]
  {
  }

  lemma AdvanceFront(chunks: seq<seq<Byte>>, front: nat, n: nat)
    requires chunks != [] && FrontOk(chunks, front) && front + n <= |chunks[0]|
    ensures n <= |Unread(chunks, front)|
    ensures Unread(chunks, front + n) == Unread(chunks, front)[n..]
  {
  }

  // ----- Reading from the chain ---------------------------------------------------------------

  ghost function Cut(s: seq<Byte>, off: nat, count: nat): seq<Byte>
    requires off + count <= |s|
  {
    s[off..off + count]
  }

  /** The bytes `[skip, skip + count)` of the unread chain, across chunk boundaries. */
  method ReadChunkRange(chunks: seq<seq<Byte>>, front: nat, skip: nat, count: nat) returns (out: seq<Byte>)
    requires FrontOk(chunks, front) && skip + count <= |Unread(chunks, front)|
    ensures out == Unread(chunks, front)[skip..skip + count]
  {
    if count == 0 { return []; }
    out := CutFrom(chunks, front, skip, count);
  }

  method CutFrom(chunks: seq<seq<Byte>>, front: nat, skip: nat, count: nat) returns (out: seq<Byte>)
    requires FrontOk(chunks, front) && 0 < count && skip + count <= |Unread(chunks, front)|
    ensures out == Cut(Unread(chunks, front), skip, count)
  {
    hide Unread, Rest, Flat, Cut;
    var logicalOff: nat := skip;
    RestStarts(chunks, front);
    for i := 0 to |chunks|
      invariant logicalOff + count <= |Rest(chunks, front, i)|
      invariant Cut(Rest(chunks, front, i), logicalOff, count) == Cut(Unread(chunks, front), skip, count)
    {
      RestSteps(chunks, front, i);
      var start := if i == 0 then front else 0;
      var eff: nat := |chunks[i]| - start;
      if logicalOff < eff {
        out := ReadAcross(chunks[i][start..], chunks[i + 1..], logicalOff, count);
        return;
      }
      LaterInSum(chunks[i][start..], Flat(chunks[i + 1..]), logicalOff, count);
      logicalOff := logicalOff - eff;
    }
    RestEnds(chunks, front);
    out := [];
  }

  /** Reads from one chunk, and from those after it when it is too short. */
  method ReadAcross(chunk: seq<Byte>, more: seq<seq<Byte>>, off: nat, count: nat) returns (out: seq<Byte>)
    requires off < |chunk| && 0 < count && off + count <= |chunk| + |Flat(more)|
    ensures out == Cut(chunk + Flat(more), off, count)
  {
    hide Flat;
    SliceOfSum(chunk, Flat(more), off, count);
    var avail: nat := |chunk| - off;
    if count <= avail { return chunk[off..off + count]; }
    var tail := TakeFrom(more, count - avail);
    out := chunk[off..] + tail;
  }

  /** What is left of the unread chain from chunk `i` on. */
  ghost function Rest(chunks: seq<seq<Byte>>, front: nat, i: nat): seq<Byte>
    requires FrontOk(chunks, front) && i <= |chunks|
  {
    if i == 0 then Unread(chunks, front) else Flat(chunks[i..])
  }

  lemma RestSteps(chunks: seq<seq<Byte>>, front: nat, i: nat)
    requires FrontOk(chunks, front) && i < |chunks|
    ensures i == 0 ==> front <= |chunks[0]|
    ensures Rest(chunks, front, i) == chunks[i][if i == 0 then front else 0..] + Flat(chunks[i + 1..])
    ensures Rest(chunks, front, i + 1) == Flat(chunks[i + 1..])
  {
    assert chunks[i..][1..] == chunks[i + 1..];
  }

  lemma RestStarts(chunks: seq<seq<Byte>>, front: nat)
    requires FrontOk(chunks, front)
    ensures Rest(chunks, front, 0) == Unread(chunks, front)
  {
  }

  lemma RestEnds(chunks: seq<seq<Byte>>, front: nat)
    requires FrontOk(chunks, front)
    ensures Rest(chunks, front, |chunks|) == []
  {
  }

  lemma LaterInSum(a: seq<Byte>, b: seq<Byte>, off: nat, count: nat)
    requires |a| <= off && off + count <= |a + b|
    ensures off - |a| + count <= |b| && Cut(a + b, off, count) == Cut(b, off - |a|, count)
  {
  }

  lemma SliceOfSum(a: seq<Byte>, b: seq<Byte>, off: nat, count: nat)
    requires off + count <= |a| + |b|
    ensures off >= |a| ==> (a + b)[off..off + count] == b[off - |a|..off - |a| + count]
    ensures off < |a| && off + count <= |a| ==> (a + b)[off..off + count] == a[off..off + count]
    ensures off < |a| && off + count > |a| ==> (a + b)[off..off + count] == a[off..] + b[..off + count - |a|]
  {
  }

  lemma FlatNext(chunks: seq<seq<Byte>>, i: nat)
    requires i < |chunks|
    ensures Flat(chunks[i..]) == chunks[i] + Flat(chunks[i + 1..])
  {
    assert chunks[i..][1..] == chunks[i + 1..];
  }

  lemma FlatEnd(chunks: seq<seq<Byte>>)
    ensures Flat(chunks[|chunks|..]) == []
  {
  }

  /** The first `count` bytes of a chain. */
  method TakeFrom(chunks: seq<seq<Byte>>, count: nat) returns (out: seq<Byte>)
    requires 0 < count <= |Flat(chunks)|
    ensures out == Flat(chunks)[..count]
  {
    hide Flat;
    out := [];
    var remaining := count;
    assert chunks[0..] == chunks;
    FlatEnd(chunks);
    for i := 0 to |chunks|
      invariant |out| + remaining == count && remaining > 0
      invariant remaining <= |Flat(chunks[i..])|
      invariant out + Flat(chunks[i..])[..remaining] == Flat(chunks)[..count]
    {
      var take := Min(remaining, |chunks[i]|);
      FlatNext(chunks, i);
      assert Flat(chunks[i..])[..remaining] == chunks[i][..take] + Flat(chunks[i + 1..])[..remaining - take];
      out := out + chunks[i][..take];
      remaining := remaining - take;
      if remaining == 0 { return; }
    }
  }

  function Sum(sizes: seq<nat>): nat {
    if sizes == [] then 0 else Sum(sizes[..|sizes| - 1]) + sizes[|sizes| - 1]
  }

  lemma SliceOfFile(file: seq<Byte>, pos: nat, len: nat)
    requires pos + len <= |file|
    ensures SliceAt(file, pos, file[pos..pos + len]) && file[pos..pos] == []
  {
  }

  lemma Empties(sizes: seq<nat>)
    ensures Flat([]) == [] && Sum(sizes[..0]) == 0 && Sum([]) == 0
  {
  }

  lemma SumNext(sizes: seq<nat>, k: nat)
    requires k < |sizes|
    ensures Sum(sizes[..k + 1]) == Sum(sizes[..k]) + sizes[k]
  {
    assert sizes[..k + 1][..k] == sizes[..k];
  }

  class PrefetchState {
    const fileSize: nat
    const forwardOnly: bool
    /** The content of the remote file, which only downloads look at. */
    const file: seq<Byte>
    var chunks: seq<seq<Byte>>
    var chunksLen: nat
    var frontOffset: nat
    var bufStart: nat
    var seekData: seq<Byte>
    var seekStart: nat
    var windowSize: nat
    /** The position of the open download stream. */
    var stream: Option<nat>

    /** Buffer and window are slices of the file, the window is bounded, and the adaptive window is in range. */
    ghost predicate BuffersOk()
      reads this
    {
      && fileSize == |file|
      && FrontOk(chunks, frontOffset)
      && chunksLen == |Unread(chunks, frontOffset)|
      && SliceAt(file, bufStart, Unread(chunks, frontOffset))
      && SliceAt(file, seekStart, seekData)
      && |seekData| <= SEEK_WINDOW
      && INITIAL_WINDOW <= windowSize <= MAX_WINDOW
    }

    /** An open stream stands exactly at the end of the buffer. */
    ghost predicate Valid()
      reads this
    {
      BuffersOk() && (stream.Some? ==> stream.value == bufStart + chunksLen)
    }

    constructor (contents: seq<Byte>, size: nat, directIo: bool)
      requires size == |contents|
      ensures Valid() && file == contents && chunksLen == 0 && forwardOnly == directIo
    {
      fileSize, forwardOnly, file := size, directIo, contents;
      chunks, chunksLen, frontOffset, bufStart := [], 0, 0, 0;
      seekData, seekStart, windowSize, stream := [], 0, INITIAL_WINDOW, None;
    }

    lemma BuffersInFile(start: nat, data: seq<Byte>)
      requires SliceAt(file, start, data)
      ensures start + |data| <= |file|
    {
    }

    // ----- draining -----------------------------------------------------------------------

    /** Consumed bytes move to the seek window, which afterwards ends where the buffer begins: a window that
        reached up to the buffer grows by them, within its bound, and any other starts anew with the last of
        them. */
    method DrainToSeek(consumed: nat)
      requires Valid()
      modifies this`chunks, this`chunksLen, this`frontOffset, this`bufStart, this`seekData, this`seekStart
      ensures Valid()
      ensures var moved := Min(consumed, old(chunksLen));
              bufStart == old(bufStart) + moved && chunksLen == old(chunksLen) - moved
      ensures consumed > 0 && !forwardOnly ==> seekStart + |seekData| == bufStart
      ensures consumed > 0 && !forwardOnly ==>
        var moved, was := Min(consumed, old(chunksLen)), |old(seekData)|;
        |seekData| == if was > 0 && old(seekStart) + was == old(bufStart) && moved <= SEEK_WINDOW
                      then Min(was + moved, SEEK_WINDOW) else Min(moved, SEEK_WINDOW)
      ensures forwardOnly || consumed == 0 ==> seekData == old(seekData) && seekStart == old(seekStart)
    {
      hide SliceAt, Unread, FrontOk;
      if consumed == 0 { return; }
      var toMove := Min(consumed, chunksLen);
      if !forwardOnly { FillSeek(toMove); }
      PartOfSlice(file, bufStart, Unread(chunks, frontOffset), toMove, chunksLen);
      PopConsumed(toMove);
      bufStart := bufStart + toMove;
    }

    method FillSeek(toMove: nat)
      requires Valid() && toMove <= chunksLen
      modifies this`seekData, this`seekStart
      ensures Valid() && seekStart + |seekData| == bufStart + toMove
      ensures var was := |old(seekData)|;
              |seekData| == if was > 0 && old(seekStart) + was == bufStart && toMove <= SEEK_WINDOW
                            then Min(was + toMove, SEEK_WINDOW) else Min(toMove, SEEK_WINDOW)
    {
      hide SliceAt, Unread, FrontOk;
      var seekEnd := seekStart + |seekData|;
      var contiguous := seekData != [] && seekEnd == bufStart;
      if contiguous && toMove <= SEEK_WINDOW {
        var data := ReadChunkRange(chunks, frontOffset, 0, toMove);
        PartOfSlice(file, bufStart, Unread(chunks, frontOffset), 0, toMove);
        JoinSlices(file, seekStart, seekData, data);
        seekData := seekData + data;
        if |seekData| > SEEK_WINDOW {
          var excess: nat := |seekData| - SEEK_WINDOW;
          PartOfSlice(file, seekStart, seekData, excess, |seekData|);
          seekData := seekData[excess..];
          seekStart := seekStart + excess;
        }
      } else {
        var keep := Min(toMove, SEEK_WINDOW);
        var data := ReadChunkRange(chunks, frontOffset, toMove - keep, keep);
        PartOfSlice(file, bufStart, Unread(chunks, frontOffset), toMove - keep, toMove);
        seekStart := bufStart + (toMove - keep);
        seekData := data;
      }
    }

    method PopConsumed(toMove: nat)
      requires BuffersOk() && toMove <= chunksLen
      modifies this`chunks, this`chunksLen, this`frontOffset
      ensures FrontOk(chunks, frontOffset) && chunksLen == old(chunksLen) - toMove
      ensures Unread(chunks, frontOffset) == Unread(old(chunks), old(frontOffset))[toMove..]
    {
      hide Unread, Flat, SliceAt;
      ghost var all := Unread(chunks, frontOffset);
      var remaining: nat := toMove;
      while remaining > 0 && chunks != []
        invariant FrontOk(chunks, frontOffset) && remaining <= chunksLen && remaining <= toMove
        invariant chunksLen == |Unread(chunks, frontOffset)| && chunksLen == old(chunksLen) - (toMove - remaining)
        invariant Unread(chunks, frontOffset) == all[toMove - remaining..]
        decreases |chunks|, remaining
      {
        var eff: nat := |chunks[0]| - frontOffset;
        if remaining >= eff {
          PopFront(chunks, frontOffset);
          SliceOfSlice(all, toMove - remaining, eff, eff);
          chunks := chunks[1..];
          chunksLen := chunksLen - eff;
          frontOffset := 0;
          remaining := remaining - eff;
        } else {
          AdvanceFront(chunks, frontOffset, remaining);
          SliceOfSlice(all, toMove - remaining, remaining, remaining);
          frontOffset := frontOffset + remaining;
          chunksLen := chunksLen - remaining;
          remaining := 0;
        }
      }
    }

    // ----- serving -------------------------------------------------------------------------

    /** Serves from the buffer: the file's own bytes, as many as asked for and buffered. */
    method TryServeForward(offset: nat, size: nat) returns (r: Option<seq<Byte>>)
      requires Valid()
      modifies this`chunks, this`chunksLen, this`frontOffset, this`bufStart, this`seekData, this`seekStart
      ensures Valid()
      ensures r.Some? <==> old(bufStart) <= offset < old(bufStart) + old(chunksLen)
      ensures r.Some? ==>
        var n := Min(size, old(bufStart) + old(chunksLen) - offset);
        r.value == file[offset..offset + n]
      ensures r.None? || !forwardOnly ==>
        bufStart == old(bufStart) && chunksLen == old(chunksLen) && seekData == old(seekData)
            && seekStart == old(seekStart)
      ensures r.Some? && forwardOnly && size > 0 ==> bufStart == offset + |r.value|
    {
      if chunksLen == 0 { return None; }
      var bufEnd := bufStart + chunksLen;
      if offset < bufStart || offset >= bufEnd { return None; }
      var logicalOff := offset - bufStart;
      var toRead := Min(size, chunksLen - logicalOff);
      var data := ReadChunkRange(chunks, frontOffset, logicalOff, toRead);
      PartOfSlice(file, bufStart, Unread(chunks, frontOffset), logicalOff, logicalOff + toRead);
      hide SliceAt, Unread, FrontOk;
      if forwardOnly && toRead > 0 { DrainToSeek(logicalOff + toRead); }
      r := Some(data);
    }

    method TryServeSeek(offset: nat, size: nat) returns (r: Option<seq<Byte>>)
      requires Valid()
      ensures r.Some? <==> !forwardOnly && seekStart <= offset < seekStart + |seekData|
      ensures r.Some? ==> var n := Min(size, seekStart + |seekData| - offset); r.value == file[offset..offset + n]
    {
      if forwardOnly || seekData == [] { return None; }
      var seekEnd := seekStart + |seekData|;
      if seekStart <= offset < seekEnd {
        var localOff := offset - seekStart;
        var toRead := Min(size, |seekData| - localOff);
        PartOfSlice(file, seekStart, seekData, localOff, localOff + toRead);
        r := Some(seekData[localOff..localOff + toRead]);
      } else {
        r := None;
      }
    }

    // ----- fetching ------------------------------------------------------------------------

    /** Classifies the access and sizes the download.  An existing stream is only continued at the exact end
        of what it has delivered. */
    method PrepareFetch(offset: nat, size: nat) returns (plan: FetchPlan)
      requires Valid() && offset <= fileSize
      modifies this
      ensures Valid()
      ensures bufStart + chunksLen == old(bufStart) + old(chunksLen)
      ensures plan.fetchSize <= fileSize - offset && plan.fetchSize >= Min(size, fileSize - offset)
      ensures plan.strategy.RangeDownload? ==> plan.fetchSize == Min(size, fileSize - offset)
      ensures !plan.strategy.RangeDownload? ==> plan.fetchSize == Min(Max(size, windowSize), fileSize - offset)
      ensures old(chunksLen) > 0 && offset >= old(bufStart) ==>
        chunksLen == 0 && bufStart == old(bufStart) + old(chunksLen)
      ensures old(chunksLen) == 0 || offset < old(bufStart) ==> chunksLen == old(chunksLen) && bufStart == old(bufStart)
      ensures plan.strategy.ContinueStream? <==>
        offset == old(bufStart) + old(chunksLen)
            && !(old(stream).None? && offset == 0 && old(bufStart) + old(chunksLen) == 0)
      ensures plan.strategy.ContinueStream? ==> stream == old(stream)
      ensures !plan.strategy.ContinueStream? ==> stream == None
      ensures !(old(chunksLen) == 0 && old(bufStart) == 0) ==>
        var end := old(bufStart) + old(chunksLen);
        && (plan.strategy.RangeDownload? <==> !(end <= offset <= end + FORWARD_SKIP))
        && windowSize == if plan.strategy.RangeDownload? then INITIAL_WINDOW else Min(2 * old(windowSize), MAX_WINDOW)
      ensures old(chunksLen) == 0 && old(bufStart) == 0 ==>
        !plan.strategy.RangeDownload? && windowSize == old(windowSize)
    {
      hide SliceAt, Unread, FrontOk;
      BuffersInFile(bufStart, Unread(chunks, frontOffset));
      var oldBufEnd := bufStart + chunksLen;
      var isFirstFetch := chunksLen == 0 && bufStart == 0;
      if chunksLen > 0 {
        var consumed := if offset >= bufStart then chunksLen else 0;
        DrainToSeek(consumed);
      }
      var isSequential;
      if isFirstFetch {
        isSequential := true;
      } else if oldBufEnd <= offset <= oldBufEnd + FORWARD_SKIP {
        windowSize := Min(windowSize * 2, MAX_WINDOW);
        isSequential := true;
      } else {
        windowSize := INITIAL_WINDOW;
        isSequential := false;
      }
      var strategy;
      if isSequential {
        if offset == bufStart {
          strategy := if stream.None? && isFirstFetch && offset == 0 then StartStream else ContinueStream;
        } else {
          stream := None;
          strategy := StartStream;
        }
      } else {
        stream := None;
        strategy := RangeDownload;
      }
      var needed := Min(size, fileSize - offset);
      var wanted := if strategy == RangeDownload then needed else Max(needed, windowSize);
      plan := FetchPlan(strategy, Min(wanted, fileSize - offset));
    }

    method StoreFetched(offset: nat, fetched: seq<seq<Byte>>, total: nat)
      requires BuffersOk() && total == |Flat(fetched)| && offset + total <= |file|
      requires Flat(fetched) == file[offset..offset + total]
      requires stream.Some? ==> stream.value == offset + total
      modifies this`chunks, this`chunksLen, this`frontOffset, this`bufStart
      ensures Valid() && bufStart == offset && chunksLen == total
    {
      chunks, chunksLen, frontOffset, bufStart := fetched, total, 0, offset;
    }

    // ----- reading -------------------------------------------------------------------------

    /** One download: the chunks that the stream delivers, until enough arrived or the stream ends.  The
        environment decides the chunk sizes and where the stream fails. */
    method FetchData(cursor: nat, plan: FetchPlan, sizes: seq<nat>) returns (r: Fetched)
      requires Valid() && 0 < plan.fetchSize && cursor + plan.fetchSize <= fileSize
      requires plan.strategy.ContinueStream? ==> cursor == bufStart + chunksLen
      requires !plan.strategy.ContinueStream? ==> stream == None
      modifies this`stream
      ensures BuffersOk() && (r.FetchFailed? ==> Valid())
      ensures sizes != [] && sizes[0] > 0 ==> r.Fetched?
      ensures r.Fetched? && Sum(sizes) >= plan.fetchSize ==> r.total >= plan.fetchSize
      ensures r.Fetched? ==>
        && r.total > 0 && r.total == |Flat(r.chunks)| && SliceAt(file, cursor, Flat(r.chunks))
        && (stream.Some? ==> stream.value == cursor + r.total)
        && exists n: nat :: n <= |sizes|
             && (n < |sizes| ==> Sum(sizes[..n]) >= plan.fetchSize)
             && (forall j :: 0 <= j < n ==> Sum(sizes[..j]) < plan.fetchSize)
             && r.total == Min(Sum(sizes[..n]),
                               if plan.strategy == RangeDownload then plan.fetchSize else fileSize - cursor)
      ensures stream.Some? <==> r.Fetched? && r.total >= plan.fetchSize && plan.strategy != RangeDownload
    {
      hide Unread, FrontOk, Flat, Sum, SliceAt;
      Empties(sizes);
      SliceOfFile(file, cursor, 0);
      var limit := if plan.strategy == RangeDownload then cursor + plan.fetchSize else fileSize;
      var pos: nat := if plan.strategy != RangeDownload && stream.Some? then stream.value else cursor;
      stream := None;
      var chunks, total: nat := [], 0;
      var k := 0;
      while total < plan.fetchSize && k < |sizes|
        invariant total == |Flat(chunks)| && pos == cursor + total && pos <= limit <= |file|
        invariant SliceAt(file, cursor, Flat(chunks))
        invariant stream == None && k <= |sizes|
        invariant total == Min(Sum(sizes[..k]), limit - cursor)
        invariant forall j :: 0 <= j < k ==> Sum(sizes[..j]) < plan.fetchSize
        invariant k > 0 && sizes[0] > 0 ==> total > 0
        decreases |sizes| - k
      {
        SumNext(sizes, k);
        var len := Min(sizes[k], limit - pos);
        ghost var chunk := file[pos..pos + len];
        FlatAppend(chunks, [chunk]);
        FlatOne(chunk);
        SliceOfFile(file, pos, len);
        JoinSlices(file, cursor, Flat(chunks), chunk);
        var delivered := Download(pos, len);
        chunks := chunks + [delivered];
        total := total + len;
        pos := pos + len;
        k := k + 1;
      }
      assert sizes[..|sizes|] == sizes;
      if total >= plan.fetchSize && plan.strategy != RangeDownload { stream := Some(pos); }
      r := if total > 0 then Fetched(chunks, total) else FetchFailed;
    }

    /** The remote content store. */
    method Download(pos: nat, len: nat) returns (chunk: seq<Byte>)
      requires pos + len <= |file|
      ensures chunk == file[pos..pos + len]
    {
      chunk := file[pos..pos + len];
    }

    /** A read of a remote file.  Whatever is in the buffers and however the downloads are cut: the bytes are
        the file's own, none is missing before the end of the file, and the end is reported exactly. */
    method Read(offset: nat, size: nat, downloads: seq<seq<nat>>) returns (r: ReadResult)
      requires Valid()
      modifies this
      ensures Valid()
      ensures offset >= fileSize ==> r == Data([], true)
      ensures offset < fileSize && r.Data? ==>
        var end := offset + Min(size, fileSize - offset);
        r.bytes == file[offset..end] && (r.eof <==> end == fileSize)
      ensures |downloads| >= size && (forall d :: d in downloads ==> d != [] && d[0] > 0) ==> r.Data?
    {
      if offset >= fileSize { return Data([], true); }
      var toRead := Min(size, fileSize - offset);
      var response := FromBuffers(offset, size, toRead);
      var cursor := offset + |response|;
      var k := 0;
      while |response| < toRead
        invariant Valid() && |response| <= toRead && cursor == offset + |response| && k <= |downloads|
        invariant SliceAt(file, offset, response) && k <= |response|
        decreases toRead - |response|
      {
        if k == |downloads| { return ReadError; }
        assert downloads[k] in downloads;
        var data := FetchMore(cursor, toRead - |response|, downloads[k]);
        if data.None? { return ReadError; }
        JoinSlices(file, offset, response, data.value);
        cursor := cursor + |data.value|;
        response := response + data.value;
        k := k + 1;
      }
      assert response == file[offset..offset + toRead];
      r := Data(response, cursor == fileSize);
    }

    /** The forward buffer first, then the seek window. */
    method FromBuffers(offset: nat, size: nat, toRead: nat) returns (data: seq<Byte>)
      requires Valid() && offset < fileSize && toRead == Min(size, fileSize - offset)
      modifies this`chunks, this`chunksLen, this`frontOffset, this`bufStart, this`seekData, this`seekStart
      ensures Valid() && |data| <= toRead && SliceAt(file, offset, data)
    {
      hide Unread, FrontOk;
      BuffersInFile(bufStart, Unread(chunks, frontOffset));
      BuffersInFile(seekStart, seekData);
      var forward := TryServeForward(offset, size);
      if forward.Some? { return forward.value; }
      var back := TryServeSeek(offset, size);
      data := back.UnwrapOr([]);
    }

    /** One turn of the assembly loop: plan, download, store, serve. */
    method FetchMore(cursor: nat, remaining: nat, sizes: seq<nat>) returns (data: Option<seq<Byte>>)
      requires Valid() && 0 < remaining && cursor + remaining <= fileSize
      modifies this
      ensures Valid()
      ensures data.Some? ==> 0 < |data.value| <= remaining && SliceAt(file, cursor, data.value)
      ensures sizes != [] && sizes[0] > 0 ==> data.Some?
    {
      hide Unread, FrontOk, Flat;
      var plan := PrepareFetch(cursor, remaining);
      var fetched := FetchData(cursor, plan, sizes);
      if fetched.FetchFailed? { return None; }
      BuffersInFile(cursor, Flat(fetched.chunks));
      StoreFetched(cursor, fetched.chunks, fetched.total);
      data := TryServeForward(cursor, remaining);
    }
  }
}
