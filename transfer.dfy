/** The body of `download` in `mget/core.py`: take the size from the reply,
    settle the target file name, then stream the reply into the file chunk by
    chunk while drawing a progress bar before each chunk and a full bar once
    the counter reaches the size. The reply, the listing of the working
    directory and the absolute output path are parameters; the file and the
    terminal are the out-parameters `data` and `renders`. */
module Transfer {
  import opened Base
  import opened Strings
  import opened Naming
  import opened Progress

  /** `defaults["chunk_size"]`, both the size asked of `iter_content` and the
      step of the progress counter. */
  const ChunkSize: nat := 1024 * 1024

  /** The bar width `download` passes to `progressBar`. */
  const BarWidth: nat := 80

  /** `defaults["prefix"]`; the suffix is `progressBar`'s default. */
  const Prefix: string := ""
  const Suffix: string := ""

  /** One call `progressBar(curr, total, 80, prefix)`. */
  function Frame(curr: int, total: int): (r: Result<string>)
    ensures r.Failure? <==> total == 0
  {
    ProgressBar(curr, total, BarWidth, Prefix, Suffix)
  }

  /** The closing `progressBar(100, 100, 80, prefix)`: a completely filled
      bar at 100%. */
  function FullFrame(): (r: string)
    ensures r == "\r" + Prefix + " |" + Repeat(FullCell, BarWidth) + "| " + "100" + "% " + Suffix
  {
    ProgressBarComplete(BarWidth, Prefix, Suffix);
    Frame(100, 100).value
  }

  /** The value the counter holds when it is drawn before chunk `k` (counting
      from 0): the clamped counter `min(k * C, total)`. */
  function Shown(k: nat, total: int): (r: int)
    ensures r <= k * ChunkSize && r <= total
    ensures r == k * ChunkSize || r == total
    ensures total >= 0 ==> r >= 0
  {
    Min(k * ChunkSize, total)
  }

  /** The counter once `n` chunks have gone through the loop: drawn value of
      the last chunk plus one step. Clamping it gives the value drawn before
      chunk `n`. */
  function Counter(n: nat, total: int): (r: int)
    ensures Min(r, total) == Shown(n, total)
  {
    if n == 0 then 0
    else
      assert (n - 1) * ChunkSize + ChunkSize == n * ChunkSize;
      Shown(n - 1, total) + ChunkSize
  }

  /** The lines drawn inside the loop for the first `n` chunks. With a total
      of 0 the first draw raises, so `n` must then be 0. */
  function LoopRenders(total: int, n: nat): (r: seq<string>)
    requires total != 0 || n == 0
    ensures |r| == n
  {
    if n == 0 then [] else LoopRenders(total, n - 1) + [Frame(Shown(n - 1, total), total).value]
  }

  /** Everything drawn by a completed download of `n` chunks: the loop's lines
      and, when the counter reaches the size, the full bar. */
  function ExpectedRenders(total: int, n: nat): (r: seq<string>)
    requires total != 0 || n == 0
    ensures |r| == n + (if n * ChunkSize >= total then 1 else 0)
  {
    LoopRenders(total, n) + (if n * ChunkSize >= total then [FullFrame()] else [])
  }

  /** The bytes of the chunks, written one after the other. */
  function Concat(chunks: seq<seq<byte>>): seq<byte> {
    if |chunks| == 0 then [] else Concat(chunks[..|chunks| - 1]) + chunks[|chunks| - 1]
  }

  /** Writing two runs of chunks writes the bytes of the first run, then
      those of the second. */
  lemma {:induction false} ConcatAppend(a: seq<seq<byte>>, b: seq<seq<byte>>)
    ensures Concat(a + b) == Concat(a) + Concat(b)
  {
    if |b| == 0 {
      assert a + b == a;
    } else {
      var init := b[..|b| - 1];
      var ab := a + b;
      assert ab[..|ab| - 1] == a + init;
      assert ab[|ab| - 1] == b[|b| - 1];
      ConcatAppend(a, init);
      calc {
        Concat(ab);
        Concat(a + init) + b[|b| - 1];
        (Concat(a) + Concat(init)) + b[|b| - 1];
        Concat(a) + (Concat(init) + b[|b| - 1]);
        Concat(a) + Concat(b);
      }
    }
  }

  /** Chunk `i` sits in the written bytes right after the bytes of chunks
      `0..i`. */
  lemma ConcatAt(chunks: seq<seq<byte>>, i: nat)
    requires i < |chunks|
    ensures Concat(chunks[..i + 1]) == Concat(chunks[..i]) + chunks[i]
    ensures Concat(chunks) == Concat(chunks[..i]) + chunks[i] + Concat(chunks[i + 1..])
  {
    var upto := chunks[..i + 1];
    assert upto[..i] == chunks[..i] && upto[i] == chunks[i];
    assert Concat(upto) == Concat(chunks[..i]) + chunks[i];
    assert chunks == upto + chunks[i + 1..];
    ConcatAppend(upto, chunks[i + 1..]);
  }

  /** The final comparison `chunk_size >= total_size` holds exactly when the
      chunks, counted at the full step, cover the size. */
  lemma CounterReachesTotal(n: nat, total: int)
    ensures Counter(n, total) >= total <==> n * ChunkSize >= total
  {
    if n > 0 {
      assert (n - 1) * ChunkSize + ChunkSize == n * ChunkSize;
    }
  }

  /** The loop of `download`, from the `open` to the end of the `with`
      block: `completed` is false when an exception inside the block was
      caught by `except Exception` (of the exceptions the block can raise,
      only the ZeroDivisionError of a zero size is modelled). */
  method TransferChunks(total: int, chunks: seq<seq<byte>>)
    returns (data: seq<byte>, renders: seq<string>, counter: int, completed: bool)
    ensures completed <==> total != 0 || |chunks| == 0
    ensures !completed ==> data == [] && renders == [] && counter == 0
    ensures completed ==> data == Concat(chunks)
    ensures completed ==> renders == ExpectedRenders(total, |chunks|)
    ensures completed ==> counter == Counter(|chunks|, total)
    ensures completed ==> (counter >= total <==> |chunks| * ChunkSize >= total)
  {
    data, renders, counter, completed := [], [], 0, true;
    var i := 0;
    while i < |chunks|
      invariant 0 <= i <= |chunks|
      invariant total != 0 || i == 0
      invariant data == Concat(chunks[..i])
      invariant renders == LoopRenders(total, i)
      invariant counter == Counter(i, total)
    {
      counter := Min(counter, total);
      var stats := Frame(counter, total);
      if stats.Failure? {
        completed := false;
        break;
      }
      renders := renders + [stats.value];
      counter := counter + ChunkSize;
      assert chunks[..i + 1][..i] == chunks[..i];
      data := data + chunks[i];
      i := i + 1;
    }
    if completed {
      assert chunks[..i] == chunks;
      CounterReachesTotal(i, total);
      if counter >= total {
        renders := renders + [FullFrame()];
      }
    }
  }

  /** With a non-negative size the drawn value never leaves `[0, total]`
      and never goes back. */
  lemma ShownInRange(j: nat, k: nat, total: int)
    requires total >= 0 && j <= k
    ensures 0 <= Shown(j, total) <= Shown(k, total) <= total
  {
    assert j * ChunkSize <= k * ChunkSize;
  }

  /** Line `k` of the loop is the bar for the clamped counter. */
  lemma {:induction false} LoopRenderAt(total: int, n: nat, k: nat)
    requires total != 0 && k < n
    ensures LoopRenders(total, n)[k] == Frame(Shown(k, total), total).value
  {
    var prev := LoopRenders(total, n - 1);
    assert LoopRenders(total, n) == prev + [Frame(Shown(n - 1, total), total).value];
    if k < n - 1 {
      LoopRenderAt(total, n - 1, k);
      assert (prev + [Frame(Shown(n - 1, total), total).value])[k] == prev[k];
    }
  }

  /** With a positive size, every line of the loop is a bar of 80 cells whose
      filled cells and percentage (between 0 and 100) never decrease from one
      line to the next. */
  lemma LoopRendersProgress(total: int, n: nat, j: nat, k: nat)
    requires total > 0 && j <= k < n
    ensures
      var f := RoundHalfEven(BarWidth * Shown(k, total), total);
      var p := RoundHalfEven(100 * Shown(k, total), total);
      && 0 <= f <= BarWidth && 0 <= p <= 100
      && LoopRenders(total, n)[k] ==
         "\r" + Prefix + " |" + Bar(f, BarWidth) + "| " + NatToDecimal(p) + "% " + Suffix
    ensures FilledCells(Shown(j, total), total, BarWidth) <= FilledCells(Shown(k, total), total, BarWidth)
    ensures RoundHalfEven(100 * Shown(j, total), total) <= RoundHalfEven(100 * Shown(k, total), total)
  {
    LoopRenderAt(total, n, k);
    ShownInRange(j, k, total);
    ProgressBarInRange(Shown(k, total), total, BarWidth, Prefix, Suffix);
    ProgressMonotone(Shown(j, total), Shown(k, total), total, BarWidth);
  }

  /** When the chunks cover the size, the last line drawn is the full bar. */
  lemma LastRenderFull(total: int, n: nat)
    requires total != 0 || n == 0
    requires n * ChunkSize >= total
    ensures |ExpectedRenders(total, n)| == n + 1
    ensures ExpectedRenders(total, n)[n] == FullFrame()
  {
  }

  /** The number of bytes written by the first `k` chunks. */
  lemma {:induction false} ConcatFull(chunks: seq<seq<byte>>, k: nat)
    requires k <= |chunks|
    requires forall i | 0 <= i < k :: |chunks[i]| == ChunkSize
    ensures |Concat(chunks[..k])| == k * ChunkSize
  {
    if k > 0 {
      assert chunks[..k][..k - 1] == chunks[..k - 1];
      ConcatFull(chunks, k - 1);
      assert (k - 1) * ChunkSize + ChunkSize == k * ChunkSize;
    }
  }

  /** While `iter_content` hands out chunks of the full size, the value
      drawn before a chunk is the number of bytes already written, capped at
      the announced size. */
  lemma ShownTracksBytes(chunks: seq<seq<byte>>, k: nat, total: int)
    requires k <= |chunks|
    requires forall i | 0 <= i < k :: |chunks[i]| == ChunkSize
    ensures Shown(k, total) == Min(|Concat(chunks[..k])|, total)
  {
    ConcatFull(chunks, k);
  }

  /** A 10 MiB reply in ten full chunks: eleven lines, the first an empty bar
      at 0% and the last the full bar, since the counter ends exactly at the
      size. */
  lemma TenChunks()
    ensures |ExpectedRenders(10 * ChunkSize, 10)| == 11
    ensures ExpectedRenders(10 * ChunkSize, 10)[0] ==
      "\r" + Prefix + " |" + Bar(0, BarWidth) + "| " + NatToDecimal(0) + "% " + Suffix
    ensures ExpectedRenders(10 * ChunkSize, 10)[10] == FullFrame()
  {
    var total := 10 * ChunkSize;
    LastRenderFull(total, 10);
    LoopRenderAt(total, 10, 0);
    assert Shown(0, total) == 0;
    ProgressBarInRange(0, total, BarWidth, Prefix, Suffix);
    RoundHalfEvenExact(0, total);
  }

  /** What the server sends: the status, the two headers the code reads
      (the size already converted by `int`) and the chunks `iter_content`
      yields. */
  datatype Response = Response(
    status: int,
    contentLength: Option<int>,
    contentType: Option<string>,
    body: seq<seq<byte>>)

  /** How `download` ends. `Raised` is an exception leaving the function;
      `Skipped` is a non-200 reply that `raise_for_status` lets through;
      `Written` is the file that was opened, what went into it, what was drawn
      and whether the `with` block ran to its end. */
  datatype Outcome =
    | Raised(error: Error)
    | Skipped(status: int)
    | Written(path: string, data: seq<byte>, renders: seq<string>, completed: bool)

  /** `raise_for_status`: only 4xx and 5xx replies raise. */
  predicate IsHttpError(status: int) {
    400 <= status < 600
  }

  /** `o` is the file `path` after the loop ran over `chunks` for a size of
      `total`, as TransferChunks states it. */
  predicate SavedAs(o: Outcome, path: string, total: int, chunks: seq<seq<byte>>) {
    && o.Written?
    && o.path == path
    && (o.completed <==> total != 0 || |chunks| == 0)
    && (o.completed ==> o.data == Concat(chunks) && o.renders == ExpectedRenders(total, |chunks|))
    && (!o.completed ==> o.data == [] && o.renders == [])
  }

  /** The `with open(...)` block for the file at `path`. */
  method Save(path: string, total: int, chunks: seq<seq<byte>>) returns (o: Outcome)
    ensures SavedAs(o, path, total, chunks)
  {
    var data, renders, counter, completed := TransferChunks(total, chunks);
    o := Written(path, data, renders, completed);
  }

  /** `download(url, output_name)`, given the path part of the URL, the
      absolute output directory and the entries of the working directory. */
  method Download(urlPath: string, outputDir: string, listing: seq<string>, resp: Response) returns (o: Outcome)
    ensures resp.contentLength.None? ==> o == Raised(MissingHeader("content-length"))
    ensures resp.contentLength.Some? && ResolveTarget(urlPath, resp.contentType, listing).Failure? ==>
      o == Raised(ResolveTarget(urlPath, resp.contentType, listing).error)
    ensures o.Skipped? <==>
      && resp.contentLength.Some? && ResolveTarget(urlPath, resp.contentType, listing).Success?
      && resp.status != 200 && !IsHttpError(resp.status)
    ensures
      && resp.contentLength.Some? && ResolveTarget(urlPath, resp.contentType, listing).Success?
      && IsHttpError(resp.status)
      ==> o == Raised(HttpStatus(resp.status))
    ensures o.Raised? && o.error.HttpStatus? ==> o.error.code == resp.status && IsHttpError(resp.status)
    ensures o.Skipped? ==> o.status == resp.status
    ensures o.Written? <==>
      resp.contentLength.Some? && ResolveTarget(urlPath, resp.contentType, listing).Success? && resp.status == 200
    ensures o.Written? ==>
      SavedAs(o, outputDir + "/" + ResolveTarget(urlPath, resp.contentType, listing).value.fullname,
        resp.contentLength.value, resp.body)
  {
    if resp.contentLength.None? {
      return Raised(MissingHeader("content-length"));
    }
    var total := resp.contentLength.value;
    var target := ResolveTarget(urlPath, resp.contentType, listing);
    if target.Failure? {
      return Raised(target.error);
    }
    if resp.status == 200 {
      o := Save(outputDir + "/" + target.value.fullname, total, resp.body);
    } else if IsHttpError(resp.status) {
      o := Raised(HttpStatus(resp.status));
    } else {
      o := Skipped(resp.status);
    }
  }
}
