/** The serial receive path of the control system: the worker thread that
    drains the COM port's receive queue and frames the text it accumulates
    into lines terminated by a line feed (RxMethod in Controlsystem.cs).

    The worker keeps a growable buffer. Each dequeued chunk is appended to it,
    and if the buffer then holds a line feed, the prefix up to and including
    the FIRST line feed is taken out as one line. Only one line is taken per
    dequeued chunk: further complete lines stay buffered until the next chunk
    arrives. A null item on the queue ends the worker. */
module ComPortReceive {

  import opened Wrappers

  /** The framing delimiter: ASCII line feed. */
  const DELIMITER: char := '\n'

  /** An item of the receive queue: a chunk of received text, or the null
      that tells the worker to return. */
  datatype QueueItem = Data(text: string) | Null

  /** The index of the first occurrence of x in s, or -1 when x does not
      occur (the behaviour of String.IndexOf). */
  function IndexOf<T(==)>(s: seq<T>, x: T): (r: int)
    ensures -1 <= r < |s|
    ensures r >= 0 ==> s[r] == x
    ensures forall j | 0 <= j < |s| && (r < 0 || j < r) :: s[j] != x
  {
    if s == [] then -1
    else if s[0] == x then 0
    else
      var k := IndexOf(s[1..], x);
      if k < 0 then -1 else k + 1
  }

  /** The number of line feeds in s. */
  function Delimiters(s: string): nat
  {
    if s == [] then 0 else (if s[0] == DELIMITER then 1 else 0) + Delimiters(s[1..])
  }

  /** s holds a line feed somewhere. */
  predicate HasDelimiter(s: string)
  {
    Delimiters(s) > 0
  }

  /** A complete line: it ends with the delimiter, and that is the only
      delimiter in it. */
  predicate IsLine(l: string)
  {
    |l| > 0 && l[|l| - 1] == DELIMITER && !HasDelimiter(l[..|l| - 1])
  }

  /** A string holds no line feed exactly when none of its characters is
      one. */
  lemma {:induction false} NoDelimiterAt(s: string)
    ensures !HasDelimiter(s) <==> forall j | 0 <= j < |s| :: s[j] != DELIMITER
  {
    if s != [] {
      NoDelimiterAt(s[1..]);
      assert forall j | 1 <= j < |s| :: s[j] == s[1..][j - 1];
    }
  }

  /** The outcome of one framing pass: the line taken out, if any, and what
      stays in the buffer. */
  datatype Extraction = Extraction(line: Option<string>, rest: string)

  /** The text of an optional line; empty when no line was taken. */
  function Text(line: Option<string>): string
  {
    if line.Some? then line.value else ""
  }

  /** The lines of an optional line, as a list of zero or one. */
  function LineList(line: Option<string>): seq<string>
  {
    if line.Some? then [line.value] else []
  }

  /** One framing pass of the receive loop: append the chunk to the buffer
      and, if the result holds a delimiter, take out the prefix up to and
      including the first one. Nothing is lost or duplicated, and a line is
      taken exactly when the appended buffer holds a delimiter. */
  function Extract(buffer: string, chunk: string): (r: Extraction)
    ensures Text(r.line) + r.rest == buffer + chunk
    ensures r.line.Some? <==> HasDelimiter(buffer + chunk)
    ensures r.line.Some? ==> IsLine(r.line.value)
  {
    var data := buffer + chunk;
    var pos := IndexOf(data, DELIMITER);
    if pos >= 0 then
      assert data[..pos + 1] + data[pos + 1..] == data;
      assert data[..pos + 1][..pos] == data[..pos];
      NoDelimiterAt(data[..pos]);
      NoDelimiterAt(data);
      Extraction(Some(data[..pos + 1]), data[pos + 1..])
    else
      NoDelimiterAt(data);
      Extraction(None, data)
  }

  /** Extract takes out the one and only line that starts the data: any way
      of writing the appended buffer as a complete line followed by a rest
      is the one Extract finds. */
  lemma ExtractTakesFirstLine(buffer: string, chunk: string, line: string, rest: string)
    requires line + rest == buffer + chunk
    requires IsLine(line)
    ensures Extract(buffer, chunk) == Extraction(Some(line), rest)
  {
    var data := buffer + chunk;
    var n := |line| - 1;
    assert data[n] == line[n] == DELIMITER;
    NoDelimiterAt(line[..n]);
    assert forall j | 0 <= j < n :: data[j] == line[..n][j];
    var pos := IndexOf(data, DELIMITER);
    assert pos == n;
    assert data[..pos + 1] == line;
    assert data[pos + 1..] == rest;
  }

  /** A line that is already buffered is released by the next chunk,
      whatever that chunk holds: the line comes from the old buffer and the
      chunk is simply appended to what remains. */
  lemma BufferedLineComesFirst(buffer: string, chunk: string)
    requires HasDelimiter(buffer)
    ensures Extract(buffer, chunk).line == Extract(buffer, "").line
    ensures Extract(buffer, chunk).rest == Extract(buffer, "").rest + chunk
  {
    assert buffer + "" == buffer;
    var e := Extract(buffer, "");
    var line := e.line.value;
    assert line + (e.rest + chunk) == buffer + chunk;
    ExtractTakesFirstLine(buffer, chunk, line, e.rest + chunk);
  }

  /** Line feeds are counted piecewise over a concatenation. */
  lemma {:induction false} DelimitersAppend(a: string, b: string)
    ensures Delimiters(a + b) == Delimiters(a) + Delimiters(b)
  {
    if a != [] {
      assert (a + b)[1..] == a[1..] + b;
      DelimitersAppend(a[1..], b);
    } else {
      assert a + b == b;
    }
  }

  /** A complete line holds exactly one delimiter. */
  lemma LineHasOneDelimiter(l: string)
    requires IsLine(l)
    ensures Delimiters(l) == 1
  {
    var n := |l| - 1;
    assert l == l[..n] + [l[n]];
    DelimitersAppend(l[..n], [l[n]]);
  }

  /** A framing pass removes at most one delimiter from the appended buffer:
      exactly one when it takes a line, none otherwise. */
  lemma ExtractRemovesOneDelimiter(buffer: string, chunk: string)
    ensures var e := Extract(buffer, chunk);
      Delimiters(e.rest) + (if e.line.Some? then 1 else 0) == Delimiters(buffer + chunk)
  {
    var e := Extract(buffer, chunk);
    DelimitersAppend(Text(e.line), e.rest);
    if e.line.Some? {
      LineHasOneDelimiter(e.line.value);
    }
  }

  /** When the appended buffer holds two or more line feeds, a line is taken
      and a complete line stays behind in the buffer. */
  lemma LinesStayBuffered(buffer: string, chunk: string)
    requires Delimiters(buffer + chunk) >= 2
    ensures Extract(buffer, chunk).line.Some?
    ensures HasDelimiter(Extract(buffer, chunk).rest)
  {
    ExtractRemovesOneDelimiter(buffer, chunk);
  }

  /** What a run of the receive loop has produced: the lines taken out, in
      order, and the buffer that remains. */
  datatype Framed = Framed(lines: seq<string>, rest: string)

  /** The receive loop run over the data chunks, in order, starting from the
      given buffer. At most one line comes out per chunk. */
  function Feed(buffer: string, chunks: seq<string>): (r: Framed)
    ensures |r.lines| <= |chunks|
  {
    if chunks == [] then Framed([], buffer)
    else
      var prev := Feed(buffer, chunks[..|chunks| - 1]);
      var e := Extract(prev.rest, chunks[|chunks| - 1]);
      Framed(prev.lines + LineList(e.line), e.rest)
  }

  /** Every line the receive loop takes out is a complete line: it ends with
      the delimiter and holds no other. */
  lemma {:induction false} FeedYieldsLines(buffer: string, chunks: seq<string>)
    ensures forall i | 0 <= i < |Feed(buffer, chunks).lines| :: IsLine(Feed(buffer, chunks).lines[i])
  {
    if chunks != [] {
      var init := chunks[..|chunks| - 1];
      var prev := Feed(buffer, init);
      var e := Extract(prev.rest, chunks[|chunks| - 1]);
      FeedYieldsLines(buffer, init);
      assert Feed(buffer, chunks).lines == prev.lines + LineList(e.line);
    }
  }

  /** Feed, unfolded at its last chunk. */
  lemma FeedSnoc(buffer: string, chunks: seq<string>, chunk: string)
    ensures var prev := Feed(buffer, chunks);
      var e := Extract(prev.rest, chunk);
      Feed(buffer, chunks + [chunk]) == Framed(prev.lines + LineList(e.line), e.rest)
  {
    assert (chunks + [chunk])[..|chunks|] == chunks;
  }

  lemma TakeAll<T>(s: seq<T>, n: nat)
    requires n == |s|
    ensures s[..n] == s
  {
  }

  lemma TakeOneMore<T>(s: seq<T>, n: nat)
    requires n < |s|
    ensures s[..n + 1] == s[..n] + [s[n]]
  {
  }

  /** One more chunk through the framer: the line it completes, if any, is
      appended to the lines so far and the rest becomes the buffer. */
  lemma FeedStep(chunks: seq<string>, n: nat, lines: seq<string>, buffer: string, line: Option<string>, rest: string)
    requires n < |chunks|
    requires Framed(lines, buffer) == Feed("", chunks[..n])
    requires Extract(buffer, chunks[n]) == Extraction(line, rest)
    ensures Framed(lines + LineList(line), rest) == Feed("", chunks[..n + 1])
  {
    TakeOneMore(chunks, n);
    FeedSnoc("", chunks[..n], chunks[n]);
  }

  /** The concatenation of a list of strings. */
  function Concat(ss: seq<string>): string
  {
    if ss == [] then "" else Concat(ss[..|ss| - 1]) + ss[|ss| - 1]
  }

  lemma ConcatLineList(ss: seq<string>, line: Option<string>)
    ensures Concat(ss + LineList(line)) == Concat(ss) + Text(line)
  {
    if line.Some? {
      assert (ss + [line.value])[..|ss|] == ss;
    } else {
      assert ss + [] == ss;
      assert Concat(ss) + "" == Concat(ss);
    }
  }

  /** Re-associates two equations between concatenations into one. */
  lemma Regroup(a: string, t: string, r: string, p: string, l: string, b: string, c: string)
    requires t + r == p + l
    requires a + p == b + c
    ensures (a + t) + r == b + (c + l)
  {
    calc {
      (a + t) + r;
      a + (t + r);
      a + (p + l);
      (a + p) + l;
      (b + c) + l;
    }
  }

  /** Conservation: the lines taken out, followed by the remaining buffer,
      are exactly the initial buffer followed by every chunk received. No
      character is lost, duplicated or reordered. */
  lemma {:induction false} FeedConserves(buffer: string, chunks: seq<string>)
    ensures Concat(Feed(buffer, chunks).lines) + Feed(buffer, chunks).rest == buffer + Concat(chunks)
  {
    if chunks != [] {
      var init, last := chunks[..|chunks| - 1], chunks[|chunks| - 1];
      var prev := Feed(buffer, init);
      var e := Extract(prev.rest, last);
      FeedConserves(buffer, init);
      var lines := prev.lines + LineList(e.line);
      assert Feed(buffer, chunks) == Framed(lines, e.rest);
      ConcatLineList(prev.lines, e.line);
      assert Concat(chunks) == Concat(init) + last;
      Regroup(Concat(prev.lines), Text(e.line), e.rest, prev.rest, last, buffer, Concat(init));
    }
  }

  /** The chunks the worker processes from a queue: the texts before the
      first null, in queue order. Every item before them is data, and if the
      queue goes on past them, the item there is the null. */
  function Processed(queue: seq<QueueItem>): (r: seq<string>)
    ensures |r| <= |queue|
    ensures forall i :: 0 <= i < |r| ==> queue[i] == Data(r[i])
    ensures |r| < |queue| ==> queue[|r|] == Null
  {
    if queue == [] || queue[0].Null? then [] else [queue[0].text] + Processed(queue[1..])
  }

  /** The worker stops short of the end of its queue exactly when the queue
      holds a null. */
  lemma StopsAtNull(queue: seq<QueueItem>)
    ensures |Processed(queue)| < |queue| <==> Null in queue
  {
    var r := Processed(queue);
    if Null in queue {
      var k :| 0 <= k < |queue| && queue[k] == Null;
      assert |r| <= k;
    }
    if |r| < |queue| {
      assert queue[|r|] == Null;
    }
  }

  /** Items queued after a null are never processed. */
  lemma {:induction false} NothingAfterNull(queue: seq<QueueItem>, later: seq<QueueItem>)
    requires Null in queue
    ensures Processed(queue + later) == Processed(queue)
  {
    if queue[0] != Null {
      assert (queue + later)[1..] == queue[1..] + later;
      NothingAfterNull(queue[1..], later);
    }
  }

  /** The items the serial-data handler queues for a run of received
      chunks: one data item per chunk, in arrival order. */
  function Deliveries(texts: seq<string>): (q: seq<QueueItem>)
    ensures |q| == |texts| && Null !in q
  {
    seq(|texts|, i requires 0 <= i < |texts| => Data(texts[i]))
  }

  /** A null queued after N chunks: all N chunks are processed, in order,
      and nothing queued after the null is. */
  lemma SentinelAfterChunks(texts: seq<string>, later: seq<QueueItem>)
    ensures Processed(Deliveries(texts) + [Null] + later) == texts
  {
    var q := Deliveries(texts) + [Null];
    assert q + later == Deliveries(texts) + [Null] + later;
    assert q[|texts|] == Null;
    NothingAfterNull(q, later);
    var p := Processed(q);
    assert forall i | 0 <= i < |texts| :: q[i] == Data(texts[i]);
    assert |p| == |texts|;
    assert p == texts;
  }

  /** Feed over a single chunk is one framing pass. */
  lemma FeedOne(buffer: string, chunk: string)
    ensures Feed(buffer, [chunk]) == Framed(LineList(Extract(buffer, chunk).line), Extract(buffer, chunk).rest)
  {
    FeedSnoc(buffer, [], chunk);
    assert [] + [chunk] == [chunk];
    assert [] + LineList(Extract(buffer, chunk).line) == LineList(Extract(buffer, chunk).line);
  }

  /** From an empty buffer, a chunk that starts with a complete line yields
      that line and keeps the rest. */
  lemma ExtractLineThenRest(line: string, rest: string)
    requires IsLine(line)
    ensures Extract("", line + rest) == Extraction(Some(line), rest)
  {
    assert line + rest == "" + (line + rest);
    ExtractTakesFirstLine("", line + rest, line, rest);
  }

  /** The chunk boundaries decide what comes out: one chunk holding a
      complete line and then more yields only that line and keeps the rest
      buffered, even when the rest is a complete line too. */
  lemma OneChunkTwoLines(first: string, second: string)
    requires IsLine(first)
    ensures Feed("", [first + second]) == Framed([first], second)
  {
    FeedOne("", first + second);
    ExtractLineThenRest(first, second);
  }

  /** The same two lines in two chunks both come out, leaving the buffer
      empty. */
  lemma TwoChunksTwoLines(first: string, second: string)
    requires IsLine(first) && IsLine(second)
    ensures Feed("", [first, second]) == Framed([first, second], "")
  {
    OneChunkTwoLines(first, "");
    assert first + "" == first;
    FeedSnoc("", [first], second);
    assert [first] + [second] == [first, second];
    ExtractLineThenRest(second, "");
    assert second + "" == second;
  }

  /** Chunks that, together with the buffer, hold no line feed only grow the
      buffer: nothing is taken out, whatever the buffer and however many
      chunks there are. */
  lemma {:induction false} PiecesWithoutLine(buffer: string, chunks: seq<string>)
    requires !HasDelimiter(buffer + Concat(chunks))
    ensures Feed(buffer, chunks) == Framed([], buffer + Concat(chunks))
  {
    if chunks == [] {
      assert buffer + "" == buffer;
    } else {
      var init, last := chunks[..|chunks| - 1], chunks[|chunks| - 1];
      var data := buffer + Concat(init);
      assert buffer + Concat(chunks) == data + last;
      DelimitersAppend(data, last);
      PiecesWithoutLine(buffer, init);
      var e := Extract(data, last);
      assert e.line.None? && e.rest == data + last;
      assert Feed(buffer, chunks) == Framed([] + [], e.rest);
    }
  }

  /** The concatenation of two strings as a list. */
  lemma ConcatTwo(a: string, b: string)
    ensures Concat([a, b]) == a + b
  {
    assert [a, b][..1] == [a];
    assert [a][..0] == [];
    assert Concat([a]) == Concat([]) + a == a;
  }

  /** Two pieces without a line feed, from an empty buffer, only fill it. */
  lemma TwoPiecesWithoutLine(a: string, b: string)
    requires !HasDelimiter(a + b)
    ensures Feed("", [a, b]) == Framed([], a + b)
  {
    ConcatTwo(a, b);
    assert "" + (a + b) == a + b;
    PiecesWithoutLine("", [a, b]);
  }

  /** A line that arrives in three pieces, the line feed in the last one,
      comes out whole once that piece arrives, and leaves the buffer empty
      (for instance "ST", "ATUS" and "=OK" followed by a line feed). */
  lemma LineInPieces(a: string, b: string, c: string)
    requires IsLine(a + b + c) && c != ""
    ensures Feed("", [a, b, c]) == Framed([a + b + c], "")
  {
    NoDelimiterBeforeEnd(a + b + c, a, b + c);
    NoDelimiterBeforeEnd(a + b + c, a + b, c);
    TwoPiecesWithoutLine(a, b);
    ExtractTakesFirstLine(a + b, c, a + b + c, "");
    FeedThenLine([a, b], a + b, c, a + b + c);
    assert [a, b] + [c] == [a, b, c];
  }

  /** Chunks that leave only a partial line buffered, then a chunk that
      completes exactly one line, yield that line alone. */
  lemma FeedThenLine(chunks: seq<string>, partial: string, chunk: string, line: string)
    requires Feed("", chunks) == Framed([], partial)
    requires Extract(partial, chunk) == Extraction(Some(line), "")
    ensures Feed("", chunks + [chunk]) == Framed([line], "")
  {
    FeedSnoc("", chunks, chunk);
    assert [] + [line] == [line];
  }

  /** What precedes a nonempty tail of a line holds no line feed. */
  lemma NoDelimiterBeforeEnd(line: string, head: string, tail: string)
    requires IsLine(line) && line == head + tail && tail != ""
    ensures !HasDelimiter(head)
  {
    var n := |line| - 1;
    NoDelimiterAt(line[..n]);
    assert forall j | 0 <= j < |head| :: head[j] == line[..n][j];
    NoDelimiterAt(head);
  }

  /** The backlog of the framer as written: when every chunk carries two or
      more line feeds, each chunk releases only one line and the line feeds
      left in the buffer grow by at least one per chunk, without bound. */
  lemma {:induction false} BacklogGrows(buffer: string, chunks: seq<string>)
    requires forall i | 0 <= i < |chunks| :: Delimiters(chunks[i]) >= 2
    ensures |Feed(buffer, chunks).lines| == |chunks|
    ensures Delimiters(Feed(buffer, chunks).rest) >= Delimiters(buffer) + |chunks|
  {
    if chunks != [] {
      var init, last := chunks[..|chunks| - 1], chunks[|chunks| - 1];
      assert forall i | 0 <= i < |init| :: init[i] == chunks[i];
      BacklogGrows(buffer, init);
      var prev := Feed(buffer, init);
      DelimitersAppend(prev.rest, last);
      ExtractRemovesOneDelimiter(prev.rest, last);
      var e := Extract(prev.rest, last);
      assert Feed(buffer, chunks) == Framed(prev.lines + LineList(e.line), e.rest);
    }
  }

  /** The framing pass the receive loop evidently intends: take every
      complete line out of the appended buffer, in order, and keep only the
      unterminated tail. */
  function Drain(data: string): (r: Framed)
    ensures !HasDelimiter(r.rest)
    decreases Delimiters(data)
  {
    assert data + "" == data;
    var e := Extract(data, "");
    if e.line.None? then Framed([], e.rest)
    else
      ExtractRemovesOneDelimiter(data, "");
      var more := Drain(e.rest);
      Framed([e.line.value] + more.lines, more.rest)
  }

  /** Concatenation of a list with a first element put in front. */
  lemma {:induction false} ConcatCons(x: string, ss: seq<string>)
    ensures Concat([x] + ss) == x + Concat(ss)
  {
    if ss == [] {
      assert [x] + ss == [x];
      assert [x][..0] == [];
    } else {
      var init := ss[..|ss| - 1];
      assert ([x] + ss)[..|ss|] == [x] + init;
      ConcatCons(x, init);
    }
  }

  /** Drain loses, duplicates and reorders nothing. */
  lemma {:induction false} DrainConserves(data: string)
    ensures Concat(Drain(data).lines) + Drain(data).rest == data
    decreases Delimiters(data)
  {
    assert data + "" == data;
    var e := Extract(data, "");
    if e.line.Some? {
      ExtractRemovesOneDelimiter(data, "");
      DrainConserves(e.rest);
      var more := Drain(e.rest);
      assert Drain(data) == Framed([e.line.value] + more.lines, more.rest);
      LineThenMore(e.line.value, e.rest, more.lines, more.rest, data);
    } else {
      assert Drain(data) == Framed([], data);
    }
  }

  /** A line in front of lines that make up the rest makes up the whole. */
  lemma LineThenMore(line: string, rest: string, lines: seq<string>, tail: string, data: string)
    requires line + rest == data
    requires Concat(lines) + tail == rest
    ensures Concat([line] + lines) + tail == data
  {
    ConcatCons(line, lines);
  }

  /** Every line Drain takes out is a complete line. */
  lemma {:induction false} DrainYieldsLines(data: string)
    ensures forall i | 0 <= i < |Drain(data).lines| :: IsLine(Drain(data).lines[i])
    decreases Delimiters(data)
  {
    assert data + "" == data;
    var e := Extract(data, "");
    if e.line.Some? {
      ExtractRemovesOneDelimiter(data, "");
      DrainYieldsLines(e.rest);
      var more := Drain(e.rest);
      assert Drain(data).lines == [e.line.value] + more.lines;
    }
  }

  /** The chunk of OneChunkTwoLines, drained: both lines come out and the
      buffer ends empty. */
  lemma DrainTwoLines(first: string, second: string)
    requires IsLine(first) && IsLine(second)
    ensures Drain(first + second) == Framed([first, second], "")
  {
    assert first + second + "" == first + second;
    ExtractTakesFirstLine(first + second, "", first, second);
    assert second + "" == second;
    ExtractTakesFirstLine(second, "", second, "");
    LineHasOneDelimiter(second);
    ExtractRemovesOneDelimiter(second, "");
    assert Drain("") == Framed([], "");
  }

  /** The state of the receive worker: the COM buffer (a StringBuilder in the
      source), the index of the delimiter found by the last pass, and the
      string matched by the last pass. */
  class RxWorker {
    var rxData: string
    var pos: int
    var matchString: string

    constructor ()
      ensures rxData == "" && pos == -1 && matchString == ""
    {
      rxData := "";
      pos := -1;
      matchString := "";
    }

    /** One iteration of the worker loop on a dequeued item. A null stops the
        worker and changes nothing. A chunk is appended to the buffer; pos is
        the index of the first delimiter in the appended buffer; when there is
        one, the line up to and including it is moved from the buffer into
        matchString, otherwise matchString is the whole appended buffer. */
    method Receive(item: QueueItem) returns (stop: bool)
      modifies this
      ensures stop <==> item.Null?
      ensures item.Null? ==> unchanged(this)
      ensures item.Data? ==> rxData == Extract(old(rxData), item.text).rest
      ensures item.Data? ==> (pos >= 0 <==> Extract(old(rxData), item.text).line.Some?)
      ensures item.Data? && pos >= 0 ==>
        pos == |matchString| - 1 && Extract(old(rxData), item.text).line == Some(matchString)
      ensures item.Data? && pos < 0 ==> pos == -1 && matchString == old(rxData) + item.text
    {
      if item.Null? {
        return true;
      }
      stop := false;
      var data := rxData + item.text;
      rxData, matchString := data, data;
      pos := IndexOf(data, DELIMITER);
      if pos >= 0 {
        matchString := data[..pos + 1];
        rxData := data[pos + 1..];
      }
    }
  }

  /** The receive worker run over the items its queue delivers, in order.
      It returns whether it met a null and stopped, how many chunks it
      processed, the lines it reached the parse point with, and the buffer it
      was left holding. When the queue runs out without a null, the worker is
      still waiting in Dequeue: it has not stopped. */
  method RxMethod(queue: seq<QueueItem>) returns (stopped: bool, processed: nat, lines: seq<string>, buffer: string)
    ensures stopped <==> Null in queue
    ensures processed == |Processed(queue)|
    ensures Framed(lines, buffer) == Feed("", Processed(queue))
  {
    var worker := new RxWorker();
    ghost var done := Processed(queue);
    lines, processed := [], 0;
    while processed < |queue|
      invariant processed <= |done|
      invariant Framed(lines, worker.rxData) == Feed("", done[..processed])
      decreases |queue| - processed
    {
      ghost var before, linesBefore := worker.rxData, lines;
      var stop := worker.Receive(queue[processed]);
      if stop {
        TakeAll(done, processed);
        StopsAtNull(queue);
        return true, processed, lines, worker.rxData;
      }
      ghost var line: Option<string> := None;
      if worker.pos >= 0 {
        // the parse point: the line is in matchString
        lines := lines + [worker.matchString];
        line := Some(worker.matchString);
      }
      assert lines == linesBefore + LineList(line);
      FeedStep(done, processed, linesBefore, before, line, worker.rxData);
      processed := processed + 1;
    }
    TakeAll(done, processed);
    StopsAtNull(queue);
    stopped, buffer := false, worker.rxData;
  }
}
