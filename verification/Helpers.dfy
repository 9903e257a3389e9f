/** Splitting a payload into chunks of lines, and the sender's way from a log to its messages. */
module Helpers {
  import opened Filters
  import opened Lines
  import opened Streams

  datatype LogMessage = LogMessage(sourceService: string, timestampUtc: string, payload: string)

  ghost function UnlinesAll(chunks: seq<seq<string>>): (texts: seq<string>)
    ensures |texts| == |chunks| && forall i :: 0 <= i < |chunks| ==> texts[i] == Unlines(chunks[i])
  {
    if chunks == [] then [] else [Unlines(chunks[0])] + UnlinesAll(chunks[1..])
  }

  lemma {:induction false} UnlinesAllPush(chunks: seq<seq<string>>, chunk: seq<string>)
    ensures UnlinesAll(chunks + [chunk]) == UnlinesAll(chunks) + [Unlines(chunk)]
  {
  }

  lemma {:induction false} ConcatOfUnlines(chunks: seq<seq<string>>)
    ensures Concat(UnlinesAll(chunks)) == Unlines(Concat(chunks))
  {
    if chunks != [] {
      ConcatOfUnlines(chunks[1..]);
      UnlinesAppend(chunks[0], Concat(chunks[1..]));
    }
  }

  lemma ChunkTextAdded(done: seq<string>, open: seq<string>, n: nat, whole: nat)
    requires open != [] && if n == 0 then done == [] else |done| == whole * n && |open| <= n
    ensures UnlinesAll(Chunks(done + open, n)) == UnlinesAll(Chunks(done, n)) + [Unlines(open)]
  {
    ChunkAdded(done, open, n, whole);
    UnlinesAllPush(Chunks(done, n), open);
  }

  lemma NoChunks(n: nat)
    ensures UnlinesAll(Chunks([], n)) == [] && Unlines([]) == ""
  {
  }

  /** A line goes to the open chunk, whose text grows by it. */
  lemma LineAdded(done: seq<string>, open: seq<string>, line: string)
    ensures done + open + [line] == done + (open + [line]) == done + (open + [line]) + []
    ensures Unlines(open + [line]) == Unlines(open) + (line + "\n")
  {
    UnlinesAppend(open, [line]);
    UnlinesOne(line);
  }

  lemma NoTextNoLines(open: seq<string>)
    ensures Unlines(open) == "" <==> open == []
  {
    if open != [] { assert |Unlines(open)| == |open[0] + "\n"| + |Unlines(open[1..])|; }
  }

  /** With no chunk size the whole text is one chunk. */
  lemma OneChunk(text: string)
    ensures UnlinesAll(Chunks(LinesOf(text), 0)) ==
              if text == "" then [] else [if text[|text| - 1] == '\n' then text else text + "\n"]
  {
    if text != "" {
      UnlinesOfLines(text);
      assert UnlinesAll([LinesOf(text)]) == [Unlines(LinesOf(text))] + [];
    }
  }

  /** The texts of the chunks, for any chunk size; a size of zero never completes a chunk. */
  method SplitByLines(text: string, linesPerChunk: nat) returns (result: seq<string>)
    ensures result == UnlinesAll(Chunks(LinesOf(text), linesPerChunk))
    ensures linesPerChunk == 0 ==>
              result == if text == "" then [] else [if text[|text| - 1] == '\n' then text else text + "\n"]
  {
    hide UnlinesAll, Chunks, LinesOf, Unlines, GetLine, ReadSoFar;
    OneChunk(text);
    result := [];
    var pos, chunk, count := 0, "", 0;
    ghost var done: seq<string>, open: seq<string>, whole: nat := [], [], 0;
    ReadNothing(text);
    NoChunks(linesPerChunk);
    assert done + open == [];
    while pos < |text|
      invariant pos <= |text| && ReadSoFar(text, pos, done + open)
      invariant chunk == Unlines(open) && count == |open| && result == UnlinesAll(Chunks(done, linesPerChunk))
      invariant if linesPerChunk == 0 then done == [] else |done| == whole * linesPerChunk && count < linesPerChunk
    {
      var (line, next) := GetLine(text, pos);
      ReadLine(text, pos, done + open);
      LineAdded(done, open, line);
      chunk := chunk + (line + "\n");
      open := open + [line];
      pos := next;
      count := count + 1;
      if count == linesPerChunk {
        ChunkTextAdded(done, open, linesPerChunk, whole);
        WholeBatches(whole, linesPerChunk);
        result := result + [chunk];
        done, open, whole := done + open, [], whole + 1;
        chunk, count := "", 0;
        NoChunks(linesPerChunk);
      }
    }
    ReadAll(text, done + open);
    NoTextNoLines(open);
    assert done + [] == done;
    if chunk != "" {
      ChunkTextAdded(done, open, linesPerChunk, whole);
      result := result + [chunk];
    }
  }

  /** The chunks of a text concatenate back to it, up to a missing newline at the end. */
  lemma SplitLosesNothing(text: string, n: nat)
    ensures Concat(UnlinesAll(Chunks(LinesOf(text), n))) ==
              if text == "" || text[|text| - 1] == '\n' then text else text + "\n"
  {
    ConcatOfUnlines(Chunks(LinesOf(text), n));
    ChunksLoseNothing(LinesOf(text), n);
    UnlinesOfLines(text);
  }

  lemma {:induction false} ChunksOfLines(ls: seq<string>, n: nat, i: nat)
    requires (forall j :: 0 <= j < |ls| ==> OneLine(ls[j])) && i < |Chunks(ls, n)|
    ensures forall j :: 0 <= j < |Chunks(ls, n)[i]| ==> OneLine(Chunks(ls, n)[i][j])
  {
    if n > 0 && |ls| > n && i > 0 { ChunksOfLines(ls[n..], n, i - 1); }
  }

  /** For a positive chunk size, every chunk text but the last has exactly that many lines, and the last has at least
      one and no more. */
  lemma SplitSizes(text: string, n: nat, i: nat)
    requires n > 0 && i < |Chunks(LinesOf(text), n)|
    ensures var texts := UnlinesAll(Chunks(LinesOf(text), n));
            if i < |texts| - 1 then |LinesOf(texts[i])| == n else 1 <= |LinesOf(texts[i])| <= n
  {
    LinesAreLines(text);
    ChunksOfLines(LinesOf(text), n, i);
    LinesOfUnlines(Chunks(LinesOf(text), n)[i]);
    ChunkSizes(LinesOf(text), n, i);
  }

  /** One message for each payload, in order; the clock is read once for each. */
  method GetLogMessages(payloads: seq<string>, logSource: string, clock: nat -> string)
    returns (messages: seq<LogMessage>)
    ensures |messages| == |payloads|
    ensures forall i :: 0 <= i < |payloads| ==> messages[i] == LogMessage(logSource, clock(i), payloads[i])
  {
    messages := [];
    for i := 0 to |payloads|
      invariant |messages| == i
      invariant forall j :: 0 <= j < i ==> messages[j] == LogMessage(logSource, clock(j), payloads[j])
    {
      messages := messages + [LogMessage(logSource, clock(i), payloads[i])];
    }
  }

  const LINES_PER_MESSAGE: nat := 3

  ghost function Payloads(messages: seq<LogMessage>): seq<string> {
    seq(|messages|, i requires 0 <= i < |messages| => messages[i].payload)
  }

  lemma {:induction false} SelectedLines(fs: seq<Filter>, ls: seq<string>)
    requires forall i :: 0 <= i < |ls| ==> OneLine(ls[i])
    ensures forall i :: 0 <= i < |Select(fs, ls)| ==> OneLine(Select(fs, ls)[i])
  {
    if ls != [] { SelectedLines(fs, ls[1..]); }
  }

  /** What the sender splits are the selected lines themselves. */
  lemma SentLines(fs: seq<Filter>, log: string, n: nat)
    ensures var selected := Select(fs, LinesOf(log));
            LinesOf(Unlines(selected)) == selected && Concat(UnlinesAll(Chunks(selected, n))) == Unlines(selected)
  {
    var selected := Select(fs, LinesOf(log));
    LinesAreLines(log);
    SelectedLines(fs, LinesOf(log));
    LinesOfUnlines(selected);
    ConcatOfUnlines(Chunks(selected, n));
    ChunksLoseNothing(selected, n);
  }

  /** From a log to the messages: their payloads are the matching lines of the log, in order and in groups of three. */
  method Send(log: string, filter: CompositeFilter, clock: nat -> string) returns (messages: seq<LogMessage>)
    ensures var selected := Select(filter.filters, LinesOf(log));
            && Payloads(messages) == UnlinesAll(Chunks(selected, LINES_PER_MESSAGE))
            && Concat(Payloads(messages)) == Unlines(selected)
            && |messages| == |UnlinesAll(Chunks(selected, 3))|
            && forall i :: 0 <= i < |messages| ==>
                 messages[i] == LogMessage("ipv4_filter", clock(i), UnlinesAll(Chunks(selected, 3))[i])
  {
    hide UnlinesAll, Chunks, LinesOf, Unlines, Select, Concat;
    var processor := new StreamProcessor();
    var payload := new OutputStream();
    processor.Process(log, payload, filter);
    assert payload.text == Unlines(Select(filter.filters, LinesOf(log)));
    var payloads := SplitByLines(payload.text, LINES_PER_MESSAGE);
    messages := GetLogMessages(payloads, "ipv4_filter", clock);
    SentLines(filter.filters, log, LINES_PER_MESSAGE);
    assert Payloads(messages) == payloads;
  }
}
