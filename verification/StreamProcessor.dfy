/** Batch filtering of a log: the lines whose address matches are copied, in order. */
module Streams {
  import opened Options
  import opened Addresses
  import opened Filters
  import opened Lines

  datatype LogEntry = LogEntry(ip: Address, line: string, lineNumber: nat)

  /** The address in front of the first space. */
  ghost function AddressOfLine(line: string): Option<Address> {
    var k := Find(line, ' ');
    if k == None then None else AddressOf(line[..k.value])
  }

  /** A line has an address exactly if it starts with the canonical notation of one and a space. */
  lemma AddressedLines(line: string, a: Address)
    ensures AddressOfLine(line) == Some(a) <==> exists rest :: line == Print(a) + " " + rest
  {
    hide Print, AddressOf, IPv4Grammar;
    var k := Find(line, ' ');
    if AddressOfLine(line) == Some(a) {
      PrintOfParse(line[..k.value]);
      assert line == Print(a) + " " + line[k.value + 1..];
    }
    if rest :| line == Print(a) + " " + rest {
      PrintSymbols(a);
      FindIsUnique(line, ' ', Print(a), rest);
      ParseOfPrint(a);
    }
  }

  ghost predicate Selected(fs: seq<Filter>, line: string) {
    AddressOfLine(line).Some? && AnyMatches(fs, AddressOfLine(line).value)
  }

  /** The matching lines, in order. */
  ghost function Select(fs: seq<Filter>, ls: seq<string>): seq<string> {
    if ls == [] then [] else (if Selected(fs, ls[0]) then [ls[0]] else []) + Select(fs, ls[1..])
  }

  /** Every matching line is kept as often as it occurs, and nothing else is. */
  lemma {:induction false} SelectKeepsMatches(fs: seq<Filter>, ls: seq<string>, line: string)
    ensures multiset(Select(fs, ls))[line] == if Selected(fs, line) then multiset(ls)[line] else 0
  {
    if ls != [] {
      SelectKeepsMatches(fs, ls[1..], line);
      assert ls == [ls[0]] + ls[1..];
    }
  }

  /** A line is selected exactly when some filter of the list matches the address that it starts with. */
  lemma SelectedMeans(fs: seq<Filter>, line: string)
    ensures Selected(fs, line) <==>
              exists a: Address, rest: string, i :: line == Print(a) + " " + rest && 0 <= i < |fs| && Matches(fs[i], a)
  {
    hide AddressOfLine, Print, Matches;
    if Selected(fs, line) {
      AddressedLines(line, AddressOfLine(line).value);
    }
    if a: Address, rest: string, i :| line == Print(a) + " " + rest && 0 <= i < |fs| && Matches(fs[i], a) {
      AddressedLines(line, a);
    }
  }

  /** The lines that come through are the lines of the log with such an address. */
  lemma SelectIsFilter(fs: seq<Filter>, ls: seq<string>, line: string)
    ensures line in Select(fs, ls) <==>
              line in ls &&
              exists a: Address, rest: string, i :: line == Print(a) + " " + rest && 0 <= i < |fs| && Matches(fs[i], a)
  {
    hide Selected, Select, Print, Matches;
    SelectedMeans(fs, line);
    SelectKeepsMatches(fs, ls, line);
    assert line in ls <==> multiset(ls)[line] > 0;
    assert line in Select(fs, ls) <==> multiset(Select(fs, ls))[line] > 0;
  }

  /** A further line is appended to the selected ones, or not. */
  lemma {:induction false} SelectPush(fs: seq<Filter>, ls: seq<string>, line: string)
    ensures Select(fs, ls + [line]) == Select(fs, ls) + if Selected(fs, line) then [line] else []
  {
    hide Selected;
    if ls == [] {
      assert [line][1..] == [];
    } else {
      assert (ls + [line])[1..] == ls[1..] + [line];
      SelectPush(fs, ls[1..], line);
    }
  }

  function Texts(entries: seq<LogEntry>): (ls: seq<string>)
    ensures |ls| == |entries|
  {
    if entries == [] then [] else Texts(entries[..|entries| - 1]) + [entries[|entries| - 1].line]
  }

  lemma TextsPush(entries: seq<LogEntry>, e: LogEntry)
    ensures Texts(entries + [e]) == Texts(entries) + [e.line]
  {
    assert (entries + [e])[..|entries|] == entries;
  }

  /** An output stream, which also remembers the lines of each flush. */
  class OutputStream {
    var text: string
    ghost var flushes: seq<seq<string>>

    constructor ()
      ensures text == "" && flushes == []
    {
      text, flushes := "", [];
    }
  }

  method ParseIPFromLine(line: string) returns (r: Option<Address>)
    ensures r == AddressOfLine(line)
  {
    var end := Find(line, ' ');
    if end == None {
      return None;
    }
    r := FromString(line[..end.value]);
  }

  const DEFAULT_BATCH_SIZE: nat := 1000

  class StreamProcessor {
    const batchSize: nat
    var buffer: seq<LogEntry>

    constructor (batchSize: nat := DEFAULT_BATCH_SIZE)
      ensures this.batchSize == batchSize && buffer == []
    {
      this.batchSize, buffer := batchSize, [];
    }

    /** How many lines a full buffer holds; a batch size of zero behaves like one. */
    ghost function Batch(): nat {
      if batchSize == 0 then 1 else batchSize
    }

    method FlushBuffer(output: OutputStream)
      modifies this`buffer, output
      ensures buffer == [] && output.text == old(output.text) + Unlines(Texts(old(buffer)))
      ensures output.flushes == old(output.flushes) + if old(buffer) == [] then [] else [Texts(old(buffer))]
    {
      if buffer == [] {
        return;
      }
      for i := 0 to |buffer|
        invariant buffer == old(buffer) && output.flushes == old(output.flushes)
        invariant output.text == old(output.text) + Unlines(Texts(buffer[..i]))
      {
        output.text := output.text + (buffer[i].line + "\n");
        assert buffer[..i + 1] == buffer[..i] + [buffer[i]];
        TextsPush(buffer[..i], buffer[i]);
        UnlinesAppend(Texts(buffer[..i]), [buffer[i].line]);
        UnlinesOne(buffer[i].line);
      }
      assert buffer[..|buffer|] == buffer;
      output.flushes := output.flushes + [Texts(buffer)];
      buffer := [];
    }

    /** A flush in the middle of processing, after the lines of `flushed`, which were `whole` full batches. */
    method FlushMore(output: OutputStream, ghost before: string, ghost flushes: seq<seq<string>>,
        ghost flushed: seq<string>, ghost whole: nat)
      requires |buffer| <= Batch() && |flushed| == whole * Batch()
      requires output.text == before + Unlines(flushed) && output.flushes == flushes + Chunks(flushed, Batch())
      modifies this`buffer, output
      ensures buffer == []
      ensures output.text == before + Unlines(flushed + Texts(old(buffer)))
      ensures output.flushes == flushes + Chunks(flushed + Texts(old(buffer)), Batch())
    {
      hide Unlines, Chunks, Texts;
      UnlinesAppend(flushed, Texts(buffer));
      if buffer == [] {
        assert flushed + Texts(buffer) == flushed;
        NoText();
      } else {
        ChunkAdded(flushed, Texts(buffer), Batch(), whole);
      }
      FlushBuffer(output);
    }

    /** A line whose address matches goes to the end of the buffer. */
    method KeepIfMatching(line: string, lineNumber: nat, filter: CompositeFilter)
      modifies this`buffer
      ensures buffer == old(buffer) + if Selected(filter.filters, line)
                                      then [LogEntry(AddressOfLine(line).value, line, lineNumber)] else []
      ensures Texts(buffer) == Texts(old(buffer)) + if Selected(filter.filters, line) then [line] else []
      ensures buffer != old(buffer) <==>
                exists a: Address, rest: string, i ::
                  line == Print(a) + " " + rest && 0 <= i < |filter.filters| && Matches(filter.filters[i], a)
    {
      SelectedMeans(filter.filters, line);
      hide Texts, AddressOfLine, AnyMatches, Print, Matches;
      assert buffer + [] == buffer;
      var ip := ParseIPFromLine(line);
      var matches := false;
      if ip.Some? {
        matches := filter.Accepts(ip.value);
      }
      if matches {
        TextsPush(buffer, LogEntry(ip.value, line, lineNumber));
        buffer := buffer + [LogEntry(ip.value, line, lineNumber)];
      }
    }

    /** Any batch size writes the same text; it decides only how many lines go out at a time. */
    method Process(input: string, output: OutputStream, filter: CompositeFilter)
      requires buffer == []
      modifies this`buffer, output
      ensures buffer == []
      ensures output.text == old(output.text) + Unlines(Select(filter.filters, LinesOf(input)))
      ensures output.flushes == old(output.flushes) + Chunks(Select(filter.filters, LinesOf(input)), Batch())
      ensures forall i :: |old(output.flushes)| <= i < |output.flushes| ==>
                var full := if batchSize == 0 then 1 else batchSize;
                if i < |output.flushes| - 1 then |output.flushes[i]| == full else 1 <= |output.flushes[i]| <= full
    {
      hide Unlines, Chunks, Texts, Select, Selected, LinesOf, ReadSoFar, GetLine;
      var pos, lineNumber := 0, 0;
      ghost var read: seq<string>, flushed: seq<string>, whole: nat := [], [], 0;
      ReadNothing(input);
      NothingSelected(filter.filters, Batch());
      while pos < |input|
        invariant pos <= |input| && ReadSoFar(input, pos, read) && |buffer| < Batch()
        invariant flushed + Texts(buffer) == Select(filter.filters, read)
        invariant |flushed| == whole * Batch()
        invariant output.text == old(output.text) + Unlines(flushed)
        invariant output.flushes == old(output.flushes) + Chunks(flushed, Batch())
      {
        var (line, next) := GetLine(input, pos);
        ReadLine(input, pos, read);
        SelectPush(filter.filters, read, line);
        read := read + [line];
        pos, lineNumber := next, lineNumber + 1;
        KeepIfMatching(line, lineNumber, filter);
        if |buffer| >= batchSize {
          ghost var batch := Texts(buffer);
          NoText();
          FlushMore(output, old(output.text), old(output.flushes), flushed, whole);
          WholeBatches(whole, Batch());
          flushed, whole := flushed + batch, if batch == [] then whole else whole + 1;
          assert flushed + [] == flushed;
        }
      }
      ReadAll(input, read);
      NoText();
      assert flushed + [] == flushed;
      if buffer != [] {
        FlushMore(output, old(output.text), old(output.flushes), flushed, whole);
      }
      FlushSizes(old(output.flushes), Select(filter.filters, read));
    }

    lemma FlushSizes(before: seq<seq<string>>, ls: seq<string>)
      ensures var all, full := before + Chunks(ls, Batch()), if batchSize == 0 then 1 else batchSize;
              forall i :: |before| <= i < |all| ==>
                if i < |all| - 1 then |all[i]| == full else 1 <= |all[i]| <= full
    {
      forall i | 0 <= i < |Chunks(ls, Batch())| {
        ChunkSizes(ls, Batch(), i);
      }
    }
  }

  lemma WholeBatches(whole: nat, batch: nat)
    ensures whole * batch + batch == (whole + 1) * batch
  {
  }

  lemma NoText()
    ensures Unlines([]) == "" && Texts([]) == []
  {
  }

  lemma NothingSelected(fs: seq<Filter>, n: nat)
    ensures Select(fs, []) == [] && Texts([]) == [] && Unlines([]) == "" && Chunks<string>([], n) == []
  {
  }
}
