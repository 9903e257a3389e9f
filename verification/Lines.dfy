/** Texts as sequences of lines, and sequences of lines as chunks. */
module Lines {

  /** The first newline, or the end of the text. */
  function LineEnd(s: string): (e: nat)
    ensures e <= |s| && '\n' !in s[..e] && (e < |s| ==> s[e] == '\n')
  {
    if s == [] || s[0] == '\n' then 0 else
    var e := LineEnd(s[1..]);
    assert s[..e + 1] == [s[0]] + s[1..][..e];
    e + 1
  }

  /** The lines that `std::getline` delivers: the text after the last newline is one only if it is not empty. */
  function LinesOf(s: string): seq<string>
    decreases |s|
  {
    if s == [] then [] else
    var e := LineEnd(s);
    [s[..e]] + if e < |s| then LinesOf(s[e + 1..]) else []
  }

  /** Each line followed by a newline. */
  function Unlines(ls: seq<string>): string {
    if ls == [] then "" else ls[0] + "\n" + Unlines(ls[1..])
  }

  function Concat<T>(ss: seq<seq<T>>): seq<T> {
    if ss == [] then [] else ss[0] + Concat(ss[1..])
  }

  /** `std::getline` at a position before the end: the line, and where the next one starts. */
  function GetLine(s: string, pos: nat): (string, nat)
    requires pos < |s|
  {
    var e := LineEnd(s[pos..]);
    (s[pos..][..e], if pos + e < |s| then pos + e + 1 else |s|)
  }

  lemma LinesFrom(s: string, pos: nat)
    requires pos < |s|
    ensures var (line, next) := GetLine(s, pos); pos < next <= |s| && LinesOf(s[pos..]) == [line] + LinesOf(s[next..])
  {
    var e := LineEnd(s[pos..]);
    if pos + e < |s| { assert s[pos..][e + 1..] == s[pos + e + 1..]; }
  }

  /** The lines read so far, and those still to read from `pos` on, are the lines of the text. */
  ghost predicate ReadSoFar(text: string, pos: nat, read: seq<string>)
    requires pos <= |text|
  {
    read + LinesOf(text[pos..]) == LinesOf(text)
  }

  lemma ReadNothing(text: string)
    ensures ReadSoFar(text, 0, [])
  {
    assert text[0..] == text;
  }

  lemma ReadLine(text: string, pos: nat, read: seq<string>)
    requires pos < |text| && ReadSoFar(text, pos, read)
    ensures var (line, next) := GetLine(text, pos); pos < next <= |text| && ReadSoFar(text, next, read + [line])
  {
    var (line, next) := GetLine(text, pos);
    LinesFrom(text, pos);
    assert read + [line] + LinesOf(text[next..]) == read + LinesOf(text[pos..]);
  }

  lemma ReadAll(text: string, read: seq<string>)
    requires ReadSoFar(text, |text|, read)
    ensures read == LinesOf(text)
  {
    assert text[|text|..] == [];
  }

  predicate OneLine(line: string) {
    '\n' !in line
  }

  lemma {:induction false} LinesAreLines(s: string)
    ensures forall i :: 0 <= i < |LinesOf(s)| ==> OneLine(LinesOf(s)[i])
    decreases |s|
  {
    if s != [] && LineEnd(s) < |s| { LinesAreLines(s[LineEnd(s) + 1..]); }
  }

  lemma UnlinesCons(line: string, ls: seq<string>)
    ensures Unlines([line] + ls) == line + "\n" + Unlines(ls)
  {
    assert ([line] + ls)[1..] == ls;
  }

  lemma ConcatCons<T>(s: seq<T>, ss: seq<seq<T>>)
    ensures Concat([s] + ss) == s + Concat(ss)
  {
    assert ([s] + ss)[1..] == ss;
  }

  lemma Cut(s: string, e: nat)
    requires e < |s| && s[e] == '\n'
    ensures s == s[..e] + "\n" + s[e + 1..]
  {
  }

  function Terminated(s: string): string {
    if s == [] || s[|s| - 1] == '\n' then s else s + "\n"
  }

  lemma TerminatedRest(front: string, rest: string)
    ensures Terminated(front + "\n" + rest) == front + "\n" + Terminated(rest)
  {
    var s := front + "\n" + rest;
    if rest != [] { assert s[|s| - 1] == rest[|rest| - 1]; } else { assert s[|s| - 1] == '\n'; }
    assert front + "\n" + (rest + "\n") == s + "\n";
  }

  lemma OnlyLine(s: string)
    requires s != [] && LineEnd(s) == |s|
    ensures Unlines(LinesOf(s)) == s + "\n" && s[|s| - 1] != '\n'
  {
    assert s[..|s|] == s;
    assert [s] + [] == [s];
    UnlinesCons(s, []);
  }

  /** Only a missing newline at the end is added. */
  lemma {:induction false} UnlinesOfLines(s: string)
    ensures Unlines(LinesOf(s)) == Terminated(s)
    ensures Unlines(LinesOf(s)) == if s == "" || s[|s| - 1] == '\n' then s else s + "\n"
    decreases |s|
  {
    if s != [] && LineEnd(s) < |s| {
      hide Unlines, Terminated;
      var line, rest := s[..LineEnd(s)], s[LineEnd(s) + 1..];
      UnlinesCons(line, LinesOf(rest));
      UnlinesOfLines(rest);
      Cut(s, LineEnd(s));
      TerminatedRest(line, rest);
    } else if s != [] {
      OnlyLine(s);
    }
  }

  lemma LineEndOf(line: string, rest: string)
    requires OneLine(line)
    ensures LineEnd(line + "\n" + rest) == |line|
  {
    var s := line + "\n" + rest;
    assert s[|line|] == '\n' && forall i :: 0 <= i < |line| ==> s[i] == line[i];
    var e := LineEnd(s);
    assert forall i :: 0 <= i < e ==> s[..e][i] == s[i];
  }

  /** Splitting what was joined gives the same lines. */
  lemma {:induction false} LinesOfUnlines(ls: seq<string>)
    requires forall i :: 0 <= i < |ls| ==> OneLine(ls[i])
    ensures LinesOf(Unlines(ls)) == ls
  {
    if ls != [] {
      var s := Unlines(ls);
      LinesOfUnlines(ls[1..]);
      LineEndOf(ls[0], Unlines(ls[1..]));
      assert s[..|ls[0]|] == ls[0] && s[|ls[0]| + 1..] == Unlines(ls[1..]);
    }
  }

  lemma {:induction false} UnlinesAppend(a: seq<string>, b: seq<string>)
    ensures Unlines(a + b) == Unlines(a) + Unlines(b)
  {
    if a == [] {
      assert a + b == b;
    } else {
      assert (a + b)[1..] == a[1..] + b;
      UnlinesAppend(a[1..], b);
    }
  }

  lemma UnlinesOne(line: string)
    ensures Unlines([line]) == line + "\n"
  {
    assert [line][1..] == [];
  }

  // ----- chunks

  /** Groups of `n`, the last one possibly shorter; for zero, one group. */
  function Chunks<T>(ls: seq<T>, n: nat): seq<seq<T>> {
    if ls == [] then [] else if n == 0 || |ls| <= n then [ls] else [ls[..n]] + Chunks(ls[n..], n)
  }

  lemma {:induction false} ChunksLoseNothing<T>(ls: seq<T>, n: nat)
    ensures Concat(Chunks(ls, n)) == ls
  {
    if ls != [] {
      if n == 0 || |ls| <= n {
        assert [ls] + [] == [ls];
        ConcatCons(ls, []);
      } else {
        ConcatCons(ls[..n], Chunks(ls[n..], n));
        ChunksLoseNothing(ls[n..], n);
        assert ls[..n] + ls[n..] == ls;
      }
    }
  }

  /** All chunks but the last hold exactly `n`, and the last holds 1 to `n`. */
  lemma {:induction false} ChunkSizes<T>(ls: seq<T>, n: nat, i: nat)
    requires n > 0 && i < |Chunks(ls, n)|
    ensures if i < |Chunks(ls, n)| - 1 then |Chunks(ls, n)[i]| == n else 1 <= |Chunks(ls, n)[i]| <= n
  {
    if |ls| > n && i > 0 { ChunkSizes(ls[n..], n, i - 1); }
    if |ls| > n { assert Chunks(ls[n..], n) != []; }
  }

  /** Chunk number `i` holds the elements from `i * n` on. */
  lemma {:induction false} ChunkAt<T>(ls: seq<T>, n: nat, i: nat)
    requires n > 0 && i < |Chunks(ls, n)|
    ensures 0 <= i * n < |ls|
    ensures Chunks(ls, n)[i] == if |ls| - i * n <= n then ls[i * n..] else ls[i * n..i * n + n]
  {
    if i == 0 {
      assert ls[0..] == ls;
    } else {
      var rest := ls[n..];
      ChunkAt(rest, n, i - 1);
      assert i * n == (i - 1) * n + n;
      assert rest[(i - 1) * n..] == ls[i * n..];
      if |ls| - i * n > n { assert rest[(i - 1) * n..(i - 1) * n + n] == ls[i * n..i * n + n]; }
    }
  }

  /** Whole chunks can be taken off the front. */
  lemma {:induction false} ChunksAppend<T>(a: seq<T>, b: seq<T>, n: nat, whole: nat)
    requires n > 0 && |a| == whole * n
    ensures Chunks(a + b, n) == Chunks(a, n) + Chunks(b, n)
    decreases whole
  {
    if whole == 0 {
      assert a + b == b;
    } else {
      assert |a| == (whole - 1) * n + n && (whole - 1) * n >= 0;
      assert (a + b)[..n] == a[..n] && (a + b)[n..] == a[n..] + b;
      ChunksAppend(a[n..], b, n, whole - 1);
      if |a| == n {
        assert a[..n] == a && a[n..] == [];
        if b == [] { assert a + b == a; }
      }
    }
  }

  /** The next chunk, behind whole ones, is complete or the last. */
  lemma ChunkAdded<T>(done: seq<T>, open: seq<T>, n: nat, whole: nat)
    requires open != [] && if n == 0 then done == [] else |done| == whole * n && |open| <= n
    ensures Chunks(done + open, n) == Chunks(done, n) + [open]
  {
    if n == 0 {
      assert done + open == open;
    } else {
      ChunksAppend(done, open, n, whole);
    }
  }
}
