/** gbms_log_cstr_handler: cuts a text into log entries of at most 255 characters, one line at
    a time, with a loop that sometimes steps its own index back. */
module LogSplit {
  import opened Machine

  const ENTRY_SIZE: nat := 256          // LOG_BUFFER_ENTRY_SIZE

  // ------------------------------------------------------------- the reference

  /** The lines of a text: the pieces between newlines, at least one. */
  function Lines(s: string): (ls: seq<string>)
    ensures ls != []
  {
    if s == [] then [[]]
    else if s[0] == '\n' then [[]] + Lines(s[1..])
    else Glue([s[0]], Lines(s[1..]))
  }

  /** Puts `head` in front of the first line. */
  function Glue(head: string, ls: seq<string>): (r: seq<string>)
    requires ls != []
    ensures |r| == |ls|
  {
    [head + ls[0]] + ls[1..]
  }

  lemma GlueNil(ls: seq<string>)
    requires ls != []
    ensures Glue([], ls) == ls
  {
    assert [] + ls[0] == ls[0];
  }

  function Unlines(ls: seq<string>): string
    requires ls != []
  {
    if |ls| == 1 then ls[0] else ls[0] + "\n" + Unlines(ls[1..])
  }

  /** A line in pieces of 255 characters, the last one possibly shorter; at least one piece. */
  function Chunks(line: string): (cs: seq<string>)
    ensures cs != [] && forall c | c in cs :: |c| < ENTRY_SIZE
  {
    if |line| < ENTRY_SIZE then [line] else [line[..ENTRY_SIZE - 1]] + Chunks(line[ENTRY_SIZE - 1..])
  }

  function Entries(ls: seq<string>): seq<string> {
    if ls == [] then [] else Chunks(ls[0]) + Entries(ls[1..])
  }

  /** What the handler should log: every line's pieces, but not a blank first line. */
  function Expected(s: string): seq<string> {
    if Lines(s)[0] == [] then Entries(Lines(s)[1..]) else Entries(Lines(s))
  }

  function Flatten(cs: seq<string>): string {
    if cs == [] then [] else cs[0] + Flatten(cs[1..])
  }

  /** The lines put back together are the text. */
  lemma {:induction false} LinesRoundTrip(s: string)
    ensures Unlines(Lines(s)) == s
  {
    if s != [] {
      LinesRoundTrip(s[1..]);
      var rest := Lines(s[1..]);
      if s[0] == '\n' {
        assert Lines(s)[1..] == rest;
        assert Unlines(Lines(s)) == [] + "\n" + Unlines(rest);
      } else {
        UnlinesGlue([s[0]], rest);
      }
    }
  }

  lemma UnlinesGlue(head: string, ls: seq<string>)
    requires ls != []
    ensures Unlines(Glue(head, ls)) == head + Unlines(ls)
  {
    assert Glue(head, ls)[1..] == ls[1..];
    if |ls| > 1 {
      assert (head + ls[0]) + "\n" + Unlines(ls[1..]) == head + (ls[0] + "\n" + Unlines(ls[1..]));
    }
  }

  /** The pieces of a line put back together are the line. */
  lemma {:induction false} ChunksRoundTrip(line: string)
    ensures Flatten(Chunks(line)) == line
  {
    if |line| >= ENTRY_SIZE {
      ChunksRoundTrip(line[ENTRY_SIZE - 1..]);
      assert Chunks(line)[1..] == Chunks(line[ENTRY_SIZE - 1..]);
    } else {
      assert [line][1..] == [];
    }
  }

  /** The entries are the lines one after the other, each in its own entries: these put together are
      the line, all but the last of them full. */
  ghost predicate CutsInto(es: seq<string>, ls: seq<string>)
    decreases |ls|
  {
    if ls == [] then es == []
    else exists n | 1 <= n <= |es| ::
           && Flatten(es[..n]) == ls[0]
           && (forall k | 0 <= k < n - 1 :: |es[k]| == 255) && |es[n - 1]| <= 255
           && CutsInto(es[n..], ls[1..])
  }

  lemma {:induction false} ChunksAreFull(line: string)
    ensures forall k | 0 <= k < |Chunks(line)| - 1 :: |Chunks(line)[k]| == 255
  {
    if |line| >= ENTRY_SIZE {
      var head, rest := line[..ENTRY_SIZE - 1], Chunks(line[ENTRY_SIZE - 1..]);
      ChunksAreFull(line[ENTRY_SIZE - 1..]);
      assert Chunks(line) == [head] + rest;
      forall k | 0 <= k < |rest|
        ensures |Chunks(line)[k]| == 255
      {
        if k > 0 {
          assert Chunks(line)[k] == rest[k - 1];
        }
      }
    }
  }

  lemma {:induction false} EntriesCutInto(ls: seq<string>)
    ensures CutsInto(Entries(ls), ls)
    decreases |ls|
  {
    if ls != [] {
      var cs, rest := Chunks(ls[0]), Entries(ls[1..]);
      ChunksRoundTrip(ls[0]);
      ChunksAreFull(ls[0]);
      EntriesCutInto(ls[1..]);
      assert (cs + rest)[..|cs|] == cs && (cs + rest)[|cs|..] == rest;
    }
  }

  /** What is logged is every line of the text, in order and whole, but a blank first one. */
  lemma ExpectedCutsLines(s: string)
    ensures Unlines(Lines(s)) == s && forall l | l in Lines(s) :: '\n' !in l
    ensures CutsInto(Expected(s), if Lines(s)[0] == [] then Lines(s)[1..] else Lines(s))
  {
    LinesRoundTrip(s);
    LinesHaveNoNewline(s);
    EntriesCutInto(Lines(s));
    EntriesCutInto(Lines(s)[1..]);
  }

  // ------------------------------------------------------------- what the loop does

  /** The entries still to come, with text s ahead and `cur` collected of the current entry. */
  function Ahead(s: string, cur: string, started: bool): seq<string>
    decreases |s|, |cur|
  {
    if s == [] then (if started then [cur] else [])
    else if s[0] == '\n' then
      var rest := Ahead(s[1..], [], true);
      if started then [cur] + rest else rest
    else if |cur| >= ENTRY_SIZE - 1 then [cur] + Ahead(s, [], true)
    else Ahead(s[1..], cur + [s[0]], true)
  }

  lemma EntriesCons(l: string, ls: seq<string>)
    ensures Entries([l] + ls) == Chunks(l) + Entries(ls)
  {
    assert ([l] + ls)[1..] == ls;
  }

  /** A full piece in front of a line that goes on is a piece of its own. */
  lemma ChunksFull(cur: string, line: string)
    requires |cur| == ENTRY_SIZE - 1 && line != []
    ensures Chunks(cur + line) == [cur] + Chunks(line)
  {
    assert (cur + line)[..ENTRY_SIZE - 1] == cur && (cur + line)[ENTRY_SIZE - 1..] == line;
  }

  lemma LinesHead(s: string)
    requires s != [] && s[0] != '\n'
    ensures Lines(s)[0] != []
  {
  }

  lemma GlueGlue(a: string, b: string, ls: seq<string>)
    requires ls != []
    ensures Glue(a, Glue(b, ls)) == Glue(a + b, ls)
  {
    assert a + (b + ls[0]) == (a + b) + ls[0];
  }

  lemma EntriesFull(cur: string, ls: seq<string>)
    requires |cur| == ENTRY_SIZE - 1 && ls != [] && ls[0] != []
    ensures Entries(Glue(cur, ls)) == [cur] + Entries(ls)
  {
    ChunksFull(cur, ls[0]);
    EntriesCons(cur + ls[0], ls[1..]);
    ConcatAssoc([cur], Chunks(ls[0]), Entries(ls[1..]));
  }

  lemma {:induction false} AheadIsEntries(s: string, cur: string)
    requires |cur| < ENTRY_SIZE
    ensures Ahead(s, cur, true) == Entries(Glue(cur, Lines(s)))
    decreases |s|, |cur|
  {
    assert cur + [] == cur;
    if s == [] {
      EntriesCons(cur, []);
    } else if s[0] == '\n' {
      AheadIsEntries(s[1..], []);
      GlueNil(Lines(s[1..]));
      EntriesCons(cur, Lines(s[1..]));
    } else if |cur| >= ENTRY_SIZE - 1 {
      AheadIsEntries(s, []);
      GlueNil(Lines(s));
      LinesHead(s);
      EntriesFull(cur, Lines(s));
    } else {
      AheadIsEntries(s[1..], cur + [s[0]]);
      GlueGlue(cur, [s[0]], Lines(s[1..]));
    }
  }

  lemma AheadIsExpected(s: string)
    ensures Ahead(s, [], false) == Expected(s)
  {
    var ls := Lines(s);
    if s != [] && s[0] == '\n' {
      AheadIsEntries(s[1..], []);
      GlueNil(Lines(s[1..]));
      assert ls[1..] == Lines(s[1..]);
    } else if s != [] {
      AheadIsEntries(s[1..], [s[0]]);
      assert [] + [s[0]] == [s[0]];
    }
  }

  // ------------------------------------------------------------- entries are C strings

  /** A C string ends at its first NUL. */
  function CString(s: string): (r: string)
    ensures |r| <= |s|
    ensures r == s <==> '\0' !in s
  {
    if s == [] || s[0] == '\0' then [] else [s[0]] + CString(s[1..])
  }

  function Printed(es: seq<string>): seq<string> {
    if es == [] then [] else [CString(es[0])] + Printed(es[1..])
  }

  lemma PrintedCons(e: string, es: seq<string>)
    ensures Printed([e] + es) == [CString(e)] + Printed(es)
  {
    assert ([e] + es)[1..] == es;
  }

  lemma {:induction false} PrintedSameIff(es: seq<string>)
    ensures |Printed(es)| == |es|
    ensures Printed(es) == es <==> forall e | e in es :: '\0' !in e
  {
    if es != [] {
      PrintedSameIff(es[1..]);
      assert es == [es[0]] + es[1..];
      if Printed(es) == es {
        assert CString(es[0]) == es[0] && Printed(es)[1..] == es[1..];
      }
    }
  }

  lemma {:induction false} EntryCharsIff(s: string, cur: string, started: bool, c: char)
    requires c != '\n' && (cur != [] ==> started)
    ensures (exists e | e in Ahead(s, cur, started) :: c in e) <==> c in s || c in cur
    decreases |s|, |cur|
  {
    var a := Ahead(s, cur, started);
    if s == [] {
    } else if s[0] == '\n' {
      EntryCharsIff(s[1..], [], true, c);
      assert c in s <==> c in s[1..];
    } else if |cur| >= ENTRY_SIZE - 1 {
      EntryCharsIff(s, [], true, c);
    } else {
      EntryCharsIff(s[1..], cur + [s[0]], true, c);
      assert c in s <==> c == s[0] || c in s[1..];
    }
  }

  /** What reaches the log is exactly what should, if and only if the text has no NUL. */
  lemma LogExactIff(s: string)
    ensures Printed(Expected(s)) == Expected(s) <==> '\0' !in s
  {
    AheadIsExpected(s);
    EntryCharsIff(s, [], false, '\0');
    PrintedSameIff(Expected(s));
  }

  lemma {:induction false} LinesHaveNoNewline(s: string)
    ensures forall l | l in Lines(s) :: '\n' !in l
  {
    if s != [] {
      LinesHaveNoNewline(s[1..]);
    }
  }

  lemma {:induction false} ChunksKeepChars(line: string, c: char)
    requires c !in line
    ensures forall e | e in Chunks(line) :: c !in e
  {
    if |line| >= ENTRY_SIZE {
      ChunksKeepChars(line[ENTRY_SIZE - 1..], c);
    }
  }

  lemma {:induction false} EntriesOk(ls: seq<string>)
    requires forall l | l in ls :: '\n' !in l
    ensures forall e | e in Entries(ls) :: |e| < ENTRY_SIZE && '\n' !in e
  {
    if ls != [] {
      ChunksKeepChars(ls[0], '\n');
      EntriesOk(ls[1..]);
    }
  }

  /** No entry is longer than 255 characters and none contains a newline. */
  lemma ExpectedOk(s: string)
    ensures forall e | e in Expected(s) :: |e| < ENTRY_SIZE && '\n' !in e
  {
    LinesHaveNoNewline(s);
    EntriesOk(Lines(s));
    EntriesOk(Lines(s)[1..]);
  }

  /** What was printed and what is ahead, printed, make up the expected log. */
  ghost predicate OnTrack(log: seq<string>, text: string, i: nat, cur: string) {
    if i <= |text| then log + Printed(Ahead(text[i..], cur, i != 0)) == Printed(Expected(text))
    else log == Printed(Expected(text))
  }

  lemma StartOnTrack(text: string)
    ensures OnTrack([], text, 0, [])
  {
    assert text[0..] == text;
    AheadIsExpected(text);
  }

  lemma NewlineOnTrack(log: seq<string>, text: string, i: nat, cur: string)
    requires OnTrack(log, text, i, cur) && i < |text| && text[i] == '\n'
    ensures OnTrack(if i != 0 then log + [CString(cur)] else log, text, i + 1, [])
  {
    var rest := Ahead(text[i + 1..], [], true);
    assert text[i..][1..] == text[i + 1..];
    PrintedCons(cur, rest);
    ConcatAssoc(log, [CString(cur)], Printed(rest));
  }

  lemma EndOnTrack(log: seq<string>, text: string, cur: string)
    requires OnTrack(log, text, |text|, cur)
    ensures OnTrack(if |text| != 0 then log + [CString(cur)] else log, text, |text| + 1, [])
  {
    assert text[|text|..] == [];
    PrintedCons(cur, []);
    assert [cur] + [] == [cur] && log + [] == log;
  }

  lemma FullOnTrack(log: seq<string>, text: string, i: nat, cur: string)
    requires OnTrack(log, text, i, cur) && 0 < i < |text| && text[i] != '\n' && |cur| == ENTRY_SIZE - 1
    ensures OnTrack(log + [CString(cur)], text, i, [])
  {
    var rest := Ahead(text[i..], [], true);
    PrintedCons(cur, rest);
    ConcatAssoc(log, [CString(cur)], Printed(rest));
  }

  lemma CharOnTrack(log: seq<string>, text: string, i: nat, cur: string)
    requires OnTrack(log, text, i, cur) && i < |text| && text[i] != '\n' && |cur| < ENTRY_SIZE - 1
    ensures OnTrack(log, text, i + 1, cur + [text[i]])
  {
    assert text[i..][1..] == text[i + 1..];
  }

  /** The handler; it needs one byte past the text, where it puts a newline. */
  method Handle(buf: array<char>, len: nat) returns (log: seq<string>)
    requires len < buf.Length
    modifies buf
    ensures log == Printed(Expected(old(buf[..len])))
    ensures buf[..] == old(buf[..])[len := '\n']
  {
    ghost var text := buf[..len];
    buf[len] := '\n';
    log := [];
    var tmp := new char[ENTRY_SIZE];
    var i, j := 0, 0;
    ghost var cur: string := [];
    StartOnTrack(text);
    while i <= len
      invariant 0 <= i <= len + 1 && 0 <= j < ENTRY_SIZE && (j > 0 ==> i > 0)
      invariant buf[..len] == text && buf[..] == old(buf[..])[len := '\n']
      invariant cur == tmp[..j] && OnTrack(log, text, i, cur)
      decreases len + 1 - i, j
    {
      assert i < len ==> buf[i] == text[i];
      if buf[i] == '\n' {
        if i < len { NewlineOnTrack(log, text, i, cur); } else { EndOnTrack(log, text, cur); }
        tmp[j] := '\0';
        if i != 0 {
          log := log + [CString(tmp[..j])];
        }
        j, cur := 0, [];
      } else if j >= ENTRY_SIZE - 1 {
        FullOnTrack(log, text, i, cur);
        tmp[j] := '\0';
        log := log + [CString(tmp[..j])];
        i := i - 1;
        j, cur := 0, [];
      } else {
        CharOnTrack(log, text, i, cur);
        tmp[j] := buf[i];
        cur := cur + [buf[i]];
        j := j + 1;
      }
      i := i + 1;
    }
  }
}
