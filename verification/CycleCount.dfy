/** Binned cycle counts as text: gbms_cycle_count_cstr_bc prints them, and
    gbms_cycle_count_sscan_bc reads the text back. */
module CycleCount {
  import opened Machine
  import opened Errno

  const BUCKETS: nat := 10                       // GBMS_CCBIN_BUCKET_COUNT
  const CSTR_SIZE: nat := BUCKETS * 6 + 2        // GBMS_CCBIN_CSTR_SIZE
  const U16_MAX: int := 0xFFFF

  // ------------------------------------------------------------- decimal numbers

  function Digit(d: nat): char
    requires d < 10
  {
    '0' + d as char
  }

  predicate IsDigit(c: char) {
    '0' <= c <= '9'
  }

  /** What %d prints of a number that is not negative. */
  function Decimal(n: nat): (s: string)
    ensures s != [] && IsDigit(s[0])
  {
    if n < 10 then [Digit(n)] else Decimal(n / 10) + [Digit(n % 10)]
  }

  function Pow10(k: nat): nat {
    if k == 0 then 1 else 10 * Pow10(k - 1)
  }

  lemma {:induction false} DecimalLength(n: nat, k: nat)
    requires 0 < k && n < Pow10(k)
    ensures |Decimal(n)| <= k
  {
    if n >= 10 {
      assert k > 1;
      DecimalLength(n / 10, k - 1);
    }
  }

  /** Reads digits as long as there are any: the number, and the text after it. */
  function Digits(s: string, acc: nat): (nat, string) {
    if s == [] || !IsDigit(s[0]) then (acc, s)
    else Digits(s[1..], acc * 10 + (s[0] as int - '0' as int))
  }

  lemma {:induction false} DigitsOfDecimal(n: nat, rest: string)
    ensures Digits(Decimal(n) + rest, 0) == Digits(rest, n)
  {
    if n < 10 {
      assert ([Digit(n)] + rest)[1..] == rest;
    } else {
      var tail := [Digit(n % 10)] + rest;
      DigitsOfDecimal(n / 10, tail);
      assert Decimal(n) + rest == Decimal(n / 10) + tail;
      assert tail[1..] == rest;
    }
  }

  // ------------------------------------------------------------- printing

  /** The text before its last character is replaced. */
  function Spaced(cc: seq<u16>): string {
    if cc == [] then [] else Spaced(cc[..|cc| - 1]) + Decimal(cc[|cc| - 1]) + " "
  }

  /** Numbers separated by blanks, ended by a newline. */
  function Line(cc: seq<u16>): string
    requires cc != []
  {
    Decimal(cc[0]) + if |cc| == 1 then "\n" else " " + Line(cc[1..])
  }

  lemma {:induction false} SpacedLength(cc: seq<u16>)
    ensures |cc| <= |Spaced(cc)| <= 6 * |cc|
  {
    if cc != [] {
      SpacedLength(cc[..|cc| - 1]);
      assert Pow10(5) == 100000;
      DecimalLength(cc[|cc| - 1], 5);
    }
  }

  lemma SpacedSnoc(cc: seq<u16>, i: nat)
    requires i < |cc|
    ensures Spaced(cc[..i + 1]) == Spaced(cc[..i]) + (Decimal(cc[i]) + " ")
    ensures |Spaced(cc[..i + 1])| <= 6 * (i + 1)
  {
    assert cc[..i + 1][..i] == cc[..i] && cc[..i + 1][i] == cc[i];
    assert Spaced(cc[..i]) + Decimal(cc[i]) + " " == Spaced(cc[..i]) + (Decimal(cc[i]) + " ");
    SpacedLength(cc[..i + 1]);
  }

  lemma DropLast(a: string, b: string)
    requires b != []
    ensures (a + b)[..|a + b| - 1] == a + b[..|b| - 1]
  {
  }

  lemma {:induction false} SpacedFront(cc: seq<u16>)
    requires cc != []
    ensures Spaced(cc) == Decimal(cc[0]) + " " + Spaced(cc[1..])
  {
    var n := |cc|;
    if n == 1 {
      assert cc[..0] == [] && cc[1..] == [];
      assert Spaced(cc) == [] + Decimal(cc[0]) + " ";
      assert Decimal(cc[0]) + " " + [] == Decimal(cc[0]) + " ";
    } else {
      var front, rest := cc[..n - 1], cc[1..];
      SpacedFront(front);
      assert front[1..] == rest[..n - 2];
      var head, mid, end := Decimal(cc[0]) + " ", Spaced(front[1..]), Decimal(cc[n - 1]);
      assert Spaced(cc) == (head + mid) + end + " " && Spaced(rest) == mid + end + " ";
      ConcatAssoc(head, mid, end);
      ConcatAssoc(head, mid + end, " ");
    }
  }

  /** Replacing the last blank gives the line. */
  lemma {:induction false} SpacedIsLine(cc: seq<u16>)
    requires cc != []
    ensures |Spaced(cc)| > 0 && Spaced(cc)[..|Spaced(cc)| - 1] + "\n" == Line(cc)
  {
    SpacedFront(cc);
    var first := Decimal(cc[0]);
    if |cc| == 1 {
      assert Spaced(cc) == first + " ";
    } else {
      SpacedIsLine(cc[1..]);
      var t := Spaced(cc[1..]);
      assert Spaced(cc) == first + " " + t;
      DropLast(first + " ", t);
      ConcatAssoc(first + " ", t[..|t| - 1], "\n");
      ConcatAssoc(first, " ", t[..|t| - 1] + "\n");
    }
  }

  /** scnprintf into the `room` bytes from `off` on: what fits, then a NUL. */
  method Scnprintf(buf: array<char>, off: nat, room: nat, s: string) returns (n: nat)
    requires 0 < room && off + room <= buf.Length
    modifies buf
    ensures n == Min(|s|, room - 1)
    ensures buf[..off + n] == old(buf[..off]) + s[..n] && buf[off + n] == '\0'
  {
    n := if |s| < room then |s| else room - 1;
    forall k | 0 <= k < n { buf[off + k] := s[k]; }
    buf[off + n] := '\0';
  }

  /** At most n characters of s. */
  function Cut(s: string, n: nat): string {
    if |s| <= n then s else s[..n]
  }

  /** Cutting a text after each piece cuts the whole. */
  lemma CutAppend(s: string, t: string, n: nat)
    ensures Cut(s + t, n) == Cut(s, n) + t[..Min(|t|, n - |Cut(s, n)|)]
  {
  }

  /** The loop: one value and a blank at a time. */
  method PrintSpaced(buf: array<char>, size: nat, cc: seq<u16>) returns (len: nat)
    requires cc != [] && 2 <= size <= buf.Length
    modifies buf
    ensures len == |Cut(Spaced(cc), size - 1)| < size
    ensures buf[..len] == Cut(Spaced(cc), size - 1) && buf[len] == '\0'
  {
    len := 0;
    var i := 0;
    assert cc[..0] == [];
    while i < |cc|
      invariant 0 <= i <= |cc| && len == |Cut(Spaced(cc[..i]), size - 1)|
      invariant buf[..len] == Cut(Spaced(cc[..i]), size - 1) && (i > 0 ==> buf[len] == '\0')
    {
      len := PrintOne(buf, size, len, cc, i);
      i := i + 1;
    }
    assert cc[..|cc|] == cc;
  }

  method PrintOne(buf: array<char>, size: nat, off: nat, cc: seq<u16>, i: nat) returns (len: nat)
    requires i < |cc| && 2 <= size <= buf.Length && off == |Cut(Spaced(cc[..i]), size - 1)|
    requires buf[..off] == Cut(Spaced(cc[..i]), size - 1)
    modifies buf
    ensures len == |Cut(Spaced(cc[..i + 1]), size - 1)| < size
    ensures buf[..len] == Cut(Spaced(cc[..i + 1]), size - 1) && buf[len] == '\0'
  {
    var piece := Decimal(cc[i]) + " ";
    SpacedSnoc(cc, i);
    CutAppend(Spaced(cc[..i]), piece, size - 1);
    var n := Scnprintf(buf, off, size - off, piece);
    len := off + n;
  }

  /** gbms_cycle_count_cstr_bc: the line, or as much of it as the buffer takes, ended by a
      newline and a NUL. It is the whole line whenever the line and its NUL fit. */
  method Print(buf: array<char>, size: nat, cc: seq<u16>) returns (len: nat)
    requires cc != [] && 2 <= size <= buf.Length
    modifies buf
    ensures len == Min(|Line(cc)|, size - 1) && buf[len] == '\0'
    ensures |Line(cc)| < size ==> buf[..len] == Line(cc)
    ensures |Line(cc)| >= size ==> buf[..len] == Line(cc)[..len - 1] + "\n"
  {
    len := PrintSpaced(buf, size, cc);
    SpacedIsLine(cc);
    ghost var t := buf[..len];
    buf[len - 1] := '\n';
    assert buf[..len] == t[..len - 1] + "\n";
    assert t[..len - 1] == Line(cc)[..len - 1];
  }

  // ------------------------------------------------------------- parsing

  /** The kernel's isspace: blank, tab to carriage return, no-break space. */
  predicate IsBlank(c: char) {
    c == ' ' || '\t' <= c <= '\r' || c == '\U{A0}'
  }

  function SkipBlanks(s: string): (r: string)
    ensures |r| <= |s|
  {
    if s != [] && IsBlank(s[0]) then SkipBlanks(s[1..]) else s
  }

  /** The values that n conversions %d, separated by blanks, find at the start of s. The kernel's
      sscanf stores of each what an int keeps. */
  function Scan(s: string, n: nat): seq<int>
    decreases n
  {
    if n == 0 then []
    else
      var t := SkipBlanks(s);
      var minus := t != [] && t[0] == '-';
      var u := if minus then t[1..] else t;
      if u == [] || !IsDigit(u[0]) then []
      else
        var v: int, rest := Digits(u, 0).0, Digits(u, 0).1;
        [Signed32(if minus then -v else v)] + Scan(rest, n - 1)
  }

  /** A value replaces the count only if it is a u16 below the maximum. */
  function Accepted(old': u16, v: int): (r: u16)
  {
    if 0 <= v < U16_MAX then v else old'
  }

  /** gbms_cycle_count_sscan_bc: all ten values, or no change at all. */
  method Parse(ccount: array<u16>, text: string) returns (code: int)
    modifies ccount
    ensures ccount.Length != BUCKETS ==> code == ERANGE
    ensures ccount.Length == BUCKETS && |Scan(text, ccount.Length)| != BUCKETS ==> code == EINVAL
    ensures ccount.Length == BUCKETS && |Scan(text, ccount.Length)| == BUCKETS ==>
              && code == 0
              && forall i | 0 <= i < BUCKETS :: ccount[i] == Accepted(old(ccount[i]), Scan(text, ccount.Length)[i])
    ensures code != 0 ==> ccount[..] == old(ccount[..])
  {
    if ccount.Length != BUCKETS {
      return ERANGE;
    }
    var val := Scan(text, ccount.Length);
    if |val| != BUCKETS {
      return EINVAL;
    }
    Store(ccount, val);
    code := 0;
  }

  method Store(ccount: array<u16>, val: seq<int>)
    requires |val| == ccount.Length
    modifies ccount
    ensures forall i | 0 <= i < |val| :: ccount[i] == Accepted(old(ccount[i]), val[i])
  {
    var i := 0;
    while i < ccount.Length
      invariant 0 <= i <= ccount.Length
      invariant forall k | 0 <= k < i :: ccount[k] == Accepted(old(ccount[k]), val[k])
      invariant forall k | i <= k < ccount.Length :: ccount[k] == old(ccount[k])
    {
      if val[i] >= 0 && val[i] < U16_MAX {
        ccount[i] := val[i];
      }
      i := i + 1;
    }
  }

  lemma ScanStep(s: string, v: nat, rest: string, n: nat)
    requires n > 0 && v < TWO31 && SkipBlanks(s) == Decimal(v) + rest && (rest == [] || !IsDigit(rest[0]))
    ensures Scan(s, n) == [v] + Scan(rest, n - 1)
  {
    DigitsOfDecimal(v, rest);
    assert (Decimal(v) + rest)[0] == Decimal(v)[0];
  }

  /** The printed line, with or without a blank before it, scans back to its values. */
  lemma {:induction false} ScanLine(cc: seq<u16>, s: string)
    requires cc != [] && SkipBlanks(s) == Line(cc)
    ensures Scan(s, |cc|) == cc
  {
    if |cc| == 1 {
      ScanStep(s, cc[0], "\n", 1);
      assert cc == [cc[0]];
    } else {
      var rest := " " + Line(cc[1..]);
      ScanStep(s, cc[0], rest, |cc|);
      assert rest[1..] == Line(cc[1..]);
      LineStarts(cc[1..]);
      assert SkipBlanks(rest) == Line(cc[1..]);
      ScanLine(cc[1..], rest);
      assert cc == [cc[0]] + cc[1..];
    }
  }

  lemma LineStarts(cc: seq<u16>)
    requires cc != []
    ensures Line(cc) != [] && IsDigit(Line(cc)[0]) && SkipBlanks(Line(cc)) == Line(cc)
  {
    assert Line(cc)[0] == Decimal(cc[0])[0];
  }

  /** The buffer size the header declares is enough for any ten counts. */
  lemma DeclaredSizeFits(cc: seq<u16>)
    requires |cc| == BUCKETS
    ensures |Line(cc)| + 1 < CSTR_SIZE
  {
    SpacedLength(cc);
    SpacedIsLine(cc);
    assert |Line(cc)| == |Spaced(cc)|;
  }

  /** Printing ten counts into a buffer of the declared size and parsing the text into any array:
      every count below 65535 is restored, one at 65535 leaves the old value. So the array is
      restored if and only if each count is below 65535 or was there before. */
  method PrintThenParse(buf: array<char>, size: nat, cc: seq<u16>, ccount: array<u16>) returns (code: int)
    requires |cc| == BUCKETS == ccount.Length && CSTR_SIZE <= size <= buf.Length
    modifies buf, ccount
    ensures code == 0
    ensures forall i | 0 <= i < BUCKETS :: ccount[i] == if cc[i] < U16_MAX then cc[i] else old(ccount[i])
    ensures ccount[..] == cc <==> forall i | 0 <= i < BUCKETS :: cc[i] < U16_MAX || old(ccount[i]) == cc[i]
  {
    DeclaredSizeFits(cc);
    ghost var was := ccount[..];
    var len := Print(buf, size, cc);
    var text := buf[..len];
    LineStarts(cc);
    ScanLine(cc, text);
    code := Parse(ccount, text);
    RestoredIff(ccount[..], cc, was);
  }

  lemma RestoredIff(now: seq<u16>, cc: seq<u16>, was: seq<u16>)
    requires |now| == |cc| == |was|
    requires forall i | 0 <= i < |cc| :: now[i] == if cc[i] < U16_MAX then cc[i] else was[i]
    ensures now == cc <==> forall i | 0 <= i < |cc| :: cc[i] < U16_MAX || was[i] == cc[i]
  {
    if forall i | 0 <= i < |cc| :: cc[i] < U16_MAX || was[i] == cc[i] {
      assert forall i | 0 <= i < |cc| :: now[i] == cc[i];
    }
  }
}
