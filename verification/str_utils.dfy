/** Splitting and intersecting text (lib/base/str-utils.cpp). Each loop of the program is a
    method proved against a recursive definition, and the laws are proved of that definition. */
module StrUtils {

  // ----------------------------------------------------------------------------- splitLines

  predicate IsBreak(c: char) { c == '\n' || c == '\r' }

  ghost predicate BreakFree(s: string) {
    forall i :: 0 <= i < |s| ==> !IsBreak(s[i])
  }

  /** The length of the first line. */
  function LineLength(s: string): (n: nat)
    ensures n <= |s| && (n < |s| ==> IsBreak(s[n]))
  {
    if s == "" || IsBreak(s[0]) then 0 else 1 + LineLength(s[1..])
  }

  lemma {:induction false} LineIsBreakFree(s: string)
    ensures BreakFree(s[..LineLength(s)])
  {
    if s != "" && !IsBreak(s[0]) {
      LineIsBreakFree(s[1..]);
      assert s[..LineLength(s)] == [s[0]] + s[1..][..LineLength(s) - 1];
    }
  }

  /** Where the terminator at i, LF, CR LF or CR, ends. */
  function AfterBreak(s: string, i: nat): (next: nat)
    requires i < |s|
    ensures i < next <= |s|
  {
    if s[i] == '\r' && i + 1 < |s| && s[i + 1] == '\n' then i + 2 else i + 1
  }

  /** The lines of s: each one ends with a terminator, the last one may do without. */
  function Lines(s: string): seq<string>
    decreases |s|
  {
    if s == "" then []
    else
      var n := LineLength(s);
      if n == |s| then [s] else [s[..n]] + Lines(s[AfterBreak(s, n)..])
  }

  lemma {:induction false} LineLengthIs(s: string, n: nat)
    requires n <= |s| && BreakFree(s[..n]) && (n < |s| ==> IsBreak(s[n]))
    ensures LineLength(s) == n
  {
    if n > 0 {
      assert !IsBreak(s[..n][0]);
      assert s[1..][..n - 1] == s[..n][1..];
      LineLengthIs(s[1..], n - 1);
    }
  }

  lemma FirstLine(s: string, n: nat)
    requires n < |s| && BreakFree(s[..n]) && IsBreak(s[n])
    ensures Lines(s) == [s[..n]] + Lines(s[AfterBreak(s, n)..])
  {
    LineLengthIs(s, n);
  }

  /** The first line of s[start..] is s[start..i], and `next` is where the second begins. */
  lemma CutLine(s: string, start: nat, i: nat, next: nat)
    requires start <= i < |s| && BreakFree(s[start..i]) && IsBreak(s[i]) && next == AfterBreak(s, i)
    ensures Lines(s[start..]) == [s[start..i]] + Lines(s[next..])
  {
    hide Lines;
    var rest := s[start..];
    var n := i - start;
    assert rest[..n] == s[start..i] && rest[n] == s[i];
    FirstLine(rest, n);
    assert AfterBreak(rest, n) == next - start;
    assert rest[next - start..] == s[next..];
  }

  /** The loop of splitLines has pushed the lines of s before `start`. */
  ghost predicate Pushed(s: string, ret: seq<string>, start: nat) {
    start <= |s| && ret + Lines(s[start..]) == Lines(s)
  }

  lemma PushNone(s: string)
    ensures Pushed(s, [], 0)
  {
    assert s[0..] == s;
  }

  lemma PushLine(s: string, ret: seq<string>, start: nat, i: nat, next: nat)
    requires Pushed(s, ret, start)
    requires start <= i < |s| && IsBreak(s[i]) && forall k :: start <= k < i ==> !IsBreak(s[k])
    requires next == AfterBreak(s, i)
    ensures Pushed(s, ret + [s[start..i]], next)
  {
    hide Lines;
    CutLine(s, start, i, next);
    assert ret + ([s[start..i]] + Lines(s[next..])) == (ret + [s[start..i]]) + Lines(s[next..]);
  }

  lemma PushLast(s: string, ret: seq<string>, start: nat)
    requires Pushed(s, ret, start) && forall k :: start <= k < |s| ==> !IsBreak(s[k])
    ensures Lines(s) == if start < |s| then ret + [s[start..]] else ret
  {
    var rest := s[start..];
    if rest != "" {
      assert rest[..|rest|] == rest;
      LineLengthIs(rest, |rest|);
    }
  }

  method SplitLines(s: string) returns (ret: seq<string>)
    ensures ret == Lines(s)
  {
    hide Pushed;
    PushNone(s);
    ret := [];
    var i, lineStart := 0, 0;
    while i < |s|
      invariant lineStart <= i <= |s|
      invariant forall k :: lineStart <= k < i ==> !IsBreak(s[k])
      invariant Pushed(s, ret, lineStart)
    {
      if IsBreak(s[i]) {
        PushLine(s, ret, lineStart, i, AfterBreak(s, i));
      }
      if s[i] == '\n' {
        ret := ret + [s[lineStart..i]];
        i := i + 1;
        lineStart := i;
      } else if s[i] == '\r' {
        if (i + 1 < |s| && s[i + 1] != '\n') || i + 1 >= |s| {
          ret := ret + [s[lineStart..i]];
          i := i + 1;
          lineStart := i;
        } else {
          ret := ret + [s[lineStart..i]];
          i := i + 2;
          lineStart := i;
        }
      } else {
        i := i + 1;
      }
    }
    PushLast(s, ret, lineStart);
    if lineStart < |s| {
      ret := ret + [s[lineStart..]];
    }
  }

  lemma {:induction false} LinesAreBreakFree(s: string)
    ensures forall k :: 0 <= k < |Lines(s)| ==> BreakFree(Lines(s)[k])
    decreases |s|
  {
    if s != "" {
      var n := LineLength(s);
      LineIsBreakFree(s);
      assert s[..|s|] == s;
      if n < |s| {
        LinesAreBreakFree(s[AfterBreak(s, n)..]);
      }
    }
  }

  datatype Break = LF | CR | CRLF

  function BreakText(b: Break): string {
    match b
    case LF => "\n"
    case CR => "\r"
    case CRLF => "\r\n"
  }

  datatype Line = Line(text: string, end: Break)

  /** The lines with their terminators one after the other, then an unterminated rest. */
  function Joined(lines: seq<Line>, tail: string): string {
    if lines == [] then tail
    else lines[0].text + BreakText(lines[0].end) + Joined(lines[1..], tail)
  }

  function Texts(lines: seq<Line>): seq<string> {
    if lines == [] then [] else [lines[0].text] + Texts(lines[1..])
  }

  ghost predicate AllBreakFree(lines: seq<Line>) {
    forall k :: 0 <= k < |lines| ==> BreakFree(lines[k].text)
  }

  /** A line ended by CR before an empty one ended by LF: together they read as one CR LF. */
  predicate Fuses(lines: seq<Line>, k: nat)
    requires k < |lines|
  {
    k + 1 < |lines| && lines[k].end == CR && lines[k + 1] == Line("", LF)
  }

  /** The lines as they are read back. */
  function Fused(lines: seq<Line>): seq<Line> {
    if lines == [] then []
    else if Fuses(lines, 0) then [Line(lines[0].text, CRLF)] + Fused(lines[2..])
    else [lines[0]] + Fused(lines[1..])
  }

  lemma JoinedStart(lines: seq<Line>, tail: string)
    requires AllBreakFree(lines) && BreakFree(tail)
    ensures Joined(lines, tail) != "" && Joined(lines, tail)[0] == '\n' <==> lines != [] && lines[0] == Line("", LF)
  {
    if lines != [] {
      var text := lines[0].text;
      if text != "" {
        assert Joined(lines, tail)[0] == text[0] && !IsBreak(text[0]);
      } else {
        assert Joined(lines, tail)[0] == BreakText(lines[0].end)[0];
      }
    }
  }

  lemma OneLine(text: string, end: Break, rest: string)
    requires BreakFree(text)
    requires end == CR ==> rest == "" || rest[0] != '\n'
    ensures Lines(text + BreakText(end) + rest) == [text] + Lines(rest)
  {
    var s := text + BreakText(end) + rest;
    var n, next := |text|, |text| + |BreakText(end)|;
    assert s[..n] == text && s[next..] == rest;
    assert s[n] == BreakText(end)[0];
    if end == CRLF {
      assert s[n + 1] == '\n';
    } else if n + 1 < |s| {
      assert s[n + 1] == rest[0];
    }
    FirstLine(s, n);
  }

  /** Joining and splitting again gives the fused lines, and the rest if there is one. */
  lemma {:induction false} LinesOfJoined(lines: seq<Line>, tail: string)
    requires AllBreakFree(lines) && BreakFree(tail)
    ensures Lines(Joined(lines, tail)) == Texts(Fused(lines)) + if tail == "" then [] else [tail]
    decreases |lines|
  {
    if lines == [] {
      if tail != "" {
        assert tail[..|tail|] == tail;
        LineLengthIs(tail, |tail|);
      }
    } else if Fuses(lines, 0) {
      LinesOfJoined(lines[2..], tail);
      JoinedFused(lines, tail);
      OneLine(lines[0].text, CRLF, Joined(lines[2..], tail));
      Regroup([lines[0].text], Texts(Fused(lines[2..])), if tail == "" then [] else [tail]);
    } else {
      LinesOfJoined(lines[1..], tail);
      JoinedStart(lines[1..], tail);
      OneLine(lines[0].text, lines[0].end, Joined(lines[1..], tail));
      Regroup([lines[0].text], Texts(Fused(lines[1..])), if tail == "" then [] else [tail]);
    }
  }

  lemma JoinedFused(lines: seq<Line>, tail: string)
    requires lines != [] && Fuses(lines, 0)
    ensures Joined(lines, tail) == lines[0].text + BreakText(CRLF) + Joined(lines[2..], tail)
    ensures Texts(Fused(lines)) == [lines[0].text] + Texts(Fused(lines[2..]))
  {
    var rest := Joined(lines[2..], tail);
    assert lines[1..][1..] == lines[2..];
    assert Joined(lines[1..], tail) == "" + "\n" + rest;
    assert lines[0].text + "\r" + ("\n" + rest) == lines[0].text + "\r\n" + rest;
    assert ([Line(lines[0].text, CRLF)] + Fused(lines[2..]))[1..] == Fused(lines[2..]);
  }

  lemma {:induction false} FusedLength(lines: seq<Line>)
    ensures |Texts(Fused(lines))| <= |lines|
    ensures (exists k :: 0 <= k < |lines| && Fuses(lines, k)) ==> |Texts(Fused(lines))| < |lines|
    ensures !(exists k :: 0 <= k < |lines| && Fuses(lines, k)) ==> Fused(lines) == lines
    decreases |lines|
  {
    if lines != [] {
      if Fuses(lines, 0) {
        FusedLength(lines[2..]);
      } else {
        FusedLength(lines[1..]);
        forall k | 0 <= k < |lines| - 1 ensures Fuses(lines[1..], k) <==> Fuses(lines, k + 1) {
        }
        if k :| 0 <= k < |lines| && Fuses(lines, k) {
          assert Fuses(lines[1..], k - 1);
        }
      }
    }
  }

  lemma {:induction false} TextsLength(lines: seq<Line>)
    ensures |Texts(lines)| == |lines|
  {
    if lines != [] {
      TextsLength(lines[1..]);
    }
  }

  /** splitLines undoes joining, whatever terminator each line has, exactly if no CR line is
      followed by an empty LF line. */
  lemma SplitUndoesJoin(lines: seq<Line>, tail: string)
    requires AllBreakFree(lines) && BreakFree(tail)
    ensures Lines(Joined(lines, tail)) == Texts(lines) + (if tail == "" then [] else [tail])
      <==> forall k :: 0 <= k < |lines| ==> !Fuses(lines, k)
  {
    LinesOfJoined(lines, tail);
    FusedLength(lines);
    TextsLength(lines);
    var end := if tail == "" then [] else [tail];
    assert |Texts(Fused(lines)) + end| == |Texts(Fused(lines))| + |end|;
    assert |Texts(lines) + end| == |lines| + |end|;
  }

  /** Every text is a join of lines, and splitting gives just those. */
  lemma {:induction false} EveryTextIsJoined(s: string) returns (lines: seq<Line>, tail: string)
    ensures AllBreakFree(lines) && BreakFree(tail) && Joined(lines, tail) == s
    ensures forall k :: 0 <= k < |lines| ==> !Fuses(lines, k)
    ensures Lines(s) == Texts(lines) + if tail == "" then [] else [tail]
    decreases |s|
  {
    lines, tail := Unjoined(s);
    SplitUndoesJoin(lines, tail);
  }

  lemma {:induction false} Unjoined(s: string) returns (lines: seq<Line>, tail: string)
    ensures AllBreakFree(lines) && BreakFree(tail) && Joined(lines, tail) == s
    ensures forall k :: 0 <= k < |lines| ==> !Fuses(lines, k)
    decreases |s|
  {
    var n := LineLength(s);
    LineIsBreakFree(s);
    if n == |s| {
      lines, tail := [], s;
      assert s[..n] == s;
    } else {
      var m := AfterBreak(s, n);
      var end := if m == n + 2 then CRLF else if s[n] == '\r' then CR else LF;
      var rest: seq<Line>;
      rest, tail := Unjoined(s[m..]);
      JoinedStart(rest, tail);
      lines := [Line(s[..n], end)] + rest;
      NoNewFusion(lines[0], rest);
      assert lines[1..] == rest && s == s[..n] + s[n..m] + s[m..] && s[n..m] == BreakText(end);
    }
  }

  lemma NoNewFusion(line: Line, rest: seq<Line>)
    requires forall k :: 0 <= k < |rest| ==> !Fuses(rest, k)
    requires line.end == CR ==> rest == [] || rest[0] != Line("", LF)
    ensures forall k :: 0 <= k < |[line] + rest| ==> !Fuses([line] + rest, k)
  {
    forall k | 0 <= k < |[line] + rest| ensures !Fuses([line] + rest, k) {
      if k > 0 {
        assert !Fuses(rest, k - 1);
      }
    }
  }

  /** Two lines that come back as one. */
  lemma TwoLinesBecomeOne()
    ensures var lines := [Line("a", CR), Line("", LF)];
      Texts(lines) == ["a", ""] && Lines(Joined(lines, "")) == ["a"]
  {
    var lines := [Line("a", CR), Line("", LF)];
    assert Fuses(lines, 0) && lines[2..] == [];
    LinesOfJoined(lines, "");
  }

  /** Every terminator as LF. */
  function Normalized(s: string): string
    decreases |s|
  {
    if s == "" then ""
    else if IsBreak(s[0]) then "\n" + Normalized(s[AfterBreak(s, 0)..])
    else [s[0]] + Normalized(s[1..])
  }

  lemma {:induction false} NormalizedLine(s: string, n: nat)
    requires n < |s| && IsBreak(s[n]) && forall k :: 0 <= k < n ==> !IsBreak(s[k])
    ensures Normalized(s) == s[..n] + "\n" + Normalized(s[AfterBreak(s, n)..])
  {
    if n > 0 {
      var t := s[1..];
      assert Normalized(s) == [s[0]] + Normalized(t);
      hide Normalized;
      NormalizedLine(t, n - 1);
      assert AfterBreak(t, n - 1) == AfterBreak(s, n) - 1;
      assert t[AfterBreak(s, n) - 1..] == s[AfterBreak(s, n)..];
      var first, rest := t[..n - 1], Normalized(s[AfterBreak(s, n)..]);
      assert [s[0]] + first == s[..n];
      Regroup([s[0]], first + "\n", rest);
      Regroup([s[0]], first, "\n");
    }
  }

  lemma {:induction false} NormalizedWithoutBreaks(s: string)
    requires BreakFree(s)
    ensures Normalized(s) == s
  {
    if s != "" {
      NormalizedWithoutBreaks(s[1..]);
    }
  }

  /** The kind of terminator makes no difference to the lines. */
  lemma {:induction false} LinesIgnoreTerminators(s: string)
    ensures Lines(Normalized(s)) == Lines(s)
    decreases |s|
  {
    var n := LineLength(s);
    LineIsBreakFree(s);
    if n == |s| {
      assert s[..n] == s;
      NormalizedWithoutBreaks(s);
    } else {
      var rest := s[AfterBreak(s, n)..];
      forall k | 0 <= k < n ensures !IsBreak(s[k]) {
        assert s[..n][k] == s[k];
      }
      FirstLine(s, n);
      NormalizedLine(s, n);
      LinesIgnoreTerminators(rest);
      OneLine(s[..n], LF, Normalized(rest));
    }
  }

  // --------------------------------------------------------------------------- splitWithChar

  function FieldLength(s: string, d: char): (n: nat)
    ensures n <= |s| && d !in s[..n] && (n < |s| ==> s[n] == d)
  {
    if s == "" || s[0] == d then 0 else 1 + FieldLength(s[1..], d)
  }

  function Fields(s: string, d: char): (fields: seq<string>)
    ensures fields != []
    decreases |s|
  {
    var n := FieldLength(s, d);
    if n == |s| then [s] else [s[..n]] + Fields(s[n + 1..], d)
  }

  function NonEmpty(fields: seq<string>): seq<string> {
    if fields == [] then []
    else (if fields[0] == "" then [] else [fields[0]]) + NonEmpty(fields[1..])
  }

  /** Merging delimiters drops every empty field but the last. */
  function Merged(fields: seq<string>): seq<string>
    requires fields != []
  {
    NonEmpty(fields[..|fields| - 1]) + [fields[|fields| - 1]]
  }

  lemma {:induction false} FieldLengthIs(s: string, d: char, n: nat)
    requires n <= |s| && d !in s[..n] && (n < |s| ==> s[n] == d)
    ensures FieldLength(s, d) == n
  {
    if n > 0 {
      assert s[..n][0] == s[0];
      forall c | c in s[1..][..n - 1] ensures c in s[..n] {
        var i :| 0 <= i < n - 1 && s[1..][..n - 1][i] == c;
        assert s[..n][i + 1] == c;
      }
      FieldLengthIs(s[1..], d, n - 1);
    }
  }

  lemma MergedFirst(field: string, rest: seq<string>)
    requires rest != []
    ensures Merged([field] + rest) == (if field == "" then [] else [field]) + Merged(rest)
  {
    var all := [field] + rest;
    assert all[..|all| - 1][1..] == rest[..|rest| - 1];
  }

  function Split(s: string, d: char, merge: bool): seq<string> {
    if merge then Merged(Fields(s, d)) else Fields(s, d)
  }

  lemma CutField(s: string, d: char, start: nat, i: nat)
    requires start <= i < |s| && d !in s[start..i] && s[i] == d
    ensures Fields(s[start..], d) == [s[start..i]] + Fields(s[i + 1..], d)
  {
    var rest := s[start..];
    assert rest[..i - start] == s[start..i];
    FieldLengthIs(rest, d, i - start);
    assert rest[i - start + 1..] == s[i + 1..];
  }

  lemma LastField(s: string, d: char)
    requires d !in s
    ensures Fields(s, d) == [s]
  {
    assert s[..|s|] == s;
    FieldLengthIs(s, d, |s|);
  }

  /** The loop of splitWithChar has pushed the fields of s before `start`. */
  ghost predicate PushedFields(s: string, d: char, merge: bool, v: seq<string>, start: nat) {
    start <= |s| && v + Split(s[start..], d, merge) == Split(s, d, merge)
  }

  lemma PushNoFields(s: string, d: char, merge: bool)
    ensures PushedFields(s, d, merge, [], 0)
  {
    assert s[0..] == s;
  }

  lemma PushField(s: string, d: char, merge: bool, v: seq<string>, start: nat, i: nat)
    requires PushedFields(s, d, merge, v, start)
    requires start <= i < |s| && s[i] == d && forall k :: start <= k < i ==> s[k] != d
    ensures PushedFields(s, d, merge, if i > start || !merge then v + [s[start..i]] else v, i + 1)
  {
    var field, rest := s[start..i], Fields(s[i + 1..], d);
    CutField(s, d, start, i);
    if merge {
      MergedFirst(field, rest);
      Regroup(v, if field == "" then [] else [field], Merged(rest));
    } else {
      Regroup(v, [field], rest);
    }
  }

  lemma Regroup<T>(a: seq<T>, b: seq<T>, c: seq<T>)
    ensures a + (b + c) == (a + b) + c && a + [] == a
  {
  }

  lemma PushLastField(s: string, d: char, merge: bool, v: seq<string>, start: nat)
    requires PushedFields(s, d, merge, v, start) && forall k :: start <= k < |s| ==> s[k] != d
    ensures Split(s, d, merge) == v + [s[start..]]
  {
    LastField(s[start..], d);
  }

  method SplitWithChar(s: string, delimiter: char, isMergeDelimiter: bool) returns (v: seq<string>)
    ensures v == Split(s, delimiter, isMergeDelimiter)
  {
    hide PushedFields;
    PushNoFields(s, delimiter, isMergeDelimiter);
    v := [];
    var start, i := 0, 0;
    while i < |s|
      invariant start <= i <= |s|
      invariant forall k :: start <= k < i ==> s[k] != delimiter
      invariant PushedFields(s, delimiter, isMergeDelimiter, v, start)
    {
      if delimiter == s[i] {
        PushField(s, delimiter, isMergeDelimiter, v, start, i);
        if i > start || !isMergeDelimiter {
          v := v + [s[start..i]];
        }
        i := i + 1;
        start := i;
      } else {
        i := i + 1;
      }
    }
    PushLastField(s, delimiter, isMergeDelimiter, v, start);
    v := v + [s[start..]];
  }

  function Join(fields: seq<string>, d: char): string
    requires fields != []
  {
    if |fields| == 1 then fields[0] else fields[0] + [d] + Join(fields[1..], d)
  }

  /** How often x occurs in xs. */
  function Count<T(==)>(xs: seq<T>, x: T): nat {
    if xs == [] then 0 else (if xs[0] == x then 1 else 0) + Count(xs[1..], x)
  }

  lemma {:induction false} CountAppended<T>(a: seq<T>, b: seq<T>, x: T)
    ensures Count(a + b, x) == Count(a, x) + Count(b, x)
  {
    if a == [] {
      assert a + b == b;
    } else {
      assert (a + b)[1..] == a[1..] + b;
      CountAppended(a[1..], b, x);
    }
  }

  lemma {:induction false} CountIsMultiplicity<T>(xs: seq<T>, x: T)
    ensures Count(xs, x) == multiset(xs)[x]
  {
    if xs != [] {
      CountIsMultiplicity(xs[1..], x);
      assert xs == [xs[0]] + xs[1..];
    }
  }

  lemma {:induction false} CountAcross(s: string, d: char, n: nat)
    requires n <= |s| && d !in s[..n] && (n < |s| ==> s[n] == d)
    ensures Count(s, d) == if n < |s| then 1 + Count(s[n + 1..], d) else 0
  {
    if n > 0 {
      assert s[..n][0] == s[0] && s[1..][..n - 1] == s[..n][1..];
      CountAcross(s[1..], d, n - 1);
    }
  }

  /** Splitting loses nothing: the fields are free of the delimiter, and joined again they are
      the text. */
  lemma {:induction false} JoinUndoesSplit(s: string, d: char)
    ensures Join(Fields(s, d), d) == s
    ensures forall k :: 0 <= k < |Fields(s, d)| ==> d !in Fields(s, d)[k]
    decreases |s|
  {
    var n := FieldLength(s, d);
    if n == |s| {
      assert s[..n] == s;
    } else {
      JoinUndoesSplit(s[n + 1..], d);
      JoinOfCut(s, d, n);
    }
  }

  /** There is one more field than delimiters. */
  lemma {:induction false} OneFieldPerDelimiter(s: string, d: char)
    ensures |Fields(s, d)| == Count(s, d) + 1
    decreases |s|
  {
    var n := FieldLength(s, d);
    CountAcross(s, d, n);
    if n < |s| {
      OneFieldPerDelimiter(s[n + 1..], d);
    }
  }

  lemma JoinOfCut(s: string, d: char, n: nat)
    requires n < |s| && s[n] == d && Join(Fields(s[n + 1..], d), d) == s[n + 1..]
    ensures Join([s[..n]] + Fields(s[n + 1..], d), d) == s
  {
    assert ([s[..n]] + Fields(s[n + 1..], d))[1..] == Fields(s[n + 1..], d);
    assert s == s[..n] + [d] + s[n + 1..];
  }

  /** And any fields free of the delimiter come back from their join. */
  lemma {:induction false} SplitUndoesJoinWithChar(fields: seq<string>, d: char)
    requires fields != [] && forall k :: 0 <= k < |fields| ==> d !in fields[k]
    ensures Fields(Join(fields, d), d) == fields
  {
    if |fields| == 1 {
      LastField(fields[0], d);
    } else {
      FieldBefore(fields[0], Join(fields[1..], d), d);
      hide Fields;
      SplitUndoesJoinWithChar(fields[1..], d);
    }
  }

  lemma FieldBefore(field: string, rest: string, d: char)
    requires d !in field
    ensures Fields(field + [d] + rest, d) == [field] + Fields(rest, d)
  {
    var s, n := field + [d] + rest, |field|;
    assert s[..n] == field && s[n] == d && s[n + 1..] == rest;
    FieldLengthIs(s, d, n);
  }

  lemma {:induction false} NonEmptyAppend(a: seq<string>, b: seq<string>)
    ensures NonEmpty(a + b) == NonEmpty(a) + NonEmpty(b)
  {
    if a == [] {
      assert a + b == b;
    } else {
      assert (a + b)[1..] == a[1..] + b;
      NonEmptyAppend(a[1..], b);
    }
  }

  /** With merging, fields come back from their join without the empty ones, the last aside:
      an empty field more or less makes no difference, any other one comes back in its place. */
  lemma MergingDropsEmpties(before: seq<string>, field: string, after: seq<string>, last: string, d: char)
    requires forall k :: 0 <= k < |before| ==> d !in before[k]
    requires forall k :: 0 <= k < |after| ==> d !in after[k]
    requires d !in field && d !in last
    ensures Split(Join([last], d), d, true) == [last]
    ensures Split(Join(before + [field] + after + [last], d), d, true)
         == NonEmpty(before) + (if field == "" then [] else [field]) + NonEmpty(after) + [last]
  {
    hide Join, Split, NonEmpty;
    MergedJoin(before + [field] + after, last, d);
    MergedJoin([], last, d);
    assert [] + [last] == [last];
    NonEmptyAppend(before + [field], after);
    NonEmptyAppend(before, [field]);
    NonEmptyOne(field);
  }

  lemma MergedJoin(front: seq<string>, last: string, d: char)
    requires forall k :: 0 <= k < |front| ==> d !in front[k]
    requires d !in last
    ensures Split(Join(front + [last], d), d, true) == NonEmpty(front) + [last]
  {
    hide Join, NonEmpty;
    SplitUndoesJoinWithChar(front + [last], d);
    assert (front + [last])[..|front|] == front;
  }

  lemma NonEmptyOne(field: string)
    ensures NonEmpty([field]) == (if field == "" then [] else [field]) && NonEmpty([]) == []
  {
    assert [field][1..] == [];
  }

  // ------------------------------------------------------------------------------ intersect

  function Copies(x: string, n: nat): seq<string> {
    seq(n, _ => x)
  }

  /** Each element of a, in order, as often as b holds it. */
  function Intersection(a: seq<string>, b: seq<string>): seq<string> {
    if a == [] then [] else Copies(a[0], multiset(b)[a[0]]) + Intersection(a[1..], b)
  }

  lemma {:induction false} IntersectionLast(a: seq<string>, x: string, b: seq<string>)
    ensures Intersection(a + [x], b) == Intersection(a, b) + Copies(x, multiset(b)[x])
  {
    if a == [] {
      assert [x][1..] == [];
    } else {
      assert (a + [x])[1..] == a[1..] + [x];
      IntersectionLast(a[1..], x, b);
    }
  }

  /** The order is that of the first list. */
  lemma {:induction false} IntersectionAppend(a: seq<string>, a': seq<string>, b: seq<string>)
    ensures Intersection(a + a', b) == Intersection(a, b) + Intersection(a', b)
  {
    if a == [] {
      assert a + a' == a';
    } else {
      assert (a + a')[1..] == a[1..] + a';
      IntersectionAppend(a[1..], a', b);
    }
  }

  method Intersect(a: seq<string>, b: seq<string>) returns (result: seq<string>)
    ensures result == Intersection(a, b)
  {
    result := [];
    for i := 0 to |a|
      invariant result == Intersection(a[..i], b)
    {
      ghost var before := result;
      for j := 0 to |b|
        invariant result == before + Copies(a[i], multiset(b[..j])[a[i]])
      {
        assert b[..j + 1] == b[..j] + [b[j]];
        if a[i] == b[j] {
          result := result + [a[i]];
        }
      }
      assert b[..|b|] == b && a[..i + 1] == a[..i] + [a[i]];
      IntersectionLast(a[..i], a[i], b);
    }
    assert a[..|a|] == a;
  }

  lemma {:induction false} CopiesCount(x: string, n: nat, y: string)
    ensures Count(Copies(x, n), y) == if x == y then n else 0
  {
    if n > 0 {
      assert Copies(x, n)[1..] == Copies(x, n - 1);
      CopiesCount(x, n - 1, y);
    }
  }

  /** A value comes out as often as the product of how often each list holds it. */
  lemma {:induction false} IntersectionCounts(a: seq<string>, b: seq<string>, x: string)
    ensures Count(Intersection(a, b), x) == Count(a, x) * Count(b, x)
  {
    if a != [] {
      CountIsMultiplicity(b, a[0]);
      CopiesCount(a[0], multiset(b)[a[0]], x);
      CountAppended(Copies(a[0], multiset(b)[a[0]]), Intersection(a[1..], b), x);
      IntersectionCounts(a[1..], b, x);
      ProductGrows(Count(a[1..], x), Count(b, x), a[0] == x);
    }
  }

  lemma ProductGrows(m: nat, n: nat, more: bool)
    ensures (m + if more then 1 else 0) * n == m * n + if more then n else 0
  {
  }

  /** Swapping the lists only reorders the result. */
  lemma IntersectionCommutes(a: seq<string>, b: seq<string>)
    ensures multiset(Intersection(a, b)) == multiset(Intersection(b, a))
  {
    forall x ensures multiset(Intersection(a, b))[x] == multiset(Intersection(b, a))[x] {
      IntersectionCounts(a, b, x);
      IntersectionCounts(b, a, x);
      CountIsMultiplicity(Intersection(a, b), x);
      CountIsMultiplicity(Intersection(b, a), x);
    }
  }
}
