/** The bounded, line-wrapping log (src/scrolling_log.cpp), against the simple reading
    "wrap the whole text and keep the last lines". The source's width w makes lines of up to
    w + 1 characters; `n` below is that w + 1. */
module ScrollingLog {
  import opened Bytes
  import opened Wrappers
  import opened Numbers

  const NEWLINE: byte := 0x0A

  // ----- Wrapping a whole text

  /** The finished lines of a text, and the line still being written. */
  datatype Wrapped = Wrapped(lines: seq<bytes>, rest: bytes)

  /** The position of the first newline, or the length. */
  function NewlineAt(text: bytes): (p: nat)
    ensures p <= |text|
    ensures p < |text| ==> text[p] == NEWLINE
    ensures forall q | 0 <= q < p :: text[q] != NEWLINE
  {
    if text == [] || text[0] == NEWLINE then 0 else 1 + NewlineAt(text[1..])
  }

  /** The length of the first finished line, or 0: up to a newline among the first `n`
      characters, else `n` characters as soon as another one follows. */
  function FirstLine(text: bytes, n: nat): (k: nat)
    requires n >= 1
    ensures k <= |text| && k <= n
  {
    var p := NewlineAt(text);
    if p < |text| && p < n then p + 1
    else if |text| > n then n
    else 0
  }

  function Wrap(text: bytes, n: nat): Wrapped
    requires n >= 1
    decreases |text|
  {
    var k := FirstLine(text, n);
    if k == 0 then Wrapped([], text)
    else
      var w := Wrap(text[k..], n);
      Wrapped([text[..k]] + w.lines, w.rest)
  }

  /** Finishes a line that has reached `n` characters. */
  function Full(w: Wrapped, n: nat): Wrapped {
    if |w.rest| >= n then Wrapped(w.lines + [w.rest], []) else w
  }

  /** Adds a character to the current line; a newline finishes it. */
  function Add(w: Wrapped, ch: byte): Wrapped {
    if ch == NEWLINE then Wrapped(w.lines + [w.rest + [ch]], []) else Wrapped(w.lines, w.rest + [ch])
  }

  /** One more character: a full line is finished before it, a newline finishes its own. */
  function Put(w: Wrapped, ch: byte, n: nat): Wrapped {
    Add(Full(w, n), ch)
  }

  lemma WrapUnfold(text: bytes, n: nat)
    requires n >= 1
    ensures var k := FirstLine(text, n);
            Wrap(text, n) == if k == 0 then Wrapped([], text)
                             else Wrapped([text[..k]] + Wrap(text[k..], n).lines, Wrap(text[k..], n).rest)
  {
  }

  lemma {:induction false} NewlineAppend(text: bytes, ch: byte)
    ensures NewlineAt(text + [ch]) ==
            if NewlineAt(text) < |text| then NewlineAt(text)
            else if ch == NEWLINE then |text| else |text| + 1
  {
    if text == [] {
      assert text + [ch] == [ch];
      assert [ch][1..] == [];
    } else {
      assert (text + [ch])[0] == text[0];
      assert (text + [ch])[1..] == text[1..] + [ch];
      NewlineAppend(text[1..], ch);
    }
  }

  lemma {:induction false} NewlineAfter(text: bytes, k: nat)
    requires k <= NewlineAt(text)
    ensures NewlineAt(text[k..]) == NewlineAt(text) - k
  {
    if k == 0 {
      assert text[0..] == text;
    } else {
      NewlineAfter(text[1..], k - 1);
      assert text[1..][k - 1..] == text[k..];
    }
  }

  lemma NewlineEmpty()
    ensures NewlineAt([]) == 0
  {
  }

  lemma FirstLineKept(text: bytes, ch: byte, n: nat)
    requires n >= 1 && FirstLine(text, n) > 0
    ensures FirstLine(text + [ch], n) == FirstLine(text, n)
  {
    NewlineAppend(text, ch);
  }

  lemma WrapOne(ch: byte, n: nat)
    requires n >= 1
    ensures Wrap([ch], n) == Put(Wrapped([], []), ch, n)
  {
    NewlineAppend([], ch);
    assert [] + [ch] == [ch];
    assert [ch][..1] == [ch] && [ch][1..] == [];
    assert Wrap([], n) == Wrapped([], []);
  }

  lemma WrapShort(text: bytes, ch: byte, n: nat)
    requires n >= 1 && FirstLine(text, n) == 0
    ensures Wrap(text + [ch], n) == Put(Wrapped([], text), ch, n)
  {
    hide NewlineAt, Wrap, NEWLINE;
    var longer := text + [ch];
    NewlineAppend(text, ch);
    WrapUnfold([], n);
    WrapUnfold(longer, n);
    NewlineEmpty();
    if |text| == n {
      assert FirstLine(longer, n) == n;
      assert longer[..n] == text && longer[n..] == [ch];
      WrapOne(ch, n);
    } else if ch == NEWLINE {
      assert FirstLine(longer, n) == |longer|;
      assert longer[..|longer|] == longer && longer[|longer|..] == [];
    } else {
      assert FirstLine(longer, n) == 0;
    }
  }

  /** Wrapping is what the character loop computes. */
  lemma {:induction false} WrapAppend(text: bytes, ch: byte, n: nat)
    requires n >= 1
    ensures Wrap(text + [ch], n) == Put(Wrap(text, n), ch, n)
    decreases |text|
  {
    hide NewlineAt, FirstLine;
    var k := FirstLine(text, n);
    if k == 0 {
      WrapShort(text, ch, n);
    } else {
      FirstLineKept(text, ch, n);
      assert (text + [ch])[..k] == text[..k] && (text + [ch])[k..] == text[k..] + [ch];
      WrapAppend(text[k..], ch, n);
    }
  }

  // ----- What wrapping means

  lemma SplitJoin<T>(s: seq<T>, k: nat, a: seq<T>, b: seq<T>)
    requires k <= |s| && a + b == s[k..]
    ensures s[..k] + a + b == s
  {
    assert s[..k] + a + b == s[..k] + (a + b);
  }

  lemma ConcatEmpty()
    ensures Concat([]) == []
  {
  }

  lemma ConcatFirst(x: bytes, rest: seq<bytes>)
    ensures Concat([x] + rest) == x + Concat(rest)
  {
    assert ([x] + rest)[1..] == rest;
  }

  /** No character is lost, added or moved. */
  lemma {:induction false} WrapConserves(text: bytes, n: nat)
    requires n >= 1
    ensures Concat(Wrap(text, n).lines) + Wrap(text, n).rest == text
    decreases |text|
  {
    hide *;
    WrapUnfold(text, n);
    var k := FirstLine(text, n);
    if k > 0 {
      var w := Wrap(text[k..], n);
      WrapConserves(text[k..], n);
      ConcatFirst(text[..k], w.lines);
      SplitJoin(text, k, Concat(w.lines), w.rest);
    } else {
      ConcatEmpty();
      assert [] + text == text;
    }
  }

  /** A finished line ends in its only newline, or has exactly `n` characters and none. */
  ghost predicate FinishedLine(line: bytes, n: nat) {
    && 0 < |line| <= n
    && (forall q | 0 <= q < |line| - 1 :: line[q] != NEWLINE)
    && (line[|line| - 1] == NEWLINE || |line| == n)
  }

  lemma FinishedMeans(line: bytes, n: nat)
    requires FinishedLine(line, n)
    ensures 0 < |line| <= n && (forall q | 0 <= q < |line| - 1 :: line[q] != 0x0A)
    ensures line[|line| - 1] == 0x0A || |line| == n
  {
  }

  lemma FirstLineShape(text: bytes, n: nat)
    requires n >= 1
    ensures FirstLine(text, n) > 0 ==> FinishedLine(text[..FirstLine(text, n)], n)
    ensures FirstLine(text, n) == 0 ==> |text| <= n && NEWLINE !in text
  {
  }

  lemma {:induction false} WrapShape(text: bytes, n: nat)
    requires n >= 1
    ensures forall line | line in Wrap(text, n).lines :: FinishedLine(line, n)
    ensures |Wrap(text, n).rest| <= n && NEWLINE !in Wrap(text, n).rest
    decreases |text|
  {
    hide NewlineAt, FirstLine, FinishedLine;
    FirstLineShape(text, n);
    var k := FirstLine(text, n);
    if k == 0 {
    } else {
      WrapShape(text[k..], n);
    }
  }

  // ----- How many lines

  function FloorDiv(a: nat, n: nat): nat
    requires n >= 1
  {
    a / n
  }

  function CeilDiv(a: nat, n: nat): nat
    requires n >= 1
  {
    FloorDiv(a + n - 1, n)
  }

  /** Segment by segment: a segment that ends in a newline takes the ceiling of its length
      over `n`; an unfinished tail of length r >= 1 the floor of (r - 1) over `n`. */
  function LineCount(text: bytes, n: nat): nat
    requires n >= 1
    decreases |text|
  {
    var p := NewlineAt(text);
    if text == [] then 0
    else if p == |text| then FloorDiv(|text| - 1, n)
    else CeilDiv(p + 1, n) + LineCount(text[p + 1..], n)
  }

  lemma DivUnique(a: nat, n: nat, q: nat, r: nat)
    requires n >= 1 && r < n && a == n * q + r
    ensures FloorDiv(a, n) == q
  {
    QuotientUnique(a, n, q, r);
  }

  lemma DivStep(a: nat, n: nat)
    requires n >= 1
    ensures FloorDiv(a + n, n) == FloorDiv(a, n) + 1
  {
    var q, r := a / n, a % n;
    assert a == n * q + r;
    assert a + n == n * (q + 1) + r;
    DivUnique(a + n, n, q + 1, r);
  }

  lemma AppendNext<T>(a: seq<T>, b: seq<T>, i: nat)
    requires i < |b|
    ensures a + b[..i] + [b[i]] == a + b[..i + 1]
  {
  }

  lemma AppendAll<T>(a: seq<T>, b: seq<T>)
    ensures a + b[..0] == a && a + b[..|b|] == a + b
  {
  }

  lemma DropDrop<T>(s: seq<T>, a: nat, b: nat)
    requires a + b <= |s|
    ensures s[a..][b..] == s[a + b..]
  {
  }

  lemma LineCountUnfold(text: bytes, n: nat)
    requires n >= 1
    ensures var p := NewlineAt(text);
            LineCount(text, n) == if text == [] then 0 else if p == |text| then FloorDiv(|text| - 1, n)
                                  else CeilDiv(p + 1, n) + LineCount(text[p + 1..], n)
  {
  }

  lemma CeilDivStep(a: nat, n: nat)
    requires n >= 1 && a >= 1
    ensures a <= n ==> CeilDiv(a, n) == 1
    ensures a >= n ==> CeilDiv(a, n) == 1 + CeilDiv(a - n, n)
  {
    if a <= n {
      DivUnique(a + n - 1, n, 1, a - 1);
    }
    if a >= n {
      DivStep(a - 1, n);
    }
  }

  /** A full first line shortens the segment it belongs to by `n` characters and takes one
      line off its count. */
  lemma LineCountFull(text: bytes, n: nat)
    requires n >= 1 && n <= NewlineAt(text) && n < |text|
    ensures LineCount(text, n) == 1 + LineCount(text[n..], n)
  {
    if NewlineAt(text) == |text| {
      LineCountTail(text, n);
    } else {
      LineCountSegment(text, n);
    }
  }

  lemma LineCountTail(text: bytes, n: nat)
    requires n >= 1 && n < |text| == NewlineAt(text)
    ensures LineCount(text, n) == 1 + LineCount(text[n..], n)
  {
    hide *;
    NewlineAfter(text, n);
    LineCountUnfold(text, n);
    LineCountUnfold(text[n..], n);
    DivStep(|text| - n - 1, n);
  }

  lemma LineCountSegment(text: bytes, n: nat)
    requires n >= 1 && n <= NewlineAt(text) < |text|
    ensures LineCount(text, n) == 1 + LineCount(text[n..], n)
  {
    hide *;
    var p := NewlineAt(text);
    NewlineAfter(text, n);
    LineCountUnfold(text, n);
    LineCountUnfold(text[n..], n);
    DropDrop(text, n, p - n + 1);
    CeilDivStep(p + 1, n);
  }

  lemma LineCountShort(text: bytes, n: nat)
    requires n >= 1 && NewlineAt(text) < n && NewlineAt(text) < |text|
    ensures LineCount(text, n) == 1 + LineCount(text[NewlineAt(text) + 1..], n)
  {
    hide *;
    LineCountUnfold(text, n);
    CeilDivStep(NewlineAt(text) + 1, n);
  }

  lemma {:induction false} WrapCounts(text: bytes, n: nat)
    requires n >= 1
    ensures |Wrap(text, n).lines| == LineCount(text, n)
    decreases |text|
  {
    hide NewlineAt, LineCount, CeilDiv;
    var k := FirstLine(text, n);
    if k == 0 {
      LineCountRest(text, n);
    } else {
      WrapCounts(text[k..], n);
      if NewlineAt(text) < |text| && NewlineAt(text) < n {
        LineCountShort(text, n);
      } else {
        LineCountFull(text, n);
      }
    }
  }

  lemma LineCountRest(text: bytes, n: nat)
    requires n >= 1 && FirstLine(text, n) == 0
    ensures LineCount(text, n) == 0
  {
    if text != [] {
      DivUnique(|text| - 1, n, 0, |text| - 1);
    }
  }

  // ----- The bounded log

  /** The last `m` lines, or all of them. */
  function Last<T>(s: seq<T>, m: nat): (r: seq<T>)
    ensures |r| == if |s| <= m then |s| else m
  {
    if |s| <= m then s else s[|s| - m..]
  }

  /** Appends to a list that holds at most `m` entries, dropping its first if need be. */
  function Pushed<T>(s: seq<T>, x: T, m: nat): seq<T>
    requires m >= 1
  {
    (if |s| >= m then s[1..] else s) + [x]
  }

  lemma LastAppend<T>(s: seq<T>, x: T, m: nat)
    requires m >= 1
    ensures Last(s + [x], m) == Pushed(Last(s, m), x, m)
  {
  }

  /** One more character, seen through the current line, the last `m` lines and the count. */
  lemma WrapPut(text: bytes, ch: byte, n: nat, m: nat)
    requires n >= 1 && m >= 1
    ensures var w, w' := Wrap(text, n), Wrap(text + [ch], n);
            var full, ends := |w.rest| >= n, ch == NEWLINE;
            var rest := (if full then [] else w.rest) + [ch];
            var kept := if full then Pushed(Last(w.lines, m), w.rest, m) else Last(w.lines, m);
            && w'.rest == (if ends then [] else rest)
            && Last(w'.lines, m) == (if ends then Pushed(kept, rest, m) else kept)
            && |w'.lines| == |w.lines| + (if full then 1 else 0) + (if ends then 1 else 0)
  {
    hide Last, Pushed, Wrap;
    WrapAppend(text, ch, n);
    var w := Wrap(text, n);
    LastAppend(w.lines, w.rest, m);
    LastAppend(Full(w, n).lines, Full(w, n).rest + [ch], m);
  }

  lemma SplitAgain<T>(a: seq<T>, b: seq<T>, c: seq<T>)
    ensures a + b + c == a + (b + c)
  {
  }

  lemma LastSuffix<T>(s: seq<T>, m: nat)
    ensures s == s[..|s| - |Last(s, m)|] + Last(s, m)
    ensures forall x | x in Last(s, m) :: x in s
    ensures |s| <= m ==> s[..|s| - |Last(s, m)|] == []
  {
  }

  class ScrollingLog {
    const width: nat
    const height: nat
    var curLine: bytes
    var lines: seq<bytes>
    var recorded: nat
    /** Everything appended so far. */
    ghost var text: bytes

    ghost predicate Valid()
      reads this
    {
      width >= 1 && height >= 1 && Shows(Wrap(text, width + 1))
    }

    /** The fields hold the current line, the last height + 1 lines and their number. */
    ghost predicate Shows(w: Wrapped)
      reads this
    {
      curLine == w.rest && lines == Last(w.lines, height + 1) && recorded == |w.lines|
    }

    constructor (width: nat, height: nat)
      requires width >= 1 && height >= 1
      ensures Valid() && text == [] && this.width == width && this.height == height
    {
      this.width, this.height := width, height;
      curLine, lines, recorded, text := [], [], 0, [];
    }

    method AppendLog(str: bytes)
      requires Valid()
      modifies this
      ensures Valid() && text == old(text) + str
    {
      hide Wrap, Last, Pushed, NEWLINE;
      AppendAll(text, str);
      for i := 0 to |str|
        invariant Valid() && text == old(text) + str[..i]
      {
        WrapPut(text, str[i], width + 1, height + 1);
        AppendNext(old(text), str, i);
        if |curLine| > width {
          AddLine(curLine);
          curLine := [];
        }
        curLine := curLine + [str[i]];
        if str[i] == NEWLINE {
          AddLine(curLine);
          curLine := [];
        }
        text := text + [str[i]];
      }
    }

    /** Keeps at most height + 1 lines: the oldest goes only when more than `height` are
        already there. */
    method AddLine(str: bytes)
      modifies this`lines, this`recorded
      ensures recorded == old(recorded) + 1
      ensures lines == Pushed(old(lines), str, height + 1)
    {
      recorded := recorded + 1;
      if |lines| > height {
        lines := lines[1..];
      }
      lines := lines + [str];
    }
  }

  /** The source's constructor throws when a dimension is below 1. */
  method Create(width: nat, height: nat) returns (log: Option<ScrollingLog>)
    ensures log.None? <==> width < 1 || height < 1
    ensures log.Some? ==> fresh(log.value) && log.value.Valid() && log.value.text == []
    ensures log.Some? ==> log.value.width == width && log.value.height == height
  {
    if width < 1 || height < 1 {
      log := None;
    } else {
      var made := new ScrollingLog(width, height);
      log := Some(made);
    }
  }

  /** What a reader of the log sees, in terms of the text alone: the kept lines and the
      current one spell a suffix of the text, the whole text while nothing was dropped;
      each line is full or newline-ended; and the count is that of the segments. */
  lemma LogShows(log: ScrollingLog)
    requires log.Valid()
    ensures |log.lines| == if log.recorded <= log.height + 1 then log.recorded else log.height + 1
    ensures log.recorded == LineCount(log.text, log.width + 1)
    ensures forall line: bytes | line in log.lines ::
              && 0 < |line| <= log.width + 1
              && (forall q | 0 <= q < |line| - 1 :: line[q] != 0x0A)
              && (line[|line| - 1] == 0x0A || |line| == log.width + 1)
    ensures |log.curLine| <= log.width + 1 && NEWLINE !in log.curLine
    ensures exists dropped: bytes :: log.text == dropped + (Concat(log.lines) + log.curLine)
                                     && (log.recorded <= log.height + 1 ==> dropped == [])
  {
    hide Wrap, Last, FinishedLine, LineCount, Concat;
    var n, m := log.width + 1, log.height + 1;
    var w := Wrap(log.text, n);
    WrapCounts(log.text, n);
    WrapShape(log.text, n);
    WrapConserves(log.text, n);
    LastSuffix(w.lines, m);
    ConcatEmpty();
    var gone := w.lines[..|w.lines| - |log.lines|];
    ConcatAppend(gone, log.lines);
    var dropped := Concat(gone);
    SplitAgain(dropped, Concat(log.lines), log.curLine);
    forall line | line in log.lines
      ensures 0 < |line| <= n && (forall q | 0 <= q < |line| - 1 :: line[q] != 0x0A)
      ensures line[|line| - 1] == 0x0A || |line| == n
    {
      FinishedMeans(line, n);
    }
  }
}
