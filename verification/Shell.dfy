/** The quote-aware argument splitter of the shell (src/basic_shell.cpp), and its inverse
    printer. */
module Shell {
  import opened Bytes
  import opened Wrappers

  const QUOTE: byte := 0x22
  const SPACE: byte := 0x20

  /** `isprint` in the "C" locale. */
  predicate Printable(ch: byte) {
    0x20 <= ch <= 0x7E
  }

  // ----- Splitting as the character loop does it

  /** `prev` is the character just read; `threw` that `command.at(index - 1)` was asked for
      the character before the first. */
  datatype Scan = Scan(quoted: bool, prev: Option<byte>, args: seq<bytes>, cur: bytes, threw: bool)

  const START: Scan := Scan(false, None, [], [], false)

  function Next(st: Scan, ch: byte): Scan {
    var st' := st.(prev := Some(ch));
    if st.threw then st
    else if ch == QUOTE then st'.(quoted := !st.quoted)
    else if ch == SPACE && !st.quoted then
      if st.prev == None then st'.(threw := true)
      else if st.prev != Some(SPACE) then st'.(args := st.args + [st.cur], cur := [])
      else st'
    else if Printable(ch) then st'.(cur := st.cur + [ch])
    else st'
  }

  function Run(st: Scan, s: bytes): Scan
    decreases |s|
  {
    if s == [] then st else Run(Next(st, s[0]), s[1..])
  }

  /** The arguments, or None where the source throws. */
  function Split(s: bytes): Option<seq<bytes>> {
    var st := Run(START, s);
    if st.threw then None else Some(st.args + [st.cur])
  }

  method SplitArgs(command: bytes) returns (arguments: Option<seq<bytes>>)
    ensures arguments == Split(command)
  {
    var isInsideQuote := false;
    var args: seq<bytes> := [];
    var curArg: bytes := [];
    RunAll(command);
    hide Run;
    for index := 0 to |command|
      invariant Run(START, command[..index]) ==
                Scan(isInsideQuote, if index == 0 then None else Some(command[index - 1]), args, curArg, false)
    {
      var ch := command[index];
      RunNext(START, command, index);
      if ch == QUOTE {
        isInsideQuote := !isInsideQuote;
      } else if ch == SPACE {
        if isInsideQuote {
          if Printable(ch) {
            curArg := curArg + [ch];
          }
        } else if index == 0 {
          RunThrown(Next(Run(START, command[..index]), ch), command[index + 1..]);
          RunSplit(START, command, index + 1);
          return None;
        } else if command[index - 1] != SPACE {
          args := args + [curArg];
          curArg := [];
        }
      } else if Printable(ch) {
        curArg := curArg + [ch];
      }
    }
    return Some(args + [curArg]);
  }

  lemma RunAll(s: bytes)
    ensures s[..|s|] == s && Run(START, s[..0]) == START
  {
  }

  lemma {:induction false} RunConcat(st: Scan, a: bytes, b: bytes)
    ensures Run(st, a + b) == Run(Run(st, a), b)
    decreases |a|
  {
    hide Next;
    if a == [] {
      assert a + b == b;
    } else {
      assert (a + b)[0] == a[0];
      assert (a + b)[1..] == a[1..] + b;
      RunConcat(Next(st, a[0]), a[1..], b);
    }
  }

  lemma RunOne(st: Scan, ch: byte)
    ensures Run(st, [ch]) == Next(st, ch)
  {
    hide Next;
    assert [ch][1..] == [];
  }

  lemma RunNext(st: Scan, s: bytes, i: nat)
    requires i < |s|
    ensures Run(st, s[..i + 1]) == Next(Run(st, s[..i]), s[i])
  {
    hide Next, Run;
    assert s[..i + 1] == s[..i] + [s[i]];
    RunConcat(st, s[..i], [s[i]]);
    RunOne(Run(st, s[..i]), s[i]);
  }

  lemma RunSplit(st: Scan, s: bytes, i: nat)
    requires i <= |s|
    ensures Run(st, s) == Run(Run(st, s[..i]), s[i..])
  {
    hide Run;
    assert s == s[..i] + s[i..];
    RunConcat(st, s[..i], s[i..]);
  }

  lemma {:induction false} RunThrown(st: Scan, s: bytes)
    requires st.threw
    ensures Run(st, s) == st
    decreases |s|
  {
    if s == [] {
    } else {
      RunThrown(st, s[1..]);
    }
  }

  // ----- What the arguments are, position by position

  /** An odd number of quotes stands before position `i`. */
  predicate Quoted(s: bytes, i: nat)
    requires i <= |s|
  {
    if i == 0 then false else Quoted(s, i - 1) != (s[i - 1] == 0x22)
  }

  /** An unquoted space that does not follow a space. */
  predicate Separator(s: bytes, i: nat)
    requires i < |s|
  {
    s[i] == 0x20 && !Quoted(s, i) && (i == 0 || s[i - 1] != 0x20)
  }

  /** The characters that make it into an argument. */
  predicate Kept(s: bytes, i: nat)
    requires i < |s|
  {
    0x20 <= s[i] <= 0x7E && s[i] != 0x22 && (s[i] == 0x20 ==> Quoted(s, i))
  }

  /** The kept characters from position `a` up to `b`. */
  function Piece(s: bytes, a: nat, b: nat): bytes
    requires a <= b <= |s|
  {
    if a == b then [] else Piece(s, a, b - 1) + if Kept(s, b - 1) then [s[b - 1]] else []
  }

  /** The separators below position `k`, in order. */
  function Separators(s: bytes, k: nat): (r: seq<nat>)
    requires k <= |s|
    ensures forall j | 0 <= j < |r| :: r[j] < k
    ensures forall i | 0 <= i < |r| :: forall j | i < j < |r| :: r[i] < r[j]
  {
    if k == 0 then [] else Separators(s, k - 1) + if Separator(s, k - 1) then [k - 1] else []
  }

  lemma {:induction false} SeparatorsExact(s: bytes, k: nat, p: nat)
    requires k <= |s|
    ensures p in Separators(s, k) <==> p < k && Separator(s, p)
  {
    hide Separator;
    if k == 0 {
    } else {
      SeparatorsExact(s, k - 1, p);
    }
  }

  /** Where the argument after `j` separators begins. */
  function ArgStart(seps: seq<nat>, j: nat): nat
    requires j <= |seps|
  {
    if j == 0 then 0 else seps[j - 1] + 1
  }

  ghost predicate ArgIs(s: bytes, a: nat, b: nat, arg: bytes) {
    a <= b <= |s| && arg == Piece(s, a, b)
  }

  /** Each finished argument is the piece before its separator. */
  ghost predicate ArgsAre(s: bytes, seps: seq<nat>, args: seq<bytes>) {
    |args| == |seps| && forall j | 0 <= j < |seps| :: ArgIs(s, ArgStart(seps, j), seps[j], args[j])
  }

  ghost predicate Matches(s: bytes, k: nat, st: Scan)
    requires k <= |s|
  {
    var seps := Separators(s, k);
    && !st.threw
    && st.quoted == Quoted(s, k)
    && st.prev == (if k == 0 then None else Some(s[k - 1]))
    && ArgsAre(s, seps, st.args)
    && st.cur == Piece(s, ArgStart(seps, |seps|), k)
  }

  lemma NextAt(s: bytes, k: nat, st: Scan)
    requires k < |s| && s[0] != SPACE && !st.threw && st.quoted == Quoted(s, k)
    requires st.prev == (if k == 0 then None else Some(s[k - 1]))
    ensures Next(st, s[k]) == Scan(Quoted(s, k + 1), Some(s[k]),
                                   if Separator(s, k) then st.args + [st.cur] else st.args,
                                   if Separator(s, k) then [] else st.cur + if Kept(s, k) then [s[k]] else [],
                                   false)
  {
  }

  lemma ArgsNext(s: bytes, seps: seq<nat>, args: seq<bytes>, k: nat)
    requires ArgsAre(s, seps, args) && ArgStart(seps, |seps|) <= k <= |s|
    ensures ArgsAre(s, seps + [k], args + [Piece(s, ArgStart(seps, |seps|), k)])
  {
    hide ArgIs;
    var seps', args' := seps + [k], args + [Piece(s, ArgStart(seps, |seps|), k)];
    assert ArgIs(s, ArgStart(seps, |seps|), k, args'[|seps|]) by {
      LastArg(s, ArgStart(seps, |seps|), k);
    }
    forall j | 0 <= j < |seps'|
      ensures ArgIs(s, ArgStart(seps', j), seps'[j], args'[j])
    {
      assert ArgStart(seps', j) == ArgStart(seps, j);
      if j < |seps| {
        assert seps'[j] == seps[j] && args'[j] == args[j];
      }
    }
  }

  lemma LastArg(s: bytes, a: nat, b: nat)
    requires a <= b <= |s|
    ensures ArgIs(s, a, b, Piece(s, a, b))
  {
  }

  lemma MatchesNext(s: bytes, k: nat, st: Scan)
    requires k < |s| && s[0] != SPACE && Matches(s, k, st)
    ensures Matches(s, k + 1, Next(st, s[k]))
  {
    hide Next, Separator, Kept, Quoted, Separators, Piece, ArgsAre, SPACE, ArgStart;
    NextAt(s, k, st);
    var seps := Separators(s, k);
    SeparatorsNext(s, k);
    PieceEnds(s, k + 1);
    PieceNext(s, ArgStart(seps, |seps|), k);
    if Separator(s, k) {
      ArgsNext(s, seps, st.args, k);
    }
  }

  lemma SeparatorsNext(s: bytes, k: nat)
    requires k < |s|
    ensures var seps, seps' := Separators(s, k), Separators(s, k + 1);
            && seps' == (if Separator(s, k) then seps + [k] else seps)
            && ArgStart(seps, |seps|) <= k
            && (Separator(s, k) ==> ArgStart(seps', |seps'|) == k + 1)
  {
    hide Separator;
  }

  lemma PieceEnds(s: bytes, a: nat)
    requires a <= |s|
    ensures Piece(s, a, a) == []
  {
  }

  lemma PieceNext(s: bytes, a: nat, b: nat)
    requires a <= b < |s|
    ensures Piece(s, a, b + 1) == Piece(s, a, b) + if Kept(s, b) then [s[b]] else []
  {
  }

  lemma MatchesStart(s: bytes)
    ensures Matches(s, 0, START)
  {
  }

  lemma {:induction false} RunMatches(s: bytes, k: nat)
    requires k <= |s| && (s != [] ==> s[0] != SPACE)
    ensures Matches(s, k, Run(START, s[..k]))
  {
    hide Next, Run, Matches;
    if k == 0 {
      RunAll(s);
      MatchesStart(s);
    } else {
      RunMatches(s, k - 1);
      RunNext(START, s, k - 1);
      MatchesNext(s, k - 1, Run(START, s[..k - 1]));
    }
  }

  /** Splitting fails exactly on a leading space. Otherwise there is one argument more than
      separators, and each is the kept characters between two separators. */
  lemma SplitPositions(s: bytes)
    ensures Split(s) == None <==> s != [] && s[0] == 0x20
    ensures Split(s).Some? ==>
              var seps := Separators(s, |s|);
              && |Split(s).value| == |seps| + 1
              && forall j | 0 <= j <= |seps| ::
                   ArgIs(s, ArgStart(seps, j), if j < |seps| then seps[j] else |s|, Split(s).value[j])
  {
    if s != [] && s[0] == SPACE {
      RunThrown(Next(START, s[0]), s[1..]);
    } else {
      RunAll(s);
      RunMatches(s, |s|);
      hide Run, Next, Separators, Piece, Quoted, ArgStart;
    }
  }

  // ----- Quoting and joining undoes splitting

  /** Printable ASCII characters other than the quote. */
  predicate Plain(arg: bytes) {
    forall ch | ch in arg :: 0x20 <= ch <= 0x7E && ch != 0x22
  }

  function Quote(arg: bytes): bytes {
    [0x22] + arg + [0x22]
  }

  /** Each argument in quotes, single spaces between them. */
  function Print(args: seq<bytes>): bytes
    requires args != []
  {
    if |args| == 1 then Quote(args[0])
    else Print(args[..|args| - 1]) + [0x20] + Quote(args[|args| - 1])
  }

  lemma {:induction false} RunPlain(st: Scan, arg: bytes)
    requires Plain(arg) && st.quoted && !st.threw
    ensures Run(st, arg).cur == st.cur + arg && Run(st, arg).args == st.args
    ensures Run(st, arg).quoted && !Run(st, arg).threw
    decreases |arg|
  {
    if arg == [] {
    } else {
      assert arg[0] in arg && forall ch | ch in arg[1..] :: ch in arg;
      RunPlain(Next(st, arg[0]), arg[1..]);
    }
  }

  lemma RunQuote(st: Scan, arg: bytes)
    requires Plain(arg) && !st.quoted && !st.threw && st.cur == []
    ensures Run(st, Quote(arg)) == Scan(false, Some(QUOTE), st.args, arg, false)
  {
    var inside := Next(st, QUOTE);
    RunOne(st, QUOTE);
    RunConcat(st, [QUOTE] + arg, [QUOTE]);
    RunConcat(st, [QUOTE], arg);
    RunPlain(inside, arg);
    RunOne(Run(inside, arg), QUOTE);
    hide Run;
  }

  lemma {:induction false} RunPrint(args: seq<bytes>)
    requires args != [] && forall a | a in args :: Plain(a)
    ensures Run(START, Print(args)) == Scan(false, Some(QUOTE), args[..|args| - 1], args[|args| - 1], false)
  {
    hide Run, Plain, Quote;
    var n := |args| - 1;
    if n == 0 {
      RunQuote(START, args[0]);
    } else {
      RunPrint(args[..n]);
      var st := Run(START, Print(args[..n]));
      RunConcat(START, Print(args[..n]) + [SPACE], Quote(args[n]));
      RunConcat(START, Print(args[..n]), [SPACE]);
      RunOne(st, SPACE);
      assert args[..n] == args[..n][..n - 1] + [args[..n][n - 1]];
      RunQuote(Next(st, SPACE), args[n]);
    }
  }

  lemma SplitPrint(args: seq<bytes>)
    requires args != []
    requires forall a: bytes, ch: byte | a in args && ch in a :: 0x20 <= ch <= 0x7E && ch != 0x22
    ensures Split(Print(args)) == Some(args)
  {
    RunPrint(args);
    hide Run, Print;
    assert args == args[..|args| - 1] + [args[|args| - 1]];
  }

  lemma {:induction false} PiecePlain(s: bytes, a: nat, b: nat)
    requires a <= b <= |s|
    ensures Plain(Piece(s, a, b))
  {
    if a == b {
    } else {
      PiecePlain(s, a, b - 1);
    }
  }

  /** Printing what a command was split into gives a command that splits the same way. */
  lemma SplitPrintSplit(s: bytes)
    requires s != [] ==> s[0] != SPACE
    ensures Split(s).Some? && Split(s).value != []
    ensures Split(Print(Split(s).value)) == Split(s)
  {
    SplitPositions(s);
    hide Run, Separators, Piece, Split, Print;
    var args, seps := Split(s).value, Separators(s, |s|);
    forall a | a in args
      ensures Plain(a)
    {
      var j :| 0 <= j < |args| && args[j] == a;
      PiecePlain(s, ArgStart(seps, j), if j < |seps| then seps[j] else |s|);
    }
    SplitPrint(args);
  }

  // ----- Bare words

  /** Printable ASCII characters other than space and quote. */
  predicate Bare(word: bytes) {
    forall ch | ch in word :: 0x21 <= ch <= 0x7E && ch != 0x22
  }

  lemma BareIs(word: bytes)
    ensures Bare(word) <==> forall i | 0 <= i < |word| :: 0x21 <= word[i] <= 0x7E && word[i] != 0x22
  {
    assert forall i | 0 <= i < |word| :: word[i] in word;
  }

  function Spaces(n: nat): (s: bytes)
    ensures |s| == n
  {
    if n == 0 then [] else Spaces(n - 1) + [0x20]
  }

  /** Words with one or more spaces between them: `gaps` counts those beyond the first. */
  function Spaced(words: seq<bytes>, gaps: seq<nat>): bytes
    requires words != [] && |gaps| == |words| - 1
  {
    if |words| == 1 then words[0]
    else
      var n := |words| - 1;
      Spaced(words[..n], gaps[..n - 1]) + Spaces(gaps[n - 1] + 1) + words[n]
  }

  lemma {:induction false} RunBare(st: Scan, word: bytes)
    requires Bare(word) && !st.quoted && !st.threw
    ensures Run(st, word).cur == st.cur + word && Run(st, word).args == st.args
    ensures !Run(st, word).quoted && !Run(st, word).threw
    ensures Run(st, word).prev == if word == [] then st.prev else Some(word[|word| - 1])
    decreases |word|
  {
    if word == [] {
    } else {
      assert word[0] in word && forall ch | ch in word[1..] :: ch in word;
      RunBare(Next(st, word[0]), word[1..]);
    }
  }

  /** However many spaces there are, one argument is finished. */
  lemma {:induction false} RunSpaces(st: Scan, n: nat)
    requires n >= 1 && !st.quoted && !st.threw && st.prev != None && st.prev != Some(SPACE)
    ensures Run(st, Spaces(n)) == Scan(false, Some(SPACE), st.args + [st.cur], [], false)
  {
    if n == 1 {
      assert Spaces(1) == [SPACE];
      RunOne(st, SPACE);
    } else {
      RunSpaces(st, n - 1);
      RunConcat(st, Spaces(n - 1), [SPACE]);
      RunOne(Run(st, Spaces(n - 1)), SPACE);
    }
  }

  lemma {:induction false} RunSpaced(words: seq<bytes>, gaps: seq<nat>)
    requires words != [] && |gaps| == |words| - 1
    requires forall i | 0 <= i < |words| :: Bare(words[i]) && (i < |words| - 1 ==> words[i] != [])
    ensures var st, n := Run(START, Spaced(words, gaps)), |words| - 1;
            && !st.quoted && !st.threw && st.args == words[..n] && st.cur == words[n]
            && (words[n] != [] ==> st.prev == Some(words[n][|words[n]| - 1]))
    decreases |words|
  {
    hide Run, Bare, Spaces;
    var n := |words| - 1;
    if n == 0 {
      RunBare(START, words[0]);
    } else {
      RunSpaced(words[..n], gaps[..n - 1]);
      var front := Spaced(words[..n], gaps[..n - 1]);
      var st := Run(START, front);
      LastIsNoSpace(words[n - 1]);
      RunConcat(START, front + Spaces(gaps[n - 1] + 1), words[n]);
      RunConcat(START, front, Spaces(gaps[n - 1] + 1));
      RunSpaces(st, gaps[n - 1] + 1);
      RunBare(Run(st, Spaces(gaps[n - 1] + 1)), words[n]);
      assert words[..n] == words[..n][..n - 1] + [words[..n][n - 1]];
    }
  }

  lemma LastIsNoSpace(word: bytes)
    requires Bare(word) && word != []
    ensures word[|word| - 1] != SPACE
  {
    assert word[|word| - 1] in word;
  }

  /** Bare words are the arguments, however many spaces part them; spaces at the end make an
      empty last one. */
  lemma SplitWords(words: seq<bytes>, gaps: seq<nat>)
    requires words != [] && |gaps| == |words| - 1
    requires forall i | 0 <= i < |words| - 1 :: words[i] != []
    requires forall i, k | 0 <= i < |words| && 0 <= k < |words[i]| :: 0x21 <= words[i][k] <= 0x7E && words[i][k] != 0x22
    ensures Split(Spaced(words, gaps)) == Some(words)
  {
    hide Bare;
    forall i | 0 <= i < |words| ensures Bare(words[i]) {
      BareIs(words[i]);
    }
    RunSpaced(words, gaps);
    hide Run, Spaced;
    assert words == words[..|words| - 1] + [words[|words| - 1]];
  }

  // ----- Other characters

  lemma {:induction false} RunSameBut(st: Scan, p: Option<byte>, s: bytes)
    requires s != [] && s[0] != SPACE
    ensures Run(st.(prev := p), s) == Run(st, s) || st.threw
  {
    if !st.threw {
      assert Next(st.(prev := p), s[0]) == Next(st, s[0]);
    }
  }

  /** A control character, or one beyond ASCII, is as good as absent, unless a space follows. */
  lemma SplitDrops(a: bytes, ch: byte, b: bytes)
    requires (ch < 0x20 || ch > 0x7E) && (b != [] ==> b[0] != 0x20)
    ensures Split(a + [ch] + b) == Split(a + b)
  {
    var st := Run(START, a);
    RunConcat(START, a + [ch], b);
    RunConcat(START, a, [ch]);
    RunOne(st, ch);
    RunConcat(START, a, b);
    NextDrops(st, ch);
    if b != [] {
      RunSameBut(st, Some(ch), b);
      if st.threw {
        RunThrown(st, b);
      }
    }
  }

  lemma NextDrops(st: Scan, ch: byte)
    requires ch < 0x20 || ch > 0x7E
    ensures Next(st, ch) == if st.threw then st else st.(prev := Some(ch))
  {
  }
}
