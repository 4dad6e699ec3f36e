/**
 * Splitting a command line into arguments: the state machine that fills one
 * buffer and a growing vector of pointers into it, against a recursive reading
 * of the same line.
 */
module ArgvParse {

  const NUL: char := '\0'
  const NOWHERE: int := -1

  predicate IsSpace(c: char) {
    c == ' ' || c == '\t' || c == '\n' || c == '\r' || c as int == 11 || c as int == 12
  }

  function Unescape(c: char): char {
    if c == 'n' then '\n' else if c == 't' then '\t' else if c == 'b' then 8 as char else c
  }

  // ----- the recursive reading -----

  datatype Read = Read(word: string, rest: string)

  /** The rest of a word, and what follows the white space that ends it. */
  function ReadWord(s: string, quoted: bool): (r: Read)
    ensures |r.rest| <= |s|
    decreases |s|
  {
    if s == "" then Read("", "")
    else if quoted then
      if s[0] == '"' then ReadWord(s[1..], false) else Cons(s[0], ReadWord(s[1..], true))
    else if IsSpace(s[0]) then Read("", s[1..])
    else if s[0] == '"' then ReadWord(s[1..], true)
    else if s[0] == '\\' then
      if |s| == 1 then Read("\\", "") else Cons(Unescape(s[1]), ReadWord(s[2..], false))
    else Cons(s[0], ReadWord(s[1..], false))
  }

  function Cons(c: char, r: Read): Read { r.(word := [c] + r.word) }

  lemma ReadWordShrinks(s: string)
    requires s != "" && !IsSpace(s[0])
    ensures |ReadWord(s, false).rest| < |s|
  {
  }

  function Words(s: string): seq<string>
    decreases |s|
  {
    if s == "" then []
    else if IsSpace(s[0]) then Words(s[1..])
    else
      ReadWordShrinks(s);
      var r := ReadWord(s, false);
      [r.word] + Words(r.rest)
  }

  // ----- the buffer -----

  /** Words one behind the other, each with its terminator. */
  function Flat(words: seq<string>): string {
    if words == [] then "" else Flat(words[..|words| - 1]) + words[|words| - 1] + [NUL]
  }

  lemma FlatAdd(words: seq<string>, w: string)
    ensures Flat(words + [w]) == Flat(words) + w + [NUL]
  {
    assert (words + [w])[..|words|] == words;
  }

  /** The string that a pointer into the buffer stands for. */
  function CString(buf: string, at: int): string
    decreases |buf| - at
  {
    if at < 0 || at >= |buf| || buf[at] == NUL then "" else [buf[at]] + CString(buf, at + 1)
  }

  ghost predicate Clean(w: string) { NUL !in w }

  lemma {:induction false} CStringIs(buf: string, at: nat, w: string)
    requires Clean(w) && at + |w| < |buf| && buf[at..at + |w|] == w && buf[at + |w|] == NUL
    ensures CString(buf, at) == w
    decreases |w|
  {
    if w != "" {
      assert buf[at] == w[0] && buf[at + 1..at + |w|] == w[1..];
      CStringIs(buf, at + 1, w[1..]);
    }
  }

  /** Where the words start. */
  ghost predicate Starts(argv: seq<int>, words: seq<string>) {
    |argv| >= |words| && forall i | 0 <= i < |words| :: argv[i] == |Flat(words[..i])|
  }

  lemma {:induction false} FlatPrefix(words: seq<string>, i: nat)
    requires i < |words|
    ensures Flat(words[..i]) + words[i] + [NUL] <= Flat(words)
    decreases |words|
  {
    var init := words[..|words| - 1];
    if i < |init| {
      FlatPrefix(init, i);
      assert init[..i] == words[..i];
    }
  }

  lemma PointersRead(buf: string, argv: seq<int>, words: seq<string>)
    requires Flat(words) <= buf && Starts(argv, words) && forall i | 0 <= i < |words| :: Clean(words[i])
    ensures forall i | 0 <= i < |words| :: CString(buf, argv[i]) == words[i]
  {
    hide CString, Flat;
    forall i | 0 <= i < |words|
      ensures CString(buf, argv[i]) == words[i]
    {
      FlatPrefix(words, i);
      var at := |Flat(words[..i])|;
      var upTo := Flat(words[..i]) + words[i] + [NUL];
      assert upTo <= buf;
      assert buf[at..at + |words[i]|] == upTo[at..at + |words[i]|] == words[i];
      CStringIs(buf, at, words[i]);
    }
  }

  // ----- the parser -----

  datatype State = Whitespace | Token | Quoted

  /** The words that are still to come, given what is done, the word in progress and the input left. */
  ghost function Ahead(state: State, done: seq<string>, cur: string, s: string): seq<string> {
    if state.Whitespace? then done + Words(s)
    else
      var r := ReadWord(s, state.Quoted?);
      done + [cur + r.word] + Words(r.rest)
  }

  lemma AheadStart(done: seq<string>, s: string)
    requires s != ""
    ensures Ahead(Whitespace, done, "", s) ==
            if IsSpace(s[0]) then Ahead(Whitespace, done, "", s[1..]) else Ahead(Token, done, "", s)
  {
    if !IsSpace(s[0]) {
      var r := ReadWord(s, false);
      assert "" + r.word == r.word;
      assert done + ([r.word] + Words(r.rest)) == done + [r.word] + Words(r.rest);
    }
  }

  lemma AheadChar(done: seq<string>, cur: string, c: char, r: Read)
    ensures done + [cur + Cons(c, r).word] + Words(Cons(c, r).rest) == done + [cur + [c] + r.word] + Words(r.rest)
  {
    assert cur + ([c] + r.word) == cur + [c] + r.word;
  }

  lemma AheadQuoted(done: seq<string>, cur: string, s: string)
    requires s != ""
    ensures Ahead(Quoted, done, cur, s) ==
            if s[0] == '"' then Ahead(Token, done, cur, s[1..]) else Ahead(Quoted, done, cur + [s[0]], s[1..])
  {
    AheadChar(done, cur, s[0], ReadWord(s[1..], true));
  }

  lemma AheadToken(done: seq<string>, cur: string, s: string)
    requires s != ""
    ensures Ahead(Token, done, cur, s) ==
            if IsSpace(s[0]) then Ahead(Whitespace, done + [cur], "", s[1..])
            else if s[0] == '"' then Ahead(Quoted, done, cur, s[1..])
            else if s[0] != '\\' then Ahead(Token, done, cur + [s[0]], s[1..])
            else if |s| == 1 then Ahead(Token, done, cur + ['\\'], "")
            else Ahead(Token, done, cur + [Unescape(s[1])], s[2..])
  {
    if IsSpace(s[0]) {
      assert cur + "" == cur;
    } else if s[0] == '\\' {
      if |s| == 1 {
        assert cur + "\\" + "" == cur + "\\";
      } else {
        AheadChar(done, cur, Unescape(s[1]), ReadWord(s[2..], false));
      }
    } else {
      AheadChar(done, cur, s[0], ReadWord(s[1..], false));
    }
  }

  lemma AheadNothing(state: State, done: seq<string>, cur: string)
    ensures Ahead(state, done, cur, "") == if state.Whitespace? then done else done + [cur]
  {
    assert cur + "" == cur && done + [] == done && done + [cur] + [] == done + [cur];
  }

  /**
   * argv_parse. The line is a C string, so it holds no terminator; on return
   * the first argc pointers stand for exactly the words of the line.
   */
  method Parse(line: string) returns (argc: nat, argv: seq<int>, buf: array<char>)
    requires Clean(line)
    ensures argc == |Words(line)| && argc < |argv| && argv[argc] == NOWHERE
    ensures buf.Length == |line| + 1
    ensures forall i | 0 <= i < argc :: CString(buf[..], argv[i]) == Words(line)[i]
  {
    hide Ahead, Words, ReadWord, Flat, CString, Starts, Clean;
    buf := new char[|line| + 1];
    var maxArgc, outcp, cp, state := 0, 0, 0, Whitespace;
    argc, argv := 0, [];
    ghost var done: seq<string>, cur: string := [], "";
    Begin(line);
    while cp < |line|
      invariant 0 <= cp <= |line| && 0 <= outcp <= cp
      invariant Ahead(state, done, cur, line[cp..]) == Words(line)
      invariant buf[..outcp] == Flat(done) + cur && (state.Whitespace? ==> cur == "")
      invariant Shelf(argc, maxArgc, argv) && argc == |done| + if state.Whitespace? then 0 else 1
      invariant Starts(argv, if state.Whitespace? then done else done + [cur])
      invariant AllClean(done) && Clean(cur)
    {
      var ch := line[cp];
      ghost var s := line[cp..];
      CleanAt(line, cp);
      assert s[1..] == line[cp + 1..] && (|s| > 1 ==> s[2..] == line[cp + 2..]) && (|s| == 1 ==> line[cp + 1..] == "");
      if state.Whitespace? {
        AheadStart(done, s);
        if IsSpace(ch) { cp := cp + 1; continue; }
        state := Token;
        if argc >= maxArgc {
          maxArgc := maxArgc + 3;
          var more: seq<int> := seq(maxArgc + 1 - |argv|, _ => NOWHERE);
          StartsMore(argv, more, done);
          argv := argv + more;
        }
        StartsNext(argv, done, argc, outcp);
        argv := argv[argc := outcp];
        argc := argc + 1;
      }
      StartsAny(argv, done, cur);
      if state.Quoted? {
        AheadQuoted(done, cur, s);
        if ch == '"' {
          state := Token;
        } else {
          CleanChar(cur, ch);
          cur := cur + [ch];
          buf[outcp] := ch;
          outcp := outcp + 1;
        }
        cp := cp + 1;
        continue;
      }
      AheadToken(done, cur, s);
      if IsSpace(ch) {
        FlatAdd(done, cur);
        CleanWord(done, cur);
        done, cur := done + [cur], "";
        buf[outcp] := NUL;
        outcp := outcp + 1;
        state := Whitespace;
        cp := cp + 1;
        continue;
      }
      if ch == '"' {
        state := Quoted;
        cp := cp + 1;
        continue;
      }
      if ch == '\\' {
        cp := cp + 1;
        if cp == |line| {
          cp := cp - 1;
        } else {
          CleanAt(line, cp);
          ch := Unescape(line[cp]);
        }
      }
      CleanChar(cur, ch);
      cur := cur + [ch];
      buf[outcp] := ch;
      outcp := outcp + 1;
      cp := cp + 1;
    }
    AheadNothing(state, done, cur);
    assert line[cp..] == "";
    if !state.Whitespace? {
      FlatAdd(done, cur);
      CleanWord(done, cur);
      done := done + [cur];
      buf[outcp] := NUL;
      outcp := outcp + 1;
    }
    if argv == [] { argv := [NOWHERE]; }
    StartsNext(argv, done, argc, NOWHERE);
    argv := argv[argc := NOWHERE];
    assert Flat(done) <= buf[..];
    AllCleanAt(done);
    PointersRead(buf[..], argv, done);
  }

  /** The pointer vector has room for the pointers and one more. */
  ghost predicate Shelf(argc: nat, maxArgc: nat, argv: seq<int>) {
    argc <= maxArgc && |argv| == if maxArgc == 0 then 0 else maxArgc + 1
  }

  ghost predicate AllClean(words: seq<string>) { forall i | 0 <= i < |words| :: Clean(words[i]) }

  lemma AllCleanAt(words: seq<string>)
    requires AllClean(words)
    ensures forall i | 0 <= i < |words| :: Clean(words[i])
  {
  }

  lemma CleanWord(words: seq<string>, w: string)
    requires AllClean(words) && Clean(w)
    ensures AllClean(words + [w]) && Clean("")
  {
  }

  lemma CleanAt(line: string, i: nat)
    requires Clean(line) && i < |line|
    ensures line[i] != NUL && Unescape(line[i]) != NUL
  {
  }

  lemma CleanChar(cur: string, c: char)
    requires Clean(cur) && c != NUL
    ensures Clean(cur + [c])
  {
  }

  lemma Begin(line: string)
    ensures Ahead(Whitespace, [], "", line[0..]) == Words(line) && Flat([]) == "" && Starts([], []) && Clean("")
  {
    assert [] + Words(line) == Words(line) && line[0..] == line;
  }

  lemma StartsMore(argv: seq<int>, more: seq<int>, words: seq<string>)
    requires Starts(argv, words)
    ensures Starts(argv + more, words)
  {
  }

  /** The next pointer may be set to anything, and set to the end of the words done it is the next word's. */
  lemma StartsNext(argv: seq<int>, words: seq<string>, n: nat, x: int)
    requires Starts(argv, words) && n == |words| < |argv|
    ensures Starts(argv[n := x], words)
    ensures forall w :: Starts(argv[n := |Flat(words)|], words + [w])
  {
    forall w
      ensures Starts(argv[n := |Flat(words)|], words + [w])
    {
      assert forall i | 0 <= i < n :: (words + [w])[..i] == words[..i];
      assert (words + [w])[..n] == words;
    }
  }

  /** Where a word starts does not depend on what is in it. */
  lemma StartsAny(argv: seq<int>, words: seq<string>, w: string)
    requires Starts(argv, words + [w])
    ensures forall w' :: Starts(argv, words + [w'])
  {
    forall w'
      ensures Starts(argv, words + [w'])
    {
      assert forall i | 0 <= i <= |words| :: (words + [w'])[..i] == (words + [w])[..i];
    }
  }

  // ----- printing arguments so that they parse back -----

  /** Everything stands for itself inside quotes but a quote, which is escaped outside them. */
  function Inner(w: string): string {
    if w == "" then "" else (if w[0] == '"' then "\"\\\"\"" else [w[0]]) + Inner(w[1..])
  }

  function Line(args: seq<string>): string {
    if args == [] then "" else "\"" + Inner(args[0]) + "\" " + Line(args[1..])
  }

  lemma EscapedQuote(t: string)
    ensures ReadWord("\"\\\"\"" + t, true) == Cons('"', ReadWord(t, true))
  {
    var s := "\"\\\"\"" + t;
    assert s[1..] == "\\\"\"" + t && s[1..][2..] == "\"" + t && s[1..][2..][1..] == t;
    assert ReadWord(s[1..][2..], false) == ReadWord(t, true);
    assert ReadWord(s[1..], false) == Cons('"', ReadWord(t, true));
  }

  lemma {:induction false} InnerBack(w: string, rest: string)
    ensures ReadWord(Inner(w) + "\" " + rest, true) == Read(w, rest)
    decreases |w|
  {
    var s := Inner(w) + "\" " + rest;
    if w == "" {
      assert s == "\" " + rest && s[1..] == " " + rest && s[1..][1..] == rest;
    } else {
      var t := Inner(w[1..]) + "\" " + rest;
      InnerBack(w[1..], rest);
      if w[0] == '"' {
        assert s == "\"\\\"\"" + t;
        EscapedQuote(t);
      } else {
        assert s == [w[0]] + t && s[1..] == t;
      }
      assert w == [w[0]] + w[1..];
    }
  }

  /** Every list of arguments, with any characters in them, is read back from its printed line. */
  lemma {:induction false} LineBack(args: seq<string>)
    ensures Words(Line(args)) == args
    decreases |args|
  {
    if args != [] {
      var s, rest := Line(args), Line(args[1..]);
      assert s[1..] == Inner(args[0]) + "\" " + rest;
      InnerBack(args[0], rest);
      LineBack(args[1..]);
      assert args == [args[0]] + args[1..];
    }
  }

  // ----- printing arguments without quotes -----

  /** A character outside quotes: white space, quotes and backslashes escaped, and any others that `esc` asks for. */
  function Bare(c: char, esc: char -> bool): string {
    if c == '\n' then "\\n"
    else if c == '\t' then "\\t"
    else if c as int == 8 then "\\b"
    else if c == 'n' || c == 't' || c == 'b' then [c]
    else if c == ' ' || 11 <= c as int <= 13 || c == '"' || c == '\\' || esc(c) then ['\\', c]
    else [c]
  }

  function BareWord(w: string, esc: char -> bool): string {
    if w == "" then "" else Bare(w[0], esc) + BareWord(w[1..], esc)
  }

  /** What may stand between words: one or more of the six white space characters. */
  predicate Gap(s: string) { s != "" && forall i | 0 <= i < |s| :: s[i] == ' ' || 9 <= s[i] as int <= 13 }

  function BareLine(args: seq<string>, gaps: seq<string>, esc: char -> bool): string
    requires |args| == |gaps|
  {
    if args == [] then "" else BareWord(args[0], esc) + gaps[0] + BareLine(args[1..], gaps[1..], esc)
  }

  lemma BareChar(c: char, esc: char -> bool, t: string)
    ensures ReadWord(Bare(c, esc) + t, false) == Cons(c, ReadWord(t, false)) && !IsSpace(Bare(c, esc)[0])
  {
    var s := Bare(c, esc) + t;
    if |Bare(c, esc)| == 2 { assert s[2..] == t; } else { assert s[1..] == t; }
  }

  lemma {:induction false} BareWordBack(w: string, esc: char -> bool, t: string)
    ensures ReadWord(BareWord(w, esc) + t, false) == var r := ReadWord(t, false); Read(w + r.word, r.rest)
    ensures w != "" ==> BareWord(w, esc) != "" && !IsSpace(BareWord(w, esc)[0])
    decreases |w|
  {
    hide ReadWord, Bare, IsSpace;
    if w == "" {
      assert BareWord(w, esc) + t == t && forall u: string :: w + u == u;
    } else {
      var u := BareWord(w[1..], esc) + t;
      assert BareWord(w, esc) + t == Bare(w[0], esc) + u;
      BareChar(w[0], esc, u);
      BareChar(w[0], esc, "");
      BareWordBack(w[1..], esc, t);
      assert [w[0]] + (w[1..] + ReadWord(t, false).word) == w + ReadWord(t, false).word;
    }
  }

  lemma {:induction false} GapSkipped(gap: string, t: string)
    requires gap == "" || Gap(gap)
    ensures Words(gap + t) == Words(t)
    decreases |gap|
  {
    if gap == "" {
      assert gap + t == t;
    } else {
      assert (gap + t)[1..] == gap[1..] + t;
      GapSkipped(gap[1..], t);
    }
  }

  /** Every list of words that are not empty is read back from a line without quotes, whatever white space there is. */
  lemma {:induction false} BareLineBack(args: seq<string>, gaps: seq<string>, esc: char -> bool)
    requires |args| == |gaps| && forall i | 0 <= i < |args| :: args[i] != "" && Gap(gaps[i])
    ensures Words(BareLine(args, gaps, esc)) == args
    decreases |args|
  {
    hide BareWord, Words, Gap;
    if args != [] {
      BareThenGap(args[0], gaps[0], BareLine(args[1..], gaps[1..], esc), esc);
      BareLineBack(args[1..], gaps[1..], esc);
      assert args == [args[0]] + args[1..];
    } else {
      NoWords();
    }
  }

  lemma NoWords()
    ensures Words("") == []
  {
  }

  lemma BareThenGap(w: string, gap: string, rest: string, esc: char -> bool)
    requires w != "" && Gap(gap)
    ensures Words(BareWord(w, esc) + gap + rest) == [w] + Words(rest)
  {
    hide BareWord, Words;
    var s, t := BareWord(w, esc) + gap + rest, gap + rest;
    assert s == BareWord(w, esc) + t && t[1..] == gap[1..] + rest;
    BareWordBack(w, esc, t);
    assert ReadWord(t, false) == Read("", t[1..]);
    assert w + "" == w;
    FirstWord(s);
    GapSkipped(gap[1..], rest);
  }

  lemma FirstWord(s: string)
    requires s != "" && !IsSpace(s[0])
    ensures var r := ReadWord(s, false); Words(s) == [r.word] + Words(r.rest)
  {
  }

  /** A backslash at the very end stands for itself. */
  lemma LastBackslash(w: string, esc: char -> bool)
    ensures Words(BareWord(w, esc) + "\\") == [w + "\\"]
  {
    hide BareWord;
    BareWordBack(w, esc, "\\");
    if w == "" { BareNothing(esc); }
    assert ReadWord("\\", false) == Read("\\", "");
  }

  lemma BareNothing(esc: char -> bool)
    ensures BareWord("", esc) == ""
  {
  }
}
