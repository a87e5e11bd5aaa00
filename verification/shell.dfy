/** How a POSIX shell splits a command string into words, restricted to what decides the
    argument list of the conversion command: spaces separate words, single quotes take text
    literally, and a backslash takes the next character literally. The conversion command is
    handed to the shell as one string (main.py, convert_image), so this splitting decides what
    the conversion program receives. */
module Shell {
  import opened Wrappers

  datatype Mode = Plain | InQuotes | AfterBackslash

  /** The words finished so far, the word being read, whether a word has begun, and the mode. */
  datatype Lexer = Lexer(words: seq<string>, current: string, inWord: bool, mode: Mode)

  const Start: Lexer := Lexer([], [], false, Plain)

  /** Characters that the shell treats specially in plain mode. */
  predicate IsSpecial(c: char) { c == ' ' || c == '\'' || c == '\\' }

  predicate IsPlainWord(w: string)
  {
    forall i :: 0 <= i < |w| ==> !IsSpecial(w[i])
  }

  function Step(st: Lexer, c: char): Lexer
  {
    match st.mode
    case Plain =>
      if c == ' ' then
        (if st.inWord then Lexer(st.words + [st.current], [], false, Plain) else st)
      else if c == '\'' then st.(inWord := true, mode := InQuotes)
      else if c == '\\' then st.(inWord := true, mode := AfterBackslash)
      else st.(current := st.current + [c], inWord := true)
    case InQuotes =>
      if c == '\'' then st.(mode := Plain) else st.(current := st.current + [c])
    case AfterBackslash =>
      st.(current := st.current + [c], mode := Plain)
  }

  function Run(st: Lexer, s: string): Lexer
    decreases |s|
  {
    if s == [] then st else Step(Run(st, s[..|s| - 1]), s[|s| - 1])
  }

  /** The words of a command string, or None when a quote or a backslash is left open. */
  function Words(s: string): Option<seq<string>>
  {
    var st := Run(Start, s);
    if st.mode != Plain then None
    else if st.inWord then Some(st.words + [st.current])
    else Some(st.words)
  }

  /** Reading a concatenation reads its parts one after the other. */
  lemma {:induction false} RunAppend(st: Lexer, a: string, b: string)
    ensures Run(st, a + b) == Run(Run(st, a), b)
    decreases |b|
  {
    if b == [] {
      assert a + b == a;
    } else {
      assert (a + b)[..|a + b| - 1] == a + b[..|b| - 1];
      RunAppend(st, a, b[..|b| - 1]);
    }
  }

  /** A word free of special characters is appended to the current word. */
  lemma {:induction false} RunPlainWord(st: Lexer, w: string)
    requires st.mode == Plain && IsPlainWord(w)
    ensures Run(st, w) == st.(current := st.current + w, inWord := st.inWord || w != [])
    decreases |w|
  {
    if w != [] {
      var init := w[..|w| - 1];
      RunPlainWord(st, init);
      assert init + [w[|w| - 1]] == w;
    }
  }

  /** A space after a word closes it. */
  lemma SpaceClosesWord(st: Lexer)
    requires st.mode == Plain && st.inWord
    ensures Run(st, " ") == Lexer(st.words + [st.current], [], false, Plain)
  {
    assert " "[..0] == [];
  }

  /** A string read up to an open last word, outside quotes, yields the finished words and
      that last word. */
  lemma WordsOfOpenWord(s: string, args: seq<string>)
    requires args != []
    requires Run(Start, s) == Lexer(args[..|args| - 1], args[|args| - 1], true, Plain)
    ensures Words(s) == Some(args)
  {
    assert args[..|args| - 1] + [args[|args| - 1]] == args;
  }

  // ---------------------------------------------------------------------------
  // The join of the source: arguments separated by single spaces
  // ---------------------------------------------------------------------------

  /** `' '.join(args)`: the arguments in order, one space between neighbours. */
  function JoinWithSpaces(args: seq<string>): string
    decreases |args|
  {
    if args == [] then []
    else if |args| == 1 then args[0]
    else JoinWithSpaces(args[..|args| - 1]) + " " + args[|args| - 1]
  }

  /** The join starts with the first argument and ends with the last; with two or more
      arguments, a space follows the first and precedes the last. */
  lemma {:induction false} JoinWithSpacesShape(args: seq<string>)
    ensures args == [] ==> JoinWithSpaces(args) == []
    ensures args != [] ==> args[0] <= JoinWithSpaces(args) && EndsWithText(JoinWithSpaces(args), args[|args| - 1])
    ensures |args| > 1 ==> args[0] + " " <= JoinWithSpaces(args)
    ensures |args| > 1 ==> EndsWithText(JoinWithSpaces(args), " " + args[|args| - 1])
    decreases |args|
  {
    if |args| > 1 {
      var init, last := args[..|args| - 1], args[|args| - 1];
      var j := JoinWithSpaces(init);
      JoinWithSpacesShape(init);
      assert init[0] == args[0];
      assert JoinWithSpaces(args) == j + (" " + last);
      if |init| == 1 {
        assert j == args[0];
      }
    }
  }

  /** `t` is a suffix of `s`. */
  predicate EndsWithText(s: string, t: string)
  {
    |t| <= |s| && s[|s| - |t|..] == t
  }

  lemma JoinWithSpacesSnoc(args: seq<string>, a: string)
    requires args != []
    ensures JoinWithSpaces(args + [a]) == JoinWithSpaces(args) + " " + a
  {
    assert (args + [a])[..|args|] == args;
  }

  /** Reading the plain join of non-empty plain words leaves the last one being read. */
  lemma {:induction false} RunJoinWithSpaces(args: seq<string>)
    requires args != []
    requires forall i :: 0 <= i < |args| ==> args[i] != [] && IsPlainWord(args[i])
    ensures Run(Start, JoinWithSpaces(args)) == Lexer(args[..|args| - 1], args[|args| - 1], true, Plain)
    decreases |args|
  {
    var last := args[|args| - 1];
    if |args| == 1 {
      RunPlainWord(Start, last);
    } else {
      var init := args[..|args| - 1];
      var closed := Lexer(init, [], false, Plain);
      calc {
        Run(Start, JoinWithSpaces(args));
        Run(Start, JoinWithSpaces(init) + " " + last);
        { RunAppend(Start, JoinWithSpaces(init) + " ", last); }
        Run(Run(Start, JoinWithSpaces(init) + " "), last);
        { RunAppend(Start, JoinWithSpaces(init), " ");
          RunJoinWithSpaces(init);
          SpaceClosesWord(Run(Start, JoinWithSpaces(init)));
          assert init[..|init| - 1] + [init[|init| - 1]] == init; }
        Run(closed, last);
        { RunPlainWord(closed, last); }
        Lexer(init, last, true, Plain);
      }
    }
  }

  /** The plain join is read back correctly when every argument is non-empty and free of
      spaces, quotes and backslashes. */
  lemma JoinWithSpacesRoundTrip(args: seq<string>)
    requires forall i :: 0 <= i < |args| ==> args[i] != [] && IsPlainWord(args[i])
    ensures Words(JoinWithSpaces(args)) == Some(args)
  {
    if args == [] {
      assert Run(Start, JoinWithSpaces(args)) == Start;
    } else {
      RunJoinWithSpaces(args);
      WordsOfOpenWord(JoinWithSpaces(args), args);
    }
  }

  /** An argument holding a space is split in two: the conversion command for the input
      "my photo.jpg" reaches the program as five words, not four. */
  lemma JoinWithSpacesSplitsPaths()
    ensures Words(JoinWithSpaces(["magick", "convert", "my photo.jpg", "out.png"]))
            == Some(["magick", "convert", "my", "photo.jpg", "out.png"])
  {
    var split := ["magick", "convert", "my", "photo.jpg", "out.png"];
    SpacedJoinsAgree();
    assert IsPlainWord("magick") && IsPlainWord("convert") && IsPlainWord("my");
    assert IsPlainWord("photo.jpg") && IsPlainWord("out.png");
    assert forall i :: 0 <= i < |split| ==> split[i] != [] && IsPlainWord(split[i]);
    JoinWithSpacesRoundTrip(split);
  }

  /** The four arguments with "my photo.jpg" and the five with "my" and "photo.jpg" join to
      the same string. */
  lemma SpacedJoinsAgree()
    ensures JoinWithSpaces(["magick", "convert", "my photo.jpg", "out.png"])
            == JoinWithSpaces(["magick", "convert", "my", "photo.jpg", "out.png"])
  {
    var two := ["magick", "convert"];
    assert JoinWithSpaces(two) == "magick convert" by {
      JoinWithSpacesSnoc(["magick"], "convert");
      assert ["magick"] + ["convert"] == two;
    }
    JoinWithSpacesSnoc(two, "my photo.jpg");
    JoinWithSpacesSnoc(two + ["my photo.jpg"], "out.png");
    assert two + ["my photo.jpg"] + ["out.png"] == ["magick", "convert", "my photo.jpg", "out.png"];
    JoinWithSpacesSnoc(two, "my");
    JoinWithSpacesSnoc(two + ["my"], "photo.jpg");
    JoinWithSpacesSnoc(two + ["my"] + ["photo.jpg"], "out.png");
    assert two + ["my"] + ["photo.jpg"] + ["out.png"] == ["magick", "convert", "my", "photo.jpg", "out.png"];
    assert "magick convert" + " " + "my photo.jpg" + " " + "out.png"
        == "magick convert" + " " + "my" + " " + "photo.jpg" + " " + "out.png";
  }

  // ---------------------------------------------------------------------------
  // The corrected join: every argument in single quotes
  // ---------------------------------------------------------------------------

  /** Inside single quotes, a quote is written as: close, backslash-quote, reopen. */
  function EscapeChar(c: char): string
  {
    if c == '\'' then "'\\''" else [c]
  }

  function Escape(a: string): string
    decreases |a|
  {
    if a == [] then [] else Escape(a[..|a| - 1]) + EscapeChar(a[|a| - 1])
  }

  /** An argument as one shell word, whatever characters it holds. */
  function Quote(a: string): string
  {
    "'" + Escape(a) + "'"
  }

  /** The corrected join: the quoted arguments separated by single spaces. */
  function JoinQuoted(args: seq<string>): string
    decreases |args|
  {
    if args == [] then []
    else if |args| == 1 then Quote(args[0])
    else JoinQuoted(args[..|args| - 1]) + " " + Quote(args[|args| - 1])
  }

  lemma RunEscapeChar(st: Lexer, c: char)
    requires st.mode == InQuotes && st.inWord
    ensures Run(st, EscapeChar(c)) == st.(current := st.current + [c])
  {
    if c == '\'' {
      var e := EscapeChar(c);
      assert e[..1][..0] == [] && e[..2][..1] == e[..1] && e[..3][..2] == e[..2] && e[..4][..3] == e[..3];
      assert Run(st, e[..1]) == st.(mode := Plain);
      assert Run(st, e[..2]) == st.(mode := AfterBackslash);
      assert Run(st, e[..3]) == st.(current := st.current + [c], mode := Plain);
      assert e[..4] == e;
    } else {
      assert [c][..0] == [];
    }
  }

  /** Inside quotes, the escaped argument is read back as the argument. */
  lemma {:induction false} RunEscape(st: Lexer, a: string)
    requires st.mode == InQuotes && st.inWord
    ensures Run(st, Escape(a)) == st.(current := st.current + a)
    decreases |a|
  {
    if a != [] {
      var init, c := a[..|a| - 1], a[|a| - 1];
      var mid := st.(current := st.current + init);
      calc {
        Run(st, Escape(a));
        Run(st, Escape(init) + EscapeChar(c));
        { RunAppend(st, Escape(init), EscapeChar(c)); }
        Run(Run(st, Escape(init)), EscapeChar(c));
        { RunEscape(st, init); }
        Run(mid, EscapeChar(c));
        { RunEscapeChar(mid, c); }
        mid.(current := mid.current + [c]);
        { assert init + [c] == a; }
        st.(current := st.current + a);
      }
    }
  }

  /** A quoted argument is read as exactly that argument. */
  lemma RunQuote(st: Lexer, a: string)
    requires st.mode == Plain
    ensures Run(st, Quote(a)) == st.(current := st.current + a, inWord := true)
  {
    var open := st.(inWord := true, mode := InQuotes);
    assert Run(st, "'") == open by { assert "'"[..0] == []; }
    RunAppend(st, "'", Escape(a));
    RunEscape(open, a);
    RunAppend(st, "'" + Escape(a), "'");
    assert Run(open.(current := st.current + a), "'") == open.(current := st.current + a, mode := Plain) by {
      assert "'"[..0] == [];
    }
  }

  lemma {:induction false} RunJoinQuoted(args: seq<string>)
    requires args != []
    ensures Run(Start, JoinQuoted(args)) == Lexer(args[..|args| - 1], args[|args| - 1], true, Plain)
    decreases |args|
  {
    var last := args[|args| - 1];
    if |args| == 1 {
      RunQuote(Start, last);
    } else {
      var init := args[..|args| - 1];
      var closed := Lexer(init, [], false, Plain);
      calc {
        Run(Start, JoinQuoted(args));
        Run(Start, JoinQuoted(init) + " " + Quote(last));
        { RunAppend(Start, JoinQuoted(init) + " ", Quote(last)); }
        Run(Run(Start, JoinQuoted(init) + " "), Quote(last));
        { RunAppend(Start, JoinQuoted(init), " ");
          RunJoinQuoted(init);
          SpaceClosesWord(Run(Start, JoinQuoted(init)));
          assert init[..|init| - 1] + [init[|init| - 1]] == init; }
        Run(closed, Quote(last));
        { RunQuote(closed, last); }
        Lexer(init, last, true, Plain);
      }
    }
  }

  /** The quoted join is read back as exactly the argument list, for every list of arguments:
      spaces, quotes, backslashes and empty arguments included. */
  lemma JoinQuotedRoundTrip(args: seq<string>)
    ensures Words(JoinQuoted(args)) == Some(args)
  {
    if args == [] {
      assert Run(Start, JoinQuoted(args)) == Start;
    } else {
      RunJoinQuoted(args);
      WordsOfOpenWord(JoinQuoted(args), args);
    }
  }
}
