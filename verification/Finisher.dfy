/**
  Assembly of the published stylesheet in lib/Compiler.js, lines 41-48: a
  fixed five-line comment banner and a blank line, followed by the minified
  text of the compiled stylesheet after one pass of the charset replace.  The
  minifier is a foreign library and enters as an arbitrary total function;
  the clock reading enters as a string parameter.
*/
module Finisher {
  import opened Wrappers
  import CharsetStrip
  import SeqFacts

  /** Index of the first occurrence of c in s. */
  function IndexOf(s: string, c: char): (r: Option<nat>)
    ensures r.Some? ==> r.value < |s| && s[r.value] == c && c !in s[..r.value]
    ensures r.None? ==> c !in s
  {
    if |s| == 0 then None
    else if s[0] == c then Some(0)
    else match IndexOf(s[1..], c)
      case Some(k) =>
        assert s[..k + 1] == [s[0]] + s[1..][..k];
        Some(k + 1)
      case None => None
  }

  /** Writes every line followed by a line feed. */
  function JoinLines(ls: seq<string>): string
  {
    if |ls| == 0 then "" else ls[0] + "\n" + JoinLines(ls[1..])
  }

  /** Cuts text at every line feed; the text after the last line feed is the
      final piece (empty when the text ends with a line feed). */
  function SplitLines(s: string): (ls: seq<string>)
    ensures |ls| >= 1
    ensures forall k :: 0 <= k < |ls| ==> '\n' !in ls[k]
    decreases |s|
  {
    match IndexOf(s, '\n')
    case None => [s]
    case Some(k) => [s[..k]] + SplitLines(s[k + 1..])
  }

  /** The first line feed after a line-feed-free prefix is the one that
      ends it. */
  lemma IndexOfAfterLine(line: string, rest: string)
    requires '\n' !in line
    ensures IndexOf(line + "\n" + rest, '\n') == Some(|line|)
  {
    var s := line + "\n" + rest;
    assert s[|line|] == '\n';
    assert s[..|line|] == line;
  }

  /** SplitLines cuts at the first line feed. */
  lemma SplitLinesStep(s: string, k: nat)
    requires IndexOf(s, '\n') == Some(k)
    ensures SplitLines(s) == [s[..k]] + SplitLines(s[k + 1..])
  {
  }

  lemma JoinLinesCons(line: string, ls: seq<string>)
    ensures JoinLines([line] + ls) == line + "\n" + JoinLines(ls)
  {
    assert ([line] + ls)[1..] == ls;
  }

  /** Text around a line feed is its line, the feed and the rest. */
  lemma CutAtLineFeed(s: string, k: nat)
    requires k < |s| && s[k] == '\n'
    ensures s == s[..k] + "\n" + s[k + 1..]
  {
  }

  lemma PartsOfLine(line: string, tail: string)
    ensures (line + "\n" + tail)[..|line|] == line
    ensures (line + "\n" + tail)[|line| + 1..] == tail
  {
  }

  /** Splitting undoes joining, whatever text follows the joined lines. */
  lemma {:induction false} JoinThenSplit(ls: seq<string>, rest: string)
    requires forall k :: 0 <= k < |ls| ==> '\n' !in ls[k]
    ensures SplitLines(JoinLines(ls) + rest) == ls + SplitLines(rest)
  {
    if |ls| == 0 {
      assert JoinLines(ls) + rest == rest;
    } else {
      var line, more := ls[0], ls[1..];
      assert ls == [line] + more;
      var tail := JoinLines(more) + rest;
      JoinLinesCons(line, more);
      var s := line + "\n" + tail;
      assert (line + "\n" + JoinLines(more)) + rest == s;
      IndexOfAfterLine(line, tail);
      PartsOfLine(line, tail);
      SplitLinesStep(s, |line|);
      JoinThenSplit(more, rest);
      SeqFacts.ConsAppend(line, more, SplitLines(rest));
    }
  }

  /** Putting a line in front keeps the last piece and extends the rest. */
  lemma ConsInitLast(head: string, rest: seq<string>)
    requires |rest| >= 1
    ensures var ls := [head] + rest;
      && ls[..|ls| - 1] == [head] + rest[..|rest| - 1]
      && ls[|ls| - 1] == rest[|rest| - 1]
  {
    var ls := [head] + rest;
    assert ls[..|ls| - 1] == [head] + rest[..|rest| - 1];
  }

  /** Joining undoes splitting: all pieces but the last, each with its line
      feed restored, followed by the last piece, give back the text. */
  lemma {:induction false} SplitThenJoin(s: string)
    ensures var ls := SplitLines(s); JoinLines(ls[..|ls| - 1]) + ls[|ls| - 1] == s
    decreases |s|
  {
    match IndexOf(s, '\n')
    case None =>
      assert SplitLines(s) == [s];
      assert [s][..0] == [];
    case Some(k) =>
      var head, tail := s[..k], s[k + 1..];
      var rest := SplitLines(tail);
      var init, last := rest[..|rest| - 1], rest[|rest| - 1];
      SplitThenJoin(tail);
      assert JoinLines(init) + last == tail;
      SplitLinesStep(s, k);
      assert SplitLines(s) == [head] + rest;
      ConsInitLast(head, rest);
      JoinLinesCons(head, init);
      SeqFacts.AppendAssoc(head + "\n", JoinLines(init), last);
      CutAtLineFeed(s, k);
  }

  const StampPrefix: string := "* Stylesheet for r/"
  // The warning and the note about the repository, lines 43-44 of
  // lib/Compiler.js without their line feeds, each spelled as two pieces
  // that `BannerLinesAreLines` checks one at a time.
  const WarningLine: string := "* DO NOT MAKE CHANGES TO THIS " + "STYLESHEET; THEY WILL BE OVERRIDDEN."
  const RepositoryLine: string := "* Make your changes in the " + "repository (ask the mods for access)."

  /** The second banner line: which subreddit, and when. */
  function StampLine(subreddit: string, generatedAt: string): string
  {
    StampPrefix + subreddit + " generated at " + generatedAt + "."
  }

  /** The banner as lines: comment opener, stamp, warning, note about the
      repository, comment closer, and an empty line. */
  function BannerLines(subreddit: string, generatedAt: string): seq<string>
  {
    ["/**", StampLine(subreddit, generatedAt), WarningLine, RepositoryLine, "*/", ""]
  }

  /** With a subreddit name and a time free of line feeds, each banner line
      is a single line of text. */
  lemma BannerLinesAreLines(subreddit: string, generatedAt: string)
    requires '\n' !in subreddit && '\n' !in generatedAt
    ensures forall k :: 0 <= k < |BannerLines(subreddit, generatedAt)| ==> '\n' !in BannerLines(subreddit, generatedAt)[k]
  {
    assert '\n' !in StampLine(subreddit, generatedAt);
    WarningLineIsOneLine();
    RepositoryLineIsOneLine();
  }

  lemma WarningLineIsOneLine()
    ensures '\n' !in WarningLine
  {
    assert '\n' !in "* DO NOT MAKE CHANGES TO THIS ";
    assert '\n' !in "STYLESHEET; THEY WILL BE OVERRIDDEN.";
  }

  lemma RepositoryLineIsOneLine()
    ensures '\n' !in RepositoryLine
  {
    assert '\n' !in "* Make your changes in the ";
    assert '\n' !in "repository (ask the mods for access).";
  }

  /** Three lines in front of others join as three line-terminated pieces
      in front of the others' text. */
  lemma JoinThreeLines(a: string, b: string, c: string, rest: seq<string>)
    ensures JoinLines([a, b, c] + rest)
         == (a + "\n") + ((b + "\n") + ((c + "\n") + JoinLines(rest)))
  {
    var tc := [c] + rest;
    var tb := [b] + tc;
    assert [a, b, c] + rest == [a] + tb;
    JoinLinesCons(c, rest);
    JoinLinesCons(b, tc);
    JoinLinesCons(a, tb);
  }

  /** Six lines joined are six line-terminated pieces in a row. */
  lemma JoinSixLines(a: string, b: string, c: string, d: string, e: string, f: string)
    ensures JoinLines([a, b, c, d, e, f])
         == (a + "\n") + ((b + "\n") + ((c + "\n") + ((d + "\n") + ((e + "\n") + (f + "\n")))))
  {
    assert [a, b, c, d, e, f] == [a, b, c] + [d, e, f];
    assert [d, e, f] == [d, e, f] + [];
    JoinThreeLines(a, b, c, [d, e, f]);
    JoinThreeLines(d, e, f, []);
  }

  /** The banner text as lib/Compiler.js concatenates it (grouped from the
      right): five pieces, the second one the stamp line with its line feed.
      It is exactly its six lines, each ended by a line feed. */
  function Banner(subreddit: string, generatedAt: string): (b: string)
    ensures b == JoinLines(BannerLines(subreddit, generatedAt))
  {
    JoinSixLines("/**", StampLine(subreddit, generatedAt), WarningLine, RepositoryLine, "*/", "");
    assert "/**" + "\n" == "/**\n";
    assert ("*/" + "\n") + ("" + "\n") == "*/\n\n";
    "/**\n" + ((StampLine(subreddit, generatedAt) + "\n") + ((WarningLine + "\n") + ((RepositoryLine + "\n") + "*/\n\n")))
  }

  /** The published document.  Whatever the minifier returns, it starts
      with the banner; the minifier sees the CSS after one pass of the
      charset replace, which can still hold a directive
      (`CharsetStrip.StripCanLeaveDirective`). */
  function Finish(subreddit: string, generatedAt: string, css: string, minify: string -> string): (doc: string)
    ensures var banner := Banner(subreddit, generatedAt);
      && |banner| <= |doc|
      && doc[..|banner|] == banner
      && doc[|banner|..] == minify(CharsetStrip.Strip(css))
  {
    Banner(subreddit, generatedAt) + minify(CharsetStrip.Strip(css))
  }

  /** Read line by line, every published document opens with the six banner
      lines, and everything after them is the minifier's output: whatever
      the minifier does, it cannot reach the banner. */
  lemma FinishedLines(subreddit: string, generatedAt: string, css: string, minify: string -> string)
    requires '\n' !in subreddit && '\n' !in generatedAt
    ensures SplitLines(Finish(subreddit, generatedAt, css, minify))
         == BannerLines(subreddit, generatedAt) + SplitLines(minify(CharsetStrip.Strip(css)))
  {
    var ls := BannerLines(subreddit, generatedAt);
    BannerLinesAreLines(subreddit, generatedAt);
    JoinThenSplit(ls, minify(CharsetStrip.Strip(css)));
  }
}
