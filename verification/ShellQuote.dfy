/** Shell quoting, checked against a reader for the quoting rules of the POSIX.1-2017 Shell Command
    Language: section 2.2.2 (single quotes) and section 2.2.3 (double quotes). */
module ShellQuote {
  import opened Wrappers
  import opened Strings

  /** [\w@%+=:,./-] */
  predicate IsSafe(ch: char) {
    || '0' <= ch <= '9' || 'A' <= ch <= 'Z' || 'a' <= ch <= 'z' || ch in "_@%+=:,./-"
  }

  predicate AllSafe(s: string) {
    forall i | 0 <= i < |s| :: IsSafe(s[i])
  }

  const QUOTED_QUOTE := "'\"'\"'"

  function Quote(s: string): string {
    if |s| == 0 then "''"
    else if !AllSafe(s) then "'" + ReplaceChar(s, '\'', QUOTED_QUOTE) + "'"
    else s
  }

  function Command(words: seq<string>): string {
    if words == [] then ""
    else if |words| == 1 then Quote(words[0])
    else Quote(words[0]) + " " + Command(words[1..])
  }

  // --- the reader ---

  datatype Mode = Unquoted | Single | Double

  /** Reads the words of a command line. `started` tells an empty quoted word from no word. Anything
      whose unquoted meaning is not a plain character makes the reader give up, as does an
      expansion inside double quotes. */
  function Read(s: string, mode: Mode, started: bool, word: string): Option<seq<string>>
    decreases |s|
  {
    if s == "" then
      if mode.Unquoted? then Some(if started then [word] else []) else None
    else
      match mode
      case Single =>
        if s[0] == '\'' then Read(s[1..], Unquoted, true, word) else Read(s[1..], Single, true, word + [s[0]])
      case Double =>
        if s[0] == '"' then Read(s[1..], Unquoted, true, word)
        else if s[0] in "$`\\" then None
        else Read(s[1..], Double, true, word + [s[0]])
      case Unquoted =>
        if s[0] == ' ' then
          var rest :- Read(s[1..], Unquoted, false, "");
          Some((if started then [word] else []) + rest)
        else if s[0] == '\'' then Read(s[1..], Single, true, word)
        else if s[0] == '"' then Read(s[1..], Double, true, word)
        else if IsSafe(s[0]) then Read(s[1..], Unquoted, true, word + [s[0]])
        else None
  }

  function ReadWords(line: string): Option<seq<string>> {
    Read(line, Unquoted, false, "")
  }

  lemma {:induction false} ReadSafe(s: string, rest: string, word: string, started: bool)
    requires AllSafe(s) && (s != "" || started)
    ensures Read(s + rest, Unquoted, started, word) == Read(rest, Unquoted, true, word + s)
  {
    if s == "" {
      assert s + rest == rest && word + s == word;
    } else {
      assert IsSafe(s[0]) && (s + rest)[0] == s[0] && (s + rest)[1..] == s[1..] + rest;
      ReadSafe(s[1..], rest, word + [s[0]], true);
      assert word + [s[0]] + s[1..] == word + s;
    }
  }

  lemma ReadQuotedQuote(rest: string, word: string)
    ensures Read(QUOTED_QUOTE + rest, Single, true, word) == Read(rest, Single, true, word + "'")
  {
    var s1 := "\"'\"'" + rest;
    var s2 := "'\"'" + rest;
    var s3 := "\"'" + rest;
    var s4 := "'" + rest;
    assert (QUOTED_QUOTE + rest)[1..] == s1 && s1[1..] == s2 && s2[1..] == s3 && s3[1..] == s4 && s4[1..] == rest;
    assert Read(QUOTED_QUOTE + rest, Single, true, word) == Read(s1, Unquoted, true, word);
    assert Read(s1, Unquoted, true, word) == Read(s2, Double, true, word);
    assert Read(s2, Double, true, word) == Read(s3, Double, true, word + "'");
    assert Read(s3, Double, true, word + "'") == Read(s4, Unquoted, true, word + "'");
  }

  lemma {:induction false} ReadQuotedBody(s: string, rest: string, word: string)
    ensures Read(ReplaceChar(s, '\'', QUOTED_QUOTE) + "'" + rest, Single, true, word)
              == Read(rest, Unquoted, true, word + s)
  {
    var body := ReplaceChar(s, '\'', QUOTED_QUOTE) + "'" + rest;
    if s == "" {
      assert body == "'" + rest && body[1..] == rest && word + s == word;
    } else {
      var tail := ReplaceChar(s[1..], '\'', QUOTED_QUOTE) + "'" + rest;
      ReadQuotedBody(s[1..], rest, word + [s[0]]);
      assert word + [s[0]] + s[1..] == word + s;
      if s[0] == '\'' {
        assert body == QUOTED_QUOTE + tail;
        ReadQuotedQuote(tail, word);
      } else {
        assert body[0] == s[0] && body[1..] == tail;
      }
    }
  }

  /** A quoted word reads as that word, whatever follows it. */
  lemma ReadQuote(s: string, rest: string)
    ensures Read(Quote(s) + rest, Unquoted, false, "") == Read(rest, Unquoted, true, s)
  {
    if |s| == 0 {
      assert ("''" + rest)[1..] == "'" + rest && ("'" + rest)[1..] == rest;
      assert Read("'" + rest, Single, true, "") == Read(rest, Unquoted, true, "");
    } else if AllSafe(s) {
      ReadSafe(s, rest, "", false);
      assert "" + s == s;
    } else {
      var body := ReplaceChar(s, '\'', QUOTED_QUOTE) + "'" + rest;
      assert Quote(s) + rest == "'" + body && ("'" + body)[1..] == body;
      ReadQuotedBody(s, rest, "");
      assert "" + s == s;
    }
  }

  lemma ReadSpace(rest: string, word: string, words: seq<string>)
    requires ReadWords(rest) == Some(words)
    ensures Read(" " + rest, Unquoted, true, word) == Some([word] + words)
  {
    assert (" " + rest)[1..] == rest;
  }

  lemma ReadLastWord(word: string)
    ensures ReadWords(Quote(word)) == Some([word])
  {
    ReadQuote(word, "");
    assert Quote(word) + "" == Quote(word);
  }

  lemma ReadWordThen(word: string, rest: string, words: seq<string>)
    requires ReadWords(rest) == Some(words)
    ensures ReadWords(Quote(word) + " " + rest) == Some([word] + words)
  {
    ReadQuote(word, " " + rest);
    ReadSpace(rest, word, words);
    assert Quote(word) + (" " + rest) == Quote(word) + " " + rest;
  }

  lemma {:induction false} ReplaceGrows(s: string)
    ensures |ReplaceChar(s, '\'', QUOTED_QUOTE)| >= |s|
  {
    if s != "" {
      ReplaceGrows(s[1..]);
    }
  }

  /** A word is left as it is exactly when it is not empty and needs no quoting. */
  lemma PlainIff(s: string)
    ensures Quote(s) == s <==> s != "" && forall i | 0 <= i < |s| :: IsSafe(s[i])
  {
    ReplaceGrows(s);
  }

  /** The shell reads a space-joined list of quoted words as exactly that list: no word splits,
      merges, vanishes or expands, whatever characters it holds. */
  lemma {:induction false} ShellReadsBack(words: seq<string>)
    ensures ReadWords(Command(words)) == Some(words)
  {
    if words == [] {
      assert ReadWords("") == Some([]);
    } else if |words| == 1 {
      ReadLastWord(words[0]);
      assert words == [words[0]];
    } else {
      ShellReadsBack(words[1..]);
      ReadWordThen(words[0], Command(words[1..]), words[1..]);
      assert Command(words) == Quote(words[0]) + " " + Command(words[1..]);
      assert words == [words[0]] + words[1..];
    }
  }
}
