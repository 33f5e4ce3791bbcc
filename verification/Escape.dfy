/** Backslash escaping by chained replacements: syslog structured-data values (section 6.3.3 of
    RFC 5424) and LIKE patterns. */
module Escape {
  import opened Wrappers
  import opened Strings

  /** One simultaneous pass: a backslash before every special character. */
  function EscapeAll(s: string, special: set<char>): string {
    if s == "" then "" else (if s[0] in special then ['\\', s[0]] else [s[0]]) + EscapeAll(s[1..], special)
  }

  // --- syslog ---

  const SD_SPECIAL := {'\\', '"', ']'}

  function EscapeSDValue(v: string): string {
    ReplaceChar(ReplaceChar(ReplaceChar(v, '\\', "\\\\"), '"', "\\\""), ']', "\\]")
  }

  lemma EscapeSDConcat(a: string, b: string)
    ensures EscapeSDValue(a + b) == EscapeSDValue(a) + EscapeSDValue(b)
  {
    ReplaceConcat(a, b, '\\', "\\\\");
    var a1, b1 := ReplaceChar(a, '\\', "\\\\"), ReplaceChar(b, '\\', "\\\\");
    ReplaceConcat(a1, b1, '"', "\\\"");
    ReplaceConcat(ReplaceChar(a1, '"', "\\\""), ReplaceChar(b1, '"', "\\\""), ']', "\\]");
  }

  lemma ReplaceOne(c: char, ch: char, sub: string)
    ensures ReplaceChar([c], ch, sub) == if c == ch then sub else [c]
  {
    assert [c][1..] == "";
    assert ReplaceChar("", ch, sub) == "";
    assert sub + "" == sub;
  }

  lemma ReplaceTwo(c: char, d: char, ch: char, sub: string)
    requires c != ch && d != ch
    ensures ReplaceChar([c, d], ch, sub) == [c, d]
  {
    ReplaceOne(c, ch, sub);
    ReplaceOne(d, ch, sub);
    ReplaceConcat([c], [d], ch, sub);
    assert [c] + [d] == [c, d];
  }

  lemma EscapeSDChar(c: char)
    ensures EscapeSDValue([c]) == if c in SD_SPECIAL then ['\\', c] else [c]
  {
    ReplaceOne(c, '\\', "\\\\");
    ReplaceOne(c, '"', "\\\"");
    ReplaceOne(c, ']', "\\]");
    ReplaceTwo('\\', '\\', '"', "\\\"");
    ReplaceTwo('\\', '\\', ']', "\\]");
    ReplaceTwo('\\', '"', ']', "\\]");
  }

  /** The three replacements, in their order, amount to one simultaneous pass. */
  lemma {:induction false} EscapeSDIsSimultaneous(v: string)
    ensures EscapeSDValue(v) == EscapeAll(v, SD_SPECIAL)
  {
    if v != "" {
      EscapeSDIsSimultaneous(v[1..]);
      EscapeSDConcat([v[0]], v[1..]);
      EscapeSDChar(v[0]);
      assert v == [v[0]] + v[1..];
    }
  }

  /** A receiver's reading of a value up to its closing quote: the rest of the message follows. A
      backslash before anything but the three special characters stands for itself. */
  function ReadSDValue(s: string): Option<(string, string)> {
    if s == "" || s[0] == ']' then None
    else if s[0] == '"' then Some(("", s[1..]))
    else if s[0] == '\\' && |s| > 1 && s[1] in SD_SPECIAL then
      var (v, rest) :- ReadSDValue(s[2..]);
      Some(([s[1]] + v, rest))
    else
      var (v, rest) :- ReadSDValue(s[1..]);
      Some(([s[0]] + v, rest))
  }

  lemma {:induction false} ReadEscaped(v: string, rest: string)
    ensures ReadSDValue(EscapeAll(v, SD_SPECIAL) + "\"" + rest) == Some((v, rest))
  {
    var s := EscapeAll(v, SD_SPECIAL) + "\"" + rest;
    if v == "" {
      assert s == "\"" + rest && s[1..] == rest;
    } else {
      var tail := EscapeAll(v[1..], SD_SPECIAL) + "\"" + rest;
      ReadEscaped(v[1..], rest);
      assert [v[0]] + v[1..] == v;
      if v[0] in SD_SPECIAL {
        assert s == ['\\', v[0]] + tail && s[2..] == tail;
      } else {
        assert s == [v[0]] + tail && s[1..] == tail;
      }
    }
  }

  /** Whatever a field holds, the receiver gets it back and finds the end of it where the sender put
      the closing quote. */
  lemma SyslogReadsBack(v: string, rest: string)
    ensures ReadSDValue(EscapeSDValue(v) + "\"" + rest) == Some((v, rest))
  {
    EscapeSDIsSimultaneous(v);
    ReadEscaped(v, rest);
  }

  // --- LIKE ---

  const LIKE_SPECIAL := {'\\', '%', '_'}

  function EscapeLike(s: string): string {
    ReplaceChar(ReplaceChar(ReplaceChar(s, '\\', "\\\\"), '%', "\\%"), '_', "\\_")
  }

  lemma EscapeLikeConcat(a: string, b: string)
    ensures EscapeLike(a + b) == EscapeLike(a) + EscapeLike(b)
  {
    ReplaceConcat(a, b, '\\', "\\\\");
    var a1, b1 := ReplaceChar(a, '\\', "\\\\"), ReplaceChar(b, '\\', "\\\\");
    ReplaceConcat(a1, b1, '%', "\\%");
    ReplaceConcat(ReplaceChar(a1, '%', "\\%"), ReplaceChar(b1, '%', "\\%"), '_', "\\_");
  }

  lemma EscapeLikeChar(c: char)
    ensures EscapeLike([c]) == if c in LIKE_SPECIAL then ['\\', c] else [c]
  {
    ReplaceOne(c, '\\', "\\\\");
    ReplaceOne(c, '%', "\\%");
    ReplaceOne(c, '_', "\\_");
    ReplaceTwo('\\', '\\', '%', "\\%");
    ReplaceTwo('\\', '\\', '_', "\\_");
    ReplaceTwo('\\', '%', '_', "\\_");
  }

  lemma {:induction false} EscapeLikeIsSimultaneous(s: string)
    ensures EscapeLike(s) == EscapeAll(s, LIKE_SPECIAL)
  {
    if s != "" {
      EscapeLikeIsSimultaneous(s[1..]);
      EscapeLikeConcat([s[0]], s[1..]);
      EscapeLikeChar(s[0]);
      assert s == [s[0]] + s[1..];
    }
  }

  /** LIKE, case-sensitively; `escapes` says whether the dialect takes backslash as escape character
      by default (MySQL and PostgreSQL do, SQLite does not). */
  predicate Like(text: string, pattern: string, escapes: bool)
    decreases |pattern|, |text|
  {
    if pattern == "" then text == ""
    else if pattern[0] == '%' then
      Like(text, pattern[1..], escapes) || (text != "" && Like(text[1..], pattern, escapes))
    else if pattern[0] == '_' then text != "" && Like(text[1..], pattern[1..], escapes)
    else if escapes && pattern[0] == '\\' && |pattern| > 1 then
      text != "" && text[0] == pattern[1] && Like(text[1..], pattern[2..], escapes)
    else text != "" && text[0] == pattern[0] && Like(text[1..], pattern[1..], escapes)
  }

  lemma {:induction false} PercentMatchesAll(text: string, escapes: bool)
    ensures Like(text, "%", escapes)
    decreases |text|
  {
    assert "%"[1..] == "";
    if text != "" {
      PercentMatchesAll(text[1..], escapes);
    }
  }

  lemma PrefixStep(s: string, text: string)
    requires s != ""
    ensures s <= text <==> text != "" && text[0] == s[0] && s[1..] <= text[1..]
  {
    if s <= text {
      assert s[1..] <= text[1..];
    }
    if text != "" && text[0] == s[0] && s[1..] <= text[1..] {
      assert s == [s[0]] + s[1..] && text == [text[0]] + text[1..];
    }
  }

  lemma {:induction false} EscapedMatchesPrefix(s: string, text: string)
    ensures Like(text, EscapeAll(s, LIKE_SPECIAL) + "%", true) <==> s <= text
  {
    var pattern := EscapeAll(s, LIKE_SPECIAL) + "%";
    if s == "" {
      assert pattern == "%";
      PercentMatchesAll(text, true);
    } else {
      var tail := EscapeAll(s[1..], LIKE_SPECIAL) + "%";
      PrefixStep(s, text);
      if text != "" {
        EscapedMatchesPrefix(s[1..], text[1..]);
      }
      if s[0] in LIKE_SPECIAL {
        assert pattern == ['\\', s[0]] + tail && pattern[2..] == tail;
      } else {
        assert pattern == [s[0]] + tail && pattern[1..] == tail;
      }
    }
  }

  /** Where backslash escapes, filtering by LIKE escapeLike(s)% selects exactly the usernames that
      start with s, whatever wildcards s holds. */
  lemma FilterIsPrefix(s: string, text: string)
    ensures Like(text, EscapeLike(s) + "%", true) <==> s <= text
  {
    EscapeLikeIsSimultaneous(s);
    EscapedMatchesPrefix(s, text);
  }

  // --- LIKE without an escape character ---

  function Needed(pattern: string): nat {
    if pattern == "" then 0 else (if pattern[0] == '%' then 0 else 1) + Needed(pattern[1..])
  }

  lemma {:induction false} MatchIsLongEnough(text: string, pattern: string)
    requires Like(text, pattern, false)
    ensures |text| >= Needed(pattern)
    decreases |pattern|, |text|
  {
    if pattern != "" {
      if pattern[0] == '%' {
        if Like(text, pattern[1..], false) {
          MatchIsLongEnough(text, pattern[1..]);
        } else {
          MatchIsLongEnough(text[1..], pattern);
        }
      } else {
        MatchIsLongEnough(text[1..], pattern[1..]);
      }
    }
  }

  predicate NoSpecial(s: string) {
    forall i | 0 <= i < |s| :: s[i] !in LIKE_SPECIAL
  }

  lemma {:induction false} NeededAtLeast(s: string)
    ensures Needed(EscapeAll(s, LIKE_SPECIAL) + "%") >= |s|
    ensures '\\' in s ==> Needed(EscapeAll(s, LIKE_SPECIAL) + "%") > |s|
  {
    var pattern := EscapeAll(s, LIKE_SPECIAL) + "%";
    if s != "" {
      var tail := EscapeAll(s[1..], LIKE_SPECIAL) + "%";
      NeededAtLeast(s[1..]);
      assert s == [s[0]] + s[1..];
      if s[0] in LIKE_SPECIAL {
        assert pattern == ['\\', s[0]] + tail && pattern[1..] == [s[0]] + tail && pattern[1..][1..] == tail;
        assert Needed(pattern) == 1 + Needed([s[0]] + tail);
      } else {
        assert pattern == [s[0]] + tail && pattern[1..] == tail;
      }
    }
  }

  lemma {:induction false} SpecialNeverMatchesItself(s: string)
    requires !NoSpecial(s)
    ensures !Like(s, EscapeAll(s, LIKE_SPECIAL) + "%", false)
  {
    var pattern := EscapeAll(s, LIKE_SPECIAL) + "%";
    var tail := EscapeAll(s[1..], LIKE_SPECIAL) + "%";
    if s[0] !in LIKE_SPECIAL {
      assert pattern == [s[0]] + tail && pattern[1..] == tail;
      assert !NoSpecial(s[1..]) by {
        var i :| 0 <= i < |s| && s[i] in LIKE_SPECIAL;
        assert s[1..][i - 1] == s[i];
      }
      SpecialNeverMatchesItself(s[1..]);
    } else if s[0] == '\\' {
      NeededAtLeast(s);
      if Like(s, pattern, false) {
        MatchIsLongEnough(s, pattern);
      }
    } else {
      assert pattern == ['\\', s[0]] + tail && pattern[0] == '\\';
    }
  }

  lemma {:induction false} NoSpecialMatchesPrefix(s: string, text: string)
    requires NoSpecial(s)
    ensures Like(text, EscapeAll(s, LIKE_SPECIAL) + "%", false) <==> s <= text
  {
    var pattern := EscapeAll(s, LIKE_SPECIAL) + "%";
    if s == "" {
      assert pattern == "%";
      PercentMatchesAll(text, false);
    } else {
      var tail := EscapeAll(s[1..], LIKE_SPECIAL) + "%";
      PrefixStep(s, text);
      if text != "" {
        NoSpecialMatchesPrefix(s[1..], text[1..]);
      }
      assert pattern == [s[0]] + tail && pattern[1..] == tail;
    }
  }

  /** Without an escape character, as on SQLite, the filter is a prefix search exactly when s holds no
      special character; otherwise not even the username s itself is found. */
  lemma UnescapedFilterIsPrefixIff(s: string)
    ensures (forall text :: Like(text, EscapeLike(s) + "%", false) <==> s <= text) <==> NoSpecial(s)
  {
    EscapeLikeIsSimultaneous(s);
    if NoSpecial(s) {
      forall text
        ensures Like(text, EscapeLike(s) + "%", false) <==> s <= text
      {
        NoSpecialMatchesPrefix(s, text);
      }
    } else {
      SpecialNeverMatchesItself(s);
      assert s <= s;
    }
  }
}
