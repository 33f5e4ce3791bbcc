/** Splitting and joining strings at a separator, as Go's strings package does. */
module Strings {

  function IndexOf(s: string, ch: char): (i: int)
    ensures -1 <= i < |s|
    ensures i >= 0 ==> s[i] == ch && ch !in s[..i]
    ensures i == -1 ==> ch !in s
  {
    if s == "" then -1
    else if s[0] == ch then 0
    else
      var r := IndexOf(s[1..], ch);
      if r == -1 then -1
      else
        assert s[..r + 1] == [s[0]] + s[1..][..r];
        r + 1
  }

  /** strings.Split with a one-character separator. */
  function Split(s: string, sep: char): (parts: seq<string>)
    ensures parts != []
    ensures forall p | p in parts :: sep !in p
  {
    var i := IndexOf(s, sep);
    if i < 0 then [s] else [s[..i]] + Split(s[i + 1..], sep)
  }

  /** strings.Join with a one-character separator. */
  function Join(parts: seq<string>, sep: char): string {
    if parts == [] then ""
    else if |parts| == 1 then parts[0]
    else parts[0] + [sep] + Join(parts[1..], sep)
  }

  lemma JoinCons(p: string, rest: seq<string>, sep: char)
    requires rest != []
    ensures Join([p] + rest, sep) == p + [sep] + Join(rest, sep)
  {
    assert ([p] + rest)[1..] == rest;
  }

  lemma {:induction false} JoinUndoesSplit(s: string, sep: char)
    ensures Join(Split(s, sep), sep) == s
  {
    var i := IndexOf(s, sep);
    if i >= 0 {
      var rest := Split(s[i + 1..], sep);
      JoinUndoesSplit(s[i + 1..], sep);
      JoinCons(s[..i], rest, sep);
      assert s == s[..i] + [sep] + s[i + 1..];
    }
  }

  lemma IndexOfFirst(a: string, sep: char, b: string)
    requires sep !in a
    ensures IndexOf(a + [sep] + b, sep) == |a|
  {
    var s := a + [sep] + b;
    assert s[|a|] == sep;
    assert forall j | 0 <= j < |a| :: s[j] == a[j] && a[j] in a;
  }

  lemma IndexOfNone(a: string, sep: char)
    requires sep !in a
    ensures IndexOf(a, sep) == -1
  {
    assert forall j | 0 <= j < |a| :: a[j] in a;
  }

  /** Splitting takes off a part that holds no separator. */
  lemma SplitCons(p: string, rest: string, sep: char)
    requires sep !in p
    ensures Split(p + [sep] + rest, sep) == [p] + Split(rest, sep)
  {
    var s := p + [sep] + rest;
    IndexOfFirst(p, sep, rest);
    assert s[..|p|] == p && s[|p| + 1..] == rest;
  }

  lemma SplitOne(p: string, sep: char)
    requires sep !in p
    ensures Split(p, sep) == [p]
  {
    IndexOfNone(p, sep);
  }

  lemma {:induction false} SplitUndoesJoin(parts: seq<string>, sep: char)
    requires parts != [] && forall p | p in parts :: sep !in p
    ensures Split(Join(parts, sep), sep) == parts
  {
    var p, rest := parts[0], parts[1..];
    assert p in parts;
    assert parts == [p] + rest;
    if rest == [] {
      SplitOne(p, sep);
    } else {
      assert forall x | x in rest :: x in parts;
      SplitUndoesJoin(rest, sep);
      SplitCons(p, Join(rest, sep), sep);
    }
  }

  /** strings.ReplaceAll of one character by a string. */
  function ReplaceChar(s: string, ch: char, sub: string): string {
    if s == "" then "" else (if s[0] == ch then sub else [s[0]]) + ReplaceChar(s[1..], ch, sub)
  }

  lemma {:induction false} ReplaceConcat(a: string, b: string, ch: char, sub: string)
    ensures ReplaceChar(a + b, ch, sub) == ReplaceChar(a, ch, sub) + ReplaceChar(b, ch, sub)
  {
    if a == "" {
      assert a + b == b;
    } else {
      var head := if a[0] == ch then sub else [a[0]];
      var x, y := ReplaceChar(a[1..], ch, sub), ReplaceChar(b, ch, sub);
      ReplaceConcat(a[1..], b, ch, sub);
      assert (a + b)[0] == a[0] && (a + b)[1..] == a[1..] + b;
      assert ReplaceChar(a + b, ch, sub) == head + (x + y);
      assert head + (x + y) == (head + x) + y;
    }
  }
}
