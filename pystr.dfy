/**
 * The Python `str` methods the log reader relies on — `isspace`, `strip`,
 * `startswith` and `split` with a one-character separator — written over
 * Dafny strings (`seq<char>`, one element per Unicode code point).
 */
module PyStr {

  import opened Wrappers

  /** `c.isspace()`: the code points Python's argument-less `str.strip()` removes. */
  predicate IsSpace(c: char) {
    var n := c as int;
    (0x09 <= n <= 0x0D) || (0x1C <= n <= 0x20) || n == 0x85 || n == 0xA0 || n == 0x1680
    || (0x2000 <= n <= 0x200A) || n == 0x2028 || n == 0x2029 || n == 0x202F || n == 0x205F
    || n == 0x3000
  }

  predicate AllSpace(s: string) {
    forall i :: 0 <= i < |s| ==> IsSpace(s[i])
  }

  /** `s.lstrip()`: a suffix of `s`, with only whitespace cut off in front of it. */
  function StripLeft(s: string): (r: string)
    ensures |r| <= |s| && r == s[|s| - |r|..]
    ensures AllSpace(s[..|s| - |r|])
    ensures r == [] || !IsSpace(r[0])
  {
    if |s| > 0 && IsSpace(s[0]) then
      var r := StripLeft(s[1..]);
      r
    else s
  }

  /** `s.rstrip()`: a prefix of `s`, with only whitespace cut off behind it. */
  function StripRight(s: string): (r: string)
    ensures |r| <= |s| && r == s[..|r|]
    ensures AllSpace(s[|r|..])
    ensures r == [] || !IsSpace(r[|r| - 1])
  {
    if |s| > 0 && IsSpace(s[|s| - 1]) then
      var r := StripRight(s[..|s| - 1]);
      assert s[|r|..] == s[..|s| - 1][|r|..] + [s[|s| - 1]];
      r
    else s
  }

  /** `s.strip()`: neither end of the result is whitespace. */
  function Strip(s: string): (r: string)
    ensures |r| <= |s|
    ensures r == [] || (!IsSpace(r[0]) && !IsSpace(r[|r| - 1]))
  {
    StripRight(StripLeft(s))
  }

  /** `s.startswith(p)`. */
  predicate StartsWith(s: string, p: string) {
    |p| <= |s| && s[..|p|] == p
  }

  /** `sep.join(parts)`: the inverse of `Split`. */
  function Join(parts: seq<string>, sep: char): string
    requires |parts| >= 1
  {
    if |parts| == 1 then parts[0] else parts[0] + [sep] + Join(parts[1..], sep)
  }

  /**
   * `s.split(sep)` for a one-character `sep`: at least one piece, no piece
   * holds `sep`, and joining the pieces back with `sep` gives `s` again.
   */
  function Split(s: string, sep: char): (parts: seq<string>)
    ensures |parts| >= 1
    ensures forall i :: 0 <= i < |parts| ==> sep !in parts[i]
    ensures Join(parts, sep) == s
  {
    if |s| == 0 then [""]
    else
      var rest := Split(s[1..], sep);
      if s[0] == sep then
        assert ([""] + rest)[1..] == rest;
        [""] + rest
      else
        var parts := [[s[0]] + rest[0]] + rest[1..];
        assert parts[1..] == rest[1..];
        assert forall i :: 1 <= i < |parts| ==> parts[i] == rest[i];
        JoinConsHead(s[0], rest, sep);
        parts
  }

  lemma {:induction false} JoinConsHead(c: char, parts: seq<string>, sep: char)
    requires |parts| >= 1
    ensures Join([[c] + parts[0]] + parts[1..], sep) == [c] + Join(parts, sep)
  {
  }

  /** Index of the first `c` in `s`, or `|s|` when there is none. */
  function Find(s: string, c: char): (i: nat)
    ensures i <= |s|
    ensures c !in s[..i]
    ensures i < |s| ==> s[i] == c
  {
    if |s| == 0 then 0
    else if s[0] == c then 0
    else
      var i := 1 + Find(s[1..], c);
      assert s[..i] == [s[0]] + s[1..][..i - 1];
      i
  }

  /** The text of `s` before its first `c`; all of `s` when it holds no `c`. */
  function UpTo(s: string, c: char): string {
    s[..Find(s, c)]
  }

  /**
   * The text between the first and the second `c` of `s` (up to the end when
   * there is only one), or `None` when `s` holds no `c` at all.
   */
  function Second(s: string, c: char): Option<string> {
    var i := Find(s, c);
    if i == |s| then None else Some(UpTo(s[i + 1..], c))
  }

  /** `s.split(sep)[0]` is the text before the first separator. */
  lemma {:induction false} SplitFirst(s: string, sep: char)
    ensures Split(s, sep)[0] == UpTo(s, sep)
  {
    if |s| > 0 && s[0] != sep {
      SplitFirst(s[1..], sep);
      assert s[..Find(s, sep)] == [s[0]] + s[1..][..Find(s[1..], sep)];
    }
  }

  /**
   * `s.split(sep)[1]` exists exactly when `s` holds `sep`, and is then the
   * text between the first and the second separator.
   */
  lemma {:induction false} SplitSecond(s: string, sep: char)
    ensures (|Split(s, sep)| >= 2) == (sep in s)
    ensures |Split(s, sep)| >= 2 ==> Second(s, sep) == Some(Split(s, sep)[1])
  {
    if |s| > 0 {
      if s[0] == sep {
        SplitFirst(s[1..], sep);
      } else {
        SplitSecond(s[1..], sep);
        assert sep in s <==> sep in s[1..];
        var i := Find(s[1..], sep);
        if i < |s[1..]| {
          assert s[1 + i + 1..] == s[1..][i + 1..];
        }
      }
    }
  }

  /** Splitting what `Join` produced gives back the pieces, when none holds the separator. */
  lemma {:induction false} SplitJoin(parts: seq<string>, sep: char)
    requires |parts| >= 1
    requires forall i :: 0 <= i < |parts| ==> sep !in parts[i]
    ensures Split(Join(parts, sep), sep) == parts
  {
    if |parts| == 1 {
      SplitPrefix(parts[0], "", sep);
      assert parts[0] + "" == parts[0];
    } else {
      SplitJoin(parts[1..], sep);
      var tail := [sep] + Join(parts[1..], sep);
      assert Join(parts, sep) == parts[0] + tail;
      SplitPrefix(parts[0], tail, sep);
      assert tail[1..] == Join(parts[1..], sep);
      assert Split(tail, sep) == [""] + parts[1..];
      assert parts[0] + "" == parts[0];
      assert parts == [parts[0]] + parts[1..];
    }
  }

  /** A separator-free prefix ends up at the front of the first piece. */
  lemma {:induction false} SplitPrefix(x: string, t: string, sep: char)
    requires sep !in x
    ensures Split(x + t, sep) == [x + Split(t, sep)[0]] + Split(t, sep)[1..]
  {
    var rt := Split(t, sep);
    if |x| == 0 {
      assert x + t == t;
      assert x + rt[0] == rt[0];
      assert rt == [rt[0]] + rt[1..];
    } else {
      SplitPrefix(x[1..], t, sep);
      var u := x[1..] + t;
      assert x + t == [x[0]] + u;
      SplitCons(x[0], u, sep);
      assert [x[0]] + (x[1..] + rt[0]) == x + rt[0];
    }
  }

  /** One step of `split` on a text that starts with a non-separator. */
  lemma SplitCons(c: char, u: string, sep: char)
    requires c != sep
    ensures Split([c] + u, sep) == [[c] + Split(u, sep)[0]] + Split(u, sep)[1..]
  {
  }

  /** Whitespace in front of a text that does not start with whitespace is all `lstrip` removes. */
  lemma {:induction false} StripLeftPadding(a: string, t: string)
    requires AllSpace(a)
    requires t == [] || !IsSpace(t[0])
    ensures StripLeft(a + t) == (if t == [] then [] else t)
  {
    if |a| > 0 {
      assert (a + t)[1..] == a[1..] + t;
      StripLeftPadding(a[1..], t);
    } else {
      assert a + t == t;
      if t != [] {
        assert StripLeft(t) == t;
      }
    }
  }

  /** Whitespace behind a text that does not end with whitespace is all `rstrip` removes. */
  lemma {:induction false} StripRightPadding(t: string, b: string)
    requires AllSpace(b)
    requires t == [] || !IsSpace(t[|t| - 1])
    ensures StripRight(t + b) == t
  {
    if |b| > 0 {
      assert (t + b)[..|t + b| - 1] == t + b[..|b| - 1];
      StripRightPadding(t, b[..|b| - 1]);
    } else {
      assert t + b == t;
    }
  }

  /**
   * `strip` removes exactly the surrounding whitespace: padding a text whose
   * ends are not whitespace with whitespace on either side strips back to it.
   */
  lemma {:induction false} StripPadded(a: string, s: string, b: string)
    requires AllSpace(a) && AllSpace(b)
    requires s == [] || (!IsSpace(s[0]) && !IsSpace(s[|s| - 1]))
    ensures Strip(a + s + b) == s
  {
    if s == [] {
      assert a + s + b == a + b;
      assert AllSpace(a + b);
      StripLeftPadding(a + b, []);
      assert a + b + [] == a + b;
    } else {
      assert a + s + b == a + (s + b);
      StripLeftPadding(a, s + b);
      StripRightPadding(s, b);
    }
  }

  /** A line whose ends are not whitespace is trimmed of its newline and nothing else. */
  lemma StripNewline(s: string)
    requires s == [] || (!IsSpace(s[0]) && !IsSpace(s[|s| - 1]))
    ensures Strip(s + "\n") == s
  {
  }

  /** A blank or whitespace-only text strips to the empty text. */
  lemma BlankStripsToEmpty(s: string)
    requires AllSpace(s)
    ensures Strip(s) == []
  {
  }

  /** A text free of `c` in front of `b` only shifts the position of the first `c`. */
  lemma {:induction false} FindSkip(a: string, b: string, c: char)
    requires c !in a
    ensures Find(a + b, c) == |a| + Find(b, c)
  {
    if |a| > 0 {
      assert (a + b)[1..] == a[1..] + b;
      FindSkip(a[1..], b, c);
    } else {
      assert a + b == b;
    }
  }

  /** The text before the first `c` of `a + b`, when `a` holds no `c` and `b` is empty or starts with `c`, is `a`. */
  lemma UpToStop(a: string, b: string, c: char)
    requires c !in a
    requires b == [] || b[0] == c
    ensures UpTo(a + b, c) == a
  {
    FindSkip(a, b, c);
    assert (a + b)[..|a|] == a;
  }
}
