/**
 String utilities the core relies on: Python's whitespace test and the
 argument-less `str.split()`, and the ASCII case folding used to compare
 nameserver names.
 */
module Text {

  /** True of the characters Python's `str.isspace()` accepts, which are the
      separators of an argument-less `str.split()`. */
  predicate IsSpace(c: char) {
    var n := c as int;
    || n == 0x20
    || 0x09 <= n <= 0x0D
    || 0x1C <= n <= 0x1F
    || n == 0x85
    || n == 0xA0
    || n == 0x1680
    || 0x2000 <= n <= 0x200A
    || n == 0x2028
    || n == 0x2029
    || n == 0x202F
    || n == 0x205F
    || n == 0x3000
  }

  /** A string holding no separator at all (possibly empty). */
  predicate NoSpace(s: string) {
    forall i :: 0 <= i < |s| ==> !IsSpace(s[i])
  }

  /** A token of `str.split()`: a non-empty run of non-separators. */
  predicate IsWord(t: string) {
    |t| > 0 && NoSpace(t)
  }

  /** Length of the run of non-separators that starts `s`. */
  function WordLength(s: string): (n: nat)
    ensures n <= |s|
    ensures NoSpace(s[..n])
    ensures n < |s| ==> IsSpace(s[n])
  {
    if |s| == 0 || IsSpace(s[0]) then 0
    else
      var m := WordLength(s[1..]);
      assert s[..m + 1] == [s[0]] + s[1..][..m];
      1 + m
  }

  /** Python's `s.split()` with no argument: the maximal runs of
      non-separators of `s`, in order. */
  function Split(s: string): (ts: seq<string>)
    ensures forall k :: 0 <= k < |ts| ==> IsWord(ts[k])
    decreases |s|
  {
    if |s| == 0 then []
    else if IsSpace(s[0]) then Split(s[1..])
    else
      var n := WordLength(s);
      [s[..n]] + Split(s[n..])
  }

  /** A string made only of separators (possibly empty). */
  predicate AllSpace(w: string) {
    forall i :: 0 <= i < |w| ==> IsSpace(w[i])
  }

  /** The tokens `ts` written one after another with `sep` between
      neighbours: the inverse of `Split` on well-formed token lists. */
  function JoinWith(sep: string, ts: seq<string>): string {
    if |ts| == 0 then ""
    else if |ts| == 1 then ts[0]
    else ts[0] + sep + JoinWith(sep, ts[1..])
  }

  /** The characters of `s` that are not separators, in order. */
  function RemoveSpaces(s: string): string {
    if |s| == 0 then ""
    else (if IsSpace(s[0]) then "" else [s[0]]) + RemoveSpaces(s[1..])
  }

  /** The tokens glued together without separators. */
  function Concat(ts: seq<string>): string {
    if |ts| == 0 then "" else ts[0] + Concat(ts[1..])
  }

  /** A word followed by nothing or by a separator ends where the word ends. */
  lemma {:induction false} WordLengthOfWord(t: string, x: string)
    requires NoSpace(t)
    requires |x| == 0 || IsSpace(x[0])
    ensures WordLength(t + x) == |t|
    decreases |t|
  {
    if |t| > 0 {
      assert (t + x)[0] == t[0];
      assert (t + x)[1..] == t[1..] + x;
      WordLengthOfWord(t[1..], x);
    }
  }

  /** Leading separators are skipped: they start no token. */
  lemma {:induction false} SplitSkipsSpace(w: string, s: string)
    requires AllSpace(w)
    ensures Split(w + s) == Split(s)
    decreases |w|
  {
    if |w| > 0 {
      assert (w + s)[0] == w[0];
      assert (w + s)[1..] == w[1..] + s;
      SplitSkipsSpace(w[1..], s);
    } else {
      assert w + s == s;
    }
  }

  /** A word followed by nothing or by a separator is one whole token. */
  lemma SplitWordThen(t: string, x: string)
    requires IsWord(t)
    requires |x| == 0 || IsSpace(x[0])
    ensures Split(t + x) == [t] + Split(x)
  {
    WordLengthOfWord(t, x);
    var s := t + x;
    assert s[0] == t[0];
    assert s[..|t|] == t;
    assert s[|t|..] == x;
  }

  /** Trailing separators are dropped: they end no token and start none. */
  lemma {:induction false} SplitDropsTrailingSpace(s: string, w: string)
    requires AllSpace(w)
    ensures Split(s + w) == Split(s)
    decreases |s|
  {
    var sw := s + w;
    if |s| == 0 {
      assert sw == w + "";
      SplitSkipsSpace(w, "");
    } else if IsSpace(s[0]) {
      assert sw[0] == s[0];
      assert sw[1..] == s[1..] + w;
      SplitDropsTrailingSpace(s[1..], w);
    } else {
      var n := WordLength(s);
      var rest := s[n..];
      assert s == s[..n] + rest;
      assert sw == s[..n] + (rest + w);
      assert |rest + w| == 0 || IsSpace((rest + w)[0]);
      SplitWordThen(s[..n], rest + w);
      SplitWordThen(s[..n], rest);
      SplitDropsTrailingSpace(rest, w);
    }
  }

  /** Splitting a list of tokens joined by any non-empty run of separators
      gives the tokens back. */
  lemma {:induction false} SplitJoinWith(sep: string, ts: seq<string>)
    requires |sep| > 0 && AllSpace(sep)
    requires forall k :: 0 <= k < |ts| ==> IsWord(ts[k])
    ensures Split(JoinWith(sep, ts)) == ts
  {
    if |ts| == 1 {
      SplitWordThen(ts[0], "");
      assert ts[0] + "" == ts[0];
    } else if |ts| > 1 {
      var t, rest := ts[0], JoinWith(sep, ts[1..]);
      assert JoinWith(sep, ts) == t + (sep + rest);
      SplitWordThen(t, sep + rest);
      SplitSkipsSpace(sep, rest);
      SplitJoinWith(sep, ts[1..]);
    }
  }

  /** Separators around a string change nothing about its tokens. */
  lemma SplitIgnoresPadding(lead: string, s: string, trail: string)
    requires AllSpace(lead) && AllSpace(trail)
    ensures Split(lead + s + trail) == Split(s)
  {
    var padded := s + trail;
    SplitDropsTrailingSpace(s, trail);
    SplitSkipsSpace(lead, padded);
    assert lead + s + trail == lead + padded;
  }

  /** A listing of tokens joined by separators, with any separators before
      and after, splits into exactly those tokens. */
  lemma SplitListing(lead: string, sep: string, ts: seq<string>, trail: string)
    requires AllSpace(lead) && AllSpace(trail)
    requires |sep| > 0 && AllSpace(sep)
    requires forall k :: 0 <= k < |ts| ==> IsWord(ts[k])
    ensures Split(lead + JoinWith(sep, ts) + trail) == ts
  {
    SplitIgnoresPadding(lead, JoinWith(sep, ts), trail);
    SplitJoinWith(sep, ts);
  }

  /** `RemoveSpaces` distributes over concatenation. */
  lemma {:induction false} RemoveSpacesAppend(a: string, b: string)
    ensures RemoveSpaces(a + b) == RemoveSpaces(a) + RemoveSpaces(b)
    decreases |a|
  {
    if |a| > 0 {
      assert (a + b)[0] == a[0];
      assert (a + b)[1..] == a[1..] + b;
      RemoveSpacesAppend(a[1..], b);
    } else {
      assert a + b == b;
    }
  }

  /** A string without separators is left alone by `RemoveSpaces`. */
  lemma {:induction false} RemoveSpacesOfNoSpace(s: string)
    requires NoSpace(s)
    ensures RemoveSpaces(s) == s
    decreases |s|
  {
    if |s| > 0 {
      RemoveSpacesOfNoSpace(s[1..]);
      assert [s[0]] + s[1..] == s;
    }
  }

  /** `Split` loses exactly the separators: its tokens, glued back together,
      are the non-separator characters of the input in order. */
  lemma {:induction false} SplitKeepsEveryNonSpace(s: string)
    ensures Concat(Split(s)) == RemoveSpaces(s)
    decreases |s|
  {
    if |s| > 0 {
      if IsSpace(s[0]) {
        SplitKeepsEveryNonSpace(s[1..]);
      } else {
        var n := WordLength(s);
        SplitKeepsEveryNonSpace(s[n..]);
        assert s == s[..n] + s[n..];
        RemoveSpacesAppend(s[..n], s[n..]);
        RemoveSpacesOfNoSpace(s[..n]);
      }
    }
  }

  /** ASCII lower-casing of one character. */
  function LowerChar(c: char): char {
    if 'A' <= c <= 'Z' then (c as int + 32) as char else c
  }

  /** ASCII lower-casing of a string, character by character. */
  function AsciiLower(s: string): string {
    seq(|s|, i requires 0 <= i < |s| => LowerChar(s[i]))
  }
}
