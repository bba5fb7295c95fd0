/** The string operations of the JavaScript runtime that the form relies on:
    `Array.prototype.join`, `String.prototype.split` with a one-character
    separator, and `String.prototype.includes`. */
module Strings {

  /** `xs.join(sep)` for a one-character separator: the elements in order,
      with `sep` between neighbours; the empty list joins to "". */
  function Join(xs: seq<string>, sep: char): (s: string)
    ensures xs == [] ==> s == ""
    ensures |xs| == 1 ==> s == xs[0]
  {
    if xs == [] then ""
    else if |xs| == 1 then xs[0]
    else xs[0] + [sep] + Join(xs[1..], sep)
  }

  /** `s.split(sep)` for a one-character separator: the maximal pieces
      between separators, so that there is always at least one piece and
      "".split(sep) is [""]. */
  function Split(s: string, sep: char): (parts: seq<string>)
    ensures |parts| >= 1
    ensures forall i :: 0 <= i < |parts| ==> sep !in parts[i]
    decreases |s|
  {
    if s == [] then [""]
    else
      var rest := Split(s[1..], sep);
      if s[0] == sep then [""] + rest
      else [[s[0]] + rest[0]] + rest[1..]
  }

  /** `s.includes(sub)`: `sub` occurs in `s` at some position. */
  predicate Contains(s: string, sub: string)
    decreases |s|
  {
    sub <= s || (s != [] && Contains(s[1..], sub))
  }

  /** A string without the separator is one piece. */
  lemma {:induction false} SplitWithoutSeparator(s: string, sep: char)
    requires sep !in s
    ensures Split(s, sep) == [s]
    decreases |s|
  {
    if s != [] {
      SplitWithoutSeparator(s[1..], sep);
      assert s == [s[0]] + s[1..];
    }
  }

  /** Splitting at the first separator peels off the piece before it. */
  lemma {:induction false} SplitAtSeparator(x: string, sep: char, t: string)
    requires sep !in x
    ensures Split(x + [sep] + t, sep) == [x] + Split(t, sep)
    decreases |x|
  {
    if x == [] {
      assert x + [sep] + t == [sep] + t;
      assert ([sep] + t)[1..] == t;
    } else {
      var s := x + [sep] + t;
      assert s[1..] == x[1..] + [sep] + t;
      SplitAtSeparator(x[1..], sep, t);
      assert [s[0]] + x[1..] == x;
    }
  }

  /** Splitting undoes joining, provided no element contains the separator
      and the list is not empty (the empty list joins to "", which splits
      into one empty piece). */
  lemma {:induction false} SplitJoin(xs: seq<string>, sep: char)
    requires xs != []
    requires forall i :: 0 <= i < |xs| ==> sep !in xs[i]
    ensures Split(Join(xs, sep), sep) == xs
    decreases |xs|
  {
    if |xs| == 1 {
      SplitWithoutSeparator(xs[0], sep);
    } else {
      SplitAtSeparator(xs[0], sep, Join(xs[1..], sep));
      SplitJoin(xs[1..], sep);
      assert [xs[0]] + xs[1..] == xs;
    }
  }

  /** Every character of a joined string is the separator or a character
      of one of the elements. */
  lemma {:induction false} CharOfJoin(xs: seq<string>, sep: char, c: char)
    requires c in Join(xs, sep) && c != sep
    ensures exists i :: 0 <= i < |xs| && c in xs[i]
    decreases |xs|
  {
    if |xs| > 1 {
      var rest := Join(xs[1..], sep);
      assert Join(xs, sep) == xs[0] + [sep] + rest;
      if c !in xs[0] {
        assert c in rest;
        CharOfJoin(xs[1..], sep, c);
        var i :| 0 <= i < |xs[1..]| && c in xs[1..][i];
        assert c in xs[i + 1];
      }
    }
  }

  /** A string with a prefix starting with `c` contains `c`. */
  lemma {:induction false} ContainsFirstChar(s: string, sub: string)
    requires Contains(s, sub) && sub != []
    ensures sub[0] in s
    decreases |s|
  {
    if sub <= s {
      assert s[0] == sub[0];
    } else {
      ContainsFirstChar(s[1..], sub);
    }
  }

  /** Adding text in front keeps an occurrence. */
  lemma {:induction false} ContainsAfterPrefix(p: string, s: string, sub: string)
    requires Contains(s, sub)
    ensures Contains(p + s, sub)
    decreases |p|
  {
    if p == [] {
      assert p + s == s;
    } else {
      ContainsAfterPrefix(p[1..], s, sub);
      assert (p + s)[1..] == p[1..] + s;
    }
  }

  /** Adding text after keeps an occurrence. */
  lemma {:induction false} ContainsBeforeSuffix(s: string, t: string, sub: string)
    requires Contains(s, sub)
    ensures Contains(s + t, sub)
    decreases |s|
  {
    if sub <= s {
      assert sub <= s + t;
    } else {
      ContainsBeforeSuffix(s[1..], t, sub);
      assert (s + t)[1..] == s[1..] + t;
    }
  }

  /** A joined string contains each of its elements. */
  lemma {:induction false} JoinContainsElement(xs: seq<string>, sep: char, i: nat)
    requires i < |xs|
    ensures Contains(Join(xs, sep), xs[i])
    decreases |xs|
  {
    assert Contains(xs[i], xs[i]) by { assert xs[i] <= xs[i]; }
    if |xs| > 1 {
      var rest := Join(xs[1..], sep);
      if i == 0 {
        ContainsBeforeSuffix(xs[0], [sep] + rest, xs[0]);
        assert xs[0] + [sep] + rest == xs[0] + ([sep] + rest);
      } else {
        JoinContainsElement(xs[1..], sep, i - 1);
        ContainsAfterPrefix(xs[0] + [sep], rest, xs[i]);
      }
    }
  }
}
