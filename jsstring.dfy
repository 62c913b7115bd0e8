/**
 * The two string operations of the JavaScript runtime that the script relies on,
 * specialised to a one-character separator: `s.split(sep)` and `xs.join(sep)`.
 */
module JsString {

  /**
   * `s.split(sep)`: the pieces of `s` between occurrences of `sep`, in order.
   * There is always at least one piece (`"".split(sep)` is `[""]`), and no piece
   * contains the separator.
   */
  function Split(s: string, sep: char): (r: seq<string>)
    ensures |r| >= 1
    ensures forall i :: 0 <= i < |r| ==> sep !in r[i]
    decreases |s|
  {
    if s == [] then [""]
    else
      var rest := Split(s[1..], sep);
      if s[0] == sep then [""] + rest
      else [[s[0]] + rest[0]] + rest[1..]
  }

  /**
   * `xs.join(sep)`: the pieces with one separator between neighbours; `[].join(sep)` is `""`.
   * The first piece opens the result and the separator follows it when there are more;
   * over separator-free pieces the separator occurs exactly when there are two or more.
   */
  function Join(xs: seq<string>, sep: char): (r: string)
    ensures |xs| >= 1 ==> xs[0] <= r
    ensures |xs| >= 2 ==> |xs[0]| < |r| && r[|xs[0]|] == sep
    decreases |xs|
  {
    if |xs| == 0 then ""
    else if |xs| == 1 then xs[0]
    else xs[0] + [sep] + Join(xs[1..], sep)
  }

  /** Joining the pieces of a split with the same separator gives back the string. */
  lemma {:induction false} JoinSplit(s: string, sep: char)
    ensures Join(Split(s, sep), sep) == s
    decreases |s|
  {
    if s != [] {
      var rest := Split(s[1..], sep);
      JoinSplit(s[1..], sep);
      assert s == [s[0]] + s[1..];
      if s[0] == sep {
        assert Split(s, sep) == [""] + rest;
        assert ([""] + rest)[1..] == rest;
      } else {
        var r := [[s[0]] + rest[0]] + rest[1..];
        assert Split(s, sep) == r;
        if |rest| > 1 {
          assert r[1..] == rest[1..];
          assert Join(rest, sep) == rest[0] + [sep] + Join(rest[1..], sep);
        }
      }
    }
  }

  /** Splitting a string whose head `a` holds no separator: `a` opens the first piece. */
  lemma {:induction false} SplitAppend(a: string, t: string, sep: char)
    requires sep !in a
    ensures Split(a + t, sep) == [a + Split(t, sep)[0]] + Split(t, sep)[1..]
    decreases |a|
  {
    var st := Split(t, sep);
    if a == [] {
      assert a + t == t;
      assert a + st[0] == st[0];
      assert [st[0]] + st[1..] == st;
    } else {
      SplitAppend(a[1..], t, sep);
      assert (a + t)[1..] == a[1..] + t;
      assert (a + t)[0] == a[0];
      assert [a[0]] + (a[1..] + st[0]) == a + st[0];
    }
  }

  /** A leading separator closes an empty first piece. */
  lemma SplitAfterSep(b: string, sep: char)
    ensures Split([sep] + b, sep) == [""] + Split(b, sep)
  {
    assert ([sep] + b)[1..] == b;
  }

  /** Splitting the join of separator-free pieces gives back the pieces. */
  lemma {:induction false} SplitJoin(xs: seq<string>, sep: char)
    requires |xs| >= 1
    requires forall i :: 0 <= i < |xs| ==> sep !in xs[i]
    ensures Split(Join(xs, sep), sep) == xs
    decreases |xs|
  {
    if |xs| == 1 {
      SplitAppend(xs[0], "", sep);
      assert xs[0] + "" == xs[0];
    } else {
      var tail := Join(xs[1..], sep);
      SplitJoin(xs[1..], sep);
      SplitAfterSep(tail, sep);
      SplitAppend(xs[0], [sep] + tail, sep);
      assert Join(xs, sep) == xs[0] + ([sep] + tail);
      var pieces := [""] + xs[1..];
      assert pieces[0] == "" && pieces[1..] == xs[1..];
      assert xs[0] + "" == xs[0];
      assert xs == [xs[0]] + xs[1..];
    }
  }

  /**
   * The first piece of a split is the prefix of `s` before the first separator:
   * it is a prefix of `s`, it holds no separator, and it is followed by a separator
   * exactly when there is more than one piece; and there is more than one piece
   * exactly when `s` contains the separator.
   */
  lemma {:induction false} SplitHead(s: string, sep: char)
    ensures var h := Split(s, sep)[0];
      && |h| <= |s| && h == s[..|h|] && sep !in h
      && (|Split(s, sep)| > 1 <==> |h| < |s|)
      && (|h| < |s| ==> s[|h|] == sep)
      && (|Split(s, sep)| > 1 <==> sep in s)
    decreases |s|
  {
    if s != [] {
      SplitHead(s[1..], sep);
      assert s == [s[0]] + s[1..];
    }
    var h := Split(s, sep)[0];
    if |h| == |s| {
      assert h == s;
    }
  }
}
