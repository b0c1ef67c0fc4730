/** The part of Go's `strings` package that the authentication codes use:
    splitting a string around a one-character separator, and its inverse. */
module Strings {

  /** `strings.Split(s, string(sep))`: the pieces of `s` between occurrences of
      `sep`. There is always at least one piece (the empty string splits into
      one empty piece), no piece contains the separator, and the first piece is
      the prefix of `s` that stops at the first separator or at the end. */
  function Split(s: string, sep: char): (parts: seq<string>)
    ensures |parts| >= 1
    ensures forall i :: 0 <= i < |parts| ==> sep !in parts[i]
    ensures parts[0] <= s
    ensures |parts[0]| == |s| || s[|parts[0]|] == sep
    decreases |s|
  {
    if |s| == 0 then [""]
    else
      var rest := Split(s[1..], sep);
      if s[0] == sep then [""] + rest
      else [[s[0]] + rest[0]] + rest[1..]
  }

  /** `strings.Join(parts, string(sep))`. */
  function Join(parts: seq<string>, sep: char): string
  {
    if |parts| == 0 then ""
    else if |parts| == 1 then parts[0]
    else parts[0] + [sep] + Join(parts[1..], sep)
  }

  /** Joining the pieces again gives back the original string. */
  lemma {:induction false} JoinSplit(s: string, sep: char)
    ensures Join(Split(s, sep), sep) == s
    decreases |s|
  {
    if |s| > 0 {
      var rest := Split(s[1..], sep);
      JoinSplit(s[1..], sep);
      if s[0] == sep {
        assert Split(s, sep) == [""] + rest;
        assert s == [sep] + s[1..];
      } else {
        var parts := Split(s, sep);
        assert parts == [[s[0]] + rest[0]] + rest[1..];
        if |rest| == 1 {
          assert s == [s[0]] + rest[0];
        } else {
          assert parts[1..] == rest[1..];
          assert Join(rest, sep) == rest[0] + [sep] + Join(rest[1..], sep);
          assert s == [s[0]] + s[1..];
        }
      }
    }
  }

  /** Splitting a string whose first piece is `a` (a separator-free prefix)
      prepends `a` to the first piece of the remainder. */
  lemma {:induction false} SplitPrefix(a: string, t: string, sep: char)
    requires sep !in a
    ensures Split(a + t, sep) == [a + Split(t, sep)[0]] + Split(t, sep)[1..]
    decreases |a|
  {
    var st := Split(t, sep);
    if |a| == 0 {
      assert a + t == t;
      assert a + st[0] == st[0];
    } else {
      var s := a + t;
      assert s[0] == a[0] && s[1..] == a[1..] + t;
      SplitPrefix(a[1..], t, sep);
      var rest := Split(s[1..], sep);
      assert rest == [a[1..] + st[0]] + st[1..];
      assert Split(s, sep) == [[a[0]] + rest[0]] + rest[1..];
      assert [a[0]] + (a[1..] + st[0]) == a + st[0];
    }
  }

  /** Splitting separator-free pieces joined by the separator gives back the
      pieces: Split and Join are inverse to each other in both directions. */
  lemma {:induction false} SplitJoin(parts: seq<string>, sep: char)
    requires |parts| >= 1
    requires forall i :: 0 <= i < |parts| ==> sep !in parts[i]
    ensures Split(Join(parts, sep), sep) == parts
    decreases |parts|
  {
    if |parts| == 1 {
      SplitPrefix(parts[0], "", sep);
      assert parts[0] + "" == parts[0];
    } else {
      var j := Join(parts[1..], sep);
      SplitJoin(parts[1..], sep);
      assert Split([sep] + j, sep) == [""] + parts[1..] by {
        assert ([sep] + j)[1..] == j;
      }
      assert parts[0] + [sep] + j == parts[0] + ([sep] + j);
      SplitPrefix(parts[0], [sep] + j, sep);
      assert parts[0] + "" == parts[0];
    }
  }
}
