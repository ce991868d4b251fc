/**
 * Go's `strings.Split(s, sep)` for a separator of exactly one character, which is how the
 * creation-date rewrite uses it (with "." and "T"), and `strings.Join`, which undoes it.
 */
module GoStrings {

  /**
   * The pieces of `s` between occurrences of `sep`. Like Go, an input without `sep` gives the
   * one-element slice `[s]` (so `Split("", sep) == [""]`), and two adjacent separators give an
   * empty piece between them.
   */
  function Split(s: string, sep: char): (parts: seq<string>)
    ensures |parts| >= 1
    decreases |s|
  {
    if s == [] then [""]
    else
      var rest := Split(s[1..], sep);
      if s[0] == sep then [""] + rest
      else [[s[0]] + rest[0]] + rest[1..]
  }

  /** The glue of `strings.Join`: the pieces with `sep` between consecutive ones. */
  function Join(parts: seq<string>, sep: char): string
  {
    if |parts| == 0 then ""
    else if |parts| == 1 then parts[0]
    else parts[0] + [sep] + Join(parts[1..], sep)
  }

  /** No piece contains the separator. */
  lemma {:induction false} SplitPiecesLackSeparator(s: string, sep: char)
    ensures forall i :: 0 <= i < |Split(s, sep)| ==> sep !in Split(s, sep)[i]
    decreases |s|
  {
    if s != [] {
      SplitPiecesLackSeparator(s[1..], sep);
      var rest := Split(s[1..], sep);
      if s[0] != sep {
        assert sep !in [s[0]] + rest[0];
      }
    }
  }

  /** There is exactly one piece, the whole input, when and only when the separator does not occur. */
  lemma {:induction false} SplitWithoutSeparator(s: string, sep: char)
    ensures sep !in s <==> |Split(s, sep)| == 1
    ensures sep !in s ==> Split(s, sep) == [s]
    decreases |s|
  {
    if s != [] {
      SplitWithoutSeparator(s[1..], sep);
      assert s == [s[0]] + s[1..];
    }
  }

  /** Splitting loses nothing: joining the pieces with the same separator gives back the input. */
  lemma {:induction false} JoinSplit(s: string, sep: char)
    ensures Join(Split(s, sep), sep) == s
    decreases |s|
  {
    if s != [] {
      var rest := Split(s[1..], sep);
      JoinSplit(s[1..], sep);
      SplitCons(s, sep);
      if s[0] == sep {
        JoinCons("", rest, sep);
      } else {
        JoinPrepend(s[0], rest, sep);
      }
      assert s == [s[0]] + s[1..];
    }
  }

  /** One step of Split: the first character either ends the first piece or joins it. */
  lemma SplitCons(s: string, sep: char)
    requires s != []
    ensures s[0] == sep ==> Split(s, sep) == [""] + Split(s[1..], sep)
    ensures s[0] != sep ==> Split(s, sep) == [[s[0]] + Split(s[1..], sep)[0]] + Split(s[1..], sep)[1..]
  {
  }

  /** Joining a first piece in front of at least one more puts one separator between them. */
  lemma JoinCons(first: string, more: seq<string>, sep: char)
    ensures Join([first] + more, sep) == if more == [] then first else first + [sep] + Join(more, sep)
  {
    assert ([first] + more)[1..] == more;
  }

  /** A character added in front of the first piece comes out in front of the joined text. */
  lemma JoinPrepend(c: char, parts: seq<string>, sep: char)
    requires parts != []
    ensures Join([[c] + parts[0]] + parts[1..], sep) == [c] + Join(parts, sep)
  {
    JoinCons([c] + parts[0], parts[1..], sep);
    JoinCons(parts[0], parts[1..], sep);
    assert [parts[0]] + parts[1..] == parts;
    if parts[1..] != [] {
      assert [c] + parts[0] + [sep] + Join(parts[1..], sep) == [c] + (parts[0] + [sep] + Join(parts[1..], sep));
    }
  }

  /**
   * A prefix free of the separator is glued onto the first piece of what follows it.
   */
  lemma {:induction false} SplitPrefix(a: string, b: string, sep: char)
    requires sep !in a
    ensures Split(a + b, sep) == [a + Split(b, sep)[0]] + Split(b, sep)[1..]
    decreases |a|
  {
    var parts := Split(b, sep);
    if a == [] {
      assert a + b == b && a + parts[0] == parts[0];
      assert [parts[0]] + parts[1..] == parts;
    } else {
      SplitPrefix(a[1..], b, sep);
      assert (a + b)[0] == a[0];
      assert (a + b)[1..] == a[1..] + b;
      assert [a[0]] + (a[1..] + parts[0]) == a + parts[0];
    }
  }

  /** The first piece is the text before the first separator; the rest split the text after it. */
  lemma SplitAtFirst(a: string, b: string, sep: char)
    requires sep !in a
    ensures Split(a + [sep] + b, sep) == [a] + Split(b, sep)
  {
    SplitPrefix(a, [sep] + b, sep);
    assert a + [sep] + b == a + ([sep] + b);
    assert ([sep] + b)[1..] == b;
    assert a + "" == a;
  }
}
