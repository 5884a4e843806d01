/**
 * The two functions of Go's `strings` package that the frame decoder relies on,
 * for a separator of one character: `strings.Split` and `strings.Join`, plus
 * `strings.HasPrefix`.
 */
module GoStrings {

  /** `strings.Join(parts, string(sep))`: the parts with one separator between neighbours. */
  function Join(parts: seq<string>, sep: char): string
  {
    if |parts| == 0 then ""
    else if |parts| == 1 then parts[0]
    else parts[0] + [sep] + Join(parts[1..], sep)
  }

  /**
   * `strings.Split(s, string(sep))`: the maximal pieces of `s` between
   * occurrences of `sep`. There is always at least one piece (the empty string
   * splits into `[""]`), no piece holds the separator, and joining the pieces
   * back gives `s`.
   */
  function Split(s: string, sep: char): (r: seq<string>)
    ensures |r| >= 1
    ensures forall i :: 0 <= i < |r| ==> sep !in r[i]
    ensures Join(r, sep) == s
  {
    if |s| == 0 then [""]
    else
      var rest := Split(s[1..], sep);
      if s[0] == sep then
        assert s == [sep] + s[1..];
        [""] + rest
      else
        var r := [[s[0]] + rest[0]] + rest[1..];
        assert r[1..] == rest[1..];
        assert s == [s[0]] + s[1..];
        r
  }

  /** `strings.HasPrefix(s, prefix)`. */
  predicate HasPrefix(s: string, prefix: string)
  {
    |prefix| <= |s| && s[..|prefix|] == prefix
  }

  /**
   * Splitting undoes joining: pieces free of the separator are recovered
   * exactly. Together with the contract of Split this says that Split(s) is
   * the only separator-free list of pieces whose join is `s`.
   */
  lemma {:induction false} SplitJoin(parts: seq<string>, sep: char)
    requires |parts| >= 1
    requires forall i :: 0 <= i < |parts| ==> sep !in parts[i]
    ensures Split(Join(parts, sep), sep) == parts
  {
    if |parts| == 1 {
      SplitNoSeparator(parts[0], sep);
    } else {
      SplitJoin(parts[1..], sep);
      SplitCons(parts[0], Join(parts[1..], sep), sep);
      assert [parts[0]] + parts[1..] == parts;
    }
  }

  /** A string without the separator is one piece. */
  lemma {:induction false} SplitNoSeparator(s: string, sep: char)
    requires sep !in s
    ensures Split(s, sep) == [s]
  {
    if |s| > 0 {
      assert sep !in s[1..] by {
        forall i | 0 <= i < |s[1..]| ensures s[1..][i] != sep {
          assert s[1..][i] == s[i + 1];
        }
      }
      SplitNoSeparator(s[1..], sep);
      assert [s[0]] + s[1..] == s;
    }
  }

  /** A separator-free head followed by the separator splits off as the first piece. */
  lemma {:induction false} SplitCons(head: string, tail: string, sep: char)
    requires sep !in head
    ensures Split(head + [sep] + tail, sep) == [head] + Split(tail, sep)
    decreases |head|
  {
    var s := head + [sep] + tail;
    if |head| == 0 {
      assert s[0] == sep && s[1..] == tail;
    } else {
      assert s[0] == head[0];
      assert s[1..] == head[1..] + [sep] + tail;
      assert sep !in head[1..] by {
        forall i | 0 <= i < |head[1..]| ensures head[1..][i] != sep {
          assert head[1..][i] == head[i + 1];
        }
      }
      SplitCons(head[1..], tail, sep);
      assert [head[0]] + head[1..] == head;
    }
  }
}
