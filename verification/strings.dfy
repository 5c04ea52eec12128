/** String helpers: joining with a separator, splitting at it, and counting a character. */
module Strings {

  /** The number of occurrences of `c` in `s`. */
  function Count(s: string, c: char): nat {
    if s == "" then 0 else (if s[0] == c then 1 else 0) + Count(s[1..], c)
  }

  /** `segments.join(sep)`. */
  function Join(segments: seq<string>, sep: char): string {
    if segments == [] then ""
    else if |segments| == 1 then segments[0]
    else segments[0] + [sep] + Join(segments[1..], sep)
  }

  /** The fields of `s` between occurrences of `sep`, empty ones included. */
  function Split(s: string, sep: char): (fields: seq<string>)
    ensures |fields| >= 1
  {
    if s == "" then [""]
    else
      var rest := Split(s[1..], sep);
      if s[0] == sep then [""] + rest else [[s[0]] + rest[0]] + rest[1..]
  }

  /** A prefix without the separator becomes the start of the first field. */
  lemma {:induction false} SplitPrefix(a: string, t: string, sep: char)
    requires sep !in a
    ensures Split(a + t, sep) == [a + Split(t, sep)[0]] + Split(t, sep)[1..]
  {
    if a != "" {
      assert (a + t)[1..] == a[1..] + t;
      SplitPrefix(a[1..], t, sep);
      assert [a[0]] + (a[1..] + Split(t, sep)[0]) == a + Split(t, sep)[0];
    } else {
      assert a + t == t;
      var f := Split(t, sep);
      assert a + f[0] == f[0];
      assert f == [f[0]] + f[1..];
    }
  }

  /** Splitting undoes joining when no segment contains the separator. */
  lemma {:induction false} SplitJoin(segments: seq<string>, sep: char)
    requires |segments| >= 1
    requires forall i | 0 <= i < |segments| :: sep !in segments[i]
    ensures Split(Join(segments, sep), sep) == segments
  {
    if |segments| == 1 {
      SplitPrefix(segments[0], "", sep);
      assert segments[0] + "" == segments[0];
    } else {
      var tail := Join(segments[1..], sep);
      SplitJoin(segments[1..], sep);
      assert segments[0] + [sep] + tail == segments[0] + ([sep] + tail);
      SplitPrefix(segments[0], [sep] + tail, sep);
      assert ([sep] + tail)[1..] == tail;
      assert segments[0] + "" == segments[0];
    }
  }

  /** There is one more field than there are separators. */
  lemma {:induction false} SplitCount(s: string, sep: char)
    ensures |Split(s, sep)| == Count(s, sep) + 1
  {
    if s != "" {
      SplitCount(s[1..], sep);
    }
  }

  /** A character other than the separator appears in a join only if some segment holds it. */
  lemma {:induction false} JoinAvoids(segments: seq<string>, sep: char, c: char)
    requires c != sep
    requires forall i | 0 <= i < |segments| :: c !in segments[i]
    ensures c !in Join(segments, sep)
  {
    if |segments| > 1 {
      JoinAvoids(segments[1..], sep, c);
    }
  }
}
