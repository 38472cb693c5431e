/**
 Rust's `str::split` with a `char` pattern and the iterator it returns.

 Splitting never yields nothing: the empty string gives one empty segment,
 and every occurrence of the separator closes one segment and opens the
 next, so `"a="` gives `["a", ""]` and `"="` gives `["", ""]`.
 */
module RustStr {
  import opened Wrappers

  /** No segment contains the separator. */
  ghost predicate FreeOf(parts: seq<string>, sep: char) {
    forall i :: 0 <= i < |parts| ==> sep !in parts[i]
  }

  /** The segments glued back together with `sep` between neighbours; the inverse of `Split`. */
  function Join(parts: seq<string>, sep: char): string
    requires |parts| >= 1
    decreases |parts|
  {
    if |parts| == 1 then parts[0] else parts[0] + [sep] + Join(parts[1..], sep)
  }

  /** The segments `s.split(sep)` yields, in order. */
  function Split(s: string, sep: char): (parts: seq<string>)
    ensures |parts| >= 1
    ensures FreeOf(parts, sep)
    ensures Join(parts, sep) == s
    ensures |parts| == 1 <==> sep !in s
    decreases |s|
  {
    if |s| == 0 then
      [""]
    else
      var rest := Split(s[1..], sep);
      assert s == [s[0]] + s[1..];
      if s[0] == sep then
        assert ([""] + rest)[1..] == rest;
        [""] + rest
      else
        var parts := [[s[0]] + rest[0]] + rest[1..];
        assert |rest| > 1 ==> parts[1..] == rest[1..];
        parts
  }

  /** One call of `next()` on the split iterator: the next segment and the rest, or `None` when exhausted. */
  function Next(segments: seq<string>): (r: Option<(string, seq<string>)>)
    ensures r.None? <==> |segments| == 0
    ensures r.Some? ==> [r.value.0] + r.value.1 == segments
  {
    if |segments| == 0 then None else Some((segments[0], segments[1..]))
  }

  /** A separator right after a separator-free prefix closes exactly one segment. */
  lemma {:induction false} SplitAfterFirst(a: string, b: string, sep: char)
    requires sep !in a
    ensures Split(a + [sep] + b, sep) == [a] + Split(b, sep)
    decreases |a|
  {
    var s := a + [sep] + b;
    if |a| == 0 {
      assert s[1..] == b;
    } else {
      assert s[0] == a[0];
      assert s[1..] == a[1..] + [sep] + b;
      SplitAfterFirst(a[1..], b, sep);
      assert [a[0]] + a[1..] == a;
    }
  }

  /** Round trip: splitting what `Join` produced gives back the separator-free segments. */
  lemma {:induction false} SplitJoin(parts: seq<string>, sep: char)
    requires |parts| >= 1
    requires FreeOf(parts, sep)
    ensures Split(Join(parts, sep), sep) == parts
    decreases |parts|
  {
    if |parts| == 1 {
      assert sep !in parts[0];
    } else {
      assert sep !in parts[0];
      SplitAfterFirst(parts[0], Join(parts[1..], sep), sep);
      assert FreeOf(parts[1..], sep) by {
        forall i | 0 <= i < |parts[1..]| ensures sep !in parts[1..][i] {
          assert parts[1..][i] == parts[i + 1];
        }
      }
      SplitJoin(parts[1..], sep);
      assert [parts[0]] + parts[1..] == parts;
    }
  }

  /** The first two segments of a join are laid out at its front, and a separator or the end follows them. */
  lemma JoinFront(parts: seq<string>, sep: char)
    requires |parts| >= 2
    ensures parts[0] + [sep] + parts[1] <= Join(parts, sep)
    ensures var n := |parts[0]| + 1 + |parts[1]|;
      n == |Join(parts, sep)| || Join(parts, sep)[n] == sep
  {
  }
}
