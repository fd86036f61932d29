/**
 * `[String]::join` and `str::split`, the two pieces of Rust's standard
 * library the glossary leans on for its text.
 */
module Text {

  /** `parts.join(sep)`: the parts in order with `sep` between neighbours. */
  function Join(parts: seq<string>, sep: string): string
  {
    if |parts| == 0 then ""
    else if |parts| == 1 then parts[0]
    else parts[0] + sep + Join(parts[1..], sep)
  }

  /** The summed lengths of the parts. */
  function TotalLength(parts: seq<string>): nat
  {
    if parts == [] then 0 else |parts[0]| + TotalLength(parts[1..])
  }

  /** Joining adds exactly one separator between each pair of neighbours. */
  lemma {:induction false} JoinLength(parts: seq<string>, sep: string)
    ensures |parts| == 0 ==> Join(parts, sep) == ""
    ensures |parts| >= 1 ==> |Join(parts, sep)| == TotalLength(parts) + |sep| * (|parts| - 1)
  {
    if |parts| > 1 {
      JoinLength(parts[1..], sep);
    }
  }

  /** Joining two non-empty runs of parts puts one separator at the seam. */
  lemma {:induction false} JoinConcat(a: seq<string>, b: seq<string>, sep: string)
    requires |a| >= 1 && |b| >= 1
    ensures Join(a + b, sep) == Join(a, sep) + sep + Join(b, sep)
  {
    if |a| == 1 {
      assert (a + b)[1..] == b;
    } else {
      assert (a + b)[1..] == a[1..] + b;
      JoinConcat(a[1..], b, sep);
    }
  }

  /**
   * `s.split(sep)`: the maximal runs between occurrences of `sep`; there is
   * always at least one piece, and an empty string gives one empty piece.
   */
  function Split(s: string, sep: char): (r: seq<string>)
    ensures |r| >= 1
  {
    if s == [] then [""]
    else
      var init := Split(s[..|s| - 1], sep);
      var last := s[|s| - 1];
      if last == sep then init + [""]
      else init[..|init| - 1] + [init[|init| - 1] + [last]]
  }

  /** No piece contains the separator, and joining the pieces restores the text. */
  lemma {:induction false} SplitJoin(s: string, sep: char)
    ensures forall i :: 0 <= i < |Split(s, sep)| ==> sep !in Split(s, sep)[i]
    ensures Join(Split(s, sep), [sep]) == s
  {
    if s != [] {
      var prefix := s[..|s| - 1];
      var init := Split(prefix, sep);
      var last := s[|s| - 1];
      SplitJoin(prefix, sep);
      assert s == prefix + [last];
      if last == sep {
        JoinConcat(init, [""], [sep]);
      } else if |init| == 1 {
        assert Split(s, sep) == [init[0] + [last]];
      } else {
        var front := init[..|init| - 1];
        assert init == front + [init[|init| - 1]];
        JoinConcat(front, [init[|init| - 1]], [sep]);
        JoinConcat(front, [init[|init| - 1] + [last]], [sep]);
        assert Split(s, sep) == front + [init[|init| - 1] + [last]];
      }
    }
  }
}
