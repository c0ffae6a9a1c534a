/** String helpers with JavaScript's semantics: `split` on a one-character separator and `join`. */
module Text {

  /** Number of occurrences of `c` in `s`. */
  function Occurrences(s: string, c: char): nat
  {
    if s == [] then 0 else (if s[0] == c then 1 else 0) + Occurrences(s[1..], c)
  }

  /** `s.split(sep)`: the maximal separator-free segments of `s`, in order; always at least one. */
  function Split(s: string, sep: char): (parts: seq<string>)
    ensures |parts| == Occurrences(s, sep) + 1
    ensures forall i :: 0 <= i < |parts| ==> sep !in parts[i]
  {
    if s == [] then [""]
    else
      var rest := Split(s[1..], sep);
      if s[0] == sep then [""] + rest
      else [[s[0]] + rest[0]] + rest[1..]
  }

  /** `parts.join(sep)`. */
  function Join(parts: seq<string>, sep: char): string
  {
    if parts == [] then ""
    else if |parts| == 1 then parts[0]
    else parts[0] + [sep] + Join(parts[1..], sep)
  }

  /** `parts.join('')`. */
  function Concat(parts: seq<string>): string
  {
    if parts == [] then "" else parts[0] + Concat(parts[1..])
  }

  /** Joining the segments back with the separator gives the original string. */
  lemma {:induction false} JoinSplit(s: string, sep: char)
    ensures Join(Split(s, sep), sep) == s
  {
    if s != [] {
      var rest := Split(s[1..], sep);
      JoinSplit(s[1..], sep);
      if s[0] == sep {
        assert Split(s, sep) == [""] + rest;
      } else {
        var parts := Split(s, sep);
        assert parts == [[s[0]] + rest[0]] + rest[1..];
        if |rest| == 1 {
          assert Join(parts, sep) == [s[0]] + rest[0];
        } else {
          assert parts[1..] == rest[1..];
          assert Join(rest, sep) == rest[0] + [sep] + Join(rest[1..], sep);
        }
      }
    }
  }

  /** A string with exactly one separator splits into exactly the two pieces around it. */
  lemma {:induction false} SplitAroundOne(a: string, b: string, sep: char)
    requires sep !in a && sep !in b
    ensures Split(a + [sep] + b, sep) == [a, b]
  {
    if a == [] {
      assert a + [sep] + b == [sep] + b;
      SplitNone(b, sep);
    } else {
      var s := a + [sep] + b;
      SplitAroundOne(a[1..], b, sep);
      assert s[1..] == a[1..] + [sep] + b;
      assert s[0] == a[0] && a[0] != sep;
      assert Split(s, sep) == [[a[0]] + a[1..]] + [b];
      assert [a[0]] + a[1..] == a;
    }
  }

  /** A string without the separator is a single segment. */
  lemma {:induction false} SplitNone(s: string, sep: char)
    requires sep !in s
    ensures Split(s, sep) == [s]
  {
    if s != [] {
      SplitNone(s[1..], sep);
      assert [s[0]] + s[1..] == s;
    }
  }
}
