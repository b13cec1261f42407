/** Python's `sep.join(parts)` on strings, shared by the text formatters. */
module Strings {
  /** `sep.join(parts)`: the parts with one separator between each two neighbours. */
  function Join(sep: string, parts: seq<string>): string
    decreases |parts|
  {
    if |parts| == 0 then ""
    else if |parts| == 1 then parts[0]
    else parts[0] + sep + Join(sep, parts[1..])
  }

  /** The total length of the parts. */
  function TotalLength(parts: seq<string>): nat
  {
    if parts == [] then 0 else |parts[0]| + TotalLength(parts[1..])
  }

  /** Joining adds one separator per gap between parts. */
  lemma {:induction false} JoinLength(sep: string, parts: seq<string>)
    requires |parts| > 0
    ensures |Join(sep, parts)| == TotalLength(parts) + (|parts| - 1) * |sep|
    decreases |parts|
  {
    if |parts| > 1 {
      JoinLength(sep, parts[1..]);
    }
  }

  /** With two parts or more, every character of the separator occurs in the joined string. */
  lemma JoinHasSep(sep: string, parts: seq<string>, c: char)
    requires |parts| > 1 && c in sep
    ensures c in Join(sep, parts)
  {
    assert Join(sep, parts) == parts[0] + sep + Join(sep, parts[1..]);
  }

  /** A character that is in no part and is not the separator is not in the joined string. */
  lemma {:induction false} JoinAvoids(sep: string, parts: seq<string>, c: char)
    requires c !in sep && forall i :: 0 <= i < |parts| ==> c !in parts[i]
    ensures c !in Join(sep, parts)
    decreases |parts|
  {
    if |parts| > 1 {
      JoinAvoids(sep, parts[1..], c);
    }
  }
}
