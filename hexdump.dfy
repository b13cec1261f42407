/**
 * The hex encoder of haklib.hexdump: each byte as two lowercase hex
 * digits, pairs separated by spaces, wrapped into lines of 48 characters
 * (16 bytes).
 */
module Hexdump {
  import opened Bytes
  import opened Iter
  import opened Strings
  import opened Arith

  /** Characters per output line: 16 bytes of three characters each. */
  const LineWidth: nat := 3 * 16

  /** The lowercase hex digit of a value below 16. */
  function HexDigit(v: nat): (c: char)
    requires v < 16
    ensures '0' <= c <= '9' || 'a' <= c <= 'f'
  {
    "0123456789abcdef"[v]
  }

  /** The high nibble of a byte. */
  function High(b: byte): (v: nat)
    ensures v < 16 && 16 * v <= b as nat
  {
    b as nat / 16
  }

  /** The low nibble of a byte: with the high one, `b == 16 * High(b) + Low(b)`. */
  function Low(b: byte): (v: nat)
    ensures v < 16 && b as nat == 16 * High(b) + v
  {
    b as nat % 16
  }

  /** The two hex digits of one byte. */
  function HexPair(b: byte): string
  {
    [HexDigit(High(b)), HexDigit(Low(b))]
  }

  /** Python 2's `data.encode('hex')`: two lowercase hex digits per byte, high nibble first. */
  function HexEncode(data: seq<byte>): (r: string)
    ensures |r| == 2 * |data|
    decreases |data|
  {
    if data == [] then ""
    else HexPair(data[0]) + HexEncode(data[1..])
  }

  /** Byte `i` is encoded at positions `2i` and `2i + 1`, high nibble first. */
  lemma {:induction false} HexEncodeAt(data: seq<byte>, i: nat)
    requires i < |data|
    ensures HexEncode(data)[2 * i] == HexDigit(High(data[i]))
    ensures HexEncode(data)[2 * i + 1] == HexDigit(Low(data[i]))
    decreases |data|
  {
    var head := HexPair(data[0]);
    var rest := HexEncode(data[1..]);
    assert HexEncode(data) == head + rest;
    if i > 0 {
      HexEncodeAt(data[1..], i - 1);
      assert data[1..][i - 1] == data[i];
      PairAfterHead(head, rest, i);
    }
  }

  /** Behind a two-element head, pair `i` is pair `i - 1` of the rest. */
  lemma PairAfterHead<T>(head: seq<T>, rest: seq<T>, i: nat)
    requires |head| == 2 && 0 < i && 2 * i + 1 < |head| + |rest|
    ensures (head + rest)[2 * i] == rest[2 * (i - 1)]
    ensures (head + rest)[2 * i + 1] == rest[2 * (i - 1) + 1]
  {
  }

  /** The digit pairs as two-character strings. */
  function PairStrings(ps: seq<(char, char)>): (r: seq<string>)
    ensures |r| == |ps|
  {
    seq(|ps|, i requires 0 <= i < |ps| => [ps[i].0, ps[i].1])
  }

  /** The hex digits taken two at a time, the pairs joined with single spaces. */
  function Spaced(data: seq<byte>): string
  {
    Join(" ", PairStrings(Pairwise(HexEncode(data))))
  }

  /** Slices of 48 characters starting at every multiple of 48; the last slice stops at the end. */
  function Lines(s: string): (r: seq<string>)
  {
    seq((|s| + LineWidth - 1) / LineWidth, j requires 0 <= j < (|s| + LineWidth - 1) / LineWidth =>
      s[LineWidth * j .. if LineWidth * j + LineWidth <= |s| then LineWidth * j + LineWidth else |s|])
  }

  /**
   * hexdumpify: the lines joined with newlines. `n > 0` bytes give the
   * `3n - 1` characters of the spaced string plus one newline per full
   * line of 16 bytes that another line follows; a newline appears exactly
   * when there are more than 16 bytes.
   */
  function Hexdumpify(data: seq<byte>): (r: string)
    ensures |r| == if |data| == 0 then 0 else 3 * |data| - 1 + (|data| - 1) / 16
    ensures '\n' in r <==> |data| > 16
  {
    JoinedLines(data);
    Join("\n", Lines(Spaced(data)))
  }

  // ---------------------------------------------------------------------
  // The joined pair string

  /** The pairs of digits are exactly the byte's hex pairs. */
  lemma PairStringsOfHex(data: seq<byte>)
    ensures |PairStrings(Pairwise(HexEncode(data)))| == |data|
    ensures forall i :: 0 <= i < |data| ==> PairStrings(Pairwise(HexEncode(data)))[i] == HexPair(data[i])
  {
    forall i | 0 <= i < |data|
      ensures PairStrings(Pairwise(HexEncode(data)))[i] == HexPair(data[i])
    {
      HexEncodeAt(data, i);
    }
  }

  /** Joining two-character parts with single spaces: part `i` at `3i`, a space at `3i + 2`. */
  lemma {:induction false} JoinPairsAt(parts: seq<string>)
    requires |parts| > 0 && forall i :: 0 <= i < |parts| ==> |parts[i]| == 2
    ensures |Join(" ", parts)| == 3 * |parts| - 1
    ensures forall i :: 0 <= i < |parts| ==> Join(" ", parts)[3 * i .. 3 * i + 2] == parts[i]
    ensures forall i :: 0 <= i < |parts| - 1 ==> Join(" ", parts)[3 * i + 2] == ' '
    decreases |parts|
  {
    if |parts| > 1 {
      var rest := parts[1..];
      JoinPairsAt(rest);
      var j := Join(" ", parts);
      assert j == parts[0] + " " + Join(" ", rest);
      forall i | 0 < i < |parts|
        ensures j[3 * i .. 3 * i + 2] == parts[i]
      {
        assert j[3 * i .. 3 * i + 2] == Join(" ", rest)[3 * (i - 1) .. 3 * (i - 1) + 2];
      }
      forall i | 0 < i < |parts| - 1
        ensures j[3 * i + 2] == ' '
      {
        assert j[3 * i + 2] == Join(" ", rest)[3 * (i - 1) + 2];
      }
    }
  }

  /**
   * Each byte becomes its two lowercase hex digits, consecutive pairs
   * separated by one space: `3n - 1` characters for `n > 0` bytes, none
   * for no bytes.
   */
  lemma SpacedShape(data: seq<byte>)
    ensures |Spaced(data)| == if |data| == 0 then 0 else 3 * |data| - 1
    ensures forall i :: 0 <= i < |data| ==> Spaced(data)[3 * i .. 3 * i + 2] == HexPair(data[i])
    ensures forall i :: 0 <= i < |data| - 1 ==> Spaced(data)[3 * i + 2] == ' '
  {
    var parts := PairStrings(Pairwise(HexEncode(data)));
    PairStringsOfHex(data);
    if |data| > 0 {
      JoinPairsAt(parts);
    }
  }

  /** The joined pair string holds hex digits and spaces only, so no newline. */
  lemma SpacedHasNoNewline(data: seq<byte>)
    ensures '\n' !in Spaced(data)
  {
    var parts := PairStrings(Pairwise(HexEncode(data)));
    PairStringsOfHex(data);
    forall i | 0 <= i < |parts|
      ensures '\n' !in parts[i]
    {
      HexPairNoNewline(data[i]);
    }
    JoinAvoids(" ", parts, '\n');
  }

  lemma HexPairNoNewline(b: byte)
    ensures '\n' !in HexPair(b)
  {
    var p := HexPair(b);
    assert p == [p[0], p[1]];
  }

  // ---------------------------------------------------------------------
  // The lines

  /** Line `j` starts at character `48j` and holds at most 48 characters, never none. */
  lemma LineAt(s: string, j: nat)
    requires j < |Lines(s)|
    ensures LineWidth * j < |s|
    ensures 0 < |Lines(s)[j]| <= LineWidth
    ensures Lines(s)[j] == s[LineWidth * j ..][..|Lines(s)[j]|]
  {
    var n := (|s| + LineWidth - 1) / LineWidth;
    DivMod(|s| + LineWidth - 1, LineWidth);
    assert LineWidth * j + LineWidth <= n * LineWidth by {
      MulMono(j + 1, n, LineWidth);
    }
  }

  /** A string of at most 48 characters is one line, or none when empty. */
  lemma LinesShort(s: string)
    requires 0 < |s| <= LineWidth
    ensures Lines(s) == [s]
  {
    ModUnique(|s| + LineWidth - 1, 1, |s| - 1, LineWidth);
    assert |Lines(s)| == 1 && Lines(s)[0] == s;
  }

  /** A longer string is its first 48 characters followed by the lines of the rest. */
  lemma LinesStep(s: string)
    requires |s| > LineWidth
    ensures Lines(s) == [s[..LineWidth]] + Lines(s[LineWidth..])
  {
    var r, rest := Lines(s), s[LineWidth..];
    DivStep(|s| + LineWidth - 1, LineWidth);
    assert |r| == |Lines(rest)| + 1;
    forall j | 0 < j < |r|
      ensures r[j] == Lines(rest)[j - 1]
    {
      var k := LineWidth * (j - 1);
      assert LineWidth * j == k + LineWidth;
      var e := if k + LineWidth <= |rest| then k + LineWidth else |rest|;
      assert Lines(rest)[j - 1] == rest[k .. e];
      assert r[j] == s[k + LineWidth .. e + LineWidth];
      assert rest[k .. e] == s[k + LineWidth .. e + LineWidth];
    }
  }

  /** The lines concatenate to the joined pair string. */
  lemma {:induction false} LinesFlatten(s: string)
    ensures Flatten(Lines(s)) == s
    decreases |s|
  {
    if |s| > LineWidth {
      var rest := s[LineWidth..];
      LinesStep(s);
      LinesFlatten(rest);
      assert Lines(s)[1..] == Lines(rest);
      assert s == s[..LineWidth] + rest;
    } else if |s| > 0 {
      LinesShort(s);
    }
  }

  /** `ceil(|s| / 48)` lines, each of at most 48 characters, that concatenate to `s`. */
  lemma LinesShape(s: string)
    ensures |Lines(s)| == (|s| + LineWidth - 1) / LineWidth
    ensures forall j :: 0 <= j < |Lines(s)| ==> 0 < |Lines(s)[j]| <= LineWidth
    ensures Flatten(Lines(s)) == s
  {
    forall j | 0 <= j < |Lines(s)|
      ensures 0 < |Lines(s)[j]| <= LineWidth
    {
      LineAt(s, j);
    }
    LinesFlatten(s);
  }

  /** The dump has one line per 16 bytes, the last one possibly shorter. */
  lemma LineCount(data: seq<byte>)
    ensures |Lines(Spaced(data))| == (|data| + 15) / 16
  {
    SpacedShape(data);
    var n := |data|;
    if n == 0 {
      assert |Lines(Spaced(data))| == 47 / 48;
    } else {
      var k, r := (n - 1) / 16, (n - 1) % 16;
      DivMod(n - 1, 16);
      assert 3 * n - 1 + LineWidth - 1 == (k + 1) * 48 + (3 * r + 1);
      ModUnique(3 * n - 1 + LineWidth - 1, k + 1, 3 * r + 1, LineWidth);
      ModUnique(n + 15, k + 1, r, 16);
    }
  }

  /** The parts' lengths add up to the length of their concatenation. */
  lemma {:induction false} TotalLengthFlatten(parts: seq<string>)
    ensures TotalLength(parts) == |Flatten(parts)|
    decreases |parts|
  {
    if parts != [] {
      TotalLengthFlatten(parts[1..]);
    }
  }

  /** The length and the newlines of the joined lines, for Hexdumpify's contract. */
  lemma JoinedLines(data: seq<byte>)
    ensures |Join("\n", Lines(Spaced(data)))| == if |data| == 0 then 0 else 3 * |data| - 1 + (|data| - 1) / 16
    ensures '\n' in Join("\n", Lines(Spaced(data))) <==> |data| > 16
  {
    var s := Spaced(data);
    var ls := Lines(s);
    LineCount(data);
    SpacedShape(data);
    LinesShape(s);
    if |data| > 0 {
      JoinLength("\n", ls);
      TotalLengthFlatten(ls);
    }
    if |ls| > 1 {
      JoinHasSep("\n", ls, '\n');
    } else if |ls| == 1 {
      assert Flatten(ls) == ls[0] + Flatten(ls[1..]);
      SpacedHasNoNewline(data);
    }
  }

  /** Line `j` of the output begins with the hex pair of byte `16j`. */
  lemma LineStartsWithByte(data: seq<byte>, j: nat)
    requires j < |Lines(Spaced(data))|
    ensures 16 * j < |data|
    ensures |Lines(Spaced(data))[j]| >= 2
    ensures Lines(Spaced(data))[j][..2] == HexPair(data[16 * j])
  {
    var s := Spaced(data);
    SpacedShape(data);
    LineAt(s, j);
    assert 48 * j == 3 * (16 * j);
    assert 16 * j < |data|;
    assert s[3 * (16 * j) .. 3 * (16 * j) + 2] == HexPair(data[16 * j]);
  }

  /**
   * hexdumpify: the output is its lines joined with newlines, no line holds
   * a newline of its own, each holds at most 48 characters, and together
   * they are the joined pair string.
   */
  lemma HexdumpifyShape(data: seq<byte>)
    ensures Hexdumpify(data) == Join("\n", Lines(Spaced(data)))
    ensures forall j :: 0 <= j < |Lines(Spaced(data))| ==> '\n' !in Lines(Spaced(data))[j]
    ensures forall j :: 0 <= j < |Lines(Spaced(data))| ==> |Lines(Spaced(data))[j]| <= LineWidth
    ensures Flatten(Lines(Spaced(data))) == Spaced(data)
  {
    var s := Spaced(data);
    SpacedHasNoNewline(data);
    LinesShape(s);
    forall j | 0 <= j < |Lines(s)|
      ensures '\n' !in Lines(s)[j]
    {
      LineAt(s, j);
    }
  }
}
