/**
 * haklib.isodt: an ISO-8601-ish timestamp such as `2016-01-06 09:02:04 +0100`
 * split into a local date and time and a trailing zone token, and turned
 * into a UTC instant.  The regular expressions of the source are modelled
 * by the positions they match; Python's `datetime` by the number of seconds
 * since 0001-01-01 00:00:00, with its range checks.
 */
module Isodt {
  import opened Wrappers
  import Arith

  // ---------------------------------------------------------------------
  // Characters and `int()`

  predicate IsDigit(c: char) { '0' <= c <= '9' }

  predicate IsUpper(c: char) { 'A' <= c <= 'Z' }

  predicate AllDigits(s: string)
  {
    forall i :: 0 <= i < |s| ==> IsDigit(s[i])
  }

  predicate AllUpper(s: string)
  {
    forall i :: 0 <= i < |s| ==> IsUpper(s[i])
  }

  function DigitValue(c: char): nat
    requires IsDigit(c)
  {
    c as int - '0' as int
  }

  /** The decimal value of a string of digits. */
  function DigitsValue(s: string): nat
    requires AllDigits(s)
  {
    if |s| == 0 then 0 else DigitsValue(s[..|s| - 1]) * 10 + DigitValue(s[|s| - 1])
  }

  /** `int(s)` on a string of ASCII digits; an empty or non-digit string is a ValueError. */
  function ParseInt(s: string): (r: Option<int>)
    ensures r.Some? <==> |s| > 0 && AllDigits(s)
    ensures r.Some? ==> r.value >= 0
  {
    if |s| > 0 && AllDigits(s) then Some(DigitsValue(s)) else None
  }

  /** At most two digits read as a number are at most 99. */
  lemma {:induction false} AtMostTwoDigits(s: string)
    requires |s| <= 2 && ParseInt(s).Some?
    ensures ParseInt(s).value <= 99
  {
    if |s| == 2 {
      assert AllDigits(s[..1]) && s[..1][..0] == [];
      assert DigitsValue(s[..1]) == DigitValue(s[0]) <= 9;
      assert DigitsValue(s) == DigitsValue(s[..1]) * 10 + DigitValue(s[1]);
    } else if |s| == 1 {
      assert s[..0] == [];
      assert DigitsValue(s) == DigitsValue(s[..0]) * 10 + DigitValue(s[0]);
    }
  }

  /** Two digits read as a number from 0 to 99. */
  lemma TwoDigits(a: char, b: char)
    requires IsDigit(a) && IsDigit(b)
    ensures ParseInt([a, b]) == Some(10 * DigitValue(a) + DigitValue(b))
  {
    assert AllDigits([a, b]);
    assert [a, b][..1] == [a];
    assert [a][..0] == [];
    assert DigitsValue([a]) == DigitValue(a);
  }

  /** Four digits read as a number from 0 to 9999. */
  lemma FourDigits(a: char, b: char, c: char, d: char)
    requires IsDigit(a) && IsDigit(b) && IsDigit(c) && IsDigit(d)
    ensures ParseInt([a, b, c, d]) == Some(1000 * DigitValue(a) + 100 * DigitValue(b) + 10 * DigitValue(c) + DigitValue(d))
  {
    assert AllDigits([a, b, c, d]);
    assert [a, b, c, d][..3] == [a, b, c];
    assert [a, b, c][..2] == [a, b];
    assert [a, b][..1] == [a];
    assert [a][..0] == [];
    assert DigitsValue([a]) == DigitValue(a);
    assert DigitsValue([a, b]) == 10 * DigitValue(a) + DigitValue(b);
    assert DigitsValue([a, b, c]) == 100 * DigitValue(a) + 10 * DigitValue(b) + DigitValue(c);
  }

  /** Python's `s[lo:hi]`: a slice whose bounds stop at the end of the string. */
  function Slice(s: string, lo: nat, hi: nat): (r: string)
    requires lo <= hi
    ensures hi <= |s| ==> r == s[lo..hi]
    ensures lo <= |s| < hi ==> r == s[lo..]
    ensures |s| < lo ==> r == ""
  {
    var a := if lo <= |s| then lo else |s|;
    var b := if hi <= |s| then hi else |s|;
    s[a..b]
  }

  // ---------------------------------------------------------------------
  // tzs2td: a zone token to an offset in minutes

  /** The zones known by name, all with a fixed offset from UTC in minutes. */
  const NamedZones: map<string, int> := map["Z" := 0, "GMT" := 0, "UTC" := 0, "CET" := 60, "CEST" := 120]

  /**
   * tzs2td: a named zone from the table, otherwise a sign character
   * (`-` negative, anything else positive) followed by two hour digits and
   * two minute digits.  The sign multiplies the hours only.  None stands
   * for the IndexError of an empty token and the ValueError of `int()`.
   */
  function TzMinutes(tzs: string): (r: Option<int>)
    ensures tzs in NamedZones ==> r == Some(NamedZones[tzs])
    ensures r.Some? && tzs !in NamedZones ==> 4 <= |tzs| && -99 * 60 <= r.value <= 99 * 60 + 99
  {
    if tzs in NamedZones then Some(NamedZones[tzs])
    else if |tzs| == 0 then None
    else
      var sign := if tzs[0] == '-' then -1 else 1;
      var h := ParseInt(Slice(tzs, 1, 3));
      var m := ParseInt(Slice(tzs, 3, 5));
      if h.Some? && m.Some? then
        AtMostTwoDigits(Slice(tzs, 1, 3));
        AtMostTwoDigits(Slice(tzs, 3, 5));
        Some(sign * h.value * 60 + m.value)
      else None
  }

  /** Z, GMT and UTC are 0 minutes ahead of UTC, CET 60 and CEST 120. */
  lemma NamedZoneOffsets()
    ensures TzMinutes("Z") == Some(0) && TzMinutes("GMT") == Some(0) && TzMinutes("UTC") == Some(0)
    ensures TzMinutes("CET") == Some(60) && TzMinutes("CEST") == Some(120)
    ensures TzMinutes("") == None
  {
  }

  /** `±HHMM` is `sign * HH * 60 + MM` minutes: the sign applies to the hours and not to the minutes. */
  lemma NumericZone(c: char, h1: char, h2: char, m1: char, m2: char)
    requires c == '+' || c == '-'
    requires IsDigit(h1) && IsDigit(h2) && IsDigit(m1) && IsDigit(m2)
    ensures TzMinutes([c, h1, h2, m1, m2]) ==
      Some((if c == '-' then -1 else 1) * (10 * DigitValue(h1) + DigitValue(h2)) * 60 + 10 * DigitValue(m1) + DigitValue(m2))
  {
    var z := [c, h1, h2, m1, m2];
    assert z !in NamedZones by {
      assert z[0] != 'Z' && z[0] != 'G' && z[0] != 'U' && z[0] != 'C';
    }
    assert Slice(z, 1, 3) == [h1, h2];
    assert Slice(z, 3, 5) == [m1, m2];
    TwoDigits(h1, h2);
    TwoDigits(m1, m2);
  }

  /** The offset of a zone whose sign is not `-` is the negation of the same digits with `-` only when the minutes are zero. */
  lemma ZoneSignAsymmetry(h1: char, h2: char, m1: char, m2: char)
    requires IsDigit(h1) && IsDigit(h2) && IsDigit(m1) && IsDigit(m2)
    ensures TzMinutes(['-', h1, h2, m1, m2]).Some? && TzMinutes(['+', h1, h2, m1, m2]).Some?
    ensures TzMinutes(['-', h1, h2, m1, m2]).value == -TzMinutes(['+', h1, h2, m1, m2]).value
      <==> m1 == '0' && m2 == '0'
  {
    NumericZone('-', h1, h2, m1, m2);
    NumericZone('+', h1, h2, m1, m2);
  }

  /** The numeric zones of the source's samples: `+0100` is 60 minutes ahead, `-0100` 60 behind. */
  lemma NumericZoneSamples()
    ensures TzMinutes("+0100") == Some(60) && TzMinutes("-0100") == Some(-60)
  {
    NumericZone('+', '0', '1', '0', '0');
    NumericZone('-', '0', '1', '0', '0');
    assert "+0100" == ['+', '0', '1', '0', '0'];
    assert "-0100" == ['-', '0', '1', '0', '0'];
  }

  /** `-0130` is 30 minutes behind, not 90, while `+0130` is 90 ahead. */
  lemma HalfHourZones()
    ensures TzMinutes("-0130") == Some(-30) && TzMinutes("+0130") == Some(90)
  {
    NumericZone('-', '0', '1', '3', '0');
    NumericZone('+', '0', '1', '3', '0');
    assert "-0130" == ['-', '0', '1', '3', '0'];
    assert "+0130" == ['+', '0', '1', '3', '0'];
  }

  // ---------------------------------------------------------------------
  // Splitting off the zone

  /** The number of spaces at the front of `s`. */
  function LeadingSpaces(s: string): (k: nat)
    ensures k <= |s|
    ensures k < |s| ==> s[k] != ' '
  {
    if |s| > 0 && s[0] == ' ' then 1 + LeadingSpaces(s[1..]) else 0
  }

  /** Everything before the first non-space is a space. */
  lemma {:induction false} LeadingSpacesAreSpaces(s: string, i: nat)
    requires i < LeadingSpaces(s)
    ensures s[i] == ' '
  {
    if i > 0 {
      LeadingSpacesAreSpaces(s[1..], i - 1);
    }
  }

  /** A zone token as the source's pattern has it: a sign and digits, or capital letters. */
  predicate IsToken(t: string)
  {
    (|t| >= 2 && (t[0] == '+' || t[0] == '-') && AllDigits(t[1..])) || (|t| >= 1 && AllUpper(t))
  }

  /**
   * A zone token preceded by any number of spaces.  A token does not start
   * with a space, so only the full run of leading spaces can precede it.
   */
  predicate IsSpacedToken(t: string)
  {
    IsToken(t[LeadingSpaces(t)..])
  }

  predicate Matches(t: string, spaced: bool)
  {
    if spaced then IsSpacedToken(t) else IsToken(t)
  }

  /**
   * The leftmost position `q >= p` where the rest of `s` is a token (or a
   * spaced token): where a regular expression that ends in `$` and is
   * searched from the left first matches.
   */
  function TokenStart(s: string, p: nat, spaced: bool): (r: Option<nat>)
    requires p <= |s|
    ensures r.Some? ==> p <= r.value < |s| && Matches(s[r.value..], spaced)
    decreases |s| - p
  {
    if p == |s| then None
    else if Matches(s[p..], spaced) then Some(p)
    else TokenStart(s, p + 1, spaced)
  }

  /**
   * The stamp: the timestamp with the trailing spaces-and-token match
   * removed, or the whole timestamp when nothing matches.
   */
  function Stamp(ts: string): (r: string)
    ensures |r| <= |ts| && r == ts[..|r|]
  {
    match TokenStart(ts, 0, true)
    case None => ts
    case Some(p) => ts[..p]
  }

  /**
   * The zone: the trailing token after the shortest possible prefix, or the
   * whole timestamp when nothing matches.  The prefix is matched by `.*?`
   * from the start, and `.` does not match a newline, so a timestamp with a
   * newline in it is never matched and is left whole.
   */
  function Zone(ts: string): (r: string)
    ensures |r| <= |ts| && r == ts[|ts| - |r|..]
    ensures '\n' in ts ==> r == ts
  {
    if '\n' in ts then ts
    else
      match TokenStart(ts, 0, false)
      case None => ts
      case Some(q) => ts[q..]
  }

  /** A token starts with no space. */
  lemma TokenIsSpacedToken(t: string)
    requires IsToken(t)
    ensures LeadingSpaces(t) == 0 && IsSpacedToken(t)
  {
  }

  /** Where the zone pattern matches, the spaced pattern matches too, no later. */
  lemma TokenStartSpaced(ts: string)
    ensures TokenStart(ts, 0, false).Some? ==>
      TokenStart(ts, 0, true).Some? && TokenStart(ts, 0, true).value <= TokenStart(ts, 0, false).value
  {
    var tk := TokenStart(ts, 0, false);
    if tk.Some? {
      TokenIsSpacedToken(ts[tk.value..]);
      TokenStartAtMost(ts, true, tk.value);
    }
  }

  /** No position from `p` up to the leftmost match (or the end, when there is none) matches. */
  lemma {:induction false} TokenStartFirst(s: string, p: nat, spaced: bool, q: nat)
    requires p <= q <= |s|
    requires TokenStart(s, p, spaced).None? || q < TokenStart(s, p, spaced).value
    ensures !Matches(s[q..], spaced)
    decreases |s| - p
  {
    if q > p {
      TokenStartFirst(s, p + 1, spaced, q);
    } else if q == |s| {
      assert LeadingSpaces(s[q..]) == 0;
    }
  }

  /** A position where the pattern matches bounds the leftmost match. */
  lemma TokenStartAtMost(s: string, spaced: bool, q: nat)
    requires q <= |s| && Matches(s[q..], spaced)
    ensures TokenStart(s, 0, spaced).Some? && TokenStart(s, 0, spaced).value <= q
  {
    if TokenStart(s, 0, spaced).None? || q < TokenStart(s, 0, spaced).value {
      TokenStartFirst(s, 0, spaced, q);
    }
  }

  /** After the leading spaces of a spaced token comes a token. */
  lemma TokenAfterSpaces(ts: string, p: nat)
    requires p <= |ts| && IsSpacedToken(ts[p..])
    ensures p + LeadingSpaces(ts[p..]) <= |ts| && IsToken(ts[p + LeadingSpaces(ts[p..])..])
  {
    assert ts[p..][LeadingSpaces(ts[p..])..] == ts[p + LeadingSpaces(ts[p..])..];
  }

  /** No token starts inside the run of spaces at `p`. */
  lemma NoTokenInSpaces(ts: string, p: nat, q: nat)
    requires p <= |ts| && p <= q < p + LeadingSpaces(ts[p..])
    ensures !IsToken(ts[q..])
  {
    LeadingSpacesAreSpaces(ts[p..], q - p);
    assert ts[q] == ts[p..][q - p] == ' ';
    assert ts[q..][0] == ts[q];
  }

  /** Where the spaced pattern matches at `p`, the zone pattern matches right after its spaces. */
  lemma TokenStartAfterSpaces(ts: string)
    ensures TokenStart(ts, 0, true).Some? ==>
      var p := TokenStart(ts, 0, true).value;
      TokenStart(ts, 0, false) == Some(p + LeadingSpaces(ts[p..]))
  {
    var sp := TokenStart(ts, 0, true);
    if sp.Some? {
      TokenAfterSpacesAt(ts, sp.value, LeadingSpaces(ts[sp.value..]));
    }
  }

  /** The zone pattern first matches after the spaces where the spaced pattern first matched. */
  lemma TokenAfterSpacesAt(ts: string, p: nat, k: nat)
    requires TokenStart(ts, 0, true) == Some(p) && k == LeadingSpaces(ts[p..])
    ensures TokenStart(ts, 0, false) == Some(p + k)
  {
    TokenBetween(ts, p, k);
    TokenAfterAllSpaces(ts, p, TokenStart(ts, 0, false).value);
  }

  /** The zone pattern first matches between the spaced match and the end of its spaces. */
  lemma TokenBetween(ts: string, p: nat, k: nat)
    requires TokenStart(ts, 0, true) == Some(p) && k == LeadingSpaces(ts[p..])
    ensures TokenStart(ts, 0, false).Some? && p <= TokenStart(ts, 0, false).value <= p + k
  {
    TokenAfterSpaces(ts, p);
    TokenStartAtMost(ts, false, p + k);
    TokenStartSpaced(ts);
  }

  /** A token found at or after `p` cannot start inside the spaces there. */
  lemma TokenAfterAllSpaces(ts: string, p: nat, q: nat)
    requires p <= q <= |ts| && IsToken(ts[q..])
    ensures q >= p + LeadingSpaces(ts[p..])
  {
    if q < p + LeadingSpaces(ts[p..]) {
      NoTokenInSpaces(ts, p, q);
    }
  }

  /**
   * The two searches agree: a trailing spaced token is found exactly when a
   * trailing token is, and the token starts right after the spaces.  In a
   * timestamp without a newline, stamp, spaces and zone then make up the
   * timestamp; with a newline the zone is the whole timestamp.
   */
  lemma StampZoneSplit(ts: string)
    ensures TokenStart(ts, 0, true).Some? <==> TokenStart(ts, 0, false).Some?
    ensures TokenStart(ts, 0, true).Some? ==>
      var p := TokenStart(ts, 0, true).value;
      TokenStart(ts, 0, false).value == p + LeadingSpaces(ts[p..]) &&
      ('\n' !in ts ==> ts == Stamp(ts) + ts[p..p + LeadingSpaces(ts[p..])] + Zone(ts))
    ensures '\n' in ts ==> Zone(ts) == ts
  {
    TokenStartSpaced(ts);
    TokenStartAfterSpaces(ts);
    var sp := TokenStart(ts, 0, true);
    if sp.Some? && '\n' !in ts {
      StampSpacesZone(ts, sp.value, LeadingSpaces(ts[sp.value..]));
    }
  }

  /** Cut where the two searches matched, a newline-free timestamp is stamp, spaces and zone. */
  lemma StampSpacesZone(ts: string, p: nat, k: nat)
    requires '\n' !in ts
    requires TokenStart(ts, 0, true) == Some(p) && TokenStart(ts, 0, false) == Some(p + k)
    ensures ts == Stamp(ts) + ts[p..p + k] + Zone(ts)
  {
    assert Stamp(ts) == ts[..p];
    assert Zone(ts) == ts[p + k..];
    CutInThree(ts, p, p + k);
  }

  /** A sequence is its three pieces cut at `i` and `j`. */
  lemma CutInThree<T>(s: seq<T>, i: nat, j: nat)
    requires i <= j <= |s|
    ensures s == s[..i] + s[i..j] + s[j..]
  {
  }

  /**
   * A newline inside the timestamp leaves the zone as the whole text, whose
   * characters 3 and 4 ("6-") are not an offset, so the timestamp is rejected.
   */
  lemma NewlineStampRejected()
    ensures ParseIso8601("2016-01-06\n08:02:04 UTC") == None
  {
    NewlineZoneRejected();
  }

  /**
   * A newline does not always make the parse fail: here the zone is the
   * whole text, its characters 1 to 4 read as +20:16, and the stamp as
   * 2016-01-06 00:00:00.
   */
  lemma NewlineStampAccepted()
    ensures ParseIso8601("02016\n01\n06 UTC") == Some(Instant(735968 * 86400 - 1216 * 60))
  {
    var ts := "02016\n01\n06 UTC";
    assert ts == "02016\n01\n06" + " " + "UTC";
    assert IsToken("UTC") by {
      assert AllUpper("UTC");
    }
    SpacedStartAtStampEnd("02016\n01\n06", " ", "UTC");
    assert Stamp(ts) == "02016\n01\n06";
    NewlineLocalTime();
    NewlineZoneOffset();
    var d := DateTime(2016, 1, 6, 0, 0, 0);
    SampleSeconds(0);
    assert Seconds(d) - 60 * 1216 == 735968 * 86400 - 1216 * 60;
  }

  /** The stamp of the accepted newline sample is 2016-01-06 00:00:00. */
  lemma NewlineLocalTime()
    ensures LocalTime("02016\n01\n06") == Some(DateTime(2016, 1, 6, 0, 0, 0))
  {
    var stamp := "02016\n01\n06";
    var d := DateTime(2016, 1, 6, 0, 0, 0);
    NewlineFields();
    ZeroPaddedYear();
    TwoDigits('0', '1');
    TwoDigits('0', '6');
    assert "01" == ['0', '1'] && "06" == ['0', '6'];
    var fs := SplitNonDigits(stamp);
    assert ParseInt(fs[0]) == Some(DateField(d, 0));
    assert ParseInt(fs[1]) == Some(DateField(d, 1));
    assert ParseInt(fs[2]) == Some(DateField(d, 2));
    assert DateField(d, 3) == 0 && DateField(d, 4) == 0 && DateField(d, 5) == 0;
    assert Spells(stamp, d);
    SampleSeconds(0);
    LocalTimeSpec(stamp, d);
  }

  /** The fields of the accepted newline sample's stamp. */
  lemma NewlineFields()
    ensures SplitNonDigits("02016\n01\n06") == ["02016", "01", "06"]
  {
    NewlineLastFields();
    assert AllDigits("02016");
    assert "02016\n01\n06" == "02016" + ['\n'] + "01\n06";
    ConsField("02016", '\n', "01\n06");
  }

  /** The fields after the first one of the accepted newline sample's stamp. */
  lemma NewlineLastFields()
    ensures SplitNonDigits("01\n06") == ["01", "06"]
  {
    assert AllDigits("01") && AllDigits("06");
    SplitNonDigitsOfDigits("06");
    assert "01\n06" == "01" + ['\n'] + "06";
    ConsField("01", '\n', "06");
  }

  /** A leading zero does not change a year: `int('02016')` is 2016. */
  lemma ZeroPaddedYear()
    ensures ParseInt("02016") == Some(2016)
  {
    FourDigits('0', '2', '0', '1');
    assert "0201" == ['0', '2', '0', '1'];
    assert "02016"[..4] == "0201";
    assert AllDigits("02016");
  }

  /** The zone of the accepted newline sample is the whole text, read as +20:16. */
  lemma NewlineZoneOffset()
    ensures TzMinutes(Zone("02016\n01\n06 UTC")) == Some(1216)
  {
    var ts := "02016\n01\n06 UTC";
    assert ts[5] == '\n';
    assert Zone(ts) == ts;
    assert ts !in NamedZones;
    assert ts[0] != '-';
    assert Slice(ts, 1, 3) == ['2', '0'] && Slice(ts, 3, 5) == ['1', '6'];
    TwoDigits('2', '0');
    TwoDigits('1', '6');
    assert ParseInt(Slice(ts, 1, 3)) == Some(20) && ParseInt(Slice(ts, 3, 5)) == Some(16);
  }

  /** The zone of the newline sample is the whole text, which is not an offset. */
  lemma NewlineZoneRejected()
    ensures TzMinutes(Zone("2016-01-06\n08:02:04 UTC")) == None
  {
    var ts := "2016-01-06\n08:02:04 UTC";
    assert ts[10] == '\n';
    assert Zone(ts) == ts;
    assert ts !in NamedZones;
    assert Slice(ts, 3, 5) == "6-";
    assert !AllDigits("6-") by {
      assert !IsDigit("6-"[1]);
    }
  }

  /** With all-space `sep` and `rest` not starting with a space, `sep + rest` has `|sep|` leading spaces. */
  lemma {:induction false} LeadingSpacesOf(sep: string, rest: string)
    requires forall i :: 0 <= i < |sep| ==> sep[i] == ' '
    requires |rest| == 0 || rest[0] != ' '
    ensures LeadingSpaces(sep + rest) == |sep|
    decreases |sep|
  {
    if |sep| > 0 {
      assert (sep + rest)[1..] == sep[1..] + rest;
      LeadingSpacesOf(sep[1..], rest);
    }
  }

  /** No position inside a stamp that ends in a digit starts a spaced token reaching over that digit. */
  lemma NoEarlierToken(ts: string, stampLen: nat, zoneStart: nat, q: nat)
    requires 0 < stampLen <= zoneStart < |ts| && IsDigit(ts[stampLen - 1])
    requires forall i :: stampLen <= i < zoneStart ==> ts[i] == ' '
    requires IsToken(ts[zoneStart..])
    requires q < stampLen
    ensures !IsSpacedToken(ts[q..])
  {
    var t := ts[q..];
    var k := LeadingSpaces(t);
    assert k <= stampLen - 1 - q by {
      if k > stampLen - 1 - q {
        LeadingSpacesAreSpaces(t, stampLen - 1 - q);
      }
    }
    var tok := t[k..];
    var d := stampLen - 1 - q - k;
    var z := zoneStart - q - k;
    assert tok[d] == ts[stampLen - 1];
    assert tok[z] == ts[zoneStart];
    assert !IsDigit(ts[zoneStart]);
  }

  /** After the stamp come `|sep|` spaces and a token. */
  lemma SpacedTokenAtStampEnd(stamp: string, sep: string, zone: string)
    requires forall i :: 0 <= i < |sep| ==> sep[i] == ' '
    requires IsToken(zone)
    ensures LeadingSpaces((stamp + sep + zone)[|stamp|..]) == |sep|
    ensures Matches((stamp + sep + zone)[|stamp|..], true)
  {
    var t := (stamp + sep + zone)[|stamp|..];
    assert t == sep + zone;
    LeadingSpacesOf(sep, zone);
    assert t[|sep|..] == zone;
  }

  /** No spaced token starts inside a stamp that ends in a digit. */
  lemma NoSpacedTokenInStamp(stamp: string, sep: string, zone: string, v: nat)
    requires |stamp| > 0 && IsDigit(stamp[|stamp| - 1])
    requires forall i :: 0 <= i < |sep| ==> sep[i] == ' '
    requires IsToken(zone)
    requires v < |stamp|
    ensures !Matches((stamp + sep + zone)[v..], true)
  {
    var ts := stamp + sep + zone;
    var p := |stamp|;
    assert forall i :: p <= i < p + |sep| ==> ts[i] == sep[i - p];
    assert ts[p + |sep|..] == zone;
    NoEarlierToken(ts, p, p + |sep|, v);
  }

  /** The spaced pattern first matches where the stamp ends. */
  lemma SpacedStartAtStampEnd(stamp: string, sep: string, zone: string)
    requires |stamp| > 0 && IsDigit(stamp[|stamp| - 1])
    requires forall i :: 0 <= i < |sep| ==> sep[i] == ' '
    requires IsToken(zone)
    ensures TokenStart(stamp + sep + zone, 0, true) == Some(|stamp|)
    ensures LeadingSpaces((stamp + sep + zone)[|stamp|..]) == |sep|
  {
    var ts := stamp + sep + zone;
    SpacedTokenAtStampEnd(stamp, sep, zone);
    forall q | 0 <= q < |stamp|
      ensures !MatchesAt(ts, q)
    {
      NoSpacedTokenInStamp(stamp, sep, zone, q);
    }
    SpacedStartIs(ts, |stamp|);
  }

  /** The spaced pattern matches the rest of `ts` from `q`. */
  predicate MatchesAt(ts: string, q: nat)
  {
    q <= |ts| && Matches(ts[q..], true)
  }

  /** The spaced pattern first matches at `p` when it matches there and at no earlier position. */
  lemma SpacedStartIs(ts: string, p: nat)
    requires MatchesAt(ts, p)
    requires forall q :: 0 <= q < p ==> !MatchesAt(ts, q)
    ensures TokenStart(ts, 0, true) == Some(p)
  {
    TokenStartAtMost(ts, true, p);
    assert MatchesAt(ts, TokenStart(ts, 0, true).value);
  }

  /**
   * A stamp ending in a digit, then spaces, then a zone token: the split
   * gives back exactly that stamp and that zone.
   */
  lemma StampZoneOf(stamp: string, sep: string, zone: string)
    requires |stamp| > 0 && IsDigit(stamp[|stamp| - 1]) && '\n' !in stamp
    requires forall i :: 0 <= i < |sep| ==> sep[i] == ' '
    requires IsToken(zone)
    ensures Stamp(stamp + sep + zone) == stamp
    ensures Zone(stamp + sep + zone) == zone
  {
    var ts := stamp + sep + zone;
    var p := |stamp|;
    SpacedStartAtStampEnd(stamp, sep, zone);
    TokenStartAfterSpaces(ts);
    assert ts[..p] == stamp;
    assert ts[p + |sep|..] == zone;
    assert '\n' !in ts by {
      SpacesAndTokenHaveNoNewline(sep, zone);
    }
  }

  /** Spaces and a token hold no newline. */
  lemma SpacesAndTokenHaveNoNewline(sep: string, zone: string)
    requires forall i :: 0 <= i < |sep| ==> sep[i] == ' '
    requires IsToken(zone)
    ensures '\n' !in sep && '\n' !in zone
  {
  }

  // ---------------------------------------------------------------------
  // The numeric fields of the stamp

  /** The index of the first non-digit at or after `k`, or `|s|` when there is none. */
  function NextNonDigit(s: string, k: nat): (i: nat)
    requires k <= |s|
    ensures k <= i <= |s|
    decreases |s| - k
  {
    if k == |s| || !IsDigit(s[k]) then k else NextNonDigit(s, k + 1)
  }

  /** `re.split('\D', s)`: the runs of digits between single non-digit characters, empty runs included. */
  function SplitNonDigits(s: string): (r: seq<string>)
    ensures |r| >= 1
    ensures forall k :: 0 <= k < |r| ==> AllDigits(r[k])
    decreases |s|
  {
    var i := NextNonDigit(s, 0);
    NextNonDigitSpec(s, 0);
    if i == |s| then [s] else [s[..i]] + SplitNonDigits(s[i + 1..])
  }

  /** The number of non-digit characters of `s`. */
  function NonDigits(s: string): nat
  {
    if s == [] then 0 else (if IsDigit(s[0]) then 0 else 1) + NonDigits(s[1..])
  }

  lemma {:induction false} NonDigitsAppend(a: string, b: string)
    ensures NonDigits(a + b) == NonDigits(a) + NonDigits(b)
    decreases |a|
  {
    if a != [] {
      NonDigitsAppend(a[1..], b);
      assert (a + b)[1..] == a[1..] + b;
    } else {
      assert a + b == b;
    }
  }

  lemma {:induction false} NoNonDigits(a: string)
    requires AllDigits(a)
    ensures NonDigits(a) == 0
    decreases |a|
  {
    if a != [] {
      NoNonDigits(a[1..]);
    }
  }

  /** `re.split('\D', s)` gives one field more than `s` has non-digits. */
  lemma {:induction false} SplitNonDigitsCount(s: string)
    ensures |SplitNonDigits(s)| == NonDigits(s) + 1
    decreases |s|
  {
    var i := NextNonDigit(s, 0);
    NextNonDigitSpec(s, 0);
    if i == |s| {
      NoNonDigits(s);
    } else {
      SplitNonDigitsCount(s[i + 1..]);
      assert s == s[..i] + ([s[i]] + s[i + 1..]);
      NonDigitsAppend(s[..i], [s[i]] + s[i + 1..]);
      NonDigitsAppend([s[i]], s[i + 1..]);
      NoNonDigits(s[..i]);
    }
  }

  /** The position found holds a non-digit, or is the end, and only digits come before it. */
  lemma {:induction false} NextNonDigitSpec(s: string, k: nat)
    requires k <= |s|
    ensures NextNonDigit(s, k) < |s| ==> !IsDigit(s[NextNonDigit(s, k)])
    ensures forall j :: k <= j < NextNonDigit(s, k) ==> IsDigit(s[j])
    decreases |s| - k
  {
    if k < |s| && IsDigit(s[k]) {
      NextNonDigitSpec(s, k + 1);
    }
  }

  /** The first non-digit at or after `k` is the first position from `k` holding one, or the end. */
  lemma {:induction false} NextNonDigitIs(s: string, k: nat, i: nat)
    requires k <= i <= |s| && (i < |s| ==> !IsDigit(s[i])) && forall j :: k <= j < i ==> IsDigit(s[j])
    ensures NextNonDigit(s, k) == i
    decreases i - k
  {
    if k < i {
      NextNonDigitIs(s, k + 1, i);
    }
  }

  /** A string with its first non-digit at `i`: the field before it, then the fields after it. */
  lemma SplitNonDigitsAt(s: string, i: nat)
    requires i < |s| && NextNonDigit(s, 0) == i
    ensures SplitNonDigits(s) == [s[..i]] + SplitNonDigits(s[i + 1..])
  {
  }

  /** A digit run `a` followed by a non-digit: `a` is the first field. */
  lemma SplitAfterDigits(a: string, c: char, b: string)
    requires !IsDigit(c) && NextNonDigit(a, 0) == |a|
    ensures SplitNonDigits(a + [c] + b) == [a] + SplitNonDigits(b)
  {
    var s := a + [c] + b;
    NextNonDigitSpec(a, 0);
    NextNonDigitIs(s, 0, |a|);
    SplitNonDigitsAt(s, |a|);
    assert s[..|a|] == a && s[|a| + 1..] == b;
  }

  /** A non-digit at `i` inside `a`: the first field ends there, whatever follows `a`. */
  lemma SplitInside(a: string, c: char, b: string, i: nat)
    requires i < |a| && NextNonDigit(a, 0) == i
    ensures SplitNonDigits(a + [c] + b) == [a[..i]] + SplitNonDigits(a[i + 1..] + [c] + b)
  {
    var s := a + [c] + b;
    NextNonDigitSpec(a, 0);
    NextNonDigitIs(s, 0, i);
    SplitNonDigitsAt(s, i);
    assert s[..i] == a[..i];
    assert s[i + 1..] == a[i + 1..] + [c] + b;
  }

  /** Splitting at a non-digit is splitting both sides. */
  lemma {:induction false} SplitNonDigitsAppend(a: string, c: char, b: string)
    requires !IsDigit(c)
    ensures SplitNonDigits(a + [c] + b) == SplitNonDigits(a) + SplitNonDigits(b)
    decreases |a|
  {
    var i := NextNonDigit(a, 0);
    if i == |a| {
      SplitAfterDigits(a, c, b);
    } else {
      SplitInside(a, c, b, i);
      SplitNonDigitsAt(a, i);
      SplitNonDigitsAppend(a[i + 1..], c, b);
    }
  }

  /** A run of digits is a single field. */
  lemma SplitNonDigitsOfDigits(a: string)
    requires AllDigits(a)
    ensures SplitNonDigits(a) == [a]
  {
    NextNonDigitIs(a, 0, |a|);
  }

  /** `int()` of every field; a field that is not a number makes it None. */
  function ParseAll(fs: seq<string>): (r: Option<seq<int>>)
    ensures r.Some? <==> forall j :: 0 <= j < |fs| ==> ParseInt(fs[j]).Some?
    ensures r.Some? ==> |r.value| == |fs| && forall j :: 0 <= j < |fs| ==> Some(r.value[j]) == ParseInt(fs[j])
  {
    if |fs| == 0 then Some([])
    else
      var last := ParseInt(fs[|fs| - 1]);
      var front := ParseAll(fs[..|fs| - 1]);
      if last.Some? && front.Some? then Some(front.value + [last.value]) else None
  }

  /** The first `n` fields, all of them when there are fewer. */
  function Take(fs: seq<string>, n: nat): (r: seq<string>)
    ensures |r| == if |fs| < n then |fs| else n
    ensures forall j :: 0 <= j < |r| ==> r[j] == fs[j]
  {
    if |fs| < n then fs else fs[..n]
  }

  // ---------------------------------------------------------------------
  // Python's datetime, as seconds since 0001-01-01 00:00:00

  datatype DateTime = DateTime(year: int, month: int, day: int, hour: int, minute: int, second: int)

  const MinYear: int := 1
  const MaxYear: int := 9999

  predicate IsLeap(y: int)
  {
    y % 4 == 0 && (y % 100 != 0 || y % 400 == 0)
  }

  function DaysInMonth(y: int, m: int): (n: int)
    requires 1 <= m <= 12
    ensures 28 <= n <= 31
  {
    if m == 2 then (if IsLeap(y) then 29 else 28)
    else if m == 4 || m == 6 || m == 9 || m == 11 then 30
    else 31
  }

  /** The date and time fields within datetime's ranges. */
  predicate Valid(d: DateTime)
  {
    MinYear <= d.year <= MaxYear && 1 <= d.month <= 12 && 1 <= d.day <= DaysInMonth(d.year, d.month) &&
    0 <= d.hour < 24 && 0 <= d.minute < 60 && 0 <= d.second < 60
  }

  /**
   * `datetime(*vs)`: year, month and day are required (fewer is a
   * TypeError), hour, minute and second default to 0, and a field out of
   * range is a ValueError.
   */
  function MakeDateTime(vs: seq<int>): (r: Option<DateTime>)
    requires |vs| <= 6
    ensures r.Some? ==> Valid(r.value)
    ensures r.Some? <==> |vs| >= 3 && Valid(Fields(vs))
    ensures r.Some? ==> r.value == Fields(vs)
  {
    if |vs| < 3 then None
    else if Valid(Fields(vs)) then Some(Fields(vs)) else None
  }

  /** The fields in datetime's order of arguments, hour, minute and second defaulting to 0. */
  function Fields(vs: seq<int>): DateTime
    requires 3 <= |vs| <= 6
  {
    DateTime(vs[0], vs[1], vs[2],
      if |vs| > 3 then vs[3] else 0, if |vs| > 4 then vs[4] else 0, if |vs| > 5 then vs[5] else 0)
  }

  /** Days in the years before `y`. */
  function DaysBeforeYear(y: int): int
    requires y >= 1
  {
    var p := y - 1;
    p * 365 + p / 4 - p / 100 + p / 400
  }

  /** Days in the months of year `y` before month `m`. */
  function DaysBeforeMonth(y: int, m: int): (n: int)
    requires 1 <= m <= 13
    ensures n >= 0
  {
    if m == 1 then 0 else DaysBeforeMonth(y, m - 1) + DaysInMonth(y, m - 1)
  }

  function DaysInYear(y: int): int
  {
    if IsLeap(y) then 366 else 365
  }

  /** One more step of integer division: the quotient grows exactly when `k` divides `p + 1`. */
  lemma DivSucc(p: nat, k: int)
    requires k > 0
    ensures (p + 1) / k == p / k + (if (p + 1) % k == 0 then 1 else 0)
  {
    var q, r := p / k, p % k;
    if r + 1 == k {
      Arith.ModUnique(p + 1, q + 1, 0, k);
    } else {
      Arith.ModUnique(p + 1, q, r + 1, k);
    }
  }

  /** A multiple of `a * b` is a multiple of `a`. */
  lemma MultipleOf(y: int, a: int, b: int)
    requires a > 0 && b > 0 && y % (a * b) == 0
    ensures y % a == 0
  {
    var q := y / (a * b);
    assert y == q * (a * b);
    assert y == (q * b) * a;
    Arith.ModUnique(y, q * b, 0, a);
  }

  /** The days before year `y + 1` are those before `y` and the days of `y`. */
  lemma YearStep(y: int)
    requires y >= 1
    ensures DaysBeforeYear(y + 1) == DaysBeforeYear(y) + DaysInYear(y)
  {
    var p := y - 1;
    DivSucc(p, 4);
    DivSucc(p, 100);
    DivSucc(p, 400);
    if y % 100 == 0 {
      MultipleOf(y, 4, 25);
    }
    if y % 400 == 0 {
      MultipleOf(y, 100, 4);
    }
  }

  /** No day comes before year 1, so none is counted negatively before any year. */
  lemma {:induction false} YearsBefore(y: int)
    requires y >= 1
    ensures DaysBeforeYear(y) >= 0
  {
    if y > 1 {
      YearsBefore(y - 1);
      YearStep(y - 1);
    }
  }

  /** A later year has at least as many days before it. */
  lemma {:induction false} YearsBetween(y: int, z: int)
    requires 1 <= y <= z
    ensures 0 <= DaysBeforeYear(y) <= DaysBeforeYear(z)
    decreases z - y
  {
    if y < z {
      YearsBetween(y, z - 1);
      YearStep(z - 1);
    } else {
      YearsBefore(y);
    }
  }

  /** The months before month 13 are the whole year. */
  lemma WholeYear(y: int)
    ensures DaysBeforeMonth(y, 13) == DaysInYear(y)
  {
    var f := if IsLeap(y) then 1 else 0;
    assert DaysBeforeMonth(y, 2) == 31;
    assert DaysBeforeMonth(y, 3) == 59 + f;
    assert DaysBeforeMonth(y, 4) == 90 + f;
    assert DaysBeforeMonth(y, 5) == 120 + f;
    assert DaysBeforeMonth(y, 6) == 151 + f;
    assert DaysBeforeMonth(y, 7) == 181 + f;
    assert DaysBeforeMonth(y, 8) == 212 + f;
    assert DaysBeforeMonth(y, 9) == 243 + f;
    assert DaysBeforeMonth(y, 10) == 273 + f;
    assert DaysBeforeMonth(y, 11) == 304 + f;
    assert DaysBeforeMonth(y, 12) == 334 + f;
  }

  /** The days before month `m` and in it lie within the year. */
  lemma {:induction false} MonthsWithin(y: int, m: int)
    requires 1 <= m <= 12
    ensures DaysBeforeMonth(y, m) + DaysInMonth(y, m) <= DaysInYear(y)
    decreases 12 - m
  {
    if m < 12 {
      MonthsWithin(y, m + 1);
    } else {
      WholeYear(y);
    }
  }

  /** Days from 0001-01-01 to 9999-12-31, both included. */
  const MaxOrdinal: int := 3652059

  /** The day number, 0001-01-01 being day 1; datetime's range is days 1 to 3652059. */
  function Ordinal(d: DateTime): (n: int)
    requires Valid(d)
    ensures 1 <= n <= MaxOrdinal
  {
    YearsBetween(d.year, MaxYear);
    YearStep(MaxYear);
    MonthsWithin(d.year, d.month);
    DaysBeforeYear(d.year) + DaysBeforeMonth(d.year, d.month) + d.day
  }

  /** Seconds from 0001-01-01 00:00:00 to `d`, within datetime's range. */
  function Seconds(d: DateTime): (r: int)
    requires Valid(d)
    ensures 0 <= r <= MaxSeconds
  {
    (Ordinal(d) - 1) * 86400 + d.hour * 3600 + d.minute * 60 + d.second
  }

  /** The last second datetime can hold, 9999-12-31 23:59:59. */
  const MaxSeconds: int := MaxOrdinal * 86400 - 1

  /** The range ends are datetime's first and last instants, 0001-01-01 00:00:00 and 9999-12-31 23:59:59. */
  lemma RangeEnds()
    ensures Valid(DateTime(MinYear, 1, 1, 0, 0, 0)) && Seconds(DateTime(MinYear, 1, 1, 0, 0, 0)) == 0
    ensures Valid(DateTime(MaxYear, 12, 31, 23, 59, 59)) && Seconds(DateTime(MaxYear, 12, 31, 23, 59, 59)) == MaxSeconds
  {
    YearStep(MaxYear);
    WholeYear(MaxYear);
    assert DaysBeforeMonth(MaxYear, 13) == DaysBeforeMonth(MaxYear, 12) + 31;
  }

  // ---------------------------------------------------------------------
  // parse_iso8601

  /** A UTC instant, in seconds since 0001-01-01 00:00:00 UTC. */
  datatype Instant = Instant(seconds: int)

  /** The local date and time of a stamp: at most its first six numeric fields. */
  function LocalTime(stamp: string): (r: Option<DateTime>)
    ensures r.Some? ==> Valid(r.value)
  {
    var vs := ParseAll(Take(SplitNonDigits(stamp), 6));
    if vs.None? then None else MakeDateTime(vs.value)
  }

  /** Field `j` of a date and time in datetime's order of arguments. */
  function DateField(d: DateTime, j: int): int
  {
    if j == 0 then d.year else if j == 1 then d.month else if j == 2 then d.day
    else if j == 3 then d.hour else if j == 4 then d.minute else d.second
  }

  /**
   * The stamp spells `d`: at least three fields, each of the first six
   * reading as `d`'s field of that place, and the fields not given 0.
   */
  predicate Spells(stamp: string, d: DateTime)
  {
    var fs := SplitNonDigits(stamp);
    3 <= |fs| &&
    forall j :: 0 <= j < 6 ==>
      (j < |fs| ==> ParseInt(fs[j]) == Some(DateField(d, j))) && (|fs| <= j ==> DateField(d, j) == 0)
  }

  /** The stamp's local time is `d` exactly when `d` is a valid date and time the stamp spells. */
  lemma LocalTimeSpec(stamp: string, d: DateTime)
    ensures LocalTime(stamp) == Some(d) <==> Valid(d) && Spells(stamp, d)
  {
    var fs := SplitNonDigits(stamp);
    var t := Take(fs, 6);
    var vs := ParseAll(t);
    if LocalTime(stamp) == Some(d) {
      assert vs.Some? && MakeDateTime(vs.value) == Some(d);
      FieldsSpell(fs, t, vs.value, d);
    }
    if Valid(d) && Spells(stamp, d) {
      forall j | 0 <= j < |t|
        ensures ParseInt(t[j]).Some?
      {
        assert t[j] == fs[j];
      }
      assert vs.Some?;
      SpelledFields(fs, t, vs.value, d);
    }
  }

  /** Read back from its fields, the local time is what those fields spell. */
  lemma FieldsSpell(fs: seq<string>, t: seq<string>, vs: seq<int>, d: DateTime)
    requires t == Take(fs, 6) && ParseAll(t) == Some(vs) && 3 <= |vs| && d == Fields(vs)
    ensures 3 <= |fs|
    ensures forall j :: 0 <= j < 6 ==>
      (j < |fs| ==> ParseInt(fs[j]) == Some(DateField(d, j))) && (|fs| <= j ==> DateField(d, j) == 0)
  {
    forall j | 0 <= j < 6
      ensures (j < |fs| ==> ParseInt(fs[j]) == Some(DateField(d, j))) && (|fs| <= j ==> DateField(d, j) == 0)
    {
      if j < |fs| {
        assert t[j] == fs[j] && Some(vs[j]) == ParseInt(t[j]);
      }
    }
  }

  /** Fields spelling `d` rebuild `d`. */
  lemma SpelledFields(fs: seq<string>, t: seq<string>, vs: seq<int>, d: DateTime)
    requires t == Take(fs, 6) && ParseAll(t) == Some(vs) && 3 <= |fs|
    requires forall j :: 0 <= j < 6 ==>
      (j < |fs| ==> ParseInt(fs[j]) == Some(DateField(d, j))) && (|fs| <= j ==> DateField(d, j) == 0)
    ensures 3 <= |vs| <= 6 && Fields(vs) == d
  {
    assert forall j :: 0 <= j < |vs| ==> vs[j] == DateField(d, j) by {
      forall j | 0 <= j < |vs|
        ensures vs[j] == DateField(d, j)
      {
        assert t[j] == fs[j] && Some(vs[j]) == ParseInt(t[j]);
      }
    }
    assert DateField(d, 0) == d.year && DateField(d, 1) == d.month && DateField(d, 2) == d.day;
    assert DateField(d, 3) == d.hour && DateField(d, 4) == d.minute && DateField(d, 5) == d.second;
  }

  /**
   * The local time moved back by the zone's offset; an instant outside
   * datetime's range is an OverflowError.
   */
  function ToUtc(local: Option<DateTime>, offset: Option<int>): (r: Option<Instant>)
    requires local.Some? ==> Valid(local.value)
    ensures r.Some? ==> local.Some? && offset.Some? && 0 <= r.value.seconds <= MaxSeconds
    ensures r.Some? ==> r.value.seconds + 60 * offset.value == Seconds(local.value)
    ensures local.Some? && offset.Some? && 0 <= Seconds(local.value) - 60 * offset.value <= MaxSeconds ==> r.Some?
  {
    if local.None? || offset.None? then None
    else
      var s := Seconds(local.value) - 60 * offset.value;
      if 0 <= s <= MaxSeconds then Some(Instant(s)) else None
  }

  /** parse_iso8601: the stamp's local time, less the zone's offset, as a UTC instant. */
  function ParseIso8601(ts: string): (r: Option<Instant>)
    ensures r.Some? ==> LocalTime(Stamp(ts)).Some? && TzMinutes(Zone(ts)).Some?
    ensures r.Some? ==> (0 <= r.value.seconds <= MaxSeconds &&
      r.value.seconds + 60 * TzMinutes(Zone(ts)).value == Seconds(LocalTime(Stamp(ts)).value))
    ensures (LocalTime(Stamp(ts)).Some? && TzMinutes(Zone(ts)).Some? &&
      0 <= Seconds(LocalTime(Stamp(ts)).value) - 60 * TzMinutes(Zone(ts)).value <= MaxSeconds) ==> r.Some?
  {
    ToUtc(LocalTime(Stamp(ts)), TzMinutes(Zone(ts)))
  }

  /**
   * A stamp ending in a digit, spaces and a zone token: the result is the
   * stamp's local time less the zone's offset.
   */
  lemma ParseComposed(stamp: string, sep: string, zone: string)
    requires |stamp| > 0 && IsDigit(stamp[|stamp| - 1]) && '\n' !in stamp
    requires forall i :: 0 <= i < |sep| ==> sep[i] == ' '
    requires IsToken(zone)
    ensures ParseIso8601(stamp + sep + zone) == ToUtc(LocalTime(stamp), TzMinutes(zone))
  {
    StampZoneOf(stamp, sep, zone);
  }

  /** Fields after the sixth, fractional seconds for one, do not change the local time. */
  lemma ExtraFieldsIgnored(stamp: string, c: char, rest: string)
    requires !IsDigit(c) && |SplitNonDigits(stamp)| >= 6
    ensures LocalTime(stamp + [c] + rest) == LocalTime(stamp)
  {
    SplitNonDigitsAppend(stamp, c, rest);
    var fs := SplitNonDigits(stamp);
    assert Take(fs + SplitNonDigits(rest), 6) == Take(fs, 6);
  }

  // ---------------------------------------------------------------------
  // The samples of the source's self-test

  /** A run of digits and a non-digit in front of `rest` add one field in front of its fields. */
  lemma ConsField(a: string, c: char, rest: string)
    requires AllDigits(a) && !IsDigit(c)
    ensures SplitNonDigits(a + [c] + rest) == [a] + SplitNonDigits(rest)
  {
    SplitNonDigitsAppend(a, c, rest);
    SplitNonDigitsOfDigits(a);
  }

  /** Six runs of digits between single non-digits are the six fields. */
  lemma SixFields(y: string, mo: string, d: string, h: string, mi: string, s: string,
                  c1: char, c2: char, c3: char, c4: char, c5: char)
    requires AllDigits(y) && AllDigits(mo) && AllDigits(d) && AllDigits(h) && AllDigits(mi) && AllDigits(s)
    requires !IsDigit(c1) && !IsDigit(c2) && !IsDigit(c3) && !IsDigit(c4) && !IsDigit(c5)
    ensures var fs := SplitNonDigits(y + [c1] + (mo + [c2] + (d + [c3] + (h + [c4] + (mi + [c5] + s)))));
      |fs| == 6 && fs[0] == y && fs[1] == mo && fs[2] == d && fs[3] == h && fs[4] == mi && fs[5] == s
  {
    var r4 := mi + [c5] + s;
    var r3 := h + [c4] + r4;
    var r2 := d + [c3] + r3;
    var r1 := mo + [c2] + r2;
    SplitNonDigitsOfDigits(s);
    ConsField(mi, c5, s);
    ConsField(h, c4, r4);
    ConsField(d, c3, r3);
    ConsField(mo, c2, r2);
    ConsField(y, c1, r1);
  }

  /** The sample stamps: 2016-01-06, one separator, an hour `h1 h2`, then `:02:04`. */
  lemma SampleLocalTime(c: char, h1: char, h2: char)
    requires !IsDigit(c) && IsDigit(h1) && IsDigit(h2) && 10 * DigitValue(h1) + DigitValue(h2) < 24
    ensures |SplitNonDigits("2016-01-06" + [c, h1, h2] + ":02:04")| == 6
    ensures LocalTime("2016-01-06" + [c, h1, h2] + ":02:04") ==
      Some(DateTime(2016, 1, 6, 10 * DigitValue(h1) + DigitValue(h2), 2, 4))
  {
    var stamp := "2016-01-06" + [c, h1, h2] + ":02:04";
    SampleFields(c, h1, h2);
    SampleFieldValues(h1, h2);
    var fs := SplitNonDigits(stamp);
    assert Take(fs, 6) == fs;
  }

  /** The six fields of a sample stamp. */
  lemma SampleFields(c: char, h1: char, h2: char)
    requires !IsDigit(c) && IsDigit(h1) && IsDigit(h2)
    ensures SplitNonDigits("2016-01-06" + [c, h1, h2] + ":02:04") == ["2016", "01", "06", [h1, h2], "02", "04"]
  {
    var stamp := "2016-01-06" + [c, h1, h2] + ":02:04";
    var hh := [h1, h2];
    assert stamp == "2016" + ['-'] + ("01" + ['-'] + ("06" + [c] + (hh + [':'] + ("02" + [':'] + "04"))));
    SixFields("2016", "01", "06", hh, "02", "04", '-', '-', c, ':', ':');
  }

  /** The values of the six fields of a sample stamp. */
  lemma SampleFieldValues(h1: char, h2: char)
    requires IsDigit(h1) && IsDigit(h2)
    ensures ParseAll(["2016", "01", "06", [h1, h2], "02", "04"]) == Some([2016, 1, 6, 10 * DigitValue(h1) + DigitValue(h2), 2, 4])
  {
    FourDigits('2', '0', '1', '6');
    TwoDigits('0', '1');
    TwoDigits('0', '6');
    TwoDigits(h1, h2);
    TwoDigits('0', '2');
    TwoDigits('0', '4');
    assert "2016" == ['2', '0', '1', '6'] && "01" == ['0', '1'] && "06" == ['0', '6'];
    assert "02" == ['0', '2'] && "04" == ['0', '4'];
    var vs := ParseAll(["2016", "01", "06", [h1, h2], "02", "04"]);
    assert vs.Some?;
    assert vs.value == [2016, 1, 6, 10 * DigitValue(h1) + DigitValue(h2), 2, 4];
  }

  /** 2016-01-06 08:02:04 UTC, day 735969 counting 0001-01-01 as day 1. */
  const SampleInstant: int := 735968 * 86400 + 8 * 3600 + 2 * 60 + 4

  /** The instant of 2016-01-06 at hour `h`, 02:04 past. */
  lemma SampleSeconds(h: int)
    requires 0 <= h < 24
    ensures Valid(DateTime(2016, 1, 6, h, 2, 4))
    ensures Ordinal(DateTime(2016, 1, 6, h, 2, 4)) == 735969
    ensures Seconds(DateTime(2016, 1, 6, h, 2, 4)) == SampleInstant + (h - 8) * 3600
  {
  }

  /**
   * A sample stamp at hour `h1 h2`, spaces and a zone whose offset makes up
   * the difference to 08:00 denotes the sample instant.
   */
  lemma SampleComposed(c: char, h1: char, h2: char, sep: string, zone: string, offset: int)
    requires !IsDigit(c) && c != '\n' && IsDigit(h1) && IsDigit(h2) && 10 * DigitValue(h1) + DigitValue(h2) < 24
    requires forall i :: 0 <= i < |sep| ==> sep[i] == ' '
    requires IsToken(zone) && TzMinutes(zone) == Some(offset)
    requires (10 * DigitValue(h1) + DigitValue(h2) - 8) * 60 == offset
    ensures ParseIso8601(("2016-01-06" + [c, h1, h2] + ":02:04") + sep + zone) == Some(Instant(SampleInstant))
  {
    var st := "2016-01-06" + [c, h1, h2] + ":02:04";
    var h := 10 * DigitValue(h1) + DigitValue(h2);
    SampleLocalTime(c, h1, h2);
    assert st[|st| - 1] == '4';
    SampleStampNoNewline(c, h1, h2);
    ParseComposed(st, sep, zone);
    SampleShift(h, offset);
  }

  /** 2016-01-06 at hour `h`, less an offset of `h - 8` hours, is the sample instant. */
  lemma SampleShift(h: int, offset: int)
    requires 0 <= h < 24 && (h - 8) * 60 == offset
    ensures ToUtc(Some(DateTime(2016, 1, 6, h, 2, 4)), Some(offset)) == Some(Instant(SampleInstant))
  {
    SampleSeconds(h);
    assert Seconds(DateTime(2016, 1, 6, h, 2, 4)) - 60 * offset == SampleInstant;
  }

  /** A sample stamp holds no newline when its separator is not one. */
  lemma SampleStampNoNewline(c: char, h1: char, h2: char)
    requires c != '\n' && IsDigit(h1) && IsDigit(h2)
    ensures '\n' !in "2016-01-06" + [c, h1, h2] + ":02:04"
  {
    var st := "2016-01-06" + [c, h1, h2] + ":02:04";
    forall i | 0 <= i < |st|
      ensures st[i] != '\n'
    {
      if i < 10 {
        assert st[i] == "2016-01-06"[i];
      } else if i >= 13 {
        assert st[i] == ":02:04"[i - 13];
      }
    }
  }

  lemma SamplePlusOneText()
    ensures "2016-01-06 09:02:04 +0100" == ("2016-01-06" + [' ', '0', '9'] + ":02:04") + " " + "+0100"
  {
  }

  /** `2016-01-06 09:02:04 +0100` denotes 2016-01-06 08:02:04 UTC. */
  lemma SamplePlusOne()
    ensures ParseIso8601("2016-01-06 09:02:04 +0100") == Some(Instant(SampleInstant))
  {
    NumericZoneSamples();
    assert IsToken("+0100");
    SampleComposed(' ', '0', '9', " ", "+0100", 60);
    SamplePlusOneText();
  }

  lemma SampleMinusOneText()
    ensures "2016-01-06 07:02:04 -0100" == ("2016-01-06" + [' ', '0', '7'] + ":02:04") + " " + "-0100"
  {
  }

  /** `2016-01-06 07:02:04 -0100` denotes 2016-01-06 08:02:04 UTC. */
  lemma SampleMinusOne()
    ensures ParseIso8601("2016-01-06 07:02:04 -0100") == Some(Instant(SampleInstant))
  {
    NumericZoneSamples();
    assert IsToken("-0100");
    SampleComposed(' ', '0', '7', " ", "-0100", -60);
    SampleMinusOneText();
  }

  lemma SampleUtcText()
    ensures "2016-01-06 08:02:04 UTC" == ("2016-01-06" + [' ', '0', '8'] + ":02:04") + " " + "UTC"
  {
  }

  /** `2016-01-06 08:02:04 UTC` denotes 2016-01-06 08:02:04 UTC. */
  lemma SampleUtc()
    ensures ParseIso8601("2016-01-06 08:02:04 UTC") == Some(Instant(SampleInstant))
  {
    NamedZoneOffsets();
    assert IsToken("UTC");
    SampleComposed(' ', '0', '8', " ", "UTC", 0);
    SampleUtcText();
  }

  lemma SampleZuluText()
    ensures "2016-01-06T08:02:04Z" == ("2016-01-06" + ['T', '0', '8'] + ":02:04") + "" + "Z"
  {
  }

  /** `2016-01-06T08:02:04Z` denotes 2016-01-06 08:02:04 UTC. */
  lemma SampleZulu()
    ensures ParseIso8601("2016-01-06T08:02:04Z") == Some(Instant(SampleInstant))
  {
    NamedZoneOffsets();
    assert IsToken("Z");
    SampleComposed('T', '0', '8', "", "Z", 0);
    SampleZuluText();
  }

  lemma SampleCestText()
    ensures "2016-01-06 10:02:04 CEST" == ("2016-01-06" + [' ', '1', '0'] + ":02:04") + " " + "CEST"
  {
  }

  /** `2016-01-06 10:02:04 CEST` denotes 2016-01-06 08:02:04 UTC. */
  lemma SampleCest()
    ensures ParseIso8601("2016-01-06 10:02:04 CEST") == Some(Instant(SampleInstant))
  {
    NamedZoneOffsets();
    assert IsToken("CEST");
    SampleComposed(' ', '1', '0', " ", "CEST", 120);
    SampleCestText();
  }

  lemma SampleCetFractionText()
    ensures "2016-01-06 09:02:04.123 CET" == ("2016-01-06" + [' ', '0', '9'] + ":02:04") + ['.'] + "123" + " " + "CET"
  {
  }

  /** The stamp `2016-01-06 09:02:04.123` is read as 09:02:04 and holds no newline. */
  lemma SampleFractionStamp()
    ensures LocalTime("2016-01-06" + [' ', '0', '9'] + ":02:04" + ['.'] + "123") == Some(DateTime(2016, 1, 6, 9, 2, 4))
    ensures '\n' !in "2016-01-06" + [' ', '0', '9'] + ":02:04" + ['.'] + "123"
  {
    var st := "2016-01-06" + [' ', '0', '9'] + ":02:04";
    SampleLocalTime(' ', '0', '9');
    ExtraFieldsIgnored(st, '.', "123");
    SampleStampNoNewline(' ', '0', '9');
    assert '\n' !in ['.'] + "123";
  }

  /** `2016-01-06 09:02:04.123 CET` denotes 2016-01-06 08:02:04 UTC: the fraction is ignored. */
  lemma SampleCetFraction()
    ensures ParseIso8601("2016-01-06 09:02:04.123 CET") == Some(Instant(SampleInstant))
  {
    var st := "2016-01-06" + [' ', '0', '9'] + ":02:04" + ['.'] + "123";
    NamedZoneOffsets();
    SampleSeconds(9);
    SampleFractionStamp();
    assert TzMinutes("CET") == Some(60);
    assert ToUtc(LocalTime(st), TzMinutes("CET")) == Some(Instant(SampleInstant));
    assert IsToken("CET");
    ParseComposed(st, " ", "CET");
    assert ParseIso8601(st + " " + "CET") == Some(Instant(SampleInstant));
    SampleCetFractionText();
  }
}
