/**
 * Regex-free models of the three `Regex.Match` calls of the catalog:
 *   Detail.Initialize       (?:(\d+)h)?(\d+)m(\d+)s    duration text of the catalog
 *   CollectionEntry.ParseSeconds  (\d+):(\d+)(?::(\d+))?   length text of a collection entry
 *   Detail.GetId            /(\d+)$                    numeric id at the end of the URL
 * A .NET match is the leftmost one: the engine tries the start positions
 * 0, 1, ... in turn. With a greedy `\d+` followed by a literal that is not a
 * digit, backtracking into the digit run can never help, so each attempt at
 * one start position is deterministic and is written out below. Every
 * `int.Parse` of a group is `ParseInt32`; an unsuccessful match leaves the
 * group empty and `int.Parse("")` throws, which is `None` here as well.
 */
module Durations {
  import opened Wrappers
  import opened Numbers

  /** End of the maximal run of digits that starts at i. */
  function DigitRunEnd(s: string, i: nat): (j: nat)
    requires i <= |s|
    ensures i <= j <= |s|
    ensures forall k :: i <= k < j ==> IsDigit(s[k])
    ensures j < |s| ==> !IsDigit(s[j])
    decreases |s| - i
  {
    if i < |s| && IsDigit(s[i]) then DigitRunEnd(s, i + 1) else i
  }

  lemma {:induction false} DigitRunEndIs(s: string, i: nat, j: nat)
    requires i <= j <= |s|
    requires forall k :: i <= k < j ==> IsDigit(s[k])
    requires j < |s| ==> !IsDigit(s[j])
    ensures DigitRunEnd(s, i) == j
    decreases j - i
  {
    if i < j {
      DigitRunEndIs(s, i + 1, j);
    }
  }

  /** A digit group g placed at p and not followed by a digit is exactly the run there. */
  lemma DigitsAt(t: string, p: nat, g: string)
    requires |g| > 0 && AllDigits(g)
    requires p + |g| <= |t| && t[p..p + |g|] == g
    requires p + |g| < |t| ==> !IsDigit(t[p + |g|])
    ensures DigitRunEnd(t, p) == p + |g|
  {
    forall k | p <= k < p + |g| ensures IsDigit(t[k]) {
      assert t[k] == t[p..p + |g|][k - p];
    }
    DigitRunEndIs(t, p, p + |g|);
  }

  // ---------------------------------------------------------------------
  // Detail.Initialize: (?:(\d+)h)?(\d+)m(\d+)s

  datatype HmsGroups = HmsGroups(hours: Option<string>, minutes: string, seconds: string)

  predicate DigitGroup(g: string) { |g| > 0 && AllDigits(g) }

  predicate HmsWellFormed(g: HmsGroups)
  {
    (g.hours.Some? ==> DigitGroup(g.hours.value)) && DigitGroup(g.minutes) && DigitGroup(g.seconds)
  }

  /** `(\d+)m(\d+)s` at position p. */
  function MinSecAt(s: string, p: nat): (r: Option<(string, string)>)
    requires p <= |s|
    ensures r.Some? ==> DigitGroup(r.value.0) && DigitGroup(r.value.1)
  {
    var a := DigitRunEnd(s, p);
    if a > p && a < |s| && s[a] == 'm' then
      var b := DigitRunEnd(s, a + 1);
      if b > a + 1 && b < |s| && s[b] == 's' then Some((s[p..a], s[a + 1..b])) else None
    else None
  }

  /** The whole pattern at position p: the optional hour group is tried first. */
  function HmsAt(s: string, p: nat): (r: Option<HmsGroups>)
    requires p <= |s|
    ensures r.Some? ==> HmsWellFormed(r.value)
  {
    var h := DigitRunEnd(s, p);
    if h > p && h < |s| && s[h] == 'h' && MinSecAt(s, h + 1).Some? then
      var ms := MinSecAt(s, h + 1).value;
      Some(HmsGroups(Some(s[p..h]), ms.0, ms.1))
    else if MinSecAt(s, p).Some? then
      var ms := MinSecAt(s, p).value;
      Some(HmsGroups(None, ms.0, ms.1))
    else None
  }

  /** Leftmost match at a start position >= p. */
  function FirstHms(s: string, p: nat): (r: Option<HmsGroups>)
    requires p <= |s|
    ensures r.Some? ==> HmsWellFormed(r.value)
    decreases |s| - p
  {
    if HmsAt(s, p).Some? then HmsAt(s, p) else if p == |s| then None else FirstHms(s, p + 1)
  }

  /** `h * 60 * 60 + m * 60 + s` in unchecked 32-bit arithmetic, one operation at a time. */
  function HmsTotal32(h: int, m: int, s: int): int
  {
    Wrap32(Wrap32(Wrap32(Wrap32(h * 60) * 60) + Wrap32(m * 60)) + s)
  }

  /** The seconds Detail.Initialize computes from the catalog's duration text; None when it throws. */
  function CatalogSeconds(duration: string): Option<int>
  {
    match FirstHms(duration, 0)
    case None => None
    case Some(g) => HmsSeconds(g)
  }

  /** The `int.Parse` calls and the sum of Detail.Initialize on the groups of a match. */
  function HmsSeconds(g: HmsGroups): Option<int>
    requires HmsWellFormed(g)
  {
    var h := if g.hours.Some? then ParseInt32(g.hours.value) else Some(0);
    var m := ParseInt32(g.minutes);
    var s := ParseInt32(g.seconds);
    if h.None? || m.None? || s.None? then None
    else Some(HmsTotal32(h.value, m.value, s.value))
  }

  /** Without overflow the 32-bit arithmetic is the exact sum. */
  lemma HmsTotalExact(h: nat, m: nat, s: nat)
    requires h * 3600 + m * 60 + s <= Int32Max
    ensures HmsTotal32(h, m, s) == h * 3600 + m * 60 + s
  {
    assert h * 60 <= h * 3600;
    assert h * 60 * 60 == h * 3600;
    Wrap32InRange(h * 60);
    Wrap32InRange(h * 3600);
    Wrap32InRange(m * 60);
    Wrap32InRange(h * 3600 + m * 60);
    Wrap32InRange(h * 3600 + m * 60 + s);
  }

  lemma FieldsBounded(h: nat, m: nat, s: nat)
    requires h * 3600 + m * 60 + s <= Int32Max
    ensures h <= Int32Max && m <= Int32Max && s <= Int32Max
  {
  }

  /** The duration text "[<h>h]<m>m<s>s" of the catalog. */
  function HmsText(hours: Option<string>, minutes: string, seconds: string): string
  {
    (if hours.Some? then hours.value + "h" else "") + minutes + "m" + seconds + "s"
  }

  lemma MinSecAtText(t: string, p: nat, minutes: string, seconds: string)
    requires DigitGroup(minutes) && DigitGroup(seconds)
    requires p <= |t| && t[p..] == minutes + "m" + seconds + "s"
    ensures MinSecAt(t, p) == Some((minutes, seconds))
  {
    var a := p + |minutes|;
    var b := a + 1 + |seconds|;
    MinSecPieces(t, p, minutes, seconds);
    DigitsAt(t, p, minutes);
    DigitsAt(t, a + 1, seconds);
    MinSecOfRuns(t, p, a, b, minutes, seconds);
  }

  lemma MinSecPieces(t: string, p: nat, x: string, y: string)
    requires p <= |t| && t[p..] == x + "m" + y + "s"
    ensures var a := p + |x|; var b := a + 1 + |y|;
      |t| == b + 1 && t[p..a] == x && t[a] == 'm' && t[a + 1..b] == y && t[b] == 's'
  {
    var u := t[p..];
    var a := p + |x|;
    var b := a + 1 + |y|;
    assert t[p..a] == u[..|x|];
    assert t[a + 1..b] == u[|x| + 1..|x| + 1 + |y|];
  }

  lemma MinSecOfRuns(t: string, p: nat, a: nat, b: nat, x: string, y: string)
    requires p < a && a + 1 < b < |t|
    requires DigitRunEnd(t, p) == a && t[a] == 'm'
    requires DigitRunEnd(t, a + 1) == b && t[b] == 's'
    requires t[p..a] == x && t[a + 1..b] == y
    ensures MinSecAt(t, p) == Some((x, y))
  {
  }


  lemma HmsAtText(hours: Option<string>, minutes: string, seconds: string)
    requires (hours.Some? ==> DigitGroup(hours.value)) && DigitGroup(minutes) && DigitGroup(seconds)
    ensures FirstHms(HmsText(hours, minutes, seconds), 0) == Some(HmsGroups(hours, minutes, seconds))
  {
    var t := HmsText(hours, minutes, seconds);
    var rest := minutes + "m" + seconds + "s";
    if hours.Some? {
      var hs := hours.value;
      var a := |hs|;
      assert t == hs + "h" + rest;
      assert t[0..a] == hs && t[a] == 'h' && t[a + 1..] == rest;
      DigitsAt(t, 0, hs);
      MinSecAtText(t, a + 1, minutes, seconds);
      HmsWithHours(t, a, hs, minutes, seconds);
    } else {
      assert t == rest && t[0..] == rest;
      MinSecAtText(t, 0, minutes, seconds);
      assert t[|minutes|] == 'm';
      DigitsAt(t, 0, minutes);
      HmsWithoutHours(t, minutes, seconds);
    }
  }

  lemma HmsWithHours(t: string, a: nat, hs: string, minutes: string, seconds: string)
    requires 0 < a < |t| && DigitRunEnd(t, 0) == a && t[a] == 'h' && t[0..a] == hs
    requires MinSecAt(t, a + 1) == Some((minutes, seconds))
    ensures FirstHms(t, 0) == Some(HmsGroups(Some(hs), minutes, seconds))
  {
    assert HmsAt(t, 0) == Some(HmsGroups(Some(hs), minutes, seconds));
  }

  lemma HmsWithoutHours(t: string, minutes: string, seconds: string)
    requires |minutes| < |t| && DigitRunEnd(t, 0) == |minutes| && t[|minutes|] == 'm'
    requires MinSecAt(t, 0) == Some((minutes, seconds))
    ensures FirstHms(t, 0) == Some(HmsGroups(None, minutes, seconds))
  {
    assert HmsAt(t, 0) == Some(HmsGroups(None, minutes, seconds));
  }


  /** Groups whose values do not overflow give h*3600 + m*60 + s. */
  lemma HmsSecondsExact(hours: Option<string>, minutes: string, seconds: string, h: nat, m: nat, s: nat)
    requires HmsWellFormed(HmsGroups(hours, minutes, seconds))
    requires h == (if hours.Some? then Value(hours.value) else 0) && m == Value(minutes) && s == Value(seconds)
    requires h * 3600 + m * 60 + s <= Int32Max
    ensures HmsSeconds(HmsGroups(hours, minutes, seconds)) == Some(h * 3600 + m * 60 + s)
  {
    FieldsBounded(h, m, s);
    assert (if hours.Some? then ParseInt32(hours.value) else Some(0)) == Some(h);
    assert ParseInt32(minutes) == Some(m) && ParseInt32(seconds) == Some(s);
    HmsTotalExact(h, m, s);
  }


  /** Detail.Initialize reads "[<h>h]<m>m<s>s" as h*3600 + m*60 + s, the hour part defaulting to 0. */
  lemma CatalogSecondsOfText(hours: Option<string>, minutes: string, seconds: string, h: nat, m: nat, s: nat)
    requires (hours.Some? ==> DigitGroup(hours.value)) && DigitGroup(minutes) && DigitGroup(seconds)
    requires h == (if hours.Some? then Value(hours.value) else 0) && m == Value(minutes) && s == Value(seconds)
    requires h * 3600 + m * 60 + s <= Int32Max
    ensures CatalogSeconds(HmsText(hours, minutes, seconds)) == Some(h * 3600 + m * 60 + s)
  {
    var g := HmsGroups(hours, minutes, seconds);
    HmsAtText(hours, minutes, seconds);
    assert CatalogSeconds(HmsText(hours, minutes, seconds)) == HmsSeconds(g);
    HmsSecondsExact(hours, minutes, seconds, h, m, s);
  }


  // ---------------------------------------------------------------------
  // CollectionEntry.ParseSeconds: (\d+):(\d+)(?::(\d+))?

  datatype ClockGroups = ClockGroups(first: string, second: string, third: Option<string>)

  predicate ClockWellFormed(g: ClockGroups)
  {
    DigitGroup(g.first) && DigitGroup(g.second) && (g.third.Some? ==> DigitGroup(g.third.value))
  }

  function ClockAt(s: string, p: nat): (r: Option<ClockGroups>)
    requires p <= |s|
    ensures r.Some? ==> ClockWellFormed(r.value)
  {
    var a := DigitRunEnd(s, p);
    if a > p && a < |s| && s[a] == ':' then
      var b := DigitRunEnd(s, a + 1);
      if b > a + 1 then Some(ClockGroups(s[p..a], s[a + 1..b], ThirdAt(s, b))) else None
    else None
  }

  /** The optional `(?::(\d+))?` at position b; being greedy, it is taken whenever ":<digits>" follows. */
  function ThirdAt(s: string, b: nat): (r: Option<string>)
    requires b <= |s|
    ensures r.Some? ==> DigitGroup(r.value)
  {
    if b < |s| && s[b] == ':' && DigitRunEnd(s, b + 1) > b + 1 then Some(s[b + 1..DigitRunEnd(s, b + 1)]) else None
  }

  function FirstClock(s: string, p: nat): (r: Option<ClockGroups>)
    requires p <= |s|
    ensures r.Some? ==> ClockWellFormed(r.value)
    decreases |s| - p
  {
    if ClockAt(s, p).Some? then ClockAt(s, p) else if p == |s| then None else FirstClock(s, p + 1)
  }

  /** The seconds CollectionEntry.ParseSeconds computes from "m:s" or "h:m:s"; None when it throws. */
  function EntrySeconds(length: string): Option<int>
  {
    match FirstClock(length, 0)
    case None => None
    case Some(g) => ClockSeconds(g)
  }

  /** The `int.Parse` calls and the sum of ParseSeconds on the groups of a match. */
  function ClockSeconds(g: ClockGroups): Option<int>
    requires ClockWellFormed(g)
  {
    if g.third.Some? then
      var h := ParseInt32(g.first);
      var m := ParseInt32(g.second);
      var s := ParseInt32(g.third.value);
      if h.None? || m.None? || s.None? then None else Some(HmsTotal32(h.value, m.value, s.value))
    else
      var m := ParseInt32(g.first);
      var s := ParseInt32(g.second);
      if m.None? || s.None? then None else Some(Wrap32(Wrap32(m.value * 60) + s.value))
  }

  lemma ClockAtMinSec(minutes: string, seconds: string)
    requires DigitGroup(minutes) && DigitGroup(seconds)
    ensures FirstClock(minutes + ":" + seconds, 0) == Some(ClockGroups(minutes, seconds, None))
  {
    var t := minutes + ":" + seconds;
    var a := |minutes|;
    assert t[0..a] == minutes && t[a] == ':';
    assert t[a + 1..|t|] == seconds;
    DigitsAt(t, 0, minutes);
    DigitsAt(t, a + 1, seconds);
  }

  /** A two-field match reads as m*60 + s when nothing overflows. */
  lemma EntrySecondsOfTwoFields(t: string, minutes: string, seconds: string, m: nat, s: nat)
    requires FirstClock(t, 0) == Some(ClockGroups(minutes, seconds, None))
    requires m == Value(minutes) && s == Value(seconds)
    requires m * 60 + s <= Int32Max
    ensures EntrySeconds(t) == Some(m * 60 + s)
  {
    var g := ClockGroups(minutes, seconds, None);
    assert EntrySeconds(t) == ClockSeconds(g);
    FieldsBounded(0, m, s);
    assert ParseInt32(minutes) == Some(m) && ParseInt32(seconds) == Some(s);
    MinSecExact(m, s);
  }


  /** A three-field match reads as h*3600 + m*60 + s when nothing overflows. */
  lemma EntrySecondsOfThreeFields(t: string, hours: string, minutes: string, seconds: string, h: nat, m: nat, s: nat)
    requires FirstClock(t, 0) == Some(ClockGroups(hours, minutes, Some(seconds)))
    requires h == Value(hours) && m == Value(minutes) && s == Value(seconds)
    requires h * 3600 + m * 60 + s <= Int32Max
    ensures EntrySeconds(t) == Some(h * 3600 + m * 60 + s)
  {
    var g := ClockGroups(hours, minutes, Some(seconds));
    assert EntrySeconds(t) == ClockSeconds(g);
    ClockSecondsOfThree(hours, minutes, seconds, h, m, s);
  }

  lemma ClockSecondsOfThree(hours: string, minutes: string, seconds: string, h: nat, m: nat, s: nat)
    requires ClockWellFormed(ClockGroups(hours, minutes, Some(seconds)))
    requires h == Value(hours) && m == Value(minutes) && s == Value(seconds)
    requires h * 3600 + m * 60 + s <= Int32Max
    ensures ClockSeconds(ClockGroups(hours, minutes, Some(seconds))) == Some(h * 3600 + m * 60 + s)
  {
    FieldsBounded(h, m, s);
    assert ParseInt32(hours) == Some(h) && ParseInt32(minutes) == Some(m) && ParseInt32(seconds) == Some(s);
    HmsTotalExact(h, m, s);
  }

  /** Without overflow the 32-bit arithmetic of "m:s" is the exact sum. */
  lemma MinSecExact(m: nat, s: nat)
    requires m * 60 + s <= Int32Max
    ensures Wrap32(Wrap32(m * 60) + s) == m * 60 + s
  {
    Wrap32InRange(m * 60);
    Wrap32InRange(m * 60 + s);
  }

  /** "<m>:<s>" reads as m*60 + s. */
  lemma EntrySecondsOfMinSec(minutes: string, seconds: string, m: nat, s: nat)
    requires DigitGroup(minutes) && DigitGroup(seconds)
    requires m == Value(minutes) && s == Value(seconds)
    requires m * 60 + s <= Int32Max
    ensures EntrySeconds(minutes + ":" + seconds) == Some(m * 60 + s)
  {
    ClockAtMinSec(minutes, seconds);
    EntrySecondsOfTwoFields(minutes + ":" + seconds, minutes, seconds, m, s);
  }


  lemma ClockAtHourMinSec(hours: string, minutes: string, seconds: string)
    requires DigitGroup(hours) && DigitGroup(minutes) && DigitGroup(seconds)
    ensures FirstClock(hours + ":" + minutes + ":" + seconds, 0) == Some(ClockGroups(hours, minutes, Some(seconds)))
  {
    var t := hours + ":" + minutes + ":" + seconds;
    var a := |hours|;
    var b := a + 1 + |minutes|;
    ThreeFieldPieces(hours, minutes, seconds);
    DigitsAt(t, 0, hours);
    DigitsAt(t, a + 1, minutes);
    DigitsAt(t, b + 1, seconds);
    ClockAtOfRuns(t, a, b, |t|, hours, minutes, seconds);
  }

  /** Three digit runs separated by ':' starting the text form a three-field match. */
  lemma ClockAtOfRuns(t: string, a: nat, b: nat, c: nat, x: string, y: string, z: string)
    requires 0 < a && a + 1 < b && b + 1 < c <= |t|
    requires DigitRunEnd(t, 0) == a && t[a] == ':'
    requires DigitRunEnd(t, a + 1) == b && t[b] == ':'
    requires DigitRunEnd(t, b + 1) == c
    requires t[0..a] == x && t[a + 1..b] == y && t[b + 1..c] == z
    ensures FirstClock(t, 0) == Some(ClockGroups(x, y, Some(z)))
  {
    assert ThirdAt(t, b) == Some(z);
    assert ClockAt(t, 0) == Some(ClockGroups(x, y, Some(z)));
  }

  lemma ThreeFieldPieces(x: string, y: string, z: string)
    ensures var t, a := x + ":" + y + ":" + z, |x|;
      |t| == a + |y| + |z| + 2 &&
      t[0..a] == x && t[a] == ':' && t[a + 1..a + 1 + |y|] == y && t[a + 1 + |y|] == ':' &&
      t[a + 2 + |y|..|t|] == z
  {
  }

  /** "<h>:<m>:<s>" reads as h*3600 + m*60 + s. */
  lemma EntrySecondsOfHourMinSec(hours: string, minutes: string, seconds: string, h: nat, m: nat, s: nat)
    requires DigitGroup(hours) && DigitGroup(minutes) && DigitGroup(seconds)
    requires h == Value(hours) && m == Value(minutes) && s == Value(seconds)
    requires h * 3600 + m * 60 + s <= Int32Max
    ensures EntrySeconds(hours + ":" + minutes + ":" + seconds) == Some(h * 3600 + m * 60 + s)
  {
    ClockAtHourMinSec(hours, minutes, seconds);
    EntrySecondsOfThreeFields(hours + ":" + minutes + ":" + seconds, hours, minutes, seconds, h, m, s);
  }


  lemma SmallValues()
    ensures Value("2") == 2 && Value("5") == 5 && Value("05") == 5 && Value("06") == 6
  {
    assert "05"[..1] == "0" && "06"[..1] == "0";
    assert "0"[..0] == "2"[..0] == "5"[..0] == [];
  }

  /** A catalog duration "2m5s" is 125 seconds. */
  lemma CatalogExample()
    ensures CatalogSeconds("2m5s") == Some(125)
  {
    SmallValues();
    assert HmsText(None, "2", "5") == "2m5s";
    CatalogSecondsOfText(None, "2", "5", 0, 2, 5);
  }

  /** The entry lengths "2:05" and "2:06" are 125 and 126 seconds. */
  lemma EntryExamples()
    ensures EntrySeconds("2:05") == Some(125)
    ensures EntrySeconds("2:06") == Some(126)
  {
    SmallValues();
    assert "2" + ":" + "05" == "2:05" && "2" + ":" + "06" == "2:06";
    EntrySecondsOfMinSec("2", "05", 2, 5);
    EntrySecondsOfMinSec("2", "06", 2, 6);
  }

  // ---------------------------------------------------------------------
  // Detail.GetId: /(\d+)$   ($ matches at the end or before a final '\n')

  function IdAt(s: string, p: nat): (r: Option<string>)
    requires p <= |s|
    ensures r.Some? ==> DigitGroup(r.value)
  {
    if p < |s| && s[p] == '/' then
      var j := DigitRunEnd(s, p + 1);
      if j > p + 1 && (j == |s| || (j == |s| - 1 && s[j] == '\n')) then Some(s[p + 1..j]) else None
    else None
  }

  function FirstId(s: string, p: nat): (r: Option<string>)
    requires p <= |s|
    ensures r.Some? ==> DigitGroup(r.value)
    decreases |s| - p
  {
    if IdAt(s, p).Some? then IdAt(s, p) else if p == |s| then None else FirstId(s, p + 1)
  }

  /** The id Detail.GetId reads from the URL; None when it throws. */
  function UrlId(url: string): Option<int>
  {
    match FirstId(url, 0)
    case None => None
    case Some(g) => ParseInt32(g)
  }

  /** A URL ending in "/<digits>" yields those digits' value, whatever '/'s come before. */
  lemma UrlIdOfPath(prefix: string, id: string)
    requires DigitGroup(id) && Value(id) <= Int32Max
    ensures UrlId(prefix + "/" + id) == Some(Value(id))
  {
    var u := prefix + "/" + id;
    var q := |prefix|;
    assert u[q] == '/';
    assert u[q + 1..|u|] == id;
    DigitsAt(u, q + 1, id);
    assert IdAt(u, q) == Some(id);
    FirstIdBefore(u, q, 0);
  }

  /** No start position before the last '/' matches when digits follow it. */
  lemma {:induction false} FirstIdBefore(u: string, q: nat, p: nat)
    requires p <= q < |u| - 1 && u[q] == '/' && IdAt(u, q).Some?
    ensures FirstId(u, p) == IdAt(u, q)
    decreases q - p
  {
    if p < q {
      if u[p] == '/' {
        var j := DigitRunEnd(u, p + 1);
        assert !IsDigit(u[q]);
        assert j <= q;
      }
      assert IdAt(u, p).None?;
      FirstIdBefore(u, q, p + 1);
    }
  }
}
