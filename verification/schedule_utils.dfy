/**
 * Time and day utilities of `src/lib/schedule-utils.ts`: `parseTime`, `formatTime`,
 * `normalizeDay`, the `DAY_TO_JS` table and the weekday offset of `getNextClassDate`.
 */
module ScheduleUtils {

  import opened Wrappers
  import opened Text
  import Constants
  import Seqs

  /** A time of day as `{hours, minutes}`. */
  datatype Clock = Clock(hours: int, minutes: int)

  datatype Period = AM | PM

  /**
   * One match of `(\d+):(\d+)\s*(a\.?\s*m\.?|p\.?\s*m\.?)` starting at `pos`: the hour digits
   * end at the colon, the minute digits run from after the colon to `minutesEnd`, and
   * the marker's first letter gives the period.
   */
  datatype TimeMatch = TimeMatch(pos: nat, colon: nat, minutesEnd: nat, period: Period)

  /** The positions of a match delimit two non-empty digit runs around a colon. */
  predicate WellFormedMatch(s: string, m: TimeMatch) {
    && m.pos < m.colon < m.colon + 1 < m.minutesEnd <= |s|
    && s[m.colon] == ':'
    && AllDigits(s[m.pos..m.colon])
    && AllDigits(s[m.colon + 1..m.minutesEnd])
  }

  /** The parse result when no time is found: 18:30. */
  const DefaultClock := Clock(18, 30)

  /** End of the run of decimal digits starting at `i`. */
  function DigitRunEnd(s: string, i: nat): (j: nat)
    requires i <= |s|
    ensures i <= j <= |s|
    ensures forall k :: i <= k < j ==> IsDigit(s[k])
    ensures j == |s| || !IsDigit(s[j])
    decreases |s| - i
  {
    if i < |s| && IsDigit(s[i]) then DigitRunEnd(s, i + 1) else i
  }

  /** End of the run of whitespace starting at `i`. */
  function SpaceRunEnd(s: string, i: nat): (j: nat)
    requires i <= |s|
    ensures i <= j <= |s|
    ensures forall k :: i <= k < j ==> IsSpace(s[k])
    ensures j == |s| || !IsSpace(s[j])
    decreases |s| - i
  {
    if i < |s| && IsSpace(s[i]) then SpaceRunEnd(s, i + 1) else i
  }

  /**
   * The marker `a\.?\s*m\.?` or `p\.?\s*m\.?` (case-insensitive) at position `i`;
   * its first letter decides the period. The trailing optional dot never decides
   * whether the marker matches, so it is not inspected.
   */
  function MarkerAt(s: string, i: nat): Option<Period>
    requires i <= |s|
  {
    if i < |s| && (s[i] == 'a' || s[i] == 'A' || s[i] == 'p' || s[i] == 'P') then
      var afterDot := if i + 1 < |s| && s[i + 1] == '.' then i + 2 else i + 1;
      var m := SpaceRunEnd(s, afterDot);
      if m < |s| && (s[m] == 'm' || s[m] == 'M') then
        Some(if s[i] == 'a' || s[i] == 'A' then AM else PM)
      else None
    else None
  }

  /**
   * The regular expression anchored at position `p`. Each quantifier is greedy, and
   * giving back a digit or a space can never let the next item match, so the
   * maximal runs decide the match.
   */
  function MatchAt(s: string, p: nat): (r: Option<TimeMatch>)
    requires p <= |s|
    ensures r.Some? ==> r.value.pos == p && WellFormedMatch(s, r.value)
  {
    var hoursEnd := DigitRunEnd(s, p);
    if hoursEnd == p || hoursEnd >= |s| || s[hoursEnd] != ':' then None
    else
      var minutesEnd := DigitRunEnd(s, hoursEnd + 1);
      if minutesEnd == hoursEnd + 1 then None
      else
        match MarkerAt(s, SpaceRunEnd(s, minutesEnd))
        case None => None
        case Some(period) =>
          assert AllDigits(s[p..hoursEnd]) && AllDigits(s[hoursEnd + 1..minutesEnd]);
          Some(TimeMatch(p, hoursEnd, minutesEnd, period))
  }

  /** Whether the pattern matches at position `q`. */
  function MatchesHere(s: string): nat -> bool {
    (q: nat) => q <= |s| && MatchAt(s, q).Some?
  }

  /** `String.prototype.match` without the global flag: the leftmost match at or after `from`. */
  function FirstMatch(s: string, from: nat): (r: Option<TimeMatch>)
    requires from <= |s|
    ensures r.Some? ==> from <= r.value.pos <= |s| && MatchAt(s, r.value.pos) == r
  {
    MatchAt(s, Seqs.FirstHit(MatchesHere(s), from, |s|))
  }

  /** The match found is the leftmost one, and nothing is found only when the pattern matches nowhere. */
  lemma FirstMatchLeftmost(s: string, from: nat)
    requires from <= |s|
    ensures FirstMatch(s, from).None? ==> forall q :: from <= q <= |s| ==> MatchAt(s, q).None?
    ensures FirstMatch(s, from).Some? ==> forall q :: from <= q < FirstMatch(s, from).value.pos ==> MatchAt(s, q).None?
  {
    var k := Seqs.FirstHit(MatchesHere(s), from, |s|);
    forall q | from <= q < k
      ensures MatchAt(s, q).None?
    {
      assert !MatchesHere(s)(q);
    }
  }

  /** A position where the pattern matches, with none before it, is the one `FirstMatch` finds. */
  lemma FirstMatchIsLeftmostHit(s: string, q: nat)
    requires q <= |s| && MatchAt(s, q).Some?
    requires forall p :: 0 <= p < q ==> MatchAt(s, p).None?
    ensures FirstMatch(s, 0) == MatchAt(s, q)
  {
    FirstMatchLeftmost(s, 0);
    assert FirstMatch(s, 0).Some?;
    var k := FirstMatch(s, 0).value.pos;
    assert MatchAt(s, k).Some?;
    assert k == q;
  }

  /** Every leftmost hit is what `FirstMatch` finds. */
  lemma LeftmostHitsAreFirst(s: string)
    ensures forall q :: 0 <= q <= |s| && MatchAt(s, q).Some? &&
                        (forall p :: 0 <= p < q ==> MatchAt(s, p).None?) ==>
                          FirstMatch(s, 0) == MatchAt(s, q)
  {
    forall q | 0 <= q <= |s| && MatchAt(s, q).Some? && (forall p :: 0 <= p < q ==> MatchAt(s, p).None?)
      ensures FirstMatch(s, 0) == MatchAt(s, q)
    {
      FirstMatchIsLeftmostHit(s, q);
    }
  }

  /** `replace(/ /g, " ")`. */
  function ReplaceNbsp(s: string): (r: string)
    ensures |r| == |s|
    ensures forall i :: 0 <= i < |s| ==> r[i] == if s[i] == '\U{A0}' then ' ' else s[i]
  {
    seq(|s|, i requires 0 <= i < |s| => if s[i] == '\U{A0}' then ' ' else s[i])
  }

  /** A 12-hour reading turned into 24-hour time: PM adds 12 except at 12, and 12 AM is 0. */
  function To24Hour(hours: nat, period: Period): (h: nat)
    ensures 1 <= hours <= 12 ==> 0 <= h <= 23 && (h >= 12 <==> period.PM?)
    ensures hours > 12 ==> h == if period.PM? then hours + 12 else hours
  {
    if period.PM? && hours != 12 then hours + 12
    else if period.AM? && hours == 12 then 0
    else hours
  }

  /** The numbers a match captured, with the hour converted to 24-hour time. */
  function ToClock(s: string, m: TimeMatch): Clock
    requires WellFormedMatch(s, m)
  {
    Clock(To24Hour(DecimalValue(s[m.pos..m.colon]), m.period), DecimalValue(s[m.colon + 1..m.minutesEnd]))
  }

  /** `parseTime`: the leftmost `H:MM am/pm` in the text, or 18:30 when there is none. */
  function ParseTime(timeStr: string): (c: Clock)
    ensures var cleaned := Trim(ReplaceNbsp(timeStr));
            (forall q :: 0 <= q <= |cleaned| ==> MatchAt(cleaned, q).None?) ==> c == DefaultClock
    ensures var cleaned := Trim(ReplaceNbsp(timeStr));
            forall q :: 0 <= q <= |cleaned| && MatchAt(cleaned, q).Some? &&
                        (forall p :: 0 <= p < q ==> MatchAt(cleaned, p).None?) ==>
                          c == ToClock(cleaned, MatchAt(cleaned, q).value)
  {
    var cleaned := Trim(ReplaceNbsp(timeStr));
    FirstMatchLeftmost(cleaned, 0);
    LeftmostHitsAreFirst(cleaned);
    match FirstMatch(cleaned, 0)
    case None => DefaultClock
    case Some(m) => ToClock(cleaned, m)
  }

  function PeriodText(hours: int): string {
    if hours >= 12 then "PM" else "AM"
  }

  /** The hour shown on a 12-hour clock face. */
  function ClockHour(hours: int): (h: int)
    ensures 0 <= hours <= 23 ==> 1 <= h <= 12
  {
    if hours > 12 then hours - 12 else if hours == 0 then 12 else hours
  }

  /** `minutes.toString().padStart(2, "0")`. */
  function MinutesText(minutes: int): string {
    PadStart(IntToString(minutes), 2, '0')
  }

  /** `formatClockTime` of the week grid: `H:MM` on a 12-hour clock face, no period. */
  function ClockText(hours: int, minutes: int): string {
    IntToString(ClockHour(hours)) + ":" + MinutesText(minutes)
  }

  /**
   * `formatTime`: `H:MM AM` or `H:MM PM`, that is the week grid's `formatClockTime`
   * followed by a space and the period, which ends the text.
   */
  function FormatTime(hours: int, minutes: int): (r: string)
    ensures r == ClockText(hours, minutes) + " " + PeriodText(hours)
    ensures |r| >= 2 && r[|r| - 2..] == (if hours >= 12 then "PM" else "AM")
  {
    var clock := IntToString(ClockHour(hours)) + ":" + MinutesText(minutes);
    var period := PeriodText(hours);
    assert |period| == 2;
    assert (clock + " " + period)[|clock| + 1..] == period;
    clock + " " + period
  }

  /** Minutes 0..59 are written as exactly two digits that read back as the minutes. */
  lemma MinutesTextTwoDigits(minutes: int)
    requires 0 <= minutes <= 59
    ensures |MinutesText(minutes)| == 2 && AllDigits(MinutesText(minutes))
    ensures DecimalValue(MinutesText(minutes)) == minutes
  {
    var m := NatToString(minutes);
    if minutes < 10 {
      DecimalValueLeadingZero(m);
      assert MinutesText(minutes) == "0" + m;
    }
  }

  /**
   * For a valid time, `formatTime` shows an hour in 1..12, a colon, the minutes as
   * two digits, a space and `PM` exactly when the hour is 12 or later (else `AM`).
   */
  lemma FormatTimeFields(hours: int, minutes: int)
    requires 0 <= hours <= 23 && 0 <= minutes <= 59
    ensures 1 <= ClockHour(hours) <= 12
    ensures FormatTime(hours, minutes)
            == NatToString(ClockHour(hours)) + ":" + MinutesText(minutes) + " " + PeriodText(hours)
    ensures |MinutesText(minutes)| == 2 && AllDigits(MinutesText(minutes))
    ensures DecimalValue(MinutesText(minutes)) == minutes
    ensures PeriodText(hours) == "PM" <==> hours >= 12
    ensures PeriodText(hours) == "PM" || PeriodText(hours) == "AM"
  {
    MinutesTextTwoDigits(minutes);
  }

  /** The hour on the clock face, read back with its period, is the 24-hour hour. */
  lemma To24HourUndoesClockHour(hours: int)
    requires 0 <= hours <= 23
    ensures To24Hour(ClockHour(hours), if hours >= 12 then PM else AM) == hours
  {
  }

  /**
   * Any text of the shape `<digits>:<2 digits> <A|P>M` is left alone by the cleaning
   * steps and matched at position 0, with the marker's letter as the period.
   */
  lemma MatchOfFormattedShape(s: string, n: nat, period: Period)
    requires n >= 1 && |s| == n + 6
    requires forall k :: 0 <= k < n ==> IsDigit(s[k])
    requires s[n] == ':' && IsDigit(s[n + 1]) && IsDigit(s[n + 2]) && s[n + 3] == ' '
    requires s[n + 4] == (if period.PM? then 'P' else 'A') && s[n + 5] == 'M'
    ensures Trim(ReplaceNbsp(s)) == s
    ensures FirstMatch(s, 0) == Some(TimeMatch(0, n, n + 3, period))
  {
    assert ReplaceNbsp(s) == s by {
      forall k | 0 <= k < |s| ensures s[k] != '\U{A0}' {
        if k < n {
          assert IsDigit(s[k]);
        }
      }
    }
    TrimOfTrimmed(s);
    MatchAtFormattedShape(s, n, period);
  }

  lemma MatchAtFormattedShape(s: string, n: nat, period: Period)
    requires n >= 1 && |s| == n + 6
    requires forall k :: 0 <= k < n ==> IsDigit(s[k])
    requires s[n] == ':' && IsDigit(s[n + 1]) && IsDigit(s[n + 2]) && s[n + 3] == ' '
    requires s[n + 4] == (if period.PM? then 'P' else 'A') && s[n + 5] == 'M'
    ensures MatchAt(s, 0) == Some(TimeMatch(0, n, n + 3, period))
  {
    var e1 := DigitRunEnd(s, 0);
    assert e1 == n;
    var e2 := DigitRunEnd(s, n + 1);
    assert e2 == n + 3;
    var e3 := SpaceRunEnd(s, n + 3);
    assert e3 == n + 4;
    assert SpaceRunEnd(s, n + 5) == n + 5;
    assert MarkerAt(s, n + 4) == Some(period);
  }

  /** Where each piece of `t:mm p` sits. */
  lemma ConcatLayout(t: string, mm: string, p: string)
    requires |t| >= 1 && AllDigits(t) && |mm| == 2 && AllDigits(mm) && |p| == 2
    ensures var s, n := t + ":" + mm + " " + p, |t|;
            && |s| == n + 6
            && (forall k :: 0 <= k < n ==> IsDigit(s[k]))
            && s[n] == ':' && IsDigit(s[n + 1]) && IsDigit(s[n + 2]) && s[n + 3] == ' '
            && s[n + 4] == p[0] && s[n + 5] == p[1]
            && s[0..n] == t && s[n + 1..n + 3] == mm
  {
    var s, n := t + ":" + mm + " " + p, |t|;
    assert forall k :: 0 <= k < n ==> s[k] == t[k];
  }

  /** The character layout of a formatted valid time. */
  lemma FormattedLayout(hours: int, minutes: int)
    requires 0 <= hours <= 23 && 0 <= minutes <= 59
    ensures var s, t := FormatTime(hours, minutes), NatToString(ClockHour(hours));
            var n := |t|;
            && n >= 1 && |s| == n + 6
            && (forall k :: 0 <= k < n ==> IsDigit(s[k]))
            && s[n] == ':' && IsDigit(s[n + 1]) && IsDigit(s[n + 2]) && s[n + 3] == ' '
            && s[n + 4] == (if hours >= 12 then 'P' else 'A') && s[n + 5] == 'M'
            && s[0..n] == t && s[n + 1..n + 3] == MinutesText(minutes)
  {
    FormatTimeFields(hours, minutes);
    ConcatLayout(NatToString(ClockHour(hours)), MinutesText(minutes), PeriodText(hours));
  }

  /** Parsing a formatted time gives back the time: `parseTime(formatTime(h, m)) == {h, m}`. */
  lemma ParseFormatRoundTrip(hours: int, minutes: int)
    requires 0 <= hours <= 23 && 0 <= minutes <= 59
    ensures ParseTime(FormatTime(hours, minutes)) == Clock(hours, minutes)
  {
    FormattedLayout(hours, minutes);
    FormatTimeFields(hours, minutes);
    var s := FormatTime(hours, minutes);
    var n := |NatToString(ClockHour(hours))|;
    var period := if hours >= 12 then PM else AM;
    MatchOfFormattedShape(s, n, period);
    var tm := TimeMatch(0, n, n + 3, period);
    assert ParseTime(s) == ToClock(s, tm);
    To24HourUndoesClockHour(hours);
  }

  /** The combining diacritical marks U+0300-U+036F that `normalizeDay` removes. */
  predicate IsCombiningMark(c: char) {
    0x300 <= c as int <= 0x36F
  }

  /** Canonical decomposition of the precomposed lowercase Latin-1 letters: base letter and mark. */
  const Decompositions: map<char, (char, char)> := map[
    '\U{E0}' := ('a', '\U{300}'), '\U{E1}' := ('a', '\U{301}'), '\U{E2}' := ('a', '\U{302}'),
    '\U{E3}' := ('a', '\U{303}'), '\U{E4}' := ('a', '\U{308}'), '\U{E5}' := ('a', '\U{30A}'),
    '\U{E7}' := ('c', '\U{327}'), '\U{E8}' := ('e', '\U{300}'), '\U{E9}' := ('e', '\U{301}'),
    '\U{EA}' := ('e', '\U{302}'), '\U{EB}' := ('e', '\U{308}'), '\U{EC}' := ('i', '\U{300}'),
    '\U{ED}' := ('i', '\U{301}'), '\U{EE}' := ('i', '\U{302}'), '\U{EF}' := ('i', '\U{308}'),
    '\U{F1}' := ('n', '\U{303}'), '\U{F2}' := ('o', '\U{300}'), '\U{F3}' := ('o', '\U{301}'),
    '\U{F4}' := ('o', '\U{302}'), '\U{F5}' := ('o', '\U{303}'), '\U{F6}' := ('o', '\U{308}'),
    '\U{F9}' := ('u', '\U{300}'), '\U{FA}' := ('u', '\U{301}'), '\U{FB}' := ('u', '\U{302}'),
    '\U{FC}' := ('u', '\U{308}'), '\U{FD}' := ('y', '\U{301}'), '\U{FF}' := ('y', '\U{308}')]

  /** Every modelled decomposition is a lowercase ASCII letter followed by a combining mark. */
  lemma DecompositionsWellFormed()
    ensures forall c :: c in Decompositions ==>
              'a' <= Decompositions[c].0 <= 'z' && IsCombiningMark(Decompositions[c].1)
  {
  }

  function Decompose(c: char): seq<char> {
    if '\U{E0}' <= c <= '\U{FF}' && c in Decompositions then [Decompositions[c].0, Decompositions[c].1] else [c]
  }

  /** `normalize("NFD")` over the modelled table. */
  function Nfd(s: string): string {
    if |s| == 0 then [] else Decompose(s[0]) + Nfd(s[1..])
  }

  predicate NotMark(c: char) {
    !IsCombiningMark(c)
  }

  /**
   * `replace(/[\u0300-\u036f]/g, "")`: keeps exactly the characters that are not marks,
   * in order and as often as they occur.
   */
  function StripMarks(s: string): (r: string)
    ensures r == Seqs.Filter(s, NotMark)
    ensures forall c :: c in r <==> c in s && !IsCombiningMark(c)
  {
    if |s| == 0 then []
    else
      var rest := StripMarks(s[1..]);
      assert forall c :: c in s <==> c == s[0] || c in s[1..];
      if IsCombiningMark(s[0]) then rest else [s[0]] + rest
  }

  lemma {:induction false} NfdKeepsLowercase(s: string)
    requires forall c :: c in s ==> LowerChar(c) == c
    ensures forall c :: c in Nfd(s) ==> LowerChar(c) == c
  {
    if |s| > 0 {
      DecompositionsWellFormed();
      assert s[0] in s;
      assert forall c :: c in s[1..] ==> c in s;
      NfdKeepsLowercase(s[1..]);
    }
  }

  /** Lowercasing, trimming, decomposing and dropping the marks leaves lowercase text with no mark. */
  lemma StripNfdTrimLowerIsPlain(day: string)
    ensures IsLowercase(StripMarks(Nfd(Trim(Lower(day)))))
    ensures var r := StripMarks(Nfd(Trim(Lower(day))));
            forall i :: 0 <= i < |r| ==> !IsCombiningMark(r[i])
  {
    var lowered := Lower(day);
    var trimmed := Trim(lowered);
    var r := StripMarks(Nfd(trimmed));
    LowerIsLowercase(day);
    TrimKeepsCharacters(lowered);
    assert forall c :: c in trimmed ==> LowerChar(c) == c by {
      forall c | c in trimmed ensures LowerChar(c) == c {
        var i :| 0 <= i < |lowered| && lowered[i] == c;
      }
    }
    NfdKeepsLowercase(trimmed);
    forall i | 0 <= i < |r| ensures LowerChar(r[i]) == r[i] && !IsCombiningMark(r[i]) {
      assert r[i] in r;
    }
  }

  /**
   * `normalizeDay`: lowercase, trim, decompose and drop the combining marks. The result
   * is lowercase and carries no mark in U+0300-U+036F.
   */
  function NormalizeDay(day: string): (r: string)
    ensures IsLowercase(r)
    ensures forall i :: 0 <= i < |r| ==> !IsCombiningMark(r[i])
  {
    StripNfdTrimLowerIsPlain(day);
    StripMarks(Nfd(Trim(Lower(day))))
  }

  lemma TrimKeepsCharacters(s: string)
    ensures forall c :: c in Trim(s) ==> c in s
  {
    var t := TrimStart(s);
    assert forall c :: c in TrimEnd(t) ==> c in t;
    assert forall c :: c in t ==> c in s;
  }

  lemma {:induction false} NfdConcat(a: string, b: string)
    ensures Nfd(a + b) == Nfd(a) + Nfd(b)
  {
    if |a| > 0 {
      assert (a + b)[1..] == a[1..] + b;
      NfdConcat(a[1..], b);
    } else {
      assert a + b == b;
    }
  }

  /** Text below U+00E0 has nothing to decompose. */
  lemma {:induction false} NfdBelowLatin1Letters(s: string)
    requires forall i :: 0 <= i < |s| ==> s[i] < '\U{E0}'
    ensures Nfd(s) == s
  {
    if |s| > 0 {
      NfdBelowLatin1Letters(s[1..]);
    }
  }

  lemma {:induction false} StripMarksConcat(a: string, b: string)
    ensures StripMarks(a + b) == StripMarks(a) + StripMarks(b)
  {
    if |a| == 0 {
      assert a + b == b;
    } else {
      assert (a + b)[1..] == a[1..] + b;
      StripMarksConcat(a[1..], b);
    }
  }

  lemma {:induction false} StripMarksPlain(s: string)
    requires forall i :: 0 <= i < |s| ==> !IsCombiningMark(s[i])
    ensures StripMarks(s) == s
  {
    if |s| > 0 {
      StripMarksPlain(s[1..]);
    }
  }

  /** One precomposed letter between unaccented text decomposes in place. */
  lemma NfdOneLetter(a: string, c: char, b: string)
    requires forall i :: 0 <= i < |a| ==> a[i] < '\U{E0}'
    requires forall i :: 0 <= i < |b| ==> b[i] < '\U{E0}'
    ensures Nfd(a + [c] + b) == a + Decompose(c) + b
  {
    var ac := a + [c];
    NfdConcat(ac, b);
    NfdConcat(a, [c]);
    NfdBelowLatin1Letters(a);
    NfdBelowLatin1Letters(b);
    assert [c][1..] == [];
    assert Nfd([c]) == Decompose(c);
    assert Nfd(ac) == a + Decompose(c);
  }

  /** One mark between plain text is dropped. */
  lemma StripOneMark(a: string, m: char, b: string)
    requires forall i :: 0 <= i < |a| ==> !IsCombiningMark(a[i])
    requires forall i :: 0 <= i < |b| ==> !IsCombiningMark(b[i])
    requires IsCombiningMark(m)
    ensures StripMarks(a + [m] + b) == a + b
  {
    var am := a + [m];
    StripMarksConcat(am, b);
    StripMarksConcat(a, [m]);
    StripMarksPlain(a);
    StripMarksPlain(b);
    assert [m][1..] == [];
    assert StripMarks([m]) == [];
    assert StripMarks(am) == a;
  }

  /** A stored Spanish day with capital, accent and trailing space normalizes to its key. */
  lemma NormalizeDayExample()
    ensures NormalizeDay("Mi\U{E9}rcoles ") == "miercoles"
  {
    NormalizeStoredMiercoles("Mi\U{E9}rcoles ");
  }

  lemma NormalizeStoredMiercoles(day: string)
    requires day == "Mi\U{E9}rcoles "
    ensures NormalizeDay(day) == "miercoles"
  {
    var word := Constants.Miercoles;
    assert Trim(Lower(day)) == word by {
      assert Lower(day) == word + " " by {
        assert |Lower(day)| == |word + " "|;
        forall i | 0 <= i < |day|
          ensures Lower(day)[i] == (word + " ")[i]
        {
        }
      }
      TrimOneTrailingSpace(word);
    }
    assert Trim(Lower(word)) == word by {
      assert Lower(word) == word by {
        forall i | 0 <= i < |word|
          ensures Lower(word)[i] == word[i]
        {
        }
      }
      TrimOfTrimmed(word);
    }
    assert NormalizeDay(word) == "miercoles" by {
      NormalizeMiercoles();
    }
  }

  /** Trimming removes one trailing space from a word. */
  lemma TrimOneTrailingSpace(w: string)
    requires |w| > 0 && !IsSpace(w[0]) && !IsSpace(w[|w| - 1])
    ensures Trim(w + " ") == w
  {
    var padded := w + " ";
    assert TrimStart(padded) == padded;
    assert padded[..|padded| - 1] == w;
    assert TrimEnd(padded) == TrimEnd(w);
    TrimOfTrimmed(w);
  }

  /** A string of unaccented lowercase letters is already normalized. */
  lemma NormalizeDayFixesPlainWords(s: string)
    requires |s| > 0
    requires forall i :: 0 <= i < |s| ==> 'a' <= s[i] <= 'z'
    ensures NormalizeDay(s) == s
  {
    var lowered := Lower(s);
    assert lowered == s;
    TrimOfTrimmed(s);
    NfdBelowLatin1Letters(s);
    StripMarksPlain(s);
  }

  /** The accented spellings lose their accent. */
  lemma NormalizeMiercoles()
    ensures NormalizeDay(Constants.Miercoles) == "miercoles"
  {
    var a, c, b := "mi", '\U{E9}', "rcoles";
    assert Decompose(c) == ['e', '\U{301}'];
    assert Constants.Miercoles == a + [c] + b;
    assert a + ['e'] + b == "miercoles";
    NormalizeOneAccent(a, c, b, 'e');
  }

  lemma NormalizeSabado()
    ensures NormalizeDay(Constants.Sabado) == "sabado"
  {
    var a, c, b := "s", '\U{E1}', "bado";
    assert Decompose(c) == ['a', '\U{301}'];
    assert Constants.Sabado == a + [c] + b;
    assert a + ['a'] + b == "sabado";
    NormalizeOneAccent(a, c, b, 'a');
  }

  /** A lowercase word with one precomposed letter inside is unchanged by lowering and trimming. */
  lemma AccentedWordIsTrimmedLowercase(a: string, c: char, b: string)
    requires |a| > 0 && |b| > 0
    requires forall i :: 0 <= i < |a| ==> 'a' <= a[i] <= 'z'
    requires forall i :: 0 <= i < |b| ==> 'a' <= b[i] <= 'z'
    requires '\U{DF}' < c
    ensures Trim(Lower(a + [c] + b)) == a + [c] + b
  {
    var w := a + [c] + b;
    assert Lower(w) == w by {
      assert forall i :: 0 <= i < |w| ==> LowerChar(w[i]) == w[i];
    }
    TrimOfTrimmed(w);
  }

  /**
   * A lowercase word with one precomposed acute letter normalizes to the word with
   * that letter's base in its place.
   */
  lemma NormalizeOneAccent(a: string, c: char, b: string, base: char)
    requires |a| > 0 && |b| > 0
    requires forall i :: 0 <= i < |a| ==> 'a' <= a[i] <= 'z'
    requires forall i :: 0 <= i < |b| ==> 'a' <= b[i] <= 'z'
    requires '\U{DF}' < c && Decompose(c) == [base, '\U{301}']
    requires 'a' <= base <= 'z'
    ensures NormalizeDay(a + [c] + b) == a + [base] + b
  {
    AccentedWordIsTrimmedLowercase(a, c, b);
    LowercaseNfd(a, c, b, base);
    LowercaseStripAcute(a, base, b);
  }

  /** Decomposing a lowercase word with one acute letter puts the base and the mark in its place. */
  lemma LowercaseNfd(a: string, c: char, b: string, base: char)
    requires forall i :: 0 <= i < |a| ==> 'a' <= a[i] <= 'z'
    requires forall i :: 0 <= i < |b| ==> 'a' <= b[i] <= 'z'
    requires Decompose(c) == [base, '\U{301}']
    ensures Nfd(a + [c] + b) == a + [base] + ['\U{301}'] + b
  {
    NfdOneLetter(a, c, b);
    assert a + [base, '\U{301}'] == a + [base] + ['\U{301}'];
  }

  /** Stripping the acute mark after `base` leaves the plain word. */
  lemma LowercaseStripAcute(a: string, base: char, b: string)
    requires forall i :: 0 <= i < |a| ==> 'a' <= a[i] <= 'z'
    requires forall i :: 0 <= i < |b| ==> 'a' <= b[i] <= 'z'
    requires 'a' <= base <= 'z'
    ensures StripMarks(a + [base] + ['\U{301}'] + b) == a + [base] + b
  {
    var ab := a + [base];
    assert forall i :: 0 <= i < |ab| ==> !IsCombiningMark(ab[i]) by {
      forall i | 0 <= i < |ab| ensures !IsCombiningMark(ab[i]) {
        if i < |a| { assert ab[i] == a[i]; } else { assert ab[i] == base; }
      }
    }
    assert forall i :: 0 <= i < |b| ==> !IsCombiningMark(b[i]);
    StripOneMark(ab, '\U{301}', b);
  }

  /** `DAY_TO_JS`: the JavaScript weekday (Sunday = 0) of each day key. */
  const DayToJs: map<string, int> := map[
    "domingo" := 0, "lunes" := 1, "martes" := 2, "miercoles" := 3, Constants.Miercoles := 3,
    "jueves" := 4, "viernes" := 5, "sabado" := 6, Constants.Sabado := 6]

  /** The weekday table and the display order table agree key for key. */
  lemma DayToJsIsDayOrder()
    ensures DayToJs == Constants.DayOrder
  {
  }

  /** Every key of the weekday table normalizes to a key with the same weekday. */
  lemma DayKeysNormalizeToSameDay(k: string)
    requires k in DayToJs
    ensures NormalizeDay(k) in DayToJs && DayToJs[NormalizeDay(k)] == DayToJs[k]
  {
    DayToJsIsDayOrder();
    if k == Constants.Miercoles {
      NormalizeMiercoles();
      Constants.AccentedDaysAgree();
    } else if k == Constants.Sabado {
      NormalizeSabado();
      Constants.AccentedDaysAgree();
    } else {
      CanonicalDaysNormalized();
      assert k in Constants.CanonicalDays;
    }
  }

  /** The seven canonical day keys are their own normal form. */
  lemma CanonicalDaysNormalized()
    ensures forall i :: 0 <= i < |Constants.CanonicalDays| ==>
              NormalizeDay(Constants.CanonicalDays[i]) == Constants.CanonicalDays[i]
  {
    forall i | 0 <= i < |Constants.CanonicalDays|
      ensures NormalizeDay(Constants.CanonicalDays[i]) == Constants.CanonicalDays[i]
    {
      var d := Constants.CanonicalDays[i];
      assert |d| > 0 && forall j :: 0 <= j < |d| ==> 'a' <= d[j] <= 'z';
      NormalizeDayFixesPlainWords(d);
    }
  }

  /**
   * The names a lowercased string can spell that a JavaScript object literal inherits
   * from `Object.prototype`: looking them up in `DAY_TO_JS` yields a non-nullish
   * non-number, so `??` does not fall back and the weekday arithmetic gives `NaN`.
   */
  const InheritedKeys: set<string> := {"constructor", "__proto__"}

  lemma DayToJsRange()
    ensures forall k :: k in DayToJs ==> 0 <= DayToJs[k] <= 6
  {
  }

  /** Going forward `(target - today + 7) % 7` days from `today` lands on `target`. */
  lemma WeekdayStep(target: int, today: int)
    requires 0 <= target <= 6 && 0 <= today <= 6
    ensures 0 <= (target - today + 7) % 7 < 7
    ensures (today + (target - today + 7) % 7) % 7 == target
  {
    if target >= today {
      assert (target - today + 7) % 7 == target - today;
    } else {
      assert (target - today + 7) % 7 == target - today + 7;
    }
  }

  /** Every day key is a short word starting with a lowercase letter. */
  lemma DayKeysAreShortWords()
    ensures forall d :: d in DayToJs ==> 0 < |d| <= 9 && 'a' <= d[0] <= 'z'
  {
    DayToJsIsDayOrder();
    Constants.DayTableKeys();
  }

  lemma InheritedKeysAreNotDays()
    ensures forall k :: k in InheritedKeys ==> k !in DayToJs
  {
    assert |"constructor"| == 11;
    NotADayKey("constructor");
    assert "__proto__"[0] == '_';
    NotADayKey("__proto__");
  }

  /** Text longer than nine characters, or not starting with a lowercase letter, is no day key. */
  lemma NotADayKey(k: string)
    requires |k| > 9 || (|k| > 0 && !('a' <= k[0] <= 'z'))
    ensures k !in DayToJs
  {
    DayKeysAreShortWords();
  }

  /**
   * The day offset of `getNextClassDate` as written: `None` stands for the invalid
   * date produced when the lookup hits an inherited property.
   */
  function NextClassOffsetAsWritten(dayName: string, today: int): (r: Option<int>)
    requires 0 <= today <= 6
    ensures r.None? <==> Lower(dayName) in InheritedKeys
  {
    InheritedKeysAreNotDays();
    var key := Lower(dayName);
    if key in DayToJs then Some((DayToJs[key] - today + 7) % 7)
    else if key in InheritedKeys then None
    else Some((today - today + 7) % 7)
  }

  /** A course whose day reads "Constructor" gets no next date at all. */
  lemma NextClassOffsetAsWrittenFails()
    ensures NextClassOffsetAsWritten("Constructor", 3).None?
  {
    assert Lower("Constructor") == "constructor";
  }

  /**
   * The weekday offset of `getNextClassDate` with the lookup restricted to the table's
   * own keys: the number of days from `today` (Sunday = 0) forward to the named day,
   * 0 when the name is not a key.
   */
  function NextClassOffset(dayName: string, today: int): (r: int)
    requires 0 <= today <= 6
    ensures 0 <= r < 7
    ensures Lower(dayName) in DayToJs ==> (today + r) % 7 == DayToJs[Lower(dayName)]
    ensures Lower(dayName) !in DayToJs ==> r == 0
  {
    var key := Lower(dayName);
    var target := if key in DayToJs then DayToJs[key] else today;
    DayToJsRange();
    WeekdayStep(target, today);
    (target - today + 7) % 7
  }

  /** Apart from the inherited names, the code as written computes the intended offset. */
  lemma NextClassOffsetAsWrittenAgrees(dayName: string, today: int)
    requires 0 <= today <= 6
    ensures NextClassOffsetAsWritten(dayName, today) == Some(NextClassOffset(dayName, today))
            <==> Lower(dayName) !in InheritedKeys
  {
  }

  /** From a Friday, the next Monday is three days ahead. */
  lemma NextClassOffsetExample()
    ensures NextClassOffset("Lunes", 5) == 3
  {
    assert Lower("Lunes") == "lunes";
  }

  /** The accented capitalised spelling is found, since lowercasing keeps the accent. */
  lemma NextClassOffsetAccented()
    ensures NextClassOffset("S\U{C1}BADO", 6) == 0
  {
    assert Lower("S\U{C1}BADO") == Constants.Sabado;
  }

  /** The lookup neither trims nor strips accents: a padded name falls back to today. */
  lemma NextClassOffsetUntrimmed()
    ensures NextClassOffset(" lunes", 5) == 0
  {
    assert Lower(" lunes") == " lunes";
    DayKeysAreShortWords();
    assert " lunes"[0] == ' ';
  }

  /** Text without any time falls back to 18:30. */
  lemma ParseTimeEmpty()
    ensures ParseTime("") == DefaultClock
  {
  }

  /** The first time of a range is the one read, and the dotted marker is accepted. */
  lemma ParseTimeRangeText()
    ensures ParseTime("6:30 p.m. - 8:30 p.m.") == Clock(18, 30)
  {
    ParseRangeText("6:30 p.m. - 8:30 p.m.");
  }

  lemma ParseRangeText(s: string)
    requires s == "6:30 p.m. - 8:30 p.m."
    ensures ParseTime(s) == Clock(18, 30)
  {
    var m := TimeMatch(0, 1, 4, PM);
    assert ParseTime(s) == ToClock(s, m) by {
      RangeTextClean(s);
      RangeTextMatch(s);
      ParseTimeAtStart(s, m);
    }
    assert ToClock(s, m) == Clock(18, 30) by {
      RangeTextClock(s);
    }
  }

  lemma RangeTextClock(s: string)
    requires s == "6:30 p.m. - 8:30 p.m."
    ensures WellFormedMatch(s, TimeMatch(0, 1, 4, PM)) && ToClock(s, TimeMatch(0, 1, 4, PM)) == Clock(18, 30)
  {
    RangeTextMatch(s);
    assert s[0..1] == "6" && s[2..4] == "30";
    DecimalValueExamples();
  }

  lemma RangeTextClean(s: string)
    requires s == "6:30 p.m. - 8:30 p.m."
    ensures Trim(ReplaceNbsp(s)) == s
  {
    assert ReplaceNbsp(s) == s;
    TrimOfTrimmed(s);
  }

  /** Clean text reads as its leftmost time, wherever that time starts. */
  lemma ParseTimeLeftmost(s: string, q: nat, m: TimeMatch)
    requires Trim(ReplaceNbsp(s)) == s
    requires q <= |s| && MatchAt(s, q) == Some(m)
    requires forall p :: 0 <= p < q ==> MatchAt(s, p).None?
    ensures WellFormedMatch(s, m) && ParseTime(s) == ToClock(s, m)
  {
  }

  /** A day name before the time, as course times are stored, is skipped: "Lunes 6:30 pm" reads as 18:30. */
  lemma ParseTimeAfterDayName()
    ensures ParseTime("Lunes 6:30 pm") == Clock(18, 30)
  {
    ParseDayNameText("Lunes 6:30 pm");
  }

  lemma ParseDayNameText(s: string)
    requires s == "Lunes 6:30 pm"
    ensures ParseTime(s) == Clock(18, 30)
  {
    var m := TimeMatch(6, 7, 10, PM);
    assert ParseTime(s) == ToClock(s, m) by {
      DayNameTextClean(s);
      DayNameTextNoEarlierMatch(s);
      DayNameTextMatch(s);
      ParseTimeLeftmost(s, 6, m);
    }
    DayNameTextClock(s);
  }

  lemma DayNameTextClock(s: string)
    requires s == "Lunes 6:30 pm"
    ensures WellFormedMatch(s, TimeMatch(6, 7, 10, PM)) && ToClock(s, TimeMatch(6, 7, 10, PM)) == Clock(18, 30)
  {
    DayNameTextMatch(s);
    assert s[6..7] == "6" && s[8..10] == "30";
    DecimalValueExamples();
  }

  lemma DayNameTextClean(s: string)
    requires s == "Lunes 6:30 pm"
    ensures Trim(ReplaceNbsp(s)) == s
  {
    assert ReplaceNbsp(s) == s;
    TrimOfTrimmed(s);
  }

  lemma DayNameTextNoEarlierMatch(s: string)
    requires s == "Lunes 6:30 pm"
    ensures forall p :: 0 <= p < 6 ==> MatchAt(s, p).None?
  {
    forall p | 0 <= p < 6
      ensures MatchAt(s, p).None?
    {
      assert !IsDigit(s[p]);
      DigitRunEndIs(s, p, p);
    }
  }

  lemma DayNameTextMatch(s: string)
    requires s == "Lunes 6:30 pm"
    ensures MatchAt(s, 6) == Some(TimeMatch(6, 7, 10, PM))
  {
    assert IsDigit(s[6]) && s[7] == ':';
    DigitRunEndIs(s, 6, 7);
    assert IsDigit(s[8]) && IsDigit(s[9]) && s[10] == ' ';
    DigitRunEndIs(s, 8, 10);
    assert s[11] == 'p' && s[12] == 'm';
    assert SpaceRunEnd(s, 12) == 12;
    assert MarkerAt(s, 11) == Some(PM);
  }

  /** Clean text that starts with a time reads as that time. */
  lemma ParseTimeAtStart(s: string, m: TimeMatch)
    requires Trim(ReplaceNbsp(s)) == s && MatchAt(s, 0) == Some(m)
    ensures WellFormedMatch(s, m) && ParseTime(s) == ToClock(s, m)
  {
  }

  /** A run of digits ends at the first non-digit. */
  lemma {:induction false} DigitRunEndIs(s: string, i: nat, j: nat)
    requires i <= j <= |s|
    requires forall k :: i <= k < j ==> IsDigit(s[k])
    requires j == |s| || !IsDigit(s[j])
    ensures DigitRunEnd(s, i) == j
    decreases j - i
  {
    if i < j {
      DigitRunEndIs(s, i + 1, j);
    }
  }

  lemma RangeTextMatch(s: string)
    requires s == "6:30 p.m. - 8:30 p.m."
    ensures MatchAt(s, 0) == Some(TimeMatch(0, 1, 4, PM))
  {
    RangeTextRuns(s);
    RangeTextMarker(s);
    MatchAtFromRuns(s, 1, 4, 5, PM);
  }

  lemma RangeTextRuns(s: string)
    requires s == "6:30 p.m. - 8:30 p.m."
    ensures |s| == 21 && s[1] == ':'
    ensures DigitRunEnd(s, 0) == 1 && DigitRunEnd(s, 2) == 4 && SpaceRunEnd(s, 4) == 5
  {
    assert IsDigit(s[0]) && s[1] == ':';
    DigitRunEndIs(s, 0, 1);
    assert IsDigit(s[2]) && IsDigit(s[3]) && s[4] == ' ';
    DigitRunEndIs(s, 2, 4);
    assert s[5] == 'p';
  }

  lemma RangeTextMarker(s: string)
    requires s == "6:30 p.m. - 8:30 p.m."
    ensures MarkerAt(s, 5) == Some(PM)
  {
    assert s[5] == 'p' && s[6] == '.' && s[7] == 'm';
    assert SpaceRunEnd(s, 7) == 7;
  }

  /** The match at the start is read off the digit, space and marker runs. */
  lemma MatchAtFromRuns(s: string, hoursEnd: nat, minutesEnd: nat, markerPos: nat, period: Period)
    requires 0 < hoursEnd < minutesEnd - 1 && minutesEnd <= markerPos <= |s|
    requires DigitRunEnd(s, 0) == hoursEnd && s[hoursEnd] == ':'
    requires DigitRunEnd(s, hoursEnd + 1) == minutesEnd
    requires SpaceRunEnd(s, minutesEnd) == markerPos && MarkerAt(s, markerPos) == Some(period)
    ensures MatchAt(s, 0) == Some(TimeMatch(0, hoursEnd, minutesEnd, period))
  {
  }


  lemma DecimalValueExamples()
    ensures DecimalValue("6") == 6 && DecimalValue("30") == 30
  {
    assert "30"[..1] == "3";
  }

  /** The marker ignores case, and a dot and spaces may separate its two letters. */
  lemma MarkerSpellings()
    ensures MarkerAt("p. m.", 0) == Some(PM)
    ensures MarkerAt("P.M.", 0) == Some(PM)
    ensures MarkerAt("am", 0) == Some(AM)
    ensures MarkerAt("a .m", 0) == None
    ensures MarkerAt("hm", 0) == None
  {
  }
}
