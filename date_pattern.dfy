/** The query rewrite of `MongoEntityProcessor.replaceDateTimeToISODateTime`:
    every match of `Date_PATTERN`, scanning left to right without overlap,
    is replaced by its first ten characters, `T`, the rest of the match and
    `Z`, and the replacement goes through `Matcher.appendReplacement`, which
    treats `\` as an escape character. */
module DatePattern {
  import opened Documents
  import opened JavaText

  /** `[-|\\/]`: the four separator characters of the date part. */
  predicate IsSeparator(c: char) {
    c == '-' || c == '|' || c == '\\' || c == '/'
  }

  /** The character `c` at `i`. */
  function CharAt(s: string, i: nat, c: char): (r: Option<nat>)
    ensures r.Some? ==> r.value == i + 1 <= |s|
  {
    if i < |s| && s[i] == c then Some(i + 1) else None
  }

  /** One of the separators at `i`. */
  function SeparatorAt(s: string, i: nat): (r: Option<nat>)
    ensures r.Some? ==> r.value == i + 1 <= |s|
  {
    if i < |s| && IsSeparator(s[i]) then Some(i + 1) else None
  }

  /** `\d{4}`. */
  function FourDigitsAt(s: string, i: nat): (r: Option<nat>)
    ensures r.Some? ==> r.value == i + 4 <= |s|
  {
    if i + 4 <= |s| && AllDigits(s[i..i + 4]) then Some(i + 4) else None
  }

  /** `\d{1,2}`, greedy. Every token that follows one in the pattern is a
      non-digit, so backtracking to a single digit never rescues a match:
      taking two digits when there are two is the only choice that can
      succeed, and the match is deterministic. */
  function OneOrTwoDigitsAt(s: string, i: nat): (r: Option<nat>)
    ensures r.Some? ==> i + 1 <= r.value <= i + 2 && r.value <= |s|
  {
    if i < |s| && IsDigit(s[i]) then
      if i + 1 < |s| && IsDigit(s[i + 1]) then Some(i + 2) else Some(i + 1)
    else None
  }

  /** Where a match of `\d{4}[-|\\/]\d{1,2}[-|\\/]\d{1,2} \d{1,2}:\d{1,2}:\d{1,2}`
      starting at `i` ends, if there is one. */
  function MatchEnd(s: string, i: nat): (r: Option<nat>)
    ensures r.Some? ==> i + 14 <= r.value <= i + 19 && r.value <= |s|
  {
    var year :- FourDigitsAt(s, i);
    var sep1 :- SeparatorAt(s, year);
    var month :- OneOrTwoDigitsAt(s, sep1);
    var sep2 :- SeparatorAt(s, month);
    var day :- OneOrTwoDigitsAt(s, sep2);
    var space :- CharAt(s, day, ' ');
    var hour :- OneOrTwoDigitsAt(s, space);
    var colon1 :- CharAt(s, hour, ':');
    var minute :- OneOrTwoDigitsAt(s, colon1);
    var colon2 :- CharAt(s, minute, ':');
    OneOrTwoDigitsAt(s, colon2)
  }

  /** `Matcher.find` from `from`: the first position at which a match starts. */
  function FirstMatch(s: string, from: nat): (r: Option<nat>)
    ensures r.Some? ==> from <= r.value && MatchEnd(s, r.value).Some?
    ensures r.Some? ==> forall i | from <= i < r.value :: MatchEnd(s, i).None?
    ensures r.None? ==> forall i | from <= i :: MatchEnd(s, i).None?
    decreases |s| - from
  {
    if from >= |s| then
      NoMatchPastEnd(s, from);
      None
    else if MatchEnd(s, from).Some? then Some(from)
    else FirstMatch(s, from + 1)
  }

  /** No match starts at the end of the text or beyond it. */
  lemma NoMatchPastEnd(s: string, from: nat)
    requires from >= |s|
    ensures forall i | from <= i :: MatchEnd(s, i).None?
  {
  }

  /** The replacement `appendReplacement` appends for `t`: a backslash makes
      the next character literal and is itself dropped; a trailing backslash
      is an error. `appendReplacement` also reads `$` as a group reference;
      `Unescape` copies it literally, which is the same here because a match
      of the date pattern holds no `$`. */
  function Unescape(t: string): (r: Option<string>)
    ensures t == [] ==> r == Some([])
    ensures t == ['\\'] ==> r.None?
    ensures r.Some? ==> |r.value| <= |t|
  {
    if t == [] then Some([])
    else if t[0] == '\\' then
      if |t| == 1 then None
      else
        var rest :- Unescape(t[2..]);
        Some([t[1]] + rest)
    else
      var rest :- Unescape(t[1..]);
      Some([t[0]] + rest)
  }

  /** Without backslashes the replacement is appended as it is. */
  lemma {:induction false} UnescapePlain(t: string)
    requires '\\' !in t
    ensures Unescape(t) == Some(t)
  {
    if t != [] {
      UnescapePlain(t[1..]);
      assert [t[0]] + t[1..] == t;
    }
  }

  /** A replacement that does not end in a backslash never fails, and it
      never grows. */
  lemma {:induction false} UnescapeDefined(t: string)
    requires t != [] && t[|t| - 1] != '\\'
    ensures Unescape(t).Some? && |Unescape(t).value| <= |t|
  {
    if t[0] == '\\' {
      if |t| > 2 {
        UnescapeDefined(t[2..]);
      }
    } else if |t| > 1 {
      UnescapeDefined(t[1..]);
    }
  }

  /** `srcStr.substring(0, 10) + "T" + srcStr.substring(11) + "Z"`. */
  function Iso(src: string): (r: string)
    requires |src| >= 11
    ensures |r| == |src| + 1
  {
    src[..10] + "T" + src[11..] + "Z"
  }

  /** The text a match contributes to the result. */
  function Replacement(src: string): (r: string)
    requires |src| >= 11
  {
    Unescape(Iso(src)).GetOr("")
  }

  /** Without a backslash in the match its replacement is exactly one
      character longer than the match. */
  lemma ReplacementLength(src: string)
    requires |src| >= 11 && '\\' !in src
    ensures |Replacement(src)| == |src| + 1
  {
    assert '\\' !in src[..10] && '\\' !in src[11..];
    assert '\\' !in Iso(src);
    UnescapePlain(Iso(src));
  }

  /** The rewritten text from `from` on: the text up to the next match is
      copied, the match replaced, and the scan resumes after the match. */
  function Rewritten(s: string, from: nat): string
    requires from <= |s|
    decreases |s| - from
  {
    match FirstMatch(s, from)
    case None => s[from..]
    case Some(start) =>
      var end := MatchEnd(s, start).value;
      s[from..start] + Replacement(s[start..end]) + Rewritten(s, end)
  }

  /** `replaceDateTimeToISODateTime`: the `find` / `appendReplacement` loop
      followed by `appendTail`. */
  method ReplaceDateTimeToISODateTime(s: string) returns (r: string)
    ensures r == Rewritten(s, 0)
  {
    var sb := "";
    var position := 0;
    while true
      invariant position <= |s|
      invariant sb + Rewritten(s, position) == Rewritten(s, 0)
      decreases |s| - position
    {
      var found := FirstMatch(s, position);
      if found.None? {
        break;
      }
      var start := found.value;
      var end := MatchEnd(s, start).value;
      var srcStr := s[start..end];
      var dstStr := srcStr[..10] + "T" + srcStr[11..] + "Z";
      var replacement := Unescape(dstStr);
      UnescapeDefined(dstStr);
      sb := sb + s[position..start] + replacement.value;
      position := end;
    }
    r := sb + s[position..];
  }

  /** Text without any match is returned unchanged. */
  lemma NoMatchUnchanged(s: string)
    requires forall i | 0 <= i < |s| :: MatchEnd(s, i).None?
    ensures Rewritten(s, 0) == s
  {
    assert FirstMatch(s, 0).None?;
  }

  /** Text without a digit holds no match. */
  lemma DigitFreeHasNoMatch(s: string, i: nat)
    requires forall j | 0 <= j < |s| :: !IsDigit(s[j])
    ensures MatchEnd(s, i).None?
  {
    if i + 4 <= |s| {
      assert !IsDigit(s[i..i + 4][0]);
    }
  }

  /** The shape of a zero-padded `YYYY-MM-DD hh:mm:ss` at `i`. */
  predicate PaddedDateTimeAt(s: string, i: nat) {
    i + 19 <= |s|
    && AllDigits(s[i..i + 4]) && IsSeparator(s[i + 4]) && s[i + 4] != '\\'
    && IsDigit(s[i + 5]) && IsDigit(s[i + 6]) && IsSeparator(s[i + 7]) && s[i + 7] != '\\'
    && IsDigit(s[i + 8]) && IsDigit(s[i + 9]) && s[i + 10] == ' '
    && IsDigit(s[i + 11]) && IsDigit(s[i + 12]) && s[i + 13] == ':'
    && IsDigit(s[i + 14]) && IsDigit(s[i + 15]) && s[i + 16] == ':'
    && IsDigit(s[i + 17]) && IsDigit(s[i + 18])
  }

  /** A zero-padded date-time is one whole match, nineteen characters long. */
  lemma PaddedMatch(s: string, i: nat)
    requires PaddedDateTimeAt(s, i)
    ensures MatchEnd(s, i) == Some(i + 19)
  {
    assert FourDigitsAt(s, i) == Some(i + 4);
    assert OneOrTwoDigitsAt(s, i + 5) == Some(i + 7);
    assert OneOrTwoDigitsAt(s, i + 8) == Some(i + 10);
    assert OneOrTwoDigitsAt(s, i + 11) == Some(i + 13);
    assert OneOrTwoDigitsAt(s, i + 14) == Some(i + 16);
    assert OneOrTwoDigitsAt(s, i + 17) == Some(i + 19);
  }

  /** ...and it becomes `YYYY-MM-DDThh:mm:ssZ`: the space turns into `T`
      and a `Z` follows, one character longer than the match. */
  lemma PaddedReplacement(s: string, i: nat)
    requires PaddedDateTimeAt(s, i)
    ensures Replacement(s[i..i + 19]) == s[i..i + 10] + "T" + s[i + 11..i + 19] + "Z"
    ensures |Replacement(s[i..i + 19])| == 20
  {
    var src := s[i..i + 19];
    assert src[..10] == s[i..i + 10] && src[11..] == s[i + 11..i + 19];
    assert forall j | 0 <= j < |Iso(src)| :: Iso(src)[j] != '\\' by {
      forall j | 0 <= j < |Iso(src)|
        ensures Iso(src)[j] != '\\'
      {
        if j < 4 {
          assert Iso(src)[j] == s[i..i + 4][j];
        }
      }
    }
    UnescapePlain(Iso(src));
  }

  /** No match starts at a position that holds no digit. */
  lemma NoMatchAtNonDigit(s: string, i: nat)
    requires i < |s| ==> !IsDigit(s[i])
    ensures MatchEnd(s, i).None?
  {
    if i + 4 <= |s| {
      assert s[i..i + 4][0] == s[i];
    }
  }

  lemma PaddedInContext(before: string, date: string, after: string)
    requires PaddedDateTimeAt(date, 0) && |date| == 19
    ensures PaddedDateTimeAt(before + date + after, |before|)
  {
    var s := before + date + after;
    var n := |before|;
    assert s[n..n + 4] == date[0..4];
    forall j | 4 <= j < 19
      ensures s[n + j] == date[j]
    {
    }
  }

  /** No match starts in a stretch of text without digits. */
  lemma NoMatchInDigitFree(s: string, lo: nat, hi: nat)
    requires lo <= hi <= |s|
    requires forall j | lo <= j < hi :: !IsDigit(s[j])
    ensures forall i | lo <= i < hi :: MatchEnd(s, i).None?
  {
    forall i | lo <= i < hi
      ensures MatchEnd(s, i).None?
    {
      NoMatchAtNonDigit(s, i);
    }
  }

  /** The digits of `before + date + after` outside the date are those of
      `before` and `after`. */
  lemma DigitFreeAround(before: string, date: string, after: string)
    requires forall j | 0 <= j < |before| :: !IsDigit(before[j])
    requires forall j | 0 <= j < |after| :: !IsDigit(after[j])
    ensures var s := before + date + after;
      (forall j | 0 <= j < |before| :: !IsDigit(s[j]))
      && (forall j | |before| + |date| <= j < |s| :: !IsDigit(s[j]))
  {
    var s := before + date + after;
    assert forall j | 0 <= j < |before| :: s[j] == before[j];
    assert forall j | |before| + |date| <= j < |s| :: s[j] == after[j - |before| - |date|];
  }

  /** A zero-padded date-time surrounded by text without digits is rewritten
      in place and the surrounding text is kept as it is. */
  lemma PaddedRewrite(before: string, date: string, after: string)
    requires forall j | 0 <= j < |before| :: !IsDigit(before[j])
    requires forall j | 0 <= j < |after| :: !IsDigit(after[j])
    requires PaddedDateTimeAt(date, 0) && |date| == 19
    ensures Rewritten(before + date + after, 0) == before + (date[..10] + "T" + date[11..] + "Z") + after
  {
    PaddedDateReplacement(date);
    RewriteAround(before, date, after);
  }

  /** A whole padded date-time is replaced by its ISO form. */
  lemma PaddedDateReplacement(date: string)
    requires PaddedDateTimeAt(date, 0) && |date| == 19
    ensures Replacement(date) == date[..10] + "T" + date[11..] + "Z"
  {
    PaddedReplacement(date, 0);
    assert date[0..19] == date;
  }

  /** The date-time is the only match: the text around it is copied and the
      date-time is replaced. */
  lemma RewriteAround(before: string, date: string, after: string)
    requires forall j | 0 <= j < |before| :: !IsDigit(before[j])
    requires forall j | 0 <= j < |after| :: !IsDigit(after[j])
    requires PaddedDateTimeAt(date, 0) && |date| == 19
    ensures Rewritten(before + date + after, 0) == before + Replacement(date) + after
  {
    var s := before + date + after;
    var n := |before|;
    PaddedInContext(before, date, after);
    DigitFreeAround(before, date, after);
    FirstMatchIsPadded(s, n);
    RewrittenAtMatch(s, 0, n, n + 19);
    assert s[n + 19..] == after;
    TailAfterMatch(s, n + 19, after);
    assert s[0..n] == before;
    assert s[n..n + 19] == date;
  }

  /** One step of the rewrite: the text up to the first match, its
      replacement, and the rewrite of what follows the match. */
  lemma RewrittenAtMatch(s: string, from: nat, start: nat, end: nat)
    requires from <= |s| && FirstMatch(s, from) == Some(start) && MatchEnd(s, start) == Some(end)
    ensures end <= |s|
    ensures Rewritten(s, from) == s[from..start] + Replacement(s[start..end]) + Rewritten(s, end)
  {
  }

  /** In text without digits before a padded date-time, `find` stops at it. */
  lemma FirstMatchIsPadded(s: string, n: nat)
    requires PaddedDateTimeAt(s, n)
    requires forall j | 0 <= j < n :: !IsDigit(s[j])
    ensures FirstMatch(s, 0) == Some(n) && MatchEnd(s, n) == Some(n + 19)
  {
    NoMatchInDigitFree(s, 0, n);
    PaddedMatch(s, n);
    FirstMatchFrom(s, 0, n);
  }

  /** Digit-free text after the match is appended as it is. */
  lemma TailAfterMatch(s: string, end: nat, after: string)
    requires end <= |s| && s[end..] == after
    requires forall j | end <= j < |s| :: !IsDigit(s[j])
    ensures Rewritten(s, end) == after
  {
    NoMatchInDigitFree(s, end, |s|);
    assert FirstMatch(s, end).None? by {
      forall i | end <= i
        ensures MatchEnd(s, i).None?
      {
        if |s| <= i {
          NoMatchAtNonDigit(s, i);
        }
      }
    }
  }

  /** The first match from `from` is the first position with a match. */
  lemma {:induction false} FirstMatchFrom(s: string, from: nat, at: nat)
    requires from <= at < |s| && MatchEnd(s, at).Some?
    requires forall i | from <= i < at :: MatchEnd(s, i).None?
    ensures FirstMatch(s, from) == Some(at)
    decreases at - from
  {
    if from < at {
      FirstMatchFrom(s, from + 1, at);
    }
  }

  /** With a one-digit month or day the date part is shorter than ten
      characters, so the fixed offsets cut the wrong character: the space
      stays, a `T` is written at index 10, and the character that was there
      (a digit of the hour, or the first colon) is dropped. */
  lemma ShortDateKeepsSpace(src: string)
    requires MatchEnd(src, 0) == Some(|src|) && '\\' !in src
    requires src[10] != ' '
    ensures Replacement(src) == src[..10] + "T" + src[11..] + "Z"
    ensures ' ' in Replacement(src)[..10] && Replacement(src)[10] == 'T'
    ensures IsDigit(src[10]) || src[10] == ':'
  {
    ShortDateShape(src);
    assert '\\' !in src[..10] && '\\' !in src[11..];
    assert '\\' !in Iso(src);
    UnescapePlain(Iso(src));
    assert Replacement(src)[..10] == src[..10];
  }

  /** Where the space of a match with a short date part lies, and what
      follows it at index 10. */
  lemma ShortDateShape(src: string)
    requires MatchEnd(src, 0) == Some(|src|)
    requires src[10] != ' '
    ensures ' ' in src[..10]
    ensures IsDigit(src[10]) || src[10] == ':'
  {
    var month := OneOrTwoDigitsAt(src, 5).value;
    var day := OneOrTwoDigitsAt(src, month + 1).value;
    assert src[day] == ' ' && day < 10;
    assert src[..10][day] == ' ';
    var hour := OneOrTwoDigitsAt(src, day + 1).value;
    assert hour <= 10 ==> src[hour] == ':';
  }

  /** With a one-digit month the space is kept and the first digit of the
      hour is dropped. */
  lemma SingleDigitMonthLosesHourDigit()
    ensures MatchEnd("2020-1-05 10:20:30", 0) == Some(18)
    ensures Replacement("2020-1-05 10:20:30") == "2020-1-05 T0:20:30Z"
  {
    SingleDigitMonthMatch();
    SingleDigitMonthReplacement();
  }

  lemma SingleDigitMonthReplacement()
    ensures Replacement("2020-1-05 10:20:30") == "2020-1-05 T0:20:30Z"
  {
    var iso := "2020-1-05 T0:20:30Z";
    assert Iso("2020-1-05 10:20:30") == iso;
    assert forall j | 0 <= j < |iso| :: iso[j] != '\\';
    UnescapePlain(iso);
  }

  /** "2020-1-05 10:20:30" is one match of eighteen characters. */
  lemma SingleDigitMonthMatch()
    ensures MatchEnd("2020-1-05 10:20:30", 0) == Some(18)
  {
    var s := "2020-1-05 10:20:30";
    assert FourDigitsAt(s, 0) == Some(4);
    assert OneOrTwoDigitsAt(s, 5) == Some(6);
    assert OneOrTwoDigitsAt(s, 7) == Some(9);
    assert OneOrTwoDigitsAt(s, 10) == Some(12);
    assert OneOrTwoDigitsAt(s, 13) == Some(15);
    assert OneOrTwoDigitsAt(s, 16) == Some(18);
  }

  lemma {:induction false} UnescapePlainPrefix(a: string, b: string)
    requires '\\' !in a && Unescape(b).Some?
    ensures Unescape(a + b) == Some(a + Unescape(b).value)
  {
    if a == [] {
      assert a + b == b && a + Unescape(b).value == Unescape(b).value;
    } else {
      var t := a + b;
      assert t[0] == a[0] && a[0] != '\\';
      assert t[1..] == a[1..] + b;
      assert '\\' !in a[1..] by {
        assert forall x | x in a[1..] :: x in a;
      }
      UnescapePlainPrefix(a[1..], b);
      var rest := Unescape(b).value;
      assert Unescape(t[1..]) == Some(a[1..] + rest);
      assert [a[0]] + (a[1..] + rest) == a + rest;
    }
  }

  lemma UnescapeEscaped(c: char, b: string)
    requires Unescape(b).Some?
    ensures Unescape(['\\', c] + b) == Some([c] + Unescape(b).value)
  {
    assert (['\\', c] + b)[2..] == b;
  }

  /** Backslash separators are eaten by `appendReplacement`: a match
      `yyyy\\MM\\dd hh:mm:ss` becomes `yyyyMMddThh:mm:ssZ`. */
  lemma BackslashSeparatorsDropped(year: string, m0: char, m1: char, d0: char, d1: char, time: string)
    requires |year| == 4 && '\\' !in year && '\\' !in time
    requires m0 != '\\' && m1 != '\\' && d0 != '\\' && d1 != '\\'
    ensures Replacement(year + ['\\', m0, m1, '\\', d0, d1, ' '] + time)
      == year + [m0, m1, d0, d1] + "T" + time + "Z"
  {
    var src := year + ['\\', m0, m1, '\\', d0, d1, ' '] + time;
    var tail := [d1] + ("T" + time + "Z");
    var escaped := ['\\', m0] + ([m1] + (['\\', d0] + tail));
    assert Iso(src) == year + escaped by {
      assert src[..10] == year + ['\\', m0, m1, '\\', d0, d1];
      assert src[11..] == time;
    }
    EscapedSeparators(year, m0, m1, d0, tail);
    Regroup(year, m0, m1, d0, d1, "T" + time + "Z");
  }

  /** The two escaped separators of a date part are dropped. */
  lemma EscapedSeparators(year: string, m0: char, m1: char, d0: char, tail: string)
    requires '\\' !in year && '\\' !in tail && m1 != '\\'
    ensures Unescape(year + (['\\', m0] + ([m1] + (['\\', d0] + tail))))
      == Some(year + ([m0] + ([m1] + ([d0] + tail))))
  {
    var u1 := ['\\', d0] + tail;
    var u2 := [m1] + u1;
    var u3 := ['\\', m0] + u2;
    assert Unescape(u1) == Some([d0] + tail) by {
      UnescapePlain(tail);
      UnescapeEscaped(d0, tail);
    }
    assert Unescape(u2) == Some([m1] + ([d0] + tail)) by {
      UnescapePlainPrefix([m1], u1);
    }
    assert Unescape(u3) == Some([m0] + ([m1] + ([d0] + tail))) by {
      UnescapeEscaped(m0, u2);
    }
    UnescapePlainPrefix(year, u3);
  }

  lemma Regroup(year: string, m0: char, m1: char, d0: char, d1: char, rest: string)
    ensures year + ([m0] + ([m1] + ([d0] + ([d1] + rest)))) == year + [m0, m1, d0, d1] + rest
  {
    assert [m0] + ([m1] + ([d0] + ([d1] + rest))) == [m0, m1, d0, d1] + rest;
  }
}
