/** Date reformatting shared by the older data source and the newer mapper
    transformer: a configured `SimpleDateFormat` parses a string, and the
    date is rendered again with the Solr pattern `yyyy-MM-dd'T'HH:mm:ss'Z'`.
    Parsing with an arbitrary pattern belongs to the Java library and is a
    parameter here; the Solr rendering is written out. */
module Dates {
  import opened Documents
  import opened JavaText

  /** The calendar fields the Solr pattern prints (local wall-clock time). */
  datatype DateTime = DateTime(year: nat, month: nat, day: nat, hour: nat, minute: nat, second: nat)

  /** A `java.util.Date` always denotes an existing instant, so its fields
      are in range. */
  predicate Valid(d: DateTime) {
    1 <= d.month <= 12 && 1 <= d.day <= 31 && d.hour < 24 && d.minute < 60 && d.second < 60
  }

  /** `SimpleDateFormat.parse` with a configured pattern; `None` is a
      `ParseException`. */
  type Parser = (string, string) -> Option<DateTime>

  function Pow10(w: nat): (p: nat)
    ensures p >= 1
  {
    if w == 0 then 1 else 10 * Pow10(w - 1)
  }

  /** The last `w` decimal digits of `n`, zero-padded on the left: a pattern
      letter repeated `w` times. */
  function Digits(n: nat, w: nat): (s: string)
    ensures |s| == w && AllDigits(s)
  {
    if w == 0 then "" else Digits(n / 10, w - 1) + [DigitChar(n % 10)]
  }

  lemma {:induction false} DigitsValueOfDigits(n: nat, w: nat)
    requires n < Pow10(w)
    ensures DigitsValue(Digits(n, w)) == n
  {
    if w > 0 {
      var q, d := n / 10, n % 10;
      assert n == 10 * q + d;
      assert q < Pow10(w - 1);
      DigitsValueOfDigits(q, w - 1);
      var s := Digits(n, w);
      assert s == Digits(q, w - 1) + [DigitChar(d)];
      assert s[..|s| - 1] == Digits(q, w - 1);
      assert DigitValue(s[|s| - 1]) == d;
    }
  }

  /** `yyyy`: at least four digits, never truncated. */
  function YearText(y: nat): (s: string)
    ensures AllDigits(s)
    ensures y < 10000 ==> |s| == 4
  {
    if y < 10000 then Digits(y, 4) else NatToString(y)
  }

  /** Three fields with a one-character separator after each of the first two. */
  function Fields3(a: string, x: char, b: string, y: char, c: string): (r: string)
    ensures |r| == |a| + |b| + |c| + 2
    ensures r[|a|] == x && r[|a| + |b| + 1] == y
  {
    a + [x] + b + [y] + c
  }

  /** `yyyy-MM-dd`. */
  function DateText(d: DateTime): string {
    Fields3(YearText(d.year), '-', Digits(d.month, 2), '-', Digits(d.day, 2))
  }

  /** `HH:mm:ss`. */
  function TimeText(d: DateTime): string {
    Fields3(Digits(d.hour, 2), ':', Digits(d.minute, 2), ':', Digits(d.second, 2))
  }

  /** `SOLR_DATE_FORMAT` = `yyyy-MM-dd'T'HH:mm:ss'Z'`. */
  function FormatSolr(d: DateTime): (r: string)
    ensures |r| == |YearText(d.year)| + 16 && (d.year < 10000 ==> |r| == 20)
    ensures r[|r| - 10] == 'T' && r[|r| - 1] == 'Z'
    ensures r[|r| - 16] == '-' && r[|r| - 13] == '-' && r[|r| - 7] == ':' && r[|r| - 4] == ':'
  {
    DateText(d) + "T" + TimeText(d) + "Z"
  }

  /** The three two-digit-or-longer fields of `t` if it has the shape
      `<w digits><x><2 digits><y><2 digits>`. */
  function ReadFields3(t: string, w: nat, x: char, y: char): (r: Option<(nat, nat, nat)>)
    ensures r.Some? ==> |t| == w + 6
  {
    if |t| == w + 6 && AllDigits(t[..w]) && t[w] == x && AllDigits(t[w + 1..w + 3]) && t[w + 3] == y
       && AllDigits(t[w + 4..])
    then Some((DigitsValue(t[..w]), DigitsValue(t[w + 1..w + 3]), DigitsValue(t[w + 4..])))
    else None
  }

  /** Strict reading of a four-digit-year Solr date: the inverse the
      rendering is checked against. */
  function ParseSolr(s: string): (r: Option<DateTime>)
    ensures r.Some? ==> Valid(r.value) && r.value.year < 10000 && |s| == 20
  {
    if |s| == 20 && s[10] == 'T' && s[19] == 'Z' then
      var date :- ReadFields3(s[..10], 4, '-', '-');
      var time :- ReadFields3(s[11..19], 2, ':', ':');
      var d := DateTime(date.0, date.1, date.2, time.0, time.1, time.2);
      if Valid(d) && d.year < 10000 then Some(d) else None
    else None
  }

  lemma ReadFields3OfFields3(a: string, x: char, b: string, y: char, c: string)
    requires AllDigits(a) && AllDigits(b) && AllDigits(c) && |b| == 2 && |c| == 2
    ensures ReadFields3(Fields3(a, x, b, y, c), |a|, x, y) == Some((DigitsValue(a), DigitsValue(b), DigitsValue(c)))
  {
    var t := Fields3(a, x, b, y, c);
    var w := |a|;
    assert t[..w] == a;
    assert t[w + 1..w + 3] == b;
    assert t[w + 4..] == c;
  }

  /** The Solr rendering of a date with a four-digit year is twenty
      characters long, and reading it back gives the same date. */
  lemma FormatSolrRoundTrip(d: DateTime)
    requires Valid(d) && d.year < 10000
    ensures |FormatSolr(d)| == 20
    ensures ParseSolr(FormatSolr(d)) == Some(d)
  {
    var s := FormatSolr(d);
    assert s[..10] == DateText(d);
    assert s[11..19] == TimeText(d);
    ReadFields3OfFields3(YearText(d.year), '-', Digits(d.month, 2), '-', Digits(d.day, 2));
    ReadFields3OfFields3(Digits(d.hour, 2), ':', Digits(d.minute, 2), ':', Digits(d.second, 2));
    DigitsValueOfDigits(d.year, 4);
    DigitsValueOfDigits(d.month, 2);
    DigitsValueOfDigits(d.day, 2);
    DigitsValueOfDigits(d.hour, 2);
    DigitsValueOfDigits(d.minute, 2);
    DigitsValueOfDigits(d.second, 2);
  }

  /** The conversion both date-aware stages perform: a string is parsed with
      the configured pattern and rendered in the Solr pattern, a string that
      does not parse becomes null, and every other value passes through. */
  function ConvertDate(parse: Parser, pattern: string, v: Value): (r: Value)
    ensures !v.Str? ==> r == v
    ensures v.Str? && parse(pattern, v.s).None? ==> r == Null
    ensures v.Str? && parse(pattern, v.s).Some? ==> r.Str?
  {
    if !v.Str? then v
    else match parse(pattern, v.s)
      case Some(d) => Str(FormatSolr(d))
      case None => Null
  }

  /** A converted string denotes exactly the date the configured pattern
      read from the original. */
  lemma ConvertedDateReadsBack(parse: Parser, pattern: string, text: string, d: DateTime)
    requires parse(pattern, text) == Some(d) && Valid(d) && d.year < 10000
    ensures ConvertDate(parse, pattern, Str(text)).Str?
    ensures ParseSolr(ConvertDate(parse, pattern, Str(text)).s) == Some(d)
  {
    FormatSolrRoundTrip(d);
  }
}
