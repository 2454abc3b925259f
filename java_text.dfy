/** The pieces of `java.lang.String` and `java.lang.Integer` the core relies
    on: `split` around a one-character separator, `Integer.parseInt` and
    `Integer.toString` for non-negative values. */
module JavaText {
  import opened Documents

  predicate IsDigit(c: char) {
    '0' <= c <= '9'
  }

  predicate AllDigits(s: string) {
    forall i | 0 <= i < |s| :: IsDigit(s[i])
  }

  function DigitChar(d: nat): (c: char)
    requires d < 10
    ensures IsDigit(c)
  {
    ('0' as int + d) as char
  }

  function DigitValue(c: char): (d: nat)
    requires IsDigit(c)
    ensures d < 10 && DigitChar(d) == c
  {
    c as int - '0' as int
  }

  /** `Integer.toString(n)` for `n >= 0`: decimal digits, no leading zero. */
  function NatToString(n: nat): (s: string)
    ensures |s| > 0 && AllDigits(s)
    ensures n >= 10 <==> |s| > 1
  {
    if n < 10 then [DigitChar(n)] else NatToString(n / 10) + [DigitChar(n % 10)]
  }

  /** The value of a string of decimal digits. */
  function DigitsValue(s: string): nat
    requires AllDigits(s)
  {
    if s == [] then 0 else DigitsValue(s[..|s| - 1]) * 10 + DigitValue(s[|s| - 1])
  }

  const IntMin: int := -0x8000_0000
  const IntMax: int := 0x7fff_ffff

  /** A decimal numeral: at least one ASCII digit, optionally after a sign. */
  predicate IsNumeral(s: string) {
    (s != [] && AllDigits(s)) || (|s| > 1 && (s[0] == '-' || s[0] == '+') && AllDigits(s[1..]))
  }

  /** `Integer.parseInt(s)`: an optional sign, then at least one ASCII digit,
      and the value must fit in 32 bits; anything else is a NumberFormatException. */
  function ParseInt(s: string): (r: Result<int>)
    ensures r.Ok? ==> IntMin <= r.value <= IntMax
    ensures r.Err? ==> r.error == NumberFormat
    ensures r.Ok? && AllDigits(s) ==> r.value == DigitsValue(s)
  {
    if |s| == 0 then Err(NumberFormat)
    else
      var signed := s[0] == '-' || s[0] == '+';
      var digits := if signed then s[1..] else s;
      if |digits| == 0 || !AllDigits(digits) then Err(NumberFormat)
      else
        var n: int := if s[0] == '-' then -(DigitsValue(digits) as int) else DigitsValue(digits);
        if IntMin <= n <= IntMax then Ok(n) else Err(NumberFormat)
  }

  /** What `Integer.parseInt` makes of a numeral: an unsigned or `+`-signed
      one is read when its value is at most `Integer.MAX_VALUE`, a `-`-signed
      one is negated and read when it is at least `Integer.MIN_VALUE`;
      otherwise it is a NumberFormatException. */
  lemma ParseIntValue(s: string)
    ensures !IsNumeral(s) ==> ParseInt(s) == Err(NumberFormat)
    ensures s != [] && AllDigits(s) ==>
      (ParseInt(s).Ok? <==> DigitsValue(s) <= IntMax) && (ParseInt(s).Ok? ==> ParseInt(s).value == DigitsValue(s))
    ensures |s| > 1 && s[0] == '+' && AllDigits(s[1..]) ==>
      (ParseInt(s).Ok? <==> DigitsValue(s[1..]) <= IntMax)
      && (ParseInt(s).Ok? ==> ParseInt(s).value == DigitsValue(s[1..]))
    ensures |s| > 1 && s[0] == '-' && AllDigits(s[1..]) ==>
      (ParseInt(s).Ok? <==> DigitsValue(s[1..]) <= -IntMin)
      && (ParseInt(s).Ok? ==> ParseInt(s).value == -(DigitsValue(s[1..]) as int))
  {
    if s != [] && AllDigits(s) {
      assert s[0] != '-' && s[0] != '+';
    }
  }

  lemma {:induction false} DigitsValueOfNatToString(n: nat)
    ensures DigitsValue(NatToString(n)) == n
  {
    if n >= 10 {
      var s := NatToString(n);
      DigitsValueOfNatToString(n / 10);
      assert s[..|s| - 1] == NatToString(n / 10);
    }
  }

  /** `Integer.parseInt(Integer.toString(i)) == i`: the index segments the
      flattener writes are read back by the resolver as the same index. */
  lemma ParseIntOfNatToString(n: nat)
    requires n <= IntMax
    ensures ParseInt(NatToString(n)) == Ok(n)
  {
    DigitsValueOfNatToString(n);
  }

  /** `Integer.toString` is injective on the non-negative integers. */
  lemma NatToStringInjective(a: nat, b: nat)
    requires a <= IntMax && b <= IntMax && NatToString(a) == NatToString(b)
    ensures a == b
  {
    ParseIntOfNatToString(a);
    ParseIntOfNatToString(b);
  }

  /** The pieces of `s` between occurrences of `c`, empty pieces included. */
  function Pieces(s: string, c: char): (r: seq<string>)
    ensures |r| >= 1
    ensures forall i | 0 <= i < |r| :: c !in r[i]
  {
    if s == [] then [""]
    else
      var rest := Pieces(s[1..], c);
      if s[0] == c then [""] + rest else [[s[0]] + rest[0]] + rest[1..]
  }

  function DropTrailingEmpty(ps: seq<string>): (r: seq<string>)
    ensures |r| <= |ps| && r == ps[..|r|]
    ensures r != [] ==> r[|r| - 1] != ""
  {
    if ps == [] then []
    else if ps[|ps| - 1] == "" then DropTrailingEmpty(ps[..|ps| - 1])
    else ps
  }

  /** `s.split(c)` with a one-character separator: when `c` does not occur the
      result is `[s]` (so `"".split` is `[""]`); otherwise the pieces with the
      trailing empty ones removed, which may leave no piece at all. */
  function Split(s: string, c: char): (r: seq<string>)
    ensures c !in s ==> r == [s]
    ensures forall i | 0 <= i < |r| :: c !in r[i]
    ensures c in s && r != [] ==> r[|r| - 1] != ""
  {
    if c !in s then [s] else DropTrailingEmpty(Pieces(s, c))
  }

  /** A text made of separators only splits into no piece at all: `"."`
      has nothing before or between its dots but empty strings, and all of
      them are trailing. */
  lemma SplitSeparatorsOnly(s: string, c: char)
    requires s != [] && forall j | 0 <= j < |s| :: s[j] == c
    ensures Split(s, c) == []
  {
    assert s[0] == c;
    PiecesOfSeparators(s, c);
    DropAllEmpty(Pieces(s, c));
  }

  lemma {:induction false} PiecesOfSeparators(s: string, c: char)
    requires forall j | 0 <= j < |s| :: s[j] == c
    ensures forall i | 0 <= i < |Pieces(s, c)| :: Pieces(s, c)[i] == ""
  {
    if s != [] {
      PiecesOfSeparators(s[1..], c);
    }
  }

  lemma {:induction false} DropAllEmpty(ps: seq<string>)
    requires forall i | 0 <= i < |ps| :: ps[i] == ""
    ensures DropTrailingEmpty(ps) == []
  {
    if ps != [] {
      DropAllEmpty(ps[..|ps| - 1]);
    }
  }

  /** The segments joined with `c` between them. */
  function Join(segs: seq<string>, c: char): string
    requires |segs| >= 1
  {
    if |segs| == 1 then segs[0] else segs[0] + [c] + Join(segs[1..], c)
  }

  lemma {:induction false} PiecesOfPlain(s: string, c: char)
    requires c !in s
    ensures Pieces(s, c) == [s]
  {
    if s != [] {
      PiecesOfPlain(s[1..], c);
      assert [s[0]] + s[1..] == s;
    }
  }

  lemma {:induction false} PiecesOfSeparated(a: string, c: char, b: string)
    requires c !in a
    ensures Pieces(a + [c] + b, c) == [a] + Pieces(b, c)
  {
    if a == [] {
      assert a + [c] + b == [c] + b;
      assert ([c] + b)[1..] == b;
    } else {
      PiecesOfSeparated(a[1..], c, b);
      assert (a + [c] + b)[1..] == a[1..] + [c] + b;
      assert [a[0]] + a[1..] == a;
    }
  }

  lemma {:induction false} PiecesOfJoin(segs: seq<string>, c: char)
    requires |segs| >= 1
    requires forall i | 0 <= i < |segs| :: c !in segs[i]
    ensures Pieces(Join(segs, c), c) == segs
  {
    if |segs| == 1 {
      PiecesOfPlain(segs[0], c);
    } else {
      PiecesOfJoin(segs[1..], c);
      PiecesOfSeparated(segs[0], c, Join(segs[1..], c));
      assert segs == [segs[0]] + segs[1..];
    }
  }

  lemma {:induction false} JoinHasSeparator(segs: seq<string>, c: char)
    requires |segs| >= 1
    requires forall i | 0 <= i < |segs| :: c !in segs[i]
    ensures c in Join(segs, c) <==> |segs| > 1
  {
    if |segs| > 1 {
      assert Join(segs, c)[|segs[0]|] == c;
    }
  }

  /** Splitting a joined path gives back its segments, provided no segment
      contains the separator and the last one is not empty (`split` drops
      trailing empty strings). */
  lemma SplitJoin(segs: seq<string>, c: char)
    requires |segs| >= 1 && segs[|segs| - 1] != ""
    requires forall i | 0 <= i < |segs| :: c !in segs[i]
    ensures Split(Join(segs, c), c) == segs
  {
    JoinHasSeparator(segs, c);
    if |segs| > 1 {
      PiecesOfJoin(segs, c);
    }
  }

  /** Joining one more segment in front puts a separator after it. */
  lemma JoinCons(head: string, tail: seq<string>, c: char)
    requires |tail| >= 1
    ensures Join([head] + tail, c) == head + [c] + Join(tail, c)
  {
    assert ([head] + tail)[1..] == tail;
  }

  /** Joining two runs of segments puts one separator between them. */
  lemma {:induction false} JoinAppend(a: seq<string>, b: seq<string>, c: char)
    requires |a| >= 1 && |b| >= 1
    ensures Join(a + b, c) == Join(a, c) + [c] + Join(b, c)
  {
    if |a| == 1 {
      JoinCons(a[0], b, c);
    } else {
      JoinAppend(a[1..], b, c);
      assert (a + b)[1..] == a[1..] + b;
    }
  }
}
