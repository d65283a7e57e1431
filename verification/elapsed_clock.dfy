/** The elapsed-seconds display of `getFormattedElapsedTime`
    (src/stores/quizStore.ts): `Math.floor(t / 60)` and `t % 60`, each
    rendered with `toString()` and `padStart(2, '0')`, joined by a colon. */
module ElapsedClock {
  import opened QuizTypes

  predicate IsDigit(c: char)
  {
    '0' <= c <= '9'
  }

  predicate AllDigits(s: string)
  {
    forall i :: 0 <= i < |s| ==> IsDigit(s[i])
  }

  function DigitValue(c: char): (d: nat)
    requires IsDigit(c)
  {
    c as int - '0' as int
  }

  function DigitChar(d: nat): (c: char)
    requires d < 10
    ensures IsDigit(c) && DigitValue(c) == d
  {
    ('0' as int + d) as char
  }

  /** The number a decimal numeral denotes, most significant digit first. */
  function DecimalValue(s: string): nat
    requires AllDigits(s)
  {
    if |s| == 0 then 0 else DecimalValue(s[..|s| - 1]) * 10 + DigitValue(s[|s| - 1])
  }

  /** `n.toString()` for a non-negative integer: the shortest decimal numeral. */
  function NatToString(n: nat): (s: string)
    ensures 1 <= |s| && AllDigits(s)
    ensures DecimalValue(s) == n
    ensures |s| == 1 <==> n < 10
    ensures |s| > 1 ==> s[0] != '0'
  {
    if n < 10 then [DigitChar(n)]
    else
      var s := NatToString(n / 10) + [DigitChar(n % 10)];
      assert s[..|s| - 1] == NatToString(n / 10);
      s
  }

  /** `n` copies of `c`. */
  function Repeat(c: char, n: nat): (r: string)
    ensures |r| == n
    ensures forall i :: 0 <= i < n ==> r[i] == c
  {
    if n == 0 then [] else [c] + Repeat(c, n - 1)
  }

  /** `s.padStart(width, fill)` with a one-character fill. */
  function PadStart(s: string, width: nat, fill: char): (r: string)
    ensures |r| == if |s| >= width then |s| else width
    ensures r[|r| - |s|..] == s
    ensures forall i :: 0 <= i < |r| - |s| ==> r[i] == fill
  {
    if |s| >= width then s else Repeat(fill, width - |s|) + s
  }

  /** Leading zeros do not change the value of a numeral. */
  lemma {:induction false} LeadingZeros(z: string, s: string)
    requires forall i :: 0 <= i < |z| ==> z[i] == '0'
    requires AllDigits(s)
    ensures AllDigits(z + s)
    ensures DecimalValue(z + s) == DecimalValue(s)
    decreases |s|
  {
    if |s| == 0 {
      ZerosValue(z);
      assert z + s == z;
    } else {
      var init := s[..|s| - 1];
      LeadingZeros(z, init);
      assert (z + s)[..|z + s| - 1] == z + init;
    }
  }

  /** A numeral made only of zeros denotes 0. */
  lemma {:induction false} ZerosValue(z: string)
    requires forall i :: 0 <= i < |z| ==> z[i] == '0'
    ensures AllDigits(z) && DecimalValue(z) == 0
  {
    if |z| > 0 {
      ZerosValue(z[..|z| - 1]);
    }
  }

  /** A numeral left-padded with zeros to at least two characters. */
  function TwoDigitField(n: nat): (r: string)
    ensures |r| >= 2 && AllDigits(r)
    ensures DecimalValue(r) == n
    ensures n < 100 ==> |r| == 2
    ensures n >= 10 ==> r[0] != '0'
  {
    var s := NatToString(n);
    var r := PadStart(s, 2, '0');
    assert r == r[..|r| - |s|] + s;
    LeadingZeros(r[..|r| - |s|], s);
    r
  }

  /** `m + ":" + s` for a two-character seconds field: splitting at the
      third character from the end gives back both fields. */
  function Join(m: string, s: string): (r: string)
    requires |s| == 2
    ensures |r| == |m| + 3 && r[|r| - 3] == ':' && r[..|r| - 3] == m && r[|r| - 2..] == s
  {
    m + ":" + s
  }

  /** `getFormattedElapsedTime`: minutes and seconds, each rendered with
      `toString()` and zero-padded to at least two digits. */
  function Format(t: nat): (r: string)
  {
    Join(TwoDigitField(t / 60), TwoDigitField(t % 60))
  }

  /** The display splits at its third-last character into a minutes field that
      is the zero-padded numeral of the full `t / 60` (minutes are not
      wrapped) and a two-digit seconds field for `t % 60`, which is below 60. */
  lemma FormatFields(t: nat)
    ensures var r := Format(t);
      && |r| >= 5 && r[|r| - 3] == ':'
      && r[..|r| - 3] == TwoDigitField(t / 60)
      && r[|r| - 2..] == TwoDigitField(t % 60)
      && t % 60 < 60
  {
    var m, s := TwoDigitField(t / 60), TwoDigitField(t % 60);
    assert Format(t) == Join(m, s);
  }

  /** Reads an `MM:SS` string back: split off the last three characters at
      the colon and read both fields. */
  function Parse(s: string): Option<nat>
  {
    if |s| >= 5 && s[|s| - 3] == ':' then ParseFields(s[..|s| - 3], s[|s| - 2..]) else None
  }

  /** Reads a minutes numeral and a seconds numeral below 60. */
  function ParseFields(minutes: string, seconds: string): Option<nat>
  {
    if AllDigits(minutes) && AllDigits(seconds) && DecimalValue(seconds) < 60 then
      Some(DecimalValue(minutes) * 60 + DecimalValue(seconds))
    else None
  }

  /** Parsing the formatted time recovers the elapsed seconds. */
  lemma FormatRoundTrip(t: nat)
    ensures Parse(Format(t)) == Some(t)
  {
    ParseJoin(TwoDigitField(t / 60), TwoDigitField(t % 60), t);
  }

  /** Parsing a minutes numeral joined to a two-digit seconds numeral below
      60 gives back the seconds they denote together. */
  lemma ParseJoin(m: string, s: string, t: nat)
    requires |m| >= 2 && AllDigits(m)
    requires |s| == 2 && AllDigits(s) && DecimalValue(s) < 60
    requires DecimalValue(m) * 60 + DecimalValue(s) == t
    ensures Parse(Join(m, s)) == Some(t)
  {
    var x := Join(m, s);
    assert x[..|x| - 3] == m && x[|x| - 2..] == s;
    ParseFieldsValue(m, s, t);
    assert Parse(x) == ParseFields(m, s);
  }

  lemma ParseFieldsValue(m: string, s: string, t: nat)
    requires AllDigits(m) && AllDigits(s) && DecimalValue(s) < 60
    requires DecimalValue(m) * 60 + DecimalValue(s) == t
    ensures ParseFields(m, s) == Some(t)
  {
  }

  /** A fresh clock is displayed as "00:00". */
  lemma FormatZero()
    ensures Format(0) == "00:00"
  {
    assert NatToString(0) == "0";
    assert TwoDigitField(0) == "00";
  }

  /** Distinct elapsed times are displayed differently. */
  lemma FormatInjective(t1: nat, t2: nat)
    ensures t1 != t2 ==> Format(t1) != Format(t2)
  {
    FormatRoundTrip(t1);
    FormatRoundTrip(t2);
  }
}
