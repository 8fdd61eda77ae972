/** Decimal text of integers as .NET writes and reads it with the invariant
    culture: `int.ToString()` and `int.TryParse(string, out int)`. */
module Decimal {
  import opened Wrappers

  const MinInt32: int := -0x8000_0000
  const MaxInt32: int := 0x7FFF_FFFF

  predicate IsDigit(c: char) {
    '0' <= c <= '9'
  }

  predicate AllDigits(s: string) {
    forall k :: 0 <= k < |s| ==> IsDigit(s[k])
  }

  function DigitValue(c: char): (d: nat)
    requires IsDigit(c)
    ensures d < 10
  {
    (c as int) - ('0' as int)
  }

  function DigitChar(d: nat): (c: char)
    requires d < 10
    ensures IsDigit(c) && DigitValue(c) == d
  {
    (('0' as int) + d) as char
  }

  /** Decimal digits of `n` without leading zeros. */
  function NatText(n: nat): (s: string)
    ensures |s| >= 1 && AllDigits(s)
  {
    if n < 10 then [DigitChar(n)] else NatText(n / 10) + [DigitChar(n % 10)]
  }

  /** `i.ToString()`: a minus sign for negative values, then the digits. */
  function IntText(i: int): (s: string)
    ensures |s| >= 1 && (IsDigit(s[0]) || s[0] == '-')
    ensures forall k :: 0 <= k < |s| ==> IsDigit(s[k]) || s[k] == '-'
  {
    if i < 0 then "-" + NatText(-i) else NatText(i)
  }

  /** The value of a string of decimal digits, leading zeros allowed. */
  function DigitsValue(s: string): nat
    requires AllDigits(s)
  {
    if s == [] then 0 else DigitsValue(s[..|s| - 1]) * 10 + DigitValue(s[|s| - 1])
  }

  /** An optional `+` or `-` followed by at least one decimal digit, with no
      bound on the magnitude. */
  function ParseInt(s: string): (r: Option<int>)
    ensures r.Some? ==> |s| >= 1
    ensures r.Some? && AllDigits(s) ==> r.value >= 0
  {
    if |s| >= 2 && (s[0] == '-' || s[0] == '+') && AllDigits(s[1..]) then
      var v: int := DigitsValue(s[1..]);
      Some(if s[0] == '-' then -v else v)
    else if |s| >= 1 && AllDigits(s) then Some(DigitsValue(s))
    else None
  }

  // ---------------------------------------------------------------------
  // `int.TryParse` with `NumberStyles.Integer`

  /** The white space `int.TryParse` skips before and after a number: tab,
      line feed, vertical tab, form feed, carriage return and space. */
  predicate IsNumberWhite(c: char) {
    c == ' ' || '\t' <= c <= '\r'
  }

  /** The length of the white run `s` starts with. */
  function LeadingNumberWhite(s: string): (n: nat)
    ensures n <= |s|
    ensures forall k | 0 <= k < n :: IsNumberWhite(s[k])
    ensures n < |s| ==> !IsNumberWhite(s[n])
  {
    if s != [] && IsNumberWhite(s[0]) then 1 + LeadingNumberWhite(s[1..]) else 0
  }

  /** Where the run of `'\0'` characters that `s` ends with begins. */
  function TrailingNulStart(s: string): (n: nat)
    ensures n <= |s|
    ensures forall k | n <= k < |s| :: s[k] == '\0'
    ensures n > 0 ==> s[n - 1] != '\0'
  {
    if s != [] && s[|s| - 1] == '\0' then TrailingNulStart(s[..|s| - 1]) else |s|
  }

  /** Where the white run that `s` ends with begins. */
  function TrailingNumberWhite(s: string): (n: nat)
    ensures n <= |s|
    ensures forall k | n <= k < |s| :: IsNumberWhite(s[k])
    ensures n > 0 ==> !IsNumberWhite(s[n - 1])
  {
    if s != [] && IsNumberWhite(s[|s| - 1]) then TrailingNumberWhite(s[..|s| - 1]) else |s|
  }

  /** The text `int.TryParse` reads as sign and digits: leading white space
      is skipped; at the end, `'\0'` characters are ignored and white space
      before them is skipped. */
  function NumberCore(s: string): string {
    var t := s[LeadingNumberWhite(s)..];
    var u := t[..TrailingNulStart(t)];
    u[..TrailingNumberWhite(u)]
  }

  /** The parts of a text that spells a number: white space, a sign, leading
      zeros, the digits of the magnitude as `ToString` writes them, white
      space, and `'\0'` characters. */
  datatype Layout = Layout(lead: string, sign: string, zeros: string, trail: string, nuls: string)

  /** `s` spells `v` as laid out by `l`; a minus sign is required for a
      negative value and allowed for zero. */
  predicate Spells(s: string, v: int, l: Layout) {
    && s == l.lead + l.sign + l.zeros + NatText(if v < 0 then -v else v) + l.trail + l.nuls
    && (forall k | 0 <= k < |l.lead| :: IsNumberWhite(l.lead[k]))
    && (if v < 0 then l.sign == "-" else l.sign == "" || l.sign == "+" || (v == 0 && l.sign == "-"))
    && (forall k | 0 <= k < |l.zeros| :: l.zeros[k] == '0')
    && (forall k | 0 <= k < |l.trail| :: IsNumberWhite(l.trail[k]))
    && (forall k | 0 <= k < |l.nuls| :: l.nuls[k] == '\0')
  }

  /** `int.TryParse(s, out v)` with the invariant culture's signs: it
      succeeds exactly when `s` spells a value that fits in 32 bits. */
  function TryParseInt32(s: string): (r: Option<int>)
    ensures r.Some? ==> MinInt32 <= r.value <= MaxInt32 && exists l :: Spells(s, r.value, l)
    ensures forall v, l | MinInt32 <= v <= MaxInt32 && Spells(s, v, l) :: r == Some(v)
  {
    var p := ParseInt(NumberCore(s));
    CoreOfEveryLayout(s);
    if p.Some? && MinInt32 <= p.value <= MaxInt32 then LayoutOfCore(s); p else None
  }

  /** A trailing `'\0'` character is accepted. */
  lemma TrailingNulAccepted()
    ensures TryParseInt32("5\0") == Some(5)
  {
    var l := Layout("", "", "", "", "\0");
    assert NatText(5) == "5";
    assert "5\0" == l.lead + l.sign + l.zeros + "5" + l.trail + l.nuls;
    assert Spells("5\0", 5, l);
  }

  lemma PaddedLayout()
    ensures Spells(" -007 \0", -7, Layout(" ", "-", "00", " ", "\0"))
  {
    var l := Layout(" ", "-", "00", " ", "\0");
    assert NatText(7) == "7";
    assert " -007 \0" == l.lead + l.sign + l.zeros + "7" + l.trail + l.nuls;
  }

  /** Surrounding white space, a minus sign and leading zeros are accepted. */
  lemma SignedPaddedAccepted()
    ensures TryParseInt32(" -007 \0") == Some(-7)
  {
    PaddedLayout();
  }

  // ---------------------------------------------------------------------
  // Digit strings

  predicate AllZeros(s: string) {
    forall k | 0 <= k < |s| :: s[k] == '0'
  }

  lemma {:induction false} ZerosValue(z: string)
    requires AllZeros(z)
    ensures AllDigits(z) && DigitsValue(z) == 0
  {
    if z != [] {
      ZerosValue(z[..|z| - 1]);
    }
  }

  /** Leading zeros do not change the value of a digit string. */
  lemma {:induction false} LeadingZerosValue(z: string, y: string)
    requires AllZeros(z) && AllDigits(y)
    ensures AllDigits(z + y) && DigitsValue(z + y) == DigitsValue(y)
    decreases |y|
  {
    if y == [] {
      assert z + y == z;
      ZerosValue(z);
    } else {
      var zy := z + y;
      LeadingZerosValue(z, y[..|y| - 1]);
      assert zy[..|zy| - 1] == z + y[..|y| - 1];
      assert zy[|zy| - 1] == y[|y| - 1];
    }
  }

  /** A digit string that does not start with `0` has a positive value. */
  lemma {:induction false} NoLeadingZeroPositive(p: string)
    requires AllDigits(p) && |p| >= 1 && p[0] != '0'
    ensures DigitsValue(p) >= 1
  {
    if |p| >= 2 {
      var q := p[..|p| - 1];
      assert q[0] == p[0];
      NoLeadingZeroPositive(q);
    }
  }

  /** A digit string without a leading zero is how `ToString` writes its
      value. */
  lemma {:induction false} NatTextOfDigits(d: string)
    requires AllDigits(d) && |d| >= 1 && (|d| == 1 || d[0] != '0')
    ensures NatText(DigitsValue(d)) == d
  {
    if |d| == 1 {
      assert d[..0] == [];
      assert DigitsValue(d) == DigitValue(d[0]);
    } else {
      var p := d[..|d| - 1];
      var last := DigitValue(d[|d| - 1]);
      assert p[0] == d[0];
      NoLeadingZeroPositive(p);
      NatTextOfDigits(p);
      var n := DigitsValue(d);
      assert n == DigitsValue(p) * 10 + last;
      assert n / 10 == DigitsValue(p) && n % 10 == last;
      assert d == p + [d[|d| - 1]];
    }
  }

  /** Every non-empty digit string is leading zeros followed by the text of
      its value. */
  lemma {:induction false} DigitsLayout(d: string) returns (k: nat)
    requires AllDigits(d) && |d| >= 1
    ensures k < |d| && AllZeros(d[..k]) && d[k..] == NatText(DigitsValue(d))
  {
    if |d| >= 2 && d[0] == '0' {
      var k' := DigitsLayout(d[1..]);
      LeadingZerosValue("0", d[1..]);
      assert d == "0" + d[1..];
      k := k' + 1;
      assert d[k..] == d[1..][k'..];
      assert forall j | 0 <= j < k :: d[..k][j] == '0' by {
        forall j | 0 <= j < k ensures d[..k][j] == '0' {
          if j > 0 { assert d[..k][j] == d[1..][..k'][j - 1]; }
        }
      }
    } else {
      k := 0;
      NatTextOfDigits(d);
    }
  }

  // ---------------------------------------------------------------------
  // The parsed core and the layouts of a text

  lemma {:induction false} LeadingWhiteIs(s: string, a: nat)
    requires a <= |s| && (forall k | 0 <= k < a :: IsNumberWhite(s[k]))
    requires a < |s| ==> !IsNumberWhite(s[a])
    ensures LeadingNumberWhite(s) == a
  {
    if a > 0 {
      LeadingWhiteIs(s[1..], a - 1);
    }
  }

  lemma {:induction false} TrailingNulIs(s: string, e: nat)
    requires e <= |s| && (forall k | e <= k < |s| :: s[k] == '\0')
    requires e > 0 ==> s[e - 1] != '\0'
    ensures TrailingNulStart(s) == e
    decreases |s|
  {
    if e < |s| {
      TrailingNulIs(s[..|s| - 1], e);
    }
  }

  lemma {:induction false} TrailingWhiteIs(s: string, e: nat)
    requires e <= |s| && (forall k | e <= k < |s| :: IsNumberWhite(s[k]))
    requires e > 0 ==> !IsNumberWhite(s[e - 1])
    ensures TrailingNumberWhite(s) == e
    decreases |s|
  {
    if e < |s| {
      TrailingWhiteIs(s[..|s| - 1], e);
    }
  }

  /** A sign and a digit string read back as the value they spell. */
  lemma ParseSigned(sign: string, digits: string, v: int)
    requires AllDigits(digits) && |digits| >= 1 && DigitsValue(digits) == (if v < 0 then -v else v)
    requires if v < 0 then sign == "-" else sign == "" || sign == "+" || (v == 0 && sign == "-")
    ensures ParseInt(sign + digits) == Some(v)
  {
    var b := sign + digits;
    if sign == "" {
      assert b == digits;
      assert IsDigit(b[0]) && b[0] != '-' && b[0] != '+';
    } else {
      assert |sign| == 1;
      assert |b| >= 2 && b[0] == sign[0] && b[1..] == digits;
      assert b[0] == '-' || b[0] == '+';
    }
  }

  /** The white space before a layout's sign and digits is what
      `int.TryParse` skips. */
  lemma LeadOfLayout(s: string, v: int, l: Layout)
    requires Spells(s, v, l)
    ensures var body := l.sign + l.zeros + NatText(if v < 0 then -v else v);
      && LeadingNumberWhite(s) == |l.lead|
      && s[|l.lead|..] == body + l.trail + l.nuls
  {
    var n: nat := if v < 0 then -v else v;
    var body := l.sign + l.zeros + NatText(n);
    var a := |l.lead|;
    assert s == l.lead + (body + l.trail + l.nuls);
    assert s[a] == body[0];
    assert IsDigit(body[0]) || body[0] == '+' || body[0] == '-' by {
      if l.sign == "" {
        if l.zeros == "" { assert body[0] == NatText(n)[0]; }
        else { assert body[0] == l.zeros[0]; }
      }
    }
    LeadingWhiteIs(s, a);
  }

  /** White space and `'\0'` characters after a body ending in a digit are
      what `int.TryParse` ignores at the end. */
  lemma TailOfBody(body: string, trail: string, nuls: string)
    requires |body| >= 1 && IsDigit(body[|body| - 1])
    requires forall k | 0 <= k < |trail| :: IsNumberWhite(trail[k])
    requires forall k | 0 <= k < |nuls| :: nuls[k] == '\0'
    ensures var t := body + trail + nuls;
      var u := t[..TrailingNulStart(t)];
      u[..TrailingNumberWhite(u)] == body
  {
    var t := body + trail + nuls;
    var e := |body| + |trail|;
    assert t[e - 1] == if trail == [] then body[|body| - 1] else trail[|trail| - 1];
    TrailingNulIs(t, e);
    var u := t[..e];
    assert u == body + trail;
    assert u[|body| - 1] == body[|body| - 1];
    TrailingWhiteIs(u, |body|);
    assert u[..|body|] == body;
  }

  /** Whatever the layout, `int.TryParse` reads the sign and digits it
      holds. */
  lemma CoreOfLayout(s: string, v: int, l: Layout)
    requires Spells(s, v, l)
    ensures ParseInt(NumberCore(s)) == Some(v)
  {
    var n := if v < 0 then -v else v;
    var digits := l.zeros + NatText(n);
    LeadingZerosValue(l.zeros, NatText(n));
    DigitsValueOfNatText(n);
    ParseSigned(l.sign, digits, v);
    LeadOfLayout(s, v, l);
    var body := l.sign + l.zeros + NatText(n);
    assert body == l.sign + digits;
    assert body[|body| - 1] == NatText(n)[|NatText(n)| - 1];
    TailOfBody(body, l.trail, l.nuls);
  }

  lemma CoreOfEveryLayout(s: string)
    ensures forall v, l | Spells(s, v, l) :: ParseInt(NumberCore(s)) == Some(v)
  {
    forall v, l | Spells(s, v, l) ensures ParseInt(NumberCore(s)) == Some(v) {
      CoreOfLayout(s, v, l);
    }
  }

  lemma AppendAssoc(a: string, b: string, c: string)
    ensures a + (b + c) == a + b + c
  {
  }

  /** Text that parses is an optional sign followed by digits whose value
      is the magnitude. */
  lemma SplitSign(core: string) returns (sign: string, digits: string)
    requires ParseInt(core).Some?
    ensures var v := ParseInt(core).value;
      && core == sign + digits && AllDigits(digits) && |digits| >= 1
      && DigitsValue(digits) == (if v < 0 then -v else v)
      && (if v < 0 then sign == "-" else sign == "" || sign == "+" || (v == 0 && sign == "-"))
  {
    if |core| >= 2 && (core[0] == '-' || core[0] == '+') && AllDigits(core[1..]) {
      sign, digits := core[..1], core[1..];
      assert core == sign + digits;
    } else {
      sign, digits := [], core;
      assert core == sign + digits;
    }
  }

  /** Sign and digits that parse are a sign, leading zeros and the text of
      the magnitude. */
  lemma SignedDigits(core: string) returns (sign: string, zeros: string)
    requires ParseInt(core).Some?
    ensures var v := ParseInt(core).value;
      && core == sign + zeros + NatText(if v < 0 then -v else v)
      && (if v < 0 then sign == "-" else sign == "" || sign == "+" || (v == 0 && sign == "-"))
      && AllZeros(zeros)
  {
    var digits;
    sign, digits := SplitSign(core);
    var k := DigitsLayout(digits);
    zeros := digits[..k];
    assert digits == zeros + digits[k..];
    AppendAssoc(sign, zeros, digits[k..]);
  }

  /** Cutting a text at three places and gluing the pieces back. */
  lemma Cuts(s: string, a: nat, e: nat, c: nat)
    requires a <= |s| && e <= |s| - a && c <= e
    ensures s == s[..a] + s[a..][..e][..c] + s[a..][..e][c..] + s[a..][e..]
  {
    var t := s[a..];
    var u := t[..e];
    assert s == s[..a] + t;
    assert t == u + t[e..];
    assert u == u[..c] + u[c..];
    AppendAssoc(s[..a], u[..c] + u[c..], t[e..]);
    AppendAssoc(s[..a], u[..c], u[c..]);
  }

  /** The surroundings `int.TryParse` skips around what it reads. */
  lemma AroundCore(s: string) returns (lead: string, trail: string, nuls: string)
    ensures s == lead + NumberCore(s) + trail + nuls
    ensures forall k | 0 <= k < |lead| :: IsNumberWhite(lead[k])
    ensures forall k | 0 <= k < |trail| :: IsNumberWhite(trail[k])
    ensures forall k | 0 <= k < |nuls| :: nuls[k] == '\0'
  {
    var a := LeadingNumberWhite(s);
    var t := s[a..];
    var e := TrailingNulStart(t);
    var u := t[..e];
    var c := TrailingNumberWhite(u);
    Cuts(s, a, e, c);
    lead, trail, nuls := s[..a], u[c..], t[e..];
    assert forall j | 0 <= j < |trail| :: trail[j] == u[c + j];
    assert forall j | 0 <= j < |nuls| :: nuls[j] == t[e + j];
  }

  /** Whatever `int.TryParse` reads, the text is laid out around it. */
  lemma LayoutOfCore(s: string)
    requires ParseInt(NumberCore(s)).Some?
    ensures exists l :: Spells(s, ParseInt(NumberCore(s)).value, l)
  {
    var core := NumberCore(s);
    var v := ParseInt(core).value;
    var sign, zeros := SignedDigits(core);
    var lead, trail, nuls := AroundCore(s);
    var l := Layout(lead, sign, zeros, trail, nuls);
    var body := sign + zeros + NatText(if v < 0 then -v else v);
    assert core == body;
    assert s == lead + body + trail + nuls;
    AppendAssoc(lead, sign + zeros, NatText(if v < 0 then -v else v));
    AppendAssoc(lead, sign, zeros);
    assert Spells(s, v, l);
  }

  lemma {:induction false} DigitsValueOfNatText(n: nat)
    ensures DigitsValue(NatText(n)) == n
  {
    if n >= 10 {
      DigitsValueOfNatText(n / 10);
      var s := NatText(n / 10) + [DigitChar(n % 10)];
      assert s[..|s| - 1] == NatText(n / 10);
    }
  }

  /** Reading back the text of an integer gives the integer. */
  lemma ParseIntText(i: int)
    ensures ParseInt(IntText(i)) == Some(i)
  {
    var s := IntText(i);
    if i < 0 {
      var t := NatText(-i);
      DigitsValueOfNatText(-i);
      assert s == "-" + t && s[0] == '-' && s[1..] == t;
      assert |s| >= 2 && AllDigits(s[1..]);
    } else {
      DigitsValueOfNatText(i);
      assert s == NatText(i) && AllDigits(s);
      assert !(s[0] == '-' || s[0] == '+');
    }
  }
}
