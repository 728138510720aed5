/** Decimal text for System.Int32, as the framework reads and writes it:
    Int32.Parse with NumberStyles.Integer under the invariant culture (what
    Convert.ToInt32(string, CultureInfo.InvariantCulture) does), and
    Int32.ToString() with "-" as the negative sign. */
module Int32Text {
  import opened Wrappers
  import opened Runtime

  /** The white space NumberStyles.AllowLeadingWhite/AllowTrailingWhite admit:
      U+0009 to U+000D and U+0020. */
  predicate IsWhite(c: char) {
    c == ' ' || '\t' <= c <= '\r'
  }

  predicate IsDigit(c: char) {
    '0' <= c <= '9'
  }

  predicate AllWhite(s: string) {
    forall k :: 0 <= k < |s| ==> IsWhite(s[k])
  }

  predicate AllDigits(s: string) {
    forall k :: 0 <= k < |s| ==> IsDigit(s[k])
  }

  /** The parser accepts trailing NUL characters after the number. */
  predicate AllNul(s: string) {
    forall k :: 0 <= k < |s| ==> s[k] == '\0'
  }

  function DigitValue(c: char): (d: nat)
    requires IsDigit(c)
    ensures d < 10
  {
    c as int - '0' as int
  }

  function DigitChar(d: nat): (c: char)
    requires d < 10
    ensures IsDigit(c) && DigitValue(c) == d
  {
    ('0' as int + d) as char
  }

  /** The end of the run of white space that starts at i. */
  function WhiteEnd(s: string, i: nat): (j: nat)
    requires i <= |s|
    ensures i <= j <= |s|
    ensures forall k :: i <= k < j ==> IsWhite(s[k])
    ensures j < |s| ==> !IsWhite(s[j])
    decreases |s| - i
  {
    if i < |s| && IsWhite(s[i]) then WhiteEnd(s, i + 1) else i
  }

  /** The end of the run of decimal digits that starts at i. */
  function DigitsEnd(s: string, i: nat): (j: nat)
    requires i <= |s|
    ensures i <= j <= |s|
    ensures forall k :: i <= k < j ==> IsDigit(s[k])
    ensures j < |s| ==> !IsDigit(s[j])
    decreases |s| - i
  {
    if i < |s| && IsDigit(s[i]) then DigitsEnd(s, i + 1) else i
  }

  /** The number a string of decimal digits denotes (leading zeros allowed). */
  function DigitsValue(d: string): nat
    requires AllDigits(d)
  {
    if d == [] then 0 else DigitsValue(d[..|d| - 1]) * 10 + DigitValue(d[|d| - 1])
  }

  /** The value of a signed digit string. */
  function Signed(sign: string, n: nat): int {
    if sign == "-" then -(n as int) else n
  }

  /** Int32.Parse(s, NumberStyles.Integer, invariant culture):
      white space, an optional sign, at least one digit, white space, then
      only NUL characters. A malformed string is a FormatError even when its
      digits overflow; a well-formed one outside Int32 is an OverflowError. */
  function Parse(s: string): (r: Result<int, Error>)
    ensures r.Success? ==> InInt32(r.value)
    ensures r.Failure? ==> r.error == FormatError || r.error == OverflowError
  {
    var a := WhiteEnd(s, 0);
    var b := if a < |s| && (s[a] == '-' || s[a] == '+') then a + 1 else a;
    var c := DigitsEnd(s, b);
    if c == b then Failure(FormatError)
    else
      var e := WhiteEnd(s, c);
      if !AllNul(s[e..]) then Failure(FormatError)
      else
        var v := Signed(s[a..b], DigitsValue(s[b..c]));
        if InInt32(v) then Success(v) else Failure(OverflowError)
  }

  /** The decimal digits of n, without leading zeros. */
  function NatDigits(n: nat): (d: string)
    ensures d != [] && AllDigits(d)
    decreases n
  {
    if n < 10 then [DigitChar(n)] else NatDigits(n / 10) + [DigitChar(n % 10)]
  }

  /** Int32.ToString(): the canonical text of i. A "-" exactly when i is
      negative, then the decimal digits of |i| with no leading zero (only 0
      itself is written "0"), and nothing else: no "+", no padding. */
  function Format(i: int): (s: string)
    ensures s != [] && (s[0] == '-' <==> i < 0)
    ensures i == 0 ==> s == "0"
    ensures var d := if i < 0 then s[1..] else s;
      d != [] && AllDigits(d) && (d[0] == '0' <==> i == 0) && DigitsValue(d) == if i < 0 then -i else i
  {
    var n: nat := if i < 0 then -i else i;
    NatDigitsValue(n);
    NatDigitsLead(n);
    if i < 0 then "-" + NatDigits(n) else NatDigits(n)
  }

  /** The text of n starts with '0' only when n is 0. */
  lemma {:induction false} NatDigitsLead(n: nat)
    ensures NatDigits(n)[0] == '0' <==> n == 0
    decreases n
  {
    if n >= 10 {
      NatDigitsLead(n / 10);
    }
  }

  lemma {:induction false} NatDigitsValue(n: nat)
    ensures DigitsValue(NatDigits(n)) == n
    decreases n
  {
    var d := NatDigits(n);
    if n >= 10 {
      NatDigitsValue(n / 10);
      assert d[..|d| - 1] == NatDigits(n / 10);
    }
  }

  /** WhiteEnd stops exactly at the first non-white position. */
  lemma WhiteEndAt(s: string, i: nat, j: nat)
    requires i <= j <= |s|
    requires forall k :: i <= k < j ==> IsWhite(s[k])
    requires j < |s| ==> !IsWhite(s[j])
    ensures WhiteEnd(s, i) == j
  {
  }

  /** DigitsEnd stops exactly at the first non-digit position. */
  lemma DigitsEndAt(s: string, i: nat, j: nat)
    requires i <= j <= |s|
    requires forall k :: i <= k < j ==> IsDigit(s[k])
    requires j < |s| ==> !IsDigit(s[j])
    ensures DigitsEnd(s, i) == j
  {
  }

  /** Every string of the accepted shape parses to its signed value, or
      overflows when that value lies outside Int32. */
  lemma ParseAccepts(w1: string, sign: string, d: string, w2: string, z: string)
    requires AllWhite(w1) && sign in {"", "+", "-"} && d != [] && AllDigits(d)
    requires AllWhite(w2) && AllNul(z)
    ensures var v := Signed(sign, DigitsValue(d));
      Parse(w1 + sign + d + w2 + z) == if InInt32(v) then Success(v) else Failure(OverflowError)
  {
    var a, b, c, e := |w1|, |w1| + |sign|, |w1| + |sign| + |d|, |w1| + |sign| + |d| + |w2|;
    var s := w1 + sign + d + w2 + z;
    Slices(w1, sign, d, w2, z);
    assert s[..a] == w1 && s[a..b] == sign && s[b..c] == d && s[c..e] == w2 && s[e..] == z;
    assert AllWhite(s[..a]) && AllDigits(s[b..c]) && AllWhite(s[c..e]) && AllNul(s[e..]);
    ParseShape(s, a, b, c, e);
  }

  /** Where the five parts of a concatenation sit. */
  lemma Slices(w1: string, sign: string, d: string, w2: string, z: string)
    ensures var s := w1 + sign + d + w2 + z;
      var a, b, c, e := |w1|, |w1| + |sign|, |w1| + |sign| + |d|, |w1| + |sign| + |d| + |w2|;
      s[..a] == w1 && s[a..b] == sign && s[b..c] == d && s[c..e] == w2 && s[e..] == z
  {
  }

  /** Parse on a string cut into the five parts of the accepted shape. */
  lemma ParseShape(s: string, a: nat, b: nat, c: nat, e: nat)
    requires a <= b < c <= e <= |s|
    requires AllWhite(s[..a]) && s[a..b] in {"", "+", "-"} && AllDigits(s[b..c])
    requires AllWhite(s[c..e]) && AllNul(s[e..])
    ensures var v := Signed(s[a..b], DigitsValue(s[b..c]));
      Parse(s) == if InInt32(v) then Success(v) else Failure(OverflowError)
  {
    assert forall k :: 0 <= k < a ==> s[k] == s[..a][k];
    assert s[a] == if a == b then s[b..c][0] else s[a..b][0];
    WhiteEndAt(s, 0, a);
    assert forall k :: b <= k < c ==> s[k] == s[b..c][k - b];
    assert c < |s| ==> s[c] == if c < e then s[c..e][0] else s[e..][0];
    DigitsEndAt(s, b, c);
    assert forall k :: c <= k < e ==> s[k] == s[c..e][k - c];
    assert e < |s| ==> s[e] == s[e..][0];
    WhiteEndAt(s, c, e);
    ParseAt(s, a, b, c, e);
  }

  /** Parse, once the positions its scans stop at are known. */
  lemma ParseAt(s: string, a: nat, b: nat, c: nat, e: nat)
    requires a <= |s| && WhiteEnd(s, 0) == a
    requires b == if a < |s| && (s[a] == '-' || s[a] == '+') then a + 1 else a
    requires b < c <= |s| && DigitsEnd(s, b) == c
    requires c <= e <= |s| && WhiteEnd(s, c) == e && AllNul(s[e..])
    ensures var v := Signed(s[a..b], DigitsValue(s[b..c]));
      Parse(s) == if InInt32(v) then Success(v) else Failure(OverflowError)
  {
  }

  /** A string is the concatenation of its five consecutive slices. */
  lemma Rejoin(s: string, a: nat, b: nat, c: nat, e: nat)
    requires a <= b <= c <= e <= |s|
    ensures s == s[..a] + s[a..b] + s[b..c] + s[c..e] + s[e..]
  {
    assert s[..a] + s[a..b] == s[..b];
    assert s[..b] + s[b..c] == s[..c];
    assert s[..c] + s[c..e] == s[..e];
    assert s[..e] + s[e..] == s;
  }

  /** Conversely, every string that is not a FormatError has that shape, and
      its result is the shape's signed value or an overflow. Together with
      ParseAccepts: Parse(s) is a FormatError exactly when s is malformed. */
  lemma ParseDecomposes(s: string) returns (w1: string, sign: string, d: string, w2: string, z: string)
    requires Parse(s) != Failure(FormatError)
    ensures s == w1 + sign + d + w2 + z
    ensures AllWhite(w1) && sign in {"", "+", "-"} && d != [] && AllDigits(d)
    ensures AllWhite(w2) && AllNul(z)
    ensures var v := Signed(sign, DigitsValue(d));
      Parse(s) == if InInt32(v) then Success(v) else Failure(OverflowError)
  {
    var a := WhiteEnd(s, 0);
    var b := if a < |s| && (s[a] == '-' || s[a] == '+') then a + 1 else a;
    var c := DigitsEnd(s, b);
    var e := WhiteEnd(s, c);
    assert b < c && AllNul(s[e..]);
    ParseAt(s, a, b, c, e);
    ScanShape(s, a, b, c, e);
    Rejoin(s, a, b, c, e);
    w1, sign, d, w2, z := s[..a], s[a..b], s[b..c], s[c..e], s[e..];
  }

  /** The slices between the positions Parse's scans stop at. */
  lemma ScanShape(s: string, a: nat, b: nat, c: nat, e: nat)
    requires a <= |s| && WhiteEnd(s, 0) == a
    requires b == if a < |s| && (s[a] == '-' || s[a] == '+') then a + 1 else a
    requires b <= c <= |s| && DigitsEnd(s, b) == c
    requires c <= e <= |s| && WhiteEnd(s, c) == e
    ensures AllWhite(s[..a]) && s[a..b] in {"", "+", "-"} && AllDigits(s[b..c]) && AllWhite(s[c..e])
  {
    assert b == a ==> s[a..b] == "";
    assert b == a + 1 ==> s[a..b] == [s[a]] && (s[a..b] == "-" || s[a..b] == "+");
    assert forall k :: 0 <= k < c - b ==> s[b..c][k] == s[b + k];
    assert forall k :: 0 <= k < a ==> s[..a][k] == s[k];
    assert forall k :: 0 <= k < e - c ==> s[c..e][k] == s[c + k];
  }

  /** Formatting then parsing gives back every Int32. */
  lemma {:induction false} ParseFormat(i: int)
    requires InInt32(i)
    ensures Parse(Format(i)) == Success(i)
  {
    var s := Format(i);
    var sign := if i < 0 then "-" else "";
    var d := if i < 0 then s[1..] else s;
    assert s == [] + sign + d + [] + [] by {
      if i < 0 {
        assert s == [s[0]] + s[1..];
      }
    }
    ParseAccepts([], sign, d, [], []);
  }
}
