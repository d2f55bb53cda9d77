/**
 * Amount parsing (`parse_amount`): a debit or credit cell becomes an exact decimal written with
 * exactly four fraction digits, or nothing when the cell is blank or not a number.
 */
module Amount {
  import opened Wrappers
  import opened Text
  import opened Numerals

  /** A plain decimal literal as `Decimal(...)` reads it: sign, integer digits, fraction digits. */
  datatype Decimal = Decimal(negative: bool, intDigits: string, fracDigits: string)

  predicate WellFormed(d: Decimal) {
    AllDigits(d.intDigits) && AllDigits(d.fracDigits) && |d.intDigits| + |d.fracDigits| > 0
  }

  /** The digits of `d` read as one integer: the value of `d` is this times 10^-|fracDigits|. */
  function Unscaled(d: Decimal): nat
    requires WellFormed(d)
  {
    DigitsValue(d.intDigits) * Pow10(|d.fracDigits|) + DigitsValue(d.fracDigits)
  }

  /**
   * The comma/dot rule: when both occur, the one that occurs last is the decimal mark and the
   * other is a thousands separator and is deleted; a lone comma is the decimal mark.
   */
  function Disambiguate(s: string): (r: string)
    ensures ',' !in r
  {
    if ',' in s && '.' in s then
      if RFind(s, ',') > RFind(s, '.') then ReplaceChar(RemoveChar(s, '.'), ',', '.')
      else RemoveChar(s, ',')
    else if ',' in s then ReplaceChar(RemoveChar(s, '.'), ',', '.')
    else s
  }

  /** The index of the first `c` in `s`, or -1. */
  function FirstIndex(s: string, c: char): (r: int)
    ensures -1 <= r < |s|
    ensures r == -1 <==> c !in s
    ensures r >= 0 ==> s[r] == c && c !in s[..r]
  {
    if s == [] then -1
    else if s[0] == c then 0
    else
      var k := FirstIndex(s[1..], c);
      if k == -1 then -1
      else
        assert s[..k + 1] == [s[0]] + s[1..][..k];
        k + 1
  }

  /**
   * `Decimal(s)` for the plain syntax: surrounding whitespace, an optional sign, digits with at
   * most one point and at least one digit. Anything else is `InvalidOperation`, here `None`.
   */
  function ParseDecimal(s: string): (r: Option<Decimal>)
    ensures r.Some? ==> WellFormed(r.value)
  {
    ParseSigned(Strip(s))
  }

  /** The stripped text: an optional '+' or '-', then the unsigned part. */
  function ParseSigned(t: string): (r: Option<Decimal>)
    ensures r.Some? ==> WellFormed(r.value)
  {
    if |t| > 0 && (t[0] == '+' || t[0] == '-') then ParseUnsigned(t[0] == '-', t[1..])
    else ParseUnsigned(false, t)
  }

  /** The length of the sign in front of a stripped decimal: 1 for '+' or '-', else 0. */
  function SignLength(t: string): nat {
    if |t| > 0 && (t[0] == '+' || t[0] == '-') then 1 else 0
  }

  /** The plain syntax after the sign: digits, or digits, one point and digits; at least one digit. */
  predicate PlainBody(b: string) {
    || (b != [] && AllDigits(b))
    || (exists k :: 0 <= k < |b| && b[k] == '.' && AllDigits(b[..k]) && AllDigits(b[k + 1..]) && |b| > 1)
  }

  /**
   * `Decimal(s)` accepts exactly the plain syntax, and what it returns is read off the text: the
   * sign, the digits before the point and the digits after it.
   */
  lemma ParseDecimalExact(s: string)
    ensures var t := Strip(s); var b := t[SignLength(t)..];
      ParseDecimal(s).Some? <==> PlainBody(b)
    ensures var t := Strip(s); var b := t[SignLength(t)..];
      ParseDecimal(s).Some? ==>
        && ParseDecimal(s).value.negative == (SignLength(t) == 1 && t[0] == '-')
        && b == (if '.' in b then ParseDecimal(s).value.intDigits + "." + ParseDecimal(s).value.fracDigits
                else ParseDecimal(s).value.intDigits)
        && ('.' !in b ==> ParseDecimal(s).value.fracDigits == "")
  {
    var t := Strip(s);
    var n := SignLength(t);
    var b := t[n..];
    var neg := n == 1 && t[0] == '-';
    assert ParseDecimal(s) == ParseUnsigned(neg, b);
    UnsignedExact(neg, b);
  }

  /** The unsigned part parses exactly when it has the plain syntax, into its own digits. */
  lemma UnsignedExact(negative: bool, b: string)
    ensures ParseUnsigned(negative, b).Some? <==> PlainBody(b)
    ensures ParseUnsigned(negative, b).Some? ==>
      && ParseUnsigned(negative, b).value.negative == negative
      && b == (if '.' in b then ParseUnsigned(negative, b).value.intDigits + "." + ParseUnsigned(negative, b).value.fracDigits
                else ParseUnsigned(negative, b).value.intDigits)
      && ('.' !in b ==> ParseUnsigned(negative, b).value.fracDigits == "")
  {
    var k := FirstIndex(b, '.');
    var r := ParseUnsigned(negative, b);
    if k < 0 {
      UnsignedNoPoint(negative, b);
      if r.Some? {
        assert r.value == Decimal(negative, b, "");
        assert b == r.value.intDigits;
      }
    } else {
      UnsignedPoint(negative, b, k);
      if r.Some? {
        assert r.value == Decimal(negative, b[..k], b[k + 1..]);
        assert b == r.value.intDigits + "." + r.value.fracDigits;
      }
    }
  }

  /** Without a point, the unsigned part parses into its own digits exactly when it is plain. */
  lemma UnsignedNoPoint(negative: bool, b: string)
    requires '.' !in b
    ensures ParseUnsigned(negative, b) == if PlainBody(b) then Some(Decimal(negative, b, "")) else None
  {
    NoPointBody(b);
    assert FirstIndex(b, '.') == -1;
  }

  /** With its first point at `k`, the unsigned part parses into the digits on either side exactly when it is plain. */
  lemma UnsignedPoint(negative: bool, b: string, k: int)
    requires 0 <= k && k == FirstIndex(b, '.')
    ensures 0 <= k < |b| && b == b[..k] + "." + b[k + 1..] && '.' in b
    ensures ParseUnsigned(negative, b) == if PlainBody(b) then Some(Decimal(negative, b[..k], b[k + 1..])) else None
  {
    PointBody(b, k);
    assert b[k] in b;
  }

  /** Without a point, the plain syntax is a non-empty run of digits. */
  lemma NoPointBody(b: string)
    requires '.' !in b
    ensures PlainBody(b) <==> b != [] && AllDigits(b)
  {
    forall k | 0 <= k < |b|
      ensures b[k] != '.'
    {
      assert b[k] in b;
    }
  }

  /** With its first point at `k`, the plain syntax is digits on both sides, at least one digit. */
  lemma PointBody(b: string, k: int)
    requires 0 <= k < |b| && b[k] == '.' && '.' !in b[..k]
    ensures PlainBody(b) <==> AllDigits(b[..k]) && AllDigits(b[k + 1..]) && |b[..k]| + |b[k + 1..]| > 0
    ensures b == b[..k] + "." + b[k + 1..]
  {
    SplitAt(b, k);
    if AllDigits(b[..k]) && AllDigits(b[k + 1..]) && |b[..k]| + |b[k + 1..]| > 0 {
      assert |b| > 1;
    }
    if PlainBody(b) {
      assert !(b != [] && AllDigits(b)) by {
        assert !IsDigit(b[k]);
      }
      var j :| 0 <= j < |b| && b[j] == '.' && AllDigits(b[..j]) && AllDigits(b[j + 1..]) && |b| > 1;
      if k < j {
        assert !IsDigit(b[..j][k]);
      }
    }
  }

  /** The part after the sign: integer digits, then optionally a point and fraction digits. */
  function ParseUnsigned(negative: bool, body: string): (r: Option<Decimal>)
    ensures r.Some? ==> WellFormed(r.value) && r.value.negative == negative
  {
    var k := FirstIndex(body, '.');
    var intPart := if k < 0 then body else body[..k];
    var fracPart := if k < 0 then "" else body[k + 1..];
    if AllDigits(intPart) && AllDigits(fracPart) && |intPart| + |fracPart| > 0 then
      Some(Decimal(negative, intPart, fracPart))
    else
      None
  }

  /** Rounds `v / unit` to the nearest integer, ties to the even one (`ROUND_HALF_EVEN`). */
  function RoundHalfEven(v: nat, unit: nat): (r: nat)
    requires unit > 0
    ensures v / unit <= r <= v / unit + 1
    ensures v % unit == 0 ==> r * unit == v
  {
    var q := v / unit;
    var rem := v % unit;
    if 2 * rem > unit || (2 * rem == unit && q % 2 == 1) then q + 1 else q
  }

  /** The rounded quotient is within half a unit of `v`, and on a tie it is even. */
  lemma RoundHalfEvenNearest(v: nat, unit: nat)
    requires unit > 0
    ensures var q := RoundHalfEven(v, unit);
      && 2 * (q * unit - v) <= unit && 2 * (v - q * unit) <= unit
      && (2 * (q * unit - v) == unit || 2 * (v - q * unit) == unit ==> q % 2 == 0)
  {
    var q := v / unit;
    var m := q * unit;
    assert v == m + v % unit;
    var r := RoundHalfEven(v, unit);
    if r == q + 1 {
      assert r * unit == m + unit;
    } else {
      assert r * unit == m;
    }
  }

  /** The magnitude of `d` rounded half-even to four places, in units of 0.0001. */
  function Quantize4(d: Decimal): (r: nat)
    requires WellFormed(d)
    ensures Unscaled(d) == 0 ==> r == 0
    ensures var k := |d.fracDigits|; k > 4 ==> Unscaled(d) / Pow10(k - 4) <= r <= Unscaled(d) / Pow10(k - 4) + 1
  {
    var k := |d.fracDigits|;
    if k <= 4 then Unscaled(d) * Pow10(4 - k) else RoundHalfEven(Unscaled(d), Pow10(k - 4))
  }

  /**
   * `Quantize4(d)` ten-thousandths is the four-place value nearest to `d`, the even one on a tie;
   * with at most four fraction digits it is `d` exactly.
   */
  lemma Quantize4Nearest(d: Decimal)
    requires WellFormed(d)
    ensures var k := |d.fracDigits|; var n := Quantize4(d);
      && 2 * (n * Pow10(k) - Unscaled(d) * 10000) <= Pow10(k)
      && 2 * (Unscaled(d) * 10000 - n * Pow10(k)) <= Pow10(k)
      && (k <= 4 ==> n * Pow10(k) == Unscaled(d) * 10000)
  {
    var k := |d.fracDigits|;
    var u := Unscaled(d);
    if k <= 4 {
      Pow10Add(4 - k, k);
      MulAssoc(u, Pow10(4 - k), Pow10(k));
    } else {
      var unit := Pow10(k - 4);
      Pow10Add(k - 4, 4);
      RoundHalfEvenNearest(u, unit);
      ScaledDistance(RoundHalfEven(u, unit), u, unit);
    }
  }

  lemma MulAssoc(a: int, b: int, c: int)
    ensures (a * b) * c == a * (b * c)
  {
  }

  /** Scaling both the value and the unit by 10^4 keeps "within half a unit". */
  lemma ScaledDistance(q: nat, u: nat, unit: nat)
    requires unit > 0
    requires 2 * (q * unit - u) <= unit && 2 * (u - q * unit) <= unit
    ensures 2 * (q * (unit * 10000) - u * 10000) <= unit * 10000
    ensures 2 * (u * 10000 - q * (unit * 10000)) <= unit * 10000
  {
    var x := q * unit - u;
    assert q * (unit * 10000) - u * 10000 == x * 10000;
    assert u * 10000 - q * (unit * 10000) == -x * 10000;
  }

  lemma {:induction false} Pow10Add(i: nat, j: nat)
    ensures Pow10(i) * Pow10(j) == Pow10(i + j)
  {
    if i > 0 {
      Pow10Add(i - 1, j);
      MulAssoc(10, Pow10(i - 1), Pow10(j));
    }
  }

  /** `f'{q:.4f}'`: a sign for negative values (negative zero included), the integer part, four digits. */
  function FormatFixed4(negative: bool, n: nat): (t: string)
    ensures IsFixed4(t)
  {
    var ip := NatToDigits(n / 10000);
    var fp := PadLeft(n % 10000, 4);
    var t := (if negative then "-" else "") + ip + "." + fp;
    assert t[|t| - 4..] == fp;
    assert t[..|t| - 5] == (if negative then "-" else "") + ip;
    t
  }

  /** The shape of every result: an optional '-', at least one digit, a point and four digits. */
  predicate IsFixed4(t: string) {
    && |t| >= 6
    && t[|t| - 5] == '.'
    && AllDigits(t[|t| - 4..])
    && var p := t[..|t| - 5];
       var m := if p[0] == '-' then p[1..] else p;
       |m| >= 1 && AllDigits(m)
  }

  /** `parse_amount`: blank or absent cells and unparseable text give `None`; nothing raises. */
  function ParseAmount(x: Option<string>): (r: Option<string>)
    ensures x == None || Strip(x.value) == "" ==> r == None
    ensures r.Some? ==> IsFixed4(r.value)
  {
    match x
    case None => None
    case Some(raw) =>
      var s := Strip(raw);
      if s == "" then None
      else
        match ParseDecimal(Disambiguate(s))
        case None => None
        case Some(d) => Some(FormatFixed4(d.negative, Quantize4(d)))
  }

  /** `float(t) != 0.0` for a four-place amount: some digit of it is not zero. */
  predicate NonzeroAmount(t: string) {
    exists i :: 0 <= i < |t| && '1' <= t[i] <= '9'
  }

  /** The nonzero test agrees with the rounded value: an amount that rounds to 0.0000 counts as zero. */
  lemma NonzeroIffRoundedNonzero(negative: bool, n: nat)
    ensures NonzeroAmount(FormatFixed4(negative, n)) <==> n != 0
  {
    var ip := NatToDigits(n / 10000);
    var fp := PadLeft(n % 10000, 4);
    var sign := Sign(negative);
    FormatParts(negative, n);
    NonzeroConcat(sign, ip + ("." + fp));
    NonzeroConcat(ip, "." + fp);
    NonzeroConcat(".", fp);
    SignAndPointAreZero(negative);
    ZeroDigits(ip);
    ZeroDigits(fp);
    SplitNonzero(n);
  }

  function Sign(negative: bool): string {
    if negative then "-" else ""
  }

  lemma FormatParts(negative: bool, n: nat)
    ensures FormatFixed4(negative, n) == Sign(negative) + (NatToDigits(n / 10000) + ("." + PadLeft(n % 10000, 4)))
  {
  }

  lemma SplitNonzero(n: nat)
    ensures n != 0 <==> n / 10000 != 0 || n % 10000 != 0
  {
  }

  lemma SignAndPointAreZero(negative: bool)
    ensures !NonzeroAmount(Sign(negative)) && !NonzeroAmount(".")
  {
  }

  lemma NonzeroConcat(x: string, y: string)
    ensures NonzeroAmount(x + y) <==> NonzeroAmount(x) || NonzeroAmount(y)
  {
    if NonzeroAmount(x + y) {
      var i :| 0 <= i < |x + y| && '1' <= (x + y)[i] <= '9';
      if i >= |x| {
        assert y[i - |x|] == (x + y)[i];
      } else {
        assert x[i] == (x + y)[i];
      }
    }
    if NonzeroAmount(x) {
      var i :| 0 <= i < |x| && '1' <= x[i] <= '9';
      assert (x + y)[i] == x[i];
    }
    if NonzeroAmount(y) {
      var i :| 0 <= i < |y| && '1' <= y[i] <= '9';
      assert (x + y)[|x| + i] == y[i];
    }
  }

  /** A digit string denotes zero exactly when none of its digits is '1' to '9'. */
  lemma {:induction false} ZeroDigits(s: string)
    requires AllDigits(s)
    ensures DigitsValue(s) == 0 <==> !NonzeroAmount(s)
  {
    if s != [] {
      var s' := s[..|s| - 1];
      ZeroDigits(s');
      NonzeroConcat(s', [s[|s| - 1]]);
      assert s == s' + [s[|s| - 1]];
    }
  }

  /** A formatted amount has no comma and no whitespace at its edges. */
  lemma FormatPlain(negative: bool, n: nat)
    ensures var t := FormatFixed4(negative, n);
      t != "" && ',' !in t && !IsSpace(t[0]) && !IsSpace(t[|t| - 1])
      && (!negative ==> IsDigit(t[0])) && (negative ==> t[0] == '-')
  {
    FormatParts(negative, n);
    PlainParts(negative, NatToDigits(n / 10000), PadLeft(n % 10000, 4));
  }

  lemma PlainParts(negative: bool, ip: string, fp: string)
    requires AllDigits(ip) && AllDigits(fp) && ip != [] && fp != []
    ensures var t := Sign(negative) + (ip + ("." + fp));
      t != "" && ',' !in t && !IsSpace(t[0]) && !IsSpace(t[|t| - 1])
      && (!negative ==> IsDigit(t[0])) && (negative ==> t[0] == '-')
  {
    NoComma(ip);
    NoComma(fp);
    var t := Sign(negative) + (ip + ("." + fp));
    assert forall x :: x in t ==> x in Sign(negative) || x in ip || x == '.' || x in fp;
    assert t[|t| - 1] == fp[|fp| - 1];
    assert !negative ==> t[0] == ip[0];
  }

  lemma NoComma(s: string)
    requires AllDigits(s)
    ensures ',' !in s
  {
  }

  /** In "digits.digits" the first point is the one after the integer digits. */
  lemma PointAfterDigits(ip: string, fp: string)
    requires AllDigits(ip)
    ensures FirstIndex(ip + ("." + fp), '.') == |ip|
  {
    var body := ip + ("." + fp);
    var k := FirstIndex(body, '.');
    assert body[|ip|] == '.';
    assert body[..|ip|] == ip;
  }

  /** Formatting then parsing gives back the same rounded magnitude and sign. */
  lemma FormatParses(negative: bool, n: nat)
    ensures var t := FormatFixed4(negative, n);
      && Strip(t) == t && t != "" && Disambiguate(t) == t
      && ParseDecimal(t) == Some(Decimal(negative, NatToDigits(n / 10000), PadLeft(n % 10000, 4)))
  {
    var ip, fp := NatToDigits(n / 10000), PadLeft(n % 10000, 4);
    FormatParts(negative, n);
    PlainParses(negative, ip, fp);
  }

  lemma PlainParses(negative: bool, ip: string, fp: string)
    requires AllDigits(ip) && AllDigits(fp) && ip != [] && fp != []
    ensures var t := Sign(negative) + (ip + ("." + fp));
      Strip(t) == t && t != "" && Disambiguate(t) == t && ParseDecimal(t) == Some(Decimal(negative, ip, fp))
  {
    var t := Sign(negative) + (ip + ("." + fp));
    PlainParts(negative, ip, fp);
    assert Strip(t) == t;
    StrippedParses(t);
    SignedPointParses(negative, ip, fp);
  }

  /** Text that is already stripped is parsed as it stands. */
  lemma StrippedParses(t: string)
    requires Strip(t) == t
    ensures ParseDecimal(t) == ParseSigned(t)
  {
  }

  /** `[-]digits.digits` with at least one digit after the point parses to its parts. */
  lemma SignedPointParses(negative: bool, ip: string, fp: string)
    requires AllDigits(ip) && AllDigits(fp) && |fp| >= 1
    requires !negative ==> ip != [] && IsDigit(ip[0])
    ensures ParseSigned(Sign(negative) + (ip + ("." + fp))) == Some(Decimal(negative, ip, fp))
  {
    var body := ip + ("." + fp);
    assert !negative ==> body[0] == ip[0];
    SignedDispatch(negative, body);
    PointParses(negative, ip, fp);
  }

  /** A leading '-' is the sign; a body starting with a digit has none. */
  lemma SignedDispatch(negative: bool, body: string)
    requires !negative ==> body != [] && IsDigit(body[0])
    ensures ParseSigned(Sign(negative) + body) == ParseUnsigned(negative, body)
  {
    SignedBody(negative, body);
    if negative {
      var t := Sign(negative) + body;
      assert t[0] == '-';
    } else {
      assert body[0] != '+' && body[0] != '-';
    }
  }

  lemma PointParses(negative: bool, ip: string, fp: string)
    requires AllDigits(ip) && AllDigits(fp) && |fp| >= 1
    ensures ParseUnsigned(negative, ip + ("." + fp)) == Some(Decimal(negative, ip, fp))
  {
    PointAfterDigits(ip, fp);
    BodySplit(ip, fp);
  }

  lemma BodySplit(ip: string, fp: string)
    ensures (ip + ("." + fp))[..|ip|] == ip && (ip + ("." + fp))[|ip| + 1..] == fp
  {
  }

  lemma SignedBody(negative: bool, body: string)
    ensures negative ==> (Sign(negative) + body)[1..] == body
    ensures !negative ==> Sign(negative) + body == body
  {
  }

  /** Parsing a formatted amount gives back that amount: `parse_amount` is a fixed point on its results. */
  lemma ParseFormatRoundTrip(negative: bool, n: nat)
    ensures ParseAmount(Some(FormatFixed4(negative, n))) == Some(FormatFixed4(negative, n))
  {
    var t := FormatFixed4(negative, n);
    FormatParses(negative, n);
    var d := Decimal(negative, NatToDigits(n / 10000), PadLeft(n % 10000, 4));
    ParseAmountOf(t, d);
    QuantizeFormatted(negative, n);
  }

  /** The amount parsed from text that needs no stripping and no separator rewrite. */
  lemma ParseAmountOf(t: string, d: Decimal)
    requires Strip(t) == t && t != "" && Disambiguate(t) == t && ParseDecimal(t) == Some(d)
    ensures ParseAmount(Some(t)) == Some(FormatFixed4(d.negative, Quantize4(d)))
  {
  }

  /** The parts a formatted amount is written in denote that amount exactly. */
  lemma QuantizeFormatted(negative: bool, n: nat)
    ensures Quantize4(Decimal(negative, NatToDigits(n / 10000), PadLeft(n % 10000, 4))) == n
  {
    var ip, fp := NatToDigits(n / 10000), PadLeft(n % 10000, 4);
    assert Pow10(4) == 10000 && Pow10(0) == 1;
    assert |fp| == 4;
    var d := Decimal(negative, ip, fp);
    assert Unscaled(d) == n / 10000 * 10000 + n % 10000;
  }

  /** Normalising an already normalised amount changes nothing (both as text and as `None`). */
  lemma ParseAmountIdempotent(x: Option<string>)
    requires ParseAmount(x).Some?
    ensures ParseAmount(Some(ParseAmount(x).value)) == ParseAmount(x)
  {
    var d :| ParseDecimal(Disambiguate(Strip(x.value))) == Some(d);
    ParseFormatRoundTrip(d.negative, Quantize4(d));
  }

  /**
   * The rewrite keeps every character that is not a separator, in order: only commas and dots
   * are deleted or turned into the decimal point.
   */
  lemma DisambiguateKeepsDigits(s: string)
    ensures RemoveChar(Disambiguate(s), '.') == RemoveChar(RemoveChar(s, ','), '.')
  {
    if ',' in s && (('.' in s && RFind(s, ',') > RFind(s, '.')) || '.' !in s) {
      RemoveAfterReplace(RemoveChar(s, '.'), ',', '.');
      RemoveCommutes(s, '.', ',');
    }
  }

  /**
   * Which separator becomes the point: the later one when both occur, the comma when it occurs
   * alone; the result then holds exactly as many points as the input held of that separator.
   */
  lemma DisambiguatePoints(s: string)
    ensures ',' in s && '.' in s && RFind(s, ',') > RFind(s, '.') ==> Count(Disambiguate(s), '.') == Count(s, ',')
    ensures ',' in s && '.' in s && RFind(s, ',') < RFind(s, '.') ==> Count(Disambiguate(s), '.') == Count(s, '.')
    ensures ',' in s && '.' !in s ==> Count(Disambiguate(s), '.') == Count(s, ',')
    ensures ',' !in s ==> Disambiguate(s) == s
  {
    var noDots := RemoveChar(s, '.');
    CountReplace(noDots, ',', '.');
    CountRemoveOther(s, '.', ',');
    CountAbsent(noDots, '.');
    CountRemoveOther(s, ',', '.');
  }

  /**
   * Where the decimal point lands when the comma is the later separator, or the only one: at the
   * comma's position, with the dots before it deleted (and any earlier comma turned into a point
   * too), the part after it kept as it is.
   */
  lemma DisambiguateCommaPoint(s: string, p: int)
    requires ',' in s && ('.' !in s || RFind(s, ',') > RFind(s, '.')) && p == RFind(s, ',')
    ensures Disambiguate(s) == ReplaceChar(RemoveChar(s[..p], '.'), ',', '.') + "." + s[p + 1..]
    ensures Count(s, ',') == 1 ==> Disambiguate(s) == RemoveChar(s[..p], '.') + "." + s[p + 1..]
  {
    assert Disambiguate(s) == ReplaceChar(RemoveChar(s, '.'), ',', '.');
    TailFree(s, p, ',');
    if '.' in s {
      TailFree(s, p, '.');
    }
    SplitAt(s, p);
    CommaSplit(s, s[..p], s[p + 1..]);
  }

  /** Nothing after position `p` is `c` when `c` last occurs at or before `p`. */
  lemma TailFree(s: string, p: int, c: char)
    requires 0 <= p < |s| && (c !in s || RFind(s, c) <= p)
    ensures c !in s[p + 1..]
  {
    var y := s[p + 1..];
    forall j | 0 <= j < |y|
      ensures y[j] != c
    {
      assert y[j] == s[p + 1 + j];
    }
  }

  /** A text is its part before `p`, the character at `p` and its part after `p`. */
  lemma SplitAt(s: string, p: int)
    requires 0 <= p < |s|
    ensures s == s[..p] + [s[p]] + s[p + 1..]
  {
  }

  /** The comma rewrite of `x`, a comma and a tail with no separator. */
  lemma CommaSplit(s: string, x: string, y: string)
    requires s == x + [','] + y && ',' !in y && '.' !in y
    ensures ReplaceChar(RemoveChar(s, '.'), ',', '.') == ReplaceChar(RemoveChar(x, '.'), ',', '.') + "." + y
    ensures Count(s, ',') == 1 ==> ReplaceChar(RemoveChar(s, '.'), ',', '.') == RemoveChar(x, '.') + "." + y
  {
    RemoveConcat(x + [','], y, '.');
    RemoveConcat(x, [','], '.');
    var rx := RemoveChar(x, '.');
    assert RemoveChar([','], '.') == [','];
    assert RemoveChar(s, '.') == rx + [','] + y;
    ReplaceConcat(rx + [','], y, ',', '.');
    ReplaceConcat(rx, [','], ',', '.');
    ReplaceAbsent(y, ',', '.');
    assert ReplaceChar([','], ',', '.') == ".";
    if Count(s, ',') == 1 {
      CountConcat(x + [','], y, ',');
      CountConcat(x, [','], ',');
      CountAbsent(y, ',');
      if ',' in x {
        CountPresent(x, ',');
      }
      ReplaceAbsent(rx, ',', '.');
    }
  }

  /**
   * Where the decimal point lands when the dot is the later separator: at that dot's position,
   * with the commas before it deleted and the part after it kept as it is.
   */
  lemma DisambiguateDotPoint(s: string, q: int)
    requires ',' in s && '.' in s && RFind(s, '.') > RFind(s, ',') && q == RFind(s, '.')
    ensures Disambiguate(s) == RemoveChar(s[..q], ',') + "." + s[q + 1..]
  {
    assert Disambiguate(s) == RemoveChar(s, ',');
    TailFree(s, q, ',');
    SplitAt(s, q);
    DotSplit(s, s[..q], s[q + 1..]);
  }

  /** Removing the commas from `x`, a point and a tail with no comma. */
  lemma DotSplit(s: string, x: string, y: string)
    requires s == x + ['.'] + y && ',' !in y
    ensures RemoveChar(s, ',') == RemoveChar(x, ',') + "." + y
  {
    RemoveConcat(x + ['.'], y, ',');
    RemoveConcat(x, ['.'], ',');
    assert RemoveChar(['.'], ',') == ".";
  }
}

/** The inputs the comma/dot rule is written for, evaluated step by step. */
module AmountExamples {
  import opened Wrappers
  import opened Text
  import opened Numerals
  import opened Amount

  /** A bare integer parses. */
  lemma PlainInteger()
    ensures ParseDecimal("5") == Some(Decimal(false, "5", ""))
  {
    assert Strip("5") == "5";
    assert FirstIndex("5", '.') == -1;
  }

  /** A leading '+' is dropped. */
  lemma PlusSign()
    ensures ParseDecimal("+5") == Some(Decimal(false, "5", ""))
  {
    assert Strip("+5") == "+5";
    assert "+5"[1..] == "5";
    assert FirstIndex("5", '.') == -1;
  }

  /** A trailing point leaves an empty fraction. */
  lemma TrailingPoint()
    ensures ParseDecimal("5.") == Some(Decimal(false, "5", ""))
  {
    assert Strip("5.") == "5.";
    assert FirstIndex("5.", '.') == 1;
    assert "5."[..1] == "5" && "5."[2..] == "";
  }

  /** A missing integer part is allowed after a sign. */
  lemma MissingIntegerPart()
    ensures ParseDecimal("-.5") == Some(Decimal(true, "", "5"))
  {
    assert Strip("-.5") == "-.5";
    assert "-.5"[1..] == ".5";
    assert ParseSigned("-.5") == ParseUnsigned(true, ".5");
    assert ParseUnsigned(true, ".5") == Some(Decimal(true, "", "5")) by {
      assert FirstIndex(".5", '.') == 0;
      assert ".5"[..0] == "" && ".5"[1..] == "5";
    }
  }

  /** A lone point has no digit. */
  lemma LonePoint()
    ensures ParseDecimal(".") == None
  {
    assert Strip(".") == ".";
    assert FirstIndex(".", '.') == 0;
    assert "."[..0] == "" && "."[1..] == "";
  }

  /** A second point is not a digit of the fraction. */
  lemma SecondPoint()
    ensures ParseDecimal("1.2.3") == None
  {
    assert Strip("1.2.3") == "1.2.3";
    assert FirstIndex("1.2.3", '.') == 1;
    assert "1.2.3"[2..] == "2.3" && !IsDigit("2.3"[1]);
  }

  /** European grouping: "1.234,56" is one thousand two hundred thirty-four and 56 hundredths. */
  lemma EuropeanGrouping()
    ensures ParseAmount(Some("1.234,56")) == Some("1234.5600")
  {
    EuropeanRewrite();
    Parsed1234p56();
  }

  /** English grouping gives the same amount: "1,234.56". */
  lemma EnglishGrouping()
    ensures ParseAmount(Some("1,234.56")) == Some("1234.5600")
  {
    EnglishRewrite();
    Parsed1234p56();
  }

  lemma EuropeanRewrite()
    ensures Strip("1.234,56") == "1.234,56"
    ensures Disambiguate("1.234,56") == "1234.56"
  {
    EuropeanEdges();
    EuropeanLastMarks();
    EuropeanDotsRemoved();
    EuropeanCommaReplaced();
  }

  lemma EuropeanEdges()
    ensures Strip("1.234,56") == "1.234,56"
  {
    DigitEdgesKept("1.234,56");
  }

  lemma EuropeanLastMarks()
    ensures ',' in "1.234,56" && '.' in "1.234,56"
    ensures RFind("1.234,56", ',') == 5 && RFind("1.234,56", '.') == 1
  {
    assert "1.234,56"[5] == ',' && "1.234,56"[1] == '.';
  }

  lemma EuropeanDotsRemoved()
    ensures RemoveChar("1.234,56", '.') == "1234,56"
  {
    assert "1." + "234,56" == "1.234,56" && "1" + "234,56" == "1234,56";
    assert RemoveChar("1.", '.') == "1" by {
      assert "1."[1..] == "." && "."[1..] == "";
    }
    assert '.' !in "234,56";
    RemovedInParts("1.", "234,56", '.', "1", "234,56");
  }

  /** Text that starts and ends with a digit is left alone by `strip`. */
  lemma DigitEdgesKept(s: string)
    requires |s| >= 1 && IsDigit(s[0]) && IsDigit(s[|s| - 1])
    ensures Strip(s) == s
  {
    DigitNotSpace(s[0]);
    DigitNotSpace(s[|s| - 1]);
  }

  /** Text that starts and ends with a basic Latin letter is left alone by `strip`. */
  lemma LetterEdgesKept(s: string)
    requires |s| >= 1 && 'a' <= s[0] <= 'z' && 'a' <= s[|s| - 1] <= 'z'
    ensures Strip(s) == s
  {
    LetterNotSpace(s[0]);
    LetterNotSpace(s[|s| - 1]);
  }

  lemma LetterNotSpace(c: char)
    requires 'a' <= c <= 'z'
    ensures !IsSpace(c)
  {
  }

  lemma DigitNotSpace(c: char)
    requires IsDigit(c)
    ensures !IsSpace(c)
  {
  }

  /** Removal evaluated piecewise on a split of the input. */
  lemma RemovedInParts(a: string, b: string, c: char, ra: string, rb: string)
    requires RemoveChar(a, c) == ra && RemoveChar(b, c) == rb
    ensures RemoveChar(a + b, c) == ra + rb
  {
    RemoveConcat(a, b, c);
  }

  lemma EuropeanCommaReplaced()
    ensures ReplaceChar("1234,56", ',', '.') == "1234.56"
  {
    var r := ReplaceChar("1234,56", ',', '.');
    assert r[0] == '1' && r[1] == '2' && r[2] == '3' && r[3] == '4' && r[4] == '.' && r[5] == '5' && r[6] == '6';
  }

  lemma EnglishRewrite()
    ensures Strip("1,234.56") == "1,234.56"
    ensures Disambiguate("1,234.56") == "1234.56"
  {
    EnglishEdges();
    EnglishLastMarks();
    EnglishCommasRemoved();
  }

  lemma EnglishEdges()
    ensures Strip("1,234.56") == "1,234.56"
  {
    DigitEdgesKept("1,234.56");
  }

  lemma EnglishLastMarks()
    ensures ',' in "1,234.56" && '.' in "1,234.56"
    ensures RFind("1,234.56", ',') == 1 && RFind("1,234.56", '.') == 5
  {
    assert "1,234.56"[5] == '.' && "1,234.56"[1] == ',';
  }

  lemma EnglishCommasRemoved()
    ensures RemoveChar("1,234.56", ',') == "1234.56"
  {
    assert "1," + "234.56" == "1,234.56" && "1" + "234.56" == "1234.56";
    assert RemoveChar("1,", ',') == "1" by {
      assert "1,"[1..] == "," && ","[1..] == "";
    }
    assert ',' !in "234.56";
    RemovedInParts("1,", "234.56", ',', "1", "234.56");
  }

  lemma Parsed1234p56()
    ensures ParseDecimal("1234.56") == Some(Decimal(false, "1234", "56"))
    ensures FormatFixed4(false, Quantize4(Decimal(false, "1234", "56"))) == "1234.5600"
  {
    Split1234p56();
    Value1234();
    Value56();
    Quantized1234p56();
    Formatted1234p56(Quantize4(Decimal(false, "1234", "56")));
  }

  lemma Split1234p56()
    ensures ParseDecimal("1234.56") == Some(Decimal(false, "1234", "56"))
  {
    Edges1234p56();
    StrippedParses("1234.56");
    Unsigned1234p56();
  }

  lemma Edges1234p56()
    ensures Strip("1234.56") == "1234.56"
  {
    DigitEdgesKept("1234.56");
  }

  lemma Unsigned1234p56()
    ensures ParseSigned("1234.56") == Some(Decimal(false, "1234", "56"))
  {
    assert AllDigits("1234") && AllDigits("56");
    assert "1234"[0] == '1';
    SignedPointParses(false, "1234", "56");
    assert Sign(false) + ("1234" + ("." + "56")) == "1234.56";
  }

  lemma Quantized1234p56()
    requires DigitsValue("1234") == 1234 && DigitsValue("56") == 56
    ensures Quantize4(Decimal(false, "1234", "56")) == 12345600
  {
    assert Pow10(2) == 100;
  }

  lemma Formatted1234p56(n: nat)
    requires n == 12345600
    ensures FormatFixed4(false, n) == "1234.5600"
  {
    assert n / 10000 == 1234 && n % 10000 == 5600;
    Digits1234();
    Digits5600();
    FormattedFrom(n, "1234", "5600");
    assert "1234" + ("." + "5600") == "1234.5600";
  }

  /** A non-negative amount is written from the numerals of its two parts. */
  lemma FormattedFrom(n: nat, ip: string, fp: string)
    requires NatToDigits(n / 10000) == ip && PadLeft(n % 10000, 4) == fp
    ensures FormatFixed4(false, n) == ip + ("." + fp)
  {
    FormatParts(false, n);
    assert Sign(false) == "";
  }

  lemma Digits1234()
    ensures NatToDigits(1234) == "1234"
  {
    Value1234();
    CanonicalNumeral("1234");
  }

  lemma Digits5600()
    ensures PadLeft(5600, 4) == "5600"
  {
    Value5600();
    FourDigitsValue("5600");
  }

  lemma Value1234()
    ensures DigitsValue("1234") == 1234
  {
    assert "1234"[..3] == "123" && "123"[..2] == "12" && "12"[..1] == "1" && "1"[..0] == "";
  }

  lemma Value56()
    ensures DigitsValue("56") == 56
  {
    assert "56"[..1] == "5" && "5"[..0] == "";
  }

  lemma Value5600()
    ensures DigitsValue("5600") == 5600
  {
    assert "5600"[..3] == "560" && "560"[..2] == "56" && "56"[..1] == "5" && "5"[..0] == "";
  }

  /** A blank cell, an absent cell and a word are not amounts. */
  lemma NotAmounts()
    ensures ParseAmount(Some("")) == None
    ensures ParseAmount(Some("   ")) == None
    ensures ParseAmount(None) == None
    ensures ParseAmount(Some("abc")) == None
  {
    BlankStripped();
    WordRejected();
  }

  lemma BlankStripped()
    ensures Strip("   ") == ""
  {
    assert "   "[1..] == "  " && "  "[1..] == " " && " "[1..] == "";
    assert LStrip("   ") == "";
  }

  lemma WordRejected()
    ensures ParseAmount(Some("abc")) == None
  {
    LetterEdgesKept("abc");
    StrippedParses("abc");
    assert ',' !in "abc" && '.' !in "abc";
    assert Disambiguate("abc") == "abc";
    assert !IsDigit("abc"[0]);
    assert !AllDigits("abc");
    assert ParseUnsigned(false, "abc") == None;
  }
}
