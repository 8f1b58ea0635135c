/** The integer coercion `cast(IntegerType())` applied while loading
    (app/rent_analyse.py:30-31). Under the engine's default, non-ANSI casting a
    string that does not read as a 32-bit integer yields null rather than an
    error. The text is trimmed of blanks and control characters at both ends,
    may carry one sign, and may carry a fractional part of digits that is
    dropped. */
module Cast {
  import opened Wrappers

  const MinInt32: int := -0x8000_0000
  const MaxInt32: int := 0x7fff_ffff

  /** Characters the cast trims: whitespace and ISO control characters. */
  predicate IsBlank(c: char)
  {
    c <= ' ' || c == '\U{7f}'
  }

  predicate IsDigit(c: char)
  {
    '0' <= c <= '9'
  }

  predicate AllDigits(s: string)
  {
    forall i :: 0 <= i < |s| ==> IsDigit(s[i])
  }

  predicate AllBlank(s: string)
  {
    forall i :: 0 <= i < |s| ==> IsBlank(s[i])
  }

  /** The text without its leading blanks. */
  function TrimLeft(s: string): (t: string)
    ensures |t| <= |s|
    ensures |t| > 0 ==> !IsBlank(t[0])
  {
    if |s| > 0 && IsBlank(s[0]) then TrimLeft(s[1..]) else s
  }

  /** The text without its trailing blanks. */
  function TrimRight(s: string): (t: string)
    ensures |t| <= |s|
    ensures |t| > 0 ==> t[0] == s[0] && !IsBlank(t[|t| - 1])
  {
    if |s| > 0 && IsBlank(s[|s| - 1]) then TrimRight(s[..|s| - 1]) else s
  }

  /** The text with blanks removed from both ends. */
  function Trim(s: string): (t: string)
    ensures |t| <= |s|
    ensures |t| > 0 ==> !IsBlank(t[0]) && !IsBlank(t[|t| - 1])
  {
    TrimRight(TrimLeft(s))
  }

  /** The left trim removes a prefix of blanks and nothing else. */
  lemma {:induction false} TrimLeftRemovesOnlyBlanks(s: string)
    ensures exists b :: AllBlank(b) && s == b + TrimLeft(s)
  {
    if |s| > 0 && IsBlank(s[0]) {
      TrimLeftRemovesOnlyBlanks(s[1..]);
      var b :| AllBlank(b) && s[1..] == b + TrimLeft(s[1..]);
      var b' := [s[0]] + b;
      assert AllBlank(b') by {
        assert forall i :: 0 < i < |b'| ==> b'[i] == b[i - 1];
      }
      assert TrimLeft(s) == TrimLeft(s[1..]);
      calc {
        s;
        [s[0]] + s[1..];
        [s[0]] + (b + TrimLeft(s[1..]));
        b' + TrimLeft(s);
      }
    } else {
      assert AllBlank([]) && s == [] + TrimLeft(s);
    }
  }

  /** The right trim removes a suffix of blanks and nothing else. */
  lemma {:induction false} TrimRightRemovesOnlyBlanks(s: string)
    ensures exists b :: AllBlank(b) && s == TrimRight(s) + b
  {
    if |s| > 0 && IsBlank(s[|s| - 1]) {
      var r := s[..|s| - 1];
      TrimRightRemovesOnlyBlanks(r);
      var b :| AllBlank(b) && r == TrimRight(r) + b;
      var b' := b + [s[|s| - 1]];
      assert AllBlank(b') by {
        assert forall i :: 0 <= i < |b| ==> b'[i] == b[i];
      }
      assert TrimRight(s) == TrimRight(r);
      calc {
        s;
        r + [s[|s| - 1]];
        (TrimRight(r) + b) + [s[|s| - 1]];
        TrimRight(s) + b';
      }
    } else {
      assert AllBlank([]) && s == TrimRight(s) + [];
    }
  }

  /** The trim removes blanks and nothing else: `s` is blanks, then
      `Trim(s)`, then blanks. */
  lemma TrimRemovesOnlyBlanks(s: string)
    ensures exists b1, b2 :: AllBlank(b1) && AllBlank(b2) && s == b1 + Trim(s) + b2
  {
    var u := TrimLeft(s);
    var t := Trim(s);
    assert t == TrimRight(u);
    TrimLeftRemovesOnlyBlanks(s);
    TrimRightRemovesOnlyBlanks(u);
    var b1 :| AllBlank(b1) && s == b1 + u;
    var b2 :| AllBlank(b2) && u == t + b2;
    assert b1 + t + b2 == b1 + (t + b2);
  }

  /** Position of the first '.', or |s| when there is none. */
  function DotIndex(s: string): (k: nat)
    ensures k <= |s|
    ensures forall i :: 0 <= i < k ==> s[i] != '.'
    ensures k < |s| ==> s[k] == '.'
  {
    if |s| == 0 then 0
    else if s[0] == '.' then 0
    else 1 + DotIndex(s[1..])
  }

  /** The value of a string of decimal digits, most significant first. */
  function DigitsValue(s: string): (v: nat)
    requires AllDigits(s)
  {
    if |s| == 0 then 0
    else 10 * DigitsValue(s[..|s| - 1]) + (s[|s| - 1] as int - '0' as int)
  }

  /** A string cell read as a 32-bit integer; None where the engine yields
      null. */
  function ParseInt(s: string): (r: Option<int>)
    ensures r.Some? ==> MinInt32 <= r.value <= MaxInt32
    ensures r.Some? ==> |Trim(s)| > 0
  {
    var t := Trim(s);
    if |t| == 0 then None
    else
      var signed := t[0] == '-' || t[0] == '+';
      if signed && |t| == 1 then None
      else ParseUnsigned(if signed then t[1..] else t, t[0] == '-')
  }

  /** The text after the sign: digits, then optionally '.' and digits that
      are dropped; negated when the sign was '-'. */
  function ParseUnsigned(body: string, negative: bool): (r: Option<int>)
    ensures r.Some? ==> MinInt32 <= r.value <= MaxInt32
  {
    var k := DotIndex(body);
    var whole, frac := body[..k], if k < |body| then body[k + 1..] else "";
    if !AllDigits(whole) || !AllDigits(frac) then None
    else
      var v: int := if negative then -(DigitsValue(whole) as int) else DigitsValue(whole);
      if MinInt32 <= v <= MaxInt32 then Some(v) else None
  }

  /** A nullable cell cast to integer: null stays null. */
  function CastInt(cell: Option<string>): (r: Option<int>)
    ensures cell.None? ==> r.None?
    ensures r.Some? ==> MinInt32 <= r.value <= MaxInt32
  {
    match cell
    case None => None
    case Some(s) => ParseInt(s)
  }

  /** Decimal digits of a natural number, without leading zeros. */
  function NatDigits(n: nat): (s: string)
    ensures |s| > 0 && AllDigits(s)
  {
    if n < 10 then [('0' as int + n) as char]
    else NatDigits(n / 10) + [('0' as int + n % 10) as char]
  }

  /** The decimal text of an integer, as the source's labels spell numbers. */
  function ShowInt(n: int): (s: string)
    ensures |s| > 0
  {
    if n < 0 then "-" + NatDigits(-n) else NatDigits(n)
  }

  lemma {:induction false} DigitsValueOfNatDigits(n: nat)
    ensures DigitsValue(NatDigits(n)) == n
  {
    var s := NatDigits(n);
    if n >= 10 {
      DigitsValueOfNatDigits(n / 10);
      assert s[..|s| - 1] == NatDigits(n / 10);
    }
  }

  lemma TrimOfUnblankedEnds(s: string)
    requires |s| > 0 && !IsBlank(s[0]) && !IsBlank(s[|s| - 1])
    ensures Trim(s) == s
  {
  }

  lemma {:induction false} NoDotInDigits(s: string)
    requires AllDigits(s)
    ensures DotIndex(s) == |s|
  {
    if |s| > 0 {
      NoDotInDigits(s[1..]);
    }
  }

  lemma {:induction false} TrimLeftOfBlanks(b: string, x: string)
    requires AllBlank(b)
    ensures TrimLeft(b + x) == TrimLeft(x)
  {
    if |b| > 0 {
      assert IsBlank(b[0]);
      assert (b + x)[0] == b[0] && (b + x)[1..] == b[1..] + x;
      TrimLeftOfBlanks(b[1..], x);
    } else {
      assert b + x == x;
    }
  }

  lemma {:induction false} TrimRightOfBlanks(x: string, b: string)
    requires AllBlank(b)
    ensures TrimRight(x + b) == TrimRight(x)
  {
    if |b| > 0 {
      assert IsBlank(b[|b| - 1]);
      assert (x + b)[|x + b| - 1] == b[|b| - 1];
      assert (x + b)[..|x + b| - 1] == x + b[..|b| - 1];
      TrimRightOfBlanks(x, b[..|b| - 1]);
    } else {
      assert x + b == x;
    }
  }

  /** Blanks around a text that starts and ends with a non-blank are exactly
      what the trim removes. */
  lemma TrimOfPadded(b1: string, core: string, b2: string)
    requires AllBlank(b1) && AllBlank(b2)
    requires |core| > 0 && !IsBlank(core[0]) && !IsBlank(core[|core| - 1])
    ensures Trim(b1 + core + b2) == core
  {
    var u := core + b2;
    assert b1 + core + b2 == b1 + u;
    TrimLeftOfBlanks(b1, u);
    assert u[0] == core[0];
    assert TrimLeft(u) == u;
    TrimRightOfBlanks(core, b2);
    assert TrimRight(core) == core;
  }

  lemma {:induction false} DotIndexAfterDigits(d: string, x: string)
    requires AllDigits(d)
    ensures DotIndex(d + x) == |d| + DotIndex(x)
  {
    if |d| > 0 {
      assert IsDigit(d[0]);
      assert (d + x)[0] == d[0] && (d + x)[1..] == d[1..] + x;
      DotIndexAfterDigits(d[1..], x);
    } else {
      assert d + x == x;
    }
  }

  /** The value a well-formed cell reads as: its signed whole part when it
      fits in 32 bits, null otherwise. */
  function SignedValue(negative: bool, d: string): (r: Option<int>)
    requires AllDigits(d)
    ensures r.Some? ==> MinInt32 <= r.value <= MaxInt32
  {
    var v := if negative then -(DigitsValue(d) as int) else DigitsValue(d) as int;
    if MinInt32 <= v <= MaxInt32 then Some(v) else None
  }

  /** Digits with an optional fraction read as the digits' value. */
  lemma ParseOfDigits(d: string, frac: string, negative: bool)
    requires AllDigits(d)
    requires frac == "" || (frac[0] == '.' && AllDigits(frac[1..]))
    ensures ParseUnsigned(d + frac, negative) == SignedValue(negative, d)
  {
    var body := d + frac;
    DotIndexAfterDigits(d, frac);
    assert DotIndex(frac) == 0;
    var k := DotIndex(body);
    assert k == |d|;
    assert body[..k] == d;
    var rest := if k < |body| then body[k + 1..] else "";
    assert rest == if frac == "" then "" else frac[1..];
  }

  /** The cast of a cell whose trimmed text is a sign, digits and an
      optional fraction. */
  lemma ParseOfTrimmed(s: string, sign: string, d: string, frac: string)
    requires sign == "" || sign == "+" || sign == "-"
    requires |d| > 0 && AllDigits(d)
    requires frac == "" || (frac[0] == '.' && AllDigits(frac[1..]))
    requires Trim(s) == sign + (d + frac)
    ensures ParseInt(s) == SignedValue(sign == "-", d)
  {
    var t := Trim(s);
    assert IsDigit(d[0]);
    if sign == "" {
      assert t == d + frac && t[0] == d[0];
    } else {
      assert t[0] == sign[0] && t[1..] == d + frac;
    }
    ParseOfDigits(d, frac, sign == "-");
  }

  /** The spellings the cast accepts: blanks around, an optional sign,
      digits (leading zeros allowed) and an optional '.' with digits after
      it, which are dropped. Such a cell reads as its signed whole part when
      that fits in 32 bits, and as null otherwise. */
  lemma ParseIntAccepts(b1: string, sign: string, d: string, frac: string, b2: string)
    requires AllBlank(b1) && AllBlank(b2)
    requires sign == "" || sign == "+" || sign == "-"
    requires |d| > 0 && AllDigits(d)
    requires frac == "" || (frac[0] == '.' && AllDigits(frac[1..]))
    ensures ParseInt(b1 + sign + d + frac + b2) == SignedValue(sign == "-", d)
  {
    var core := sign + (d + frac);
    assert IsDigit(d[0]);
    assert core[0] == (if sign == "" then d[0] else sign[0]);
    assert frac != "" ==> IsDigit(frac[|frac| - 1]) || frac == ".";
    assert core[|core| - 1] == (if frac == "" then d[|d| - 1] else frac[|frac| - 1]);
    assert IsDigit(d[|d| - 1]);
    assert b1 + sign + d + frac + b2 == b1 + core + b2;
    TrimOfPadded(b1, core, b2);
    ParseOfTrimmed(b1 + sign + d + frac + b2, sign, d, frac);
  }

  /** Every 32-bit integer written in decimal casts back to itself: the cast
      loses nothing on well-formed cells. */
  lemma ParseShowRoundTrip(n: int)
    requires MinInt32 <= n <= MaxInt32
    ensures ParseInt(ShowInt(n)) == Some(n)
  {
    var s := ShowInt(n);
    var sign := if n < 0 then "-" else "";
    var d := NatDigits(if n < 0 then -n else n);
    DigitsValueOfNatDigits(if n < 0 then -n else n);
    assert s == sign + (d + "");
    assert IsDigit(d[0]) && IsDigit(d[|d| - 1]);
    TrimOfUnblankedEnds(s);
    ParseOfTrimmed(s, sign, d, "");
  }

  /** A cell holding any character other than a digit, a sign or '.' after
      trimming casts to null: the listing's "negotiable" price text, say. */
  lemma ParseIntRejectsForeignCharacter(s: string, i: nat)
    requires i < |Trim(s)|
    requires var c := Trim(s)[i]; !IsDigit(c) && c != '.' && c != '-' && c != '+'
    ensures ParseInt(s) == None
  {
    var t := Trim(s);
    var signed := t[0] == '-' || t[0] == '+';
    if !(signed && |t| == 1) {
      var body := if signed then t[1..] else t;
      var j := if signed then i - 1 else i;
      assert body[j] == t[i];
      var k := DotIndex(body);
      if j < k {
        assert body[..k][j] == t[i];
      } else {
        assert j > k;
        assert body[k + 1..][j - k - 1] == t[i];
      }
    }
  }
}
