/**
 * The phone number value object: validation of a raw string, normalisation to its digits,
 * and the display format.
 */
module PhoneNumbers {
  import opened Common

  const InvalidFormat := "Invalid phone number format"

  /** `\d` of a JavaScript regular expression without the `u` flag. */
  predicate IsDigit(c: char) {
    '0' <= c <= '9'
  }

  /** `\s` of a JavaScript regular expression: the ECMAScript white space and line terminators. */
  predicate IsWhitespace(c: char) {
    var n := c as int;
    n == 0x09 || n == 0x0A || n == 0x0B || n == 0x0C || n == 0x0D || n == 0x20 || n == 0xA0
    || n == 0x1680 || 0x2000 <= n <= 0x200A || n == 0x2028 || n == 0x2029 || n == 0x202F
    || n == 0x205F || n == 0x3000 || n == 0xFEFF
  }

  /** The character class `[\d\s\-\(\)\+]`. */
  predicate IsAllowed(c: char) {
    IsDigit(c) || IsWhitespace(c) || c == '-' || c == '(' || c == ')' || c == '+'
  }

  /** `value.replace(/\D/g, '')`: the digit characters of `s`, in order. */
  function Normalize(s: string): (r: string)
    ensures |r| <= |s|
    ensures forall i :: 0 <= i < |r| ==> IsDigit(r[i])
  {
    if s == [] then []
    else if IsDigit(s[0]) then [s[0]] + Normalize(s[1..])
    else Normalize(s[1..])
  }

  /** `isValid`: the whole string matches `^[\d\s\-\(\)\+]+$` and it holds 10 to 15 digits. */
  predicate IsValid(s: string)
    ensures IsValid(s) ==> IsCanonical(Normalize(s))
  {
    |s| > 0 && (forall i :: 0 <= i < |s| ==> IsAllowed(s[i])) && 10 <= |Normalize(s)| <= 15
  }

  /** The form of a stored value: 10 to 15 characters, all digits. */
  predicate IsCanonical(s: string) {
    10 <= |s| <= 15 && forall i :: 0 <= i < |s| ==> IsDigit(s[i])
  }

  type Canonical = s: string | IsCanonical(s) witness "0000000000"

  /** A constructed `PhoneNumber`; its readonly `value` is always canonical. */
  datatype PhoneNumber = PhoneNumber(value: Canonical) {

    /** `toString()`. */
    function ToString(): (r: string)
      ensures IsCanonical(r) && Normalize(r) == r
    {
      NormalizeDigits(value);
      value
    }

    /** `format()`: `(XXX) XXX-XXXX` for ten digits, the digits unchanged otherwise. */
    function Format(): (r: string)
      ensures |value| != 10 ==> r == value
      ensures |value| == 10 ==> |r| == 14 && r[0] == '(' && r[4] == ')' && r[5] == ' ' && r[9] == '-'
      ensures |value| == 10 ==> r[1..4] == value[..3] && r[6..9] == value[3..6] && r[10..] == value[6..]
    {
      if |value| == 10 then "(" + value[..3] + ") " + value[3..6] + "-" + value[6..]
      else value
    }
  }

  /** `new PhoneNumber(value)`: throws "Invalid phone number format" unless the input is valid. */
  function Parse(s: string): (r: Result<PhoneNumber>)
    ensures r.Ok? <==> IsValid(s)
    ensures r.Err? ==> r.message == InvalidFormat
    ensures r.Ok? ==> r.value.ToString() == Normalize(s)
  {
    if IsValid(s) then Ok(PhoneNumber(Normalize(s))) else Err(InvalidFormat)
  }

  /** Normalising a concatenation normalises each part: the digits keep their order. */
  lemma {:induction false} NormalizeAppend(a: string, b: string)
    ensures Normalize(a + b) == Normalize(a) + Normalize(b)
  {
    if a == [] {
      assert a + b == b;
    } else {
      assert (a + b)[0] == a[0] && (a + b)[1..] == a[1..] + b;
      NormalizeAppend(a[1..], b);
    }
  }

  /** A string of digits is its own normal form. */
  lemma {:induction false} NormalizeDigits(s: string)
    requires forall i :: 0 <= i < |s| ==> IsDigit(s[i])
    ensures Normalize(s) == s
  {
    if s != [] {
      NormalizeDigits(s[1..]);
      assert s == [s[0]] + s[1..];
    }
  }

  /** A string without digits normalises to the empty string. */
  lemma {:induction false} NormalizeNoDigits(s: string)
    requires forall i :: 0 <= i < |s| ==> !IsDigit(s[i])
    ensures Normalize(s) == []
  {
    if s != [] {
      NormalizeNoDigits(s[1..]);
    }
  }

  /** Normalisation is idempotent. */
  lemma NormalizeIdempotent(s: string)
    ensures Normalize(Normalize(s)) == Normalize(s)
  {
    NormalizeDigits(Normalize(s));
  }

  /** Constructing from `toString()` succeeds and yields the same phone number. */
  lemma ParseToString(p: PhoneNumber)
    ensures Parse(p.ToString()) == Ok(p)
  {
    NormalizeDigits(p.value);
  }

  /** The digits of the ten-digit display form are the phone number's digits. */
  lemma FormatNormalizes(p: PhoneNumber)
    requires |p.value| == 10
    ensures Normalize(p.Format()) == p.value
  {
    var d := p.value;
    var a, b, c := d[..3], d[3..6], d[6..];
    NormalizeDigits(a);
    NormalizeDigits(b);
    NormalizeDigits(c);
    NormalizeNoDigits("(");
    NormalizeNoDigits(") ");
    NormalizeNoDigits("-");
    var x := "(" + a;
    NormalizeAppend("(", a);
    assert Normalize(x) == a;
    var y := x + ") ";
    NormalizeAppend(x, ") ");
    assert Normalize(y) == a;
    var z := y + b;
    NormalizeAppend(y, b);
    var w := z + "-";
    NormalizeAppend(z, "-");
    assert Normalize(w) == a + b;
    NormalizeAppend(w, c);
    assert Normalize(w + c) == a + b + c;
    assert p.Format() == w + c;
    assert d == a + b + c;
  }

  /** Every character of the ten-digit display form is one the validation accepts. */
  lemma FormatAllowed(p: PhoneNumber)
    requires |p.value| == 10
    ensures forall i :: 0 <= i < |p.Format()| ==> IsAllowed(p.Format()[i])
  {
    var d, f := p.value, p.Format();
    forall i | 0 <= i < |f| ensures IsAllowed(f[i]) {
      if 1 <= i < 4 {
        assert f[i] == f[1..4][i - 1] == d[i - 1];
      } else if 6 <= i < 9 {
        assert f[i] == f[6..9][i - 6] == d[i - 3];
      } else if 10 <= i {
        assert f[i] == f[10..][i - 10] == d[i - 4];
      }
    }
  }

  /** Re-parsing the display form succeeds and gives back the same digits. */
  lemma ParseFormat(p: PhoneNumber)
    ensures Parse(p.Format()) == Ok(p)
  {
    if |p.value| == 10 {
      FormatNormalizes(p);
      FormatAllowed(p);
    } else {
      ParseToString(p);
    }
  }
}
