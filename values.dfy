/**
 * Readings are fixed-point: the text `12.0` is held as the integer 120,
 * a number of tenths. Both aggregators parse a value the same way:
 * `-` makes the result negative wherever it stands, `.` is skipped, and
 * every other byte is taken as a digit `c - '0'` (byte arithmetic, so it
 * wraps for bytes below '0') and accumulated as `val*10 + d`.
 */
module Values {
  import opened Bytes

  /** The digit value Go computes for byte `c`: `int(c - '0')`, wrapping in 8 bits. */
  function DigitOf(c: byte): (d: int)
    ensures 0 <= d < 256
    ensures ZERO <= c <= ZERO + 9 ==> d == c as int - 48
  {
    (c as int - 48) % 256
  }

  /** The unsigned accumulator after the bytes of `s`, read left to right. */
  function Magnitude(s: seq<byte>): (m: int)
    ensures m >= 0
  {
    if s == [] then 0
    else
      var c := s[|s| - 1];
      if c == MINUS || c == DOT then Magnitude(s[..|s| - 1])
      else Magnitude(s[..|s| - 1]) * 10 + DigitOf(c)
  }

  /** The number of tenths the parsers compute for the value text `s`. */
  function Value(s: seq<byte>): (v: int)
    ensures MINUS in s ==> v <= 0
    ensures MINUS !in s ==> v >= 0
    ensures v == Magnitude(s) || v == -Magnitude(s)
  {
    if MINUS in s then -Magnitude(s) else Magnitude(s)
  }

  /** The byte loop of the value parse, proved to compute `Value`. */
  method ParseValue(num: seq<byte>) returns (val: int)
    ensures val == Value(num)
  {
    var neg := 1;
    val := 0;
    for i := 0 to |num|
      invariant val == Magnitude(num[..i])
      invariant neg == (if MINUS in num[..i] then -1 else 1)
    {
      assert num[..i + 1][..i] == num[..i];
      var d := num[i];
      if d == MINUS {
        neg := -1;
      } else if d == DOT {
      } else {
        val := val * 10;
        val := val + DigitOf(d);
      }
    }
    assert num[..|num|] == num;
    val := val * neg;
  }

  /** Decimal digits of `n`, most significant first, no leading zeros. */
  function Digits(n: nat): (s: seq<byte>)
    ensures |s| >= 1
    ensures forall i :: 0 <= i < |s| ==> ZERO <= s[i] <= ZERO + 9
  {
    if n < 10 then [(48 + n) as byte]
    else Digits(n / 10) + [(48 + n % 10) as byte]
  }

  /** The on-file text of a reading of `v` tenths: `-?\d+\.\d`, without leading zeros and never `-0.0`. */
  function Render(v: int): (r: seq<byte>)
    ensures r != [] && ZERO <= r[|r| - 1] <= ZERO + 9
    ensures forall i :: 0 <= i < |r| ==> r[i] == MINUS || r[i] == DOT || ZERO <= r[i] <= ZERO + 9
  {
    var a := if v < 0 then -v else v;
    (if v < 0 then [MINUS] else []) + Digits(a / 10) + [DOT, (48 + a % 10) as byte]
  }

  lemma {:induction false} MagnitudeDigits(n: nat)
    ensures Magnitude(Digits(n)) == n
  {
    var s := Digits(n);
    if n >= 10 {
      assert s[..|s| - 1] == Digits(n / 10);
      MagnitudeDigits(n / 10);
    }
  }

  /** A leading `-` does not change the accumulator. */
  lemma {:induction false} MagnitudeSkipsMinus(s: seq<byte>)
    ensures Magnitude([MINUS] + s) == Magnitude(s)
  {
    if s != [] {
      var t := [MINUS] + s;
      assert t[..|t| - 1] == [MINUS] + s[..|s| - 1];
      MagnitudeSkipsMinus(s[..|s| - 1]);
    }
  }

  /** Parsing the rendered text of a reading gives the reading back. */
  lemma {:induction false} ParseRender(v: int)
    ensures Value(Render(v)) == v
  {
    var a := if v < 0 then -v else v;
    var body := Digits(a / 10) + [DOT, (48 + a % 10) as byte];
    RenderParts(v, a, body);
    Unsigned(Digits(a / 10), (48 + a % 10) as byte);
    assert Magnitude(body) == a by {
      MagnitudeDigits(a / 10);
      assert (a / 10) * 10 + a % 10 == a;
    }
    SignedValue(body, v < 0);
  }

  /** The rendered text is an optional sign before the unsigned text. */
  lemma RenderParts(v: int, a: nat, body: seq<byte>)
    requires a == (if v < 0 then -v else v)
    requires body == Digits(a / 10) + [DOT, (48 + a % 10) as byte]
    ensures Render(v) == (if v < 0 then [MINUS] else []) + body
  {
  }

  /** A text without `-` parses to its magnitude, negated when a `-` is put in front. */
  lemma SignedValue(body: seq<byte>, neg: bool)
    requires MINUS !in body
    ensures Value((if neg then [MINUS] else []) + body) == if neg then -Magnitude(body) else Magnitude(body)
  {
    if neg {
      MagnitudeSkipsMinus(body);
      assert MINUS in [MINUS] + body;
    } else {
      assert [] + body == body;
    }
  }

  /** Digits, a point and one more digit: no minus sign, and the point is skipped. */
  lemma Unsigned(ds: seq<byte>, last: byte)
    requires forall i :: 0 <= i < |ds| ==> ZERO <= ds[i] <= ZERO + 9
    requires ZERO <= last <= ZERO + 9
    ensures MINUS !in ds + [DOT, last]
    ensures Magnitude(ds + [DOT, last]) == Magnitude(ds) * 10 + (last as int - 48)
  {
    var body := ds + [DOT, last];
    assert body[..|body| - 1] == ds + [DOT];
    assert (ds + [DOT])[..|ds|] == ds;
    forall i | 0 <= i < |body| ensures body[i] != MINUS {
      if i < |ds| {
        assert body[i] == ds[i];
      }
    }
  }

  /** The two readings quoted for the format: `12.0` is 120 and `-3.2` is -32. */
  lemma Examples()
    ensures Value([49, 50, DOT, 48]) == 120
    ensures Value([MINUS, 51, DOT, 50]) == -32
  {
    ParseRender(120);
    assert Digits(1) == [49];
    assert Digits(12) == [49, 50];
    assert Render(120) == [49, 50, DOT, 48];
    ParseRender(-32);
    assert Digits(3) == [51];
    assert Render(-32) == [MINUS, 51, DOT, 50];
  }
}
