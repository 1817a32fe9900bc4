/** The arithmetic and the `hh:mm:ss` text shared by the two browser timers:
    JavaScript's `%` (a remainder with the sign of the dividend), quotient and
    remainder by a positive divisor, and the clock display with each field
    padded to two characters. */
module Clock {
  import opened Wrappers
  import opened Text

  /** `a % b` in JavaScript for a positive `b`: truncated toward zero, so the
      remainder takes the sign of `a`. */
  function JsRem(a: int, b: int): (r: int)
    requires b > 0
    ensures -b < r < b
    ensures a >= 0 ==> r >= 0
    ensures a <= 0 ==> r <= 0
  {
    if a >= 0 then a % b else -((-a) % b)
  }

  /** `a` and `a % b` differ by a multiple of `b`. */
  lemma JsRemCongruent(a: int, b: int)
    requires b > 0
    ensures (a - JsRem(a, b)) % b == 0
  {
    if a >= 0 {
      DivModOf(a - a % b, b, a / b, 0);
    } else {
      var q := (-a) / b;
      var r := JsRem(a, b);
      assert a - r == b * (-q);
      DivModOf(a - r, b, -q, 0);
    }
  }

  /** On non-negative dividends JavaScript's `%` and Dafny's agree, and then
      `Math.floor(a / b)` is `a / b`. */
  lemma JsRemOfNatural(a: int, b: int)
    requires a >= 0 && b > 0
    ensures JsRem(a, b) == a % b
  {
  }

  lemma MulAtLeast(b: int, k: int)
    requires b > 0 && k >= 1
    ensures b * k >= b
  {
    assert b * k == b * (k - 1) + b;
  }

  /** `a / b` and `a % b` are the quotient and remainder of the decomposition
      `a == b * q + r` with `0 <= r < b`. */
  lemma DivModOf(a: int, b: int, q: int, r: int)
    requires b > 0 && a == b * q + r && 0 <= r < b
    ensures a / b == q && a % b == r
  {
    var q0, r0 := a / b, a % b;
    assert a == b * q0 + r0 && 0 <= r0 < b;
    assert b * (q - q0) == r0 - r;
    if q0 < q {
      MulAtLeast(b, q - q0);
    } else if q < q0 {
      MulAtLeast(b, q0 - q);
    }
  }

  /** Hours, minutes and seconds with minutes and seconds under 60 are the
      only such split of a number of seconds. */
  lemma {:induction false} MixedRadixUnique(h: int, m: int, s: int, h2: int, m2: int, s2: int)
    requires 0 <= m < 60 && 0 <= s < 60 && 0 <= m2 < 60 && 0 <= s2 < 60
    requires 3600 * h + 60 * m + s == 3600 * h2 + 60 * m2 + s2
    ensures h == h2 && m == m2 && s == s2
  {
    var total := 3600 * h + 60 * m + s;
    DivModOf(total, 3600, h, 60 * m + s);
    DivModOf(total, 3600, h2, 60 * m2 + s2);
    DivModOf(60 * m + s, 60, m, s);
    DivModOf(60 * m2 + s2, 60, m2, s2);
  }

  /** Hours `ms / 3600000`, minutes `(ms % 3600000) / 60000` and seconds
      `(ms % 60000) / 1000` of a non-negative number of milliseconds split its
      whole seconds. */
  lemma {:induction false} MillisFields(ms: int)
    requires ms >= 0
    ensures var h, m, s := ms / 3600000, (ms % 3600000) / 60000, (ms % 60000) / 1000;
      0 <= m < 60 && 0 <= s < 60 && 3600 * h + 60 * m + s == ms / 1000
  {
    var h, rh := ms / 3600000, ms % 3600000;
    var m, rm := rh / 60000, rh % 60000;
    var s, rs := rm / 1000, rm % 1000;
    assert rh == 60000 * m + rm;
    assert m < 60;
    assert ms == 1000 * (3600 * h + 60 * m + s) + rs;
    DivModOf(ms, 1000, 3600 * h + 60 * m + s, rs);
    DivModOf(ms, 60000, 60 * h + m, rm);
  }

  /** Hours `es / 3600`, minutes `(es % 3600) / 60` and seconds `es % 60` of a
      non-negative number of seconds split it. */
  lemma {:induction false} SecondsFields(es: int)
    requires es >= 0
    ensures var h, m, s := es / 3600, (es % 3600) / 60, es % 60;
      0 <= m < 60 && 0 <= s < 60 && 3600 * h + 60 * m + s == es
  {
    var h, rh := es / 3600, es % 3600;
    var m, s := rh / 60, rh % 60;
    assert rh == 60 * m + s;
    assert es == 60 * (60 * h + m) + s;
    DivModOf(es, 60, 60 * h + m, s);
  }

  /** One field of the display: `x.toString().padStart(2, '0')`. */
  function Field(x: int): string
  {
    PadStart(IntToString(x), 2, '0')
  }

  /** A field is at least two characters; a non-negative one is the padded
      digits, a negative one starts with the minus sign. */
  lemma FieldFacts(x: int)
    ensures |Field(x)| >= 2
    ensures x >= 0 ==> Field(x) == Pad2(x)
    ensures x < 0 ==> Field(x)[0] == '-'
  {
  }

  /** `${h}:${m}:${s}` with each field padded. */
  function ClockText(h: int, m: int, s: int): string
  {
    Field(h) + ":" + Field(m) + ":" + Field(s)
  }

  /** Reads a display back into its three fields: the last two characters are
      the seconds, the two before the second colon the minutes, and all that
      precedes the first colon the hours. None for any other text. */
  function ReadClock(text: string): Option<(nat, nat, nat)>
  {
    if |text| < 8 then None
    else
      var n := |text|;
      var hs, ms, ss := text[..n - 6], text[n - 5..n - 3], text[n - 2..];
      if text[n - 6] == ':' && text[n - 3] == ':' && AllDigits(hs) && AllDigits(ms) && AllDigits(ss)
      then Some((ParseNat(hs), ParseNat(ms), ParseNat(ss)))
      else None
  }

  /** Where the fields of a display sit. */
  lemma ClockSlices(hs: string, ms: string, ss: string)
    requires |ms| == 2 && |ss| == 2
    ensures var text := hs + ":" + ms + ":" + ss;
      var n := |text|;
      && n == |hs| + 6
      && text[..n - 6] == hs && text[n - 5..n - 3] == ms && text[n - 2..] == ss
      && text[n - 6] == ':' && text[n - 3] == ':'
  {
    var text := hs + ":" + ms + ":" + ss;
    var n := |text|;
    assert text[..n - 6] == hs;
    assert text[n - 5..n - 3] == ms by {
      forall i | 0 <= i < 2 ensures text[n - 5 + i] == ms[i] {}
    }
    assert text[n - 2..] == ss by {
      forall i | 0 <= i < 2 ensures text[n - 2 + i] == ss[i] {}
    }
  }

  /** Three digit fields, the hours at least two long, read back. */
  lemma ReadClockOf(hs: string, ms: string, ss: string)
    requires |hs| >= 2 && |ms| == 2 && |ss| == 2
    requires AllDigits(hs) && AllDigits(ms) && AllDigits(ss)
    ensures ReadClock(hs + ":" + ms + ":" + ss) == Some((ParseNat(hs), ParseNat(ms), ParseNat(ss)))
  {
    ClockSlices(hs, ms, ss);
  }

  /** A display of a non-negative time with minutes and seconds under 60 reads
      back to its fields. */
  lemma ClockReadsBack(h: nat, m: nat, s: nat)
    requires m < 60 && s < 60
    ensures ReadClock(ClockText(h, m, s)) == Some((h, m, s))
  {
    FieldFacts(h);
    FieldFacts(m);
    FieldFacts(s);
    ReadClockOf(Pad2(h), Pad2(m), Pad2(s));
  }
}
