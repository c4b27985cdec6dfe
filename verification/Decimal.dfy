/** Decimal rendering with leading zeros, and reading it back. */
module Decimal {

  function Digit(d: nat): (c: char)
    requires d < 10
    ensures '0' <= c <= '9' && (c as int) - ('0' as int) == d
  {
    ('0' as int + d) as char
  }

  /** The decimal rendering of a number. */
  function Render(n: nat): (s: string)
    ensures s != []
  {
    if n < 10 then [Digit(n)] else Render(n / 10) + [Digit(n % 10)]
  }

  /** `padStart(width, '0')`: only short strings change. */
  function PadStart(s: string, width: nat): string
    decreases width - |s|
  {
    if |s| >= width then s else PadStart(['0'] + s, width)
  }

  /** The number a string of digits stands for; other characters count as zero. */
  function Parse(s: string): nat {
    if s == [] then 0
    else 10 * Parse(s[..|s| - 1]) + if '0' <= s[|s| - 1] <= '9' then (s[|s| - 1] as int) - ('0' as int) else 0
  }

  lemma {:induction false} ParseRender(n: nat)
    ensures Parse(Render(n)) == n
  {
    if n < 10 {
      assert Render(n)[..0] == [];
    } else {
      ParseRender(n / 10);
      assert Render(n)[..|Render(n)| - 1] == Render(n / 10);
    }
  }

  lemma {:induction false} ParseLeadingZero(s: string)
    ensures Parse(['0'] + s) == Parse(s)
  {
    if s != [] {
      ParseLeadingZero(s[..|s| - 1]);
      assert (['0'] + s)[..|s|] == ['0'] + s[..|s| - 1];
    }
  }

  lemma {:induction false} ParsePadStart(s: string, width: nat)
    ensures Parse(PadStart(s, width)) == Parse(s)
    decreases width - |s|
  {
    if |s| < width {
      ParsePadStart(['0'] + s, width);
      ParseLeadingZero(s);
    }
  }

  /** Padded renderings read back as the number, so different numbers never render the same. */
  lemma PaddedRoundTrip(n: nat, width: nat)
    ensures Parse(PadStart(Render(n), width)) == n
  {
    ParsePadStart(Render(n), width);
    ParseRender(n);
  }

  /** A rendering is made of digits, one more than that of a tenth, and starts with no zero but that of zero. */
  lemma {:induction false} RenderDigits(n: nat)
    ensures forall c | c in Render(n) :: '0' <= c <= '9'
    ensures n < 10 <==> |Render(n)| == 1
    ensures n >= 10 ==> |Render(n)| == |Render(n / 10)| + 1
    ensures Render(n)[0] == '0' <==> n == 0
  {
    if n >= 10 {
      RenderDigits(n / 10);
    }
  }

  /** Padding puts zeros in front, as many as are missing. */
  lemma {:induction false} PadStartShape(s: string, width: nat)
    ensures var r := PadStart(s, width);
            && |r| == (if |s| < width then width else |s|)
            && r[|r| - |s|..] == s
            && forall i | 0 <= i < |r| - |s| :: r[i] == '0'
    decreases width - |s|
  {
    if |s| < width {
      var r := PadStart(['0'] + s, width);
      PadStartShape(['0'] + s, width);
      var tail := r[|r| - |s| - 1..];
      assert tail == ['0'] + s && r[|r| - |s| - 1] == tail[0];
      assert r[|r| - |s|..] == tail[1..];
    }
  }

  lemma PaddedDigits(n: nat, width: nat)
    ensures forall c | c in PadStart(Render(n), width) :: '0' <= c <= '9'
  {
    var s := Render(n);
    var r := PadStart(s, width);
    PadStartShape(s, width);
    RenderDigits(n);
    forall i | 0 <= i < |r| ensures '0' <= r[i] <= '9' {
      if i >= |r| - |s| {
        assert r[i] == r[|r| - |s|..][i - (|r| - |s|)];
        assert r[i] in s;
      }
    }
  }

  lemma ThreeDigits(n: nat)
    ensures |Render(n)| <= 3 <==> n < 1000
  {
    RenderDigits(n);
    RenderDigits(n / 10);
    RenderDigits(n / 100);
    assert n / 10 / 10 == n / 100;
  }

  /** Two digits, the tens first. */
  lemma TwoDigits(n: nat)
    requires n < 100
    ensures var s := PadStart(Render(n), 2);
            && |s| == 2 && '0' <= s[0] <= '9' && '0' <= s[1] <= '9'
            && n == 10 * (s[0] as int - '0' as int) + (s[1] as int - '0' as int)
  {
    PadStartShape(Render(n), 2);
    RenderDigits(n);
    var s := PadStart(Render(n), 2);
    if n < 10 {
      assert s[1..] == Render(n) && s[1] == s[1..][0];
    } else {
      RenderDigits(n / 10);
      assert Render(n) == [Digit(n / 10), Digit(n % 10)];
      assert s == s[0..];
    }
  }
}
