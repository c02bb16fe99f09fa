/** Which texts a binding accepts as position keys, and which numbers they name. */
module KeyNumbers {
  import Int64
  import opened ColumnPlacing
  import opened Options

  /** The decimal text of `n`, without leading zeros. */
  function Decimal(n: nat): string {
    (if n < 10 then "" else Decimal(n / 10)) + [('0' as int + n % 10) as char]
  }

  function Zeros(z: nat): string {
    seq(z, _ => '0')
  }

  /** `s` is the decimal text of `n` behind any number of zeros. */
  ghost predicate Names(s: string, n: nat) {
    exists z: nat :: s == Zeros(z) + Decimal(n)
  }

  lemma {:induction false} ZerosAreZero(z: nat)
    ensures Digits(Zeros(z)) == Some(0)
    decreases z
  {
    if z > 0 {
      ZerosAreZero(z - 1);
      assert Zeros(z)[..z - 1] == Zeros(z - 1);
    }
  }

  lemma {:induction false} DecimalIsRead(z: nat, n: nat)
    ensures Digits(Zeros(z) + Decimal(n)) == Some(n)
    decreases n
  {
    var s, c := Zeros(z) + Decimal(n), ('0' as int + n % 10) as char;
    assert s[|s| - 1] == c;
    if n < 10 {
      ZerosAreZero(z);
      assert s[..|s| - 1] == Zeros(z);
    } else {
      DecimalIsRead(z, n / 10);
      assert s[..|s| - 1] == Zeros(z) + Decimal(n / 10);
    }
  }

  /** One digit more. */
  lemma LongerDecimal(m: nat, d: nat)
    requires d < 10
    ensures Decimal(10 * m + d) == (if m == 0 then "" else Decimal(m)) + [('0' as int + d) as char]
  {
    assert (10 * m + d) / 10 == m && (10 * m + d) % 10 == d;
  }

  lemma NameOneMore(front: string, m: nat, d: nat)
    requires Names(front, m) && d < 10
    ensures Names(front + [('0' as int + d) as char], 10 * m + d)
  {
    var z: nat :| front == Zeros(z) + Decimal(m);
    var c := [('0' as int + d) as char];
    LongerDecimal(m, d);
    if m == 0 {
      assert Decimal(0) == "0" && Zeros(z) + "0" == Zeros(z + 1);
      assert front + c == Zeros(z + 1) + Decimal(10 * m + d);
    } else {
      assert front + c == Zeros(z) + Decimal(10 * m + d);
    }
  }

  lemma {:induction false} ReadIsDecimal(s: string)
    requires s != "" && Digits(s).Some?
    ensures Names(s, Digits(s).value)
    decreases |s|
  {
    var front, d := s[..|s| - 1], s[|s| - 1] as int - '0' as int;
    assert s == front + [('0' as int + d) as char];
    if front == "" {
      LongerDecimal(0, d);
      assert s == Zeros(0) + Decimal(d);
    } else {
      ReadIsDecimal(front);
      NameOneMore(front, Digits(front).value, d);
    }
  }

  lemma DigitsIff(s: string, n: nat)
    ensures Names(s, n) <==> s != "" && Digits(s) == Some(n)
  {
    if Names(s, n) {
      var z: nat :| s == Zeros(z) + Decimal(n);
      DecimalIsRead(z, n);
    } else if s != "" && Digits(s) == Some(n) {
      ReadIsDecimal(s);
    }
  }

  lemma {:induction false} OnlyDigits(s: string)
    requires Digits(s).Some?
    ensures forall c | c in s :: IsDigit(c)
    decreases |s|
  {
    if s != "" {
      OnlyDigits(s[..|s| - 1]);
      assert s == s[..|s| - 1] + [s[|s| - 1]];
    }
  }

  /** Exactly the texts that are read as `v`: its decimal digits, possibly behind zeros and a sign, for a number that fits
      64 bits. Every other text is refused. */
  lemma AtoiIff(s: string, v: int)
    ensures Atoi(s) == Some(v) <==>
      && Int64.Fits(v)
      && if s != "" && s[0] == '-' then v <= 0 && Names(s[1..], -v)
         else v >= 0 && Names(if s != "" && s[0] == '+' then s[1..] else s, v)
  {
    var digits := if s != "" && (s[0] == '-' || s[0] == '+') then s[1..] else s;
    var n: nat := if v < 0 then -v else v;
    DigitsIff(digits, n);
    if digits != "" && Digits(digits).Some? {
      var d: int := Digits(digits).value;
      assert Atoi(s) == Some(v) <==> Int64.Fits(v) && v == if s != "" && s[0] == '-' then -d else d;
    }
  }

  /** The decimal text of every 64-bit number is read as that number, and a positive one names the position before it. */
  lemma DecimalKeyIsRead(v: int)
    requires Int64.Fits(v)
    ensures var s := if v < 0 then "-" + Decimal(-v) else Decimal(v);
      Atoi(s) == Some(v) && (v >= 1 ==> Pos(s) == v - 1)
  {
    var n := if v < 0 then -v else v;
    assert Zeros(0) + Decimal(n) == Decimal(n);
    assert Names(Decimal(n), n);
    DigitsIff(Decimal(n), n);
    OnlyDigits(Decimal(n));
    if v < 0 {
      assert ("-" + Decimal(n))[1..] == Decimal(n);
      AtoiIff("-" + Decimal(n), v);
    } else {
      assert Decimal(n)[0] in Decimal(n);
      AtoiIff(Decimal(n), v);
    }
  }
}
