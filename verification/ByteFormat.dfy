/** core/cmd/silieco/cmd_daemon.go: byte counts in binary units. */
module ByteFormat {
  const INT64_MAX: int := 0x7FFF_FFFF_FFFF_FFFF
  const PREFIXES: string := "KMGTPE"

  function Power(n: nat): nat {
    if n == 0 then 1 else 1024 * Power(n - 1)
  }

  /** The unit of a count: plain bytes, or a prefix with the number of bytes it stands for. */
  datatype Unit = Bytes | Prefixed(prefix: char, size: nat)

  lemma {:induction false} PowerGrows(m: nat, n: nat)
    requires m <= n
    ensures Power(m) <= Power(n) && Power(m) >= 1
    decreases n
  {
    if m < n {
      PowerGrows(m, n - 1);
    } else if n > 0 {
      PowerGrows(n - 1, n - 1);
    }
  }

  lemma SixPowers()
    ensures Power(7) > INT64_MAX
  {
    assert Power(2) == 1_048_576;
    assert Power(4) == 1_048_576 * 1_048_576;
    assert Power(7) == 1024 * Power(6) && Power(6) == 1024 * Power(5) && Power(5) == 1024 * Power(4);
  }

  /** The unit is the power of 1024 that the count reaches, while it does not reach the next. */
  ghost predicate IsUnit(b: int, exp: nat, u: Unit) {
    exp < 6 && u == Prefixed(PREFIXES[exp], Power(exp + 1)) && Power(exp + 1) <= b < Power(exp + 2)
  }

  lemma Divided(b: int, div: nat, n: nat)
    requires div * n <= b < div * (n + 1)
    ensures div * 1024 * (n / 1024) <= b < div * 1024 * (n / 1024 + 1)
  {
    var q, r := n / 1024, n % 1024;
    assert n == 1024 * q + r;
    Times(div, 1024 * q, n);
    Times(div, n + 1, 1024 * (q + 1));
  }

  lemma Times(a: nat, x: nat, y: nat)
    requires x <= y
    ensures a * x <= a * y
  {
  }

  /** The largest unit that fits is chosen, and its prefix exists for every 64-bit count. */
  method ChooseUnit(b: int) returns (u: Unit)
    requires b <= INT64_MAX
    ensures u.Bytes? <==> b < 1024
    ensures u.Prefixed? ==> exists exp: nat :: IsUnit(b, exp, u)
  {
    if b < 1024 {
      return Bytes;
    }
    var div, exp := 1024, 0;
    var n := b / 1024;
    assert Power(1) == 1024 * Power(0);
    while n >= 1024
      invariant exp >= 0 && div == Power(exp + 1) && n >= 1
      invariant div * n <= b < div * (n + 1)
      decreases n
    {
      Divided(b, div, n);
      n, div, exp := n / 1024, div * 1024, exp + 1;
    }
    SixPowers();
    Times(div, 1, n);
    Times(div, n + 1, 1024);
    if exp >= 6 {
      PowerGrows(7, exp + 1);
    }
    u := Prefixed(PREFIXES[exp], div);
    assert IsUnit(b, exp, u);
  }
}
