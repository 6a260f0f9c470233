/** Small string helpers the tasks and models need: Python's `str(int)` and
    `os.path.basename`. */
module Text {

  predicate IsDigit(c: char) {
    '0' <= c <= '9'
  }

  predicate AllDigits(s: string) {
    forall i :: 0 <= i < |s| ==> IsDigit(s[i])
  }

  function DigitChar(d: nat): (c: char)
    requires d < 10
    ensures IsDigit(c)
    ensures (c as int) - ('0' as int) == d
  {
    ('0' as int + d) as char
  }

  /** Decimal rendering of a non-negative integer, as Python's `str(n)`. */
  function NatToString(n: nat): (s: string)
    ensures |s| > 0
    ensures AllDigits(s)
    ensures |s| > 1 ==> s[0] != '0'
  {
    if n < 10 then [DigitChar(n)] else NatToString(n / 10) + [DigitChar(n % 10)]
  }

  /** Reads a string of decimal digits back as a number. */
  function ParseNat(s: string): nat
    requires AllDigits(s)
  {
    if |s| == 0 then 0 else ParseNat(s[..|s| - 1]) * 10 + ((s[|s| - 1] as int) - ('0' as int))
  }

  /** The decimal rendering is faithful: reading it back yields the number. */
  lemma {:induction false} ParseNatToString(n: nat)
    ensures ParseNat(NatToString(n)) == n
  {
    var s := NatToString(n);
    if n >= 10 {
      ParseNatToString(n / 10);
      assert s[..|s| - 1] == NatToString(n / 10);
    }
  }

  /** Distinct numbers never render to the same text. */
  lemma NatToStringInjective(m: nat, n: nat)
    requires NatToString(m) == NatToString(n)
    ensures m == n
  {
    ParseNatToString(m);
    ParseNatToString(n);
  }

  /** `os.path.basename`: everything after the last '/', the whole path when
      there is none, and "" when the path ends in '/'. */
  function Basename(p: string): string {
    if |p| == 0 || p[|p| - 1] == '/' then ""
    else Basename(p[..|p| - 1]) + [p[|p| - 1]]
  }

  /** The base name is the tail of the path after its last '/': it holds no
      '/', and a '/' precedes it unless it is the whole path. */
  lemma {:induction false} BasenameIsLastComponent(p: string)
    ensures var b := Basename(p);
            && |b| <= |p| && p[|p| - |b|..] == b
            && (forall i :: 0 <= i < |b| ==> b[i] != '/')
            && (|b| < |p| ==> p[|p| - |b| - 1] == '/')
  {
    if |p| > 0 && p[|p| - 1] != '/' {
      var q := p[..|p| - 1];
      BasenameIsLastComponent(q);
      var b := Basename(p);
      var bq := Basename(q);
      assert b == bq + [p[|p| - 1]];
      assert p[|p| - |b|..] == q[|q| - |bq|..] + [p[|p| - 1]];
      if |b| < |p| {
        assert p[|p| - |b| - 1] == q[|q| - |bq| - 1];
      }
    }
  }
}
