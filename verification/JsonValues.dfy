/** What the printed text of a string and of a number says. */
module JsonValues {
  import opened JsonTree

  /** The number that digits stand for. */
  function ValueOf(d: string): int {
    if d == "" then 0 else 10 * ValueOf(d[..|d| - 1]) + (d[|d| - 1] as int - '0' as int)
  }

  lemma OneMoreDigit(d: string, k: nat)
    requires k < 10
    ensures ValueOf(d + ['0' + k as char]) == 10 * ValueOf(d) + k
  {
    var last := '0' + k as char;
    assert (d + [last])[..|d + [last]| - 1] == d;
  }

  /** Digits are written most significant first, without leading zeros. */
  lemma {:induction false} DigitsValue(n: nat)
    ensures ValueOf(Digits(n)) == n && (n > 0 ==> Digits(n)[0] != '0')
  {
    if n >= 10 {
      DigitsValue(n / 10);
      OneMoreDigit(Digits(n / 10), n % 10);
    } else {
      OneMoreDigit("", n);
    }
  }

  /** An int is written as its digits, behind a minus sign if it is negative. */
  lemma DecimalValue(n: int)
    ensures var s := Decimal(n);
            if n < 0 then s[0] == '-' && ValueOf(s[1..]) == -n else '0' <= s[0] <= '9' && ValueOf(s) == n
  {
    DigitsValue(if n < 0 then -n else n);
    if n < 0 {
      assert Decimal(n)[1..] == Digits(-n);
    }
  }

  /** Dropping the backslash in front of every quote. */
  function Unescape(t: string): string {
    if t == "" then ""
    else if |t| >= 2 && t[0] == '\\' && t[1] == '\"' then "\"" + Unescape(t[2..])
    else [t[0]] + Unescape(t[1..])
  }

  /** The escaped string determines the string, and is the same iff the string has no quote. */
  lemma {:induction false} EscapeUndone(s: string)
    ensures Unescape(Escape(s)) == s && |Escape(s)| >= |s|
    ensures Escape(s) == s <==> '\"' !in s
  {
    if s != "" {
      var rest := Escape(s[1..]);
      EscapeUndone(s[1..]);
      if s[0] == '\"' {
        assert Escape(s) == "\\\"" + rest && Escape(s)[2..] == rest;
        assert |Escape(s)| > |s|;
      } else {
        assert Escape(s)[1..] == rest;
        EscapedStart(s[1..]);
        assert s == [s[0]] + s[1..];
      }
    }
  }

  lemma EscapedStart(s: string)
    ensures Escape(s) != "" ==> Escape(s)[0] != '\"'
  {
  }
}
