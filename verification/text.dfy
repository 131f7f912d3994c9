/** The string operations the engines use: `trim`, number-to-text and zero padding. */
module Text {

  /** A character `String.prototype.trim` strips: ECMAScript white space or a line terminator. */
  predicate IsTrimmable(c: char) {
    var k := c as int;
    k == 0x09 || k == 0x0A || k == 0x0B || k == 0x0C || k == 0x0D || k == 0x20
    || k == 0xA0 || k == 0x1680 || (0x2000 <= k <= 0x200A) || k == 0x2028 || k == 0x2029
    || k == 0x202F || k == 0x205F || k == 0x3000 || k == 0xFEFF
  }

  /** `s` without its leading trimmable characters. */
  function TrimStart(s: string): string
  {
    if |s| > 0 && IsTrimmable(s[0]) then TrimStart(s[1..]) else s
  }

  /** `s` without its trailing trimmable characters. */
  function TrimEnd(s: string): string
  {
    if |s| > 0 && IsTrimmable(s[|s| - 1]) then TrimEnd(s[..|s| - 1]) else s
  }

  /** `s.trim()` */
  function Trim(s: string): string
  {
    TrimEnd(TrimStart(s))
  }

  /** `s.trim()` is the empty string, i.e. a falsy value in a condition. */
  predicate IsBlank(s: string) {
    Trim(s) == ""
  }

  /** Every character of `s` is one `trim` strips. */
  ghost predicate AllTrimmable(s: string) {
    forall i :: 0 <= i < |s| ==> IsTrimmable(s[i])
  }

  lemma {:induction false} TrimStartEmptyIff(s: string)
    ensures TrimStart(s) == "" <==> AllTrimmable(s)
    decreases |s|
  {
    if |s| > 0 {
      if IsTrimmable(s[0]) {
        TrimStartEmptyIff(s[1..]);
        assert AllTrimmable(s[1..]) <==> AllTrimmable(s) by {
          if AllTrimmable(s[1..]) {
            forall i | 0 <= i < |s| ensures IsTrimmable(s[i]) {
              if i > 0 { assert s[i] == s[1..][i - 1]; }
            }
          }
        }
      } else {
        assert !IsTrimmable(s[0]);
      }
    }
  }

  lemma {:induction false} TrimEndEmptyIff(s: string)
    ensures TrimEnd(s) == "" <==> AllTrimmable(s)
    decreases |s|
  {
    if |s| > 0 {
      var last := |s| - 1;
      if IsTrimmable(s[last]) {
        TrimEndEmptyIff(s[..last]);
        assert AllTrimmable(s[..last]) <==> AllTrimmable(s) by {
          if AllTrimmable(s[..last]) {
            forall i | 0 <= i < |s| ensures IsTrimmable(s[i]) {
              if i < last { assert s[i] == s[..last][i]; }
            }
          }
        }
      } else {
        assert !IsTrimmable(s[last]);
      }
    }
  }

  lemma {:induction false} TrimStartKeepsNonTrimmable(s: string)
    requires !AllTrimmable(s)
    ensures |TrimStart(s)| > 0 && !IsTrimmable(TrimStart(s)[0])
    decreases |s|
  {
    if IsTrimmable(s[0]) {
      assert !AllTrimmable(s[1..]) by {
        var i :| 0 <= i < |s| && !IsTrimmable(s[i]);
        assert i > 0 && s[1..][i - 1] == s[i];
      }
      TrimStartKeepsNonTrimmable(s[1..]);
    }
  }

  /** A string is blank exactly when `trim` strips every one of its characters. */
  lemma BlankIff(s: string)
    ensures IsBlank(s) <==> AllTrimmable(s)
  {
    TrimStartEmptyIff(s);
    if AllTrimmable(s) {
      assert TrimStart(s) == "";
    } else {
      TrimStartKeepsNonTrimmable(s);
      TrimEndEmptyIff(TrimStart(s));
    }
  }

  /** The decimal digit character for `d`. */
  function DigitChar(d: nat): (c: char)
    requires d < 10
    ensures '0' <= c <= '9' && (c as int) - ('0' as int) == d
  {
    (('0' as int) + d) as char
  }

  predicate IsDigit(c: char) {
    '0' <= c <= '9'
  }

  /** `String(n)` for a non-negative integer: its decimal digits, no leading zero. */
  function NatToString(n: nat): (r: string)
    ensures 1 <= |r| && forall i :: 0 <= i < |r| ==> IsDigit(r[i])
    ensures (|r| == 1) <==> (n < 10)
    decreases n
  {
    if n < 10 then [DigitChar(n)] else NatToString(n / 10) + [DigitChar(n % 10)]
  }

  /** The value of a string of decimal digits. */
  function ParseNat(s: string): nat
    requires forall i :: 0 <= i < |s| ==> IsDigit(s[i])
  {
    if |s| == 0 then 0
    else
      assert IsDigit(s[|s| - 1]);
      ParseNat(s[..|s| - 1]) * 10 + ((s[|s| - 1] as int) - ('0' as int))
  }

  /** Reading the printed digits back gives the number. */
  lemma {:induction false} NatToStringRoundTrip(n: nat)
    ensures ParseNat(NatToString(n)) == n
    decreases n
  {
    if n >= 10 {
      var a := NatToString(n / 10);
      var r := a + [DigitChar(n % 10)];
      assert r[..|r| - 1] == a;
      NatToStringRoundTrip(n / 10);
    }
  }

  /** `String(n).padStart(2, '0')` */
  function PadTwo(n: nat): (r: string)
    ensures |r| >= 2 && forall i :: 0 <= i < |r| ==> IsDigit(r[i])
    ensures n < 100 ==> |r| == 2
    ensures ParseNat(r) == n
  {
    var s := NatToString(n);
    NatToStringRoundTrip(n);
    if |s| < 2 then
      var r := "0" + s;
      assert r[..1] == "0" && r[..|r| - 1] == "0";
      r
    else
      assert n < 100 ==> |s| == 2 by {
        if n < 100 && n >= 10 { assert NatToString(n / 10) == [DigitChar(n / 10)]; }
      }
      s
  }

  /** `String.fromCharCode(code)` for a code that is a character on its own (below the surrogate range). */
  function FromCharCode(code: nat): (c: char)
    requires code < 0xD800
    ensures c as int == code
  {
    code as char
  }
}
