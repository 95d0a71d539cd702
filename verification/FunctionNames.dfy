/**
 Function names as they are listed: plain, or with a colon and a file offset after them.
 */
module FunctionNames {

  /** The name up to its first colon. */
  function BaseName(name: string): string {
    if name == "" || name[0] == ':' then "" else [name[0]] + BaseName(name[1..])
  }

  predicate ColonFree(name: string) {
    name == "" || (name[0] != ':' && ColonFree(name[1..]))
  }

  lemma {:induction false} ColonFreeIff(name: string)
    ensures ColonFree(name) <==> forall i :: 0 <= i < |name| ==> name[i] != ':'
  {
    if name != "" {
      ColonFreeIff(name[1..]);
      assert forall i :: 0 < i < |name| ==> name[i] == name[1..][i - 1];
    }
  }

  lemma {:induction false} BaseOfColonFree(name: string)
    requires ColonFree(name)
    ensures BaseName(name) == name
  {
    if name != "" {
      BaseOfColonFree(name[1..]);
      assert name == [name[0]] + name[1..];
    }
  }

  lemma {:induction false} BaseOfOffset(name: string, offset: string)
    requires ColonFree(name)
    ensures BaseName(name + [':'] + offset) == name
  {
    var s := name + [':'] + offset;
    if name == "" {
      assert s[0] == ':';
    } else {
      BaseOfOffset(name[1..], offset);
      assert s[1..] == name[1..] + [':'] + offset;
      assert name == [name[0]] + name[1..];
    }
  }

  // ----- printed offsets -----

  function HexDigit(d: nat): char
    requires d < 16
  {
    if d < 10 then '0' + d as char else 'a' + (d - 10) as char
  }

  function DigitValue(c: char): nat {
    if '0' <= c <= '9' then (c - '0') as nat else if 'a' <= c <= 'f' then (c - 'a') as nat + 10 else 0
  }

  /** `n` in hexadecimal, without leading zeros. */
  function HexDigits(n: nat): string {
    if n < 16 then [HexDigit(n)] else HexDigits(n / 16) + [HexDigit(n % 16)]
  }

  function PrintOffset(n: nat): string { "0x" + HexDigits(n) }

  function HexValue(s: string): nat {
    if s == "" then 0 else HexValue(s[..|s| - 1]) * 16 + DigitValue(s[|s| - 1])
  }

  function ReadOffset(s: string): nat {
    if |s| < 2 then 0 else HexValue(s[2..])
  }

  lemma {:induction false} HexRoundTrip(n: nat)
    ensures HexValue(HexDigits(n)) == n
  {
    if n < 16 {
      assert [HexDigit(n)][..0] == "";
    } else {
      HexRoundTrip(n / 16);
      var front := HexDigits(n / 16);
      assert (front + [HexDigit(n % 16)])[..|front|] == front;
    }
  }

  /** A printed offset can be read back, so different offsets print differently. */
  lemma OffsetRoundTrip(n: nat)
    ensures ReadOffset(PrintOffset(n)) == n
  {
    HexRoundTrip(n);
    assert PrintOffset(n)[2..] == HexDigits(n);
  }

  predicate IsHexDigit(c: char) { '0' <= c <= '9' || 'a' <= c <= 'f' }

  lemma {:induction false} HexDigitsAre(n: nat)
    ensures HexDigits(n) != "" && (forall i :: 0 <= i < |HexDigits(n)| ==> IsHexDigit(HexDigits(n)[i]))
    ensures HexDigits(n)[0] == '0' <==> n == 0
  {
    if n >= 16 {
      HexDigitsAre(n / 16);
    }
  }

  /** A printed offset is 0x and then lower-case digits, without a leading zero unless it is zero. */
  lemma OffsetText(n: nat)
    ensures var s := PrintOffset(n);
            && |s| > 2 && s[0] == '0' && s[1] == 'x' && (s[2] == '0' <==> n == 0)
            && forall i :: 2 <= i < |s| ==> IsHexDigit(s[i])
  {
    HexDigitsAre(n);
    assert PrintOffset(n)[2..] == HexDigits(n);
  }
}
