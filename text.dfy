/** String handling the pages do by hand: the WhatsApp link's phone part
    (`phoneNumber.replace(/\D/g, '')`) and the number inputs' `parseInt`. */
module Text {
  import opened Ledger

  predicate IsDigit(c: char) {
    '0' <= c <= '9'
  }

  predicate AllDigits(s: string) {
    forall i :: 0 <= i < |s| ==> IsDigit(s[i])
  }

  /** `s.replace(/\D/g, '')`: the digits of `s`, in order. */
  function Digits(s: string): (r: string)
    ensures AllDigits(r)
    ensures |r| <= |s|
    decreases |s|
  {
    if s == [] then []
    else if IsDigit(s[0]) then [s[0]] + Digits(s[1..])
    else Digits(s[1..])
  }

  lemma {:induction false} DigitsAppend(a: string, b: string)
    ensures Digits(a + b) == Digits(a) + Digits(b)
    decreases |a|
  {
    if a == [] {
      assert a + b == b;
    } else {
      assert (a + b)[0] == a[0] && (a + b)[1..] == a[1..] + b;
      DigitsAppend(a[1..], b);
    }
  }

  /** A string made only of digits is left as it is, and only such a string. */
  lemma {:induction false} DigitsFixpoint(s: string)
    ensures Digits(s) == s <==> AllDigits(s)
    decreases |s|
  {
    if s != [] {
      DigitsFixpoint(s[1..]);
      if !IsDigit(s[0]) {
        assert |Digits(s[1..])| <= |s[1..]| < |s|;
      }
    }
  }

  /** Stripping twice strips nothing more. */
  lemma DigitsIdempotent(s: string)
    ensures Digits(Digits(s)) == Digits(s)
  {
    DigitsFixpoint(Digits(s));
  }

  /** Every digit of `s` is kept, as often as it occurs: `Digits(s)` is the
      digit subsequence of `s`. */
  lemma {:induction false} DigitsCount(s: string, c: char)
    ensures multiset(Digits(s))[c] == if IsDigit(c) then multiset(s)[c] else 0
    decreases |s|
  {
    if s != [] {
      DigitsCount(s[1..], c);
      assert s == [s[0]] + s[1..];
    }
  }

  const WaPrefix: string := "https://wa.me/"
  const TextParam: string := "?text="

  /** `https://wa.me/<digits>?text=<message>`, the message already
      percent-encoded. */
  function WhatsAppLink(phone: string, encodedMessage: string): string {
    WaPrefix + Digits(phone) + TextParam + encodedMessage
  }

  /** Reads the phone back out of a link: the characters after the prefix up
      to the first `?`. */
  function LinkPhone(link: string): Option<string> {
    if |link| < |WaPrefix| || link[..|WaPrefix|] != WaPrefix then None
    else Some(UpTo(link[|WaPrefix|..], '?'))
  }

  function UpTo(s: string, stop: char): (r: string)
    ensures |r| <= |s| && r == s[..|r|]
    decreases |s|
  {
    if s == [] || s[0] == stop then [] else [s[0]] + UpTo(s[1..], stop)
  }

  lemma {:induction false} UpToPrefix(a: string, b: string, stop: char)
    requires forall i :: 0 <= i < |a| ==> a[i] != stop
    requires b != [] && b[0] == stop
    ensures UpTo(a + b, stop) == a
    decreases |a|
  {
    if a != [] {
      assert (a + b)[1..] == a[1..] + b;
      UpToPrefix(a[1..], b, stop);
    }
  }

  /** The phone part of the link is exactly the digits of the phone number:
      no digit is lost and nothing else gets in. */
  lemma LinkPhoneRoundTrip(phone: string, encodedMessage: string)
    ensures LinkPhone(WhatsAppLink(phone, encodedMessage)) == Some(Digits(phone))
  {
    var link := WhatsAppLink(phone, encodedMessage);
    var d := Digits(phone);
    assert link == WaPrefix + (d + (TextParam + encodedMessage));
    assert link[..|WaPrefix|] == WaPrefix;
    assert link[|WaPrefix|..] == d + (TextParam + encodedMessage);
    UpToPrefix(d, TextParam + encodedMessage, '?');
  }

  // ---- parseInt on a number input's value ----

  function DigitValue(c: char): int
    requires IsDigit(c)
  {
    c as int - '0' as int
  }

  /** The longest prefix of `s` made of digits. */
  function DigitRun(s: string): (r: string)
    ensures AllDigits(r) && |r| <= |s| && r == s[..|r|]
    decreases |s|
  {
    if s == [] || !IsDigit(s[0]) then [] else [s[0]] + DigitRun(s[1..])
  }

  /** The value of a decimal numeral. */
  function NumeralValue(s: string): (n: nat)
    requires AllDigits(s)
    decreases |s|
  {
    if s == [] then 0 else NumeralValue(s[..|s| - 1]) * 10 + DigitValue(s[|s| - 1])
  }

  /** `parseInt(s)` (radix 10): an optional sign, then the longest run of
      digits; `None` stands for NaN, when there is no digit. */
  function ParseInt(s: string): Option<int> {
    var neg := |s| > 0 && s[0] == '-';
    var body := if |s| > 0 && (s[0] == '-' || s[0] == '+') then s[1..] else s;
    var run := DigitRun(body);
    if run == [] then None
    else
      var n: int := NumeralValue(run);
      Some(if neg then -n else n)
  }

  /** `parseInt(s) || fallback`: NaN and 0 both give the fallback. */
  function ParseIntOr(s: string, fallback: int): (r: int)
    ensures ParseInt(s).None? ==> r == fallback
    ensures ParseInt(s) == Some(0) ==> r == fallback
    ensures ParseInt(s).Some? && ParseInt(s).value != 0 ==> r == ParseInt(s).value
  {
    var p := ParseInt(s);
    if p.Some? && p.value != 0 then p.value else fallback
  }

  /** The decimal numeral of `n`, most significant digit first. */
  function Numeral(n: nat): (s: string)
    ensures AllDigits(s) && s != []
    decreases n
  {
    if n < 10 then [(n + '0' as int) as char]
    else Numeral(n / 10) + [(n % 10 + '0' as int) as char]
  }

  lemma {:induction false} NumeralValueOf(n: nat)
    ensures NumeralValue(Numeral(n)) == n
    decreases n
  {
    if n >= 10 {
      NumeralValueOf(n / 10);
      var s := Numeral(n);
      assert s[..|s| - 1] == Numeral(n / 10);
    }
  }

  /** `ParseInt` reads back what the number input shows for a whole number:
      the round trip through the numeral is the identity. */
  lemma ParseIntRoundTrip(n: int)
    ensures ParseInt(if n < 0 then "-" + Numeral(-n) else Numeral(n)) == Some(n)
  {
    var m: nat := if n < 0 then -n else n;
    NumeralValueOf(m);
    if n < 0 {
      ParseNegativeNumeral(Numeral(m));
    } else {
      ParseNumeral(Numeral(m));
    }
  }

  /** A numeral reads as its value ... */
  lemma ParseNumeral(s: string)
    requires AllDigits(s) && s != []
    ensures ParseInt(s) == Some(NumeralValue(s))
  {
    DigitRunAll(s);
    assert IsDigit(s[0]);
  }

  /** ... and with a minus sign in front as minus its value. */
  lemma ParseNegativeNumeral(s: string)
    requires AllDigits(s) && s != []
    ensures ParseInt("-" + s) == Some(-(NumeralValue(s) as int))
  {
    DigitRunAll(s);
    assert ("-" + s)[1..] == s;
  }

  lemma {:induction false} DigitRunAll(s: string)
    requires AllDigits(s)
    ensures DigitRun(s) == s
    decreases |s|
  {
    if s != [] {
      DigitRunAll(s[1..]);
    }
  }
}
