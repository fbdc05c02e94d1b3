/** Uptime arithmetic of the dashboard: how elapsed wall-clock time becomes a
    whole number of seconds, how that number is split into hours, minutes and
    seconds, and how the split is rendered as "<h>h <m>m <s>s". */
module Uptime {
  import opened Wrappers

  /** Python's int() on a float: truncation toward zero. */
  function Truncate(x: real): (i: int)
    ensures 0.0 <= x ==> 0 <= i && i as real <= x < i as real + 1.0
    ensures x < 0.0 ==> i <= 0 && i as real - 1.0 < x <= i as real
  {
    if 0.0 <= x then x.Floor else -((-x).Floor)
  }

  /** Whole seconds elapsed from `start` to `now`, as int(time.time() - start_time). */
  function Elapsed(now: real, start: real): (u: int)
    ensures start <= now ==> 0 <= u && (u as real) <= now - start < (u as real) + 1.0
    ensures now < start ==> u <= 0 && (u as real) - 1.0 < now - start <= (u as real)
  {
    Truncate(now - start)
  }

  datatype Parts = Parts(hours: int, minutes: int, secs: int)

  /** The three quantities format_uptime computes. Python's // and % by a
      positive divisor round toward negative infinity, which is exactly what
      Dafny's / and % do, so the split agrees with Python's for a negative uptime too. */
  function Split(seconds: int): (p: Parts)
    ensures 0 <= p.minutes < 60 && 0 <= p.secs < 60
    ensures p.hours * 3600 + p.minutes * 60 + p.secs == seconds
    ensures 0 <= seconds ==> 0 <= p.hours
  {
    var h, rest := seconds / 3600, seconds % 3600;
    var m, s := rest / 60, rest % 60;
    assert s == seconds % 60 by { DivModNested(seconds); }
    Parts(h, m, s)
  }

  /** Taking the remainder by 3600 and then by 60 is the same as taking it by 60. */
  lemma DivModNested(n: int)
    ensures (n % 3600) % 60 == n % 60
  {
    var q, r := n / 3600, n % 3600;
    assert n == 3600 * q + r;
    assert n == 60 * (60 * q + r / 60) + r % 60;
    assert n % 60 == r % 60 by { ModUnique(n, 60, 60 * q + r / 60, r % 60); }
  }

  /** Euclidean division has one answer: a quotient and a remainder in range that
      rebuild `n` are the ones `/` and `%` give. */
  lemma ModUnique(n: int, d: int, q: int, r: int)
    requires 0 < d && 0 <= r < d && n == d * q + r
    ensures n / d == q && n % d == r
  {
    var q', r' := n / d, n % d;
    assert d * q + r == d * q' + r';
    if q' < q {
      MulAtLeast(d, q - q');
    } else if q < q' {
      MulAtLeast(d, q' - q);
    }
  }

  lemma {:induction false} MulAtLeast(d: int, k: int)
    requires 0 < d && 1 <= k
    ensures d <= d * k
    decreases k
  {
    if 1 < k {
      MulAtLeast(d, k - 1);
      assert d * k == d * (k - 1) + d;
    }
  }

  /** The split is the only one with minutes and seconds below 60: any
      hours/minutes/seconds triple in range that adds back up to `seconds` is
      the one format_uptime computes. */
  lemma SplitUnique(seconds: int, p: Parts)
    requires 0 <= p.minutes < 60 && 0 <= p.secs < 60
    requires p.hours * 3600 + p.minutes * 60 + p.secs == seconds
    ensures p == Split(seconds)
  {
    var r := p.minutes * 60 + p.secs;
    assert 0 <= r < 3600;
    ModUnique(seconds, 3600, p.hours, r);
    ModUnique(r, 60, p.minutes, p.secs);
  }

  /** The character of one decimal digit. */
  function DigitChar(d: nat): (c: char)
    requires d < 10
    ensures '0' <= c <= '9' && c as int - '0' as int == d
  {
    (d + '0' as int) as char
  }

  predicate IsDigits(s: string)
  {
    forall i :: 0 <= i < |s| ==> '0' <= s[i] <= '9'
  }

  /** Python's str() of a non-negative int. */
  function NatToDecimal(n: nat): (s: string)
    ensures 1 <= |s| && IsDigits(s)
    ensures s[0] == '0' ==> n == 0 && s == "0"
    decreases n
  {
    if n < 10 then [DigitChar(n)] else NatToDecimal(n / 10) + [DigitChar(n % 10)]
  }

  /** The number a string of decimal digits denotes. */
  function DecimalValue(s: string): (n: nat)
    requires IsDigits(s)
    decreases |s|
  {
    if s == [] then 0
    else DecimalValue(s[..|s| - 1]) * 10 + (s[|s| - 1] as int - '0' as int)
  }

  /** Reading back the digits str() wrote gives the number again. */
  lemma {:induction false} DecimalRoundTrip(n: nat)
    ensures DecimalValue(NatToDecimal(n)) == n
    decreases n
  {
    if 10 <= n {
      var prefix := NatToDecimal(n / 10);
      var s := NatToDecimal(n);
      assert s[..|s| - 1] == prefix;
      DecimalRoundTrip(n / 10);
    }
  }

  /** Python's str() of any int: a minus sign in front of the digits of a negative number. */
  function IntToDecimal(i: int): (s: string)
    ensures 1 <= |s|
    ensures 0 <= i <==> IsDigits(s)
    ensures i < 0 <==> s[0] == '-'
    ensures 0 <= i ==> s == NatToDecimal(i)
    ensures i < 0 ==> s[1..] == NatToDecimal(-i)
  {
    if 0 <= i then NatToDecimal(i)
    else
      var signed := "-" + NatToDecimal(-i);
      assert signed[0] == '-' && !IsDigits(signed);
      signed
  }

  /** The int that a string of decimal digits, with an optional leading minus
      sign, denotes; None for any other text. */
  function ReadInt(s: string): Option<int>
  {
    if s != [] && IsDigits(s) then Some(DecimalValue(s))
    else if 2 <= |s| && s[0] == '-' && IsDigits(s[1..]) then Some(-(DecimalValue(s[1..]) as int))
    else None
  }

  /** Reading back the text str() wrote for any int gives the int again. */
  lemma IntRoundTrip(i: int)
    ensures ReadInt(IntToDecimal(i)) == Some(i)
  {
    if 0 <= i {
      DecimalRoundTrip(i);
    } else {
      NegativeRoundTrip(i);
    }
  }

  /** The negative half of IntRoundTrip: the digits after the minus sign read
      back as the magnitude. */
  lemma NegativeRoundTrip(i: int)
    requires i < 0
    ensures ReadInt(IntToDecimal(i)) == Some(i)
  {
    var digits := NatToDecimal(-i);
    var s := IntToDecimal(i);
    assert s == "-" + digits;
    assert s[1..] == digits;
    DecimalRoundTrip(-i);
    assert DecimalValue(s[1..]) == -i;
  }

  /** The position of the first `c` in `s`, or |s| when there is none. */
  function IndexOf(s: string, c: char): (k: nat)
    ensures k <= |s|
    ensures k < |s| ==> s[k] == c
    ensures forall i :: 0 <= i < k ==> s[i] != c
    decreases |s|
  {
    if s == [] then 0 else if s[0] == c then 0 else 1 + IndexOf(s[1..], c)
  }

  /** In `a + [c] + b` with no `c` in `a`, the first `c` is the one after `a`. */
  lemma IndexOfAfter(a: string, c: char, b: string)
    requires forall i :: 0 <= i < |a| ==> a[i] != c
    ensures IndexOf(a + [c] + b, c) == |a|
  {
    var s := a + [c] + b;
    assert s[|a|] == c;
    assert forall i :: 0 <= i < |a| ==> s[i] == a[i];
  }

  /** The text of str() of an int holds no letter. */
  lemma NoLetterInInt(i: int, c: char)
    requires c == 'h' || c == 'm' || c == 's'
    ensures forall k :: 0 <= k < |IntToDecimal(i)| ==> IntToDecimal(i)[k] != c
  {
    if i < 0 {
      var digits := NatToDecimal(-i);
      assert IntToDecimal(i) == "-" + digits;
      forall k | 0 <= k < |IntToDecimal(i)| ensures IntToDecimal(i)[k] != c {
        if 0 < k { assert IntToDecimal(i)[k] == digits[k - 1]; }
      }
    }
  }

  /** format_uptime: the split rendered as "<h>h <m>m <s>s". */
  function FormatUptime(seconds: int): (text: string)
  {
    var p := Split(seconds);
    Render(p.hours, p.minutes, p.secs)
  }

  /** The f-string of format_uptime, applied to the three quantities. */
  function Render(h: int, m: int, sec: int): string
  {
    IntToDecimal(h) + "h " + IntToDecimal(m) + "m " + IntToDecimal(sec) + "s"
  }

  /** Minutes and seconds are rendered without a sign: they are never negative. */
  lemma FormatUptimeFields(seconds: int)
    ensures var p := Split(seconds);
      FormatUptime(seconds) == IntToDecimal(p.hours) + "h " + NatToDecimal(p.minutes) + "m " + NatToDecimal(p.secs) + "s"
    ensures 0 <= seconds ==> IsDigits(IntToDecimal(Split(seconds).hours))
  {
  }

  /** One hour, one minute and one second; and less than a minute. */
  lemma FormatUptimeExamples()
    ensures FormatUptime(3661) == "1h 1m 1s"
    ensures FormatUptime(59) == "0h 0m 59s"
  {
    assert Split(3661) == Parts(1, 1, 1);
    assert Split(59) == Parts(0, 0, 59);
    assert NatToDecimal(59) == "59" by {
      assert NatToDecimal(5) == "5";
    }
  }

  /** The hours, minutes and seconds a "<h>h <m>m <s>s" text shows; None
      for any text not of that shape. */
  function ReadParts(text: string): Option<Parts>
  {
    var i := IndexOf(text, 'h');
    if |text| <= i + 1 || text[i + 1] != ' ' then None
    else ReadMinutes(ReadInt(text[..i]), text[i + 2..])
  }

  /** The "<m>m <s>s" rest of an uptime text, after `hours`. */
  function ReadMinutes(hours: Option<int>, rest: string): Option<Parts>
  {
    var j := IndexOf(rest, 'm');
    if |rest| <= j + 1 || rest[j + 1] != ' ' then None
    else ReadSeconds(hours, ReadInt(rest[..j]), rest[j + 2..])
  }

  /** The "<s>s" end of an uptime text, after `hours` and `minutes`. */
  function ReadSeconds(hours: Option<int>, minutes: Option<int>, last: string): Option<Parts>
  {
    if last == [] || last[|last| - 1] != 's' then None
    else
      match (hours, minutes, ReadInt(last[..|last| - 1]))
      case (Some(h), Some(m), Some(sec)) => Some(Parts(h, m, sec))
      case _ => None
  }

  /** The number of seconds an uptime text stands for. */
  function ReadUptime(text: string): Option<int>
  {
    match ReadParts(text)
    case Some(p) => Some(p.hours * 3600 + p.minutes * 60 + p.secs)
    case None => None
  }

  /** "<S>s" reads back as S seconds after the hours and minutes. */
  lemma ReadSecondsShape(h: int, m: int, S: string, sec: int)
    requires ReadInt(S) == Some(sec)
    ensures ReadSeconds(Some(h), Some(m), S + "s") == Some(Parts(h, m, sec))
  {
    var last := S + "s";
    assert last[|last| - 1] == 's' && last[..|last| - 1] == S;
  }

  /** "<M>m <S>s", with no 'm' in M, reads back as M minutes and S seconds. */
  lemma ReadMinutesShape(hours: Option<int>, M: string, S: string)
    requires forall k :: 0 <= k < |M| ==> M[k] != 'm'
    ensures ReadMinutes(hours, M + "m " + S + "s") == ReadSeconds(hours, ReadInt(M), S + "s")
  {
    var last := S + "s";
    var rest := M + "m " + last;
    assert M + "m " + S + "s" == rest;
    assert rest == M + ['m'] + (" " + last);
    IndexOfAfter(M, 'm', " " + last);
    assert rest[|M| + 1] == ' ';
    assert rest[|M| + 2..] == last;
    assert rest[..|M|] == M;
  }

  /** Text of the shape "<H>h <M>m <S>s", with no 'h' in H and no 'm' in M,
      reads back as H hours, M minutes and S seconds. */
  lemma ReadPartsShape(H: string, M: string, S: string, h: int, m: int, sec: int)
    requires forall k :: 0 <= k < |H| ==> H[k] != 'h'
    requires forall k :: 0 <= k < |M| ==> M[k] != 'm'
    requires ReadInt(H) == Some(h) && ReadInt(M) == Some(m) && ReadInt(S) == Some(sec)
    ensures ReadParts(H + "h " + M + "m " + S + "s") == Some(Parts(h, m, sec))
  {
    var rest := M + "m " + S + "s";
    var text := H + "h " + rest;
    assert H + "h " + M + "m " + S + "s" == text;
    assert ReadParts(text) == ReadMinutes(ReadInt(H), rest) by {
      assert text == H + ['h'] + (" " + rest);
      IndexOfAfter(H, 'h', " " + rest);
      assert text[|H| + 1] == ' ' && text[|H| + 2..] == rest && text[..|H|] == H;
    }
    ReadMinutesShape(ReadInt(H), M, S);
    ReadSecondsShape(h, m, S, sec);
  }

  /** Any hours, minutes and seconds rendered as format_uptime renders them
      read back as the same three numbers. */
  lemma ReadRendered(h: int, m: int, sec: int)
    ensures ReadParts(Render(h, m, sec)) == Some(Parts(h, m, sec))
  {
    NoLetterInInt(h, 'h');
    NoLetterInInt(m, 'm');
    IntRoundTrip(h);
    IntRoundTrip(m);
    IntRoundTrip(sec);
    ReadPartsShape(IntToDecimal(h), IntToDecimal(m), IntToDecimal(sec), h, m, sec);
  }

  /** The rendered uptime can be read back: it shows exactly the split it
      was made from. */
  lemma UptimeRoundTrip(seconds: int)
    ensures ReadParts(FormatUptime(seconds)) == Some(Split(seconds))
  {
    var p := Split(seconds);
    ReadRendered(p.hours, p.minutes, p.secs);
  }

  /** A text that shows the split of `seconds` stands for `seconds`. */
  lemma ReadUptimeOfSplit(text: string, seconds: int)
    requires ReadParts(text) == Some(Split(seconds))
    ensures ReadUptime(text) == Some(seconds)
  {
  }

  /** The rendered uptime stands for exactly the seconds it was made from. */
  lemma UptimeReadsBack(seconds: int)
    ensures ReadUptime(FormatUptime(seconds)) == Some(seconds)
  {
    UptimeRoundTrip(seconds);
    ReadUptimeOfSplit(FormatUptime(seconds), seconds);
  }
}
