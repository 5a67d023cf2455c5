/** The message buffer of the send loop: each send time is written over the last one in place, and
    the receiver reads the text up to the first space. */
module Payload {
  import opened Wrappers
  import opened Decimal

  const MIN_SIZE: int := 20

  /** The size in use for a requested payload size. */
  function Clamp(payload: int): nat {
    if payload < MIN_SIZE then MIN_SIZE else payload
  }

  ghost function Blank(size: nat): string { seq(size, _ => ' ') }

  /** The buffer after AppendInt(buf[:0], now, 10). A text longer than the buffer goes to a new
      array, which the program drops, so the buffer keeps the old text. */
  ghost function Stamped(buf: string, now: int): string {
    var text := Itoa(now);
    if |text| <= |buf| then text + buf[|text|..] else buf
  }

  /** The first n characters are not a space; the next one, if any, is. */
  function TextEnd(data: string): (n: nat)
    ensures n <= |data|
    ensures forall i :: 0 <= i < n ==> data[i] != ' '
    ensures n < |data| ==> data[n] == ' '
  {
    if data == "" || data[0] == ' ' then 0 else 1 + TextEnd(data[1..])
  }

  /** The send time that the receiver reads from a message, if it can. */
  function Received(data: string): Option<int> {
    ParseInt64(data[..TextEnd(data)])
  }

  class Buffer {
    const buf: array<char>

    constructor (payload: int)
      ensures fresh(buf) && buf.Length == if payload >= 20 then payload else 20
      ensures buf[..] == After(buf.Length, []) && forall i :: 0 <= i < buf.Length ==> buf[i] == ' '
    {
      buf := new char[Clamp(payload)](_ => ' ');
    }

    method Stamp(now: int)
      modifies buf
      ensures buf[..] == Stamped(old(buf[..]), now)
    {
      var text := Itoa(now);
      if |text| > buf.Length {
        return;
      }
      for i := 0 to |text|
        invariant forall j :: 0 <= j < i ==> buf[j] == text[j]
        invariant forall j :: i <= j < buf.Length ==> buf[j] == old(buf[j])
      {
        buf[i] := text[i];
      }
    }
  }

  /** The buffer after a sequence of sends. */
  ghost function After(size: nat, times: seq<int>): (buf: string)
    ensures |buf| == size
  {
    if |times| == 0 then Blank(size) else Stamped(After(size, times[..|times| - 1]), times[|times| - 1])
  }

  /** The length of the longest text written so far. */
  ghost function Longest(times: seq<int>): nat {
    if |times| == 0 then 0
    else
      var before, now := Longest(times[..|times| - 1]), |Itoa(times[|times| - 1])|;
      if now > before then now else before
  }

  /** What those sends have left in the buffer: the last text and older digits behind it. */
  ghost function Written(size: nat, times: seq<int>): string {
    var n := Longest(times);
    if n <= size then After(size, times)[..n] else After(size, times)
  }

  ghost predicate Clocked(times: seq<int>) { forall i :: 0 <= i < |times| ==> IsInt64(times[i]) }

  /** The first n characters are a text and old digits, the rest is still blank. */
  ghost predicate Shape(buf: string, n: nat) {
    && n <= |buf|
    && (forall i :: 0 <= i < n ==> buf[i] != ' ')
    && (forall i :: 1 <= i < n ==> IsDigit(buf[i]))
    && (forall i :: n <= i < |buf| ==> buf[i] == ' ')
  }

  lemma ItoaShape(now: int)
    ensures var t := Itoa(now);
            && (forall i :: 1 <= i < |t| ==> IsDigit(t[i]))
            && (forall i :: 0 <= i < |t| ==> t[i] != ' ')
  {
    if now < 0 {
      var d := Digits(-now);
      assert forall i :: 1 <= i < |Itoa(now)| ==> Itoa(now)[i] == d[i - 1];
    }
  }

  lemma {:induction false} AfterShape(size: nat, times: seq<int>)
    requires size >= MIN_SIZE && Clocked(times)
    ensures Longest(times) <= MIN_SIZE
    ensures Shape(After(size, times), Longest(times))
  {
    hide Digits;
    if |times| > 0 {
      AfterShape(size, times[..|times| - 1]);
      Int64Text(times[|times| - 1]);
      ItoaShape(times[|times| - 1]);
    }
  }

  lemma TextEndIs(data: string, n: nat)
    requires n <= |data| && (n < |data| ==> data[n] == ' ')
    requires forall i :: 0 <= i < n ==> data[i] != ' '
    ensures TextEnd(data) == n
  {
  }

  lemma OneMoreSend(size: nat, times: seq<int>, now: int)
    ensures After(size, times + [now]) == Stamped(After(size, times), now)
    ensures Longest(times + [now]) == if |Itoa(now)| > Longest(times) then |Itoa(now)| else Longest(times)
  {
    assert (times + [now])[..|times|] == times;
  }

  /** What the receiver parses: the time just written, then the digits that an earlier, longer
      text left behind. */
  lemma ReceivedIs(size: nat, times: seq<int>, now: int)
    requires size >= MIN_SIZE && Clocked(times) && IsInt64(now)
    ensures var t := Itoa(now);
            var stale := Written(size, times);
            Received(After(size, times + [now]))
            == ParseInt64(if |t| >= |stale| then t else t + stale[|t|..])
  {
    hide Itoa, ParseInt64, After, Longest, TextEnd;
    var t, before := Itoa(now), After(size, times);
    AfterShape(size, times);
    Int64Text(now);
    OneMoreSend(size, times, now);
    var data := After(size, times + [now]);
    var n := Longest(times + [now]);
    AfterShape(size, times + [now]);
    TextEndIs(data, n);
    assert data == t + before[|t|..];
    if |t| < Longest(times) {
      assert data[..n] == t + before[..n][|t|..];
    } else {
      assert data[..n] == t;
    }
  }

  /** A time followed by stale digits reads as that time only for zero followed by zeros. */
  lemma StaleDigits(now: int, stale: string)
    requires IsInt64(now) && |stale| > 0 && AllDigits(stale)
    ensures ParseInt64(Itoa(now) + stale) == Some(now) <==> now == 0 && Value(stale) == 0
  {
    hide Value, Digits, ParseInt64, Pow10;
    var n: nat := if now < 0 then -now else now;
    var digits := Digits(n) + stale;
    LongerValue(n, stale);
    ParseSigned(digits);
    if now < 0 {
      assert Itoa(now) + stale == "-" + digits;
    } else {
      assert Itoa(now) + stale == digits;
    }
  }

  lemma LongerValue(n: nat, stale: string)
    requires |stale| > 0 && AllDigits(stale)
    ensures AllDigits(Digits(n) + stale)
    ensures Value(Digits(n) + stale) == n <==> n == 0 && Value(stale) == 0
  {
    ValueOfDigits(n);
    ValueAppend(Digits(n), stale);
    assert Pow10(|stale|) == 10 * Pow10(|stale| - 1);
    Grows(n, Pow10(|stale| - 1), Value(stale));
  }

  lemma Grows(a: nat, p: nat, b: nat)
    requires p >= 1
    ensures a * (10 * p) + b == a <==> a == 0 && b == 0
  {
    assert a * (10 * p) == 10 * (a * p);
    assert a * p == a + a * (p - 1);
  }

  /** After any sends, the next time arrives exactly when its text is at least as long as every
      earlier one (or it is zero and only zeros show behind it). */
  lemma ArrivesExactly(size: nat, times: seq<int>, now: int)
    requires size >= MIN_SIZE && Clocked(times) && IsInt64(now)
    ensures var stale := Written(size, times);
            Received(After(size, times + [now])) == Some(now)
            <==> || |Itoa(now)| >= Longest(times)
                 || (now == 0 && forall i :: 1 <= i < |stale| ==> stale[i] == '0')
  {
    hide Digits, Value, ParseInt64, Received, After;
    var t := Itoa(now);
    AfterShape(size, times);
    ReceivedIs(size, times, now);
    ParseItoa(now);
    var stale := Written(size, times);
    if |t| < Longest(times) {
      var tail := stale[|t|..];
      StaleDigits(now, tail);
      ZeroValue(tail);
      ZeroText();
      assert forall i :: 0 <= i < |tail| ==> tail[i] == stale[|t| + i];
      assert forall i :: |t| <= i < |stale| ==> stale[i] == tail[i - |t|];
    }
  }

  lemma ZeroText()
    ensures |Itoa(0)| == 1
  {
  }

  lemma {:induction false} ZeroValue(s: string)
    requires AllDigits(s)
    ensures Value(s) == 0 <==> forall i :: 0 <= i < |s| ==> s[i] == '0'
  {
    if |s| > 0 {
      ZeroValue(s[..|s| - 1]);
    }
  }

  /** A clock that is not negative and does not go back: every time arrives, and the message is
      the text and spaces. */
  lemma ClockArrives(payload: int, times: seq<int>, now: int)
    requires Clocked(times) && IsInt64(now) && now >= 0
    requires forall i :: 0 <= i < |times| ==> 0 <= times[i] <= now
    ensures var data := After(Clamp(payload), times + [now]);
            && |data| == (if payload >= 20 then payload else 20)
            && Received(data) == Some(now)
            && Itoa(now) <= data
            && forall i :: |Itoa(now)| <= i < |data| ==> data[i] == ' '
  {
    hide Digits, Received, Itoa, Longest, Written;
    var size := Clamp(payload);
    LongestIsBelow(times, now);
    ArrivesExactly(size, times, now);
    AfterShape(size, times);
    Int64Text(now);
    assert (times + [now])[..|times|] == times;
  }

  lemma {:induction false} LongestIsBelow(times: seq<int>, now: nat)
    requires forall i :: 0 <= i < |times| ==> 0 <= times[i] <= now
    ensures Longest(times) <= |Itoa(now)|
  {
    if |times| > 0 {
      LongestIsBelow(times[..|times| - 1], now);
      DigitsMonotone(times[|times| - 1], now);
    }
  }

  /** The minimum is the right one: a buffer takes every int64 exactly when it has 20 bytes. */
  lemma MinimumIsExact(size: nat)
    ensures (forall now :: IsInt64(now) ==> |Itoa(now)| <= size) <==> size >= 20
  {
    forall now | IsInt64(now)
      ensures |Itoa(now)| <= 20
    {
      Int64Text(now);
    }
    Int64Text(MIN_INT64);
    assert IsInt64(MIN_INT64);
  }

  /** A text shorter than the last one is misread: after 10 comes 9, and 90 arrives. */
  lemma ShorterTextIsMisread()
    ensures Received(After(20, [10, 9])) == Some(90)
  {
    assert [10, 9][..1] == [10] && [10][..0] == [];
    assert [10] + [9] == [10, 9];
    assert Itoa(9) == "9" && Digits(1) == "1";
    assert Itoa(10) == "10";
    ReceivedIs(20, [10], 9);
    assert After(20, [10])[..2] == "10";
    assert "9" + "10"[1..] == "90";
    assert Itoa(90) == "90" by { assert Digits(9) == "9"; }
    ParseItoa(90);
  }
}
