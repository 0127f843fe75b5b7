/**
 * The not-found condition raised by the service's update and delete, with the message it carries:
 * "Book with ID " followed by the id in decimal (as Long.toString writes it) and " not found.".
 */
module Exceptions {
  import opened Wrappers

  datatype BookNotFound = BookNotFound(id: int)

  predicate IsDigit(c: char) {
    '0' <= c <= '9'
  }

  predicate AllDigits(s: string) {
    forall i | 0 <= i < |s| :: IsDigit(s[i])
  }

  function DigitChar(d: nat): (c: char)
    requires d < 10
    ensures IsDigit(c)
  {
    ('0' as int + d) as char
  }

  /** The decimal digits of n, most significant first, with no leading zero. */
  function Decimal(n: nat): (r: string)
    ensures |r| >= 1 && AllDigits(r)
    ensures r[0] == '0' ==> n == 0
    decreases n
  {
    if n < 10 then [DigitChar(n)] else Decimal(n / 10) + [DigitChar(n % 10)]
  }

  /** The value of a string of decimal digits. */
  function DigitsValue(s: string): nat
    requires AllDigits(s)
  {
    if s == [] then 0 else DigitsValue(s[..|s| - 1]) * 10 + (s[|s| - 1] as int - '0' as int)
  }

  lemma {:induction false} DecimalRoundTrip(n: nat)
    ensures DigitsValue(Decimal(n)) == n
    decreases n
  {
    if n >= 10 {
      var r := Decimal(n);
      assert r[..|r| - 1] == Decimal(n / 10);
      DecimalRoundTrip(n / 10);
    }
  }

  /** Long.toString: the decimal digits, behind a minus sign when the value is negative. */
  function LongToString(x: int): string {
    if x < 0 then "-" + Decimal(-x) else Decimal(x)
  }

  /** Reads back a string written by LongToString. */
  function ParseLong(s: string): Option<int> {
    if |s| >= 2 && s[0] == '-' && AllDigits(s[1..]) then Some(-(DigitsValue(s[1..]) as int))
    else if |s| >= 1 && AllDigits(s) then Some(DigitsValue(s))
    else None
  }

  lemma LongToStringRoundTrip(x: int)
    ensures ParseLong(LongToString(x)) == Some(x)
  {
    if x < 0 {
      var r := LongToString(x);
      assert r[1..] == Decimal(-x);
      DecimalRoundTrip(-x);
    } else {
      DecimalRoundTrip(x);
    }
  }

  const MessagePrefix := "Book with ID "
  const MessageSuffix := " not found."

  /** The exception's message. */
  function Message(e: BookNotFound): (m: string)
    ensures |m| > |MessagePrefix| + |MessageSuffix|
    ensures m[..|MessagePrefix|] == MessagePrefix
    ensures m[|m| - |MessageSuffix|..] == MessageSuffix
  {
    MessagePrefix + LongToString(e.id) + MessageSuffix
  }

  /** The id a not-found message names, read from between its fixed prefix and suffix. */
  function IdInMessage(m: string): Option<int> {
    if |m| >= |MessagePrefix| + |MessageSuffix|
       && m[..|MessagePrefix|] == MessagePrefix
       && m[|m| - |MessageSuffix|..] == MessageSuffix
    then ParseLong(m[|MessagePrefix|..|m| - |MessageSuffix|])
    else None
  }

  /** The message names the missing id: it can be read back, so different ids give different messages. */
  lemma MessageNamesId(id: int)
    ensures IdInMessage(Message(BookNotFound(id))) == Some(id)
  {
    var m := Message(BookNotFound(id));
    assert m[|MessagePrefix|..|m| - |MessageSuffix|] == LongToString(id);
    LongToStringRoundTrip(id);
  }

  lemma DistinctIdsDistinctMessages(id: int, other: int)
    requires id != other
    ensures Message(BookNotFound(id)) != Message(BookNotFound(other))
  {
    MessageNamesId(id);
    MessageNamesId(other);
  }

  /** The message the integration test expects for id 999. */
  lemma MessageFor999()
    ensures Message(BookNotFound(999)) == "Book with ID 999 not found."
  {
    assert Decimal(999) == "999" by {
      assert Decimal(9) == "9";
      assert Decimal(99) == "99";
    }
  }
}
