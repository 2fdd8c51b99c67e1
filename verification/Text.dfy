/** The string operations of the C++ code: `std::to_string`, `boost::split`, `boost::lexical_cast<int>`. */
module Text {
  import opened Words

  datatype Option<+T> = None | Some(value: T)

  predicate IsDigit(c: char) {
    '0' <= c <= '9'
  }

  predicate AllDigits(s: string) {
    forall i :: 0 <= i < |s| ==> IsDigit(s[i])
  }

  function DigitOf(c: char): (d: nat)
    requires IsDigit(c)
    ensures d < 10
  {
    c as int - '0' as int
  }

  /** `std::to_string` of a non-negative integer. */
  function ToString(n: nat): (s: string)
    ensures |s| >= 1 && AllDigits(s)
  {
    if n < 10 then [('0' as int + n) as char] else ToString(n / 10) + ToString(n % 10)
  }

  /** `std::to_string` of an `int`. */
  function IntToString(n: int): string {
    if n < 0 then "-" + ToString(-n) else ToString(n)
  }

  /** The number a digit string denotes; leading zeros are allowed. */
  function Value(s: string): nat
    requires AllDigits(s)
  {
    if s == "" then 0 else 10 * Value(s[..|s| - 1]) + DigitOf(s[|s| - 1])
  }

  lemma {:induction false} ValueToString(n: nat)
    ensures Value(ToString(n)) == n
  {
    if n >= 10 {
      ValueToString(n / 10);
      assert ToString(n)[..|ToString(n)| - 1] == ToString(n / 10);
    }
  }

  lemma DigitsFirst(n: nat)
    ensures ToString(n) != "" && ToString(n)[0] != '-'
  {
    assert IsDigit(ToString(n)[0]);
  }

  lemma IntToStringInjective(m: int, n: int)
    requires IntToString(m) == IntToString(n)
    ensures m == n
  {
    hide ToString, Value;
    if m < 0 && n < 0 {
      assert IntToString(m)[1..] == ToString(-m) && IntToString(n)[1..] == ToString(-n);
      ValueToString(-m);
      ValueToString(-n);
    } else if m >= 0 && n >= 0 {
      ValueToString(m);
      ValueToString(n);
    } else {
      DigitsFirst(if m < 0 then n else m);
    }
  }

  /** `boost::lexical_cast<int>`: an optional sign, then digits only, within the range of `int`; None stands for
      `bad_lexical_cast`. */
  function LexicalCastInt(s: string): Option<int> {
    var negative := s != "" && s[0] == '-';
    var digits := if s != "" && (s[0] == '-' || s[0] == '+') then s[1..] else s;
    if digits == "" || !AllDigits(digits) then None
    else
      var n := if negative then 0 - Value(digits) else Value(digits);
      if -INT_MAX - 1 <= n <= INT_MAX then Some(n) else None
  }

  /** Which strings are cast, and to what: digits with at most a sign in front, denoting a number an `int` can hold. */
  lemma LexicalCastIff(s: string, n: int)
    ensures LexicalCastInt(s) == Some(n) <==>
            && -0x8000_0000 <= n <= 0x7FFF_FFFF
            && exists digits :: Denotes(s, digits, n)
  {
    hide Value;
    if LexicalCastInt(s) == Some(n) {
      var digits := if s[0] == '-' || s[0] == '+' then s[1..] else s;
      assert s[0] == '-' ==> s == "-" + digits;
      assert s[0] == '+' ==> s == "+" + digits;
      assert Denotes(s, digits, n);
    }
    if digits :| Denotes(s, digits, n) {
      assert IsDigit(digits[0]);
      assert s != digits ==> s[1..] == digits;
    }
  }

  /** The string is a sign or none, and then these digits, and its value is `n`. */
  predicate Denotes(s: string, digits: string, n: int) {
    && digits != "" && AllDigits(digits)
    && (s == digits || s == "+" + digits || s == "-" + digits)
    && (if s == "-" + digits then n + Value(digits) == 0 else n == Value(digits))
  }

  lemma LexicalCastToString(n: nat)
    ensures LexicalCastInt(ToString(n)) == if n <= INT_MAX then Some(n) else None
  {
    ValueToString(n);
    assert IsDigit(ToString(n)[0]);
  }

  /** Put a character in front of the first field. */
  function Attach(c: char, fields: seq<string>): (r: seq<string>)
    requires |fields| >= 1
    ensures |r| == |fields|
  {
    [[c] + fields[0]] + fields[1..]
  }

  /** `boost::split` with one separator and no token compression: one field more than there are separators. */
  function Split(s: string, sep: char): (fields: seq<string>)
    ensures |fields| >= 1
  {
    if s == "" then [""]
    else if s[0] == sep then [""] + Split(s[1..], sep)
    else Attach(s[0], Split(s[1..], sep))
  }

  /** The inverse of Split. */
  function Join(fields: seq<string>, sep: char): string
    requires |fields| >= 1
  {
    if |fields| == 1 then fields[0] else fields[0] + [sep] + Join(fields[1..], sep)
  }

  lemma JoinAttach(c: char, fields: seq<string>, sep: char)
    requires |fields| >= 1
    ensures Join(Attach(c, fields), sep) == [c] + Join(fields, sep)
  {
    if |fields| > 1 {
      assert Attach(c, fields)[1..] == fields[1..];
    }
  }

  lemma {:induction false} JoinSplit(s: string, sep: char)
    ensures Join(Split(s, sep), sep) == s
  {
    if s != "" {
      var rest := Split(s[1..], sep);
      JoinSplit(s[1..], sep);
      if s[0] == sep {
        assert ([""] + rest)[1..] == rest;
      } else {
        JoinAttach(s[0], rest, sep);
      }
    }
  }

  lemma AttachConcat(c: char, left: seq<string>, right: seq<string>)
    requires |left| >= 1
    ensures Attach(c, left + right) == Attach(c, left) + right
  {
  }

  lemma {:induction false} SplitConcat(left: string, sep: char, right: string)
    ensures Split(left + [sep] + right, sep) == Split(left, sep) + Split(right, sep)
  {
    var s := left + [sep] + right;
    if left == "" {
      assert s[1..] == right;
    } else {
      assert s[0] == left[0] && s[1..] == left[1..] + [sep] + right;
      SplitConcat(left[1..], sep, right);
      AttachConcat(left[0], Split(left[1..], sep), Split(right, sep));
    }
  }

  lemma {:induction false} SplitLast(field: string, sep: char)
    requires sep !in field
    ensures Split(field, sep) == [field]
  {
    if field != "" {
      SplitLast(field[1..], sep);
      assert [field[0]] + field[1..] == field;
    }
  }

  lemma {:induction false} SplitJoin(fields: seq<string>, sep: char)
    requires |fields| >= 1
    requires forall i :: 0 <= i < |fields| ==> sep !in fields[i]
    ensures Split(Join(fields, sep), sep) == fields
  {
    if |fields| == 1 {
      SplitLast(fields[0], sep);
    } else {
      SplitJoin(fields[1..], sep);
      SplitLast(fields[0], sep);
      SplitConcat(fields[0], sep, Join(fields[1..], sep));
    }
  }

  /** Printing fields one after the other, each behind a separator, is joining them. */
  lemma {:induction false} JoinAppend(fields: seq<string>, sep: char, last: string)
    requires |fields| >= 1
    ensures Join(fields + [last], sep) == Join(fields, sep) + [sep] + last
  {
    if |fields| == 1 {
      assert (fields + [last])[1..] == [last];
    } else {
      JoinAppend(fields[1..], sep, last);
      assert (fields + [last])[1..] == fields[1..] + [last];
    }
  }

  /** Two strings split alike only if they are equal. */
  lemma SplitInjective(a: string, b: string, sep: char)
    requires Split(a, sep) == Split(b, sep)
    ensures a == b
  {
    JoinSplit(a, sep);
    JoinSplit(b, sep);
  }

  lemma DigitsLack(s: string, c: char)
    requires AllDigits(s) && !IsDigit(c)
    ensures c !in s
  {
  }
}
