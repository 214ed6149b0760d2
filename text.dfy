/**
 * The string operations the record store relies on: `sep.join(parts)`,
 * `s.split(sep)` and `str(n)` for integers, with the inverse parsers that
 * show the written fields lose nothing.
 */
module Text {
  import opened Outcomes

  /** `sep.join(parts)`: the parts in order, with `sep` between neighbours. */
  function Join(parts: seq<string>, sep: string): string
    decreases |parts|
  {
    if |parts| == 0 then ""
    else if |parts| == 1 then parts[0]
    else parts[0] + sep + Join(parts[1..], sep)
  }

  /** `s.split(sep)` for a non-empty separator: the pieces between the
      non-overlapping occurrences of `sep`, scanned left to right. */
  function Split(s: string, sep: string): (r: seq<string>)
    requires |sep| > 0
    ensures |r| >= 1
    decreases |s|
  {
    if |sep| <= |s| && s[..|sep|] == sep then [""] + Split(s[|sep|..], sep)
    else if |s| == 0 then [""]
    else
      var rest := Split(s[1..], sep);
      [[s[0]] + rest[0]] + rest[1..]
  }

  /** No part contains the character `c`. */
  predicate Avoids(parts: seq<string>, c: char)
  {
    forall i :: 0 <= i < |parts| ==> c !in parts[i]
  }

  /** Splitting text that starts with a piece free of the separator's first
      character puts that whole piece at the front of the first field. */
  lemma {:induction false} SplitAfterPlainPrefix(x: string, t: string, sep: string)
    requires |sep| > 0 && sep[0] !in x
    ensures Split(x + t, sep) == [x + Split(t, sep)[0]] + Split(t, sep)[1..]
    decreases |x|
  {
    if |x| == 0 {
      assert x + t == t;
      var r := Split(t, sep);
      assert x + r[0] == r[0];
      assert [r[0]] + r[1..] == r;
    } else {
      assert (x + t)[0] == x[0];
      assert (x + t)[1..] == x[1..] + t;
      SplitAfterPlainPrefix(x[1..], t, sep);
      assert [x[0]] + (x[1..] + Split(t, sep)[0]) == x + Split(t, sep)[0];
    }
  }

  /** `s.split(sep)` undoes `sep.join(parts)` whenever no part contains the
      separator's first character. */
  lemma {:induction false} SplitJoin(parts: seq<string>, sep: string)
    requires |parts| >= 1 && |sep| > 0 && Avoids(parts, sep[0])
    ensures Split(Join(parts, sep), sep) == parts
    decreases |parts|
  {
    if |parts| == 1 {
      SplitAfterPlainPrefix(parts[0], "", sep);
      assert parts[0] + "" == parts[0];
    } else {
      var rest := Join(parts[1..], sep);
      assert Join(parts, sep) == parts[0] + (sep + rest);
      SplitAfterPlainPrefix(parts[0], sep + rest, sep);
      assert (sep + rest)[..|sep|] == sep;
      assert (sep + rest)[|sep|..] == rest;
      assert Avoids(parts[1..], sep[0]) by {
        forall i | 0 <= i < |parts[1..]| ensures sep[0] !in parts[1..][i] {
          assert parts[1..][i] == parts[i + 1];
        }
      }
      SplitJoin(parts[1..], sep);
      var tail := Split(sep + rest, sep);
      assert tail == [""] + parts[1..];
      assert tail[0] == "" && tail[1..] == parts[1..];
      assert parts[0] + tail[0] == parts[0];
      assert parts == [parts[0]] + parts[1..];
    }
  }

  /** The decimal digit character of `d`. */
  function DigitChar(d: int): (c: char)
    requires 0 <= d < 10
    ensures '0' <= c <= '9' && c as int - '0' as int == d
  {
    (d + '0' as int) as char
  }

  predicate IsDigit(c: char)
  {
    '0' <= c <= '9'
  }

  /** `str(n)` for a non-negative integer: its decimal digits, without leading zeros. */
  function NatToStr(n: nat): (r: string)
    ensures |r| >= 1 && forall i :: 0 <= i < |r| ==> IsDigit(r[i])
    decreases n
  {
    if n < 10 then [DigitChar(n)] else NatToStr(n / 10) + [DigitChar(n % 10)]
  }

  /** `str(n)`: a minus sign before the digits of a negative integer. */
  function IntToStr(n: int): string
  {
    if n < 0 then "-" + NatToStr(-n) else NatToStr(n)
  }

  /** The value of a non-empty string of decimal digits. */
  function DigitsValue(s: string): (r: int)
    requires |s| >= 1 && forall i :: 0 <= i < |s| ==> IsDigit(s[i])
    ensures r >= 0
    decreases |s|
  {
    assert IsDigit(s[|s| - 1]);
    var last := s[|s| - 1] as int - '0' as int;
    if |s| == 1 then last else DigitsValue(s[..|s| - 1]) * 10 + last
  }

  /** The inverse of `str(n)` on integers: an optional minus sign, then digits. */
  function ParseInt(s: string): Option<int>
  {
    if |s| >= 1 && forall i :: 0 <= i < |s| ==> IsDigit(s[i]) then Some(DigitsValue(s))
    else if |s| >= 2 && s[0] == '-' && forall i :: 1 <= i < |s| ==> IsDigit(s[i]) then Some(-DigitsValue(s[1..]))
    else None
  }

  lemma {:induction false} DigitsOfNat(n: nat)
    ensures DigitsValue(NatToStr(n)) == n
    decreases n
  {
    if n >= 10 {
      var s := NatToStr(n);
      assert s[..|s| - 1] == NatToStr(n / 10);
      DigitsOfNat(n / 10);
    }
  }

  /** Parsing inverts `str(n)` for every integer. */
  lemma IntRoundTrip(n: int)
    ensures ParseInt(IntToStr(n)) == Some(n)
  {
    if n < 0 {
      var s := "-" + NatToStr(-n);
      assert s[1..] == NatToStr(-n);
      assert !IsDigit(s[0]);
      DigitsOfNat(-n);
    } else {
      DigitsOfNat(n);
    }
  }

  /** `map(str, xs)`. */
  function IntStrs(xs: seq<int>): seq<string>
  {
    seq(|xs|, i requires 0 <= i < |xs| => IntToStr(xs[i]))
  }

  /** No decimal integer contains a comma, so the pieces of a joined field
      are exactly the integers' texts. */
  lemma IntStrsAvoidComma(xs: seq<int>)
    ensures Avoids(IntStrs(xs), ',')
  {
    forall i | 0 <= i < |xs| ensures ',' !in IntStrs(xs)[i] {
      var n := xs[i];
      var digits := NatToStr(if n < 0 then -n else n);
      assert forall j :: 0 <= j < |digits| ==> digits[j] != ',';
      assert IntStrs(xs)[i] == if n < 0 then "-" + digits else digits;
    }
  }

  /** `','.join(map(str, xs))`: the text of one grades or test-scores field. */
  function JoinInts(xs: seq<int>): string
  {
    Join(IntStrs(xs), ",")
  }

  /** Parses each piece as an integer; fails if any piece is not one. */
  function ParseAll(pieces: seq<string>): (r: Option<seq<int>>)
    ensures r.Some? ==> |r.value| == |pieces|
    decreases |pieces|
  {
    if |pieces| == 0 then Some([])
    else match (ParseInt(pieces[0]), ParseAll(pieces[1..]))
      case (Some(x), Some(xs)) => Some([x] + xs)
      case _ => None
  }

  /** Reads a grades or test-scores field back: the empty field is the empty list. */
  function ParseInts(field: string): Option<seq<int>>
  {
    if field == "" then Some([]) else ParseAll(Split(field, ","))
  }

  lemma {:induction false} ParseAllStrs(xs: seq<int>)
    ensures ParseAll(IntStrs(xs)) == Some(xs)
    decreases |xs|
  {
    if |xs| > 0 {
      IntRoundTrip(xs[0]);
      assert IntStrs(xs)[1..] == IntStrs(xs[1..]);
      ParseAllStrs(xs[1..]);
      assert [xs[0]] + xs[1..] == xs;
    }
  }

  /** A joined list of integers is empty exactly when the list is. */
  lemma JoinIntsEmpty(xs: seq<int>)
    ensures JoinInts(xs) == "" <==> xs == []
  {
    if |xs| > 0 {
      var parts := IntStrs(xs);
      if |parts| > 1 {
        assert Join(parts, ",") == parts[0] + "," + Join(parts[1..], ",");
      }
      assert |NatToStr(if xs[0] < 0 then -xs[0] else xs[0])| >= 1;
    }
  }

  /** A written grades or test-scores field determines the list it was written from. */
  lemma FieldRoundTrip(xs: seq<int>)
    ensures ParseInts(JoinInts(xs)) == Some(xs)
  {
    JoinIntsEmpty(xs);
    if |xs| > 0 {
      IntStrsAvoidComma(xs);
      SplitJoin(IntStrs(xs), ",");
      ParseAllStrs(xs);
    }
  }
}
