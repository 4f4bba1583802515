/** Text helpers the views rely on: Python's int() and str() on integers,
    str.split/str.join on a single character, str.strip of one character,
    str.replace of one character by nothing, and ASCII lower-casing. */
module Text {
  import opened Wrappers

  predicate IsDigit(c: char) {
    '0' <= c <= '9'
  }

  predicate AllDigits(s: string) {
    forall i :: 0 <= i < |s| ==> IsDigit(s[i])
  }

  function DigitValue(c: char): (d: nat)
    requires IsDigit(c)
    ensures d < 10
  {
    (c as int) - ('0' as int)
  }

  function DigitChar(d: nat): (c: char)
    requires d < 10
    ensures IsDigit(c) && DigitValue(c) == d
  {
    (('0' as int) + d) as char
  }

  /** Value of a run of decimal digits, read most significant first. */
  function DigitsValue(s: string): nat
    requires AllDigits(s)
    decreases |s|
  {
    if s == [] then 0 else DigitsValue(s[..|s| - 1]) * 10 + DigitValue(s[|s| - 1])
  }

  /** Python's int(s) for the texts this model admits: an optional sign
      followed by one or more ASCII digits. Anything else is the ValueError
      case, modelled as None. */
  function ParseInt(s: string): (r: Option<int>)
    ensures s == "" ==> r == None
    ensures r.Some? ==> exists i :: 0 <= i < |s| && IsDigit(s[i])
  {
    if |s| > 1 && (s[0] == '-' || s[0] == '+') && AllDigits(s[1..]) then
      assert IsDigit(s[1..][0]);
      Some(if s[0] == '-' then -(DigitsValue(s[1..]) as int) else DigitsValue(s[1..]))
    else if |s| > 0 && AllDigits(s) then
      assert IsDigit(s[0]);
      Some(DigitsValue(s))
    else
      None
  }

  /** Python's str(n) for a natural number. */
  function NatToString(n: nat): (s: string)
    ensures |s| >= 1 && AllDigits(s)
    decreases n
  {
    if n < 10 then [DigitChar(n)] else NatToString(n / 10) + [DigitChar(n % 10)]
  }

  /** Python's str(i) for an integer. */
  function IntToString(i: int): (s: string)
    ensures |s| >= 1 && (s[0] == '-' || IsDigit(s[0]))
  {
    if i < 0 then "-" + NatToString(-i) else NatToString(i)
  }

  lemma {:induction false} NatToStringValue(n: nat)
    ensures DigitsValue(NatToString(n)) == n
    decreases n
  {
    if n >= 10 {
      var s := NatToString(n);
      NatToStringValue(n / 10);
      assert s[..|s| - 1] == NatToString(n / 10);
    }
  }

  /** str and int are inverse on integers: parsing the decimal rendering of
      an integer gives the integer back. */
  lemma ParseIntOfIntToString(i: int)
    ensures ParseInt(IntToString(i)) == Some(i)
  {
    var s := IntToString(i);
    if i < 0 {
      assert s[0] == '-' && s[1..] == NatToString(-i);
      NatToStringValue(-i);
    } else {
      assert IsDigit(s[0]) && AllDigits(s);
      NatToStringValue(i);
    }
  }

  /** Distinct integers have distinct renderings. */
  lemma IntToStringInjective(i: int, j: int)
    ensures IntToString(i) == IntToString(j) <==> i == j
  {
    if IntToString(i) == IntToString(j) {
      ParseIntOfIntToString(i);
      ParseIntOfIntToString(j);
    }
  }

  /** Python's s.split(sep) for a one-character separator: always at least
      one field. */
  function Split(s: string, sep: char): (r: seq<string>)
    ensures |r| >= 1
    decreases |s|
  {
    if s == [] then [""]
    else if s[0] == sep then [""] + Split(s[1..], sep)
    else
      var rest := Split(s[1..], sep);
      [[s[0]] + rest[0]] + rest[1..]
  }

  /** Python's sep.join(parts) for a one-character separator. */
  function Join(parts: seq<string>, sep: string): (s: string)
    decreases |parts|
  {
    if |parts| == 0 then ""
    else if |parts| == 1 then parts[0]
    else parts[0] + sep + Join(parts[1..], sep)
  }

  /** Number of occurrences of c in s. */
  function Count(s: string, c: char): nat
    decreases |s|
  {
    if s == [] then 0 else (if s[0] == c then 1 else 0) + Count(s[1..], c)
  }

  predicate Free(s: string, c: char) {
    forall i :: 0 <= i < |s| ==> s[i] != c
  }

  /** Joining the fields of a split gives back the text; no field holds the
      separator; there is one field more than there are separators. */
  lemma {:induction false} SplitJoin(s: string, sep: char)
    ensures Join(Split(s, sep), [sep]) == s
    ensures forall k :: 0 <= k < |Split(s, sep)| ==> Free(Split(s, sep)[k], sep)
    ensures |Split(s, sep)| == Count(s, sep) + 1
    decreases |s|
  {
    if s != [] {
      SplitJoin(s[1..], sep);
      var rest := Split(s[1..], sep);
      if s[0] == sep {
        assert Split(s, sep) == [""] + rest;
        assert Split(s, sep)[1..] == rest;
      } else {
        var r := Split(s, sep);
        assert r[1..] == rest[1..];
        if |rest| == 1 {
          assert Join(r, [sep]) == [s[0]] + rest[0];
        } else {
          assert Join(rest, [sep]) == rest[0] + [sep] + Join(rest[1..], [sep]);
          assert Join(r, [sep]) == ([s[0]] + rest[0]) + [sep] + Join(rest[1..], [sep]);
        }
        assert s == [s[0]] + s[1..];
        forall k | 0 <= k < |r| ensures Free(r[k], sep) {
          if k == 0 {
            assert Free(rest[0], sep);
          } else {
            assert r[k] == rest[k];
          }
        }
      }
    }
  }

  /** Splitting a join of separator-free fields gives the fields back. */
  lemma {:induction false} JoinSplit(parts: seq<string>, sep: char)
    requires |parts| >= 1
    requires forall k :: 0 <= k < |parts| ==> Free(parts[k], sep)
    ensures Split(Join(parts, [sep]), sep) == parts
    decreases |parts|
  {
    if |parts| == 1 {
      FreeSplit(parts[0], sep);
    } else {
      JoinSplit(parts[1..], sep);
      SplitAppend(parts[0], Join(parts[1..], [sep]), sep);
      assert [parts[0]] + parts[1..] == parts;
    }
  }

  lemma {:induction false} FreeSplit(s: string, sep: char)
    requires Free(s, sep)
    ensures Split(s, sep) == [s]
    decreases |s|
  {
    if s != [] {
      FreeSplit(s[1..], sep);
      assert [s[0]] + s[1..] == s;
    }
  }

  /** Splitting a separator-free head followed by the separator and a tail. */
  lemma {:induction false} SplitAppend(head: string, tail: string, sep: char)
    requires Free(head, sep)
    ensures Split(head + [sep] + tail, sep) == [head] + Split(tail, sep)
    decreases |head|
  {
    if head == [] {
      assert head + [sep] + tail == [sep] + tail;
      assert ([sep] + tail)[1..] == tail;
    } else {
      SplitAppend(head[1..], tail, sep);
      var s := head + [sep] + tail;
      assert s[0] == head[0];
      assert s[1..] == head[1..] + [sep] + tail;
      assert [head[0]] + head[1..] == head;
    }
  }

  /** Python's s.strip(c) for one character: drops every leading and
      trailing c. */
  function Strip(s: string, c: char): (r: string)
    ensures |r| <= |s|
    ensures r == [] || (r[0] != c && r[|r| - 1] != c)
    ensures Free(s, c) ==> r == s
    decreases |s|
  {
    if s == [] then []
    else if s[0] == c then Strip(s[1..], c)
    else if s[|s| - 1] == c then Strip(s[..|s| - 1], c)
    else s
  }

  /** What strip removes is a run of c at each end, and nothing else. */
  lemma {:induction false} StripSlice(s: string, c: char)
    ensures exists i, j :: 0 <= i <= j <= |s| && Strip(s, c) == s[i..j]
              && (forall k :: 0 <= k < i ==> s[k] == c)
              && (forall k :: j <= k < |s| ==> s[k] == c)
    decreases |s|, 1
  {
    if s == [] {
      assert Strip(s, c) == s[0..0];
    } else if s[0] == c {
      StripFront(s, c);
    } else if s[|s| - 1] == c {
      StripBack(s, c);
    } else {
      assert Strip(s, c) == s[0..|s|];
    }
  }

  lemma {:induction false} StripFront(s: string, c: char)
    requires s != [] && s[0] == c
    ensures exists i, j :: 0 <= i <= j <= |s| && Strip(s, c) == s[i..j]
              && (forall k :: 0 <= k < i ==> s[k] == c)
              && (forall k :: j <= k < |s| ==> s[k] == c)
    decreases |s|, 0
  {
    var t := s[1..];
    StripSlice(t, c);
    var i, j :| 0 <= i <= j <= |t| && Strip(t, c) == t[i..j]
                && (forall k :: 0 <= k < i ==> t[k] == c)
                && (forall k :: j <= k < |t| ==> t[k] == c);
    assert Strip(s, c) == s[i + 1..j + 1];
    assert forall k :: 0 <= k < i + 1 ==> s[k] == c;
  }

  lemma {:induction false} StripBack(s: string, c: char)
    requires s != [] && s[0] != c && s[|s| - 1] == c
    ensures exists i, j :: 0 <= i <= j <= |s| && Strip(s, c) == s[i..j]
              && (forall k :: 0 <= k < i ==> s[k] == c)
              && (forall k :: j <= k < |s| ==> s[k] == c)
    decreases |s|, 0
  {
    var t := s[..|s| - 1];
    StripSlice(t, c);
    var i, j :| 0 <= i <= j <= |t| && Strip(t, c) == t[i..j]
                && (forall k :: 0 <= k < i ==> t[k] == c)
                && (forall k :: j <= k < |t| ==> t[k] == c);
    assert Strip(s, c) == s[i..j];
    assert forall k :: j <= k < |s| ==> s[k] == c;
  }

  /** The fields of a text free of d are free of d. */
  lemma {:induction false} SplitKeepsFree(s: string, sep: char, d: char)
    requires Free(s, d)
    ensures forall k :: 0 <= k < |Split(s, sep)| ==> Free(Split(s, sep)[k], d)
    decreases |s|
  {
    if s != [] {
      SplitKeepsFree(s[1..], sep, d);
    }
  }

  /** Joining fields free of d, with a separator other than d, gives a text
      free of d. */
  lemma {:induction false} JoinKeepsFree(parts: seq<string>, sep: char, d: char)
    requires sep != d
    requires forall k :: 0 <= k < |parts| ==> Free(parts[k], d)
    ensures Free(Join(parts, [sep]), d)
    decreases |parts|
  {
    if |parts| > 1 {
      JoinKeepsFree(parts[1..], sep, d);
    }
  }

  /** Removing a character the text does not hold changes nothing. */
  lemma {:induction false} RemoveAbsent(s: string, c: char)
    requires Free(s, c)
    ensures Remove(s, c) == s
    decreases |s|
  {
    if s != [] {
      RemoveAbsent(s[1..], c);
      assert [s[0]] + s[1..] == s;
    }
  }

  /** Python's s.replace(c, "") for one character. */
  function Remove(s: string, c: char): (r: string)
    ensures Free(r, c)
    ensures |r| + Count(s, c) == |s|
    decreases |s|
  {
    if s == [] then []
    else (if s[0] == c then [] else [s[0]]) + Remove(s[1..], c)
  }

  /** Python's s.lower() on ASCII letters. */
  function Lower(s: string): (r: string)
    ensures |r| == |s|
    ensures forall i :: 0 <= i < |s| && 'a' <= s[i] <= 'z' ==> r[i] == s[i]
  {
    seq(|s|, i requires 0 <= i < |s| =>
      if 'A' <= s[i] <= 'Z' then ((s[i] as int) - ('A' as int) + ('a' as int)) as char else s[i])
  }
}
