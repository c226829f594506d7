/** Character classes and string helpers the pipeline relies on, with the meaning
    JavaScript gives them. Strings are sequences of characters. */
module Text {

  /** `\s` in a JavaScript pattern, and what `String.prototype.trim` removes: the
      WhiteSpace and LineTerminator characters of ECMAScript. */
  predicate IsSpace(c: char) {
    || c == '\t' || c == '\n' || c == '\U{000B}' || c == '\U{000C}' || c == '\r' || c == ' '
    || c == '\U{00A0}' || c == '\U{1680}' || ('\U{2000}' <= c <= '\U{200A}')
    || c == '\U{2028}' || c == '\U{2029}' || c == '\U{202F}' || c == '\U{205F}'
    || c == '\U{3000}' || c == '\U{FEFF}'
  }

  /** The characters `.` does not match in a pattern without the `s` flag. */
  predicate IsLineTerminator(c: char) {
    c == '\n' || c == '\r' || c == '\U{2028}' || c == '\U{2029}'
  }

  predicate IsDigit(c: char) {
    '0' <= c <= '9'
  }

  /** ASCII lower case. Under the `i` flag a non-Unicode JavaScript pattern equates an
      ASCII letter only with its other ASCII case, which is what comparing `Lower`s does
      for the all-ASCII labels used here. */
  function Lower(c: char): char {
    if 'A' <= c <= 'Z' then (c as int - 'A' as int + 'a' as int) as char else c
  }

  /** `pat` occurs at position `q` of `text`, letters compared without regard to case. */
  predicate MatchesCI(text: string, q: nat, pat: string) {
    q + |pat| <= |text| && forall k :: 0 <= k < |pat| ==> Lower(text[q + k]) == Lower(pat[k])
  }

  /** `pat` occurs at position `q` of `text`, character for character. */
  predicate MatchesAt(text: string, q: nat, pat: string) {
    q + |pat| <= |text| && text[q..q + |pat|] == pat
  }

  /** `s` without its leading white space. */
  function TrimStart(s: string): string
    decreases |s|
  {
    if |s| > 0 && IsSpace(s[0]) then TrimStart(s[1..]) else s
  }

  /** `s` without its trailing white space. */
  function TrimEnd(s: string): string
    decreases |s|
  {
    if |s| > 0 && IsSpace(s[|s| - 1]) then TrimEnd(s[..|s| - 1]) else s
  }

  /** `String.prototype.trim`: `s` with its leading and trailing white space removed. */
  function Trim(s: string): string {
    TrimEnd(TrimStart(s))
  }

  /** Only white space is dropped from the front, and all of it. */
  lemma {:induction false} TrimStartSpec(s: string)
    ensures var r := TrimStart(s);
            && |r| <= |s| && r == s[|s| - |r|..]
            && (forall k :: 0 <= k < |s| - |r| ==> IsSpace(s[k]))
            && (|r| > 0 ==> !IsSpace(r[0]))
    decreases |s|
  {
    if |s| > 0 && IsSpace(s[0]) {
      TrimStartSpec(s[1..]);
    }
  }

  /** Only white space is dropped from the back, and all of it. */
  lemma {:induction false} TrimEndSpec(s: string)
    ensures var r := TrimEnd(s);
            && |r| <= |s| && r == s[..|r|]
            && (forall k :: |r| <= k < |s| ==> IsSpace(s[k]))
            && (|r| > 0 ==> !IsSpace(r[|r| - 1]))
    decreases |s|
  {
    if |s| > 0 && IsSpace(s[|s| - 1]) {
      TrimEndSpec(s[..|s| - 1]);
      var r := TrimEnd(s[..|s| - 1]);
      assert s[..|s| - 1][..|r|] == s[..|r|];
    }
  }

  /** The trimmed string is a slice of `s` with only white space around it, and it neither
      starts nor ends with white space. */
  lemma TrimSpec(s: string)
    ensures var r := Trim(s);
            && (|r| > 0 ==> !IsSpace(r[0]) && !IsSpace(r[|r| - 1]))
            && exists i :: TrimmedFrom(s, r, i)
  {
    var t := TrimStart(s);
    TrimStartSpec(s);
    TrimEndSpec(t);
    var r := Trim(s);
    var i := |s| - |t|;
    assert r == t[..|r|];
    assert TrimmedFrom(s, r, i);
  }

  /** `r` is the slice of `s` from `i`, with only white space before and after it. */
  ghost predicate TrimmedFrom(s: string, r: string, i: nat) {
    && i + |r| <= |s| && r == s[i..i + |r|]
    && (forall k :: 0 <= k < i ==> IsSpace(s[k]))
    && (forall k :: i + |r| <= k < |s| ==> IsSpace(s[k]))
  }

  /** `s.split(sep)` for a one-character separator: the pieces between separators,
      in order, empty pieces kept; the empty string gives one empty piece. */
  function Split(s: string, sep: char): (r: seq<string>)
    ensures |r| >= 1
    ensures forall i :: 0 <= i < |r| ==> sep !in r[i]
    decreases |s|
  {
    if |s| == 0 then [""]
    else
      var rest := Split(s[1..], sep);
      if s[0] == sep then [""] + rest
      else [[s[0]] + rest[0]] + rest[1..]
  }

  /** `parts.join(sep)`. */
  function Join(parts: seq<string>, sep: string): string
    decreases |parts|
  {
    if |parts| == 0 then ""
    else if |parts| == 1 then parts[0]
    else parts[0] + sep + Join(parts[1..], sep)
  }

  /** Joining the pieces again gives back the split string. */
  lemma {:induction false} JoinSplit(s: string, sep: char)
    ensures Join(Split(s, sep), [sep]) == s
    decreases |s|
  {
    if |s| > 0 {
      var rest := Split(s[1..], sep);
      JoinSplit(s[1..], sep);
      if s[0] == sep {
        assert Split(s, sep) == [""] + rest;
        assert ([""] + rest)[1..] == rest;
      } else {
        var r := [[s[0]] + rest[0]] + rest[1..];
        assert Split(s, sep) == r;
        if |rest| == 1 {
          assert r[0] == [s[0]] + s[1..];
        } else {
          assert r[1..] == rest[1..];
          assert Join(rest, [sep]) == rest[0] + [sep] + Join(rest[1..], [sep]);
          assert Join(r, [sep]) == [s[0]] + rest[0] + [sep] + Join(rest[1..], [sep]);
        }
      }
    }
  }

  /** A string without the separator is one piece. */
  lemma {:induction false} SplitWithoutSeparator(s: string, sep: char)
    requires sep !in s
    ensures Split(s, sep) == [s]
    decreases |s|
  {
    if |s| > 0 {
      SplitWithoutSeparator(s[1..], sep);
      assert [s[0]] + s[1..] == s;
    }
  }

  /** Joining a first part onto the rest puts one separator between them. */
  lemma JoinCons(x: string, rest: seq<string>, sep: string)
    requires |rest| >= 1
    ensures Join([x] + rest, sep) == x + sep + Join(rest, sep)
  {
    assert ([x] + rest)[1..] == rest;
  }

  /** Joining two non-empty lists of parts is joining each and separating the results. */
  lemma {:induction false} JoinAppend(a: seq<string>, b: seq<string>, sep: string)
    requires |a| >= 1 && |b| >= 1
    ensures Join(a + b, sep) == Join(a, sep) + sep + Join(b, sep)
    decreases |a|
  {
    if |a| == 1 {
      JoinCons(a[0], b, sep);
      assert a + b == [a[0]] + b;
    } else {
      var x, t := a[0], a[1..];
      var jt, jb := Join(t, sep), Join(b, sep);
      assert Join(t + b, sep) == jt + sep + jb by {
        JoinAppend(t, b, sep);
      }
      assert Join(a + b, sep) == x + sep + Join(t + b, sep) by {
        assert a + b == [x] + (t + b);
        JoinCons(x, t + b, sep);
      }
      assert Join(a, sep) == x + sep + jt by {
        assert a == [x] + t;
        JoinCons(x, t, sep);
      }
      assert x + sep + (jt + sep + jb) == x + sep + jt + sep + jb;
    }
  }

  /** A first piece without the separator, then the separator, splits off as one piece. */
  lemma {:induction false} SplitCons(l: string, rest: string, sep: char)
    requires sep !in l
    ensures Split(l + [sep] + rest, sep) == [l] + Split(rest, sep)
    decreases |l|
  {
    var s := l + [sep] + rest;
    if |l| == 0 {
      assert s[1..] == rest;
    } else {
      assert s[1..] == l[1..] + [sep] + rest;
      SplitCons(l[1..], rest, sep);
      assert [l[0]] + l[1..] == l;
    }
  }

  /** Splitting lines joined with the separator gives the lines back, as long as none of
      them holds the separator; the last part splits on its own. */
  lemma {:induction false} SplitJoin(lines: seq<string>, last: string, sep: char)
    requires forall i :: 0 <= i < |lines| ==> sep !in lines[i]
    ensures Split(Join(lines + [last], [sep]), sep) == lines + Split(last, sep)
    decreases |lines|
  {
    if |lines| == 0 {
      assert lines + [last] == [last];
    } else {
      var tail := lines[1..] + [last];
      var joined := Join(tail, [sep]);
      var pieces := Split(last, sep);
      assert Join(lines + [last], [sep]) == lines[0] + [sep] + joined by {
        assert lines + [last] == [lines[0]] + tail;
        JoinCons(lines[0], tail, [sep]);
      }
      assert Split(joined, sep) == lines[1..] + pieces by {
        SplitJoin(lines[1..], last, sep);
      }
      assert Split(lines[0] + [sep] + joined, sep) == [lines[0]] + Split(joined, sep) by {
        SplitCons(lines[0], joined, sep);
      }
      assert [lines[0]] + (lines[1..] + pieces) == lines + pieces;
    }
  }

  function Digit(n: nat): (c: char)
    requires n < 10
    ensures IsDigit(c)
  {
    ('0' as int + n) as char
  }

  /** Decimal notation of a natural number, most significant digit first, with no leading
      zero. */
  function NatToString(n: nat): (r: string)
    ensures |r| >= 1 && forall k :: 0 <= k < |r| ==> IsDigit(r[k])
    ensures |r| == 1 || r[0] != '0'
    decreases n
  {
    if n < 10 then [Digit(n)] else NatToString(n / 10) + [Digit(n % 10)]
  }

  /** `Number.prototype.toString` on an integer (of magnitude below 10^21). */
  function IntToString(i: int): string {
    if i < 0 then "-" + NatToString(-i) else NatToString(i)
  }

  /** The number a string of decimal digits denotes. */
  function DigitsValue(s: string): nat
    requires forall k :: 0 <= k < |s| ==> IsDigit(s[k])
    decreases |s|
  {
    if |s| == 0 then 0
    else
      assert IsDigit(s[|s| - 1]);
      DigitsValue(s[..|s| - 1]) * 10 + (s[|s| - 1] as int - '0' as int)
  }

  /** Reading the decimal notation back gives the number. */
  lemma {:induction false} NatToStringValue(n: nat)
    ensures DigitsValue(NatToString(n)) == n
    decreases n
  {
    if n >= 10 {
      NatToStringValue(n / 10);
      var s := NatToString(n);
      assert s[..|s| - 1] == NatToString(n / 10);
    }
  }

  /** How many digits the notation has, for the sizes a calendar date uses. */
  lemma NatToStringLength(n: nat)
    ensures n < 10 ==> |NatToString(n)| == 1
    ensures 10 <= n < 100 ==> |NatToString(n)| == 2
    ensures 1000 <= n < 10000 ==> |NatToString(n)| == 4
  {
    if 10 <= n < 100 {
      assert n / 10 < 10;
    } else if 1000 <= n < 10000 {
      var m := n / 10;
      assert 100 <= m < 1000;
      var l := m / 10;
      assert 10 <= l < 100;
      assert l / 10 < 10;
      assert |NatToString(l)| == 2;
      assert |NatToString(m)| == 3;
    }
  }
}
