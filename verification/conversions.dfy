/**
 * The two Python text conversions the topology builder relies on:
 * `str.split(sep)` and `int(text)` on decimal text, restricted to ASCII.
 */
module Conversions {
  import opened Options

  // ---------------------------------------------------------------------
  // str.split
  // ---------------------------------------------------------------------

  /** Python's `s.split(sep)` for a one-character separator. */
  function Split(s: string, sep: char): (parts: seq<string>)
    ensures |parts| >= 1
    decreases |s|
  {
    if |s| == 0 then [""]
    else
      var rest := Split(s[1..], sep);
      if s[0] == sep then [""] + rest else [[s[0]] + rest[0]] + rest[1..]
  }

  /** The pieces joined back with `sep` between them (Python's `sep.join`). */
  function Join(parts: seq<string>, sep: char): string
    requires |parts| >= 1
    decreases |parts|
  {
    if |parts| == 1 then parts[0] else parts[0] + [sep] + Join(parts[1..], sep)
  }

  /** Splitting and joining back gives the original text, and no piece holds the separator. */
  lemma {:induction false} SplitJoin(s: string, sep: char)
    ensures Join(Split(s, sep), sep) == s
    ensures forall i :: 0 <= i < |Split(s, sep)| ==> sep !in Split(s, sep)[i]
    decreases |s|
  {
    if |s| > 0 {
      SplitJoin(s[1..], sep);
      var rest := Split(s[1..], sep);
      if s[0] == sep {
        assert Split(s, sep)[1..] == rest;
      } else {
        var parts := Split(s, sep);
        if |rest| == 1 {
          assert parts == [[s[0]] + rest[0]];
        } else {
          assert parts[1..] == rest[1..];
          assert Join(rest, sep) == rest[0] + [sep] + Join(rest[1..], sep);
        }
        forall i | 0 <= i < |parts| ensures sep !in parts[i] {
          if i > 0 {
            assert parts[i] == rest[i];
          }
        }
      }
    }
  }

  /** `sep` occurs in `s` at index `k` and nowhere else. */
  ghost predicate OnlyAt(s: string, sep: char, k: int)
  {
    0 <= k < |s| && s[k] == sep && forall j :: 0 <= j < |s| && j != k ==> s[j] != sep
  }

  /** Text without `sep` is one piece. */
  lemma {:induction false} SplitNone(s: string, sep: char)
    requires sep !in s
    ensures Split(s, sep) == [s]
    decreases |s|
  {
    if |s| > 0 {
      SplitNone(s[1..], sep);
      assert [s[0]] + s[1..] == s;
    }
  }

  /** Text with `sep` at exactly one place splits into the text before it and the text after it. */
  lemma {:induction false} SplitOnce(s: string, sep: char, k: int)
    requires OnlyAt(s, sep, k)
    ensures Split(s, sep) == [s[..k], s[k + 1..]]
    decreases |s|
  {
    if k == 0 {
      assert sep !in s[1..] by {
        forall j | 0 <= j < |s[1..]| ensures s[1..][j] != sep {
          assert s[1..][j] == s[j + 1];
        }
      }
      SplitNone(s[1..], sep);
    } else {
      assert OnlyAt(s[1..], sep, k - 1) by {
        forall j | 0 <= j < |s[1..]| && j != k - 1 ensures s[1..][j] != sep {
          assert s[1..][j] == s[j + 1];
        }
      }
      SplitOnce(s[1..], sep, k - 1);
      assert [s[0]] + s[1..][..k - 1] == s[..k];
      assert s[1..][k..] == s[k + 1..];
    }
  }

  /** Text splits into exactly two pieces only when `sep` occurs exactly once. */
  lemma {:induction false} SplitTwoPieces(s: string, sep: char)
    requires |Split(s, sep)| == 2
    ensures exists k :: OnlyAt(s, sep, k)
    decreases |s|
  {
    var rest := Split(s[1..], sep);
    if s[0] == sep {
      SplitJoin(s[1..], sep);
      assert |rest| == 1 && Join(rest, sep) == s[1..];
      assert OnlyAt(s, sep, 0) by {
        forall j | 0 < j < |s| ensures s[j] != sep {
          assert s[1..][j - 1] == s[j];
        }
      }
    } else {
      SplitTwoPieces(s[1..], sep);
      var k :| OnlyAt(s[1..], sep, k);
      assert s[1..][k] == s[k + 1];
      assert OnlyAt(s, sep, k + 1) by {
        forall j | 0 <= j < |s| && j != k + 1 ensures s[j] != sep {
          if j > 0 {
            assert s[1..][j - 1] == s[j];
          }
        }
      }
    }
  }

  // ---------------------------------------------------------------------
  // int(text)
  // ---------------------------------------------------------------------

  /**
   * The ASCII characters Python's `int` skips around a number: space and
   * tab to carriage return. (`str.strip()` also skips the separators 28 to
   * 31; `int` does not.)
   */
  predicate IsSpace(c: char)
  {
    c == ' ' || (9 <= c as int <= 13)
  }

  predicate IsDigit(c: char)
  {
    '0' <= c <= '9'
  }

  /** `s` without its leading white space. */
  function TrimStart(s: string): (r: string)
    ensures |r| <= |s| && r == s[|s| - |r|..]
    ensures |r| > 0 ==> !IsSpace(r[0])
    ensures forall i :: 0 <= i < |s| - |r| ==> IsSpace(s[i])
    decreases |s|
  {
    if |s| > 0 && IsSpace(s[0]) then TrimStart(s[1..]) else s
  }

  /** `s` without its trailing white space. */
  function TrimEnd(s: string): (r: string)
    ensures |r| <= |s| && r == s[..|r|]
    ensures |r| > 0 ==> !IsSpace(r[|r| - 1])
    ensures forall i :: |r| <= i < |s| ==> IsSpace(s[i])
    decreases |s|
  {
    if |s| > 0 && IsSpace(s[|s| - 1]) then TrimEnd(s[..|s| - 1]) else s
  }

  /**
   * Decimal digits with single underscores allowed between two digits, as
   * Python's `int` accepts them ("1_000" but not "_1", "1_" or "1__0").
   */
  predicate DigitText(s: string)
  {
    && |s| > 0
    && (forall i :: 0 <= i < |s| ==> IsDigit(s[i]) || s[i] == '_')
    && (forall i :: 0 <= i < |s| && s[i] == '_' ==> 0 < i < |s| - 1 && IsDigit(s[i - 1]) && IsDigit(s[i + 1]))
  }

  /** The value of decimal digits, underscores skipped. */
  function DigitsValue(s: string): nat
    requires forall i :: 0 <= i < |s| ==> IsDigit(s[i]) || s[i] == '_'
    decreases |s|
  {
    if |s| == 0 then 0
    else if s[|s| - 1] == '_' then DigitsValue(s[..|s| - 1])
    else
      assert IsDigit(s[|s| - 1]);
      DigitsValue(s[..|s| - 1]) * 10 + (s[|s| - 1] as int - '0' as int)
  }

  /**
   * Python's `int(text)`: optional surrounding white space, an optional
   * sign, then decimal digits; `None` where Python raises `ValueError`.
   */
  function ParseInt(text: string): (r: Option<int>)
    ensures r.Some? ==> var s := TrimEnd(TrimStart(text));
      && |s| > 0 && IsDigit(s[|s| - 1])
      && (r.value < 0 ==> s[0] == '-')
  {
    var s := TrimEnd(TrimStart(text));
    if |s| > 0 && (s[0] == '+' || s[0] == '-') then
      if DigitText(s[1..]) then
        var magnitude: int := DigitsValue(s[1..]);
        Some(if s[0] == '-' then -magnitude else magnitude)
      else None
    else if DigitText(s) then Some(DigitsValue(s))
    else None
  }

  /** A leading white-space character is dropped like the rest of the leading white space. */
  lemma TrimStartSpace(c: char, s: string)
    requires IsSpace(c)
    ensures TrimStart([c] + s) == TrimStart(s)
  {
    assert ([c] + s)[1..] == s;
  }

  /** A trailing white-space character is dropped like the rest of the trailing white space. */
  lemma TrimEndSpace(s: string, c: char)
    requires IsSpace(c)
    ensures TrimEnd(s + [c]) == TrimEnd(s)
  {
    assert (s + [c])[..|s|] == s;
  }

  /** `int` skips a space before any digits and a newline after them. */
  lemma ParseIntSkipsSpaces(s: string)
    requires DigitText(s)
    ensures ParseInt(" " + s + "\n") == Some(DigitsValue(s))
  {
    var t := s + "\n";
    assert TrimStart(" " + s + "\n") == t by {
      assert " " + s + "\n" == [' '] + t;
      TrimStartSpace(' ', t);
      assert t[0] == s[0] && !IsSpace(s[0]);
    }
    assert TrimEnd(t) == s by {
      TrimEndSpace(s, '\n');
      assert !IsSpace(s[|s| - 1]);
    }
    assert s[0] != '+' && s[0] != '-';
  }

  /** `int` refuses a number preceded by a file separator (code 28). */
  lemma ParseIntRefusesSeparator()
    ensures ParseInt([28 as char, '5']) == None
  {
    var separated := [28 as char, '5'];
    assert !IsSpace(separated[0]) && TrimStart(separated) == separated;
    assert !IsSpace(separated[1]) && TrimEnd(separated) == separated;
    assert !IsDigit(separated[0]) && separated[0] != '_';
  }

  /**
   * The decimal digits of `n`, most significant first: the text the
   * round trip of `int` below starts from.
   */
  function NatToDigits(n: nat): (s: string)
    ensures |s| > 0 && forall i :: 0 <= i < |s| ==> IsDigit(s[i])
    decreases n
  {
    var d := [(('0' as int) + n % 10) as char];
    if n < 10 then d else NatToDigits(n / 10) + d
  }

  /** The decimal text of `c`, with a leading `-` when negative: what `int` is shown to read back. */
  function FormatInt(c: int): (s: string)
    ensures |s| > 0 && ',' !in s
  {
    if c < 0 then "-" + NatToDigits(-c) else NatToDigits(c)
  }

  /** Reading back the digits of `n` gives `n`. */
  lemma {:induction false} DigitsRoundTrip(n: nat)
    ensures DigitsValue(NatToDigits(n)) == n
    decreases n
  {
    var s := NatToDigits(n);
    if n >= 10 {
      DigitsRoundTrip(n / 10);
      assert s[..|s| - 1] == NatToDigits(n / 10);
    }
  }

  /** `int` reads back what `str` writes: `int(str(c)) == c`. */
  lemma ParseFormatRoundTrip(c: int)
    ensures ParseInt(FormatInt(c)) == Some(c)
  {
    var s := FormatInt(c);
    var digits := NatToDigits(if c < 0 then -c else c);
    assert TrimStart(s) == s;
    assert TrimEnd(s) == s;
    DigitsRoundTrip(if c < 0 then -c else c);
    if c < 0 {
      assert s[1..] == digits;
    }
  }
}
