/** String operations the two validators and the reply checks rely on, written with
    the meaning Python gives them: `str.split(sep)`, `str.isdigit()`, `int(digits)`,
    `sub in s` and `str.strip()`. */
module Text {

  /** One character accepted by `str.isdigit()`, restricted to ASCII '0'..'9'. */
  predicate IsAsciiDigit(c: char) {
    '0' <= c <= '9'
  }

  /** `s.isdigit()`: false on the empty string, otherwise every character is a digit. */
  predicate IsDigits(s: string) {
    |s| > 0 && forall i :: 0 <= i < |s| ==> IsAsciiDigit(s[i])
  }

  /** `int(s)` for a string of decimal digits; a negative value cannot come out of it. */
  function DigitsValue(s: string): nat
    requires forall i :: 0 <= i < |s| ==> IsAsciiDigit(s[i])
  {
    if |s| == 0 then 0
    else
      assert IsAsciiDigit(s[|s| - 1]);
      DigitsValue(s[..|s| - 1]) * 10 + (s[|s| - 1] as int - '0' as int)
  }

  /** A leading '0' changes neither the digit check nor the value: `int("010") == int("10")`. */
  lemma {:induction false} LeadingZeroNeutral(s: string)
    requires forall i :: 0 <= i < |s| ==> IsAsciiDigit(s[i])
    ensures IsDigits(s) ==> IsDigits("0" + s)
    ensures DigitsValue("0" + s) == DigitsValue(s)
  {
    var z := "0" + s;
    if |s| > 0 {
      var init := s[..|s| - 1];
      assert z[..|z| - 1] == "0" + init;
      assert z[|z| - 1] == s[|s| - 1];
      LeadingZeroNeutral(init);
    } else {
      assert z[..|z| - 1] == [];
    }
  }

  /** `s.split(sep)`: the maximal runs between separators, in order. The empty string
      gives one empty part, and two adjacent separators give an empty part between them. */
  function Split(s: string, sep: char): (parts: seq<string>)
    ensures |parts| >= 1
    ensures forall i :: 0 <= i < |parts| ==> sep !in parts[i]
  {
    if |s| == 0 then [""]
    else
      var rest := Split(s[1..], sep);
      if s[0] == sep then [""] + rest
      else [[s[0]] + rest[0]] + rest[1..]
  }

  /** `sep.join(parts)`. */
  function Join(parts: seq<string>, sep: char): string
    requires |parts| >= 1
  {
    if |parts| == 1 then parts[0] else parts[0] + [sep] + Join(parts[1..], sep)
  }

  /** Putting a character in front of the first part puts it in front of the join. */
  lemma JoinPrependChar(c: char, parts: seq<string>, sep: char)
    requires |parts| >= 1
    ensures Join([[c] + parts[0]] + parts[1..], sep) == [c] + Join(parts, sep)
  {
    var q := [[c] + parts[0]] + parts[1..];
    assert q[1..] == parts[1..];
    if |parts| > 1 {
      assert Join(q, sep) == ([c] + parts[0]) + [sep] + Join(parts[1..], sep);
    }
  }

  /** Joining the parts of a split gives back the string that was split. */
  lemma {:induction false} JoinSplit(s: string, sep: char)
    ensures Join(Split(s, sep), sep) == s
  {
    if |s| > 0 {
      var rest := Split(s[1..], sep);
      JoinSplit(s[1..], sep);
      assert s == [s[0]] + s[1..];
      if s[0] == sep {
        assert ([""] + rest)[1..] == rest;
      } else {
        JoinPrependChar(s[0], rest, sep);
      }
    }
  }

  /** Splitting a separator-free prefix glued to `t` puts the prefix in front of the first part of `t`. */
  lemma {:induction false} SplitPrefix(a: string, t: string, sep: char)
    requires sep !in a
    ensures Split(a + t, sep) == [a + Split(t, sep)[0]] + Split(t, sep)[1..]
  {
    var T := Split(t, sep);
    if |a| == 0 {
      assert a + t == t;
      assert a + T[0] == T[0];
      assert [T[0]] + T[1..] == T;
    } else {
      var at := a + t;
      assert at[0] == a[0] && at[1..] == a[1..] + t;
      SplitPrefix(a[1..], t, sep);
      assert [a[0]] + (a[1..] + T[0]) == a + T[0];
    }
  }

  /** Splitting a join of separator-free parts gives back exactly those parts. */
  lemma {:induction false} SplitJoin(parts: seq<string>, sep: char)
    requires |parts| >= 1
    requires forall i :: 0 <= i < |parts| ==> sep !in parts[i]
    ensures Split(Join(parts, sep), sep) == parts
  {
    if |parts| == 1 {
      SplitPrefix(parts[0], "", sep);
      assert parts[0] + "" == parts[0];
    } else {
      var rest := parts[1..];
      var j := Join(rest, sep);
      SplitJoin(rest, sep);
      var u := [sep] + j;
      assert u[0] == sep && u[1..] == j;
      assert Split(u, sep) == [""] + rest;
      SplitPrefix(parts[0], u, sep);
      assert parts[0] + [sep] + j == parts[0] + u;
      assert parts[0] + "" == parts[0];
      assert ([""] + rest)[1..] == rest;
      assert [parts[0]] + rest == parts;
    }
  }

  /** `s.startswith(prefix)`. */
  predicate StartsWith(s: string, prefix: string) {
    |prefix| <= |s| && s[..|prefix|] == prefix
  }

  /** `sub in s`: some position of `s` starts an occurrence of `sub`. */
  predicate Contains(s: string, sub: string)
    decreases |s|
  {
    StartsWith(s, sub) || (|s| > 0 && Contains(s[1..], sub))
  }

  /** The recursive search agrees with "there is an index where `sub` occurs". */
  lemma {:induction false} ContainsIff(s: string, sub: string)
    ensures Contains(s, sub) <==> exists i :: 0 <= i <= |s| && StartsWith(s[i..], sub)
    decreases |s|
  {
    if |s| > 0 {
      ContainsIff(s[1..], sub);
      if Contains(s, sub) {
        if StartsWith(s, sub) {
          assert s[0..] == s;
        } else {
          var i :| 0 <= i <= |s[1..]| && StartsWith(s[1..][i..], sub);
          assert s[1..][i..] == s[i + 1..];
        }
      } else {
        forall i | 0 <= i <= |s|
          ensures !StartsWith(s[i..], sub)
        {
          if i == 0 {
            assert s[0..] == s;
          } else {
            assert s[1..][i - 1..] == s[i..];
          }
        }
      }
    } else {
      assert s[0..] == s;
    }
  }

  /** `str.isspace()` for one character: the characters Python's `strip()` removes by default. */
  predicate IsSpace(c: char) {
    ('\t' <= c <= '\r') || ('\U{1c}' <= c <= ' ') || c == '\U{85}' || c == '\U{a0}'
    || c == '\U{1680}' || ('\U{2000}' <= c <= '\U{200a}') || c == '\U{2028}' || c == '\U{2029}'
    || c == '\U{202f}' || c == '\U{205f}' || c == '\U{3000}'
  }

  /** `s.lstrip()`: drops the leading whitespace. */
  function TrimStart(s: string): (r: string)
    ensures |r| <= |s| && r == s[|s| - |r|..]
    ensures forall i :: 0 <= i < |s| - |r| ==> IsSpace(s[i])
    ensures r == [] || !IsSpace(r[0])
    decreases |s|
  {
    if |s| > 0 && IsSpace(s[0]) then TrimStart(s[1..]) else s
  }

  /** `s.rstrip()`: drops the trailing whitespace. */
  function TrimEnd(s: string): (r: string)
    ensures |r| <= |s| && r == s[..|r|]
    ensures forall i :: |r| <= i < |s| ==> IsSpace(s[i])
    ensures r == [] || !IsSpace(r[|r| - 1])
    decreases |s|
  {
    if |s| > 0 && IsSpace(s[|s| - 1]) then TrimEnd(s[..|s| - 1]) else s
  }

  /** `s.strip()`: the result neither starts nor ends with whitespace. */
  function Strip(s: string): (r: string)
    ensures |r| <= |s|
    ensures r == [] || (!IsSpace(r[0]) && !IsSpace(r[|r| - 1]))
  {
    TrimEnd(TrimStart(s))
  }

  /** `lstrip()` removes exactly a whitespace prefix in front of a text that does not start with whitespace. */
  lemma {:induction false} TrimStartPadded(a: string, u: string)
    requires forall i :: 0 <= i < |a| ==> IsSpace(a[i])
    requires u == [] || !IsSpace(u[0])
    ensures TrimStart(a + u) == u
    decreases |a|
  {
    if |a| > 0 {
      assert (a + u)[0] == a[0] && (a + u)[1..] == a[1..] + u;
      TrimStartPadded(a[1..], u);
    } else {
      assert a + u == u;
    }
  }

  /** `rstrip()` removes exactly a whitespace suffix behind a text that does not end with whitespace. */
  lemma {:induction false} TrimEndPadded(u: string, b: string)
    requires forall i :: 0 <= i < |b| ==> IsSpace(b[i])
    requires u == [] || !IsSpace(u[|u| - 1])
    ensures TrimEnd(u + b) == u
    decreases |b|
  {
    if |b| > 0 {
      var ub := u + b;
      assert ub[|ub| - 1] == b[|b| - 1] && ub[..|ub| - 1] == u + b[..|b| - 1];
      TrimEndPadded(u, b[..|b| - 1]);
    } else {
      assert u + b == u;
    }
  }

  /** `strip()` removes exactly the whitespace padding around a text whose ends are not whitespace. */
  lemma StripPadded(a: string, t: string, b: string)
    requires forall i :: 0 <= i < |a| ==> IsSpace(a[i])
    requires forall i :: 0 <= i < |b| ==> IsSpace(b[i])
    requires t == [] || (!IsSpace(t[0]) && !IsSpace(t[|t| - 1]))
    ensures Strip(a + t + b) == t
  {
    if t == [] {
      var ab := a + b;
      assert a + t + b == ab + "";
      assert forall i :: 0 <= i < |ab| ==> IsSpace(ab[i]);
      TrimStartPadded(ab, "");
    } else {
      assert a + t + b == a + (t + b);
      assert (t + b)[0] == t[0];
      TrimStartPadded(a, t + b);
      TrimEndPadded(t, b);
    }
  }
}
