/** The string primitives of Python 2 that the exporter relies on: `sep.join`, `split`,
    iteration over the lines of a text file, `strip`, `lower`, `replace`, `str(int)` and `int(str)`. */
module Text {
  import opened Wrappers

  /** `sep.join(parts)` */
  function Join(parts: seq<string>, sep: char): string
  {
    if |parts| == 0 then ""
    else if |parts| == 1 then parts[0]
    else parts[0] + [sep] + Join(parts[1..], sep)
  }

  /** Position of the first `c` in `s`, or `|s|` when there is none. */
  function IndexOf(s: string, c: char): (i: nat)
    ensures i <= |s|
    ensures i < |s| ==> s[i] == c
    ensures forall j :: 0 <= j < i ==> s[j] != c
  {
    if s == [] || s[0] == c then 0 else 1 + IndexOf(s[1..], c)
  }

  /** `s.split(sep)` for a one-character separator. */
  function Split(s: string, sep: char): (parts: seq<string>)
    ensures |parts| >= 1
    decreases |s|
  {
    var i := IndexOf(s, sep);
    if i == |s| then [s] else [s[..i]] + Split(s[i + 1..], sep)
  }

  /** Splitting undoes joining when no part contains the separator. */
  lemma {:induction false} SplitJoin(parts: seq<string>, sep: char)
    requires |parts| >= 1
    requires forall k :: 0 <= k < |parts| ==> sep !in parts[k]
    ensures Split(Join(parts, sep), sep) == parts
  {
    if |parts| == 1 {
      assert IndexOf(parts[0], sep) == |parts[0]|;
    } else {
      var s := Join(parts, sep);
      var rest := Join(parts[1..], sep);
      assert s == parts[0] + [sep] + rest;
      assert s[|parts[0]|] == sep;
      var i := IndexOf(s, sep);
      assert i == |parts[0]| by {
        assert forall j :: 0 <= j < |parts[0]| ==> s[j] == parts[0][j];
      }
      assert s[..i] == parts[0];
      assert s[i + 1..] == rest;
      SplitJoin(parts[1..], sep);
    }
  }

  /** Joining one more part appends the separator and that part. */
  lemma {:induction false} JoinSnoc(parts: seq<string>, last: string, sep: char)
    requires |parts| >= 1
    ensures Join(parts + [last], sep) == Join(parts, sep) + [sep] + last
  {
    if |parts| > 1 {
      assert (parts + [last])[1..] == parts[1..] + [last];
      JoinSnoc(parts[1..], last, sep);
    }
  }

  /** The lines produced by iterating over a text file holding `s`: each line keeps its
      terminating newline, the last one may lack it, and an empty file has no line. */
  function FileLines(s: string): seq<string>
    decreases |s|
  {
    if s == [] then []
    else
      var i := IndexOf(s, '\n');
      if i == |s| then [s] else [s[..i + 1]] + FileLines(s[i + 1..])
  }

  /** The characters Python 2's `str.strip()` removes. */
  predicate IsSpace(c: char)
  {
    c == ' ' || c == '\t' || c == '\n' || c == '\r' || c as int == 11 || c as int == 12
  }

  /** Neither the first nor the last character is white space. */
  predicate NoEdgeSpace(s: string)
  {
    s == [] || (!IsSpace(s[0]) && !IsSpace(s[|s| - 1]))
  }

  function TrimLeft(s: string): (r: string)
    ensures |r| <= |s|
    ensures r == [] || !IsSpace(r[0])
    decreases |s|
  {
    if s != [] && IsSpace(s[0]) then TrimLeft(s[1..]) else s
  }

  function TrimRight(s: string): (r: string)
    ensures |r| <= |s|
    ensures r != [] ==> r[0] == s[0]
    ensures r == [] || !IsSpace(r[|r| - 1])
    decreases |s|
  {
    if s != [] && IsSpace(s[|s| - 1]) then TrimRight(s[..|s| - 1]) else s
  }

  /** `s.strip()` */
  function Strip(s: string): (r: string)
    ensures NoEdgeSpace(r)
    ensures |r| <= |s|
  {
    TrimRight(TrimLeft(s))
  }

  lemma StripKeeps(s: string)
    requires NoEdgeSpace(s)
    ensures Strip(s) == s
  {
  }

  /** Stripping a line read back from a file drops its newline and nothing else. */
  lemma StripNewline(s: string)
    requires NoEdgeSpace(s)
    ensures Strip(s + "\n") == s
  {
    if s == [] {
      assert TrimLeft("\n") == TrimLeft([]);
    } else {
      assert TrimLeft(s + "\n") == s + "\n";
      assert (s + "\n")[..|s|] == s;
      assert TrimRight(s + "\n") == TrimRight(s);
      assert TrimRight(s) == s;
    }
  }

  function LowerChar(c: char): char
  {
    if 'A' <= c <= 'Z' then (c as int + 32) as char else c
  }

  /** `s.lower()` on ASCII text */
  function Lower(s: string): (r: string)
    ensures |r| == |s|
    ensures forall i :: 0 <= i < |s| ==> r[i] == LowerChar(s[i])
  {
    seq(|s|, i requires 0 <= i < |s| => LowerChar(s[i]))
  }

  predicate IsDigit(c: char)
  {
    '0' <= c <= '9'
  }

  predicate AllDigits(s: string)
  {
    forall i :: 0 <= i < |s| ==> IsDigit(s[i])
  }

  function DigitChar(d: nat): (c: char)
    requires d < 10
    ensures IsDigit(c)
  {
    ('0' as int + d) as char
  }

  /** `str(n)` for a natural number: its decimal digits, without leading zeros. */
  function NatToString(n: nat): (r: string)
    ensures |r| >= 1 && AllDigits(r)
    decreases n
  {
    if n < 10 then [DigitChar(n)] else NatToString(n / 10) + [DigitChar(n % 10)]
  }

  /** `str(n)` for an integer */
  function IntToString(n: int): (r: string)
    ensures |r| >= 1
    ensures n >= 0 ==> AllDigits(r)
    ensures n < 0 ==> r[0] == '-' && AllDigits(r[1..])
  {
    if n < 0 then "-" + NatToString(-n) else NatToString(n)
  }

  /** The value of a string of decimal digits. */
  function DigitsValue(s: string): nat
    requires AllDigits(s)
  {
    if s == [] then 0 else DigitsValue(s[..|s| - 1]) * 10 + (s[|s| - 1] as int - '0' as int)
  }

  /** Python 2's `int(s)`: optional surrounding white space, an optional sign, white space
      again, and at least one decimal digit; anything else raises `ValueError`. */
  function ParseInt(s: string): (r: Result<int>)
    ensures r.Err? ==> r.error == ValueError
  {
    var t := Strip(s);
    if t != [] && (t[0] == '-' || t[0] == '+') then
      var ds := TrimLeft(t[1..]);
      if ds != [] && AllDigits(ds) then Ok(if t[0] == '-' then 0 - DigitsValue(ds) else DigitsValue(ds))
      else Err(ValueError)
    else if t != [] && AllDigits(t) then Ok(DigitsValue(t))
    else Err(ValueError)
  }

  /** White space may follow the sign: `int("- 5")` is -5. */
  lemma ParseIntSpaceAfterSign()
    ensures ParseInt("- 5") == Ok(-5)
  {
    StripKeeps("- 5");
    assert "- 5"[1..] == " 5";
    assert TrimLeft(" 5") == "5";
    assert DigitsValue("5") == 5 by {
      assert "5"[..0] == "";
    }
  }

  lemma {:induction false} DigitsValueOfNatToString(n: nat)
    ensures DigitsValue(NatToString(n)) == n
  {
    if n >= 10 {
      var r := NatToString(n);
      assert r[..|r| - 1] == NatToString(n / 10);
      DigitsValueOfNatToString(n / 10);
    }
  }

  /** `int(str(n)) == n` */
  lemma ParseIntToString(n: int)
    ensures ParseInt(IntToString(n)) == Ok(n)
  {
    var r := IntToString(n);
    if n < 0 {
      var ds := NatToString(-n);
      assert r == "-" + ds;
      assert r[1..] == ds;
      assert !IsSpace(r[|r| - 1]) by { assert r[|r| - 1] == ds[|ds| - 1]; }
      StripKeeps(r);
      DigitsValueOfNatToString(-n);
    } else {
      assert !IsSpace(r[0]) && !IsSpace(r[|r| - 1]);
      StripKeeps(r);
      assert r[0] != '-' && r[0] != '+';
      DigitsValueOfNatToString(n);
    }
  }

  /** `s.replace(pat, repl)`: every non-overlapping occurrence of `pat`, from left to right. */
  function Replace(s: string, pat: string, repl: string): string
    requires |pat| > 0
    decreases |s|
  {
    if |s| < |pat| then s
    else if s[..|pat|] == pat then repl + Replace(s[|pat|..], pat, repl)
    else [s[0]] + Replace(s[1..], pat, repl)
  }

  /** Replacing leaves a string alone when the pattern's first character does not occur in it. */
  lemma {:induction false} ReplaceAbsent(s: string, pat: string, repl: string)
    requires |pat| > 0 && pat[0] !in s
    ensures Replace(s, pat, repl) == s
  {
    if |s| >= |pat| {
      assert s[..|pat|][0] == s[0];
      ReplaceAbsent(s[1..], pat, repl);
    }
  }

  /** Writing a configuration value maps `%s` to `$$` and reading maps `$$` back to `%s`:
      the round trip is exact on text without `$`. */
  lemma {:induction false} ReplaceRoundTrip(v: string)
    requires '$' !in v
    ensures Replace(Replace(v, "%s", "$$"), "$$", "%s") == v
  {
    if |v| >= 2 && v[..2] == "%s" {
      var w := Replace(v[2..], "%s", "$$");
      assert Replace(v, "%s", "$$") == "$$" + w;
      assert ("$$" + w)[..2] == "$$" && ("$$" + w)[2..] == w;
      ReplaceRoundTrip(v[2..]);
    } else if |v| >= 2 {
      var w := Replace(v[1..], "%s", "$$");
      assert Replace(v, "%s", "$$") == [v[0]] + w;
      assert v[0] != '$';
      var u := [v[0]] + w;
      if |u| >= 2 {
        assert u[..2] != "$$" by { assert u[0] == v[0]; }
      }
      assert u[1..] == w;
      ReplaceRoundTrip(v[1..]);
      assert v == [v[0]] + v[1..];
    } else {
      assert Replace(v, "%s", "$$") == v;
      assert Replace(v, "$$", "%s") == v;
    }
  }

  /** Replacing a one-character pattern skips a prefix that does not contain it. */
  lemma {:induction false} ReplaceAfterPrefix(p: string, t: string, a: char, repl: string)
    requires a !in p
    ensures Replace(p + t, [a], repl) == p + Replace(t, [a], repl)
  {
    if p != [] {
      var s := p + t;
      assert s[..1] != [a] by { assert s[..1][0] == p[0]; }
      assert s[1..] == p[1..] + t;
      assert Replace(s, [a], repl) == [s[0]] + Replace(s[1..], [a], repl);
      ReplaceAfterPrefix(p[1..], t, a, repl);
      assert p == [p[0]] + p[1..];
    } else {
      assert p + t == t;
    }
  }

  /** `sep.join(parts).replace(sep, other)` joins the same parts with `other`. */
  lemma {:induction false} ReplaceJoinSeparator(parts: seq<string>, a: char, b: char)
    requires |parts| >= 1
    requires forall k :: 0 <= k < |parts| ==> a !in parts[k]
    ensures Replace(Join(parts, a), [a], [b]) == Join(parts, b)
  {
    if |parts| == 1 {
      ReplaceAbsent(parts[0], [a], [b]);
    } else {
      var rest := Join(parts[1..], a);
      ReplaceAfterPrefix(parts[0], [a] + rest, a, [b]);
      var t := [a] + rest;
      assert t[..1] == [a] && t[1..] == rest;
      ReplaceJoinSeparator(parts[1..], a, b);
      assert parts[0] + [a] + rest == parts[0] + t;
    }
  }
}
