// String helpers with the meaning the TypeScript code gives them:
// `String.prototype.split` on one separator character, `Array.prototype.join`,
// `startsWith` / `includes`, ASCII case folding, the JavaScript `\s` class,
// decimal digit strings (`parseInt` and `Number.prototype.toString`) and
// `padStart(2, '0')`.

module Text {
  import opened Common

  /** `s.split(sep)`: the pieces between the occurrences of `sep`, empty pieces included. */
  function Split(s: string, sep: char): (parts: seq<string>)
    ensures |parts| >= 1
    ensures forall i :: 0 <= i < |parts| ==> sep !in parts[i]
    decreases |s|
  {
    if |s| == 0 then [""]
    else
      var rest := Split(s[1..], sep);
      if s[0] == sep then [""] + rest
      else [[s[0]] + rest[0]] + rest[1..]
  }

  /** `parts.join(sep)`. */
  function Join(parts: seq<string>, sep: char): string
  {
    if |parts| == 0 then ""
    else if |parts| == 1 then parts[0]
    else parts[0] + [sep] + Join(parts[1..], sep)
  }

  /** A string without the separator splits into itself alone. */
  lemma {:induction false} SplitWithoutSeparator(s: string, sep: char)
    requires sep !in s
    ensures Split(s, sep) == [s]
    decreases |s|
  {
    if |s| > 0 {
      SplitWithoutSeparator(s[1..], sep);
      assert [s[0]] + s[1..] == s;
    }
  }

  /** Splitting at the first separator yields the piece before it, then the split of the rest. */
  lemma {:induction false} SplitAtFirstSeparator(a: string, sep: char, b: string)
    requires sep !in a
    ensures Split(a + [sep] + b, sep) == [a] + Split(b, sep)
    decreases |a|
  {
    var s := a + [sep] + b;
    if |a| == 0 {
      assert s == [sep] + b;
      assert s[1..] == b;
    } else {
      assert s[1..] == a[1..] + [sep] + b;
      SplitAtFirstSeparator(a[1..], sep, b);
      assert [a[0]] + a[1..] == a;
    }
  }

  /** Split inverts Join when no piece contains the separator. */
  lemma {:induction false} SplitJoin(parts: seq<string>, sep: char)
    requires |parts| >= 1
    requires forall i :: 0 <= i < |parts| ==> sep !in parts[i]
    ensures Split(Join(parts, sep), sep) == parts
    decreases |parts|
  {
    if |parts| == 1 {
      SplitWithoutSeparator(parts[0], sep);
    } else {
      SplitJoin(parts[1..], sep);
      SplitAtFirstSeparator(parts[0], sep, Join(parts[1..], sep));
      assert parts == [parts[0]] + parts[1..];
    }
  }

  /** Joining the pieces of a split restores the string. */
  lemma {:induction false} JoinSplit(s: string, sep: char)
    ensures Join(Split(s, sep), sep) == s
    decreases |s|
  {
    if |s| > 0 {
      var rest := Split(s[1..], sep);
      JoinSplit(s[1..], sep);
      assert s == [s[0]] + s[1..];
      if s[0] != sep && |rest| > 1 {
        assert ([s[0]] + rest[0]) + [sep] + Join(rest[1..], sep) == [s[0]] + (rest[0] + [sep] + Join(rest[1..], sep));
        assert ([[s[0]] + rest[0]] + rest[1..])[1..] == rest[1..];
      } else if s[0] == sep {
        assert ([""] + rest)[1..] == rest;
      }
    }
  }

  /** A string JavaScript treats as truthy. */
  predicate IsNonEmpty(s: string) { s != "" }

  /**
   * `parts.filter(Boolean)` on strings: every non-empty piece and only those,
   * in order and as often as they occur.
   */
  function NonEmpty(parts: seq<string>): (ys: seq<string>)
    ensures forall s :: s in ys <==> s in parts && s != ""
  {
    Filter(parts, IsNonEmpty)
  }

  /** Pieces that are all non-empty survive the filter unchanged. */
  lemma NonEmptyKeepsAll(parts: seq<string>)
    requires forall i :: 0 <= i < |parts| ==> parts[i] != ""
    ensures NonEmpty(parts) == parts
  {
    FilterAll(parts, IsNonEmpty);
  }

  /** `s.startsWith(p)`. */
  predicate StartsWith(s: string, p: string)
  {
    |p| <= |s| && s[..|p|] == p
  }

  /** `s.includes(t)`: `t` occurs somewhere in `s`. */
  predicate Contains(s: string, t: string)
    decreases |s|
  {
    StartsWith(s, t) || (|s| > 0 && Contains(s[1..], t))
  }

  /** A string containing `t` contains every prefix of `t`. */
  lemma {:induction false} ContainsPrefix(s: string, t: string, k: nat)
    requires k <= |t|
    requires Contains(s, t)
    ensures Contains(s, t[..k])
    decreases |s|
  {
    if StartsWith(s, t) {
      assert s[..k] == t[..k];
    } else {
      ContainsPrefix(s[1..], t, k);
    }
  }

  /** The longest prefix of `s` whose characters all satisfy `p` (a greedy `[...]*` match). */
  function Run(s: string, p: char -> bool): (r: string)
    ensures |r| <= |s| && r == s[..|r|]
    ensures forall i :: 0 <= i < |r| ==> p(r[i])
    ensures |r| < |s| ==> !p(s[|r|])
  {
    if |s| > 0 && p(s[0]) then [s[0]] + Run(s[1..], p) else ""
  }

  /** The run of `p`-characters before a character that fails `p` is exactly that prefix. */
  lemma {:induction false} RunStops(a: string, b: string, p: char -> bool)
    requires forall i :: 0 <= i < |a| ==> p(a[i])
    requires |b| > 0 && !p(b[0])
    ensures Run(a + b, p) == a
  {
    if |a| > 0 {
      RunStops(a[1..], b, p);
      assert (a + b)[1..] == a[1..] + b;
    } else {
      assert a + b == b;
    }
  }

  /** The run over a string made only of `p`-characters is the whole string. */
  lemma {:induction false} RunAll(a: string, p: char -> bool)
    requires forall i :: 0 <= i < |a| ==> p(a[i])
    ensures Run(a, p) == a
  {
    if |a| > 0 {
      RunAll(a[1..], p);
    }
  }

  // ---------------------------------------------------------------- characters

  predicate IsAsciiUpper(c: char) { 'A' <= c <= 'Z' }

  /** `toLowerCase` restricted to ASCII letters. */
  function LowerChar(c: char): char
  {
    if IsAsciiUpper(c) then (c as int + 32) as char else c
  }

  function LowerAscii(s: string): (r: string)
    ensures |r| == |s|
    ensures forall i :: 0 <= i < |s| ==> r[i] == LowerChar(s[i])
  {
    seq(|s|, i requires 0 <= i < |s| => LowerChar(s[i]))
  }

  /** The characters the JavaScript regular-expression class `\s` matches. */
  predicate IsWhitespace(c: char)
  {
    var n := c as int;
    n == 0x20 || (0x09 <= n <= 0x0D) || n == 0xA0 || n == 0x1680
    || (0x2000 <= n <= 0x200A) || n == 0x2028 || n == 0x2029 || n == 0x202F
    || n == 0x205F || n == 0x3000 || n == 0xFEFF
  }

  /** `\w`: ASCII letters, digits and the underscore. */
  predicate IsWordChar(c: char)
  {
    ('a' <= c <= 'z') || ('A' <= c <= 'Z') || ('0' <= c <= '9') || c == '_'
  }

  /** `s.replace(/from/g, to)` for a single character. */
  function ReplaceChar(s: string, from: char, to: char): (r: string)
    ensures |r| == |s|
    ensures forall i :: 0 <= i < |s| ==> r[i] == if s[i] == from then to else s[i]
  {
    seq(|s|, i requires 0 <= i < |s| => if s[i] == from then to else s[i])
  }

  /** Replacing `a` by `b` and then `b` by `a` restores a string that had no `b`. */
  lemma ReplaceCharRoundTrip(s: string, a: char, b: char)
    requires b !in s
    ensures ReplaceChar(ReplaceChar(s, a, b), b, a) == s
  {
  }

  // ------------------------------------------------------------ decimal numbers

  predicate IsDigit(c: char) { '0' <= c <= '9' }

  predicate AllDigits(s: string)
  {
    forall i :: 0 <= i < |s| ==> IsDigit(s[i])
  }

  function DigitChar(d: nat): (c: char)
    requires d < 10
    ensures IsDigit(c)
  {
    ('0' as int + d) as char
  }

  /** `parseInt` of a string of decimal digits (unbounded; no floating point). */
  function ParseDecimal(ds: string): nat
    requires AllDigits(ds)
  {
    if |ds| == 0 then 0
    else ParseDecimal(ds[..|ds| - 1]) * 10 + (ds[|ds| - 1] as int - '0' as int)
  }

  /** `n.toString()` for a natural number: its decimal digits without leading zeros. */
  function NatToDecimal(n: nat): (ds: string)
    ensures |ds| >= 1 && AllDigits(ds)
    ensures |ds| > 1 ==> ds[0] != '0'
  {
    if n < 10 then [DigitChar(n)] else NatToDecimal(n / 10) + [DigitChar(n % 10)]
  }

  /** Printing a number and parsing it back gives the number. */
  lemma {:induction false} DecimalRoundTrip(n: nat)
    ensures ParseDecimal(NatToDecimal(n)) == n
  {
    if n >= 10 {
      DecimalRoundTrip(n / 10);
      var ds := NatToDecimal(n);
      assert ds[..|ds| - 1] == NatToDecimal(n / 10);
    }
  }

  /** A leading zero does not change the value `parseInt` reads. */
  lemma {:induction false} ParseDecimalLeadingZero(ds: string)
    requires AllDigits(ds)
    ensures AllDigits("0" + ds) && ParseDecimal("0" + ds) == ParseDecimal(ds)
    decreases |ds|
  {
    if |ds| > 0 {
      var z := "0" + ds;
      assert z[..|z| - 1] == "0" + ds[..|ds| - 1];
      ParseDecimalLeadingZero(ds[..|ds| - 1]);
    }
  }

  /** `s.padStart(2, '0')`. */
  function PadStart2(s: string): (r: string)
    ensures |r| == if |s| >= 2 then |s| else 2
    ensures r[|r| - |s|..] == s
    ensures forall k :: 0 <= k < |r| - |s| ==> r[k] == '0'
  {
    if |s| >= 2 then s else if |s| == 1 then "0" + s else "00"
  }

  /** A padded decimal number still reads as the same number. */
  lemma PaddedDecimal(n: nat)
    ensures AllDigits(PadStart2(NatToDecimal(n)))
    ensures ParseDecimal(PadStart2(NatToDecimal(n))) == n
    ensures |PadStart2(NatToDecimal(n))| >= 2
    ensures |PadStart2(NatToDecimal(n))| == 2 || PadStart2(NatToDecimal(n))[0] != '0'
  {
    DecimalRoundTrip(n);
    ParseDecimalLeadingZero(NatToDecimal(n));
  }

  /** A digit string without a leading zero is the printed form of the number it reads as. */
  lemma {:induction false} CanonicalDecimal(ds: string)
    requires |ds| > 0 && AllDigits(ds) && (|ds| > 1 ==> ds[0] != '0')
    ensures NatToDecimal(ParseDecimal(ds)) == ds
    decreases |ds|
  {
    var n := ParseDecimal(ds);
    var d := ds[|ds| - 1] as int - '0' as int;
    if |ds| == 1 {
      assert ds[..0] == "";
      assert DigitChar(d) == ds[0];
    } else {
      var front := ds[..|ds| - 1];
      CanonicalDecimal(front);
      assert front[0] != '0' && NatToDecimal(0) == "0";
      assert n / 10 == ParseDecimal(front) && n % 10 == d;
      assert ds == front + [ds[|ds| - 1]];
    }
  }

  /**
   * A digit string of at least two characters that is exactly two long or has
   * no leading zero is the padded printed form of the number it reads as.
   */
  lemma PaddedField(ds: string)
    requires |ds| >= 2 && AllDigits(ds) && (|ds| == 2 || ds[0] != '0')
    ensures PadStart2(NatToDecimal(ParseDecimal(ds))) == ds
  {
    if ds[0] != '0' {
      CanonicalDecimal(ds);
    } else {
      var d := ds[1] as int - '0' as int;
      assert ds[..1][..0] == "";
      assert ParseDecimal(ds[..1]) == 0;
      assert ParseDecimal(ds) == d;
      assert NatToDecimal(d) == [ds[1]];
      assert ds == "0" + [ds[1]];
    }
  }
}
