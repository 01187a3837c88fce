/** String helpers shared by the model: the JavaScript whitespace class used by
    `String.prototype.trim` and the regular-expression class `\s`, trimming,
    splitting on a separator character, decimal digits, prefixes and suffixes. */
module Text {

  /** The characters JavaScript treats as white space or line terminators
      (ECMA-262 WhiteSpace and LineTerminator productions). */
  predicate IsSpace(c: char) {
    var n := c as int;
    || n == 0x09 || n == 0x0A || n == 0x0B || n == 0x0C || n == 0x0D || n == 0x20
    || n == 0xA0 || n == 0x1680 || (0x2000 <= n <= 0x200A)
    || n == 0x2028 || n == 0x2029 || n == 0x202F || n == 0x205F || n == 0x3000 || n == 0xFEFF
  }

  predicate AllSpace(s: string) {
    forall i :: 0 <= i < |s| ==> IsSpace(s[i])
  }

  /** `s` without its leading white space (`String.prototype.trimStart`). */
  function TrimStart(s: string): string
  {
    if s != [] && IsSpace(s[0]) then TrimStart(s[1..]) else s
  }

  /** `s` without its trailing white space (`String.prototype.trimEnd`). */
  function TrimEnd(s: string): string
  {
    if s != [] && IsSpace(s[|s| - 1]) then TrimEnd(s[..|s| - 1]) else s
  }

  /** `String.prototype.trim`. */
  function Trim(s: string): string
  {
    TrimEnd(TrimStart(s))
  }

  /** TrimStart removes a run of white space from the front and stops at the
      first character that is not white space. */
  lemma {:induction false} TrimStartSuffix(s: string)
    ensures var r := TrimStart(s);
      && |r| <= |s| && r == s[|s| - |r|..]
      && AllSpace(s[..|s| - |r|])
      && (r == [] || !IsSpace(r[0]))
  {
    if s != [] && IsSpace(s[0]) {
      TrimStartSuffix(s[1..]);
      var r := TrimStart(s);
      var p := s[..|s| - |r|];
      forall k | 0 <= k < |p| ensures IsSpace(p[k]) {
        if k > 0 {
          assert p[k] == s[1..][..|s| - 1 - |r|][k - 1];
        }
      }
    }
  }

  /** TrimEnd removes a run of white space from the back and stops at the
      last character that is not white space. */
  lemma {:induction false} TrimEndPrefix(s: string)
    ensures var r := TrimEnd(s);
      && |r| <= |s| && r == s[..|r|]
      && AllSpace(s[|r|..])
      && (r == [] || !IsSpace(r[|r| - 1]))
  {
    if s != [] && IsSpace(s[|s| - 1]) {
      TrimEndPrefix(s[..|s| - 1]);
      var r := TrimEnd(s);
      var t := s[..|s| - 1];
      forall k | 0 <= k < |s| - |r| ensures IsSpace(s[|r|..][k]) {
        if k < |s| - 1 - |r| {
          assert s[|r|..][k] == t[|r|..][k];
        }
      }
    }
  }

  /** Trimming from the front twice is trimming once. */
  lemma {:induction false} TrimStartIdempotent(s: string)
    ensures TrimStart(TrimStart(s)) == TrimStart(s)
  {
    if s != [] && IsSpace(s[0]) {
      TrimStartIdempotent(s[1..]);
    }
  }

  /** The last character that is not white space, for a text that starts with one. */
  function LastNonSpace(s: string): char
    requires |s| >= 1 && !IsSpace(s[0])
  {
    if IsSpace(s[|s| - 1]) then LastNonSpace(s[..|s| - 1]) else s[|s| - 1]
  }

  /** A text that starts with something other than white space keeps that
      character under TrimEnd, and then ends with LastNonSpace. */
  lemma {:induction false} TrimEndOfText(s: string)
    requires |s| >= 1 && !IsSpace(s[0])
    ensures TrimEnd(s) != [] && TrimEnd(s)[0] == s[0]
    ensures TrimEnd(s)[|TrimEnd(s)| - 1] == LastNonSpace(s)
  {
    if IsSpace(s[|s| - 1]) {
      TrimEndOfText(s[..|s| - 1]);
    }
  }

  /** Trimming from the front gives nothing exactly for an all-white-space text. */
  lemma {:induction false} TrimStartBlank(s: string)
    ensures TrimStart(s) == [] <==> AllSpace(s)
  {
    if s != [] {
      if IsSpace(s[0]) {
        TrimStartBlank(s[1..]);
        assert AllSpace(s) <==> AllSpace(s[1..]) by {
          assert forall k :: 1 <= k < |s| ==> s[k] == s[1..][k - 1];
        }
      } else {
        assert !AllSpace(s) by { assert !IsSpace(s[0]); }
      }
    }
  }

  /** Trimming gives nothing exactly for an all-white-space text. */
  lemma TrimBlank(s: string)
    ensures Trim(s) == [] <==> AllSpace(s)
  {
    TrimStartBlank(s);
    TrimStartSuffix(s);
    var r := TrimStart(s);
    if r != [] {
      TrimEndOfText(r);
    }
  }

  /** A non-empty trimmed text neither starts nor ends with white space, and
      is a slice of the original text. */
  lemma TrimEnds(s: string)
    requires Trim(s) != []
    ensures !IsSpace(Trim(s)[0]) && !IsSpace(Trim(s)[|Trim(s)| - 1])
    ensures exists lo, hi :: 0 <= lo <= hi <= |s| && Trim(s) == s[lo..hi]
  {
    var r := TrimStart(s);
    TrimStartSuffix(s);
    TrimEndPrefix(r);
    TrimEndOfText(r);
    var lo := |s| - |r|;
    var hi := lo + |Trim(s)|;
    assert Trim(s) == r[..|Trim(s)|];
    assert Trim(s) == s[lo..hi];
  }

  /** What the grouping rule needs to know of a trimmed text: whether it is
      blank, and otherwise its first and last characters. */
  datatype TrimShape = Blank | Ends(first: char, last: char)

  /** The shape of `Trim(s)`, computed by a scan (see ShapeOfTrim). */
  function Shape(s: string): TrimShape
  {
    if s == [] then Blank
    else if IsSpace(s[0]) then Shape(s[1..])
    else Ends(s[0], LastNonSpace(s))
  }

  /** Shape(s) is Blank exactly when `s` is all white space; otherwise it holds
      the first and last characters of `Trim(s)`. */
  lemma {:induction false} ShapeOfTrim(s: string)
    ensures Shape(s) == Blank <==> Trim(s) == []
    ensures Shape(s).Ends? ==>
      Shape(s).first == Trim(s)[0] && Shape(s).last == Trim(s)[|Trim(s)| - 1]
  {
    if s != [] {
      if IsSpace(s[0]) {
        ShapeOfTrim(s[1..]);
      } else {
        TrimEndOfText(s);
      }
    }
  }

  /** The last non-white-space character of `x + y`, when `y` starts with one,
      is that of `y`. */
  lemma {:induction false} LastNonSpaceConcat(x: string, y: string)
    requires |x| >= 1 && !IsSpace(x[0]) && |y| >= 1 && !IsSpace(y[0])
    ensures LastNonSpace(x + y) == LastNonSpace(y)
    decreases |y|
  {
    var s := x + y;
    assert s[0] == x[0];
    assert s[|s| - 1] == y[|y| - 1];
    if IsSpace(y[|y| - 1]) {
      assert s[..|s| - 1] == x + y[..|y| - 1];
      LastNonSpaceConcat(x, y[..|y| - 1]);
    }
  }

  /** The same when `y` has white space in front of its text. */
  lemma {:induction false} LastNonSpaceShape(x: string, y: string)
    requires |x| >= 1 && !IsSpace(x[0]) && Shape(y).Ends?
    ensures LastNonSpace(x + y) == Shape(y).last
    decreases |y|
  {
    if IsSpace(y[0]) {
      var x' := x + [y[0]];
      assert x + y == x' + y[1..];
      assert x'[0] == x[0];
      LastNonSpaceShape(x', y[1..]);
    } else {
      LastNonSpaceConcat(x, y);
    }
  }

  /** Joining two texts that both hold something with a space gives a text
      that starts like the first and ends like the second. */
  lemma {:induction false} ShapeJoin(a: string, b: string)
    requires Shape(a).Ends? && Shape(b).Ends?
    ensures Shape(a + " " + b) == Ends(Shape(a).first, Shape(b).last)
    decreases |a|
  {
    var s := a + " " + b;
    assert s[0] == a[0];
    if IsSpace(a[0]) {
      assert s[1..] == a[1..] + " " + b;
      ShapeJoin(a[1..], b);
    } else {
      assert s == a + (" " + b);
      assert Shape(" " + b) == Shape(b) by {
        assert (" " + b)[1..] == b;
      }
      LastNonSpaceShape(a, " " + b);
    }
  }

  /** The first position of `c` in `s`. */
  function IndexOf(s: string, c: char): (i: nat)
    requires c in s
    ensures i < |s| && s[i] == c && c !in s[..i]
  {
    if s[0] == c then 0 else
      assert s == [s[0]] + s[1..];
      1 + IndexOf(s[1..], c)
  }

  /** Concatenation regrouped; a separate step keeps it out of larger proofs. */
  lemma AppendAssoc<T>(a: seq<T>, b: seq<T>, c: seq<T>)
    ensures a + (b + c) == (a + b) + c
  {
  }

  /** `Array.prototype.join(sep)` over a list of strings. */
  function Join(parts: seq<string>, sep: char): string
  {
    if |parts| == 0 then ""
    else if |parts| == 1 then parts[0]
    else parts[0] + [sep] + Join(parts[1..], sep)
  }

  /** Joining one more part onto a non-empty list adds a separator and the part. */
  lemma {:induction false} JoinSnoc(parts: seq<string>, last: string, sep: char)
    requires |parts| >= 1
    ensures Join(parts + [last], sep) == Join(parts, sep) + [sep] + last
  {
    if |parts| > 1 {
      assert (parts + [last])[1..] == parts[1..] + [last];
      JoinSnoc(parts[1..], last, sep);
    }
  }

  /** `String.prototype.split(sep)` for a one-character separator: always at
      least one piece, no piece holds the separator, and joining the pieces
      back gives `s`. */
  function Split(s: string, sep: char): (r: seq<string>)
    ensures |r| >= 1
    ensures forall k :: 0 <= k < |r| ==> sep !in r[k]
    ensures Join(r, sep) == s
    decreases |s|
  {
    if sep !in s then [s]
    else
      var i := IndexOf(s, sep);
      var rest := Split(s[i + 1..], sep);
      assert s == s[..i] + [sep] + s[i + 1..];
      [s[..i]] + rest
  }

  /** Splitting undoes joining when no part holds the separator. */
  lemma {:induction false} SplitJoin(parts: seq<string>, sep: char)
    requires |parts| >= 1
    requires forall k :: 0 <= k < |parts| ==> sep !in parts[k]
    ensures Split(Join(parts, sep), sep) == parts
  {
    if |parts| > 1 {
      var s := Join(parts, sep);
      var rest := Join(parts[1..], sep);
      assert s == parts[0] + [sep] + rest;
      assert s[|parts[0]|] == sep;
      assert s[..|parts[0]|] == parts[0];
      assert IndexOf(s, sep) == |parts[0]|;
      assert s[|parts[0]| + 1..] == rest;
      SplitJoin(parts[1..], sep);
    }
  }

  predicate IsDigit(c: char) {
    '0' <= c <= '9'
  }

  predicate AllDigits(s: string) {
    forall i :: 0 <= i < |s| ==> IsDigit(s[i])
  }

  function DigitChar(d: nat): (c: char)
    requires d < 10
    ensures IsDigit(c) && (c as int) - ('0' as int) == d
  {
    ('0' as int + d) as char
  }

  /** The number a string of decimal digits denotes. */
  function DigitsValue(s: string): nat
    requires AllDigits(s)
  {
    if s == [] then 0
    else DigitsValue(s[..|s| - 1]) * 10 + ((s[|s| - 1] as int) - ('0' as int))
  }

  /** Decimal rendering of a natural number, as `Number.prototype.toString`
      gives it for a non-negative integer. */
  function NatToString(n: nat): (r: string)
    ensures |r| >= 1 && AllDigits(r)
    ensures r[0] == '0' ==> r == "0"
    ensures DigitsValue(r) == n
  {
    if n < 10 then [DigitChar(n)]
    else
      var p := NatToString(n / 10);
      var r := p + [DigitChar(n % 10)];
      assert r[..|r| - 1] == p;
      r
  }

  /** Decimal rendering of an integer, with a leading `-` when negative. */
  function IntToString(i: int): string
  {
    if i < 0 then "-" + NatToString(-i) else NatToString(i)
  }

  /** `String.prototype.padStart(width, fill)`. */
  function PadStart(s: string, width: nat, fill: char): string
  {
    if |s| >= width then s else seq(width - |s|, _ => fill) + s
  }

  predicate StartsWith(s: string, prefix: string) {
    |prefix| <= |s| && s[..|prefix|] == prefix
  }

  predicate EndsWith(s: string, suffix: string) {
    |suffix| <= |s| && s[|s| - |suffix|..] == suffix
  }
}
