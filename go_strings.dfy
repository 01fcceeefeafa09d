/** The parts of Go's `strings` and `strconv` packages the engine relies on:
    `strings.Split` and `strings.Join` with a one-byte separator,
    `strings.ReplaceAll`, `strconv.Itoa` and `strconv.Atoi` (base 10, 64-bit
    `int`).

    A Go string is a sequence of bytes, and `len`, indexing and slicing count
    bytes. A `string` here is that byte sequence: each `char` stands for one
    byte (its code, 0 to 255), so a non-ASCII character of a name or a file
    is the several `char`s of its UTF-8 bytes. Every operation compares bytes
    one at a time, as Go's do, so the definitions hold of any `seq<char>`. */
module GoStrings {
  import opened Wrappers

  /** `strings.Split(s, string(sep))`: the pieces between separators, in order.
      The empty string splits into one empty piece. */
  function Split(s: string, sep: char): (r: seq<string>)
    ensures |r| >= 1
    ensures sep in s ==> |r| >= 2
    ensures forall k :: 0 <= k < |r| ==> sep !in r[k]
    ensures |r[0]| <= |s| && r[0] == s[..|r[0]|]
  {
    if |s| == 0 then [""]
    else
      var rest := Split(s[1..], sep);
      if s[0] == sep then [""] + rest
      else [[s[0]] + rest[0]] + rest[1..]
  }

  /** `strings.Join(xs, string(sep))`. */
  function Join(xs: seq<string>, sep: char): string
  {
    if |xs| == 0 then ""
    else if |xs| == 1 then xs[0]
    else xs[0] + [sep] + Join(xs[1..], sep)
  }

  function CountChar(s: string, c: char): nat
  {
    if |s| == 0 then 0 else (if s[0] == c then 1 else 0) + CountChar(s[1..], c)
  }

  lemma JoinCons(x: string, xs: seq<string>, sep: char)
    requires |xs| >= 1
    ensures Join([x] + xs, sep) == x + [sep] + Join(xs, sep)
  {
    assert ([x] + xs)[1..] == xs;
  }

  /** Joining the pieces of a split gives back the original string. */
  lemma {:induction false} JoinSplit(s: string, sep: char)
    ensures Join(Split(s, sep), sep) == s
  {
    if |s| > 0 {
      var rest := Split(s[1..], sep);
      JoinSplit(s[1..], sep);
      if s[0] == sep {
        JoinCons("", rest, sep);
        assert s == [sep] + s[1..];
      } else if |rest| == 1 {
        assert Split(s, sep) == [[s[0]] + rest[0]];
        assert s == [s[0]] + s[1..];
      } else {
        var head := [s[0]] + rest[0];
        assert Split(s, sep) == [head] + rest[1..];
        JoinCons(head, rest[1..], sep);
        JoinCons(rest[0], rest[1..], sep);
        assert rest == [rest[0]] + rest[1..];
        assert s == [s[0]] + s[1..];
      }
    }
  }

  /** A string without the separator is a single piece. */
  lemma {:induction false} SplitNoSep(x: string, sep: char)
    requires sep !in x
    ensures Split(x, sep) == [x]
  {
    if |x| > 0 {
      SplitNoSep(x[1..], sep);
      assert [x[0]] + x[1..] == x;
    }
  }

  /** Splitting `x + sep + rest`, where `x` has no separator, yields `x` first. */
  lemma {:induction false} SplitAfterPiece(x: string, rest: string, sep: char)
    requires sep !in x
    ensures Split(x + [sep] + rest, sep) == [x] + Split(rest, sep)
  {
    if |x| == 0 {
      assert x + [sep] + rest == [sep] + rest;
      assert ([sep] + rest)[1..] == rest;
    } else {
      var s := x + [sep] + rest;
      assert s[1..] == x[1..] + [sep] + rest;
      SplitAfterPiece(x[1..], rest, sep);
      assert [x[0]] + x[1..] == x;
    }
  }

  /** Splitting a join gives back the pieces, provided no piece holds the
      separator and there is at least one piece. */
  lemma {:induction false} SplitJoin(xs: seq<string>, sep: char)
    requires |xs| >= 1
    requires forall k :: 0 <= k < |xs| ==> sep !in xs[k]
    ensures Split(Join(xs, sep), sep) == xs
  {
    if |xs| == 1 {
      SplitNoSep(xs[0], sep);
    } else {
      SplitJoin(xs[1..], sep);
      SplitAfterPiece(xs[0], Join(xs[1..], sep), sep);
      assert [xs[0]] + xs[1..] == xs;
    }
  }

  /** The number of pieces is one more than the number of separators. */
  lemma {:induction false} SplitCount(s: string, sep: char)
    ensures |Split(s, sep)| == CountChar(s, sep) + 1
  {
    if |s| > 0 {
      SplitCount(s[1..], sep);
    }
  }

  /** Joining one more piece appends a separator and that piece. */
  lemma {:induction false} JoinSnoc(xs: seq<string>, y: string, sep: char)
    requires |xs| >= 1
    ensures Join(xs + [y], sep) == Join(xs, sep) + [sep] + y
  {
    if |xs| == 1 {
      assert (xs + [y])[1..] == [y];
    } else {
      assert (xs + [y])[1..] == xs[1..] + [y];
      JoinSnoc(xs[1..], y, sep);
    }
  }

  /** A trailing separator ends the split with one empty piece. */
  lemma {:induction false} SplitSnocSep(x: string, sep: char)
    ensures Split(x + [sep], sep) == Split(x, sep) + [""]
  {
    if |x| == 0 {
      assert x + [sep] == [sep];
      assert [sep][1..] == [];
    } else {
      assert (x + [sep])[1..] == x[1..] + [sep];
      SplitSnocSep(x[1..], sep);
    }
  }

  lemma {:induction false} CountCharConcat(s: string, t: string, c: char)
    ensures CountChar(s + t, c) == CountChar(s, c) + CountChar(t, c)
  {
    if |s| > 0 {
      assert (s + t)[1..] == s[1..] + t;
      CountCharConcat(s[1..], t, c);
    } else {
      assert s + t == t;
    }
  }

  // ---------------------------------------------------------------- Itoa and Atoi

  const MinInt: int := -0x8000_0000_0000_0000
  const MaxInt: int := 0x7fff_ffff_ffff_ffff

  predicate IsDigit(c: char) { '0' <= c <= '9' }

  predicate AllDigits(s: string) { forall k :: 0 <= k < |s| ==> IsDigit(s[k]) }

  function DigitChar(d: int): (c: char)
    requires 0 <= d < 10
    ensures IsDigit(c) && c as int - '0' as int == d
  {
    ('0' as int + d) as char
  }

  /** Decimal digits of a natural number, most significant first, no leading zeros. */
  function NatToString(n: nat): (s: string)
    ensures |s| >= 1 && AllDigits(s)
  {
    if n < 10 then [DigitChar(n)] else NatToString(n / 10) + [DigitChar(n % 10)]
  }

  /** `strconv.Itoa`, also what `fmt.Sprint` prints for an `int`. */
  function Itoa(n: int): string
  {
    if n < 0 then "-" + NatToString(-n) else NatToString(n)
  }

  /** Value of a string of decimal digits. */
  function DigitsValue(s: string): nat
    requires AllDigits(s)
  {
    if |s| == 0 then 0
    else DigitsValue(s[..|s| - 1]) * 10 + (s[|s| - 1] as int - '0' as int)
  }

  /** `strconv.Atoi`: an optional `+` or `-`, then at least one decimal digit,
      and the value must fit a 64-bit `int`; anything else is an error. */
  function Atoi(s: string): Option<int>
  {
    if |s| == 0 then None
    else
      var digits := if s[0] == '-' || s[0] == '+' then s[1..] else s;
      if |digits| == 0 || !AllDigits(digits) then None
      else
        var v: int := if s[0] == '-' then -(DigitsValue(digits) as int) else DigitsValue(digits);
        if MinInt <= v <= MaxInt then Some(v) else None
  }

  lemma {:induction false} DigitsOfNat(n: nat)
    ensures DigitsValue(NatToString(n)) == n
  {
    if n >= 10 {
      DigitsOfNat(n / 10);
      var s := NatToString(n);
      assert s[..|s| - 1] == NatToString(n / 10);
    }
  }

  /** Atoi reads back what Itoa printed, for every 64-bit value. */
  lemma AtoiItoa(n: int)
    requires MinInt <= n <= MaxInt
    ensures Atoi(Itoa(n)) == Some(n)
  {
    var s := Itoa(n);
    if n < 0 {
      var t := NatToString(-n);
      DigitsOfNat(-n);
      assert s == "-" + t && s[0] == '-' && s[1..] == t;
      assert DigitsValue(t) == -n;
    } else {
      DigitsOfNat(n);
      assert IsDigit(s[0]);
      assert s[0] != '-' && s[0] != '+';
    }
  }

  /** A number Atoi reads from text that does not start with `-` is not negative. */
  lemma AtoiNoMinus(s: string)
    requires Atoi(s).Some? && s[0] != '-'
    ensures Atoi(s).value >= 0
  {
  }

  lemma ItoaChars(n: int)
    ensures |Itoa(n)| >= 1
    ensures forall k :: 0 <= k < |Itoa(n)| ==> IsDigit(Itoa(n)[k]) || (k == 0 && n < 0 && Itoa(n)[k] == '-')
    ensures n >= 0 ==> AllDigits(Itoa(n))
  {
  }

  // ---------------------------------------------------------------- ReplaceAll

  /** `strings.ReplaceAll(s, pat, rep)` for a non-empty pattern `pat`: every
      non-overlapping occurrence, scanning left to right, is replaced. */
  function ReplaceAll(s: string, pat: string, rep: string): string
    requires |pat| > 0
    decreases |s|
  {
    if |s| < |pat| then s
    else if s[..|pat|] == pat then rep + ReplaceAll(s[|pat|..], pat, rep)
    else [s[0]] + ReplaceAll(s[1..], pat, rep)
  }

  /** `sub` occurs somewhere in `s`. */
  predicate Occurs(sub: string, s: string)
    decreases |s|
  {
    |sub| <= |s| && (s[..|sub|] == sub || (|s| > 0 && Occurs(sub, s[1..])))
  }

  lemma {:induction false} ReplaceAllAbsent(s: string, pat: string, rep: string)
    requires |pat| > 0 && !Occurs(pat, s)
    ensures ReplaceAll(s, pat, rep) == s
    decreases |s|
  {
    if |s| >= |pat| {
      ReplaceAllAbsent(s[1..], pat, rep);
      assert [s[0]] + s[1..] == s;
    }
  }

  /** Replacing an index at the front of a name rewrites that front, and
      rewrites the rest of the name in the same way. */
  lemma ReplaceAllPrefix(pat: string, rest: string, rep: string)
    requires |pat| > 0
    ensures ReplaceAll(pat + rest, pat, rep) == rep + ReplaceAll(rest, pat, rep)
  {
    var s := pat + rest;
    assert s[..|pat|] == pat;
    assert s[|pat|..] == rest;
  }

  /** A character that cannot start the pattern is copied unchanged. */
  lemma ReplaceAllSkip(c: char, rest: string, pat: string, rep: string)
    requires |pat| > 0 && c != pat[0]
    ensures ReplaceAll([c] + rest, pat, rep) == [c] + ReplaceAll(rest, pat, rep)
  {
    var s := [c] + rest;
    assert s[1..] == rest;
    if |s| >= |pat| {
      assert s[..|pat|][0] == c;
    }
  }

  /** A one-character pattern occurs only where that character does. */
  lemma {:induction false} CharAbsent(c: char, s: string)
    requires c !in s
    ensures !Occurs([c], s)
    decreases |s|
  {
    if |s| > 0 {
      assert s[..1] == [s[0]];
      CharAbsent(c, s[1..]);
    }
  }

  /** Text none of whose characters can start the pattern is copied unchanged. */
  lemma {:induction false} ReplaceAllNoStart(s: string, t: string, pat: string, rep: string)
    requires |pat| > 0 && forall k :: 0 <= k < |s| ==> s[k] != pat[0]
    ensures ReplaceAll(s + t, pat, rep) == s + ReplaceAll(t, pat, rep)
    decreases |s|
  {
    if |s| > 0 {
      var u := s[1..];
      assert forall k :: 0 <= k < |u| ==> u[k] == s[k + 1];
      ReplaceAllNoStart(u, t, pat, rep);
      assert s + t == [s[0]] + (u + t);
      ReplaceAllSkip(s[0], u + t, pat, rep);
      assert [s[0]] + (u + ReplaceAll(t, pat, rep)) == s + ReplaceAll(t, pat, rep);
    } else {
      assert s + t == t;
    }
  }

  /** A copy of the pattern followed by text that cannot start another one
      is replaced, and the text is kept. */
  lemma ReplaceOnce(pat: string, mid: string, rest: string, rep: string)
    requires |pat| > 0
    requires forall k :: 0 <= k < |mid| ==> mid[k] != pat[0]
    ensures ReplaceAll(pat + mid + rest, pat, rep) == rep + mid + ReplaceAll(rest, pat, rep)
  {
    assert pat + mid + rest == pat + (mid + rest);
    ReplaceAllPrefix(pat, mid + rest, rep);
    ReplaceAllNoStart(mid, rest, pat, rep);
  }

  /** Both copies of the pattern in `pat + mid + pat + tail` are replaced
      when nothing in between can start another one. */
  lemma ReplaceTwice(pat: string, mid: string, tail: string, rep: string)
    requires |pat| > 0
    requires forall k :: 0 <= k < |mid| ==> mid[k] != pat[0]
    requires forall k :: 0 <= k < |tail| ==> tail[k] != pat[0]
    ensures ReplaceAll(pat + mid + pat + tail, pat, rep) == rep + mid + rep + tail
  {
    ReplaceOnce(pat, mid, pat + tail, rep);
    ReplaceOnce(pat, tail, [], rep);
    assert pat + mid + (pat + tail) == pat + mid + pat + tail;
    assert pat + tail + [] == pat + tail;
    assert ReplaceAll([], pat, rep) == [];
    assert rep + mid + (rep + tail + []) == rep + mid + rep + tail;
  }
}
