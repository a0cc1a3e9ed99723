/**
 * The parts of Go's `strings`, `unicode` and `strconv` packages the core relies on:
 * white space, `TrimSpace`, `Fields`, `Join`, `Contains`, `ToLower` (ASCII letters only),
 * decimal digits, and the byte-wise order in which SQLite compares TEXT values.
 */
module Text {

  // ----- white space -----

  /** Go's `unicode.IsSpace`: the Unicode White_Space characters. */
  predicate IsSpace(c: char) {
    ('\t' <= c <= '\r') || c == ' ' || c == '\U{0085}' || c == '\U{00A0}' || c == '\U{1680}'
    || ('\U{2000}' <= c <= '\U{200A}') || c == '\U{2028}' || c == '\U{2029}' || c == '\U{202F}'
    || c == '\U{205F}' || c == '\U{3000}'
  }

  predicate AllSpace(s: string) {
    forall i :: 0 <= i < |s| ==> IsSpace(s[i])
  }

  predicate NoSpace(s: string) {
    forall i :: 0 <= i < |s| ==> !IsSpace(s[i])
  }

  /** Drops the leading white space: what is removed is all space, what is kept starts with a non-space. */
  function TrimLeft(s: string): (r: string)
    ensures |r| <= |s| && r == s[|s| - |r|..]
    ensures AllSpace(s[..|s| - |r|])
    ensures r == [] || !IsSpace(r[0])
  {
    if s != [] && IsSpace(s[0]) then
      var r := TrimLeft(s[1..]);
      var k := |s| - |r|;
      assert s[..k] == [s[0]] + s[1..][..k - 1];
      AllSpaceAppend([s[0]], s[1..][..k - 1]);
      assert s[1..][k - 1..] == s[k..];
      r
    else s
  }

  /** Drops the trailing white space: what is removed is all space, what is kept ends with a non-space. */
  function TrimRight(s: string): (r: string)
    ensures |r| <= |s| && r == s[..|r|]
    ensures AllSpace(s[|r|..])
    ensures r == [] || !IsSpace(r[|r| - 1])
  {
    if s != [] && IsSpace(s[|s| - 1]) then
      var t := s[..|s| - 1];
      var r := TrimRight(t);
      assert s[|r|..] == t[|r|..] + [s[|s| - 1]];
      AllSpaceAppend(t[|r|..], [s[|s| - 1]]);
      assert t[..|r|] == s[..|r|];
      r
    else s
  }

  /** Go's `strings.TrimSpace`. */
  function TrimSpace(s: string): (r: string) {
    TrimRight(TrimLeft(s))
  }

  lemma {:induction false} TrimLeftAfterSpace(w: string, s: string)
    requires AllSpace(w)
    ensures TrimLeft(w + s) == TrimLeft(s)
  {
    if w != [] {
      assert (w + s)[1..] == w[1..] + s;
      TrimLeftAfterSpace(w[1..], s);
    } else {
      assert w + s == s;
    }
  }

  lemma {:induction false} TrimRightBeforeSpace(s: string, w: string)
    requires AllSpace(w)
    ensures TrimRight(s + w) == TrimRight(s)
  {
    if w != [] {
      assert (s + w)[..|s + w| - 1] == s + w[..|w| - 1];
      TrimRightBeforeSpace(s, w[..|w| - 1]);
    } else {
      assert s + w == s;
    }
  }

  lemma {:induction false} AllSpaceAppend(a: string, b: string)
    ensures AllSpace(a + b) <==> AllSpace(a) && AllSpace(b)
  {
    if AllSpace(a + b) {
      forall i | 0 <= i < |a| ensures IsSpace(a[i]) {
        assert a[i] == (a + b)[i];
      }
      forall i | 0 <= i < |b| ensures IsSpace(b[i]) {
        assert b[i] == (a + b)[|a| + i];
      }
    }
  }

  lemma {:induction false} AllSpaceCons(s: string)
    requires s != []
    ensures AllSpace(s) <==> IsSpace(s[0]) && AllSpace(s[1..])
  {
    if IsSpace(s[0]) && AllSpace(s[1..]) {
      forall i | 0 <= i < |s| ensures IsSpace(s[i]) {
        if i > 0 {
          assert s[i] == s[1..][i - 1];
        }
      }
    }
  }

  lemma {:induction false} TrimLeftAppend(s: string, w: string)
    ensures TrimLeft(s + w) == if AllSpace(s) then TrimLeft(w) else TrimLeft(s) + w
  {
    if s == [] {
      assert s + w == w;
    } else if IsSpace(s[0]) {
      assert (s + w)[1..] == s[1..] + w;
      TrimLeftAppend(s[1..], w);
      AllSpaceCons(s);
      assert TrimLeft(s + w) == TrimLeft(s[1..] + w);
      assert TrimLeft(s) == TrimLeft(s[1..]);
    } else {
      assert !AllSpace(s);
    }
  }

  /** Text that starts and ends with a non-space is its own `TrimSpace`. */
  lemma {:induction false} TrimSpaceOfTrimmed(s: string)
    requires s != [] && !IsSpace(s[0]) && !IsSpace(s[|s| - 1])
    ensures TrimSpace(s) == s
  {
    assert TrimLeft(s) == s;
  }

  /** `TrimLeft` leaves nothing exactly when the text is all white space. */
  lemma {:induction false} TrimLeftEmptyIffAllSpace(s: string)
    ensures TrimLeft(s) == [] <==> AllSpace(s)
  {
    if s != [] && IsSpace(s[0]) {
      TrimLeftEmptyIffAllSpace(s[1..]);
      assert AllSpace(s) == AllSpace(s[1..]);
    }
  }

  /** White space around the input never changes what `TrimSpace` returns. */
  lemma {:induction false} TrimSpaceIgnoresPadding(w1: string, s: string, w2: string)
    requires AllSpace(w1) && AllSpace(w2)
    ensures TrimSpace(w1 + s + w2) == TrimSpace(s)
  {
    assert w1 + s + w2 == w1 + (s + w2);
    TrimLeftAfterSpace(w1, s + w2);
    TrimLeftAppend(s, w2);
    if AllSpace(s) {
      TrimLeftEmptyIffAllSpace(w2);
      TrimLeftEmptyIffAllSpace(s);
    } else {
      TrimRightBeforeSpace(TrimLeft(s), w2);
    }
  }

  // ----- fields -----

  /** Length of the leading run of non-space characters. */
  function WordLength(s: string): (k: nat)
    ensures k <= |s|
    ensures NoSpace(s[..k])
    ensures k == |s| || IsSpace(s[k])
  {
    if s == [] || IsSpace(s[0]) then 0 else 1 + WordLength(s[1..])
  }

  /** Every element is a non-empty run of non-space characters, as `Fields` produces. */
  predicate Words(xs: seq<string>) {
    forall i :: 0 <= i < |xs| ==> xs[i] != [] && NoSpace(xs[i])
  }

  lemma {:induction false} WordsCons(x: string, ys: seq<string>)
    requires x != [] && NoSpace(x) && Words(ys)
    ensures Words([x] + ys)
  {
    forall i | 0 <= i < |[x] + ys| ensures ([x] + ys)[i] != [] && NoSpace(([x] + ys)[i]) {
      if i > 0 {
        assert ([x] + ys)[i] == ys[i - 1];
      }
    }
  }

  /** Go's `strings.Fields`: the maximal runs of non-space characters, in order. */
  function Fields(s: string): seq<string>
    decreases |s|
  {
    var t := TrimLeft(s);
    if t == [] then []
    else
      var k := WordLength(t);
      [t[..k]] + Fields(t[k..])
  }

  /** Every field is a non-empty run of non-space characters. */
  lemma {:induction false} FieldsAreWords(s: string)
    ensures Words(Fields(s))
    decreases |s|
  {
    var t := TrimLeft(s);
    if t != [] {
      var k := WordLength(t);
      FieldsAreWords(t[k..]);
      WordsCons(t[..k], Fields(t[k..]));
    }
  }

  lemma {:induction false} FieldsAfterSpace(w: string, s: string)
    requires AllSpace(w)
    ensures Fields(w + s) == Fields(s)
  {
    TrimLeftAfterSpace(w, s);
  }

  /** `Fields` finds nothing exactly when the text is all white space. */
  lemma {:induction false} FieldsEmptyIffAllSpace(s: string)
    ensures Fields(s) == [] <==> AllSpace(s)
  {
    TrimLeftEmptyIffAllSpace(s);
  }

  /** The first step of `Fields`: skip the leading space, cut off one word. */
  lemma {:induction false} FieldsStep(s: string)
    requires TrimLeft(s) != []
    ensures var t := TrimLeft(s); var k := WordLength(t);
      0 < k && Fields(s) == [t[..k]] + Fields(t[k..])
  {
  }

  /** The characters outside white space, in order. */
  function NonSpace(s: string): (r: string) {
    if s == [] then [] else if IsSpace(s[0]) then NonSpace(s[1..]) else [s[0]] + NonSpace(s[1..])
  }

  function Concat(xs: seq<string>): string {
    if xs == [] then [] else xs[0] + Concat(xs[1..])
  }

  lemma {:induction false} NonSpaceAppend(a: string, b: string)
    ensures NonSpace(a + b) == NonSpace(a) + NonSpace(b)
  {
    if a == [] {
      assert a + b == b;
    } else {
      assert (a + b)[1..] == a[1..] + b;
      NonSpaceAppend(a[1..], b);
    }
  }

  lemma {:induction false} NonSpaceOfSpace(w: string)
    requires AllSpace(w)
    ensures NonSpace(w) == []
  {
    if w != [] { NonSpaceOfSpace(w[1..]); }
  }

  lemma {:induction false} NonSpaceOfWord(w: string)
    requires NoSpace(w)
    ensures NonSpace(w) == w
  {
    if w != [] { NonSpaceOfWord(w[1..]); }
  }

  lemma {:induction false} ConcatCons(x: string, ys: seq<string>)
    ensures Concat([x] + ys) == x + Concat(ys)
  {
    assert ([x] + ys)[1..] == ys;
  }

  lemma {:induction false} NonSpaceSkipsLeading(s: string)
    ensures NonSpace(s) == NonSpace(TrimLeft(s))
  {
    var t := TrimLeft(s);
    var w := s[..|s| - |t|];
    assert s == w + t;
    NonSpaceAppend(w, t);
    NonSpaceOfSpace(w);
  }

  lemma {:induction false} NonSpaceAfterWord(word: string, rest: string)
    requires NoSpace(word)
    ensures NonSpace(word + rest) == word + NonSpace(rest)
  {
    NonSpaceAppend(word, rest);
    NonSpaceOfWord(word);
  }

  lemma {:induction false} SplitAt(s: string, k: nat)
    requires k <= |s|
    ensures s == s[..k] + s[k..]
  {
  }

  /** The first word of the trimmed text comes first among the non-space characters. */
  lemma {:induction false} NonSpaceStep(s: string)
    requires TrimLeft(s) != []
    ensures var t := TrimLeft(s); var k := WordLength(t);
      NonSpace(s) == t[..k] + NonSpace(t[k..])
  {
    var t := TrimLeft(s);
    var k := WordLength(t);
    NonSpaceSkipsLeading(s);
    SplitAt(t, k);
    assert NonSpace(t) == NonSpace(t[..k] + t[k..]);
    NonSpaceAfterWord(t[..k], t[k..]);
  }

  /** `Fields` loses only white space: its fields, put together, are the input without its spaces. */
  lemma {:induction false} FieldsKeepAllNonSpace(s: string)
    ensures Concat(Fields(s)) == NonSpace(s)
    decreases |s|
  {
    var t := TrimLeft(s);
    if t == [] {
      NonSpaceSkipsLeading(s);
      TrimLeftEmptyIffAllSpace(s);
    } else {
      var k := WordLength(t);
      FieldsStep(s);
      NonSpaceStep(s);
      FieldsKeepAllNonSpace(t[k..]);
      ConcatCons(t[..k], Fields(t[k..]));
    }
  }

  /** Go's `strings.Join`. */
  function Join(xs: seq<string>, sep: string): string {
    if |xs| == 0 then "" else if |xs| == 1 then xs[0] else xs[0] + sep + Join(xs[1..], sep)
  }

  /** A word followed by space (or nothing) is the first field. */
  lemma {:induction false} FieldsOfWordThen(x: string, tail: string)
    requires x != [] && NoSpace(x)
    requires tail == [] || IsSpace(tail[0])
    ensures Fields(x + tail) == [x] + Fields(tail)
  {
    var s := x + tail;
    TrimLeftAppend(x, tail);
    assert TrimLeft(s) == s;
    WordLengthOfWord(x, tail);
    FieldsStep(s);
    assert s[..|x|] == x && s[|x|..] == tail;
  }

  lemma {:induction false} WordsTail(xs: seq<string>)
    requires xs != [] && Words(xs)
    ensures Words(xs[1..])
  {
    forall i | 0 <= i < |xs| - 1 ensures xs[1..][i] != [] && NoSpace(xs[1..][i]) {
      assert xs[1..][i] == xs[i + 1];
    }
  }

  lemma {:induction false} JoinCons(x: string, ys: seq<string>, sep: string)
    requires ys != []
    ensures Join([x] + ys, sep) == x + (sep + Join(ys, sep))
  {
    assert ([x] + ys)[1..] == ys;
  }

  lemma {:induction false} FieldsOfWordSpace(x: string, rest: string)
    requires x != [] && NoSpace(x)
    ensures Fields(x + (" " + rest)) == [x] + Fields(rest)
  {
    var tail := " " + rest;
    FieldsAfterOneSpace(rest);
    assert tail[0] == ' ';
    FieldsOfWordThen(x, tail);
    assert Fields(tail) == Fields(rest);
  }

  lemma {:induction false} FieldsAfterOneSpace(rest: string)
    ensures Fields(" " + rest) == Fields(rest)
  {
    assert AllSpace(" ");
    FieldsAfterSpace(" ", rest);
  }

  lemma {:induction false} FieldsOfJoin(xs: seq<string>)
    requires Words(xs)
    ensures Fields(Join(xs, " ")) == xs
  {
    if |xs| == 1 {
      FieldsOfWordThen(xs[0], []);
      assert xs[0] + [] == xs[0];
    } else if |xs| > 1 {
      var j1 := Join(xs[1..], " ");
      assert xs == [xs[0]] + xs[1..];
      JoinCons(xs[0], xs[1..], " ");
      assert Join(xs, " ") == xs[0] + (" " + j1);
      FieldsOfWordSpace(xs[0], j1);
      WordsTail(xs);
      FieldsOfJoin(xs[1..]);
      assert Fields(Join(xs, " ")) == [xs[0]] + Fields(j1);
    }
  }

  lemma {:induction false} WordLengthOfWord(w: string, tail: string)
    requires NoSpace(w)
    requires tail == [] || IsSpace(tail[0])
    ensures WordLength(w + tail) == |w|
  {
    if w != [] {
      assert (w + tail)[1..] == w[1..] + tail;
      WordLengthOfWord(w[1..], tail);
    } else {
      assert w + tail == tail;
    }
  }

  // ----- search and case -----

  /** Go's `strings.Contains`. */
  predicate Contains(s: string, sub: string)
    decreases |s|
  {
    sub <= s || (s != [] && Contains(s[1..], sub))
  }

  lemma {:induction false} ContainsInside(a: string, sub: string, b: string)
    ensures Contains(a + sub + b, sub)
  {
    if a == [] {
      assert a + sub + b == sub + b;
    } else {
      assert (a + sub + b)[1..] == a[1..] + sub + b;
      ContainsInside(a[1..], sub, b);
    }
  }

  function LowerChar(c: char): char {
    if 'A' <= c <= 'Z' then (c as int + 32) as char else c
  }

  predicate IsLower(s: string) {
    forall i :: 0 <= i < |s| ==> !('A' <= s[i] <= 'Z')
  }

  /** Go's `strings.ToLower`, for the ASCII letters: every character is mapped on its own. */
  function Lower(s: string): (r: string)
    ensures |r| == |s|
    ensures forall i :: 0 <= i < |s| ==> r[i] == LowerChar(s[i])
    ensures IsLower(r)
  {
    if s == [] then [] else [LowerChar(s[0])] + Lower(s[1..])
  }

  /** Lower-casing twice is lower-casing once. */
  lemma {:induction false} LowerIdempotent(s: string)
    ensures Lower(Lower(s)) == Lower(s)
  {
    LowerKeepsLower(Lower(s));
  }

  /** Text that is already lower case is left alone. */
  lemma {:induction false} LowerKeepsLower(s: string)
    requires IsLower(s)
    ensures Lower(s) == s
  {
    var r := Lower(s);
    forall i | 0 <= i < |s| ensures r[i] == s[i] {
      assert !('A' <= s[i] <= 'Z');
    }
  }

  // ----- order of TEXT values -----

  /**
   * SQLite's BINARY collation: memcmp of the UTF-8 bytes, then length. UTF-8 preserves
   * code-point order, so on characters this is the lexicographic order by code point.
   */
  predicate StrLess(a: string, b: string)
  {
    if a == [] then b != []
    else if b == [] then false
    else if a[0] != b[0] then a[0] < b[0]
    else StrLess(a[1..], b[1..])
  }

  lemma {:induction false} StrLessIrreflexive(a: string)
    ensures !StrLess(a, a)
  {
    if a != [] { StrLessIrreflexive(a[1..]); }
  }

  lemma {:induction false} StrLessAsymmetric(a: string, b: string)
    requires StrLess(a, b)
    ensures !StrLess(b, a)
  {
    if a != [] && b != [] && a[0] == b[0] { StrLessAsymmetric(a[1..], b[1..]); }
  }

  lemma {:induction false} StrLessTransitive(a: string, b: string, c: string)
    requires StrLess(a, b) && StrLess(b, c)
    ensures StrLess(a, c)
  {
    if a != [] && b != [] && c != [] && a[0] == b[0] && b[0] == c[0] {
      StrLessTransitive(a[1..], b[1..], c[1..]);
    }
  }

  lemma {:induction false} StrLessTotal(a: string, b: string)
    ensures StrLess(a, b) || a == b || StrLess(b, a)
  {
    if a != [] && b != [] && a[0] == b[0] {
      StrLessTotal(a[1..], b[1..]);
      if a[1..] == b[1..] {
        assert a == [a[0]] + a[1..] && b == [b[0]] + b[1..];
      }
    }
  }

  /** Comparing two texts whose first parts have the same length compares those parts first. */
  lemma {:induction false} StrLessConcat(a1: string, b1: string, a2: string, b2: string)
    requires |a1| == |a2|
    ensures StrLess(a1 + b1, a2 + b2) <==> StrLess(a1, a2) || (a1 == a2 && StrLess(b1, b2))
  {
    if a1 == [] {
      assert a1 + b1 == b1 && a2 + b2 == b2;
    } else {
      assert (a1 + b1)[1..] == a1[1..] + b1 && (a2 + b2)[1..] == a2[1..] + b2;
      StrLessConcat(a1[1..], b1, a2[1..], b2);
      if a1[0] == a2[0] {
        assert a1 == [a1[0]] + a1[1..] && a2 == [a2[0]] + a2[1..];
      }
    }
  }

  // ----- decimal digits -----

  predicate IsDigit(c: char) {
    '0' <= c <= '9'
  }

  predicate AllDigits(s: string) {
    forall i :: 0 <= i < |s| ==> IsDigit(s[i])
  }

  function DigitChar(n: int): (c: char)
    requires 0 <= n < 10
    ensures IsDigit(c)
  {
    (48 + n) as char
  }

  function DigitValue(c: char): int
    requires IsDigit(c)
  {
    c as int - 48
  }

  /** The value of a digit string, most significant digit first (`strconv.Atoi` on digits). */
  function DigitsValue(s: string): (n: nat)
    requires AllDigits(s)
  {
    if s == [] then 0 else DigitsValue(s[..|s| - 1]) * 10 + DigitValue(s[|s| - 1])
  }

  function Pow10(n: nat): nat {
    if n == 0 then 1 else 10 * Pow10(n - 1)
  }

  /** A string of `k` digits has a value below `10^k`. */
  lemma {:induction false} DigitsValueBelow(s: string)
    requires AllDigits(s)
    ensures DigitsValue(s) < Pow10(|s|)
  {
    if s != [] {
      DigitsValueBelow(s[..|s| - 1]);
    }
  }

  /** Go's `%d` for a non-negative integer. */
  function NatToString(n: nat): (r: string)
    ensures r != [] && AllDigits(r)
    ensures n > 0 ==> r[0] != '0'
  {
    if n < 10 then [DigitChar(n)] else NatToString(n / 10) + [DigitChar(n % 10)]
  }

  /** Reading back the decimal text gives the number. */
  lemma {:induction false} NatToStringRoundTrip(n: nat)
    ensures DigitsValue(NatToString(n)) == n
  {
    if n >= 10 {
      var s := NatToString(n);
      assert s[..|s| - 1] == NatToString(n / 10);
      NatToStringRoundTrip(n / 10);
    }
  }

  /** Length of the leading run of digits. */
  function DigitRun(s: string): (k: nat)
    ensures k <= |s|
    ensures AllDigits(s[..k])
    ensures k == |s| || !IsDigit(s[k])
  {
    if s != [] && IsDigit(s[0]) then 1 + DigitRun(s[1..]) else 0
  }

  lemma {:induction false} DigitRunOfDigits(a: string, b: string)
    requires AllDigits(a)
    requires b == [] || !IsDigit(b[0])
    ensures DigitRun(a + b) == |a|
  {
    if a != [] {
      assert (a + b)[1..] == a[1..] + b;
      DigitRunOfDigits(a[1..], b);
    } else {
      assert a + b == b;
    }
  }
}
