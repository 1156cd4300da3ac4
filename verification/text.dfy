/** The text conventions of the persisted files: `std::to_string` and
    `std::stoi` on 32-bit `int`, and the comma-separated fields that
    `std::getline(ss, field, ',')` returns one call at a time. */
module Text {
  import opened Wrappers

  const IntMin: int := -0x8000_0000
  const IntMax: int := 0x7fff_ffff

  /** Values that fit the C++ `int` of the programs. */
  predicate InInt32(v: int) {
    IntMin <= v <= IntMax
  }

  /** The characters `isspace` accepts in the C locale. */
  predicate IsSpace(c: char) {
    c == ' ' || c == '\t' || c == '\n' || c == '\r' || c == '\U{0B}' || c == '\U{0C}'
  }

  predicate IsDigit(c: char) {
    '0' <= c <= '9'
  }

  predicate AllDigits(s: string) {
    forall i :: 0 <= i < |s| ==> IsDigit(s[i])
  }

  function DigitValue(c: char): nat
    requires IsDigit(c)
  {
    (c as int) - ('0' as int)
  }

  function DigitChar(d: nat): (c: char)
    requires d < 10
    ensures IsDigit(c) && DigitValue(c) == d
  {
    (('0' as int) + d) as char
  }

  /** The leading white space `std::stoi` skips. */
  function DropSpaces(s: string): (t: string)
    ensures |t| <= |s|
    ensures t == [] || !IsSpace(t[0])
  {
    if s != [] && IsSpace(s[0]) then DropSpaces(s[1..]) else s
  }

  /** Length of the longest all-digit prefix of `s`. */
  function DigitRun(s: string): (k: nat)
    ensures k <= |s| && AllDigits(s[..k])
    ensures k < |s| ==> !IsDigit(s[k])
  {
    if s != [] && IsDigit(s[0]) then 1 + DigitRun(s[1..]) else 0
  }

  /** The number a string of decimal digits denotes. */
  function DigitsValue(ds: string): nat
    requires AllDigits(ds)
  {
    if ds == [] then 0
    else DigitsValue(ds[..|ds| - 1]) * 10 + DigitValue(ds[|ds| - 1])
  }

  /** `std::stoi(s)` in base 10: white space, an optional sign and at least
      one digit; characters after the digits are ignored. `None` stands for
      the `invalid_argument` (no digits) and `out_of_range` (outside `int`)
      exceptions. */
  function Stoi(s: string): (r: Option<int>)
    ensures r.Some? ==> InInt32(r.value)
  {
    var t := DropSpaces(s);
    var negative := |t| > 0 && t[0] == '-';
    var u := if |t| > 0 && (t[0] == '-' || t[0] == '+') then t[1..] else t;
    var k := DigitRun(u);
    if k == 0 then None
    else
      var magnitude := DigitsValue(u[..k]);
      Int32Of(if negative then -(magnitude as int) else magnitude)
  }

  /** A value that fits an `int`; `None` for the `out_of_range` case. */
  function Int32Of(v: int): Option<int> {
    if InInt32(v) then Some(v) else None
  }

  /** Decimal digits of a natural number, most significant first. */
  function NatDigits(n: nat): (s: string)
    ensures |s| > 0 && AllDigits(s)
  {
    if n < 10 then [DigitChar(n)] else NatDigits(n / 10) + [DigitChar(n % 10)]
  }

  /** `std::to_string` of an integer. */
  function ToDecimal(n: int): (s: string)
    ensures |s| > 0
  {
    if n < 0 then "-" + NatDigits(-n) else NatDigits(n)
  }

  lemma {:induction false} NatDigitsValue(n: nat)
    ensures DigitsValue(NatDigits(n)) == n
  {
    if n >= 10 {
      var s := NatDigits(n);
      NatDigitsValue(n / 10);
      assert s[..|s| - 1] == NatDigits(n / 10);
    }
  }

  lemma DigitRunAll(s: string)
    requires AllDigits(s)
    ensures DigitRun(s) == |s|
  {
  }

  /** A string of digits reads as its value when that fits an `int`. */
  lemma StoiOfDigits(ds: string)
    requires |ds| > 0 && AllDigits(ds)
    ensures Stoi(ds) == Int32Of(DigitsValue(ds))
  {
    assert !IsSpace(ds[0]) && ds[0] != '-' && ds[0] != '+';
    assert DropSpaces(ds) == ds;
    DigitRunAll(ds);
    assert ds[..DigitRun(ds)] == ds;
  }

  /** A minus sign then digits, with no white space ahead, reads as minus
      their value when that fits an `int`. */
  lemma StoiOfNegated(s: string, ds: string)
    requires |ds| > 0 && AllDigits(ds)
    requires DropSpaces(s) == s && |s| > 0 && s[0] == '-' && s[1..] == ds
    ensures Stoi(s) == Int32Of(-(DigitsValue(ds) as int))
  {
    DigitRunAll(ds);
    assert ds[..|ds|] == ds;
  }

  /** Reading back what `std::to_string` wrote gives the same `int`. */
  lemma StoiToDecimal(n: int)
    requires InInt32(n)
    ensures Stoi(ToDecimal(n)) == Some(n)
  {
    var m: nat := if n < 0 then -n else n;
    NatDigitsValue(m);
    if n < 0 {
      var s := ToDecimal(n);
      assert s[0] == '-' && s[1..] == NatDigits(m);
      assert DropSpaces(s) == s;
      StoiOfNegated(s, NatDigits(m));
    } else {
      StoiOfDigits(NatDigits(m));
    }
  }

  /** `std::to_string` writes digits and at most a leading minus sign:
      no separator and no white space. */
  lemma ToDecimalPlain(n: int)
    ensures forall i :: 0 <= i < |ToDecimal(n)| ==> IsDigit(ToDecimal(n)[i]) || ToDecimal(n)[i] == '-'
  {
  }

  /** Index of the first `sep` in `s`, or `|s|` when there is none. */
  function SepIndex(s: string, sep: char): (k: nat)
    ensures k <= |s| && sep !in s[..k]
    ensures k < |s| ==> s[k] == sep
  {
    if s == [] || s[0] == sep then 0 else 1 + SepIndex(s[1..], sep)
  }

  /** The successive results of `std::getline(ss, part, sep)` on a stream
      holding `s`: each call returns the text up to the next `sep` and
      consumes it; a trailing `sep` does not start another part, and the
      call on an exhausted stream fails. */
  function Split(s: string, sep: char): (parts: seq<string>)
    ensures forall i :: 0 <= i < |parts| ==> sep !in parts[i]
    decreases |s|
  {
    if s == [] then []
    else
      var k := SepIndex(s, sep);
      if k == |s| then [s] else [s[..k]] + Split(s[k + 1..], sep)
  }

  /** The `j`-th call of `std::getline(ss, field, ',')` into a `field`
      declared fresh for the call; once the stream is exhausted the call
      fails and that fresh `field` stays empty. */
  function Field(s: string, j: nat): string {
    var fs := Split(s, ',');
    if j < |fs| then fs[j] else ""
  }

  /** Each part followed by `sep`, as the writers lay out a row of fields
      (`sep` is `','`), a file of lines (`'\n'`) or a row of weights (`' '`). */
  function Terminated(xs: seq<string>, sep: char): string
    decreases |xs|
  {
    if xs == [] then "" else xs[0] + [sep] + Terminated(xs[1..], sep)
  }

  lemma {:induction false} TerminatedAppend(xs: seq<string>, ys: seq<string>, sep: char)
    ensures Terminated(xs + ys, sep) == Terminated(xs, sep) + Terminated(ys, sep)
    decreases |xs|
  {
    if xs == [] {
      assert xs + ys == ys;
    } else {
      assert (xs + ys)[0] == xs[0];
      assert (xs + ys)[1..] == xs[1..] + ys;
      TerminatedAppend(xs[1..], ys, sep);
      calc {
        Terminated(xs + ys, sep);
        xs[0] + [sep] + Terminated(xs[1..] + ys, sep);
        xs[0] + [sep] + (Terminated(xs[1..], sep) + Terminated(ys, sep));
        (xs[0] + [sep] + Terminated(xs[1..], sep)) + Terminated(ys, sep);
      }
    }
  }

  /** Splitting what was written part by part gives back the parts. */
  lemma {:induction false} SplitTerminated(xs: seq<string>, sep: char)
    requires forall i :: 0 <= i < |xs| ==> sep !in xs[i]
    ensures Split(Terminated(xs, sep), sep) == xs
    decreases |xs|
  {
    if xs != [] {
      var s := Terminated(xs, sep);
      var rest := Terminated(xs[1..], sep);
      assert s == xs[0] + [sep] + rest;
      SepIndexOfPrefix(xs[0], rest, sep);
      assert s[..|xs[0]|] == xs[0];
      assert s[|xs[0]| + 1..] == rest;
      SplitTerminated(xs[1..], sep);
    }
  }

  lemma {:induction false} SepIndexOfPrefix(x: string, rest: string, sep: char)
    requires sep !in x
    ensures SepIndex(x + [sep] + rest, sep) == |x|
    decreases |x|
  {
    if x != [] {
      assert (x + [sep] + rest)[1..] == x[1..] + [sep] + rest;
      SepIndexOfPrefix(x[1..], rest, sep);
    }
  }

  /** Two fields joined by one comma split back into the two. */
  lemma SplitPair(a: string, b: string)
    requires ',' !in a && ',' !in b && b != []
    ensures Split(a + [','] + b, ',') == [a, b]
  {
    var s := a + [','] + b;
    SepIndexOfPrefix(a, b, ',');
    assert s[..|a|] == a && s[|a| + 1..] == b;
    assert b[..|b|] == b;
    assert SepIndex(b, ',') == |b|;
  }

  predicate Plain(s: string) {
    forall i :: 0 <= i < |s| ==> !IsSpace(s[i])
  }

  /** Length of the run of characters before the first white space. */
  function WordLength(s: string): (k: nat)
    ensures k <= |s| && Plain(s[..k])
    ensures k < |s| ==> IsSpace(s[k])
  {
    if s == [] || IsSpace(s[0]) then 0 else 1 + WordLength(s[1..])
  }

  /** The successive results of `fs >> word` on a stream holding `s`: the
      maximal runs of characters other than white space. */
  function Words(s: string): (ws: seq<string>)
    ensures forall i :: 0 <= i < |ws| ==> ws[i] != [] && Plain(ws[i])
    decreases |s|
  {
    var t := DropSpaces(s);
    if t == [] then []
    else
      var k := WordLength(t);
      [t[..k]] + Words(t[k..])
  }

  /** Reading back, word by word, nonempty words each written with a
      white-space separator after it gives the words. */
  lemma {:induction false} WordsOfTerminated(xs: seq<string>, sep: char)
    requires IsSpace(sep)
    requires forall i :: 0 <= i < |xs| ==> xs[i] != [] && Plain(xs[i])
    ensures Words(Terminated(xs, sep)) == xs
    decreases |xs|
  {
    if xs != [] {
      var rest := Terminated(xs[1..], sep);
      assert Words(rest) == xs[1..] by {
        assert forall i :: 0 <= i < |xs[1..]| ==> xs[1..][i] == xs[i + 1];
        WordsOfTerminated(xs[1..], sep);
      }
      assert Words(Terminated(xs, sep)) == [xs[0]] + Words(rest) by {
        assert Terminated(xs, sep) == xs[0] + [sep] + rest;
        WordsCons(xs[0], sep, rest);
      }
      HeadTail(xs);
    }
  }

  lemma HeadTail<T>(xs: seq<T>)
    requires xs != []
    ensures [xs[0]] + xs[1..] == xs
  {
  }

  /** A word, a white-space character, then the rest. */
  lemma WordsCons(x: string, sep: char, rest: string)
    requires IsSpace(sep) && x != [] && Plain(x)
    ensures Words(x + [sep] + rest) == [x] + Words(rest)
  {
    var s := x + [sep] + rest;
    assert !IsSpace(s[0]);
    assert DropSpaces(s) == s;
    WordLengthOfPrefix(x, sep, rest);
    assert s[..|x|] == x;
    assert s[|x|..] == [sep] + rest;
    WordsAfterSpace(sep, rest);
  }

  lemma {:induction false} WordLengthOfPrefix(x: string, sep: char, rest: string)
    requires Plain(x) && IsSpace(sep)
    ensures WordLength(x + [sep] + rest) == |x|
    decreases |x|
  {
    if x != [] {
      assert (x + [sep] + rest)[1..] == x[1..] + [sep] + rest;
      WordLengthOfPrefix(x[1..], sep, rest);
    }
  }

  lemma WordsAfterSpace(sep: char, rest: string)
    requires IsSpace(sep)
    ensures Words([sep] + rest) == Words(rest)
  {
    assert ([sep] + rest)[1..] == rest;
  }
}
