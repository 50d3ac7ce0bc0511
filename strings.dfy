/** Text helpers shared by the simulator and the tracker: joining and
    splitting on a separator, substring search, decimal digits, padding, and
    the opaque floating-point text conversions of the C++ standard library. */
module Strings {

  /** The floating-point text conversions the C++ code takes from its
      standard library, left uninterpreted: `fixed(x, p)` is what
      `std::fixed << std::setprecision(p) << x` writes (so `std::to_string(x)`
      is `fixed(x, 6)`), and `stod(s)` is `std::stod(s)`, `None` when it
      throws `std::invalid_argument`. */
  datatype FloatLib = FloatLib(fixed: (real, nat) -> string, stod: string -> Option<real>)

  datatype Option<T> = None | Some(value: T)

  /** `s` is the kind of text `std::fixed` writes for a finite number:
      non-empty, only digits, a sign and a decimal point. */
  predicate DecimalText(s: string) {
    s != [] && forall i :: 0 <= i < |s| ==> IsDecimalChar(s[i])
  }

  predicate IsDecimalChar(c: char) { IsDigit(c) || c == '-' || c == '.' }

  /** Every fixed-point rendering `lib` produces is decimal text. */
  ghost predicate DecimalFormatting(lib: FloatLib) {
    forall x: real, p: nat :: DecimalText(lib.fixed(x, p))
  }

  predicate IsDigit(c: char) { '0' <= c <= '9' }

  predicate AllDigits(s: string) { forall i :: 0 <= i < |s| ==> IsDigit(s[i]) }

  /** `s` with every occurrence of `c` removed. */
  function Without(s: string, c: char): (r: string)
    ensures c !in r && |r| <= |s|
  {
    if s == [] then []
    else (if s[0] == c then [] else [s[0]]) + Without(s[1..], c)
  }

  lemma {:induction false} WithoutAppend(a: string, b: string, c: char)
    ensures Without(a + b, c) == Without(a, c) + Without(b, c)
  {
    if a == [] {
      assert a + b == b;
    } else {
      assert (a + b)[0] == a[0];
      assert (a + b)[1..] == a[1..] + b;
      WithoutAppend(a[1..], b, c);
    }
  }

  lemma {:induction false} WithoutAbsent(s: string, c: char)
    requires c !in s
    ensures Without(s, c) == s
  {
    if s != [] {
      assert s[0] in s;
      WithoutAbsent(s[1..], c);
      assert s == [s[0]] + s[1..];
    }
  }

  /** The pieces of `fs` with `sep` between each two of them. */
  function Join(fs: seq<string>, sep: char): (s: string)
  {
    if |fs| == 0 then []
    else if |fs| == 1 then fs[0]
    else fs[0] + [sep] + Join(fs[1..], sep)
  }

  /** The concatenation of all pieces of `fs`. */
  function Concat(fs: seq<string>): (s: string)
  {
    if fs == [] then [] else fs[0] + Concat(fs[1..])
  }

  /** The pieces of `fs` that are not empty, in order. */
  function NonEmpty(fs: seq<string>): (r: seq<string>)
    ensures |r| <= |fs|
    ensures forall i :: 0 <= i < |r| ==> r[i] != []
  {
    if fs == [] then []
    else (if fs[0] == [] then [] else [fs[0]]) + NonEmpty(fs[1..])
  }

  lemma {:induction false} NonEmptyAppend(a: seq<string>, b: seq<string>)
    ensures NonEmpty(a + b) == NonEmpty(a) + NonEmpty(b)
  {
    if a != [] {
      assert (a + b)[0] == a[0];
      assert (a + b)[1..] == a[1..] + b;
      NonEmptyAppend(a[1..], b);
      var h: seq<string> := if a[0] == [] then [] else [a[0]];
      assert NonEmpty(a + b) == h + (NonEmpty(a[1..]) + NonEmpty(b));
      assert NonEmpty(a) == h + NonEmpty(a[1..]);
    } else {
      assert a + b == b;
    }
  }

  lemma {:induction false} NonEmptyOfNonEmpty(a: seq<string>)
    requires forall i :: 0 <= i < |a| ==> a[i] != []
    ensures NonEmpty(a) == a
  {
    if a != [] {
      assert a[0] != [];
      NonEmptyOfNonEmpty(a[1..]);
      assert a == [a[0]] + a[1..];
    }
  }

  /** `p` occurs in `s` at some position, as `std::string::find(p) != npos`. */
  predicate HasSubstring(s: string, p: string)
    decreases |s|
  {
    |p| <= |s| && (s[..|p|] == p || HasSubstring(s[1..], p))
  }

  /** An occurrence at position `k` is found. */
  lemma {:induction false} SubstringAt(s: string, p: string, k: nat)
    requires k + |p| <= |s| && s[k..k + |p|] == p
    ensures HasSubstring(s, p)
    decreases k
  {
    if k > 0 {
      assert s[1..][k - 1..k - 1 + |p|] == s[k..k + |p|];
      SubstringAt(s[1..], p, k - 1);
    }
  }

  /** A pattern whose first character does not occur in `s` is not found. */
  lemma {:induction false} NoSubstringWithoutFirst(s: string, p: string)
    requires p != [] && p[0] !in s
    ensures !HasSubstring(s, p)
    decreases |s|
  {
    if |p| <= |s| {
      assert s[..|p|][0] == s[0];
      NoSubstringWithoutFirst(s[1..], p);
    }
  }

  function DigitChar(d: nat): (c: char)
    requires d < 10
    ensures IsDigit(c)
  {
    "0123456789"[d]
  }

  function DigitValue(c: char): nat
    requires IsDigit(c)
  {
    (c as int - '0' as int)
  }

  /** The shortest decimal writing of `n`, as `operator<<` writes an
      unsigned value ("0" for zero). */
  function Digits(n: nat): (s: string)
    ensures s != [] && AllDigits(s)
  {
    if n < 10 then [DigitChar(n)] else Digits(n / 10) + [DigitChar(n % 10)]
  }

  /** The number a string of decimal digits denotes (leading zeros allowed). */
  function ValueOf(s: string): nat
    requires AllDigits(s)
  {
    if s == [] then 0 else 10 * ValueOf(s[..|s| - 1]) + DigitValue(s[|s| - 1])
  }

  function Pow10(k: nat): (p: nat)
    ensures p >= 1
  {
    if k == 0 then 1 else 10 * Pow10(k - 1)
  }

  lemma {:induction false} DigitsValue(n: nat)
    ensures ValueOf(Digits(n)) == n
  {
    if n >= 10 {
      var s := Digits(n);
      assert s[..|s| - 1] == Digits(n / 10);
      DigitsValue(n / 10);
    } else {
      assert Digits(n) == [DigitChar(n)];
      assert [DigitChar(n)][..0] == [];
    }
  }

  /** A number below 10^k needs at most k digits (and always at least one). */
  lemma {:induction false} DigitsLength(n: nat, k: nat)
    requires 1 <= k && n < Pow10(k)
    ensures |Digits(n)| <= k
  {
    if n >= 10 {
      assert n / 10 < Pow10(k - 1);
      DigitsLength(n / 10, k - 1);
    }
  }

  /** Digits written after others shift them by a power of ten. */
  lemma {:induction false} ValueOfAppend(a: string, b: string)
    requires AllDigits(a) && AllDigits(b)
    ensures AllDigits(a + b)
    ensures ValueOf(a + b) == ValueOf(a) * Pow10(|b|) + ValueOf(b)
    decreases |b|
  {
    var s := a + b;
    assert AllDigits(s) by {
      forall i | 0 <= i < |s| ensures IsDigit(s[i]) {
        if i >= |a| { assert s[i] == b[i - |a|]; }
      }
    }
    if b == [] {
      assert s == a;
    } else {
      var b' := b[..|b| - 1];
      var d := DigitValue(b[|b| - 1]);
      assert s[..|s| - 1] == a + b';
      ValueOfAppend(a, b');
      var x, p, v := ValueOf(a), Pow10(|b'|), ValueOf(b');
      calc {
        ValueOf(s);
        10 * (x * p + v) + d;
        { MulSwap(10, x, p); }
        x * (10 * p) + (10 * v + d);
      }
    }
  }

  lemma MulSwap(a: int, b: int, c: int)
    ensures a * (b * c) == b * (a * c)
  {
  }

  /** `s` right-aligned in a field of width `w` filled with `c`, as
      `std::setw(w) << std::setfill(c)` does for a string already formatted;
      text at least `w` long is left as it is. */
  function LeftPad(s: string, w: int, c: char): (r: string)
  {
    if |s| >= w then s else seq(w - |s|, _ => c) + s
  }

  /** Leading zeros do not change the value of a digit string. */
  lemma {:induction false} ValueOfLeadingZeros(z: nat, s: string)
    requires AllDigits(s)
    ensures AllDigits(seq(z, _ => '0') + s)
    ensures ValueOf(seq(z, _ => '0') + s) == ValueOf(s)
    decreases |s|, z
  {
    var t := seq(z, _ => '0') + s;
    assert AllDigits(t) by {
      forall i | 0 <= i < |t| ensures IsDigit(t[i]) {
        if i >= z { assert t[i] == s[i - z]; }
      }
    }
    if s == [] {
      if z > 0 {
        assert t[..|t| - 1] == seq(z - 1, _ => '0') + [];
        ValueOfLeadingZeros(z - 1, []);
      }
    } else {
      assert t[..|t| - 1] == seq(z, _ => '0') + s[..|s| - 1];
      ValueOfLeadingZeros(z, s[..|s| - 1]);
    }
  }

  // ----- splitting on a separator -----

  /** The tokens `std::getline(ss, tok, sep)` yields when reading `s`, the
      token in progress being `cur`, keeping only the non-empty ones. */
  function Tokens(s: string, sep: char, cur: string): (r: seq<string>)
    decreases |s|
  {
    if s == [] then (if cur == [] then [] else [cur])
    else if s[0] == sep then (if cur == [] then [] else [cur]) + Tokens(s[1..], sep, [])
    else Tokens(s[1..], sep, cur + [s[0]])
  }

  /** Every token is non-empty and free of the separator. */
  lemma {:induction false} TokensWellFormed(s: string, sep: char, cur: string)
    requires sep !in cur
    ensures forall i :: 0 <= i < |Tokens(s, sep, cur)| ==>
      Tokens(s, sep, cur)[i] != [] && sep !in Tokens(s, sep, cur)[i]
    decreases |s|
  {
    if s != [] {
      if s[0] == sep {
        TokensWellFormed(s[1..], sep, []);
      } else {
        TokensWellFormed(s[1..], sep, cur + [s[0]]);
      }
    }
  }

  /** Nothing but the separators is lost: the tokens put back together are
      the input with every separator removed. */
  lemma {:induction false} TokensConcat(s: string, sep: char, cur: string)
    ensures Concat(Tokens(s, sep, cur)) == cur + Without(s, sep)
    decreases |s|
  {
    if s == [] {
      if cur != [] { assert Concat([cur]) == cur + Concat([]); }
    } else if s[0] == sep {
      TokensConcat(s[1..], sep, []);
      ConcatAppend(if cur == [] then [] else [cur], Tokens(s[1..], sep, []));
      if cur != [] { assert Concat([cur]) == cur + Concat([]); }
    } else {
      TokensConcat(s[1..], sep, cur + [s[0]]);
    }
  }

  lemma {:induction false} ConcatAppend(a: seq<string>, b: seq<string>)
    ensures Concat(a + b) == Concat(a) + Concat(b)
  {
    if a != [] {
      assert (a + b)[0] == a[0];
      assert (a + b)[1..] == a[1..] + b;
      ConcatAppend(a[1..], b);
      assert Concat(a + b) == a[0] + (Concat(a[1..]) + Concat(b));
    } else {
      assert a + b == b;
    }
  }

  /** A separator ends the token in progress: what follows is tokenised as
      if it stood alone. */
  lemma {:induction false} TokensAtSeparator(a: string, b: string, sep: char, cur: string)
    ensures Tokens(a + [sep] + b, sep, cur) == Tokens(a, sep, cur) + Tokens(b, sep, [])
    decreases |a|
  {
    if a == [] {
      assert a + [sep] + b == [sep] + b;
      assert ([sep] + b)[1..] == b;
    } else {
      assert (a + [sep] + b)[0] == a[0];
      assert (a + [sep] + b)[1..] == a[1..] + [sep] + b;
      if a[0] == sep {
        TokensAtSeparator(a[1..], b, sep, []);
      } else {
        TokensAtSeparator(a[1..], b, sep, cur + [a[0]]);
      }
    }
  }

  /** A separator-free stretch extends the token in progress. */
  lemma {:induction false} TokensOfPiece(w: string, sep: char, cur: string)
    requires sep !in w
    ensures Tokens(w, sep, cur) == if cur + w == [] then [] else [cur + w]
    decreases |w|
  {
    if w != [] {
      assert w[0] in w;
      assert cur + w == (cur + [w[0]]) + w[1..];
      assert Tokens(w, sep, cur) == Tokens(w[1..], sep, cur + [w[0]]);
      TokensOfPiece(w[1..], sep, cur + [w[0]]);
    } else {
      assert cur + w == cur;
    }
  }

  /** The first separator-free piece, when not empty, is the first token. */
  lemma TokensFirst(w: string, b: string, sep: char)
    requires sep !in w
    ensures Tokens(w + [sep] + b, sep, []) == (if w == [] then [] else [w]) + Tokens(b, sep, [])
  {
    TokensAtSeparator(w, b, sep, []);
    TokensOfPiece(w, sep, []);
    assert [] + w == w;
  }

  /** Separators in a row before the text add no token. */
  lemma {:induction false} TokensAfterSeparators(g: string, b: string, sep: char)
    requires forall i :: 0 <= i < |g| ==> g[i] == sep
    ensures Tokens(g + b, sep, []) == Tokens(b, sep, [])
  {
    if g != [] {
      assert (g + b)[0] == sep;
      assert (g + b)[1..] == g[1..] + b;
      TokensAfterSeparators(g[1..], b, sep);
    } else {
      assert g + b == b;
    }
  }

  /** Splitting a joined list gives back its pieces, except the empty ones:
      positions of empty fields are not preserved. */
  lemma {:induction false} TokensOfJoin(fs: seq<string>, sep: char)
    requires forall i :: 0 <= i < |fs| ==> sep !in fs[i]
    ensures Tokens(Join(fs, sep), sep, []) == NonEmpty(fs)
  {
    if |fs| == 1 {
      TokensOfPiece(fs[0], sep, []);
      assert [] + fs[0] == fs[0];
    } else if |fs| > 1 {
      TokensAtSeparator(fs[0], Join(fs[1..], sep), sep, []);
      TokensOfPiece(fs[0], sep, []);
      assert [] + fs[0] == fs[0];
      TokensOfJoin(fs[1..], sep);
    }
  }

  /** A join cut after its first `k` pieces. */
  lemma {:induction false} JoinSplit(fs: seq<string>, k: nat, sep: char)
    requires 0 < k < |fs|
    ensures Join(fs, sep) == Join(fs[..k], sep) + [sep] + Join(fs[k..], sep)
  {
    if k > 1 {
      assert fs[..k][1..] == fs[1..][..k - 1];
      assert fs[1..][k - 1..] == fs[k..];
      JoinSplit(fs[1..], k - 1, sep);
    } else {
      assert fs[..1] == [fs[0]];
    }
  }

  /** One more piece at the end of a join. */
  lemma JoinSnoc(fs: seq<string>, x: string, sep: char)
    ensures Join(fs + [x], sep) == if fs == [] then x else Join(fs, sep) + [sep] + x
  {
    if fs == [] {
      assert fs + [x] == [x];
    } else {
      JoinAppend(fs, [x], sep);
    }
  }

  /** Joining two non-empty lists one after the other. */
  lemma JoinAppend(a: seq<string>, b: seq<string>, sep: char)
    requires |a| > 0 && |b| > 0
    ensures Join(a + b, sep) == Join(a, sep) + [sep] + Join(b, sep)
  {
    JoinSplit(a + b, |a|, sep);
    assert (a + b)[..|a|] == a;
    assert (a + b)[|a|..] == b;
  }

  /** A join of `a + b` starts with the join of `a` and a separator, and
      ends with a separator and the join of `b`. */
  lemma JoinEnds(a: seq<string>, b: seq<string>, sep: char)
    requires |a| > 0 && |b| > 0
    ensures Join(a, sep) + [sep] <= Join(a + b, sep)
    ensures var j := Join(a + b, sep); var k := |Join(b, sep)| + 1;
            k <= |j| && j[|j| - k..] == [sep] + Join(b, sep)
  {
    JoinAppend(a, b, sep);
  }

  /** Text written before and after a join becomes part of its first and
      last piece. */
  lemma {:induction false} JoinFramed(p: string, fs: seq<string>, q: string, sep: char)
    requires |fs| >= 2
    ensures p + Join(fs, sep) + q == Join([p + fs[0]] + fs[1..|fs| - 1] + [fs[|fs| - 1] + q], sep)
  {
    var gs := [p + fs[0]] + fs[1..|fs| - 1] + [fs[|fs| - 1] + q];
    assert gs[1..] == fs[1..|fs| - 1] + [fs[|fs| - 1] + q];
    JoinAppended(fs[1..], q, sep);
    assert fs[1..][..|fs[1..]| - 1] == fs[1..|fs| - 1];
  }

  lemma {:induction false} JoinAppended(fs: seq<string>, q: string, sep: char)
    requires |fs| >= 1
    ensures Join(fs, sep) + q == Join(fs[..|fs| - 1] + [fs[|fs| - 1] + q], sep)
  {
    if |fs| > 1 {
      var gs := fs[..|fs| - 1] + [fs[|fs| - 1] + q];
      assert gs[0] == fs[0];
      assert gs[1..] == fs[1..][..|fs[1..]| - 1] + [fs[1..][|fs[1..]| - 1] + q];
      JoinAppended(fs[1..], q, sep);
    }
  }

  /** The pieces of a join, and the separators between them, are all that
      occurs in it. */
  lemma {:induction false} JoinChars(fs: seq<string>, sep: char, c: char)
    requires c != sep && forall i :: 0 <= i < |fs| ==> c !in fs[i]
    ensures c !in Join(fs, sep)
  {
    if |fs| > 1 {
      JoinChars(fs[1..], sep, c);
    }
  }
}
