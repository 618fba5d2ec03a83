/** String helpers shared by the catalog handlers and the browser page:
    JavaScript's `trim`, `toUpperCase`, `toLowerCase`, `includes`,
    `startsWith`, `join` and `String(n)` for integers. */
module Text {

  /** The characters `String.prototype.trim` removes: WhiteSpace and
      LineTerminator of ECMAScript. */
  predicate IsSpace(c: char) {
    || c == ' ' || c == '\t' || c == '\n' || c == '\r'
    || c == '\U{B}' || c == '\U{C}' || c == '\U{A0}' || c == '\U{1680}'
    || ('\U{2000}' <= c <= '\U{200A}')
    || c == '\U{2028}' || c == '\U{2029}' || c == '\U{202F}' || c == '\U{205F}'
    || c == '\U{3000}' || c == '\U{FEFF}'
  }

  /** The number of white-space characters `s` starts with. */
  function LeadingSpaces(s: string): (n: nat)
    ensures n <= |s|
  {
    if s != [] && IsSpace(s[0]) then 1 + LeadingSpaces(s[1..]) else 0
  }

  /** The number of white-space characters `s` ends with. */
  function TrailingSpaces(s: string): (n: nat)
    ensures n <= |s|
  {
    if s != [] && IsSpace(s[|s| - 1]) then 1 + TrailingSpaces(s[..|s| - 1]) else 0
  }

  /** The leading white space is white space, and what follows it is not. */
  lemma {:induction false} LeadingSpacesSpec(s: string)
    ensures forall i :: 0 <= i < LeadingSpaces(s) ==> IsSpace(s[i])
    ensures LeadingSpaces(s) < |s| ==> !IsSpace(s[LeadingSpaces(s)])
  {
    if s != [] && IsSpace(s[0]) {
      LeadingSpacesSpec(s[1..]);
      assert forall i :: 1 <= i < LeadingSpaces(s) ==> s[i] == s[1..][i - 1];
    }
  }

  /** The trailing white space is white space, and what precedes it is not. */
  lemma {:induction false} TrailingSpacesSpec(s: string)
    ensures forall i :: |s| - TrailingSpaces(s) <= i < |s| ==> IsSpace(s[i])
    ensures TrailingSpaces(s) < |s| ==> !IsSpace(s[|s| - 1 - TrailingSpaces(s)])
  {
    if s != [] && IsSpace(s[|s| - 1]) {
      TrailingSpacesSpec(s[..|s| - 1]);
      assert forall i :: 0 <= i < |s| - 1 ==> s[i] == s[..|s| - 1][i];
    }
  }

  /** `trimStart`: `s` without its leading white space. */
  function TrimStart(s: string): string {
    s[LeadingSpaces(s)..]
  }

  /** `trimEnd`: `s` without its trailing white space. */
  function TrimEnd(s: string): string {
    s[..|s| - TrailingSpaces(s)]
  }

  /** `s.trim()`. */
  function Trim(s: string): string {
    TrimEnd(TrimStart(s))
  }

  /** A string whose first character is not white space is not all white
      space at its end either. */
  lemma {:induction false} TrailingNotAll(s: string)
    requires s != [] && !IsSpace(s[0])
    ensures TrailingSpaces(s) < |s|
  {
    if IsSpace(s[|s| - 1]) {
      TrailingNotAll(s[..|s| - 1]);
    }
  }

  /** A trimmed string neither starts nor ends with white space. */
  lemma TrimEnds(s: string)
    ensures var r := Trim(s); r == [] || (!IsSpace(r[0]) && !IsSpace(r[|r| - 1]))
  {
    var t := TrimStart(s);
    LeadingSpacesSpec(s);
    TrailingSpacesSpec(t);
    if t != [] {
      TrailingNotAll(t);
    }
  }

  /** `s.trim()` is the slice of `s` between its leading and its trailing
      white space, and everything cut off is white space. */
  lemma TrimSpec(s: string)
    ensures var a, b := LeadingSpaces(s), |s| - TrailingSpaces(TrimStart(s));
      && a <= b <= |s| && Trim(s) == s[a..b]
      && (forall i :: 0 <= i < a ==> IsSpace(s[i]))
      && (forall i :: b <= i < |s| ==> IsSpace(s[i]))
  {
    var a := LeadingSpaces(s);
    TrimTailCut(s, a, TrimStart(s));
    assert forall i :: 0 <= i < a ==> IsSpace(s[i]) by {
      LeadingSpacesSpec(s);
    }
  }

  lemma TrimTailCut(s: string, a: nat, t: string)
    requires a <= |s| && t == s[a..]
    ensures forall i :: |s| - TrailingSpaces(t) <= i < |s| ==> IsSpace(s[i])
    ensures t[..|t| - TrailingSpaces(t)] == s[a..|s| - TrailingSpaces(t)]
  {
    TrailingSpacesSpec(t);
    forall i | |s| - TrailingSpaces(t) <= i < |s| ensures IsSpace(s[i]) {
      assert s[i] == t[i - a];
    }
  }

  /** The trimmed string occurs in the original. */
  lemma TrimContained(s: string)
    ensures Contains(s, Trim(s))
  {
    TrimSpec(s);
    var a := LeadingSpaces(s);
    ContainsInfix(s, a, Trim(s));
  }

  /** Trimming twice is trimming once. */
  lemma TrimIdempotent(s: string)
    ensures Trim(Trim(s)) == Trim(s)
  {
    var r := Trim(s);
    TrimEnds(s);
    if r != [] {
      assert LeadingSpaces(r) == 0;
      assert TrimStart(r) == r;
      assert TrailingSpaces(r) == 0;
    }
  }

  /** `toUpperCase` on one character: ASCII and Latin-1 letters. */
  function UpperChar(c: char): char {
    if 'a' <= c <= 'z' then (c as int - 32) as char
    else if '\U{E0}' <= c <= '\U{FE}' && c != '\U{F7}' then (c as int - 32) as char
    else c
  }

  /** `toLowerCase` on one character: ASCII and Latin-1 letters. */
  function LowerChar(c: char): char {
    if 'A' <= c <= 'Z' then (c as int + 32) as char
    else if '\U{C0}' <= c <= '\U{DE}' && c != '\U{D7}' then (c as int + 32) as char
    else c
  }

  /** Case mapping neither creates nor removes white space. */
  lemma CaseKeepsSpace(c: char)
    ensures IsSpace(c) <==> IsSpace(UpperChar(c))
    ensures IsSpace(c) <==> IsSpace(LowerChar(c))
  {
  }

  function Upper(s: string): (r: string)
    ensures |r| == |s|
    ensures forall i {:trigger r[i]} :: 0 <= i < |s| ==> r[i] == UpperChar(s[i])
  {
    if s == [] then [] else [UpperChar(s[0])] + Upper(s[1..])
  }

  function Lower(s: string): (r: string)
    ensures |r| == |s|
    ensures forall i {:trigger r[i]} :: 0 <= i < |s| ==> r[i] == LowerChar(s[i])
  {
    if s == [] then [] else [LowerChar(s[0])] + Lower(s[1..])
  }

  /** Lower-case ASCII letters are left as they are. */
  lemma LowerOfLowercase(s: string)
    requires forall i :: 0 <= i < |s| ==> 'a' <= s[i] <= 'z'
    ensures Lower(s) == s
  {
    assert forall i :: 0 <= i < |s| ==> Lower(s)[i] == s[i];
  }

  lemma UpperIdempotent(s: string)
    ensures Upper(Upper(s)) == Upper(s)
  {
  }

  lemma UpperSlice(s: string, a: nat, b: nat)
    requires a <= b <= |s|
    ensures Upper(s[a..b]) == Upper(s)[a..b]
  {
  }

  lemma {:induction false} UpperLeading(s: string)
    ensures LeadingSpaces(Upper(s)) == LeadingSpaces(s)
  {
    if s != [] {
      CaseKeepsSpace(s[0]);
      if IsSpace(s[0]) {
        UpperSlice(s, 1, |s|);
        UpperLeading(s[1..]);
      }
    }
  }

  lemma {:induction false} UpperTrailing(s: string)
    ensures TrailingSpaces(Upper(s)) == TrailingSpaces(s)
  {
    if s != [] {
      CaseKeepsSpace(s[|s| - 1]);
      if IsSpace(s[|s| - 1]) {
        UpperSlice(s, 0, |s| - 1);
        UpperTrailing(s[..|s| - 1]);
      }
    }
  }

  /** Upper-casing never creates or removes white space, so it commutes
      with trimming. */
  lemma UpperTrim(s: string)
    ensures Upper(Trim(s)) == Trim(Upper(s))
  {
    var t := TrimStart(s);
    UpperLeading(s);
    UpperSlice(s, LeadingSpaces(s), |s|);
    assert Upper(t) == TrimStart(Upper(s));
    UpperTrailing(t);
    UpperSlice(t, 0, |t| - TrailingSpaces(t));
  }

  /** The key `normalize(x).toUpperCase()`: a fixed point of itself. */
  lemma CanonicalKeyStable(s: string)
    ensures Upper(Trim(Upper(Trim(s)))) == Upper(Trim(s))
  {
    UpperTrim(Trim(s));
    TrimIdempotent(s);
    UpperIdempotent(Trim(s));
  }

  /** `s.includes(t)`: `t` occurs in `s` at some position. */
  predicate Contains(s: string, t: string) {
    t <= s || (s != [] && Contains(s[1..], t))
  }

  /** A prefix of a suffix of `s` occurs in `s`. */
  lemma {:induction false} ContainsInfix(s: string, k: nat, t: string)
    requires k <= |s| && t <= s[k..]
    ensures Contains(s, t)
  {
    if k > 0 {
      assert s[1..][k - 1..] == s[k..];
      ContainsInfix(s[1..], k - 1, t);
    }
  }

  lemma {:induction false} ContainsEmpty(s: string)
    ensures Contains(s, "")
  {
  }

  /** A one-character string occurs in `s` exactly when the character
      does. */
  lemma {:induction false} ContainsChar(s: string, c: char)
    ensures Contains(s, [c]) <==> c in s
  {
    if s != [] {
      ContainsChar(s[1..], c);
      assert s == [s[0]] + s[1..];
    }
  }

  /** `xs.map(normalize).filter(Boolean)`: the trimmed strings that are not
      empty, in order. */
  function NonEmptyTrimmed(xs: seq<string>): (r: seq<string>)
    ensures |r| <= |xs|
    ensures forall i :: 0 <= i < |r| ==> r[i] != ""
  {
    if xs == [] then []
    else
      var rest := NonEmptyTrimmed(xs[..|xs| - 1]);
      var t := Trim(xs[|xs| - 1]);
      if t == "" then rest else rest + [t]
  }

  /** Every non-empty trimmed input is kept and nothing else appears. */
  lemma NonEmptyTrimmedSpec(xs: seq<string>)
    ensures var r := NonEmptyTrimmed(xs);
      && (forall i :: 0 <= i < |xs| && Trim(xs[i]) != "" ==> Trim(xs[i]) in r)
      && (forall j :: 0 <= j < |r| ==> exists i :: 0 <= i < |xs| && r[j] == Trim(xs[i]))
  {
    NonEmptyTrimmedComplete(xs);
    NonEmptyTrimmedSound(xs);
    var r := NonEmptyTrimmed(xs);
    forall j | 0 <= j < |r| ensures exists i :: 0 <= i < |xs| && r[j] == Trim(xs[i]) {
      assert r[j] in r;
    }
  }

  lemma {:induction false} NonEmptyTrimmedComplete(xs: seq<string>)
    ensures forall i :: 0 <= i < |xs| && Trim(xs[i]) != "" ==> Trim(xs[i]) in NonEmptyTrimmed(xs)
  {
    if xs != [] {
      var n := |xs| - 1;
      var init := xs[..n];
      NonEmptyTrimmedComplete(init);
      var rest := NonEmptyTrimmed(init);
      var last := if Trim(xs[n]) == "" then [] else [Trim(xs[n])];
      assert NonEmptyTrimmed(xs) == rest + last;
      forall i | 0 <= i < |xs| && Trim(xs[i]) != "" ensures Trim(xs[i]) in rest + last {
        if i < n {
          assert init[i] == xs[i];
        }
      }
    }
  }

  lemma {:induction false} NonEmptyTrimmedSound(xs: seq<string>)
    ensures forall s :: s in NonEmptyTrimmed(xs) ==> exists i :: 0 <= i < |xs| && s == Trim(xs[i])
  {
    if xs != [] {
      var n := |xs| - 1;
      var init := xs[..n];
      NonEmptyTrimmedSound(init);
      var rest := NonEmptyTrimmed(init);
      var last := if Trim(xs[n]) == "" then [] else [Trim(xs[n])];
      assert NonEmptyTrimmed(xs) == rest + last;
      forall s | s in rest + last ensures exists i :: 0 <= i < |xs| && s == Trim(xs[i]) {
        if s in rest {
          var i :| 0 <= i < n && s == Trim(init[i]);
          assert init[i] == xs[i];
        } else {
          assert s == Trim(xs[n]);
        }
      }
    }
  }

  /** `s.startsWith(p)`. */
  predicate StartsWith(s: string, p: string) {
    p <= s
  }

  /** `parts.join(sep)`. */
  function Join(parts: seq<string>, sep: string): (r: string)
    ensures parts == [] ==> r == ""
    ensures |parts| == 1 ==> r == parts[0]
  {
    if parts == [] then ""
    else if |parts| == 1 then parts[0]
    else parts[0] + sep + Join(parts[1..], sep)
  }

  /** Joining two non-empty lists of parts one after the other puts one
      separator between the two joins. */
  lemma {:induction false} JoinAppend(xs: seq<string>, ys: seq<string>, sep: string)
    requires xs != [] && ys != []
    ensures Join(xs + ys, sep) == Join(xs, sep) + sep + Join(ys, sep)
  {
    assert (xs + ys)[0] == xs[0];
    if |xs| == 1 {
      assert (xs + ys)[1..] == ys;
    } else {
      assert (xs + ys)[1..] == xs[1..] + ys;
      JoinAppend(xs[1..], ys, sep);
    }
  }

  /** Every further part follows the join of those before it after one
      separator. */
  lemma JoinSnoc(parts: seq<string>, x: string, sep: string)
    requires parts != []
    ensures Join(parts + [x], sep) == Join(parts, sep) + sep + x
  {
    JoinAppend(parts, [x], sep);
  }

  function DigitChar(d: nat): (c: char)
    requires d < 10
    ensures '0' <= c <= '9'
    ensures c as int - '0' as int == d
  {
    ('0' as int + d) as char
  }

  predicate AllDigits(s: string) {
    forall i :: 0 <= i < |s| ==> '0' <= s[i] <= '9'
  }

  /** A decimal numeral: one or more digits, with no leading zero unless
      it is `"0"` itself. */
  predicate IsNumeral(s: string) {
    s != [] && AllDigits(s) && (s[0] == '0' ==> |s| == 1)
  }

  /** The number a string of decimal digits denotes. */
  function DigitsValue(s: string): nat
    requires AllDigits(s)
  {
    if s == [] then 0
    else DigitsValue(s[..|s| - 1]) * 10 + (s[|s| - 1] as int - '0' as int)
  }

  function NatToString(n: nat): (r: string)
    ensures IsNumeral(r)
    ensures n == 0 <==> r == "0"
    decreases n
  {
    if n < 10 then [DigitChar(n)] else NatToString(n / 10) + [DigitChar(n % 10)]
  }

  /** Reading the digits back gives the number. */
  lemma {:induction false} NatToStringValue(n: nat)
    ensures DigitsValue(NatToString(n)) == n
  {
    var r := NatToString(n);
    if n >= 10 {
      NatToStringValue(n / 10);
      assert r[..|r| - 1] == NatToString(n / 10);
    } else {
      assert r[..|r| - 1] == [];
    }
  }

  /** `String(n)` for an integer `n`: the decimal numeral of `n`, after a
      `-` exactly when `n` is negative. */
  function IntToString(n: int): (r: string)
    ensures r != []
    ensures (r[0] == '-') <==> n < 0
    ensures n >= 0 ==> IsNumeral(r) && DigitsValue(r) == n
    ensures n < 0 ==> IsNumeral(r[1..]) && DigitsValue(r[1..]) == -n
  {
    if n < 0 then
      NatToStringValue(-n);
      assert ("-" + NatToString(-n))[1..] == NatToString(-n);
      "-" + NatToString(-n)
    else
      NatToStringValue(n);
      NatToString(n)
  }
}
