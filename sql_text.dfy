/** The text side of the query builder: decimal rendering of `%d`,
    `strings.Join`, and a scanner that reads back the `$n` placeholders of a
    PostgreSQL statement, so that claims about placeholder numbering can be
    stated about the rendered text itself. */
module SqlText {

  predicate IsDigit(c: char) { '0' <= c <= '9' }

  predicate AllDigits(s: string) { forall i :: 0 <= i < |s| ==> IsDigit(s[i]) }

  function DigitChar(d: nat): (c: char)
    requires d < 10
    ensures IsDigit(c)
  {
    ['0', '1', '2', '3', '4', '5', '6', '7', '8', '9'][d]
  }

  function DigitValue(c: char): (d: nat)
    requires IsDigit(c)
    ensures d < 10
  {
    (c as int - '0' as int) as nat
  }

  lemma DigitRoundTrip(d: nat)
    requires d < 10
    ensures DigitValue(DigitChar(d)) == d
  {
  }

  /** `fmt.Sprintf("%d", n)` for a non-negative n. */
  function NatToString(n: nat): (s: string)
    ensures |s| >= 1 && AllDigits(s)
  {
    if n < 10 then [DigitChar(n)] else NatToString(n / 10) + [DigitChar(n % 10)]
  }

  /** The value of a string of decimal digits. */
  function DecimalValue(s: string): nat
    requires AllDigits(s)
  {
    if s == [] then 0 else DecimalValue(s[..|s| - 1]) * 10 + DigitValue(s[|s| - 1])
  }

  /** Reading the rendered number back gives the number: `%d` loses nothing. */
  lemma {:induction false} DecimalRoundTrip(n: nat)
    ensures DecimalValue(NatToString(n)) == n
  {
    var s := NatToString(n);
    if n < 10 {
      DigitRoundTrip(n);
    } else {
      assert s[..|s| - 1] == NatToString(n / 10);
      DecimalRoundTrip(n / 10);
      DigitRoundTrip(n % 10);
    }
  }

  /** `strings.Join(parts, sep)`. */
  function Join(parts: seq<string>, sep: string): string
  {
    if parts == [] then ""
    else if |parts| == 1 then parts[0]
    else parts[0] + sep + Join(parts[1..], sep)
  }

  /** The number of decimal digits at the start of s. */
  function LeadingDigits(s: string): (d: nat)
    ensures d <= |s|
    ensures AllDigits(s[..d])
    ensures d < |s| ==> !IsDigit(s[d])
  {
    if s != [] && IsDigit(s[0]) then
      var d := 1 + LeadingDigits(s[1..]);
      assert s[..d] == [s[0]] + s[1..][..d - 1];
      d
    else 0
  }

  /** Whether s opens with a placeholder: `$` directly followed by digits. */
  predicate OpensParam(s: string)
  {
    s != [] && s[0] == '$' && LeadingDigits(s[1..]) > 0
  }

  /** The length of the token the scanner reads at the start of s: a
      placeholder with all its digits, or one other character. */
  function TokenLength(s: string): (n: nat)
    requires s != []
    ensures 1 <= n <= |s|
  {
    if OpensParam(s) then 1 + LeadingDigits(s[1..]) else 1
  }

  /** The placeholder number that token contributes, if it is one. */
  function TokenValue(s: string): seq<nat>
    requires s != []
  {
    if OpensParam(s) then
      var d := LeadingDigits(s[1..]);
      assert s[1..1 + d] == s[1..][..d];
      [DecimalValue(s[1..1 + d])]
    else []
  }

  /** The placeholder numbers of a statement, left to right: each `$` directly
      followed by one or more digits contributes the value of those digits. */
  function Placeholders(s: string): seq<nat>
    decreases |s|
  {
    if s == [] then [] else TokenValue(s) + Placeholders(s[TokenLength(s)..])
  }

  /** The numbers lo, lo+1, ..., lo+n-1. */
  function Numbers(lo: nat, n: nat): (r: seq<nat>)
    ensures |r| == n
  {
    seq(n, i requires 0 <= i < n => lo + i)
  }

  lemma NumbersSplit(lo: nat, n: nat, m: nat)
    ensures Numbers(lo, n) + Numbers(lo + n, m) == Numbers(lo, n + m)
  {
    var l, r := Numbers(lo, n) + Numbers(lo + n, m), Numbers(lo, n + m);
    forall i | 0 <= i < n + m ensures l[i] == r[i] {
      if i >= n { assert l[i] == Numbers(lo + n, m)[i - n]; }
    }
  }

  lemma LeadingDigitsAppend(a: string, b: string)
    requires b == [] || !IsDigit(b[0])
    ensures LeadingDigits(a + b) == LeadingDigits(a)
    decreases |a|
  {
    if a != [] {
      assert (a + b)[0] == a[0];
      if IsDigit(a[0]) {
        assert (a + b)[1..] == a[1..] + b;
        LeadingDigitsAppend(a[1..], b);
      }
    }
  }

  /** Placeholders of a concatenation are those of the parts, provided the
      second part cannot extend a number at the end of the first. */
  lemma {:induction false} PlaceholdersAppend(a: string, b: string)
    requires b == [] || !IsDigit(b[0])
    ensures Placeholders(a + b) == Placeholders(a) + Placeholders(b)
    decreases |a|
  {
    if a == [] {
      assert a + b == b;
    } else {
      PlaceholdersAppend(a[TokenLength(a)..], b);
      AppendAfterToken(a, b);
    }
  }

  /** The step of PlaceholdersAppend: if it holds after the first token of a,
      it holds for a. */
  lemma AppendAfterToken(a: string, b: string)
    requires b == [] || !IsDigit(b[0])
    requires a != []
    requires Placeholders(a[TokenLength(a)..] + b) == Placeholders(a[TokenLength(a)..]) + Placeholders(b)
    ensures Placeholders(a + b) == Placeholders(a) + Placeholders(b)
  {
    var k := TokenLength(a);
    var v, p, q := TokenValue(a), Placeholders(a[k..]), Placeholders(b);
    TokenAppend(a, b);
    assert Placeholders(a) == v + p;
    assert Placeholders(a + b) == v + (p + q);
    ConcatAssoc(v, p, q);
  }

  lemma ConcatAssoc<T>(x: seq<T>, y: seq<T>, z: seq<T>)
    ensures (x + y) + z == x + (y + z)
  {
  }

  /** The first token of a nonempty text does not change when b is appended. */
  lemma TokenAppend(a: string, b: string)
    requires b == [] || !IsDigit(b[0])
    requires a != []
    ensures TokenLength(a + b) == TokenLength(a) && TokenValue(a + b) == TokenValue(a)
    ensures (a + b)[TokenLength(a)..] == a[TokenLength(a)..] + b
  {
    var s, t := a + b, a[1..];
    var d := LeadingDigits(t);
    assert s[0] == a[0] && s[1..] == t + b;
    LeadingDigitsAppend(t, b);
    assert s[1..1 + d] == a[1..1 + d] by {
      assert s[1..1 + d] == s[1..][..d] && a[1..1 + d] == t[..d];
    }
  }

  /** A prefix without `$` contributes no placeholder and cannot start one. */
  lemma {:induction false} PlaceholdersNoDollarPrefix(p: string, s: string)
    requires '$' !in p
    ensures Placeholders(p + s) == Placeholders(s)
    decreases |p|
  {
    if p == [] {
      assert p + s == s;
    } else {
      assert (p + s)[0] == p[0];
      assert (p + s)[1..] == p[1..] + s;
      PlaceholdersNoDollarPrefix(p[1..], s);
    }
  }

  lemma NoDollarPlaceholders(p: string)
    requires '$' !in p
    ensures Placeholders(p) == []
  {
    PlaceholdersNoDollarPrefix(p, "");
    assert p + "" == p;
  }

  /** The text of one bound parameter. */
  function Param(n: nat): (s: string)
  {
    "$" + NatToString(n)
  }

  /** `$n` reads back as the one placeholder n. */
  lemma {:induction false} ParamPlaceholders(n: nat)
    ensures Placeholders(Param(n)) == [n]
  {
    var s := Param(n);
    var digits := NatToString(n);
    assert s[1..] == digits;
    assert digits[..|digits|] == digits;
    assert LeadingDigits(digits) == |digits|;
    assert s[1..1 + |digits|] == digits;
    DecimalRoundTrip(n);
    assert s[1 + |digits|..] == [];
  }

  /** A fragment `<text without $>$n` reads back as the one placeholder n. */
  lemma FragmentPlaceholders(prefix: string, n: nat)
    requires '$' !in prefix
    ensures Placeholders(prefix + Param(n)) == [n]
  {
    PlaceholdersNoDollarPrefix(prefix, Param(n));
    ParamPlaceholders(n);
  }

  /** Joining parts whose placeholders are lo, lo+1, ... in turn, with a
      separator free of `$` that starts with a non-digit, numbers the
      placeholders of the whole consecutively. */
  lemma {:induction false} JoinPlaceholders(parts: seq<string>, sep: string, lo: nat)
    requires '$' !in sep && sep != [] && !IsDigit(sep[0])
    requires forall i :: 0 <= i < |parts| ==> Placeholders(parts[i]) == [lo + i]
    ensures Placeholders(Join(parts, sep)) == Numbers(lo, |parts|)
    decreases |parts|
  {
    if parts == [] {
    } else if |parts| == 1 {
      assert Placeholders(parts[0]) == [lo];
      assert Numbers(lo, 1) == [lo];
    } else {
      var first, rest := parts[0], Join(parts[1..], sep);
      assert Placeholders(first) == [lo];
      JoinShift(parts, lo);
      JoinPlaceholders(parts[1..], sep, lo + 1);
      JoinNumbered(first, sep, rest, lo, |parts| - 1);
    }
  }

  /** The parts after the first are numbered from lo + 1. */
  lemma JoinShift(parts: seq<string>, lo: nat)
    requires parts != []
    requires forall i :: 0 <= i < |parts| ==> Placeholders(parts[i]) == [lo + i]
    ensures forall i :: 0 <= i < |parts[1..]| ==> Placeholders(parts[1..][i]) == [lo + 1 + i]
  {
    forall i | 0 <= i < |parts[1..]| ensures Placeholders(parts[1..][i]) == [lo + 1 + i] {
      assert parts[1..][i] == parts[i + 1];
    }
  }

  /** One step of JoinPlaceholders: a part numbered lo, the separator, and
      the rest numbered from lo + 1. */
  lemma JoinNumbered(first: string, sep: string, rest: string, lo: nat, n: nat)
    requires '$' !in sep && sep != [] && !IsDigit(sep[0])
    requires Placeholders(first) == [lo]
    requires Placeholders(rest) == Numbers(lo + 1, n)
    ensures Placeholders(first + sep + rest) == Numbers(lo, n + 1)
  {
    ConcatAssoc(first, sep, rest);
    PlaceholdersAppend(first, sep + rest);
    PlaceholdersNoDollarPrefix(sep, rest);
    NumbersCons(lo, n);
  }

  lemma NumbersCons(lo: nat, n: nat)
    ensures [lo] + Numbers(lo + 1, n) == Numbers(lo, n + 1)
  {
    assert Numbers(lo, 1) == [lo];
    NumbersSplit(lo, 1, n);
  }
}
