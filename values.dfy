/** The values stored as file attributes and bound in metadata predicates,
    with the few Python operations on them that the core relies on:
    truthiness, `'\0' in x`, ordering of strings, substring search and `str()`. */
module Values {
  import opened Errors

  newtype byte = x: int | 0 <= x < 256

  /** A Python value restricted to the kinds the core handles: None, integers,
      text (`unicode`), raw bytes (Python 2 `str`) and lists. */
  datatype Value =
    | NoneV
    | IntV(i: int)
    | StrV(s: string)
    | BytesV(bytes: seq<byte>)
    | ListV(items: seq<Value>)

  /** Python truthiness: None, 0 and empty containers are false. */
  predicate Truthy(v: Value) {
    match v
    case NoneV => false
    case IntV(i) => i != 0
    case StrV(s) => s != []
    case BytesV(b) => b != []
    case ListV(xs) => xs != []
  }

  const NUL: char := '\0'

  /** Python `'\0' in v`: a character of text, a byte of a byte string, or an element
      equal to the one-character string `'\0'` (which, in Python 2, equals both the byte
      string and the text string) of a list. Numbers and None raise TypeError. */
  function ContainsNul(v: Value): (r: Result<bool>)
    ensures r.Ok? <==> (v.StrV? || v.BytesV? || v.ListV?)
    ensures r.Err? ==> r.error == TypeError
  {
    match v
    case StrV(s) => Ok(NUL in s)
    case BytesV(b) => Ok(0 in b)
    case ListV(xs) => Ok(StrV([NUL]) in xs || BytesV([0]) in xs)
    case _ => Err(TypeError)
  }

  // ----- substring search (`needle in hay` on text) -----

  /** Python `needle in hay` for two strings. */
  function IsSubstring(needle: string, hay: string): bool
    decreases |hay|
  {
    needle <= hay || (hay != [] && IsSubstring(needle, hay[1..]))
  }

  ghost predicate OccursAt(needle: string, hay: string, i: int) {
    0 <= i && i + |needle| <= |hay| && hay[i..i + |needle|] == needle
  }

  /** The search finds the needle exactly when it occurs at some offset of the hay. */
  lemma {:induction false} IsSubstringIffOccurs(needle: string, hay: string)
    ensures IsSubstring(needle, hay) <==> exists i :: OccursAt(needle, hay, i)
    decreases |hay|
  {
    if needle <= hay {
      assert OccursAt(needle, hay, 0);
    } else if hay != [] {
      IsSubstringIffOccurs(needle, hay[1..]);
      if exists j :: OccursAt(needle, hay[1..], j) {
        var j :| OccursAt(needle, hay[1..], j);
        assert hay[1..][j..j + |needle|] == hay[j + 1..j + 1 + |needle|];
        assert OccursAt(needle, hay, j + 1);
      }
      if exists i :: OccursAt(needle, hay, i) {
        var i :| OccursAt(needle, hay, i);
        assert i != 0;
        TailSlice(hay, i, |needle|);
        assert OccursAt(needle, hay[1..], i - 1);
      }
    }
  }

  lemma TailSlice(hay: string, i: int, n: nat)
    requires 0 < i && i + n <= |hay|
    ensures hay[1..][i - 1..i - 1 + n] == hay[i..i + n]
  {
  }

  // ----- ordering of text (`<` on Python strings) -----

  /** Python `a < b` on strings: code-point-wise lexicographic order. */
  function StrLess(a: string, b: string): bool
    decreases |a|
  {
    if a == [] then b != []
    else if b == [] then false
    else if a[0] != b[0] then a[0] < b[0]
    else StrLess(a[1..], b[1..])
  }

  /** `a` and `b` agree before position `i`, where `a` has the smaller character. */
  ghost predicate SmallerAt(a: string, b: string, i: int) {
    0 <= i < |a| && i < |b| && a[..i] == b[..i] && a[i] < b[i]
  }

  /** The textbook lexicographic order: `a` is a proper prefix of `b`, or the two
      agree up to a position where `a` has the smaller character. */
  ghost predicate LexBefore(a: string, b: string) {
    (a < b) || exists i :: SmallerAt(a, b, i)
  }

  lemma SmallerAtTail(a: string, b: string, i: int)
    requires |a| > 0 && |b| > 0 && a[0] == b[0] && i > 0
    ensures SmallerAt(a, b, i) <==> SmallerAt(a[1..], b[1..], i - 1)
  {
    if 0 <= i - 1 < |a[1..]| && i - 1 < |b[1..]| {
      assert a[i] == a[1..][i - 1] && b[i] == b[1..][i - 1];
      assert a[..i] == [a[0]] + a[1..][..i - 1];
      assert b[..i] == [b[0]] + b[1..][..i - 1];
      assert a[..i][1..] == a[1..][..i - 1] && b[..i][1..] == b[1..][..i - 1];
    }
  }

  lemma ProperPrefixTail(a: string, b: string)
    requires |a| > 0 && |b| > 0 && a[0] == b[0]
    ensures (a < b) <==> (a[1..] < b[1..])
  {
    assert a == [a[0]] + a[1..] && b == [b[0]] + b[1..];
  }

  lemma {:induction false} StrLessIsLexicographic(a: string, b: string)
    ensures StrLess(a, b) <==> LexBefore(a, b)
    decreases |a|
  {
    if a == [] {
      assert a < b <==> b != [];
    } else if b == [] {
    } else if a[0] != b[0] {
      assert !(a < b);
      if a[0] < b[0] {
        assert SmallerAt(a, b, 0);
      }
    } else {
      StrLessIsLexicographic(a[1..], b[1..]);
      ProperPrefixTail(a, b);
      if exists j :: SmallerAt(a[1..], b[1..], j) {
        var j :| SmallerAt(a[1..], b[1..], j);
        SmallerAtTail(a, b, j + 1);
      }
      if exists i :: SmallerAt(a, b, i) {
        var i :| SmallerAt(a, b, i);
        assert i != 0;
        SmallerAtTail(a, b, i);
      }
    }
  }

  /** Python's `<` on strings is trichotomous: `a < b` holds exactly when neither
      `a == b` nor `b < a` does. */
  lemma {:induction false} StrLessTrichotomy(a: string, b: string)
    ensures StrLess(a, b) <==> !(a == b || StrLess(b, a))
    decreases |a|
  {
    if a != [] && b != [] && a[0] == b[0] {
      StrLessTrichotomy(a[1..], b[1..]);
      assert a == [a[0]] + a[1..] && b == [b[0]] + b[1..];
    }
  }

  /** `<` on strings is transitive; with StrLessTrichotomy, a strict total order. */
  lemma {:induction false} StrLessTransitive(a: string, b: string, c: string)
    requires StrLess(a, b) && StrLess(b, c)
    ensures StrLess(a, c)
    decreases |a|
  {
    if a != [] && b != [] && c != [] && a[0] == b[0] && b[0] == c[0] {
      StrLessTransitive(a[1..], b[1..], c[1..]);
    }
  }

  // ----- `str()` of an integer -----

  predicate AllDigits(s: string) {
    forall i :: 0 <= i < |s| ==> '0' <= s[i] <= '9'
  }

  function DigitChar(d: int): (c: char)
    requires 0 <= d < 10
    ensures '0' <= c <= '9'
  {
    "0123456789"[d]
  }

  function DigitValue(c: char): (d: nat)
    requires '0' <= c <= '9'
  {
    (c as int) - ('0' as int)
  }

  /** Decimal digits of a natural number, most significant first, no leading zero. */
  function NatToString(n: nat): (s: string)
    ensures |s| > 0 && AllDigits(s)
    decreases n
  {
    if n < 10 then [DigitChar(n)] else NatToString(n / 10) + [DigitChar(n % 10)]
  }

  /** Python `str(i)` for an integer. */
  function IntToString(i: int): string {
    if i < 0 then "-" + NatToString(-i) else NatToString(i)
  }

  /** Reads a string of decimal digits back as a number. */
  function ParseNat(s: string): nat
    requires AllDigits(s)
    decreases |s|
  {
    if s == [] then 0 else ParseNat(s[..|s| - 1]) * 10 + DigitValue(s[|s| - 1])
  }

  lemma {:induction false} ParseNatOfNatToString(n: nat)
    ensures ParseNat(NatToString(n)) == n
    decreases n
  {
    if n >= 10 {
      var s := NatToString(n / 10);
      assert (s + [DigitChar(n % 10)])[..|s|] == s;
      ParseNatOfNatToString(n / 10);
    } else {
      assert "0123456789"[n] as int - '0' as int == n;
    }
  }

  lemma NatToStringInjective(m: nat, n: nat)
    requires NatToString(m) == NatToString(n)
    ensures m == n
  {
    ParseNatOfNatToString(m);
    ParseNatOfNatToString(n);
  }

  lemma SignOfString(i: int)
    ensures |IntToString(i)| > 0 && (IntToString(i)[0] == '-' <==> i < 0)
  {
    if i >= 0 {
      var s := NatToString(i);
      assert '0' <= s[0];
    }
  }

  lemma DropSign(m: nat)
    ensures ("-" + NatToString(m))[1..] == NatToString(m)
  {
  }

  lemma SameSign(i: int, j: int)
    requires IntToString(i) == IntToString(j)
    ensures i < 0 <==> j < 0
  {
    SignOfString(i);
    SignOfString(j);
  }

  /** `str()` is injective on integers, so comparing the strings of two numbers
      compares the numbers. */
  lemma {:induction false} IntToStringInjective(i: int, j: int)
    requires IntToString(i) == IntToString(j)
    ensures i == j
  {
    SameSign(i, j);
    if i < 0 {
      NegativeStringInjective(-i, -j);
    } else {
      NatToStringInjective(i, j);
    }
  }

  lemma NegativeStringInjective(m: nat, n: nat)
    requires "-" + NatToString(m) == "-" + NatToString(n)
    ensures m == n
  {
    DropSign(m);
    DropSign(n);
    NatToStringInjective(m, n);
  }

  /** The values that Python's `str()` is modelled on. */
  predicate Stringable(v: Value) {
    v.NoneV? || v.IntV? || v.StrV?
  }

  /** Python 3 `str(v)`. */
  function ToStr(v: Value): string
    requires Stringable(v)
  {
    match v
    case NoneV => "None"
    case IntV(i) => IntToString(i)
    case StrV(s) => s
  }
}
