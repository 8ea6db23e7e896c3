/**
  The pieces of Go's strings, unicode and fmt packages that the orchestrator
  relies on, written out over `string` (a sequence of Unicode scalar values).
*/
module Text {

  /** unicode.IsSpace: the characters with the Unicode White_Space property. */
  predicate IsSpace(c: char)
  {
    || c == ' ' || c == '\t' || c == '\n' || c == '\U{B}' || c == '\U{C}' || c == '\r'
    || c == '\U{85}' || c == '\U{A0}' || c == '\U{1680}'
    || ('\U{2000}' <= c <= '\U{200A}')
    || c == '\U{2028}' || c == '\U{2029}' || c == '\U{202F}' || c == '\U{205F}' || c == '\U{3000}'
  }

  ghost predicate AllSpace(s: string)
  {
    forall i :: 0 <= i < |s| ==> IsSpace(s[i])
  }

  ghost predicate NoSpace(s: string)
  {
    forall i :: 0 <= i < |s| ==> !IsSpace(s[i])
  }

  /** The length of the run of white space that starts `s`. */
  function LeadingSpaces(s: string): (k: nat)
    ensures k <= |s| && AllSpace(s[..k])
    ensures k < |s| ==> !IsSpace(s[k])
  {
    if |s| > 0 && IsSpace(s[0]) then
      1 + LeadingSpaces(s[1..])
    else 0
  }

  /** The length of the run of white space that ends `s`. */
  function TrailingSpaces(s: string): (k: nat)
    ensures k <= |s| && AllSpace(s[|s| - k..])
    ensures k < |s| ==> !IsSpace(s[|s| - k - 1])
  {
    if |s| > 0 && IsSpace(s[|s| - 1]) then
      1 + TrailingSpaces(s[..|s| - 1])
    else 0
  }

  /** `t` without the white space that ends it. */
  function TrimRight(t: string): (r: string)
    ensures |r| <= |t| && r == t[..|r|] && AllSpace(t[|r|..])
    ensures |r| > 0 ==> !IsSpace(r[|r| - 1])
  {
    t[..|t| - TrailingSpaces(t)]
  }

  /**
    strings.TrimSpace: `s` is white space, then the result, then white space,
    and the result neither starts nor ends with white space.
  */
  function TrimSpace(s: string): (r: string)
    ensures var i := LeadingSpaces(s); i + |r| <= |s| && r == s[i..i + |r|] && AllSpace(s[i + |r|..])
    ensures |r| > 0 ==> !IsSpace(r[0]) && !IsSpace(r[|r| - 1])
  {
    var i := LeadingSpaces(s);
    var t := s[i..];
    var r := TrimRight(t);
    assert t[|r|..] == s[i + |r|..];
    assert |r| > 0 ==> r[0] == t[0];
    r
  }

  /** Trimming twice is trimming once. */
  lemma TrimSpaceIdempotent(s: string)
    ensures TrimSpace(TrimSpace(s)) == TrimSpace(s)
  {
    var r := TrimSpace(s);
    if |r| > 0 {
      assert LeadingSpaces(r) == 0;
      assert TrailingSpaces(r) == 0;
    }
  }

  /** The pieces joined back with `sep` between them. */
  function Join(parts: seq<string>, sep: char): string
    requires |parts| >= 1
  {
    if |parts| == 1 then parts[0] else parts[0] + [sep] + Join(parts[1..], sep)
  }

  /**
    strings.Split with a one-character separator: at least one piece, no piece
    holds the separator, and joining the pieces gives `s` back.
  */
  function Split(s: string, sep: char): (parts: seq<string>)
    ensures |parts| >= 1
    ensures forall i :: 0 <= i < |parts| ==> sep !in parts[i]
    ensures Join(parts, sep) == s
  {
    if s == [] then [""]
    else
      var rest := Split(s[1..], sep);
      if s[0] == sep then
        assert ([""] + rest)[1..] == rest;
        [""] + rest
      else
        var parts := [[s[0]] + rest[0]] + rest[1..];
        assert parts[1..] == rest[1..];
        parts
  }

  /** The characters of `s` that are not white space, in order. */
  ghost function RemoveSpaces(s: string): string
  {
    if s == [] then [] else (if IsSpace(s[0]) then [] else [s[0]]) + RemoveSpaces(s[1..])
  }

  function Concat(fs: seq<string>): string
  {
    if fs == [] then [] else fs[0] + Concat(fs[1..])
  }

  /**
    strings.Fields: the maximal runs of non-white-space characters. No field
    is empty or holds white space, and a string that starts with a
    non-space character starts its first field with it.
  */
  function Fields(s: string): (fs: seq<string>)
    ensures forall i :: 0 <= i < |fs| ==> |fs[i]| > 0 && NoSpace(fs[i])
    ensures |s| > 0 && !IsSpace(s[0]) ==> fs != [] && fs[0][0] == s[0]
  {
    if s == [] then []
    else
      var rest := Fields(s[1..]);
      if IsSpace(s[0]) then rest
      else if |s| > 1 && !IsSpace(s[1]) then [[s[0]] + rest[0]] + rest[1..]
      else [[s[0]]] + rest
  }

  /** The fields hold every non-white-space character of `s`, in order. */
  lemma {:induction false} FieldsCover(s: string)
    ensures Concat(Fields(s)) == RemoveSpaces(s)
  {
    if s != [] {
      var rest := Fields(s[1..]);
      FieldsCover(s[1..]);
      if IsSpace(s[0]) {
        assert Fields(s) == rest;
      } else if |s| > 1 && !IsSpace(s[1]) {
        var fs := [[s[0]] + rest[0]] + rest[1..];
        assert Fields(s) == fs;
        assert fs[1..] == rest[1..];
        calc {
          Concat(fs);
          ([s[0]] + rest[0]) + Concat(rest[1..]);
          [s[0]] + (rest[0] + Concat(rest[1..]));
          [s[0]] + Concat(rest);
        }
      } else {
        var fs := [[s[0]]] + rest;
        assert Fields(s) == fs;
        assert fs[1..] == rest;
      }
    }
  }

  /** Fields of a string given by its first character and the rest. */
  lemma FieldsCons(x: char, t: string)
    ensures Fields([x] + t) ==
      if IsSpace(x) then Fields(t)
      else if t != [] && !IsSpace(t[0]) then [[x] + Fields(t)[0]] + Fields(t)[1..]
      else [[x]] + Fields(t)
  {
    assert ([x] + t)[1..] == t;
  }

  /** A non-empty run of non-white-space characters is one field. */
  lemma {:induction false} FieldsWord(w: string)
    requires |w| > 0 && NoSpace(w)
    ensures Fields(w) == [w]
  {
    var tail := w[1..];
    assert [w[0]] + tail == w;
    FieldsCons(w[0], tail);
    if tail == [] {
      assert Fields(tail) == [];
      assert [w[0]] == w;
    } else {
      assert NoSpace(tail) by {
        forall i | 0 <= i < |tail| ensures !IsSpace(tail[i]) {
          assert tail[i] == w[i + 1];
        }
      }
      FieldsWord(tail);
      assert !IsSpace(tail[0]) by { assert tail[0] == w[1]; }
      assert [tail][1..] == [];
    }
  }

  /**
    A white-space character ends a field: the fields on its two sides are
    found separately. With FieldsWord, this fixes the fields as the maximal
    runs of non-white-space characters.
  */
  lemma {:induction false} FieldsSplit(a: string, c: char, b: string)
    requires IsSpace(c)
    ensures Fields(a + [c] + b) == Fields(a) + Fields(b)
  {
    if a == [] {
      assert a + [c] + b == [c] + b;
      FieldsCons(c, b);
    } else {
      var x, a' := a[0], a[1..];
      assert a == [x] + a';
      assert a + [c] + b == [x] + (a' + [c] + b);
      FieldsSplit(a', c, b);
      FieldsSplitStep(x, a', c, b);
    }
  }

  /** One more character in front of the left side keeps the split. */
  lemma FieldsSplitStep(x: char, a: string, c: char, b: string)
    requires IsSpace(c)
    requires Fields(a + [c] + b) == Fields(a) + Fields(b)
    ensures Fields([x] + (a + [c] + b)) == Fields([x] + a) + Fields(b)
  {
    var t := a + [c] + b;
    var fa, fb := Fields(a), Fields(b);
    FieldsCons(x, a);
    FieldsCons(x, t);
    if IsSpace(x) {
      assert Fields([x] + t) == fa + fb;
      assert Fields([x] + a) == fa;
    } else if a != [] && !IsSpace(a[0]) {
      assert t[0] == a[0];
      assert Fields([x] + t) == [[x] + (fa + fb)[0]] + (fa + fb)[1..];
      assert Fields([x] + a) == [[x] + fa[0]] + fa[1..];
      GlueAppend([x], fa, fb);
    } else {
      assert t[0] == (if a == [] then c else a[0]);
      assert Fields([x] + t) == [[x]] + (fa + fb);
      assert Fields([x] + a) == [[x]] + fa;
      assert [[x]] + (fa + fb) == ([[x]] + fa) + fb;
    }
  }

  /** Joining a prefix onto the first field commutes with appending more fields. */
  lemma GlueAppend(h: string, fa: seq<string>, fb: seq<string>)
    requires fa != []
    ensures [h + (fa + fb)[0]] + (fa + fb)[1..] == ([h + fa[0]] + fa[1..]) + fb
  {
    assert (fa + fb)[1..] == fa[1..] + fb;
  }

  /** There are no fields exactly when `s` is all white space. */
  lemma {:induction false} FieldsEmpty(s: string)
    ensures Fields(s) == [] <==> AllSpace(s)
  {
    if s != [] {
      FieldsEmpty(s[1..]);
      assert AllSpace(s) <==> IsSpace(s[0]) && AllSpace(s[1..]) by {
        if IsSpace(s[0]) && AllSpace(s[1..]) {
          forall i | 0 <= i < |s| ensures IsSpace(s[i]) {
            if i > 0 { assert s[i] == s[1..][i - 1]; }
          }
        }
      }
    }
  }

  /**
    unicode.ToLower for the characters whose lower case is ASCII: the
    capital letters, DOTTED CAPITAL I and KELVIN SIGN. Every other character
    is kept as it is.
  */
  function LowerChar(c: char): char
  {
    if 'A' <= c <= 'Z' then (c as int + 32) as char
    else if c == '\U{130}' then 'i'
    else if c == '\U{212A}' then 'k'
    else c
  }

  /** strings.ToLower, character by character. */
  function ToLower(s: string): string
  {
    seq(|s|, i requires 0 <= i < |s| => LowerChar(s[i]))
  }

  predicate HasSuffix(s: string, suffix: string)
  {
    |suffix| <= |s| && s[|s| - |suffix|..] == suffix
  }

  predicate IsDigit(c: char)
  {
    '0' <= c <= '9'
  }

  ghost predicate AllDigits(s: string)
  {
    forall i :: 0 <= i < |s| ==> IsDigit(s[i])
  }

  function DigitChar(d: nat): char
    requires d < 10
  {
    ('0' as int + d) as char
  }

  /** fmt's %d of a non-negative integer: decimal digits, no leading zero. */
  function DecNat(n: nat): (s: string)
    ensures |s| > 0 && AllDigits(s)
    ensures |s| > 1 ==> s[0] != '0'
  {
    if n < 10 then [DigitChar(n)] else DecNat(n / 10) + [DigitChar(n % 10)]
  }

  /** The number a string of decimal digits denotes. */
  function DecValue(s: string): nat
    requires AllDigits(s)
  {
    if s == [] then 0 else 10 * DecValue(s[..|s| - 1]) + (s[|s| - 1] as int - '0' as int)
  }

  /** Reading the digits of `n` back gives `n`. */
  lemma {:induction false} DecNatRoundTrip(n: nat)
    ensures DecValue(DecNat(n)) == n
  {
    if n >= 10 {
      var s := DecNat(n);
      assert s[..|s| - 1] == DecNat(n / 10);
      DecNatRoundTrip(n / 10);
    }
  }

  /** fmt's %d of any integer: a minus sign exactly for negative numbers. */
  function Dec(n: int): (s: string)
    ensures |s| > 0
    ensures '-' in s <==> n < 0
    ensures n >= 0 ==> AllDigits(s)
  {
    if n < 0 then "-" + DecNat(-n) else DecNat(n)
  }

  /** Distinct integers print differently. */
  lemma DecInjective(a: int, b: int)
    requires Dec(a) == Dec(b)
    ensures a == b
  {
    if a < 0 && b < 0 {
      assert DecNat(-a) == Dec(a)[1..];
      assert DecNat(-b) == Dec(b)[1..];
      DecNatRoundTrip(-a);
      DecNatRoundTrip(-b);
    } else if a >= 0 && b >= 0 {
      DecNatRoundTrip(a);
      DecNatRoundTrip(b);
    }
  }
}
