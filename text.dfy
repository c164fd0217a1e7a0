/** The string operations the email normalisation chains together:
    Python's `str.strip()` with no argument and `str.lower()`.
    Strip removes exactly the characters Python counts as whitespace;
    case mapping covers the ASCII letters only. */
module Text {

  /** Python's `str.isspace()` for a single character. */
  predicate IsSpace(c: char)
  {
    || '\U{9}' <= c <= '\U{d}'
    || '\U{1c}' <= c <= '\U{20}'
    || c == '\U{85}' || c == '\U{a0}' || c == '\U{1680}'
    || '\U{2000}' <= c <= '\U{200a}'
    || c == '\U{2028}' || c == '\U{2029}' || c == '\U{202f}'
    || c == '\U{205f}' || c == '\U{3000}'
  }

  predicate AllSpace(s: string)
  {
    forall i :: 0 <= i < |s| ==> IsSpace(s[i])
  }

  function Lower(c: char): char
  {
    if 'A' <= c <= 'Z' then (c as int + 32) as char else c
  }

  function Upper(c: char): char
  {
    if 'a' <= c <= 'z' then (c as int - 32) as char else c
  }

  /** `s.lower()` */
  function LowerString(s: string): string
  {
    seq(|s|, i requires 0 <= i < |s| => Lower(s[i]))
  }

  /** `s.upper()` */
  function UpperString(s: string): string
  {
    seq(|s|, i requires 0 <= i < |s| => Upper(s[i]))
  }

  /** `s.lstrip()` */
  function TrimStart(s: string): string
  {
    if |s| > 0 && IsSpace(s[0]) then TrimStart(s[1..]) else s
  }

  /** `s.rstrip()` */
  function TrimEnd(s: string): string
  {
    if |s| > 0 && IsSpace(s[|s| - 1]) then TrimEnd(s[..|s| - 1]) else s
  }

  /** `s.strip()` */
  function Strip(s: string): string
  {
    TrimEnd(TrimStart(s))
  }

  /** lstrip removes a whitespace prefix and leaves a suffix that does not
      start with whitespace. */
  lemma {:induction false} TrimStartShape(s: string)
    ensures var r := TrimStart(s);
            && |r| <= |s| && r == s[|s| - |r|..]
            && AllSpace(s[..|s| - |r|])
            && (r == [] || !IsSpace(r[0]))
  {
    if |s| > 0 && IsSpace(s[0]) {
      TrimStartShape(s[1..]);
      var r := TrimStart(s);
      assert s[1..][|s| - 1 - |r|..] == s[|s| - |r|..];
      assert forall i :: 0 <= i < |s| - |r| ==> s[i] == if i == 0 then s[0] else s[1..][i - 1];
    }
  }

  /** rstrip removes a whitespace suffix and leaves a prefix that does not
      end with whitespace. */
  lemma {:induction false} TrimEndShape(s: string)
    ensures var r := TrimEnd(s);
            && |r| <= |s| && r == s[..|r|]
            && AllSpace(s[|r|..])
            && (r == [] || !IsSpace(r[|r| - 1]))
  {
    if |s| > 0 && IsSpace(s[|s| - 1]) {
      TrimEndShape(s[..|s| - 1]);
      var r := TrimEnd(s);
      assert s[..|s| - 1][..|r|] == s[..|r|];
      assert forall i :: |r| <= i < |s| ==> s[i] == if i == |s| - 1 then s[|s| - 1] else s[..|s| - 1][i];
    }
  }

  lemma LowerKeepsSpace(c: char)
    ensures IsSpace(Lower(c)) == IsSpace(c)
  {
  }

  lemma LowerIdempotent(s: string)
    ensures LowerString(LowerString(s)) == LowerString(s)
  {
  }

  /** Lower-casing an upper-cased string gives the lower-cased original. */
  lemma LowerOfUpper(s: string)
    ensures LowerString(UpperString(s)) == LowerString(s)
  {
  }

  lemma {:induction false} LowerTrimStart(s: string)
    ensures LowerString(TrimStart(s)) == TrimStart(LowerString(s))
  {
    if |s| > 0 {
      LowerKeepsSpace(s[0]);
      assert LowerString(s)[1..] == LowerString(s[1..]);
      if IsSpace(s[0]) {
        LowerTrimStart(s[1..]);
      }
    }
  }

  lemma {:induction false} LowerTrimEnd(s: string)
    ensures LowerString(TrimEnd(s)) == TrimEnd(LowerString(s))
  {
    if |s| > 0 {
      LowerKeepsSpace(s[|s| - 1]);
      assert LowerString(s)[..|s| - 1] == LowerString(s[..|s| - 1]);
      if IsSpace(s[|s| - 1]) {
        LowerTrimEnd(s[..|s| - 1]);
      }
    }
  }

  /** Lower-casing and stripping commute, because no ASCII letter is whitespace. */
  lemma LowerStrip(s: string)
    ensures LowerString(Strip(s)) == Strip(LowerString(s))
  {
    LowerTrimEnd(TrimStart(s));
    LowerTrimStart(s);
  }

  /** A string that does not start with whitespace keeps its head under rstrip. */
  lemma TrimStartOfTrimEnd(s: string)
    requires s == [] || !IsSpace(s[0])
    ensures TrimStart(TrimEnd(s)) == TrimEnd(s)
  {
    TrimEndShape(s);
  }

  lemma StripIdempotent(s: string)
    ensures Strip(Strip(s)) == Strip(s)
  {
    var t := TrimStart(s);
    TrimStartShape(s);
    TrimStartOfTrimEnd(t);
    var u := TrimEnd(t);
    TrimEndShape(t);
    assert TrimEnd(u) == u;
  }

  /** A blank string strips to nothing. */
  lemma StripAllSpace(s: string)
    requires AllSpace(s)
    ensures Strip(s) == []
  {
    TrimStartAllSpace(s);
  }

  lemma TrimStartAllSpace(s: string)
    requires AllSpace(s)
    ensures TrimStart(s) == []
  {
    TrimStartShape(s);
  }

  /** Leading whitespace does not survive lstrip. */
  lemma {:induction false} TrimStartPadded(p: string, e: string)
    requires AllSpace(p)
    ensures TrimStart(p + e) == TrimStart(e)
  {
    if |p| > 0 {
      var pe := p + e;
      assert pe[0] == p[0] && IsSpace(p[0]);
      assert pe[1..] == p[1..] + e;
      assert TrimStart(pe) == TrimStart(pe[1..]);
      TrimStartPadded(p[1..], e);
    } else {
      assert p + e == e;
    }
  }

  /** Trailing whitespace does not survive rstrip. */
  lemma {:induction false} TrimEndPadded(e: string, q: string)
    requires AllSpace(q)
    ensures TrimEnd(e + q) == TrimEnd(e)
  {
    if |q| > 0 {
      var eq := e + q;
      assert eq[|eq| - 1] == q[|q| - 1] && IsSpace(q[|q| - 1]);
      assert eq[..|eq| - 1] == e + q[..|q| - 1];
      assert TrimEnd(eq) == TrimEnd(eq[..|eq| - 1]);
      TrimEndPadded(e, q[..|q| - 1]);
    } else {
      assert e + q == e;
    }
  }

  /** lstrip of `e + q` strips only inside `e` when `e` has a non-space. */
  lemma {:induction false} TrimStartAppend(e: string, q: string)
    requires !AllSpace(e)
    ensures TrimStart(e + q) == TrimStart(e) + q
  {
    assert |e| > 0;
    if IsSpace(e[0]) {
      assert (e + q)[1..] == e[1..] + q;
      TrimStartAppend(e[1..], q);
    }
  }

  /** Whitespace around a value makes no difference to `strip()`. */
  lemma StripPadded(p: string, e: string, q: string)
    requires AllSpace(p) && AllSpace(q)
    ensures Strip(p + e + q) == Strip(e)
  {
    assert p + e + q == p + (e + q);
    TrimStartPadded(p, e + q);
    if AllSpace(e) {
      TrimStartPadded(e, q);
      TrimStartAllSpace(q);
      TrimStartAllSpace(e);
    } else {
      TrimStartAppend(e, q);
      TrimEndPadded(TrimStart(e), q);
    }
  }
}
