/** The three Python string operations the handler relies on:
    `str.startswith`, `str.lower` and `str.strip()` (no argument). */
module Text {

  /** Python's `str.isspace()` for one character: the characters that
      `str.strip()` with no argument removes. */
  predicate IsSpace(c: char)
  {
    || '\t' <= c <= '\r'
    || '\U{1C}' <= c <= ' '
    || c == '\U{85}' || c == '\U{A0}' || c == '\U{1680}'
    || '\U{2000}' <= c <= '\U{200A}'
    || c == '\U{2028}' || c == '\U{2029}' || c == '\U{202F}'
    || c == '\U{205F}' || c == '\U{3000}'
  }

  predicate IsUpper(c: char)
  {
    'A' <= c <= 'Z'
  }

  /** `s[a..b]` is whitespace only. */
  predicate SpaceBetween(s: string, a: nat, b: nat)
    requires a <= b <= |s|
  {
    forall m :: a <= m < b ==> IsSpace(s[m])
  }

  /** `s[a..b]` has no whitespace at either end. */
  predicate StrippedBetween(s: string, a: nat, b: nat)
    requires a <= b <= |s|
  {
    a == b || (!IsSpace(s[a]) && !IsSpace(s[b - 1]))
  }

  predicate AllSpace(w: string)
  {
    SpaceBetween(w, 0, |w|)
  }

  predicate IsStripped(w: string)
  {
    StrippedBetween(w, 0, |w|)
  }

  /** `str.startswith(prefix)` */
  predicate StartsWith(s: string, prefix: string)
  {
    |prefix| <= |s| && s[..|prefix|] == prefix
  }

  /** `str.lower()` on one character, over the ASCII letters. */
  function LowerChar(c: char): (d: char)
    ensures !IsUpper(d)
    ensures IsSpace(d) <==> IsSpace(c)
    ensures !IsUpper(c) ==> d == c
    ensures IsUpper(c) ==> d == "abcdefghijklmnopqrstuvwxyz"[c as int - 'A' as int]
  {
    if IsUpper(c) then (c as int - 'A' as int + 'a' as int) as char else c
  }

  /** `str.lower()`: each character lowered on its own. */
  function Lower(s: string): string
  {
    seq(|s|, i requires 0 <= i < |s| => LowerChar(s[i]))
  }

  /** The first index at or after `i` that is not whitespace (or `|s|`):
      where `str.strip()` starts its result. */
  function SkipSpace(s: string, i: nat): (k: nat)
    requires i <= |s|
    ensures i <= k <= |s|
    ensures SpaceBetween(s, i, k)
    ensures k == |s| || !IsSpace(s[k])
    decreases |s| - i
  {
    if i < |s| && IsSpace(s[i]) then SkipSpace(s, i + 1) else i
  }

  /** Moving back from `j`, but not below `lo`, the end of the last
      non-whitespace character: where `str.strip()` ends its result. */
  function BackSpace(s: string, lo: nat, j: nat): (e: nat)
    requires lo <= j <= |s|
    ensures lo <= e <= j
    ensures SpaceBetween(s, e, j)
    ensures e == lo || !IsSpace(s[e - 1])
    decreases j
  {
    if lo < j && IsSpace(s[j - 1]) then BackSpace(s, lo, j - 1) else j
  }

  /** Where `str.strip()` starts its result. */
  function StripStart(s: string): nat
  {
    SkipSpace(s, 0)
  }

  /** Where `str.strip()` ends its result. */
  function StripEnd(s: string): nat
  {
    BackSpace(s, StripStart(s), |s|)
  }

  /** `str.strip()`: skip whitespace from the front, then from the back. */
  function Strip(s: string): string
  {
    s[StripStart(s)..StripEnd(s)]
  }

  /** The phase normalisation of the handler: `lower()` then `strip()`. */
  function Normalise(s: string): string
  {
    Strip(Lower(s))
  }

  /** `Strip` keeps a contiguous middle part of `s` with no whitespace at
      either end, and everything it cuts off is whitespace. */
  lemma StripSplits(s: string)
    ensures StripStart(s) <= StripEnd(s) <= |s|
    ensures SpaceBetween(s, 0, StripStart(s))
    ensures SpaceBetween(s, StripEnd(s), |s|)
    ensures StrippedBetween(s, StripStart(s), StripEnd(s))
    ensures IsStripped(Strip(s))
  {
  }

  /** `Strip` is determined by where it cuts: any middle part with only
      whitespace around it and none at its own ends is what `Strip` keeps. */
  lemma StripAt(s: string, i: nat, j: nat)
    requires i <= j <= |s|
    requires SpaceBetween(s, 0, i) && SpaceBetween(s, j, |s|) && StrippedBetween(s, i, j)
    ensures Strip(s) == s[i..j]
  {
    if i < j {
      assert StripStart(s) == i;
      assert StripEnd(s) == j;
    } else {
      assert StripStart(s) == |s|;
    }
  }

  /** Lowering does not move whitespace. */
  lemma LowerKeepsSpace(s: string, a: nat, b: nat)
    requires a <= b <= |s|
    ensures SpaceBetween(s, a, b) <==> SpaceBetween(Lower(s), a, b)
    ensures StrippedBetween(s, a, b) <==> StrippedBetween(Lower(s), a, b)
  {
    assert forall m :: a <= m < b ==> (IsSpace(s[m]) <==> IsSpace(Lower(s)[m]));
  }

  /** Lowering a part is the same part of the lowered string. */
  lemma LowerSlice(s: string, a: nat, b: nat)
    requires a <= b <= |s|
    ensures Lower(s[a..b]) == Lower(s)[a..b]
  {
    assert forall i :: 0 <= i < b - a ==> Lower(s[a..b])[i] == Lower(s)[a..b][i];
  }

  /** Text with no upper-case letter is its own lower case. */
  lemma LowerNoUpper(w: string)
    requires forall i :: 0 <= i < |w| ==> !IsUpper(w[i])
    ensures Lower(w) == w
  {
  }

  /** Lowering twice is lowering once. */
  lemma LowerIdempotent(s: string)
    ensures Lower(Lower(s)) == Lower(s)
  {
  }

  /** Stripping an already stripped string changes nothing. */
  lemma StripStripped(w: string)
    requires IsStripped(w)
    ensures Strip(w) == w
  {
    StripAt(w, 0, |w|);
  }

  /** The handler lowers, then strips; stripping first and lowering second
      gives the same string. */
  lemma {:induction false} NormaliseCommutes(s: string)
    ensures Normalise(s) == Lower(Strip(s))
  {
    StripSplits(s);
    var k := StripStart(s);
    var e := StripEnd(s);
    LowerKeepsSpace(s, 0, k);
    LowerKeepsSpace(s, e, |s|);
    LowerKeepsSpace(s, k, e);
    StripAt(Lower(s), k, e);
    LowerSlice(s, k, e);
  }

  /** Normalising an already normalised phase leaves it unchanged. */
  lemma {:induction false} NormaliseIdempotent(s: string)
    ensures Normalise(Normalise(s)) == Normalise(s)
  {
    NormaliseCommutes(s);
    var m := Strip(s);
    StripSplits(s);
    LowerKeepsSpace(m, 0, |m|);
    LowerIdempotent(m);
    StripStripped(Lower(m));
  }

  /** Text with no upper-case letter and no whitespace at its ends is
      already normalised. */
  lemma {:induction false} NormaliseNormal(w: string)
    requires forall i :: 0 <= i < |w| ==> !IsUpper(w[i])
    requires IsStripped(w)
    ensures Normalise(w) == w
  {
    LowerNoUpper(w);
    StripStripped(w);
  }

  /** Normalising text with only whitespace around `s[i..j]` lowers
      `s[i..j]`. */
  lemma {:induction false} NormaliseAt(s: string, i: nat, j: nat)
    requires i <= j <= |s|
    requires SpaceBetween(s, 0, i) && SpaceBetween(s, j, |s|) && StrippedBetween(s, i, j)
    ensures Normalise(s) == Lower(s[i..j])
  {
    LowerKeepsSpace(s, 0, i);
    LowerKeepsSpace(s, j, |s|);
    LowerKeepsSpace(s, i, j);
    StripAt(Lower(s), i, j);
    LowerSlice(s, i, j);
  }

  /** `s[i..j]` spells `w` up to case, with only whitespace around it. */
  predicate PaddedVariant(s: string, i: nat, j: nat, w: string)
  {
    i <= j <= |s| && SpaceBetween(s, 0, i) && SpaceBetween(s, j, |s|) && Lower(s[i..j]) == w
  }

  /** Normalisation keeps exactly the part `str.strip()` keeps, lowered. */
  lemma {:induction false} NormaliseFindsVariant(s: string)
    ensures PaddedVariant(s, StripStart(s), StripEnd(s), Normalise(s))
  {
    NormaliseCommutes(s);
    StripSplits(s);
  }

  /** A stripped `w` in any case with only whitespace around it normalises
      to `w` lowered. */
  lemma {:induction false} VariantNormalises(s: string, i: nat, j: nat, w: string)
    requires IsStripped(w) && PaddedVariant(s, i, j, w)
    ensures Normalise(s) == w
  {
    LowerSlice(s, i, j);
    LowerKeepsSpace(s, i, j);
    NormaliseAt(s, i, j);
  }

  /** A normalised string equals `w` (stripped, all lower case) exactly when
      the raw string is `w` in any mix of case with only whitespace around
      it. */
  lemma {:induction false} NormaliseMatches(s: string, w: string)
    requires IsStripped(w)
    ensures Normalise(s) == w <==> exists i: nat, j: nat :: PaddedVariant(s, i, j, w)
  {
    if Normalise(s) == w {
      NormaliseFindsVariant(s);
    }
    if exists i: nat, j: nat :: PaddedVariant(s, i, j, w) {
      var i: nat, j: nat :| PaddedVariant(s, i, j, w);
      VariantNormalises(s, i, j, w);
    }
  }
}
