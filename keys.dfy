/**
 * Key composition. A single-key set lives under "<base>:{0}" with the tenant
 * ids, joined by ':', formatted into the placeholder; segment i of a
 * segmented set lives under "<base>:<i>:{0}" formatted the same way. The base
 * key is assumed free of '{' (and of the quote that the formatter treats
 * specially), so that the placeholder is the only brace in a template.
 */
module Keys {

  function Digit(d: int): char
    requires 0 <= d < 10
  {
    "0123456789"[d]
  }

  /** Decimal rendering of a natural number. */
  function NatToString(n: nat): (r: string)
    ensures |r| >= 1
    ensures '{' !in r && ':' !in r
    decreases n
  {
    if n < 10 then [Digit(n)] else NatToString(n / 10) + [Digit(n % 10)]
  }

  /** Decimal rendering of an integer, with a leading '-' when negative. */
  function IntToString(i: int): (r: string)
    ensures '{' !in r && ':' !in r
  {
    if i < 0 then "-" + NatToString(-i) else NatToString(i)
  }

  /** The ids joined by ':'. */
  function JoinIds(ids: seq<int>): (r: string)
    ensures '{' !in r
  {
    if |ids| == 0 then ""
    else if |ids| == 1 then IntToString(ids[0])
    else JoinIds(ids[..|ids| - 1]) + ":" + IntToString(ids[|ids| - 1])
  }

  /** Every occurrence of `pat` in `t`, scanning left to right, replaced by `rep`. */
  function ReplaceAll(t: string, pat: string, rep: string): string
    requires |pat| > 0
    decreases |t|
  {
    if |t| < |pat| then t
    else if t[..|pat|] == pat then rep + ReplaceAll(t[|pat|..], pat, rep)
    else [t[0]] + ReplaceAll(t[1..], pat, rep)
  }

  /** Formatting a template whose only brace group is the placeholder "{0}". */
  function Format(template: string, arg: string): string
  {
    ReplaceAll(template, "{0}", arg)
  }

  /** The key template of a single-key set. */
  function SingleTemplate(base: string): string
  {
    base + ":{0}"
  }

  /** The key of a single-key set for the given ids. */
  function SingleKey(base: string, ids: seq<int>): string
  {
    if |ids| == 0 then ReplaceAll(SingleTemplate(base), ":{0}", "")
    else Format(SingleTemplate(base), JoinIds(ids))
  }

  /** The key template of segment `index`. */
  function SegmentTemplate(base: string, index: nat): string
  {
    base + ":" + IntToString(index) + ":" + "{0}"
  }

  /** The key of segment `index` for the given ids. */
  function SegmentKey(base: string, index: nat, ids: seq<int>): string
  {
    Format(SegmentTemplate(base, index), JoinIds(ids))
  }

  lemma {:induction false} FormatAfterPlainPrefix(prefix: string, arg: string)
    requires '{' !in prefix
    ensures Format(prefix + "{0}", arg) == prefix + arg
    decreases |prefix|
  {
    var t := prefix + "{0}";
    if prefix == [] {
      assert t[..3] == "{0}";
      assert t[3..] == [];
      assert ReplaceAll(t[3..], "{0}", arg) == [];
    } else {
      assert t[0] == prefix[0];
      assert t[1..] == prefix[1..] + "{0}";
      FormatAfterPlainPrefix(prefix[1..], arg);
    }
  }

  lemma {:induction false} RemovePlaceholder(base: string)
    requires '{' !in base
    ensures ReplaceAll(base + ":{0}", ":{0}", "") == base
    decreases |base|
  {
    var t := base + ":{0}";
    if base == [] {
      assert t[..4] == ":{0}";
      assert t[4..] == [];
      assert ReplaceAll(t[4..], ":{0}", "") == [];
    } else {
      assert t[1] != '{' by {
        if |base| >= 2 { assert t[1] == base[1]; } else { assert t[1] == ':'; }
      }
      assert t[..4] != ":{0}";
      assert t[1..] == base[1..] + ":{0}";
      RemovePlaceholder(base[1..]);
    }
  }

  /** With no ids a single-key set lives under its base key. */
  lemma SingleKeyWithoutIds(base: string)
    requires '{' !in base
    ensures SingleKey(base, []) == base
  {
    RemovePlaceholder(base);
  }

  /** With ids a single-key set lives under base, ':', and the joined ids. */
  lemma SingleKeyWithIds(base: string, ids: seq<int>)
    requires '{' !in base && |ids| > 0
    ensures SingleKey(base, ids) == base + ":" + JoinIds(ids)
  {
    assert SingleTemplate(base) == (base + ":") + "{0}";
    FormatAfterPlainPrefix(base + ":", JoinIds(ids));
  }

  /** Segment `index` lives under base, ':', the index in decimal, ':', and the joined ids. */
  lemma SegmentKeyShape(base: string, index: nat, ids: seq<int>)
    requires '{' !in base
    ensures SegmentKey(base, index, ids) == base + ":" + IntToString(index) + ":" + JoinIds(ids)
  {
    var prefix := base + ":" + IntToString(index) + ":";
    assert SegmentTemplate(base, index) == prefix + "{0}";
    FormatAfterPlainPrefix(prefix, JoinIds(ids));
  }

  /** The rendering of `n` is the rendering of its leading digits, then its last digit. */
  lemma NatToStringLast(n: nat)
    ensures NatToString(n) == (if n < 10 then "" else NatToString(n / 10)) + [Digit(n % 10)]
  {
  }

  /** Distinct digits render as distinct characters. */
  lemma DigitInjective(d: int, e: int)
    requires 0 <= d < 10 && 0 <= e < 10 && Digit(d) == Digit(e)
    ensures d == e
  {
  }

  lemma {:induction false} NatToStringInjective(a: nat, b: nat)
    requires NatToString(a) == NatToString(b)
    ensures a == b
    decreases a
  {
    var sa, sb := NatToString(a), NatToString(b);
    NatToStringLast(a);
    NatToStringLast(b);
    var pa, pb := if a < 10 then "" else NatToString(a / 10), if b < 10 then "" else NatToString(b / 10);
    assert sa[|sa| - 1] == Digit(a % 10) && sb[|sb| - 1] == Digit(b % 10);
    DigitInjective(a % 10, b % 10);
    assert pa == sa[..|sa| - 1] && pb == sb[..|sb| - 1];
    if a >= 10 && b >= 10 {
      NatToStringInjective(a / 10, b / 10);
    }
  }

  /** Two colon-free fields followed by colon-led tails are equal when the concatenations are. */
  lemma FieldBeforeColon(a: string, b: string, q: string)
    requires ':' !in a && ':' !in b && |q| > 0 && q[0] == ':'
    requires a + q == b + q
    ensures a == b
  {
    assert a == (a + q)[..|a|];
    assert b == (b + q)[..|b|];
  }

  /** Distinct indexes give distinct segment key shapes. */
  lemma SegmentShapesDistinct(base: string, i: nat, j: nat, rest: string)
    requires i != j
    ensures base + ":" + IntToString(i) + ":" + rest != base + ":" + IntToString(j) + ":" + rest
  {
    var p, si, sj, q := base + ":", IntToString(i), IntToString(j), ":" + rest;
    assert p + si + ":" + rest == p + (si + q);
    assert p + sj + ":" + rest == p + (sj + q);
    if p + (si + q) == p + (sj + q) {
      assert si + q == (p + (si + q))[|p|..];
      assert sj + q == (p + (sj + q))[|p|..];
      FieldBeforeColon(si, sj, q);
      NatToStringInjective(i, j);
    }
  }

  /** Distinct segments of one logical set never share a key. */
  lemma SegmentKeysDistinct(base: string, i: nat, j: nat, ids: seq<int>)
    requires '{' !in base
    requires i != j
    ensures SegmentKey(base, i, ids) != SegmentKey(base, j, ids)
  {
    SegmentKeyShape(base, i, ids);
    SegmentKeyShape(base, j, ids);
    SegmentShapesDistinct(base, i, j, JoinIds(ids));
  }
}
