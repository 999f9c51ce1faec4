/**
 * The exporter's 64-bit rolling hash, which maps Sleuth's string ids to
 * Zipkin's `long` ids: start from a fixed seed and, for each UTF-16 code
 * unit c, set h to 31 * h + c in wrapping `long` arithmetic. A null string
 * hashes to the seed.
 */
module Hashing {
  import opened JavaLang

  const SEED: Long := 1125899906842597

  /** One turn of the hash loop, evaluated as Java evaluates `31 * h + c`. */
  function Step(h: Long, c: Char): Long
  {
    LongAdd(LongMul(31, h), c)
  }

  /** The hash of a non-null string, specified over its prefixes. */
  function RollingHash(s: JString): Long
  {
    if |s| == 0 then SEED else Step(RollingHash(s[..|s| - 1]), s[|s| - 1])
  }

  /** The hash of a possibly-null string. */
  function HashOf(s: NullableString): Long
  {
    match s
    case None => SEED
    case Some(t) => RollingHash(t)
  }

  /** Reference definition: fold the characters in from the front, starting at h. */
  function FoldFrom(h: Long, s: JString): Long
    decreases |s|
  {
    if |s| == 0 then h else FoldFrom(Step(h, s[0]), s[1..])
  }

  /** 31 to the power n. */
  function Pow31(n: nat): nat
  {
    if n == 0 then 1 else 31 * Pow31(n - 1)
  }

  /** The polynomial sum of s[i] * 31^(|s| - 1 - i), in exact arithmetic. */
  function Poly(s: JString): int
  {
    if |s| == 0 then 0 else s[0] * Pow31(|s| - 1) + Poly(s[1..])
  }

  /** The hash loop: a null string returns the seed; otherwise one turn per code unit. */
  method Hash(s: NullableString) returns (h: Long)
    ensures h == HashOf(s)
    ensures s == None || s == Some([]) ==> h == SEED
  {
    h := SEED;
    if s.None? {
      return;
    }
    var str := s.value;
    var len := |str|;
    for i := 0 to len
      invariant h == RollingHash(str[..i])
    {
      assert str[..i + 1][..i] == str[..i];
      h := LongAdd(LongMul(31, h), str[i]);
    }
    assert str[..len] == str;
  }

  /** Appending one code unit: the new hash is 31 * old hash + c, modulo 2^64. */
  lemma {:induction false} HashRecurrence(s: JString, c: Char)
    ensures RollingHash(s + [c]) == Wrap(31 * RollingHash(s) + c)
    ensures Congruent(RollingHash(s + [c]), 31 * RollingHash(s) + c)
  {
    assert (s + [c])[..|s|] == s;
    MulAddWrapsOnce(31, RollingHash(s), c);
  }

  /** Hashing s + t continues from the hash of s, folding in t from the front. */
  lemma {:induction false} HashAppend(s: JString, t: JString)
    ensures RollingHash(s + t) == FoldFrom(RollingHash(s), t)
    decreases |t|
  {
    if |t| == 0 {
      assert s + t == s;
    } else {
      var s' := s + [t[0]];
      assert s'[..|s|] == s;
      assert RollingHash(s') == Step(RollingHash(s), t[0]);
      assert s + t == s' + t[1..];
      HashAppend(s', t[1..]);
    }
  }

  /** The prefix specification agrees with the front-to-back fold from the seed. */
  lemma {:induction false} RollingHashIsFold(s: JString)
    ensures RollingHash(s) == FoldFrom(SEED, s)
  {
    assert [] + s == s;
    HashAppend([], s);
  }

  /** Appending to the polynomial multiplies it by 31 and adds the new code unit. */
  lemma {:induction false} PolySnoc(s: JString, c: Char)
    ensures Poly(s + [c]) == 31 * Poly(s) + c
    decreases |s|
  {
    if |s| == 0 {
      assert [c][1..] == [];
    } else {
      assert (s + [c])[1..] == s[1..] + [c];
      PolySnoc(s[1..], c);
      assert Pow31(|s|) == 31 * Pow31(|s| - 1);
      calc {
        Poly(s + [c]);
        s[0] * Pow31(|s|) + Poly(s[1..] + [c]);
        s[0] * (31 * Pow31(|s| - 1)) + 31 * Poly(s[1..]) + c;
        31 * (s[0] * Pow31(|s| - 1) + Poly(s[1..])) + c;
      }
    }
  }

  /** Multiplying by 31 and adding c keeps two integers congruent modulo 2^64. */
  lemma StepCongruent(x: int, y: int, c: int)
    requires Congruent(x, y)
    ensures Congruent(31 * x + c, 31 * y + c)
  {
    var k := CongruentMultiple(x, y);
    CongruentByMultiple(31 * x + c, 31 * y + c, 31 * k);
  }

  /**
   * Closed form: the hash is the low 64 bits of
   * SEED * 31^n + s[0] * 31^(n-1) + ... + s[n-1], for n == |s|.
   */
  lemma {:induction false} HashClosedForm(s: JString)
    ensures RollingHash(s) == Wrap(SEED * Pow31(|s|) + Poly(s))
    decreases |s|
  {
    if |s| > 0 {
      var p, c := s[..|s| - 1], s[|s| - 1];
      assert s == p + [c];
      HashClosedForm(p);
      var x := SEED * Pow31(|p|) + Poly(p);
      HashRecurrence(p, c);
      StepCongruent(Wrap(x), x, c);
      WrapCongruent(31 * Wrap(x) + c, 31 * x + c);
      PolySnoc(p, c);
      assert Pow31(|s|) == 31 * Pow31(|p|);
      assert 31 * x + c == SEED * Pow31(|s|) + Poly(s);
    }
  }
}
