/** Key types there are: codecs that are sound, of fixed size and of any size. */
module KeyTypes {
  import opened Types
  import opened Layout

  // ---- Numbers of 64 bits

  predicate IsNumber(k: Key) {
    0.0 <= k < ADDRESS_SPACE as real && k.Floor as real == k
  }

  /** The keys that are numbers of 64 bits, in eight bytes each. */
  function NumberCodec(): Codec {
    Codec(k => IsNumber(k), k => if IsNumber(k) then U64(k.Floor) else [], s => if s == [] then 0.0 else FromLE(s) as real, Some(8), None)
  }

  ghost predicate HasNumber(c: Codec, n: nat) {
    c.has(n as real) && |c.enc(n as real)| <= MAX_LENGTH
  }

  /** A key type that has the numbers of 64 bits among its keys. */
  ghost predicate HasNumbers(c: Codec) {
    forall n :: 0 <= n < ADDRESS_SPACE ==> HasNumber(c, n)
  }

  lemma {:induction false} NumbersAreKeys()
    ensures Sound(NumberCodec()) && HasNumbers(NumberCodec())
  {
    hide U64, FromLE;
    var c := NumberCodec();
    forall k | c.has(k)
      ensures c.dec(c.enc(k)) == k && AllBytes(c.enc(k)) && |c.enc(k)| == 8
    {
      FieldsFit(k.Floor);
    }
    forall n | 0 <= n < ADDRESS_SPACE
      ensures HasNumber(c, n)
    {
      assert (n as real).Floor == n;
    }
  }

  // ---- Fractions: every countable order is one of fractions

  ghost predicate Ratio(k: Key, p: int, q: nat) {
    0 < q && k * (q as real) == p as real
  }

  ghost predicate Rational(k: Key) {
    exists p, q :: Ratio(k, p, q)
  }

  function Repeat(x: Cell, n: nat): Bytes {
    seq(n, _ => x)
  }

  /** A fraction as its sign, its numerator in ones and its denominator in zeroes. */
  ghost function Spell(k: Key): Bytes {
    if Rational(k) then
      var p, q :| Ratio(k, p, q);
      [if p < 0 then 1 else 0] + (Repeat(1, if p < 0 then -p else p) + Repeat(0, q))
    else []
  }

  function Ones(s: Bytes): (n: nat)
    ensures n <= |s|
  {
    if s == [] || s[0] != 1 then 0 else 1 + Ones(s[1..])
  }

  function Unspell(s: Bytes): Key {
    if s == [] then 0.0
    else
      var n: int := Ones(s[1..]);
      var q := |s| - 1 - n;
      if q == 0 then 0.0 else (if s[0] == 1 then -n else n) as real / q as real
  }

  lemma {:induction false} OnesCounted(n: nat, q: nat)
    requires 0 < q
    ensures Ones(Repeat(1, n) + Repeat(0, q)) == n
  {
    if 0 < n {
      var s := Repeat(1, n) + Repeat(0, q);
      assert s[1..] == Repeat(1, n - 1) + Repeat(0, q);
      OnesCounted(n - 1, q);
    }
  }

  lemma {:induction false} Unspelt(k: Key)
    requires Rational(k)
    ensures Unspell(Spell(k)) == k && AllBytes(Spell(k))
  {
    var p, q :| Ratio(k, p, q) && Spell(k) == [if p < 0 then 1 else 0] + (Repeat(1, if p < 0 then -p else p) + Repeat(0, q));
    var n := if p < 0 then -p else p;
    OnesCounted(n, q);
    assert Spell(k)[1..] == Repeat(1, n) + Repeat(0, q);
    assert |Spell(k)| - 1 - n == q;
    Quotient(k, p, q);
  }

  lemma {:induction false} Quotient(k: Key, p: int, q: nat)
    requires Ratio(k, p, q)
    ensures p as real / q as real == k
  {
  }

  ghost function FractionCodec(): Codec {
    Codec(k => Rational(k), k => Spell(k), s => Unspell(s), None, None)
  }

  /** There is a sound codec for all fractions. A key type has countably many values, so it is, as an order, a set of
      fractions, and a codec for it is one for those. */
  lemma {:induction false} FractionsAreKeys()
    ensures Sound(FractionCodec()) && forall k :: FractionCodec().has(k) <==> Rational(k)
  {
    hide Spell, Unspell, Rational;
    forall k | FractionCodec().has(k)
      ensures FractionCodec().dec(FractionCodec().enc(k)) == k && AllBytes(FractionCodec().enc(k))
    {
      Unspelt(k);
    }
  }
}
