/** Planner values and their order: integers and floats compare by rounding the integer, yet the order
    is total and finer than rounding. */
module Values {

  datatype Ordering = Less | Equal | Greater

  function Reverse(o: Ordering): Ordering {
    match o case Less => Greater case Equal => Equal case Greater => Less
  }

  /** The first ordering unless it is Equal. */
  function Then(o: Ordering, p: Ordering): Ordering {
    if o == Equal then p else o
  }

  // ---------------------------------------------------------------- floats

  /** A number of the extended real line. */
  datatype Ext = NegInf | Fin(r: real) | PosInf

  /** A 64-bit float: a NaN with some payload, negative zero, or the number it stands for. */
  datatype F64 = NaN(payload: nat) | NegZero | Num(x: Ext)
  {
    function Number(): Ext
      requires !NaN?
    {
      if NegZero? then Fin(0.0) else x
    }

    predicate IsZero() {
      NegZero? || this == Num(Fin(0.0))
    }
  }

  function CompareExt(a: Ext, b: Ext): Ordering {
    if a == b then Equal
    else if a.NegInf? || b.PosInf? then Less
    else if a.PosInf? || b.NegInf? then Greater
    else if a.r < b.r then Less
    else Greater
  }

  function CompareBool(a: bool, b: bool): Ordering {
    if a == b then Equal else if b then Less else Greater
  }

  /** Numbers compare as numbers; a NaN equals every NaN and exceeds every number. */
  function CompareF64(a: F64, b: F64): Ordering {
    if a.NaN? || b.NaN? then CompareBool(a.NaN?, b.NaN?) else CompareExt(a.Number(), b.Number())
  }

  function CompareInt(a: int, b: int): Ordering {
    if a < b then Less else if a == b then Equal else Greater
  }

  function CompareText(a: string, b: string): Ordering {
    if a == b then Equal
    else if a == "" then Less
    else if b == "" then Greater
    else if a[0] != b[0] then if a[0] < b[0] then Less else Greater
    else CompareText(a[1..], b[1..])
  }

  // ---------------------------------------------------------------- values

  datatype Value = Null | Boolean(b: bool) | Integer(i: int) | Float(f: F64) | Text(s: string)

  function Rank(v: Value): nat {
    match v
    case Null => 0
    case Boolean(_) => 1
    case Integer(_) => 2
    case Float(_) => 2
    case Text(_) => 3
  }

  /** The float that an integer is cast to. */
  function Cast(round: int -> real, i: int): F64 {
    Num(Fin(round(i)))
  }

  function Compare(round: int -> real, v: Value, w: Value): Ordering {
    match (v, w)
    case (Boolean(a), Boolean(b)) => CompareBool(a, b)
    case (Integer(a), Integer(b)) => CompareInt(a, b)
    case (Float(a), Float(b)) => CompareF64(a, b)
    case (Integer(a), Float(b)) => Then(CompareF64(Cast(round, a), b), Less)
    case (Float(a), Integer(b)) => Then(CompareF64(a, Cast(round, b)), Greater)
    case (Text(a), Text(b)) => CompareText(a, b)
    case _ => CompareInt(Rank(v), Rank(w))
  }

  predicate Eq(v: Value, w: Value) {
    match (v, w)
    case (Null, Null) => true
    case (Boolean(a), Boolean(b)) => a == b
    case (Integer(a), Integer(b)) => a == b
    case (Float(a), Float(b)) => CompareF64(a, b) == Equal
    case (Text(a), Text(b)) => a == b
    case _ => false
  }

  /** What is fed to the hasher: the variant, and its content with all zeros and all NaNs made one. */
  datatype HashInput = HashInput(variant: nat, content: int, text: string)

  function CanonicalBits(bits: F64 -> nat, x: F64): nat {
    if x.IsZero() then 0 else if x.NaN? then bits(NaN(0)) else bits(x)
  }

  function Hash(bits: F64 -> nat, v: Value): HashInput {
    match v
    case Null => HashInput(0, 0, "")
    case Boolean(b) => HashInput(1, if b then 1 else 0, "")
    case Integer(i) => HashInput(2, i, "")
    case Float(x) => HashInput(3, CanonicalBits(bits, x), "")
    case Text(s) => HashInput(4, 0, s)
  }

  // ---------------------------------------------------------------- the order

  /** Rounding keeps the order of integers, though not their difference. */
  ghost predicate Monotone(round: int -> real) {
    forall a: int, b: int {:trigger round(a), round(b)} :: a <= b ==> round(a) <= round(b)
  }

  /** Where a float stands: a number, or above all of them. */
  datatype Place = At(e: Ext) | Top

  function ComparePlace(a: Place, b: Place): Ordering {
    if a.Top? || b.Top? then CompareBool(a.Top?, b.Top?) else CompareExt(a.e, b.e)
  }

  function PlaceOf(x: F64): Place {
    if x.NaN? then Top else At(x.Number())
  }

  /** The sort key of a number: where it rounds to, integers before floats, then the integer. */
  datatype Key = Key(place: Place, isFloat: bool, i: int)

  function KeyOf(round: int -> real, v: Value): Key
    requires v.Integer? || v.Float?
  {
    match v
    case Integer(i) => Key(At(Fin(round(i))), false, i)
    case Float(x) => Key(PlaceOf(x), true, 0)
  }

  function CompareKey(k: Key, l: Key): Ordering {
    Then(ComparePlace(k.place, l.place), Then(CompareBool(k.isFloat, l.isFloat), CompareInt(k.i, l.i)))
  }

  /** Numbers compare as their keys do: the comparison is lexicographic. */
  lemma CompareIsLexicographic(round: int -> real, v: Value, w: Value)
    requires Monotone(round) && (v.Integer? || v.Float?) && (w.Integer? || w.Float?)
    ensures Compare(round, v, w) == CompareKey(KeyOf(round, v), KeyOf(round, w))
  {
    if v.Integer? && w.Integer? {
      if v.i <= w.i { assert round(v.i) <= round(w.i); } else { assert round(w.i) <= round(v.i); }
    }
  }

  lemma KeysTransitive(a: Key, b: Key, c: Key)
    requires CompareKey(a, b) != Greater && CompareKey(b, c) != Greater
    ensures CompareKey(a, c) != Greater
    ensures CompareKey(a, c) == Equal ==> CompareKey(a, b) == Equal && CompareKey(b, c) == Equal
  {
  }

  lemma {:induction false} TextReverse(a: string, b: string)
    ensures CompareText(b, a) == Reverse(CompareText(a, b))
    ensures CompareText(a, b) == Equal <==> a == b
  {
    if a != "" && b != "" && a[0] == b[0] && a != b {
      TextReverse(a[1..], b[1..]);
      assert a == [a[0]] + a[1..] && b == [b[0]] + b[1..];
    }
  }

  lemma {:induction false} TextTransitive(a: string, b: string, c: string)
    requires CompareText(a, b) != Greater && CompareText(b, c) != Greater
    ensures CompareText(a, c) != Greater
    ensures CompareText(a, c) == Equal ==> a == b
  {
    TextReverse(a, b);
    TextReverse(b, c);
    TextReverse(a, c);
    if a != "" && b != "" && c != "" && a != b && b != c && a[0] == b[0] == c[0] {
      TextTransitive(a[1..], b[1..], c[1..]);
      assert a == [a[0]] + a[1..] && b == [b[0]] + b[1..] && c == [c[0]] + c[1..];
    }
  }

  /** One text comes first if it is a proper beginning of the other, or if its character is the smaller
      one where they first differ. */
  ghost predicate TextFirst(a: string, b: string) {
    a < b || exists k: nat :: FirstDifference(a, b, k) && a[k] < b[k]
  }

  ghost predicate FirstDifference(a: string, b: string, k: nat) {
    k < |a| && k < |b| && a[..k] == b[..k] && a[k] != b[k]
  }

  lemma {:induction false} TextLess(a: string, b: string)
    ensures CompareText(a, b) == Less <==> TextFirst(a, b)
  {
    if a != "" && b != "" && a[0] != b[0] {
      assert FirstDifference(a, b, 0);
    } else if a != "" && b != "" {
      var a', b' := a[1..], b[1..];
      TextLess(a', b');
      assert a == [a[0]] + a' && b == [b[0]] + b';
      assert a < b <==> a' < b';
      forall k: nat | FirstDifference(a, b, k) ensures k > 0 && FirstDifference(a', b', k - 1) {
        assert k > 0;
        assert a'[..k - 1] == a[..k][1..] && b'[..k - 1] == b[..k][1..];
      }
      forall k: nat | FirstDifference(a', b', k) ensures FirstDifference(a, b, k + 1) {
        assert a[..k + 1] == [a[0]] + a'[..k] && b[..k + 1] == [b[0]] + b'[..k];
      }
    }
  }

  /** The smaller of two numbers of the extended line. */
  predicate Smaller(a: Ext, b: Ext) {
    a != b && (a.NegInf? || b.PosInf? || (a.Fin? && b.Fin? && a.r < b.r))
  }

  /** Which of two values comes first: null, then false, then true, then numbers by size with NaN last,
      then texts by their characters.  Where an integer rounds to a float it comes before that float. */
  lemma LessMeans(round: int -> real, v: Value, w: Value)
    ensures v.Null? ==> (Compare(round, v, w) == Less <==> !w.Null?)
    ensures v.Boolean? && w.Boolean? ==> (Compare(round, v, w) == Less <==> !v.b && w.b)
    ensures v.Boolean? && !w.Boolean? ==> (Compare(round, v, w) == Less <==> !w.Null?)
    ensures v.Integer? && w.Integer? ==> (Compare(round, v, w) == Less <==> v.i < w.i)
    ensures v.Float? && w.Float? ==>
      (Compare(round, v, w) == Less <==> !v.f.NaN? && (w.f.NaN? || Smaller(v.f.Number(), w.f.Number())))
    ensures v.Integer? && w.Float? ==>
      (Compare(round, v, w) == Less <==> w.f.NaN? || !Smaller(w.f.Number(), Fin(round(v.i))))
    ensures v.Float? && w.Integer? ==>
      (Compare(round, v, w) == Less <==> !v.f.NaN? && Smaller(v.f.Number(), Fin(round(w.i))))
    ensures (v.Integer? || v.Float?) && !(w.Integer? || w.Float?) ==> (Compare(round, v, w) == Less <==> w.Text?)
    ensures v.Text? ==> (Compare(round, v, w) == Less <==> w.Text? && TextFirst(v.s, w.s))
  {
    if v.Text? && w.Text? { TextLess(v.s, w.s); }
  }

  /** Exchanging the operands reverses the result. */
  lemma CompareReverses(round: int -> real, v: Value, w: Value)
    ensures Compare(round, w, v) == Reverse(Compare(round, v, w))
  {
    if v.Text? && w.Text? { TextReverse(v.s, w.s); }
  }

  /** Equal in the order is equal as values, and equal values hash alike. */
  lemma EqualAgrees(round: int -> real, bits: F64 -> nat, v: Value, w: Value)
    ensures Compare(round, v, w) == Equal <==> Eq(v, w)
    ensures Eq(v, w) ==> Hash(bits, v) == Hash(bits, w)
  {
    if v.Text? && w.Text? { TextReverse(v.s, w.s); }
  }

  /** The bits tell the floats of a set apart, and those of zero are 0. */
  ghost predicate BitsOk(bits: F64 -> nat, floats: set<F64>) {
    && NaN(0) in floats && Num(Fin(0.0)) in floats && bits(Num(Fin(0.0))) == 0
    && forall x: F64, y: F64 {:trigger bits(x), bits(y)} :: x in floats && y in floats && bits(x) == bits(y) ==> x == y
  }

  /** What is hashed tells exactly the unequal values apart. */
  lemma HashedAlikeIsEqual(bits: F64 -> nat, floats: set<F64>, v: Value, w: Value)
    requires BitsOk(bits, floats) && (v.Float? ==> v.f in floats) && (w.Float? ==> w.f in floats)
    ensures Hash(bits, v) == Hash(bits, w) <==> Eq(v, w)
  {
    EqualAgrees(_ => 0.0, bits, v, w);
    if v.Float? && w.Float? {
      assert bits(NaN(0)) != bits(Num(Fin(0.0)));
    }
  }

  /** Kinds of values come in the order of their ranks. */
  lemma RankFirst(round: int -> real, a: Value, b: Value)
    ensures Rank(a) < Rank(b) ==> Compare(round, a, b) == Less
    ensures Rank(a) > Rank(b) ==> Compare(round, a, b) == Greater
  {
  }

  /** The order is transitive, also across integers and floats, whatever rounding loses. */
  lemma CompareTransitive(round: int -> real, a: Value, b: Value, c: Value)
    requires Monotone(round) && Compare(round, a, b) != Greater && Compare(round, b, c) != Greater
    ensures Compare(round, a, c) != Greater
    ensures Compare(round, a, c) == Equal ==> Eq(a, b) && Eq(b, c)
  {
    RankFirst(round, a, b);
    RankFirst(round, b, c);
    RankFirst(round, a, c);
    if Rank(a) == 2 && Rank(b) == 2 && Rank(c) == 2 {
      CompareIsLexicographic(round, a, b);
      CompareIsLexicographic(round, b, c);
      CompareIsLexicographic(round, a, c);
      KeysTransitive(KeyOf(round, a), KeyOf(round, b), KeyOf(round, c));
      EqualAgrees(round, _ => 0, a, b);
      EqualAgrees(round, _ => 0, b, c);
    } else if a.Text? && b.Text? && c.Text? {
      TextTransitive(a.s, b.s, c.s);
      TextReverse(a.s, b.s);
      TextReverse(b.s, c.s);
      TextReverse(a.s, c.s);
    }
  }

  /** Transitivity needs the rounding to be monotone: two integers that it exchanges make a cycle with
      a float between their images. */
  lemma MonotoneNeeded(round: int -> real, i: int, j: int)
    requires i < j && round(i) > round(j)
    ensures exists x: F64 ::
      Compare(round, Float(x), Integer(i)) == Less && Compare(round, Integer(i), Integer(j)) == Less
      && Compare(round, Integer(j), Float(x)) == Less
  {
    var x := Num(Fin((round(i) + round(j)) / 2.0));
    assert Compare(round, Float(x), Integer(i)) == Less;
  }

  /** The order is total for every rounding that is monotone, and for no other. */
  lemma TransitiveIffMonotone(round: int -> real)
    ensures Monotone(round)
      <==> forall a: Value, b: Value, c: Value {:trigger Compare(round, a, b), Compare(round, b, c)} ::
      Compare(round, a, b) != Greater && Compare(round, b, c) != Greater ==> Compare(round, a, c) != Greater
  {
    if Monotone(round) {
      forall a: Value, b: Value, c: Value {:trigger Compare(round, a, b), Compare(round, b, c)}
        | Compare(round, a, b) != Greater && Compare(round, b, c) != Greater
        ensures Compare(round, a, c) != Greater
      {
        CompareTransitive(round, a, b, c);
      }
    } else {
      var i: int, j: int :| i <= j && round(i) > round(j);
      MonotoneNeeded(round, i, j);
      var x: F64 :| Compare(round, Float(x), Integer(i)) == Less && Compare(round, Integer(i), Integer(j)) == Less
                    && Compare(round, Integer(j), Float(x)) == Less;
      CompareReverses(round, Integer(j), Float(x));
      assert Compare(round, Float(x), Integer(i)) != Greater && Compare(round, Integer(i), Integer(j)) != Greater;
    }
  }
}
