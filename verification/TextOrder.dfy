/** Three-way comparison of numbers and of strings. */
module TextOrder {

  datatype Ordering = Less | Equal | Greater {
    function Flip(): Ordering {
      match this
      case Less => Greater
      case Equal => Equal
      case Greater => Less
    }

    function Then(next: Ordering): Ordering {
      if this == Equal then next else this
    }
  }

  function CompareInts(a: int, b: int): Ordering {
    if a < b then Less else if a == b then Equal else Greater
  }

  /** Lexicographic order of strings. */
  function CompareStrings(a: string, b: string): Ordering {
    if a == [] || b == [] then CompareInts(|a|, |b|)
    else CompareInts(a[0] as int, b[0] as int).Then(CompareStrings(a[1..], b[1..]))
  }

  lemma {:induction false} ComparesEqualToItself(a: string)
    ensures CompareStrings(a, a) == Equal
  {
    if a != [] { ComparesEqualToItself(a[1..]); }
  }

  /** Strings with equally long heads compare by head, then by tail. */
  lemma {:induction false} ComparesByHead(p: string, q: string, x: string, y: string)
    requires |p| == |q|
    ensures CompareStrings(p + x, q + y) == CompareStrings(p, q).Then(CompareStrings(x, y))
  {
    if p == [] {
      assert p + x == x && q + y == y;
    } else {
      ComparesByHead(p[1..], q[1..], x, y);
      TailOfConcat(p, x);
      TailOfConcat(q, y);
    }
  }

  lemma TailOfConcat(p: string, x: string)
    requires p != []
    ensures (p + x)[0] == p[0] && (p + x)[1..] == p[1..] + x
  {
  }

  /** The first difference decides: a missing character comes before any, a smaller before a larger. */
  lemma FirstDifferenceDecides(common: string, x: string, y: string)
    requires x == [] || y == [] || x[0] != y[0]
    ensures CompareStrings(common + x, common + y) == Less <==> y != [] && (x == [] || x[0] < y[0])
    ensures CompareStrings(common + x, common + y) == Equal <==> x == [] && y == []
  {
    ComparesByHead(common, common, x, y);
    ComparesEqualToItself(common);
  }
}
