/** Version precedence (section 11 of Semantic Versioning 2.0.0), without build metadata. */
module SemVer {

  datatype Ordering = Less | Equal | Greater

  /** A dot-separated identifier of a pre-release. */
  datatype Identifier = Numeric(value: nat) | Alphanumeric(text: string)

  datatype Version = Version(major: nat, minor: nat, patch: nat, pre: seq<Identifier>)

  function Reverse(order: Ordering): Ordering {
    match order case Less => Greater case Equal => Equal case Greater => Less
  }

  function CompareInt(a: int, b: int): Ordering {
    if a < b then Less else if a == b then Equal else Greater
  }

  function CompareChar(a: char, b: char): Ordering {
    CompareInt(a as int, b as int)
  }

  /** Left to right, and when one list begins the other the longer one is greater. */
  function Lexicographic<T>(a: seq<T>, b: seq<T>, compare: (T, T) -> Ordering): Ordering {
    if a == [] && b == [] then Equal
    else if a == [] then Less
    else if b == [] then Greater
    else
      var first := compare(a[0], b[0]);
      if first == Equal then Lexicographic(a[1..], b[1..], compare) else first
  }

  /** Numbers are lower than texts, numbers compare by value, texts by their characters. */
  function CompareIdentifier(a: Identifier, b: Identifier): Ordering {
    match (a, b)
    case (Numeric(x), Numeric(y)) => CompareInt(x, y)
    case (Numeric(_), Alphanumeric(_)) => Less
    case (Alphanumeric(_), Numeric(_)) => Greater
    case (Alphanumeric(x), Alphanumeric(y)) => Lexicographic(x, y, CompareChar)
  }

  /** A version without a pre-release is greater than the same version with one. */
  function ComparePre(a: seq<Identifier>, b: seq<Identifier>): Ordering {
    if a == [] && b == [] then Equal
    else if a == [] then Greater
    else if b == [] then Less
    else Lexicographic(a, b, CompareIdentifier)
  }

  function Compare(a: Version, b: Version): Ordering {
    var core := Lexicographic<int>([a.major, a.minor, a.patch], [b.major, b.minor, b.patch], CompareInt);
    if core == Equal then ComparePre(a.pre, b.pre) else core
  }

  /** The laws of a total order, for three given values. */
  ghost predicate OrderedAt<T(!new)>(compare: (T, T) -> Ordering, a: T, b: T, c: T) {
    && (compare(a, b) == Equal <==> a == b)
    && compare(b, a) == Reverse(compare(a, b))
    && (compare(a, b) != Greater && compare(b, c) != Greater ==> compare(a, c) != Greater)
  }

  ghost predicate TotalOrder<T(!new)>(compare: (T, T) -> Ordering) {
    forall a, b, c :: OrderedAt(compare, a, b, c)
  }

  lemma {:induction false} LexicographicIsOrdered<T(!new)>(compare: (T, T) -> Ordering, a: seq<T>, b: seq<T>, c: seq<T>)
    requires TotalOrder(compare)
    ensures Lexicographic(a, b, compare) == Equal <==> a == b
    ensures Lexicographic(b, a, compare) == Reverse(Lexicographic(a, b, compare))
    ensures Lexicographic(a, b, compare) != Greater && Lexicographic(b, c, compare) != Greater ==>
              Lexicographic(a, c, compare) != Greater
  {
    if a != [] && b != [] {
      var rest := if c == [] then [] else c[1..];
      LexicographicIsOrdered(compare, a[1..], b[1..], rest);
      assert a == [a[0]] + a[1..] && b == [b[0]] + b[1..];
      assert OrderedAt(compare, a[0], b[0], a[0]);
      if c != [] {
        assert OrderedAt(compare, a[0], b[0], c[0]) && OrderedAt(compare, b[0], c[0], a[0]);
        assert OrderedAt(compare, a[0], c[0], b[0]) && OrderedAt(compare, c[0], b[0], a[0]);
        assert OrderedAt(compare, c[0], a[0], b[0]);
      }
    }
  }

  lemma IdentifiersAreOrdered()
    ensures TotalOrder(CompareIdentifier)
  {
    assert TotalOrder(CompareChar);
    forall a, b, c ensures OrderedAt(CompareIdentifier, a, b, c) {
      if a.Alphanumeric? && b.Alphanumeric? {
        LexicographicIsOrdered(CompareChar, a.text, b.text, if c.Alphanumeric? then c.text else "");
      }
    }
  }

  /** Precedence is a total order, also through pre-releases. */
  lemma PrecedenceIsATotalOrder(a: Version, b: Version, c: Version)
    ensures OrderedAt(Compare, a, b, c)
  {
    IdentifiersAreOrdered();
    var x: seq<int> := [a.major, a.minor, a.patch];
    var y: seq<int> := [b.major, b.minor, b.patch];
    var z: seq<int> := [c.major, c.minor, c.patch];
    assert TotalOrder(CompareInt);
    LexicographicIsOrdered(CompareInt, x, y, z);
    LexicographicIsOrdered(CompareInt, y, z, x);
    LexicographicIsOrdered(CompareInt, x, z, y);
    LexicographicIsOrdered(CompareInt, z, x, y);
    LexicographicIsOrdered(CompareIdentifier, a.pre, b.pre, c.pre);
    assert x == y <==> a.major == b.major && a.minor == b.minor && a.patch == b.patch by {
      assert x[0] == a.major && x[1] == a.minor && x[2] == a.patch;
      assert y[0] == b.major && y[1] == b.minor && y[2] == b.patch;
    }
  }

  // ---- What precedence decides ---------------------------------------------------------------------------

  /** One list is the beginning of the other, or the first elements in which they differ decide. */
  ghost predicate FirstDifference<T(!new)>(a: seq<T>, b: seq<T>, below: (T, T) -> bool) {
    exists k :: 0 <= k <= |a| && k <= |b| && a[..k] == b[..k] && DifferAt(a, b, below, k)
  }

  predicate DifferAt<T>(a: seq<T>, b: seq<T>, below: (T, T) -> bool, k: nat)
    requires k <= |a| && k <= |b|
  {
    k < |b| && (k == |a| || below(a[k], b[k]))
  }

  predicate CharBelow(a: char, b: char) {
    a < b
  }

  /** Numbers by value, texts by their characters, and a number below every text. */
  ghost predicate IdentifierBelow(a: Identifier, b: Identifier) {
    match (a, b)
    case (Numeric(x), Numeric(y)) => x < y
    case (Alphanumeric(x), Alphanumeric(y)) => FirstDifference(x, y, CharBelow)
    case _ => a.Numeric? && b.Alphanumeric?
  }

  /** A lower major number, or a lower minor under the same major, or a lower patch under the same both. */
  predicate CoreBelow(a: Version, b: Version) {
    || a.major < b.major
    || (a.major == b.major && a.minor < b.minor)
    || (a.major == b.major && a.minor == b.minor && a.patch < b.patch)
  }

  predicate SameCore(a: Version, b: Version) {
    a.major == b.major && a.minor == b.minor && a.patch == b.patch
  }

  /** Lower by the three numbers, or equal in them and a pre-release of it, or the lower of two pre-releases. */
  ghost predicate Precedes(a: Version, b: Version) {
    || CoreBelow(a, b)
    || (SameCore(a, b) && a.pre != [] && (b.pre == [] || FirstDifference(a.pre, b.pre, IdentifierBelow)))
  }

  /** Comparing from the left finds the first difference. */
  lemma {:induction false} LexicographicDecides<T(!new)>(
    a: seq<T>, b: seq<T>, compare: (T, T) -> Ordering, below: (T, T) -> bool)
    requires forall x, y :: (compare(x, y) == Equal <==> x == y) && (compare(x, y) == Less <==> below(x, y))
    ensures Lexicographic(a, b, compare) == Less <==> FirstDifference(a, b, below)
  {
    if a != [] && b != [] {
      LexicographicDecides(a[1..], b[1..], compare, below);
      if a[0] == b[0] {
        assert compare(a[0], b[0]) == Equal && !below(a[0], b[0]);
        DifferenceMovesOn(a, b, below);
      } else {
        assert forall k :: 0 < k <= |a| && k <= |b| ==> a[..k][0] == a[0] && b[..k][0] == b[0];
        assert FirstDifference(a, b, below) <==> DifferAt(a, b, below, 0);
      }
    } else if b != [] {
      assert DifferAt(a, b, below, 0) && a[..0] == b[..0];
    }
  }

  lemma DifferenceMovesOn<T(!new)>(a: seq<T>, b: seq<T>, below: (T, T) -> bool)
    requires a != [] && b != [] && a[0] == b[0] && !below(a[0], b[0])
    ensures FirstDifference(a, b, below) <==> FirstDifference(a[1..], b[1..], below)
  {
    if FirstDifference(a, b, below) {
      var k :| 0 <= k <= |a| && k <= |b| && a[..k] == b[..k] && DifferAt(a, b, below, k);
      assert a[1..][..k - 1] == a[..k][1..] && b[1..][..k - 1] == b[..k][1..];
      assert DifferAt(a[1..], b[1..], below, k - 1);
    }
    if FirstDifference(a[1..], b[1..], below) {
      DifferenceMovesBack(a, b, below);
    }
  }

  lemma DifferenceMovesBack<T(!new)>(a: seq<T>, b: seq<T>, below: (T, T) -> bool)
    requires a != [] && b != [] && a[0] == b[0] && FirstDifference(a[1..], b[1..], below)
    ensures FirstDifference(a, b, below)
  {
    var x, y := a[1..], b[1..];
    var k :| 0 <= k <= |x| && k <= |y| && x[..k] == y[..k] && DifferAt(x, y, below, k);
    assert a[..k + 1] == [a[0]] + x[..k] && b[..k + 1] == [b[0]] + y[..k];
    assert DifferAt(a, b, below, k + 1);
  }

  lemma CompareIdentifierDecides(a: Identifier, b: Identifier)
    ensures CompareIdentifier(a, b) == Less <==> IdentifierBelow(a, b)
  {
    if a.Alphanumeric? && b.Alphanumeric? {
      LexicographicDecides(a.text, b.text, CompareChar, CharBelow);
    }
  }

  lemma CompareCoreDecides(a: Version, b: Version)
    ensures Compare(a, b) == if CoreBelow(a, b) then Less else if CoreBelow(b, a) then Greater
                             else ComparePre(a.pre, b.pre)
  {
    var compare := CompareInt;
    assert [a.major, a.minor, a.patch] == [a.major] + [a.minor, a.patch];
    assert [b.major, b.minor, b.patch] == [b.major] + [b.minor, b.patch];
    assert Lexicographic<int>([a.patch], [b.patch], compare) == CompareInt(a.patch, b.patch);
    assert Lexicographic<int>([a.minor, a.patch], [b.minor, b.patch], compare) ==
      if a.minor == b.minor then CompareInt(a.patch, b.patch) else CompareInt(a.minor, b.minor) by {
      assert [a.minor, a.patch][1..] == [a.patch] && [b.minor, b.patch][1..] == [b.patch];
    }
    assert [a.major, a.minor, a.patch][1..] == [a.minor, a.patch];
    assert [b.major, b.minor, b.patch][1..] == [b.minor, b.patch];
  }

  /** Precedence in numbers and characters: which of two versions is lower, for all versions. */
  lemma CompareDecides(a: Version, b: Version)
    ensures Compare(a, b) == Less <==> Precedes(a, b)
    ensures Compare(a, b) == Greater <==> Precedes(b, a)
    ensures Compare(a, b) == Equal <==> a == b
  {
    PrecedenceIsATotalOrder(a, b, a);
    CompareIsLess(a, b);
    CompareIsLess(b, a);
  }

  lemma CompareIsLess(a: Version, b: Version)
    ensures Compare(a, b) == Less <==> Precedes(a, b)
  {
    CompareCoreDecides(a, b);
    if a.pre != [] && b.pre != [] {
      IdentifiersAreOrdered();
      forall x, y
        ensures CompareIdentifier(x, y) == Equal <==> x == y
        ensures CompareIdentifier(x, y) == Less <==> IdentifierBelow(x, y)
      {
        assert OrderedAt(CompareIdentifier, x, y, x);
        CompareIdentifierDecides(x, y);
      }
      LexicographicDecides(a.pre, b.pre, CompareIdentifier, IdentifierBelow);
    }
  }
}
