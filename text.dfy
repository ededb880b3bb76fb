/** Text helpers the report relies on: the order of Java's String.compareTo
    (which a TreeMap<String, _> iterates in), and Integer.toString for the
    non-negative counts that the report prints. */
module Text {

  /** a comes strictly before b in String.compareTo order: the first differing
      character decides, and a proper prefix comes first. Characters are compared
      by code point. */
  predicate Precedes(a: string, b: string)
    decreases |a|
  {
    if a == [] then b != []
    else b != [] && (a[0] < b[0] || (a[0] == b[0] && Precedes(a[1..], b[1..])))
  }

  lemma {:induction false} PrecedesIrreflexive(a: string)
    ensures !Precedes(a, a)
    decreases |a|
  {
    if a != [] {
      PrecedesIrreflexive(a[1..]);
    }
  }

  lemma {:induction false} PrecedesTransitive(a: string, b: string, c: string)
    requires Precedes(a, b) && Precedes(b, c)
    ensures Precedes(a, c)
    decreases |a|
  {
    if a != [] && a[0] == b[0] && b[0] == c[0] {
      PrecedesTransitive(a[1..], b[1..], c[1..]);
    }
  }

  lemma {:induction false} PrecedesTotal(a: string, b: string)
    ensures a == b || Precedes(a, b) || Precedes(b, a)
    decreases |a|
  {
    if a != [] && b != [] && a[0] == b[0] {
      PrecedesTotal(a[1..], b[1..]);
      assert a == [a[0]] + a[1..] && b == [b[0]] + b[1..];
    }
  }

  lemma PrecedesAsymmetric(a: string, b: string)
    requires Precedes(a, b)
    ensures !Precedes(b, a)
  {
    if Precedes(b, a) {
      PrecedesTransitive(a, b, a);
      PrecedesIrreflexive(a);
    }
  }

  /** Every element comes strictly before every later one; in particular there
      are no duplicates. */
  ghost predicate StrictlyAscending(s: seq<string>)
  {
    forall i, j :: 0 <= i < j < |s| ==> Precedes(s[i], s[j])
  }

  /** Inserts a new key into an ascending key list at its place. */
  function Insert(s: seq<string>, x: string): (r: seq<string>)
    ensures |r| == |s| + 1
    ensures forall y :: y in r <==> y in s || y == x
  {
    if s == [] then [x]
    else if Precedes(x, s[0]) then [x] + s
    else [s[0]] + Insert(s[1..], x)
  }

  lemma {:induction false} InsertAscending(s: seq<string>, x: string)
    requires StrictlyAscending(s) && x !in s
    ensures StrictlyAscending(Insert(s, x))
  {
    if s == [] {
    } else if Precedes(x, s[0]) {
      var r := Insert(s, x);
      forall i, j | 0 <= i < j < |r| ensures Precedes(r[i], r[j]) {
        if i == 0 && j > 1 {
          PrecedesTransitive(x, s[0], s[j - 1]);
        }
      }
    } else {
      InsertAscending(s[1..], x);
      PrecedesTotal(x, s[0]);
      var r := Insert(s, x);
      var t := Insert(s[1..], x);
      assert r == [s[0]] + t;
      forall i, j | 0 <= i < j < |r| ensures Precedes(r[i], r[j]) {
        if i == 0 {
          assert r[j] == t[j - 1] && t[j - 1] in t;
          assert r[j] == x || r[j] in s[1..];
        }
      }
    }
  }

  /** Some key of a non-empty set. */
  ghost function Pick(keys: set<string>): (k: string)
    requires keys != {}
    ensures k in keys
  {
    var k :| k in keys; k
  }

  /** The keys of a set in ascending order: what iterating a TreeMap's
      navigableKeySet yields. */
  ghost function SortedKeys(keys: set<string>): (r: seq<string>)
    ensures forall k :: k in r <==> k in keys
    decreases keys
  {
    if keys == {} then []
    else
      var k := Pick(keys);
      Insert(SortedKeys(keys - {k}), k)
  }

  /** The listing is ascending and lists every key once. */
  lemma {:induction false} SortedKeysAscending(keys: set<string>)
    ensures StrictlyAscending(SortedKeys(keys)) && |SortedKeys(keys)| == |keys|
    decreases keys
  {
    if keys != {} {
      var k := Pick(keys);
      SortedKeysAscending(keys - {k});
      InsertAscending(SortedKeys(keys - {k}), k);
    }
  }

  /** There is only one ascending enumeration of a set of keys. */
  lemma {:induction false} AscendingUnique(a: seq<string>, b: seq<string>)
    requires StrictlyAscending(a) && StrictlyAscending(b)
    requires forall k :: k in a <==> k in b
    ensures a == b
    decreases |a|
  {
    assert b != [] ==> b[0] in a;
    if a != [] {
      assert a[0] in b;
      assert b != [];
      if a[0] != b[0] {
        assert b[0] in a;
        var i :| 0 <= i < |a| && a[i] == b[0];
        var j :| 0 <= j < |b| && b[j] == a[0];
        assert Precedes(a[0], b[0]);
        assert Precedes(b[0], a[0]);
        PrecedesAsymmetric(a[0], b[0]);
      }
      forall k ensures k in a[1..] <==> k in b[1..] {
        if k in a[1..] {
          var i :| 1 <= i < |a| && a[i] == k;
          PrecedesIrreflexive(a[0]);
          assert k in b && k != b[0];
        }
        if k in b[1..] {
          var j :| 1 <= j < |b| && b[j] == k;
          PrecedesIrreflexive(b[0]);
          assert k in a && k != a[0];
        }
      }
      AscendingUnique(a[1..], b[1..]);
      assert a == [a[0]] + a[1..] && b == [b[0]] + b[1..];
    }
  }

  /** Lists the keys of a map in the order a TreeMap iterates them. */
  method AscendingKeys(keys: set<string>) returns (r: seq<string>)
    ensures r == SortedKeys(keys)
  {
    r := [];
    var rest := keys;
    while rest != {}
      invariant StrictlyAscending(r)
      invariant rest <= keys
      invariant forall k :: k in r <==> k in keys && k !in rest
      decreases rest
    {
      var k :| k in rest;
      InsertAscending(r, k);
      r := Insert(r, k);
      rest := rest - {k};
    }
    SortedKeysAscending(keys);
    AscendingUnique(r, SortedKeys(keys));
  }

  /** The character of a decimal digit. */
  function Digit(d: nat): (c: char)
    requires d < 10
    ensures '0' <= c <= '9'
  {
    (48 + d) as char
  }

  predicate IsDigits(s: string)
  {
    forall i :: 0 <= i < |s| ==> '0' <= s[i] <= '9'
  }

  /** Integer.toString of a non-negative int: decimal digits, most significant
      first, no leading zero. */
  function Decimal(n: nat): (s: string)
    ensures |s| >= 1 && IsDigits(s)
    ensures s[0] == '0' ==> n == 0
  {
    if n < 10 then [Digit(n)] else Decimal(n / 10) + [Digit(n % 10)]
  }

  /** The value of a string of decimal digits (Integer.parseInt on such a string). */
  function DigitsValue(s: string): nat
    requires IsDigits(s)
  {
    if s == [] then 0
    else 10 * DigitsValue(s[..|s| - 1]) + (s[|s| - 1] as int - 48)
  }

  /** Reading the printed count back gives the count. */
  lemma {:induction false} DecimalRoundTrip(n: nat)
    ensures DigitsValue(Decimal(n)) == n
  {
    if n >= 10 {
      DecimalRoundTrip(n / 10);
      var s := Decimal(n);
      assert s[..|s| - 1] == Decimal(n / 10);
    }
  }

  /** Distinct counts are printed differently. */
  lemma DecimalInjective(m: nat, n: nat)
    requires Decimal(m) == Decimal(n)
    ensures m == n
  {
    DecimalRoundTrip(m);
    DecimalRoundTrip(n);
  }
}
