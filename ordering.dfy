/** Keys and values as the money-transfer state feeds them to its hasher,
    the order `sort_unstable` puts keys in, and the one ascending listing of
    a finite set of keys. */
module Ordering {

  /** One value written to the hasher: an account name or an amount or
      request id.  The bytes Rust's `Hash` writes for each are not modelled. */
  datatype Token = Text(text: string) | Int(value: int)

  /** Rust's `Ord` on strings: lexicographic, a proper prefix first. */
  predicate StrLess(x: string, y: string)
    decreases |x|
  {
    if y == [] then false
    else if x == [] then true
    else if x[0] != y[0] then x[0] < y[0]
    else StrLess(x[1..], y[1..])
  }

  /** A strict total order on tokens.  Only tokens of the same kind are ever
      sorted together; texts before integers is an arbitrary completion. */
  predicate Less(a: Token, b: Token)
  {
    match (a, b)
    case (Text(x), Text(y)) => StrLess(x, y)
    case (Int(x), Int(y)) => x < y
    case (Text(_), Int(_)) => true
    case (Int(_), Text(_)) => false
  }

  lemma {:induction false} StrLessIrreflexive(x: string)
    ensures !StrLess(x, x)
    decreases |x|
  {
    if x != [] {
      StrLessIrreflexive(x[1..]);
    }
  }

  lemma {:induction false} StrLessTransitive(x: string, y: string, z: string)
    requires StrLess(x, y) && StrLess(y, z)
    ensures StrLess(x, z)
    decreases |x|
  {
    if x != [] && x[0] == y[0] && y[0] == z[0] {
      StrLessTransitive(x[1..], y[1..], z[1..]);
    }
  }

  lemma {:induction false} StrLessTotal(x: string, y: string)
    requires x != y
    ensures StrLess(x, y) || StrLess(y, x)
    decreases |x|
  {
    if x != [] && y != [] && x[0] == y[0] {
      assert x == [x[0]] + x[1..] && y == [y[0]] + y[1..];
      StrLessTotal(x[1..], y[1..]);
    }
  }

  lemma LessIrreflexive(a: Token)
    ensures !Less(a, a)
  {
    if a.Text? {
      StrLessIrreflexive(a.text);
    }
  }

  lemma LessTransitive(a: Token, b: Token, c: Token)
    requires Less(a, b) && Less(b, c)
    ensures Less(a, c)
  {
    if a.Text? && b.Text? && c.Text? {
      StrLessTransitive(a.text, b.text, c.text);
    }
  }

  lemma LessTotal(a: Token, b: Token)
    requires a != b
    ensures Less(a, b) || Less(b, a)
  {
    if a.Text? && b.Text? {
      StrLessTotal(a.text, b.text);
    }
  }

  /** Strictly increasing, hence without repetitions. */
  ghost predicate Ascending(s: seq<Token>)
  {
    forall i, j :: 0 <= i < j < |s| ==> Less(s[i], s[j])
  }

  function Elements(s: seq<Token>): set<Token>
  {
    set x | x in s
  }

  predicate IsLeast(m: Token, keys: set<Token>)
  {
    m in keys && forall x :: x in keys && x != m ==> Less(m, x)
  }

  lemma {:induction false} LeastExists(keys: set<Token>)
    requires keys != {}
    ensures exists m :: IsLeast(m, keys)
    decreases |keys|
  {
    var x :| x in keys;
    if keys == {x} {
      assert IsLeast(x, keys);
    } else {
      LeastExists(keys - {x});
      var m :| IsLeast(m, keys - {x});
      if Less(x, m) {
        forall y | y in keys && y != x ensures Less(x, y) {
          if y != m {
            LessTransitive(x, m, y);
          }
        }
        assert IsLeast(x, keys);
      } else {
        LessTotal(x, m);
        assert IsLeast(m, keys);
      }
    }
  }

  lemma LeastUnique(m: Token, n: Token, keys: set<Token>)
    requires IsLeast(m, keys) && IsLeast(n, keys)
    ensures m == n
  {
    if m != n {
      assert Less(m, n) && Less(n, m);
      LessTransitive(m, n, m);
      LessIrreflexive(m);
    }
  }

  lemma LeastIsUnique(keys: set<Token>)
    ensures forall m, n :: IsLeast(m, keys) && IsLeast(n, keys) ==> m == n
  {
    forall m, n | IsLeast(m, keys) && IsLeast(n, keys) ensures m == n {
      LeastUnique(m, n, keys);
    }
  }

  lemma PrependLeast(m: Token, keys: set<Token>, rest: seq<Token>)
    requires IsLeast(m, keys) && Ascending(rest) && Elements(rest) == keys - {m}
    ensures Ascending([m] + rest) && Elements([m] + rest) == keys
  {
    var r := [m] + rest;
    forall i, j | 0 <= i < j < |r| ensures Less(r[i], r[j]) {
      assert r[j] == rest[j - 1] && rest[j - 1] in Elements(rest);
      if i > 0 {
        assert r[i] == rest[i - 1];
      }
    }
    assert forall x :: x in r <==> x == m || x in rest;
    assert Elements(r) == {m} + Elements(rest);
  }

  /** The keys of a finite set in ascending order: what sorting any listing
      of them yields. */
  function SortedKeys(keys: set<Token>): (r: seq<Token>)
    ensures Ascending(r) && Elements(r) == keys && |r| == |keys|
    decreases |keys|
  {
    if keys == {} then []
    else
      LeastExists(keys);
      LeastIsUnique(keys);
      var m :| IsLeast(m, keys);
      var rest := SortedKeys(keys - {m});
      PrependLeast(m, keys, rest);
      [m] + rest
  }

  /** A set has only one ascending listing, so the result of sorting does
      not depend on the order the keys were collected in. */
  lemma {:induction false} AscendingUnique(xs: seq<Token>, ys: seq<Token>)
    requires Ascending(xs) && Ascending(ys) && Elements(xs) == Elements(ys)
    ensures xs == ys
    decreases |xs|
  {
    assert xs != [] ==> xs[0] in Elements(xs);
    assert ys != [] ==> ys[0] in Elements(ys);
    if xs != [] && ys != [] {
      assert IsLeast(xs[0], Elements(xs)) by {
        forall x | x in Elements(xs) && x != xs[0] ensures Less(xs[0], x) {
          var i :| 0 <= i < |xs| && xs[i] == x;
        }
      }
      assert IsLeast(ys[0], Elements(ys)) by {
        forall y | y in Elements(ys) && y != ys[0] ensures Less(ys[0], y) {
          var i :| 0 <= i < |ys| && ys[i] == y;
        }
      }
      LeastUnique(xs[0], ys[0], Elements(xs));
      TailElements(xs);
      TailElements(ys);
      AscendingUnique(xs[1..], ys[1..]);
      assert xs == [xs[0]] + xs[1..] && ys == [ys[0]] + ys[1..];
    }
  }

  lemma TailElements(xs: seq<Token>)
    requires Ascending(xs) && xs != []
    ensures Ascending(xs[1..]) && Elements(xs[1..]) == Elements(xs) - {xs[0]}
  {
    forall x | x in xs[1..] ensures x != xs[0] {
      var i :| 0 <= i < |xs[1..]| && xs[1..][i] == x;
      assert Less(xs[0], xs[i + 1]);
      LessIrreflexive(xs[0]);
    }
    assert xs == [xs[0]] + xs[1..];
  }

  /** No key is listed twice. */
  predicate Distinct(s: seq<Token>)
  {
    forall i, j :: 0 <= i < j < |s| ==> s[i] != s[j]
  }

  /** `sort_unstable` on the keys collected from a map, which are distinct:
      the same keys, as many of them, in ascending order.  An insertion
      sort stands in for Rust's algorithm; only the result is modelled. */
  method Sort(keys: seq<Token>) returns (sorted: seq<Token>)
    requires Distinct(keys)
    ensures Ascending(sorted) && Elements(sorted) == Elements(keys) && |sorted| == |keys|
  {
    sorted := [];
    for i := 0 to |keys|
      invariant Ascending(sorted) && Elements(sorted) == Elements(keys[..i]) && |sorted| == i
    {
      assert keys[i] !in Elements(keys[..i]);
      sorted := Insert(sorted, keys[i]);
      assert keys[..i + 1] == keys[..i] + [keys[i]];
    }
    assert keys[..|keys|] == keys;
  }

  /** Place a key not yet listed into an ascending listing. */
  method Insert(xs: seq<Token>, k: Token) returns (ys: seq<Token>)
    requires Ascending(xs) && k !in Elements(xs)
    ensures Ascending(ys) && Elements(ys) == Elements(xs) + {k} && |ys| == |xs| + 1
  {
    var j := 0;
    while j < |xs| && Less(xs[j], k)
      invariant j <= |xs| && forall i :: 0 <= i < j ==> Less(xs[i], k)
    {
      j := j + 1;
    }
    if j < |xs| {
      assert xs[j] in Elements(xs);
      LessTotal(k, xs[j]);
    }
    InsertAscending(xs, j, k);
    ys := xs[..j] + [k] + xs[j..];
    assert xs == xs[..j] + xs[j..];
  }

  /** A key above the first `j` listed and below the rest fits between them. */
  lemma InsertAscending(xs: seq<Token>, j: nat, k: Token)
    requires Ascending(xs) && j <= |xs|
    requires forall i :: 0 <= i < j ==> Less(xs[i], k)
    requires j < |xs| ==> Less(k, xs[j])
    ensures Ascending(xs[..j] + [k] + xs[j..])
  {
    var ys := xs[..j] + [k] + xs[j..];
    forall a, b | 0 <= a < b < |ys| ensures Less(ys[a], ys[b]) {
      if b == j {
        assert ys[a] == xs[a];
      } else if a == j {
        assert ys[b] == xs[b - 1];
        if b - 1 > j {
          LessTransitive(k, xs[j], xs[b - 1]);
        }
      } else if a < j && j < b {
        assert ys[a] == xs[a] && ys[b] == xs[b - 1];
      }
    }
  }
}
